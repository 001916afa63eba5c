/** The submit logic of the "Add Department" form
    (src/components/AddNodeModal.js): its initial state, and `handleSubmit`,
    which encodes the checkboxes into flags, hands `{ name, flags }` to
    `onAddNode` and then calls `onClose`. */
module AddNodeModal {
  import opened StatusFlags

  /** The component's state: the name field and the three checkboxes. */
  datatype Form = Form(name: string, boxes: Checkboxes)

  /** What `onAddNode` receives: a name and the flags, and nothing else (no id,
      no parent). */
  datatype Payload = Payload(name: string, flags: int)

  /** The callbacks `handleSubmit` invokes, in order. */
  datatype Effect = AddNode(payload: Payload) | Close

  /** The form as it first appears. */
  function InitialForm(): (form: Form)
    ensures form.name == ""
    ensures form.boxes == Decode(0)
    ensures FlagsOf(form.boxes) == 0
  {
    Form("", Checkboxes(false, false, false))
  }

  /** `handleSubmit`: exactly one call of `onAddNode` with the name and the
      encoded flags, then `onClose`. */
  method HandleSubmit(form: Form) returns (effects: seq<Effect>)
    ensures |effects| == 2 && effects[0].AddNode? && effects[1] == Close
    ensures effects[0].payload == Payload(form.name, FlagsOf(form.boxes) as int)
    ensures 0 <= effects[0].payload.flags < 8
    ensures Decode(effects[0].payload.flags as bv32) == form.boxes
  {
    var flags := EncodeFlags(form.boxes.isActive, form.boxes.isDeleted, form.boxes.isApproved);
    effects := [AddNode(Payload(form.name, flags as int)), Close];
  }
}
