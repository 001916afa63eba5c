/** The submit logic of the "Edit Node" form (src/components/EditNodeModal.js).
    The form is opened on a node's `data` (GraphUtils.NodeData); its state is
    the name, the three checkboxes and the parent id, which has no setter and
    is shown read-only. `handleSubmit` encodes the checkboxes into flags,
    hands `{ id, parent_id, name, flags }` to `onEditNode` and then calls
    `onClose`. */
module EditNodeModal {
  import opened StatusFlags
  import opened GraphUtils

  /** The component's state. */
  datatype Form = Form(name: string, boxes: Checkboxes, parentId: Option<int>)

  /** What `onEditNode` receives. */
  datatype Payload = Payload(id: int, parentId: Option<int>, name: string, flags: int)

  /** The callbacks `handleSubmit` invokes, in order. */
  datatype Effect = EditNode(payload: Payload) | Close

  /** The form as it first appears for `nodeData`: the name field holds the
      node's label, the checkboxes its three status flags, and the parent id
      its parent_id. */
  function InitialForm<H>(nodeData: NodeData<H>): (form: Form)
    ensures form.name == nodeData.labelText
    ensures form.boxes == Checkboxes(nodeData.isActive, nodeData.isDeleted, nodeData.isApproved)
    ensures form.parentId == nodeData.parentId
  {
    Form(nodeData.labelText, Checkboxes(nodeData.isActive, nodeData.isDeleted, nodeData.isApproved),
         nodeData.parentId)
  }

  /** A change made through one of the inputs' `onChange` handlers. The parent
      id input is read-only, so no input changes it. */
  datatype Input =
    | NameTyped(name: string)
    | ActiveChecked(checked: bool)
    | DeletedChecked(checked: bool)
    | ApprovedChecked(checked: bool)

  /** The state after one `onChange` setter has run. */
  function Apply(form: Form, input: Input): Form {
    match input
    case NameTyped(name) => form.(name := name)
    case ActiveChecked(checked) => form.(boxes := form.boxes.(isActive := checked))
    case DeletedChecked(checked) => form.(boxes := form.boxes.(isDeleted := checked))
    case ApprovedChecked(checked) => form.(boxes := form.boxes.(isApproved := checked))
  }

  /** The form after a sequence of user changes, applied in order. */
  function ApplyAll(form: Form, inputs: seq<Input>): Form
    decreases |inputs|
  {
    if inputs == [] then form else ApplyAll(Apply(form, inputs[0]), inputs[1..])
  }

  /** Whatever the user types or ticks, the parent id stays as it was. */
  lemma {:induction false} ParentIdReadOnly(form: Form, inputs: seq<Input>)
    ensures ApplyAll(form, inputs).parentId == form.parentId
    decreases |inputs|
  {
    if inputs != [] {
      ParentIdReadOnly(Apply(form, inputs[0]), inputs[1..]);
    }
  }

  /** The payload `handleSubmit` builds for the current state. */
  function PayloadOf<H>(nodeData: NodeData<H>, form: Form): (p: Payload)
    ensures p.id == nodeData.id && p.parentId == form.parentId && p.name == form.name
    ensures 0 <= p.flags < 8 && Decode(p.flags as bv32) == form.boxes
  {
    Payload(nodeData.id, form.parentId, form.name, FlagsOf(form.boxes) as int)
  }

  /** `handleSubmit`: exactly one call of `onEditNode`, then `onClose`. */
  method HandleSubmit<H>(nodeData: NodeData<H>, form: Form) returns (effects: seq<Effect>)
    ensures effects == [EditNode(PayloadOf(nodeData, form)), Close]
  {
    var flags := EncodeFlags(form.boxes.isActive, form.boxes.isDeleted, form.boxes.isApproved);
    effects := [EditNode(Payload(nodeData.id, form.parentId, form.name, flags as int)), Close];
  }

  /** Whatever the user changes before saving, the submitted id and parent_id
      are the node's own. */
  lemma SubmittedKeysUnchanged<H>(nodeData: NodeData<H>, inputs: seq<Input>)
    ensures PayloadOf(nodeData, ApplyAll(InitialForm(nodeData), inputs)).id == nodeData.id
    ensures PayloadOf(nodeData, ApplyAll(InitialForm(nodeData), inputs)).parentId == nodeData.parentId
  {
    ParentIdReadOnly(InitialForm(nodeData), inputs);
  }

  /** Opening the form on a node that processData built for a record and
      saving it untouched submits the record's own id, its parent id, its
      name, and flags that decode to its three status flags. */
  lemma UntouchedEditResubmitsRecord<H>(item: Record, parentId: Option<int>, h: Handlers<H>)
    ensures var data := NodeFor(item, parentId, h).data;
            var p := PayloadOf(data, InitialForm(data));
            && p.id == item.id && p.parentId == parentId && p.name == item.name
            && Decode(p.flags as bv32) == Checkboxes(item.isActive, item.isDeleted, item.isApproved)
  {
  }
}
