/** The 3-bit status encoding that both department forms submit: bit 0
    (value 1) for active, bit 1 (value 2) for deleted, bit 2 (value 4) for
    approved. JavaScript's `|=` works on 32-bit integers, so the flags are
    modelled as `bv32`. */
module StatusFlags {

  /** The three checkboxes of a department form. */
  datatype Checkboxes = Checkboxes(isActive: bool, isDeleted: bool, isApproved: bool)

  const ActiveBit: bv32 := 1
  const DeletedBit: bv32 := 2
  const ApprovedBit: bv32 := 4

  /** The checkboxes read back from a flags value, one bit each. */
  function Decode(flags: bv32): Checkboxes {
    Checkboxes(flags & ActiveBit != 0, flags & DeletedBit != 0, flags & ApprovedBit != 0)
  }

  /** The flags value of a set of checkboxes, as a sum of the weights of the
      boxes that are ticked. */
  function FlagsOf(boxes: Checkboxes): (flags: bv32)
    ensures flags < 8
    ensures flags & ActiveBit != 0 <==> boxes.isActive
    ensures flags & DeletedBit != 0 <==> boxes.isDeleted
    ensures flags & ApprovedBit != 0 <==> boxes.isApproved
    ensures Decode(flags) == boxes
  {
    (if boxes.isActive then 1 else 0)
      + (if boxes.isDeleted then 2 else 0)
      + (if boxes.isApproved then 4 else 0)
  }

  /** Every value in 0..7 is the encoding of exactly one set of checkboxes:
      decoding then encoding gives the value back. */
  lemma EncodeDecode(flags: bv32)
    requires flags < 8
    ensures FlagsOf(Decode(flags)) == flags
  {
  }

  /** The encoding is injective. */
  lemma FlagsOfInjective(a: Checkboxes, b: Checkboxes)
    ensures FlagsOf(a) == FlagsOf(b) <==> a == b
  {
    assert Decode(FlagsOf(a)) == a && Decode(FlagsOf(b)) == b;
  }

  /** The body of `handleSubmit` up to the callback: `let flags = 0` followed
      by one conditional `|=` per checkbox. */
  method EncodeFlags(isActive: bool, isDeleted: bool, isApproved: bool) returns (flags: bv32)
    ensures flags == FlagsOf(Checkboxes(isActive, isDeleted, isApproved))
    ensures 0 <= flags as int < 8
    ensures flags & ActiveBit != 0 <==> isActive
    ensures flags & DeletedBit != 0 <==> isDeleted
    ensures flags & ApprovedBit != 0 <==> isApproved
    ensures Decode(flags) == Checkboxes(isActive, isDeleted, isApproved)
  {
    flags := 0;
    if isActive {
      flags := flags | ActiveBit;
    }
    if isDeleted {
      flags := flags | DeletedBit;
    }
    if isApproved {
      flags := flags | ApprovedBit;
    }
  }
}
