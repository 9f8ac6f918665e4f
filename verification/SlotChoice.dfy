/** Which slot an update goes to, and which slot a commit makes current. */
module SlotChoice {
  import opened Bytes
  import opened Crc
  import opened Flash
  import opened SelectEntry

  datatype Slot = NoSlot | Slot0 | Slot1 {
    function Number(): nat {
      match this
      case NoSlot => 0
      case Slot0 => 0
      case Slot1 => 1
    }

    function Area(): Partition {
      if Number() == 0 then OTA_0 else OTA_1
    }
  }

  /** The firmware slot an entry stands for. */
  function SlotOf(e: EntrySlot): (s: Slot)
    ensures s != NoSlot
  {
    match e
    case Zero => Slot0
    case One => Slot1
  }

  /** The slot to update, decided on the entries as they are in flash. */
  function UpdateChoice(e0: Entry, e1: Entry): (s: Slot)
    ensures s != NoSlot
  {
    if e0.state != Valid then Slot0
    else if e1.state != Valid then Slot1
    else UpdateByNumber(e0.SlotSeq(), e1.SlotSeq())
  }

  function UpdateByNumber(seq0: u32, seq1: u32): (s: Slot)
    ensures s != NoSlot
  {
    if seq0 == U32_MAX && seq1 == U32_MAX then Slot1
    else if seq0 == U32_MAX then Slot0
    else if seq1 == U32_MAX then Slot1
    else if seq0 > seq1 then Slot1
    else Slot0
  }

  /** An entry as the commit sees it: one whose checksum fails counts as erased. */
  function Cleaned(e: Entry): (c: Entry)
    requires |e.seqLabel| == LABEL_SIZE
    ensures |c.seqLabel| == LABEL_SIZE
    ensures c.ChecksumOk()
  {
    if e.ChecksumOk() then e else ResetEntry()
  }

  /** The next sequence number and the slot it would go to, by the numbers of two cleaned entries. */
  function NextSeq(seq0: u32, seq1: u32): (u32, Slot) {
    if seq0 == U32_MAX && seq1 == U32_MAX then (1, Slot0)
    else if seq0 == U32_MAX then (seq1 + 1, Slot0)
    else if seq1 == U32_MAX then (seq0 + 1, Slot1)
    else if seq1 > seq0 then (seq1 + 1, Slot0)
    else (seq0 + 1, Slot1)
  }

  /** The slot a commit goes to, given where the numbers point, by the states of two cleaned entries. */
  function SlotByState(state0: State, state1: State, byNumber: Slot): Slot {
    if state0 == Valid && state1 == Valid then byNumber
    else if state0 == Valid then Slot1
    else if state1 == Valid then Slot0
    else Slot1
  }

  function CommitSeq(e0: Entry, e1: Entry): u32
    requires |e0.seqLabel| == |e1.seqLabel| == LABEL_SIZE
  {
    NextSeq(Cleaned(e0).seqNo, Cleaned(e1).seqNo).0
  }

  function CommitChoice(e0: Entry, e1: Entry): Slot
    requires |e0.seqLabel| == |e1.seqLabel| == LABEL_SIZE
  {
    var (c0, c1) := (Cleaned(e0), Cleaned(e1));
    SlotByState(c0.state, c1.state, NextSeq(c0.seqNo, c1.seqNo).1)
  }

  /** The entry a commit writes to its slot, whose entry was `e`. */
  function NewEntry(e: Entry, seqNo: u32): (n: Entry)
    requires |e.seqLabel| == LABEL_SIZE
    ensures |n.seqLabel| == LABEL_SIZE
    ensures n.ChecksumOk() && n.state == New && n.seqNo == seqNo
  {
    Entry(seqNo, Cleaned(e).seqLabel, New, SeqChecksum(seqNo))
  }

  // ---- The two decisions ----

  /** Confirmed and intact. */
  predicate Confirmed(e: Entry) {
    e.state == Valid && e.ChecksumOk()
  }

  /** The entries on which the update goes to one slot and the commit to the other. */
  predicate Disagree(e0: Entry, e1: Entry) {
    || (e0.state != Valid && !Confirmed(e1))
    || (Confirmed(e0) && Confirmed(e1) && e0.seqNo == e1.seqNo)
    || (e0.state == Valid && !e0.ChecksumOk() && Confirmed(e1) && e1.seqNo == U32_MAX)
  }

  /** The two decisions compared, given which checksums hold. */
  lemma AgreementByParts(ok0: bool, seq0: u32, state0: State, ok1: bool, seq1: u32, state1: State)
    ensures
      var (q0, q1) := (if ok0 then seq0 else U32_MAX, if ok1 then seq1 else U32_MAX);
      var update :=
        if state0 != Valid then Slot0 else if state1 != Valid then Slot1 else UpdateByNumber(q0, q1);
      var commit :=
        SlotByState(if ok0 then state0 else Undefined, if ok1 then state1 else Undefined, NextSeq(q0, q1).1);
      var (confirmed0, confirmed1) := (state0 == Valid && ok0, state1 == Valid && ok1);
      update == commit <==>
      !(|| (state0 != Valid && !confirmed1)
        || (confirmed0 && confirmed1 && seq0 == seq1)
        || (state0 == Valid && !ok0 && confirmed1 && seq1 == U32_MAX))
  {
  }

  /** The slot updated is the slot committed, except on exactly the entries that `Disagree`. */
  lemma ExactAgreement(e0: Entry, e1: Entry)
    requires |e0.seqLabel| == |e1.seqLabel| == LABEL_SIZE
    ensures UpdateChoice(e0, e1) == CommitChoice(e0, e1) <==> !Disagree(e0, e1)
  {
    hide SeqChecksum;
    AgreementByParts(e0.ChecksumOk(), e0.seqNo, e0.state, e1.ChecksumOk(), e1.seqNo, e1.state);
  }

  /** Confirmed, with a number that does not read as erased. */
  predicate Bootable(e: Entry) {
    e.state == Valid && e.Live()
  }

  /**
   As long as `c` is confirmed and the other entry is not confirmed with at least its number,
   the update goes to the other slot, and so does the commit.
   */
  lemma ChoicesSpareNewest(e0: Entry, e1: Entry, c: EntrySlot)
    requires |e0.seqLabel| == |e1.seqLabel| == LABEL_SIZE
    requires c == Zero ==> Bootable(e0) && (Bootable(e1) ==> e1.seqNo < e0.seqNo)
    requires c == One ==> Bootable(e1) && (Bootable(e0) ==> e0.seqNo < e1.seqNo)
    requires Confirmed(e0) && Confirmed(e1) ==> Bootable(e0) && Bootable(e1)
    ensures UpdateChoice(e0, e1) == CommitChoice(e0, e1) == SlotOf(c.Other())
  {
    hide SeqChecksum;
    ExactAgreement(e0, e1);
  }

  /** The highest number of a live entry, 0 if there is none. */
  function Highest(e0: Entry, e1: Entry): u32 {
    if e0.Live() && e1.Live() then (if e0.seqNo > e1.seqNo then e0.seqNo else e1.seqNo)
    else if e0.Live() then e0.seqNo
    else if e1.Live() then e1.seqNo
    else 0
  }

  /** A commit's number is one more than every number in use. */
  lemma CommitSeqIsNext(e0: Entry, e1: Entry)
    requires |e0.seqLabel| == |e1.seqLabel| == LABEL_SIZE
    ensures CommitSeq(e0, e1) as int == Highest(e0, e1) as int + 1
  {
    hide SeqChecksum;
  }
}
