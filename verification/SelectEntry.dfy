/** The two 32-byte entries that say which firmware slot is current. */
module SelectEntry {
  import opened Bytes
  import opened Crc
  import opened Flash

  const ENTRY_SIZE: nat := 32
  const LABEL_SIZE: nat := 20

  datatype State = New | PendingVerify | Valid | Invalid | Aborted | Undefined

  function StateFrom(value: u32): State {
    match value
    case 0 => New
    case 1 => PendingVerify
    case 2 => Valid
    case 3 => Invalid
    case 4 => Aborted
    case _ => Undefined
  }

  function StateCode(state: State): u32 {
    match state
    case New => 0
    case PendingVerify => 1
    case Valid => 2
    case Invalid => 3
    case Aborted => 4
    case Undefined => U32_MAX
  }

  datatype EntrySlot = Zero | One {
    function Offset(): nat {
      match this
      case Zero => 0
      case One => SECTOR_SIZE
    }

    function Address(): nat {
      OTA_DATA.offset + Offset()
    }

    function Other(): EntrySlot {
      match this
      case Zero => One
      case One => Zero
    }
  }

  datatype Entry = Entry(seqNo: u32, seqLabel: seq<byte>, state: State, crc: Sum) {

    predicate ChecksumOk() {
      crc == SeqChecksum(seqNo)
    }

    /** The entry's number, or the erased value when its checksum does not hold. */
    function SlotSeq(): u32 {
      if ChecksumOk() then seqNo else U32_MAX
    }

    /** Checksum-ok and not the number that reads as erased. */
    predicate Live() {
      ChecksumOk() && seqNo != U32_MAX
    }
  }

  /** A number or a checksum that alone was changed never passes. */
  lemma LoneChangeDetected(e: Entry, seqNo: u32, crc: Sum)
    requires e.ChecksumOk()
    ensures e.(seqNo := seqNo).ChecksumOk() <==> seqNo == e.seqNo
    ensures e.(crc := crc).ChecksumOk() <==> crc == e.crc
  {
    hide SeqChecksum;
    if SeqChecksum(seqNo) == SeqChecksum(e.seqNo) {
      SeqChecksumInjective(seqNo, e.seqNo);
    }
  }

  /** The value of an entry after `reset`. */
  function ResetEntry(): Entry {
    Entry(U32_MAX, seq(LABEL_SIZE, _ => ERASED), Undefined, SeqChecksum(U32_MAX))
  }

  function Parse(b: seq<byte>): (e: Entry)
    requires |b| == ENTRY_SIZE
    ensures |e.seqLabel| == LABEL_SIZE
  {
    Entry(FromLe(b[0..4]), b[4..24], StateFrom(FromLe(b[24..28])), SumOf(b[28..32]))
  }

  function Encode(e: Entry): (b: seq<byte>)
    requires |e.seqLabel| == LABEL_SIZE
    ensures |b| == ENTRY_SIZE
  {
    ToLe(e.seqNo) + e.seqLabel + ToLe(StateCode(e.state)) + SumBytes(e.crc)
  }

  /** Reading back a written entry yields that entry. */
  lemma EntryRoundTrip(e: Entry)
    requires |e.seqLabel| == LABEL_SIZE
    ensures Parse(Encode(e)) == e
  {
    hide SumOf, SumBytes;
    var b := Encode(e);
    assert b[0..4] == ToLe(e.seqNo) && b[4..24] == e.seqLabel;
    assert b[24..28] == ToLe(StateCode(e.state)) && b[28..32] == SumBytes(e.crc);
    LeRoundTrip(e.seqNo);
    LeRoundTrip(StateCode(e.state));
    SumRoundTrip(e.crc);
  }

  /** The bytes of an entry in flash, and the entry they hold. */
  function EntryBytes(m: seq<byte>, slot: EntrySlot): (b: seq<byte>)
    requires |m| >= LAYOUT_END
    ensures |b| == ENTRY_SIZE
  {
    m[slot.Address()..slot.Address() + ENTRY_SIZE]
  }

  function EntryAt(m: seq<byte>, slot: EntrySlot): (e: Entry)
    requires |m| >= LAYOUT_END
    ensures |e.seqLabel| == LABEL_SIZE
  {
    Parse(EntryBytes(m, slot))
  }

  // ---- The layout, byte by byte ----

  /** The 32-bit number at address `at`. */
  function NumberAt(m: seq<byte>, at: nat): u32
    requires at + 4 <= |m|
  {
    m[at] as int + 0x100 * m[at + 1] as int + 0x1_0000 * m[at + 2] as int + 0x100_0000 * m[at + 3] as int
  }

  lemma NumberOfBytes(m: seq<byte>, at: nat)
    requires at + 4 <= |m|
    ensures FromLe(m[at..at + 4]) == NumberAt(m, at)
  {
  }

  lemma PartOfEntry(m: seq<byte>, a: nat, i: nat, j: nat)
    requires i <= j <= ENTRY_SIZE && a + ENTRY_SIZE <= |m|
    ensures m[a..a + ENTRY_SIZE][i..j] == m[a + i..a + j]
  {
    var b := m[a..a + ENTRY_SIZE];
    assert forall k :: i <= k < j ==> b[k] == m[a + k];
    forall k | 0 <= k < j - i ensures b[i..j][k] == m[a + i..a + j][k] {
      assert b[i + k] == m[a + (i + k)];
    }
  }

  lemma StateOfBytes(w: seq<byte>)
    requires |w| == 4
    ensures StateFrom(FromLe(w)) == New <==> w == [0, 0, 0, 0]
    ensures StateFrom(FromLe(w)) == PendingVerify <==> w == [1, 0, 0, 0]
    ensures StateFrom(FromLe(w)) == Valid <==> w == [2, 0, 0, 0]
    ensures StateFrom(FromLe(w)) == Invalid <==> w == [3, 0, 0, 0]
    ensures StateFrom(FromLe(w)) == Aborted <==> w == [4, 0, 0, 0]
    ensures StateFrom(FromLe(w)) == Undefined <==> !(w[0] <= 4 && w[1] == 0 && w[2] == 0 && w[3] == 0)
  {
  }

  /**
   What the 32 bytes of a sector mean: a number, a label, a state and a checksum.  The entry
   passes exactly if the checksum is what the generator makes of the number.
   */
  lemma EntryOnBytes(m: seq<byte>, e: EntrySlot)
    requires |m| >= LAYOUT_END
    ensures
      var (a, entry) := (if e == Zero then 0xD000 else 0xE000, EntryAt(m, e));
      && entry.seqNo == NumberAt(m, a)
      && entry.seqLabel == m[a + 4..a + 24]
      && (entry.state == New <==> m[a + 24..a + 28] == [0, 0, 0, 0])
      && (entry.state == PendingVerify <==> m[a + 24..a + 28] == [1, 0, 0, 0])
      && (entry.state == Valid <==> m[a + 24..a + 28] == [2, 0, 0, 0])
      && (entry.state == Invalid <==> m[a + 24..a + 28] == [3, 0, 0, 0])
      && (entry.state == Aborted <==> m[a + 24..a + 28] == [4, 0, 0, 0])
      && (entry.ChecksumOk() <==> Passes(NumberAt(m, a), NumberAt(m, a + 28)))
  {
    hide SeqChecksum, SumOf, Passes, FromLe, StateFrom, NumberAt;
    var (a, b) := (e.Address(), EntryBytes(m, e));
    assert a == if e == Zero then 0xD000 else 0xE000;
    PartOfEntry(m, a, 0, 4);
    PartOfEntry(m, a, 4, 24);
    PartOfEntry(m, a, 24, 28);
    PartOfEntry(m, a, 28, 32);
    NumberOfBytes(m, a);
    NumberOfBytes(m, a + 28);
    StateOfBytes(m[a + 24..a + 28]);
    StoredSumPasses(FromLe(b[0..4]), b[28..32]);
  }

  /** The bytes that are written for an entry. */
  lemma EncodedBytes(e: Entry)
    requires |e.seqLabel| == LABEL_SIZE
    ensures
      var b := Encode(e);
      && NumberAt(b, 0) == e.seqNo
      && b[4..24] == e.seqLabel
      && b[24..28] == (match e.state
                       case New => [0, 0, 0, 0]
                       case PendingVerify => [1, 0, 0, 0]
                       case Valid => [2, 0, 0, 0]
                       case Invalid => [3, 0, 0, 0]
                       case Aborted => [4, 0, 0, 0]
                       case Undefined => [0xFF, 0xFF, 0xFF, 0xFF])
      && (e.ChecksumOk() <==> Passes(e.seqNo, NumberAt(b, 28)))
  {
    hide SeqChecksum, SumOf, SumBytes, Passes, FromLe, NumberAt;
    var b := Encode(e);
    assert b[0..4] == ToLe(e.seqNo) && b[4..24] == e.seqLabel;
    assert b[24..28] == ToLe(StateCode(e.state)) && b[28..32] == SumBytes(e.crc);
    NumberOfBytes(b, 0);
    NumberOfBytes(b, 28);
    LeRoundTrip(e.seqNo);
    SumRoundTrip(e.crc);
    StoredSumPasses(e.seqNo, b[28..32]);
  }

  // ---- Interrupted entry writes ----

  /** `t` has the first `k` bytes of `n` and the rest of `o`. */
  ghost predicate Mixed(o: seq<byte>, n: seq<byte>, t: seq<byte>, k: nat) {
    && |o| == |n| == |t| && k <= |t|
    && forall i :: 0 <= i < |t| ==> t[i] == if i < k then n[i] else o[i]
  }

  const ERASED_ENTRY: seq<byte> := seq(ENTRY_SIZE, _ => ERASED)

  lemma ErasedEntry()
    ensures Parse(ERASED_ENTRY).seqNo == U32_MAX
    ensures Parse(ERASED_ENTRY).state == Undefined
    ensures Parse(ERASED_ENTRY).crc == ERASED_SUM
    ensures !Parse(ERASED_ENTRY).ChecksumOk()
  {
    hide SeqChecksum;
    var b := ERASED_ENTRY;
    assert b[28..32] == [ERASED, ERASED, ERASED, ERASED];
    ErasedSum();
    SeqChecksumErased(U32_MAX);
  }

  /** A state word overwritten byte by byte with the code of New holds its old state until it holds New. */
  lemma MixedState(o: seq<byte>, t: seq<byte>, k: nat)
    requires |o| == |t| == 4
    requires forall i :: 0 <= i < 4 ==> t[i] == if i < k then 0 else o[i]
    ensures StateFrom(FromLe(t)) == StateFrom(FromLe(o)) || StateFrom(FromLe(t)) == New
    ensures k > 0 ==> StateFrom(FromLe(t)) != Valid
    ensures k >= 4 ==> StateFrom(FromLe(t)) == New
  {
  }

  /** What every prefix of a write of the entry `n`, marked New, leaves of the fields. */
  lemma MixedFields(o: seq<byte>, n: Entry, t: seq<byte>, k: nat)
    requires |o| == ENTRY_SIZE && |n.seqLabel| == LABEL_SIZE && n.state == New
    requires Mixed(o, Encode(n), t, k)
    ensures k <= 28 ==> Parse(t).crc == Parse(o).crc
    ensures k >= 4 ==> Parse(t).seqNo == n.seqNo
    ensures Parse(o).seqNo >= n.seqNo ==> Parse(t).seqNo >= n.seqNo
    ensures k >= 28 ==> Parse(t).state == New
    ensures Parse(t).state == Parse(o).state || Parse(t).state == New
    ensures k > 24 ==> Parse(t).state != Valid
    ensures k == ENTRY_SIZE ==> Parse(t) == n
  {
    hide SeqChecksum, SumOf, SumBytes;
    var b := Encode(n);
    assert b[0..4] == ToLe(n.seqNo);
    assert b[24..28] == ToLe(0) == [0, 0, 0, 0];
    LeRoundTrip(n.seqNo);
    if k <= 28 {
      assert t[28..32] == o[28..32];
    }
    if k >= 4 {
      assert t[0..4] == b[0..4];
    }
    if Parse(o).seqNo >= n.seqNo {
      LowBytesReplaced(o[0..4], b[0..4], t[0..4], k);
    }
    if k <= 24 {
      assert t[24..28] == o[24..28];
    } else {
      MixedState(o[24..28], t[24..28], k - 24);
    }
    if k == ENTRY_SIZE {
      assert t == b;
      EntryRoundTrip(n);
    }
  }

  lemma TornOverErased(n: Entry, t: seq<byte>, k: nat)
    requires |n.seqLabel| == LABEL_SIZE && n.state == New && n.seqNo != 0 && k <= 28
    requires Mixed(ERASED_ENTRY, Encode(n), t, k)
    ensures !Parse(t).ChecksumOk()
  {
    hide SeqChecksum, Encode;
    MixedFields(ERASED_ENTRY, n, t, k);
    ErasedEntry();
    SeqChecksumErased(Parse(t).seqNo);
  }

  lemma TornOverOld(o: seq<byte>, n: Entry, t: seq<byte>, k: nat)
    requires |o| == ENTRY_SIZE && |n.seqLabel| == LABEL_SIZE && n.state == New && k <= 28
    requires Parse(o).ChecksumOk() && n.seqNo != Parse(o).seqNo
    requires Mixed(o, Encode(n), t, k)
    ensures t == o || !Parse(t).ChecksumOk()
  {
    hide SeqChecksum, Encode;
    MixedFields(o, n, t, k);
    if Parse(t).ChecksumOk() {
      SeqChecksumInjective(Parse(t).seqNo, Parse(o).seqNo);
      FromLeInjective(t[0..4], o[0..4]);
      assert k < 4;
      forall i | 0 <= i < ENTRY_SIZE ensures t[i] == o[i] {
        if i < 4 {
          assert t[i] == t[0..4][i] && o[i] == o[0..4][i];
        }
      }
    }
  }

  lemma MixedTail(o: seq<byte>, b: seq<byte>, t: seq<byte>, k: nat)
    requires |o| == ENTRY_SIZE && Mixed(o, b, t, k) && k >= 28
    requires t[28..32] == b[28..32]
    ensures t == b
  {
    forall i | 0 <= i < ENTRY_SIZE ensures t[i] == b[i] {
      if i >= 28 {
        assert t[i] == t[28..32][i - 28] && b[i] == b[28..32][i - 28];
      }
    }
  }

  lemma SameSum(o: seq<byte>, b: seq<byte>, t: seq<byte>, k: nat)
    requires |o| == ENTRY_SIZE && Mixed(o, b, t, k) && k >= 28
    requires SumOf(t[28..32]) == SumOf(b[28..32])
    ensures t == b
  {
    SumOfInjective(t[28..32], b[28..32]);
    MixedTail(o, b, t, k);
  }

  lemma TornInSum(o: seq<byte>, n: Entry, t: seq<byte>, k: nat)
    requires |o| == ENTRY_SIZE && |n.seqLabel| == LABEL_SIZE && n.state == New && k >= 28
    requires n.ChecksumOk()
    requires Mixed(o, Encode(n), t, k)
    ensures t == Encode(n) || !Parse(t).ChecksumOk()
  {
    hide SeqChecksum;
    MixedFields(o, n, t, k);
    EntryRoundTrip(n);
    assert Parse(Encode(n)).crc == n.crc;
    if Parse(t).crc == n.crc {
      SameSum(o, Encode(n), t, k);
    }
  }

  /** What may be left of an entry write: the old entry, the new one, or one that fails its checksum. */
  predicate Whole(o: seq<byte>, n: Entry, t: seq<byte>)
    requires |n.seqLabel| == LABEL_SIZE
  {
    |t| == ENTRY_SIZE && (t == o || t == Encode(n) || !Parse(t).ChecksumOk())
  }

  /** `t` has the first `k` bytes of `b` over `o`, or over erased flash. */
  ghost predicate CutEntry(o: seq<byte>, b: seq<byte>, t: seq<byte>, k: nat, erased: bool) {
    && |o| == |b| == |t| && k <= |t|
    && forall i :: 0 <= i < |t| ==> t[i] == if i < k then b[i] else if erased then ERASED else o[i]
  }

  lemma CutIsMixed(o: seq<byte>, b: seq<byte>, t: seq<byte>, k: nat, erased: bool)
    requires |o| == ENTRY_SIZE
    ensures CutEntry(o, b, t, k, erased) <==> Mixed(if erased then ERASED_ENTRY else o, b, t, k)
  {
    assert forall i :: 0 <= i < ENTRY_SIZE ==> ERASED_ENTRY[i] == ERASED;
  }

  /** The first `k` bytes of `b` over `o`. */
  function Overlay(o: seq<byte>, b: seq<byte>, k: nat): (t: seq<byte>)
    requires |o| == |b| && k <= |b|
    ensures |t| == |o| && Mixed(o, b, t, k)
  {
    b[..k] + o[k..]
  }

  predicate AllZero(b: seq<byte>) {
    forall i :: 0 <= i < |b| ==> b[i] == 0
  }

  /**
   Writing `n` over `o` can pass through a third entry that passes its checksum.  If `o` passes,
   that takes the very number it has and a state word not cleared at one stroke; if it fails,
   its checksum must be that of its number with the lowest bytes already replaced.
   */
  ghost predicate Revives(o: seq<byte>, n: Entry)
    requires |o| == ENTRY_SIZE && |n.seqLabel| == LABEL_SIZE
  {
    var b := Encode(n);
    if Parse(o).ChecksumOk() then
      n.seqNo == Parse(o).seqNo && exists k :: 24 < k < 28 && !AllZero(o[24..k]) && !AllZero(o[k..28])
    else
      exists k :: 1 <= k <= 4 && o[k..] != b[k..] && SeqChecksum(FromLe(Overlay(o[0..4], b[0..4], k))) == Parse(o).crc
  }

  lemma OverlayWords(o: seq<byte>, b: seq<byte>, t: seq<byte>, k: nat)
    requires |o| == ENTRY_SIZE && Mixed(o, b, t, k)
    ensures k <= 4 ==> t[0..4] == Overlay(o[0..4], b[0..4], k)
    ensures k >= 4 ==> t[0..4] == b[0..4] == Overlay(o[0..4], b[0..4], 4)
    ensures k <= 28 ==> t[28..32] == o[28..32]
    ensures k <= 24 ==> t[24..28] == o[24..28]
  {
  }

  lemma NewStateWord(n: Entry)
    requires |n.seqLabel| == LABEL_SIZE && n.state == New
    ensures Encode(n)[0..4] == ToLe(n.seqNo) && Encode(n)[4..24] == n.seqLabel
    ensures Encode(n)[24..28] == [0, 0, 0, 0] && Encode(n)[28..32] == SumBytes(n.crc)
    ensures FromLe(Encode(n)[0..4]) == n.seqNo && SumOf(Encode(n)[28..32]) == n.crc
  {
    hide SumOf, SumBytes, FromLe;
    LeRoundTrip(n.seqNo);
    SumRoundTrip(n.crc);
    assert ToLe(0) == [0, 0, 0, 0];
  }

  /** Over an entry that fails its checksum. */
  lemma TornOverBad(o: seq<byte>, n: Entry, t: seq<byte>, k: nat)
    requires |o| == ENTRY_SIZE && |n.seqLabel| == LABEL_SIZE && n.state == New && k <= 28
    requires !Parse(o).ChecksumOk() && Mixed(o, Encode(n), t, k)
    ensures Whole(o, n, t) || Revives(o, n)
  {
    hide SeqChecksum, Encode, SumOf, FromLe;
    var (b, j) := (Encode(n), if k < 4 then k else 4);
    OverlayWords(o, b, t, k);
    if k == 0 {
      assert t == o;
    } else if o[j..] == b[j..] {
      forall i | 0 <= i < ENTRY_SIZE ensures t[i] == b[i] {
        if j <= i {
          assert o[j..][i - j] == b[j..][i - j];
        }
      }
    }
  }

  /** Over an entry that passes its checksum. */
  lemma TornOverGood(o: seq<byte>, n: Entry, t: seq<byte>, k: nat)
    requires |o| == ENTRY_SIZE && |n.seqLabel| == LABEL_SIZE && n.state == New && n.ChecksumOk() && k <= 28
    requires Parse(o).ChecksumOk() && n.seqLabel == Parse(o).seqLabel && Mixed(o, Encode(n), t, k)
    ensures Whole(o, n, t) || Revives(o, n)
  {
    hide SeqChecksum, Encode, SumOf, FromLe, SumBytes;
    if n.seqNo != Parse(o).seqNo {
      TornOverOld(o, n, t, k);
    } else {
      var b := Encode(n);
      NewStateWord(n);
      SameNumber(o, n, t, k);
      if 24 < k < 28 && AllZero(o[24..k]) {
        ClearedBefore(o, b, t, k);
      } else if 24 < k < 28 && AllZero(o[k..28]) {
        ClearedAfter(o, b, t, k);
      }
    }
  }

  lemma ClearedBefore(o: seq<byte>, b: seq<byte>, t: seq<byte>, k: nat)
    requires |o| == ENTRY_SIZE && Mixed(o, b, t, k) && 24 < k < 28
    requires o[0..4] == b[0..4] && o[4..24] == b[4..24] && b[24..28] == [0, 0, 0, 0] && AllZero(o[24..k])
    ensures t == o
  {
    forall i | 0 <= i < ENTRY_SIZE ensures t[i] == o[i] {
      if i < 4 {
        assert o[0..4][i] == b[0..4][i];
      } else if i < 24 {
        assert o[4..24][i - 4] == b[4..24][i - 4];
      } else if i < k {
        assert o[24..k][i - 24] == 0 && b[24..28][i - 24] == 0;
      }
    }
  }

  lemma ClearedAfter(o: seq<byte>, b: seq<byte>, t: seq<byte>, k: nat)
    requires |o| == ENTRY_SIZE && Mixed(o, b, t, k) && 24 < k < 28
    requires b[24..28] == [0, 0, 0, 0] && o[28..32] == b[28..32] && AllZero(o[k..28])
    ensures t == b
  {
    forall i | 0 <= i < ENTRY_SIZE ensures t[i] == b[i] {
      if k <= i < 28 {
        assert o[k..28][i - k] == 0 && b[24..28][i - 24] == 0;
      } else if 28 <= i {
        assert o[28..32][i - 28] == b[28..32][i - 28];
      }
    }
  }

  /** The same number and label written again differ in the state word only. */
  lemma SameNumber(o: seq<byte>, n: Entry, t: seq<byte>, k: nat)
    requires |o| == ENTRY_SIZE && |n.seqLabel| == LABEL_SIZE && n.state == New && n.ChecksumOk() && k <= 28
    requires Parse(o).ChecksumOk() && n.seqLabel == Parse(o).seqLabel && n.seqNo == Parse(o).seqNo
    requires Mixed(o, Encode(n), t, k)
    ensures o[0..4] == Encode(n)[0..4] && o[4..24] == Encode(n)[4..24] && o[28..32] == Encode(n)[28..32]
    ensures k <= 24 ==> t == o
    ensures k == 28 ==> t == Encode(n)
    ensures Parse(t).ChecksumOk()
  {
    hide SeqChecksum, Encode, SumOf, FromLe, SumBytes;
    var b := Encode(n);
    NewStateWord(n);
    FromLeInjective(o[0..4], b[0..4]);
    SumOfInjective(o[28..32], b[28..32]);
    SameOutsideState(o, b, t, k);
  }

  lemma SameOutsideState(o: seq<byte>, b: seq<byte>, t: seq<byte>, k: nat)
    requires |o| == ENTRY_SIZE && Mixed(o, b, t, k) && k <= 28
    requires o[0..4] == b[0..4] && o[4..24] == b[4..24] && o[28..32] == b[28..32]
    ensures k <= 24 ==> t == o
    ensures k == 28 ==> t == b
    ensures t[0..4] == o[0..4] && t[28..32] == o[28..32]
  {
    forall i | 0 <= i < ENTRY_SIZE && !(24 <= i < 28) ensures o[i] == b[i] {
      if i < 4 {
        assert o[0..4][i] == b[0..4][i];
      } else if i < 24 {
        assert o[4..24][i - 4] == b[4..24][i - 4];
      } else {
        assert o[28..32][i - 28] == b[28..32][i - 28];
      }
    }
  }

  /** Over an entry that passes under another number, and over erased flash, nothing is revived. */
  lemma NothingToRevive(o: seq<byte>, n: Entry)
    requires |o| == ENTRY_SIZE && |n.seqLabel| == LABEL_SIZE && n.state == New && n.seqNo != 0
    requires Blank(o) || (Parse(o).ChecksumOk() && Parse(o).seqNo != n.seqNo)
    ensures !Revives(o, n)
  {
    hide SeqChecksum, Encode, SumOf;
    if Blank(o) {
      ErasedEntry();
      assert o == ERASED_ENTRY;
      NewStateWord(n);
      var b := Encode(n);
      forall k | 1 <= k <= 4
        ensures SeqChecksum(FromLe(Overlay(o[0..4], b[0..4], k))) != ERASED_SUM
      {
        var w := Overlay(o[0..4], b[0..4], k);
        SeqChecksumErased(FromLe(w));
        if k < 4 {
          assert w[3] == ERASED;
        } else {
          assert w == b[0..4];
        }
      }
    }
  }

  /** A write that can revive something does, at some point. */
  lemma RevivedEntry(o: seq<byte>, n: Entry) returns (k: nat)
    requires |o| == ENTRY_SIZE && |n.seqLabel| == LABEL_SIZE && n.state == New && n.ChecksumOk()
    requires Parse(o).ChecksumOk() ==> n.seqLabel == Parse(o).seqLabel
    requires Revives(o, n)
    ensures k <= ENTRY_SIZE && !Whole(o, n, Overlay(o, Encode(n), k))
  {
    hide SeqChecksum, Encode, SumOf, FromLe, SumBytes;
    var b := Encode(n);
    NewStateWord(n);
    if Parse(o).ChecksumOk() {
      k :| 24 < k < 28 && !AllZero(o[24..k]) && !AllZero(o[k..28]);
      var t := Overlay(o, b, k);
      SameNumber(o, n, t, k);
      var i :| 0 <= i < k - 24 && o[24..k][i] != 0;
      assert t[24 + i] == b[24..28][i] == 0 && o[24 + i] != 0;
      var j :| 0 <= j < 28 - k && o[k..28][j] != 0;
      assert t[k + j] == o[k + j] != 0 && b[k + j] == b[24..28][k + j - 24] == 0;
    } else {
      k :| 1 <= k <= 4 && o[k..] != b[k..] && SeqChecksum(FromLe(Overlay(o[0..4], b[0..4], k))) == Parse(o).crc;
      var t := Overlay(o, b, k);
      OverlayWords(o, b, t, k);
      assert t[k..] == o[k..];
    }
  }

  /**
   A commit interrupted after any number of bytes, over the old entry or over erased flash, leaves
   the old entry, the new entry, or one that fails its checksum, exactly unless it can revive a
   third.
   */
  lemma TornEntry(o: seq<byte>, n: Entry)
    requires |o| == ENTRY_SIZE && |n.seqLabel| == LABEL_SIZE && n.state == New
    requires n.ChecksumOk() && n.seqNo != 0 && (Parse(o).ChecksumOk() ==> n.seqLabel == Parse(o).seqLabel)
    ensures !Revives(o, n) <==>
            forall t, k, erased :: CutEntry(o, Encode(n), t, k, erased) ==> Whole(o, n, t)
  {
    hide SeqChecksum, Encode, Parse, Mixed, CutEntry, Whole, Revives;
    if Revives(o, n) {
      var k := RevivedEntry(o, n);
      CutIsMixed(o, Encode(n), Overlay(o, Encode(n), k), k, false);
    } else {
      forall t, k, erased | CutEntry(o, Encode(n), t, k, erased) ensures Whole(o, n, t) {
        TornEntryAt(o, n, t, k, erased);
      }
    }
  }

  lemma MixedLength(o: seq<byte>, n: seq<byte>, t: seq<byte>, k: nat)
    requires Mixed(o, n, t, k)
    ensures |t| == |n|
  {
  }

  lemma TornEntryAt(o: seq<byte>, n: Entry, t: seq<byte>, k: nat, erased: bool)
    requires |o| == ENTRY_SIZE && |n.seqLabel| == LABEL_SIZE && n.state == New
    requires n.ChecksumOk() && n.seqNo != 0 && (Parse(o).ChecksumOk() ==> n.seqLabel == Parse(o).seqLabel)
    requires !Revives(o, n) && CutEntry(o, Encode(n), t, k, erased)
    ensures Whole(o, n, t)
  {
    hide SeqChecksum, Encode, Parse, Mixed, CutEntry, Revives;
    CutIsMixed(o, Encode(n), t, k, erased);
    var base := if erased then ERASED_ENTRY else o;
    MixedLength(base, Encode(n), t, k);
    if k >= 28 {
      TornInSum(base, n, t, k);
    } else if erased {
      TornOverErased(n, t, k);
    } else if Parse(o).ChecksumOk() {
      TornOverGood(o, n, t, k);
    } else {
      TornOverBad(o, n, t, k);
    }
  }

  // ---- The entry as the firmware handles it ----

  class OtaSelectEntry {
    var otaSeq: u32
    var seqLabel: seq<byte>
    var otaState: State
    var crc: Sum

    ghost predicate Valid()
      reads this
    {
      |seqLabel| == LABEL_SIZE
    }

    function View(): (e: Entry)
      reads this
    {
      Entry(otaSeq, seqLabel, otaState, crc)
    }

    constructor (e: Entry)
      requires |e.seqLabel| == LABEL_SIZE
      ensures Valid() && View() == e
    {
      otaSeq, seqLabel, otaState, crc := e.seqNo, e.seqLabel, e.state, e.crc;
    }

    /** Forgets what was read: the entry of an erased sector, with a matching checksum. */
    method Reset()
      modifies this
      ensures Valid() && View() == ResetEntry() && View().ChecksumOk()
    {
      hide SeqChecksum;
      otaSeq := U32_MAX;
      seqLabel := seq(LABEL_SIZE, _ => ERASED);
      otaState := Undefined;
      crc := SeqChecksum(otaSeq);
    }

    /** Writes the entry to its sector; without `updateCrc` only if its checksum holds. */
    method Write(slot: EntrySlot, flash: FlashStorage, updateCrc: bool) returns (r: EntryResult<()>)
      requires Valid() && flash.Valid()
      modifies this, flash.cells
      ensures Valid()
      ensures View() == if updateCrc then old(View()).(crc := SeqChecksum(old(otaSeq))) else old(View())
      ensures r == Failed(ChecksumInvalid) <==> !View().ChecksumOk()
      ensures r == Failed(ChecksumInvalid) ==> flash.cells[..] == old(flash.cells[..])
      ensures r.Done? ==> flash.cells[..] == Written(old(flash.cells[..]), slot.Address(), Encode(View()))
      ensures r.Failed? ==> r.error == ChecksumInvalid || r.error == Storage(IoError)
      ensures r == Failed(Storage(IoError)) ==>
                && !flash.reliable
                && Torn(old(flash.cells[..]), flash.cells[..], slot.Address(), Encode(View()))
    {
      hide SeqChecksum, Encode, Written, Torn;
      if updateCrc {
        crc := SeqChecksum(otaSeq);
      } else if crc != SeqChecksum(otaSeq) {
        return Failed(ChecksumInvalid);
      }
      r := Store(slot, flash);
    }

    /** Writes the entry's bytes to its sector. */
    method Store(slot: EntrySlot, flash: FlashStorage) returns (r: EntryResult<()>)
      requires Valid() && flash.Valid()
      modifies flash.cells
      ensures r.Done? ==> flash.cells[..] == Written(old(flash.cells[..]), slot.Address(), Encode(View()))
      ensures r.Failed? ==>
                && r.error == Storage(IoError) && !flash.reliable
                && Torn(old(flash.cells[..]), flash.cells[..], slot.Address(), Encode(View()))
    {
      hide SeqChecksum, Encode, Written, Torn;
      assert slot.Address() + ENTRY_SIZE <= flash.cells.Length;
      var w := flash.Write(slot.Address(), Encode(View()));
      match w
      case Ok(_) => return Done(());
      case Err(e) =>
        assert e == IoError;
        return Failed(Storage(e));
    }

    /** Reads the entry in a sector. */
    static method Read(slot: EntrySlot, flash: FlashStorage) returns (r: EntryResult<OtaSelectEntry>)
      requires flash.Valid()
      ensures r.Done? ==> fresh(r.value) && r.value.Valid() && r.value.View() == EntryAt(flash.cells[..], slot)
      ensures r.Failed? ==> r.error == Storage(IoError) && !flash.reliable
    {
      assert slot.Address() + ENTRY_SIZE <= flash.cells.Length;
      var b := flash.Read(slot.Address(), ENTRY_SIZE);
      match b {
        case Ok(buf) =>
          assert buf == EntryBytes(flash.cells[..], slot);
          var e := new OtaSelectEntry(Parse(buf));
          return Done(e);
        case Err(e) =>
          assert e == IoError;
          return Failed(Storage(e));
      }
    }
  }

  datatype Error = ChecksumInvalid | TooLarge | Storage(error: StorageError)
  datatype EntryResult<+T> = Done(value: T) | Failed(error: Error)
}
