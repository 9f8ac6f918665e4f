/** The update protocol: prepare, write the image in chunks, commit. */
module Ota {
  import opened Bytes
  import opened Crc
  import opened Flash
  import opened SelectEntry
  import opened SlotChoice
  import opened Wrappers

  /** A call returns, fails with an error, or panics. */
  datatype Outcome = Success | Failure(error: Error) | Panic

  function ChosenSlot(m: seq<byte>): Slot
    requires |m| >= LAYOUT_END
  {
    UpdateChoice(EntryAt(m, Zero), EntryAt(m, One))
  }

  function CommitSlot(m: seq<byte>): Slot
    requires |m| >= LAYOUT_END
  {
    CommitChoice(EntryAt(m, Zero), EntryAt(m, One))
  }

  function NextNumber(m: seq<byte>): u32
    requires |m| >= LAYOUT_END
  {
    CommitSeq(EntryAt(m, Zero), EntryAt(m, One))
  }

  /** The entry a commit writes, and where. */
  function CommitTarget(m: seq<byte>): EntrySlot
    requires |m| >= LAYOUT_END
  {
    if CommitSlot(m) == Slot0 then Zero else One
  }

  function CommitEntry(m: seq<byte>): (n: Entry)
    requires |m| >= LAYOUT_END
    ensures |n.seqLabel| == LABEL_SIZE
    ensures n.ChecksumOk() && n.state == New && n.seqNo == NextNumber(m)
  {
    NewEntry(EntryAt(m, CommitTarget(m)), NextNumber(m))
  }

  function Committed(m: seq<byte>): (c: seq<byte>)
    requires |m| >= LAYOUT_END
    ensures |c| == |m|
  {
    Written(m, CommitTarget(m).Address(), Encode(CommitEntry(m)))
  }

  /** `t` is what an interrupted commit can leave of `m`. */
  ghost predicate TornCommit(m: seq<byte>, t: seq<byte>)
    requires |m| >= LAYOUT_END
  {
    Torn(m, t, CommitTarget(m).Address(), Encode(CommitEntry(m)))
  }

  // ---- The decisions, byte by byte ----

  /** The entry at `a` passes, and its number does not read as erased. */
  ghost predicate CountsAt(m: seq<byte>, a: nat)
    requires a + ENTRY_SIZE <= |m|
  {
    Passes(NumberAt(m, a), NumberAt(m, a + 28)) && NumberAt(m, a) != 0xFFFF_FFFF
  }

  predicate ValidAt(m: seq<byte>, a: nat)
    requires a + ENTRY_SIZE <= |m|
  {
    m[a + 24..a + 28] == [2, 0, 0, 0]
  }

  /**
   The update goes to slot 1 exactly if entry 0 is marked valid, and entry 1 is not, or does not
   count, or counts less.
   */
  lemma ChosenSlotOnBytes(m: seq<byte>)
    requires |m| >= LAYOUT_END
    ensures ChosenSlot(m) ==
            if ValidAt(m, 0xD000)
              && (|| !ValidAt(m, 0xE000) || !CountsAt(m, 0xE000)
                  || (CountsAt(m, 0xD000) && NumberAt(m, 0xD000) > NumberAt(m, 0xE000)))
            then Slot1 else Slot0
  {
    hide SeqChecksum, EntryAt, Passes, NumberAt;
    EntryOnBytes(m, Zero);
    EntryOnBytes(m, One);
  }

  /**
   The commit goes to slot 0 exactly if entry 1 is confirmed, and entry 0 is not, or does not
   count, or counts less; its number is one above the highest that counts.
   */
  lemma CommitSlotOnBytes(m: seq<byte>)
    requires |m| >= LAYOUT_END
    ensures
      var (n0, n1) := (NumberAt(m, 0xD000), NumberAt(m, 0xE000));
      var confirmed0 := ValidAt(m, 0xD000) && Passes(n0, NumberAt(m, 0xD01C));
      var confirmed1 := ValidAt(m, 0xE000) && Passes(n1, NumberAt(m, 0xE01C));
      && CommitSlot(m) ==
         (if confirmed1 && (!confirmed0 || n0 == 0xFFFF_FFFF || (n1 != 0xFFFF_FFFF && n1 > n0)) then Slot0 else Slot1)
      && NextNumber(m) ==
         (if CountsAt(m, 0xD000) && (CountsAt(m, 0xE000) ==> n0 >= n1) then n0 + 1
          else if CountsAt(m, 0xE000) then n1 + 1
          else 1)
  {
    hide SeqChecksum, EntryAt, Passes, NumberAt;
    EntryOnBytes(m, Zero);
    EntryOnBytes(m, One);
  }

  /** A commit writes 32 bytes: the next number, the label or erased bytes, the state New and a checksum that passes. */
  lemma CommittedOnBytes(m: seq<byte>)
    requires |m| >= LAYOUT_END
    ensures
      var (a, t) := (if CommitSlot(m) == Slot0 then 0xD000 else 0xE000, Committed(m));
      && t[..a] == m[..a] && t[a + 32..] == m[a + 32..]
      && NumberAt(t, a) == NextNumber(m)
      && t[a + 4..a + 24] == (if Passes(NumberAt(m, a), NumberAt(m, a + 28)) then m[a + 4..a + 24]
                              else seq(20, _ => 0xFF))
      && t[a + 24..a + 28] == [0, 0, 0, 0]
      && Passes(NumberAt(t, a), NumberAt(t, a + 28))
  {
    hide SeqChecksum, EntryAt, Passes, NumberAt, Encode, Written, CommitSlot, NextNumber;
    var (e, n) := (CommitTarget(m), CommitEntry(m));
    var (a, t, b) := (e.Address(), Committed(m), Encode(n));
    EntryOnBytes(m, e);
    EncodedBytes(n);
    WrittenBeside(m, a, b, 0, a);
    WrittenBeside(m, a, b, a + 32, |m|);
    assert t[..a] == t[0..a] && m[..a] == m[0..a];
    BytesMoved(t, a, b);
  }

  lemma BytesMoved(t: seq<byte>, a: nat, b: seq<byte>)
    requires |b| == 32 && a + 32 <= |t| && t[a..a + 32] == b
    ensures NumberAt(t, a) == NumberAt(b, 0) && NumberAt(t, a + 28) == NumberAt(b, 28)
    ensures t[a + 4..a + 24] == b[4..24] && t[a + 24..a + 28] == b[24..28]
  {
    assert forall i :: 0 <= i < 32 ==> t[a + i] == b[i];
  }

  /** `m` and `t` differ at most inside the firmware area of `slot`. */
  ghost predicate SameOutside(m: seq<byte>, t: seq<byte>, slot: Slot) {
    && |t| == |m|
    && forall i :: 0 <= i < |m| && !(slot.Area().offset <= i < slot.Area().offset + slot.Area().size) ==> t[i] == m[i]
  }

  /** The bytes of a firmware area up to `len`. */
  function SlotPrefix(m: seq<byte>, slot: Slot, len: nat): (p: seq<byte>)
    requires |m| >= LAYOUT_END && len <= slot.Area().size
    ensures |p| == len
  {
    m[slot.Area().offset..slot.Area().offset + len]
  }

  lemma FirmwareKeepsEntries(m: seq<byte>, t: seq<byte>, slot: Slot)
    requires |m| >= LAYOUT_END && SameOutside(m, t, slot)
    ensures EntryBytes(t, Zero) == EntryBytes(m, Zero) && EntryBytes(t, One) == EntryBytes(m, One)
  {
  }

  lemma FirmwareKeepsOtherSlot(m: seq<byte>, t: seq<byte>, slot: Slot, other: Slot, len: nat)
    requires |m| >= LAYOUT_END && SameOutside(m, t, slot)
    requires other.Number() != slot.Number() && len <= other.Area().size
    ensures SlotPrefix(t, other, len) == SlotPrefix(m, other, len)
  {
  }

  lemma FirmwareWrite(m: seq<byte>, slot: Slot, offset: nat, buf: seq<byte>)
    requires |m| >= LAYOUT_END && offset + |buf| <= slot.Area().size
    ensures SameOutside(m, Written(m, slot.Area().offset + offset, buf), slot)
  {
  }

  lemma FirmwareTorn(m: seq<byte>, t: seq<byte>, slot: Slot, offset: nat, buf: seq<byte>)
    requires |m| >= LAYOUT_END && offset + |buf| <= slot.Area().size
    requires Torn(m, t, slot.Area().offset + offset, buf)
    ensures SameOutside(m, t, slot)
  {
    TornOutside(m, t, slot.Area().offset + offset, buf);
  }

  // ---- Streaming ----

  function Concat(chunks: seq<seq<byte>>): seq<byte>
    decreases |chunks|
  {
    if chunks == [] then [] else chunks[0] + Concat(chunks[1..])
  }

  datatype Stream = Streamed(mem: seq<byte>, offset: nat) | Overflow(mem: seq<byte>, offset: nat)

  /** The effect of writing chunk after chunk, giving up at the first that does not fit. */
  function StreamChunks(m: seq<byte>, slot: Slot, offset: nat, chunks: seq<seq<byte>>): Stream
    requires |m| >= LAYOUT_END && offset <= slot.Area().size
    decreases |chunks|
  {
    if chunks == [] then Streamed(m, offset)
    else if offset + |chunks[0]| > slot.Area().size then Overflow(m, offset)
    else StreamChunks(Written(m, slot.Area().offset + offset, chunks[0]), slot, offset + |chunks[0]|, chunks[1..])
  }

  lemma WriteTwice(m: seq<byte>, offset: nat, a: seq<byte>, b: seq<byte>)
    requires offset + |a| + |b| <= |m|
    ensures Written(Written(m, offset, a), offset + |a|, b) == Written(m, offset, a + b)
  {
  }

  lemma WriteNothing(m: seq<byte>, offset: nat)
    requires offset <= |m|
    ensures Written(m, offset, []) == m
  {
  }

  /** Nothing outside the slot changes, whether the chunks fit or not. */
  lemma {:induction false} StreamStaysInSlot(m: seq<byte>, slot: Slot, offset: nat, chunks: seq<seq<byte>>)
    requires |m| >= LAYOUT_END && offset <= slot.Area().size
    ensures SameOutside(m, StreamChunks(m, slot, offset, chunks).mem, slot)
    decreases |chunks|
  {
    hide Written;
    if chunks != [] && offset + |chunks[0]| <= slot.Area().size {
      var w := Written(m, slot.Area().offset + offset, chunks[0]);
      FirmwareWrite(m, slot, offset, chunks[0]);
      StreamStaysInSlot(w, slot, offset + |chunks[0]|, chunks[1..]);
    }
  }

  /** Writing stops before a chunk that does not fit exactly when the whole image does not fit. */
  lemma {:induction false} StreamOverflows(m: seq<byte>, slot: Slot, offset: nat, chunks: seq<seq<byte>>)
    requires |m| >= LAYOUT_END && offset <= slot.Area().size
    ensures StreamChunks(m, slot, offset, chunks).Overflow? <==> offset + |Concat(chunks)| > slot.Area().size
    decreases |chunks|
  {
    hide Written;
    if chunks != [] && offset + |chunks[0]| <= slot.Area().size {
      var w := Written(m, slot.Area().offset + offset, chunks[0]);
      StreamOverflows(w, slot, offset + |chunks[0]|, chunks[1..]);
    }
  }

  /** Chunks that fit leave what one write of their concatenation leaves. */
  lemma {:induction false} StreamIsOneWrite(m: seq<byte>, slot: Slot, offset: nat, chunks: seq<seq<byte>>)
    requires |m| >= LAYOUT_END && offset + |Concat(chunks)| <= slot.Area().size
    ensures StreamChunks(m, slot, offset, chunks) ==
              Streamed(Written(m, slot.Area().offset + offset, Concat(chunks)), offset + |Concat(chunks)|)
    decreases |chunks|
  {
    hide Written;
    var at := slot.Area().offset + offset;
    if chunks == [] {
      WriteNothing(m, at);
    } else {
      var (first, rest) := (chunks[0], chunks[1..]);
      assert Concat(chunks) == first + Concat(rest);
      StreamIsOneWrite(Written(m, at, first), slot, offset + |first|, rest);
      WriteTwice(m, at, first, Concat(rest));
    }
  }

  lemma {:induction false} ConcatAppend(chunks: seq<seq<byte>>, last: seq<byte>)
    ensures Concat(chunks + [last]) == Concat(chunks) + last
    decreases |chunks|
  {
    if chunks == [] {
      assert chunks + [last] == [last] && [last][1..] == [];
    } else {
      assert (chunks + [last])[1..] == chunks[1..] + [last];
      ConcatAppend(chunks[1..], last);
    }
  }

  // ---- The protocol ----

  /** A byte slice is never longer than the largest 32-bit signed number. */
  const MAX_SLICE: nat := 0x7FFF_FFFF

  class Ota {
    const flash: FlashStorage
    var updateState: Option<(Slot, u32)>

    ghost predicate Valid()
      reads this
    {
      && flash.Valid()
      && (updateState.Some? ==> updateState.value.0 != NoSlot && updateState.value.1 <= updateState.value.0.Area().size)
    }

    constructor (flash: FlashStorage)
      requires flash.Valid()
      ensures Valid() && this.flash == flash && updateState == None
    {
      this.flash := flash;
      updateState := None;
    }

    /** The slot the next update goes to. */
    method UpdateSlot() returns (r: EntryResult<Slot>)
      requires Valid()
      ensures r.Done? ==> r.value == ChosenSlot(flash.cells[..])
      ensures r.Failed? ==> r.error == Storage(IoError) && !flash.reliable
    {
      var entry0, entry1;
      r, entry0, entry1 := GetOtaEntries();
      if r.Failed? {
        return;
      }
      if entry0.state != SelectEntry.Valid {
        return Done(Slot0);
      } else if entry1.state != SelectEntry.Valid {
        return Done(Slot1);
      }
      var seq0, seq1;
      r, seq0, seq1 := GetSlotSeq();
      if r.Failed? {
        return;
      }
      if seq0 == U32_MAX && seq1 == U32_MAX {
        return Done(Slot1);
      } else if seq0 == U32_MAX {
        return Done(Slot0);
      } else if seq1 == U32_MAX {
        return Done(Slot1);
      } else if seq0 > seq1 {
        return Done(Slot1);
      } else {
        return Done(Slot0);
      }
    }

    /** Both entries as they are in flash. */
    method GetOtaEntries() returns (r: EntryResult<Slot>, entry0: Entry, entry1: Entry)
      requires Valid()
      ensures r.Done? ==> entry0 == EntryAt(flash.cells[..], Zero) && entry1 == EntryAt(flash.cells[..], One)
      ensures r.Failed? ==> r.error == Storage(IoError) && !flash.reliable
      ensures |entry0.seqLabel| == |entry1.seqLabel| == LABEL_SIZE
    {
      entry0, entry1 := ResetEntry(), ResetEntry();
      var r0 := OtaSelectEntry.Read(Zero, flash);
      if r0.Failed? {
        return Failed(r0.error), entry0, entry1;
      }
      var r1 := OtaSelectEntry.Read(One, flash);
      if r1.Failed? {
        return Failed(r1.error), entry0, entry1;
      }
      return Done(NoSlot), r0.value.View(), r1.value.View();
    }

    /** The sequence numbers of both entries, erased where the checksum does not hold. */
    method GetSlotSeq() returns (r: EntryResult<Slot>, seq0: u32, seq1: u32)
      requires Valid()
      ensures r.Done? ==> seq0 == EntryAt(flash.cells[..], Zero).SlotSeq()
      ensures r.Done? ==> seq1 == EntryAt(flash.cells[..], One).SlotSeq()
      ensures r.Failed? ==> r.error == Storage(IoError) && !flash.reliable
    {
      var entry0, entry1;
      r, entry0, entry1 := GetOtaEntries();
      seq0 := if entry0.ChecksumOk() then entry0.seqNo else U32_MAX;
      seq1 := if entry1.ChecksumOk() then entry1.seqNo else U32_MAX;
    }

    method PrepareForUpdate() returns (o: Outcome)
      requires Valid()
      modifies this
      ensures Valid() && o != Panic
      ensures o == Success ==> updateState == Some((ChosenSlot(flash.cells[..]), 0))
      ensures o.Failure? ==> updateState == old(updateState) && o.error == Storage(IoError) && !flash.reliable
      ensures flash.reliable ==> o == Success
    {
      var s := UpdateSlot();
      if s.Failed? {
        return Failure(s.error);
      }
      updateState := Some((s.value, 0));
      return Success;
    }

    /** Appends `buf` to the image being written. */
    method WriteUpdate(buf: seq<byte>) returns (o: Outcome)
      requires Valid() && |buf| <= MAX_SLICE
      modifies this, flash.cells
      ensures Valid()
      ensures o == Panic <==> old(updateState) == None
      ensures o == Panic ==> updateState == old(updateState) && flash.cells[..] == old(flash.cells[..])
      ensures old(updateState).Some? ==>
                var (slot, offset) := old(updateState).value;
                && (o == Failure(TooLarge) <==> offset + |buf| > slot.Area().size)
                && (o == Success ==>
                      && flash.cells[..] == Written(old(flash.cells[..]), slot.Area().offset + offset, buf)
                      && updateState == Some((slot, offset + |buf|)))
                && (o.Failure? ==>
                      && updateState == old(updateState)
                      && SameOutside(old(flash.cells[..]), flash.cells[..], slot))
                && (o == Failure(TooLarge) ==> flash.cells[..] == old(flash.cells[..]))
                && (o.Failure? ==> o.error == TooLarge || (o.error == Storage(IoError) && !flash.reliable))
                && (flash.reliable && offset + |buf| <= slot.Area().size ==> o == Success)
    {
      hide Written;
      if updateState == None {
        return Panic;
      }
      var (slot, offset) := updateState.value;
      if (offset + |buf|) % 0x1_0000_0000 > slot.Area().size {
        return Failure(TooLarge);
      }
      if |buf| > 0 {
        var w := flash.Write(slot.Area().offset + offset, buf);
        if w.Err? {
          assert w.error == IoError;
          FirmwareTorn(old(flash.cells[..]), flash.cells[..], slot, offset, buf);
          return Failure(Storage(w.error));
        }
        updateState := Some((slot, offset + |buf|));
      } else {
        WriteNothing(flash.cells[..], slot.Area().offset + offset);
      }
      return Success;
    }

    /** Makes the slot just written the one to boot next. */
    method CommitUpdate() returns (o: Outcome)
      requires Valid()
      modifies this, flash.cells
      ensures Valid() && updateState == None
      ensures o == Panic ==> flash.cells[..] == old(flash.cells[..])
      ensures old(updateState) == None ==> o == Panic
      ensures old(updateState).Some? ==>
                && (o == Panic ==> CommitSlot(old(flash.cells[..])) != old(updateState).value.0)
                && (o == Success ==> CommitSlot(old(flash.cells[..])) == old(updateState).value.0)
                && (o == Success ==> flash.cells[..] == Committed(old(flash.cells[..])))
                && (o.Failure? ==> TornCommit(old(flash.cells[..]), flash.cells[..]))
                && (flash.reliable ==>
                      o == if CommitSlot(old(flash.cells[..])) == old(updateState).value.0 then Success else Panic)
      ensures o.Failure? ==> o.error == Storage(IoError) && !flash.reliable
    {
      if updateState == None {
        return Panic;
      }
      var slot := updateState.value.0;
      updateState := None;
      o := SetCurrentSlot(slot);
    }

    /** The entry of a sector, reset in memory if its checksum does not hold. */
    method ReadCleaned(slot: EntrySlot) returns (r: EntryResult<OtaSelectEntry>)
      requires Valid()
      ensures r.Done? ==> fresh(r.value) && r.value.Valid()
      ensures r.Done? ==> r.value.View() == Cleaned(EntryAt(flash.cells[..], slot))
      ensures r.Failed? ==> r.error == Storage(IoError) && !flash.reliable
    {
      r := OtaSelectEntry.Read(slot, flash);
      if r.Done? {
        if !r.value.View().ChecksumOk() {
          r.value.Reset();
        }
      }
    }

    /** Marks `expected` current; the slot is worked out anew and must be the expected one. */
    method SetCurrentSlot(expected: Slot) returns (o: Outcome)
      requires Valid()
      modifies flash.cells
      ensures Valid()
      ensures o == Panic ==> CommitSlot(old(flash.cells[..])) != expected
      ensures o == Panic ==> flash.cells[..] == old(flash.cells[..])
      ensures o == Success ==> CommitSlot(old(flash.cells[..])) == expected
      ensures o == Success ==> flash.cells[..] == Committed(old(flash.cells[..]))
      ensures o.Failure? ==> o.error == Storage(IoError) && !flash.reliable
      ensures o.Failure? ==> TornCommit(old(flash.cells[..]), flash.cells[..])
      ensures flash.reliable ==> o == if CommitSlot(old(flash.cells[..])) == expected then Success else Panic
    {
      hide SeqChecksum;
      ghost var m := flash.cells[..];
      TornEnds(m, CommitTarget(m).Address(), Encode(CommitEntry(m)));
      var r0 := ReadCleaned(Zero);
      if r0.Failed? {
        return Failure(r0.error);
      }
      var r1 := ReadCleaned(One);
      if r1.Failed? {
        return Failure(r1.error);
      }
      var entry0, entry1 := r0.value, r1.value;
      var (seqNo, byNumber) := NextSeq(entry0.otaSeq, entry1.otaSeq);
      var slot := SlotByState(entry0.otaState, entry1.otaState, byNumber);
      if slot != expected {
        return Panic;
      }
      if slot == Slot0 {
        o := WriteNew(entry0, Zero, seqNo);
      } else {
        o := WriteNew(entry1, One, seqNo);
      }
    }

    /** Gives the entry its new number and state and writes it to its sector. */
    method WriteNew(entry: OtaSelectEntry, slot: EntrySlot, seqNo: u32) returns (o: Outcome)
      requires Valid() && entry.Valid()
      requires entry.View() == Cleaned(EntryAt(flash.cells[..], slot))
      modifies entry, flash.cells
      ensures o == Success || (o == Failure(Storage(IoError)) && !flash.reliable)
      ensures
        var n := NewEntry(EntryAt(old(flash.cells[..]), slot), seqNo);
        && (o == Success ==> flash.cells[..] == Written(old(flash.cells[..]), slot.Address(), Encode(n)))
        && (o.Failure? ==> Torn(old(flash.cells[..]), flash.cells[..], slot.Address(), Encode(n)))
    {
      hide SeqChecksum;
      entry.otaSeq := seqNo;
      entry.otaState := New;
      var w := entry.Write(slot, flash, true);
      o := if w.Failed? then Failure(w.error) else Success;
    }
  }
}
