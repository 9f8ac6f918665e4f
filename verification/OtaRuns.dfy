/**
 Whole runs of the update protocol: updates, power loss at any point, and the boot loader and
 the running application changing the state of entries in between.
 */
module OtaRuns {
  import opened Bytes
  import opened Crc
  import opened Flash
  import opened SelectEntry
  import opened SlotChoice
  import opened Ota
  import opened Wrappers

  // ---- What an interrupted commit leaves of the flash ----

  /** An interrupted entry write leaves the other entry and all firmware alone. */
  lemma TornSectorFrame(m: seq<byte>, t: seq<byte>, e: EntrySlot, b: seq<byte>)
    requires |m| >= LAYOUT_END && |b| == ENTRY_SIZE && Torn(m, t, e.Address(), b)
    ensures |t| == |m|
    ensures EntryBytes(t, e.Other()) == EntryBytes(m, e.Other())
    ensures t[OTA_0.offset..] == m[OTA_0.offset..]
  {
    TornOutside(m, t, e.Address(), b);
  }

  /** Its target holds a prefix of the new entry over the old one or over erased flash. */
  lemma TornSectorTarget(m: seq<byte>, t: seq<byte>, e: EntrySlot, b: seq<byte>) returns (k: nat, erased: bool)
    requires |m| >= LAYOUT_END && |b| == ENTRY_SIZE && Torn(m, t, e.Address(), b)
    ensures |t| == |m|
    ensures Mixed(if erased then ERASED_ENTRY else EntryBytes(m, e), b, EntryBytes(t, e), k)
  {
    hide Torn;
    var a := e.Address();
    k, erased := TornRange(m, t, a, b);
    var (before, after) := (m[a..a + |b|], t[a..a + |b|]);
    assert EntryBytes(m, e) == before && EntryBytes(t, e) == after;
    var o := if erased then ERASED_ENTRY else before;
    forall i | 0 <= i < ENTRY_SIZE ensures after[i] == if i < k then b[i] else o[i] {
      assert ERASED_ENTRY[i] == ERASED;
    }
  }

  /** Cut by power after `k` bytes, on a chip that does not erase first. */
  lemma CutAfter(m: seq<byte>, e: EntrySlot, b: seq<byte>, k: nat) returns (t: seq<byte>)
    requires |m| >= LAYOUT_END && |b| == ENTRY_SIZE && k <= ENTRY_SIZE
    ensures |t| == |m| && TornAt(m, t, e.Address(), b, e.Address() + k, false)
    ensures EntryBytes(t, e) == Overlay(EntryBytes(m, e), b, k)
  {
    var a := e.Address();
    t := seq(|m|, i requires 0 <= i < |m| => TornByte(m, a, b, a + k, false, i));
    forall i | 0 <= i < ENTRY_SIZE ensures EntryBytes(t, e)[i] == if i < k then b[i] else EntryBytes(m, e)[i] {
      assert t[a + i] == TornByte(m, a, b, a + k, false, a + i);
      assert Written(m, a, b)[a..a + ENTRY_SIZE][i] == b[i];
    }
  }

  /** What an interrupted commit should leave: its target whole, and the other entry untouched. */
  ghost predicate AtomicallyTorn(m: seq<byte>, t: seq<byte>)
    requires |m| >= LAYOUT_END
  {
    var e := CommitTarget(m);
    && |t| == |m|
    && EntryBytes(t, e.Other()) == EntryBytes(m, e.Other())
    && Whole(EntryBytes(m, e), CommitEntry(m), EntryBytes(t, e))
  }

  lemma CommitEntryFits(m: seq<byte>)
    requires |m| >= LAYOUT_END
    ensures CommitEntry(m).seqNo != 0
    ensures EntryAt(m, CommitTarget(m)).ChecksumOk() ==> CommitEntry(m).seqLabel == EntryAt(m, CommitTarget(m)).seqLabel
  {
    hide SeqChecksum, Parse, CommitTarget, CommitSeq;
    CommitSeqIsNext(EntryAt(m, Zero), EntryAt(m, One));
  }

  /**
   A commit is atomic, that is, wherever it is interrupted, its target is byte for byte the old
   entry, byte for byte the new one, or fails its checksum, and the other entry is untouched,
   exactly unless the write can revive a third entry.
   */
  lemma CommitIsAtomic(m: seq<byte>)
    requires |m| >= LAYOUT_END
    ensures (forall t :: TornCommit(m, t) ==> AtomicallyTorn(m, t)) <==>
            !Revives(EntryBytes(m, CommitTarget(m)), CommitEntry(m))
  {
    hide SeqChecksum, Encode, Torn, Revives, Whole, CommitTarget, CommitEntry, EntryBytes;
    var (e, n) := (CommitTarget(m), CommitEntry(m));
    if Revives(EntryBytes(m, e), n) {
      var t := RevivingCut(m);
      assert TornCommit(m, t) && !AtomicallyTorn(m, t);
    } else {
      forall t | TornCommit(m, t) ensures AtomicallyTorn(m, t) {
        CutIsAtomic(m, t);
      }
    }
  }

  lemma RevivingCut(m: seq<byte>) returns (t: seq<byte>)
    requires |m| >= LAYOUT_END && Revives(EntryBytes(m, CommitTarget(m)), CommitEntry(m))
    ensures TornCommit(m, t) && !AtomicallyTorn(m, t)
  {
    hide SeqChecksum, Encode, Revives, Whole, CommitTarget, CommitEntry, EntryBytes, TornAt;
    var (e, n) := (CommitTarget(m), CommitEntry(m));
    CommitEntryFits(m);
    var k := RevivedEntry(EntryBytes(m, e), n);
    t := CutAfter(m, e, Encode(n), k);
  }

  /** One cut of a commit that revives nothing. */
  lemma CutIsAtomic(m: seq<byte>, t: seq<byte>)
    requires |m| >= LAYOUT_END && TornCommit(m, t) && !Revives(EntryBytes(m, CommitTarget(m)), CommitEntry(m))
    ensures AtomicallyTorn(m, t)
  {
    hide SeqChecksum, Encode, Torn, Revives, Whole, Mixed, CommitTarget, CommitEntry, EntryBytes;
    var (e, n) := (CommitTarget(m), CommitEntry(m));
    var b := Encode(n);
    CommitEntryFits(m);
    TornSectorFrame(m, t, e, b);
    var k, erased := TornSectorTarget(m, t, e, b);
    CutIsMixed(EntryBytes(m, e), b, EntryBytes(t, e), k, erased);
    TornEntryAt(EntryBytes(m, e), n, EntryBytes(t, e), k, erased);
  }

  // ---- The system ----

  /**
   The flash, the update in progress, and what has been written so far: the image being
   streamed and, for each entry, the image that the last commit of that entry was for.
   */
  datatype System = System(
    flash: seq<byte>,
    update: Option<(Slot, nat)>,
    streamed: seq<byte>,
    image0: seq<byte>,
    image1: seq<byte>,
    panicked: bool)
  {
    function Image(e: EntrySlot): seq<byte> {
      if e == Zero then image0 else image1
    }

    function WithCommit(e: EntrySlot, flash: seq<byte>): System {
      var s := this.(flash := flash, update := None);
      if e == Zero then s.(image0 := streamed) else s.(image1 := streamed)
    }

    /** A commit that was cut before it changed its entry leaves that the entry of its old image. */
    function AfterCut(e: EntrySlot, t: seq<byte>): System
      requires |flash| >= LAYOUT_END && |t| >= LAYOUT_END
    {
      if EntryBytes(t, e) == EntryBytes(flash, e) then this.(flash := t, update := None) else WithCommit(e, t)
    }
  }

  datatype Event =
    | Prepare
    | Write(buf: seq<byte>)
    | WriteCut(buf: seq<byte>, upto: nat, erased: bool)
    | Commit
    | CommitCut
    | PowerLoss
    | SetState(entry: EntrySlot, state: State)

  /** The area of the entry's slot starts with `image`. */
  ghost predicate Holds(m: seq<byte>, e: EntrySlot, image: seq<byte>)
    requires |m| >= LAYOUT_END
  {
    |image| <= SlotOf(e).Area().size && SlotPrefix(m, SlotOf(e), |image|) == image
  }

  ghost predicate Intact(s: System, e: EntrySlot)
    requires |s.flash| >= LAYOUT_END
  {
    Holds(s.flash, e, s.Image(e))
  }

  /** Committed but neither confirmed nor rejected. */
  predicate Pending(e: Entry) {
    e.Live() && (e.state == New || e.state == PendingVerify)
  }

  /** The flash with the state word of one entry rewritten. */
  function WithState(m: seq<byte>, e: EntrySlot, state: State): (t: seq<byte>)
    requires |m| >= LAYOUT_END
    ensures |t| == |m|
  {
    Written(m, e.Address() + 24, ToLe(StateCode(state)))
  }

  /**
   The effect of each event.  A write is cut at an address, with the rest of the sector there
   erased or not.  The boot loader and the application move a pending entry on, at any time.
   */
  ghost predicate Next(s: System, ev: Event, t: System)
    requires |s.flash| >= LAYOUT_END
  {
    match ev
    case Prepare =>
      t == s.(update := Some((ChosenSlot(s.flash), 0)), streamed := [])
    case Write(buf) =>
      && s.update.Some?
      && var (slot, offset) := s.update.value;
      && t == if offset + |buf| > slot.Area().size then s
              else s.(flash := Written(s.flash, slot.Area().offset + offset, buf),
                      update := Some((slot, offset + |buf|)),
                      streamed := s.streamed + buf)
    case WriteCut(buf, upto, erased) =>
      && s.update.Some?
      && var (slot, offset) := s.update.value;
      && offset + |buf| <= slot.Area().size
      && TornAt(s.flash, t.flash, slot.Area().offset + offset, buf, upto, erased)
      && t == s.(flash := t.flash, update := None)
    case Commit =>
      && s.update.Some?
      && t == if CommitSlot(s.flash) != s.update.value.0 then s.(update := None, panicked := true)
              else s.WithCommit(CommitTarget(s.flash), Committed(s.flash))
    case CommitCut =>
      && s.update.Some?
      && CommitSlot(s.flash) == s.update.value.0
      && |t.flash| == |s.flash| && TornCommit(s.flash, t.flash)
      && t == s.AfterCut(CommitTarget(s.flash), t.flash)
    case PowerLoss =>
      t == s.(update := None)
    case SetState(e, state) =>
      && Pending(EntryAt(s.flash, e))
      && (state == PendingVerify || state == Valid || state == Invalid || state == Aborted)
      && t == s.(flash := WithState(s.flash, e, state))
  }
}
