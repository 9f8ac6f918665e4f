/** Sequence numbers over a run, and the runs that the safety theorems rightly exclude. */
module OtaNumbers {
  import opened Bytes
  import opened Crc
  import opened Flash
  import opened SelectEntry
  import opened SlotChoice
  import opened Ota
  import opened OtaRuns
  import opened OtaSafety

  // ---- A commit ----

  /** The highest number in use. */
  function InUse(m: seq<byte>): u32
    requires |m| >= LAYOUT_END
  {
    Highest(EntryAt(m, Zero), EntryAt(m, One))
  }

  /**
   A commit changes one entry and nothing else in flash.  Read back, that entry is checksum-ok,
   new, and numbered above every number in use; it counts exactly if numbers have not run out.
   */
  lemma CommitSupremacy(m: seq<byte>)
    requires |m| >= LAYOUT_END
    ensures
      var (t, e) := (Committed(m), CommitTarget(m));
      && EntryAt(t, e) == CommitEntry(m)
      && EntryAt(t, e).ChecksumOk() && EntryAt(t, e).state == New
      && (EntryAt(t, e).Live() <==> InUse(m) as int < U32_MAX as int - 1)
      && (EntryAt(m, Zero).Live() ==> EntryAt(t, e).seqNo > EntryAt(m, Zero).seqNo)
      && (EntryAt(m, One).Live() ==> EntryAt(t, e).seqNo > EntryAt(m, One).seqNo)
      && EntryAt(t, e.Other()) == EntryAt(m, e.Other())
      && (forall i :: 0 <= i < |m| && !(e.Address() <= i < e.Address() + ENTRY_SIZE) ==> t[i] == m[i])
  {
    hide SeqChecksum, Encode, Parse, CommitEntry, CommitSeq;
    var (t, e, b) := (Committed(m), CommitTarget(m), Encode(CommitEntry(m)));
    CommittedBytes(m, e, b, t);
    EntryRoundTrip(CommitEntry(m));
    CommitSeqIsNext(EntryAt(m, Zero), EntryAt(m, One));
  }

  lemma CommittedBytes(m: seq<byte>, e: EntrySlot, b: seq<byte>, t: seq<byte>)
    requires |m| >= LAYOUT_END && |b| == ENTRY_SIZE && t == Written(m, e.Address(), b)
    ensures EntryBytes(t, e) == b && EntryBytes(t, e.Other()) == EntryBytes(m, e.Other())
  {
  }

  // ---- Numbers over a run ----

  ghost predicate Commits(s: System, ev: Event)
    requires |s.flash| >= LAYOUT_END
  {
    ev == Commit && s.update.Some? && CommitSlot(s.flash) == s.update.value.0
  }

  /** The entry has the highest number in use, and it alone. */
  predicate NewestLive(m: seq<byte>, e: EntrySlot)
    requires |m| >= LAYOUT_END
  {
    var (o, a) := (EntryAt(m, e), EntryAt(m, e.Other()));
    o.Live() && o.seqNo > 0 && (a.Live() ==> a.seqNo < o.seqNo)
  }

  /** A commit, complete or cut short, that writes over the newest entry in use. */
  ghost predicate ReplacesNewest(s: System, ev: Event)
    requires |s.flash| >= LAYOUT_END
  {
    (Commits(s, ev) || ev == CommitCut) && NewestLive(s.flash, CommitTarget(s.flash))
  }

  lemma HighestAfter(o: Entry, a: Entry, t: Entry)
    requires o.Live() && o.seqNo > 0 && (a.Live() ==> a.seqNo < o.seqNo) ==> !t.Live() || t.seqNo >= o.seqNo
    ensures Highest(t, a) < Highest(o, a) <==>
            o.Live() && o.seqNo > 0 && (a.Live() ==> a.seqNo < o.seqNo) && !t.Live()
    ensures Highest(o, a) == Highest(a, o)
    ensures Highest(t, a) == Highest(a, t)
  {
    hide SeqChecksum;
  }

  /** What a commit, cut or not, makes of the highest number. */
  lemma NumbersAfterCut(m: seq<byte>, t: seq<byte>)
    requires |m| >= LAYOUT_END && TornCommit(m, t)
    ensures |t| == |m|
    ensures InUse(t) < InUse(m) <==> NewestLive(m, CommitTarget(m)) && !EntryAt(t, CommitTarget(m)).Live()
  {
    hide SeqChecksum, Encode, Torn, Parse, CommitEntry, CommitTarget, CommitSeq, Revives, EntryBytes, TornCommit;
    var (e, n) := (CommitTarget(m), CommitEntry(m));
    TornFrame(m, t);
    CommitSeqIsNext(EntryAt(m, Zero), EntryAt(m, One));
    if NewestLive(m, e) {
      CommitEntryFits(m);
      NothingToRevive(EntryBytes(m, e), n);
      CutIsAtomic(m, t);
      EntryRoundTrip(n);
    }
    HighestAfter(EntryAt(m, e), EntryAt(m, e.Other()), EntryAt(t, e));
  }

  lemma TornFrame(m: seq<byte>, t: seq<byte>)
    requires |m| >= LAYOUT_END && TornCommit(m, t)
    ensures |t| == |m|
    ensures EntryBytes(t, CommitTarget(m).Other()) == EntryBytes(m, CommitTarget(m).Other())
  {
    hide Encode, Torn, EntryBytes, CommitEntry, CommitTarget;
    TornSectorFrame(m, t, CommitTarget(m), Encode(CommitEntry(m)));
  }

  lemma CommittedIsTorn(m: seq<byte>)
    requires |m| >= LAYOUT_END
    ensures TornCommit(m, Committed(m))
  {
    hide Written, Torn, Encode, CommitTarget, CommitEntry;
    TornEnds(m, CommitTarget(m).Address(), Encode(CommitEntry(m)));
  }

  /**
   The highest number in use falls exactly when a commit writes over the newest entry and leaves
   none that counts: because it was cut, or because numbers have run out.  A complete commit
   raises it while they last.
   */
  lemma NumbersFall(s: System, ev: Event, t: System)
    requires |s.flash| >= LAYOUT_END && Next(s, ev, t)
    ensures |t.flash| >= LAYOUT_END
    ensures InUse(t.flash) < InUse(s.flash) <==>
            ReplacesNewest(s, ev) && !EntryAt(t.flash, CommitTarget(s.flash)).Live()
    ensures Commits(s, ev) && NextNumber(s.flash) != U32_MAX ==> InUse(t.flash) == NextNumber(s.flash) > InUse(s.flash)
  {
    hide SeqChecksum, EntryAt, Written, Committed, TornCommit, CommitSlot, CommitTarget, CommitEntry, ChosenSlot,
         CommitSeq, Torn,
         WithState, NewestLive, Highest;
    match ev
    case Prepare =>
    case PowerLoss =>
    case Write(buf) =>
      var (slot, offset) := s.update.value;
      if offset + |buf| <= slot.Area().size {
        FirmwareWrite(s.flash, slot, offset, buf);
        SameEntries(s.flash, t.flash, slot);
      }
    case WriteCut(buf, upto, erased) =>
      var (slot, offset) := s.update.value;
      WriteCutMeans(s, buf, upto, erased, t);
      FirmwareTorn(s.flash, t.flash, slot, offset, buf);
      SameEntries(s.flash, t.flash, slot);
    case Commit =>
      CommittedIsTorn(s.flash);
      NumbersAfterCut(s.flash, Committed(s.flash));
      CommittedNumber(s.flash);
    case CommitCut =>
      NumbersAfterCut(s.flash, t.flash);
    case SetState(e, state) =>
      StateWritten(s.flash, e, state);
      SameNumber(s.flash, t.flash, e, state);
  }

  lemma SameNumber(m: seq<byte>, t: seq<byte>, e: EntrySlot, state: State)
    requires |m| >= LAYOUT_END && |t| >= LAYOUT_END
    requires EntryAt(t, e) == EntryAt(m, e).(state := state) && EntryAt(t, e.Other()) == EntryAt(m, e.Other())
    ensures InUse(t) == InUse(m)
  {
    hide SeqChecksum, EntryAt;
  }

  /** The number of a complete commit. */
  lemma CommittedNumber(m: seq<byte>)
    requires |m| >= LAYOUT_END
    ensures NextNumber(m) != U32_MAX ==> InUse(Committed(m)) == NextNumber(m) > InUse(m)
  {
    hide SeqChecksum, EntryAt, Written, Committed, CommitEntry, CommitTarget, CommitSeq;
    CommitSeqIsNext(EntryAt(m, Zero), EntryAt(m, One));
    CommitSupremacy(m);
  }

  lemma SameEntries(m: seq<byte>, t: seq<byte>, slot: Slot)
    requires |m| >= LAYOUT_END && SameOutside(m, t, slot)
    ensures EntryAt(t, Zero) == EntryAt(m, Zero) && EntryAt(t, One) == EntryAt(m, One)
  {
    FirmwareKeepsEntries(m, t, slot);
  }

  /** A commit that may leave the newest number behind: cut short, or without a number left. */
  ghost predicate MayForget(s: System, ev: Event)
    requires |s.flash| >= LAYOUT_END
  {
    ReplacesNewest(s, ev) && (ev == CommitCut || NextNumber(s.flash) == U32_MAX)
  }

  lemma NumbersStay(s: System, ev: Event, t: System)
    requires |s.flash| >= LAYOUT_END && Next(s, ev, t) && !MayForget(s, ev)
    ensures |t.flash| >= LAYOUT_END && InUse(t.flash) >= InUse(s.flash)
  {
    hide InUse, Next, Commits, NewestLive, NextNumber, CommitTarget;
    NumbersFall(s, ev, t);
  }

  lemma {:induction false} NumbersStayOver(states: seq<System>, events: seq<Event>, i: nat, j: nat)
    requires Run(states, events) && i <= j < |states|
    requires forall k :: i <= k < j ==> !MayForget(states[k], events[k])
    ensures InUse(states[j].flash) >= InUse(states[i].flash)
    decreases j - i
  {
    hide InUse, Next, Init, MayForget;
    if i < j {
      NumbersStay(states[i], events[i], states[i + 1]);
      NumbersStayOver(states, events, i + 1, j);
    }
  }

  /**
   The numbers of successive commits increase strictly until they run out, as long as no commit
   in between writes over the newest entry in use and is cut short or has no number left.
   */
  lemma CommitNumbersIncrease(states: seq<System>, events: seq<Event>, i: nat, j: nat)
    requires Run(states, events) && i < j < |events|
    requires Commits(states[i], events[i]) && Commits(states[j], events[j])
    requires NextNumber(states[i].flash) != U32_MAX
    requires forall k :: i < k < j ==> !MayForget(states[k], events[k])
    ensures NextNumber(states[i].flash) < NextNumber(states[j].flash)
  {
    hide InUse, Next, Init, NextNumber, MayForget, ReplacesNewest, Commits, CommitTarget;
    NumbersFall(states[i], events[i], states[i + 1]);
    NumbersStayOver(states, events, i + 1, j);
    NextIsAbove(states[j].flash);
  }

  lemma NextIsAbove(m: seq<byte>)
    requires |m| >= LAYOUT_END
    ensures NextNumber(m) as int == InUse(m) as int + 1
  {
    hide EntryAt, CommitSeq, Highest;
    CommitSeqIsNext(EntryAt(m, Zero), EntryAt(m, One));
  }

  /**
   A cut-short commit can make a number come round again: when it got as far as the new number
   but not the checksum, the entry no longer counts, and the next commit starts again from the
   older entry.
   */
  lemma CutCommitReusesNumbers(c: Entry, old32: seq<byte>, n: Entry)
    requires |c.seqLabel| == LABEL_SIZE && |old32| == ENTRY_SIZE && |n.seqLabel| == LABEL_SIZE
    requires c.Live() && Parse(old32).Live() && c.seqNo < Parse(old32).seqNo
    requires n == NewEntry(Parse(old32), CommitSeq(c, Parse(old32)))
    ensures
      var t := Encode(n)[..4] + old32[4..];
      && Mixed(old32, Encode(n), t, 4)
      && CommitSeq(c, Parse(t)) as int == c.seqNo as int + 1
      && CommitSeq(c, Parse(t)) < CommitSeq(c, Parse(old32))
  {
    hide SeqChecksum, Encode, Parse, CommitSeq;
    var t := Encode(n)[..4] + old32[4..];
    CommitSeqIsNext(c, Parse(old32));
    MixedFields(old32, n, t, 4);
    if Parse(t).ChecksumOk() {
      SeqChecksumInjective(n.seqNo, Parse(old32).seqNo);
    }
    CommitSeqIsNext(c, Parse(t));
  }

  // ---- Runs outside the assumptions ----

  /**
   Were the entry being replaced confirmed between prepare and commit, the commit's assertion
   would fire exactly when that entry is the newer one (or, for entry 0, as new).
   */
  lemma ConfirmDuringUpdate(e0: Entry, e1: Entry)
    requires |e0.seqLabel| == |e1.seqLabel| == LABEL_SIZE
    ensures Bootable(e0) && Pending(e1) ==>
              (CommitChoice(e0, e1.(state := Valid)) != UpdateChoice(e0, e1) <==> e1.seqNo > e0.seqNo)
    ensures Pending(e0) && Bootable(e1) ==>
              (CommitChoice(e0.(state := Valid), e1) != UpdateChoice(e0, e1) <==> e0.seqNo >= e1.seqNo)
  {
    hide SeqChecksum;
  }

  /**
   In a run that reached the invariant, with an update under way: an entry is confirmed, and the
   update then committed.  The assertion fires exactly if that entry is newer than the other,
   whether its image is still there or not.
   */
  lemma ConfirmThenCommit(s: System, c: EntrySlot, e: EntrySlot, t: System, u: System)
    requires Inv(s, c) && |s.flash| >= LAYOUT_END && s.update.Some? && Next(s, SetState(e, Valid), t)
    requires |t.flash| >= LAYOUT_END && Next(t, Commit, u)
    ensures u.panicked <==> EntryAt(s.flash, e).seqNo > EntryAt(s.flash, e.Other()).seqNo
  {
    hide SeqChecksum, EntryAt, SumBelow, Holds, Written, Torn, ChosenSlot, CommitSlot, CommitTarget, Committed,
         TornCommit, WithState;
    StateWritten(s.flash, e, Valid);
    CommitMeans(t, u);
    var (a, o) := (EntryAt(s.flash, c), EntryAt(s.flash, e));
    ConfirmKeepsCore(a, o);
    ChoicesAgree(t.flash, if o.seqNo > a.seqNo then e else c);
  }

  /** Preparing and writing over an undecided image keeps the invariant and the entries, but not the image. */
  lemma OverwrittenImage(s: System, c: EntrySlot, b: byte, s1: System, s2: System, s3: System)
    requires Inv(s, c) && s.Image(c.Other()) != [] && s.Image(c.Other())[0] != b
    requires |s1.flash| >= LAYOUT_END && |s2.flash| >= LAYOUT_END && |s3.flash| >= LAYOUT_END
    requires Next(s, Prepare, s1) && Next(s1, Write([b]), s2) && Next(s2, PowerLoss, s3)
    ensures Inv(s3, c) && !Intact(s3, c.Other())
    ensures EntryAt(s3.flash, Zero) == EntryAt(s.flash, Zero) && EntryAt(s3.flash, One) == EntryAt(s.flash, One)
  {
    hide SeqChecksum, EntryAt, Written, Core, WithState, CommitSlot, CommitTarget, NextNumber, Committed,
         TornCommit, Torn, Pending, ChosenSlot;
    var (o, base) := (c.Other(), SlotOf(c.Other()).Area().offset);
    PrepareStep(s, s1, c);
    WriteStep(s1, [b], s2, c);
    FirmwareWrite(s1.flash, SlotOf(o), 0, [b]);
    SlotChangeKeeps(s1.flash, s2.flash, o, s.Image(c));
    PowerLossStep(s2, s3, c);
    PowerLossEndsUpdate(s2, s3);
    assert s2.flash[base..base + 1] == [b];
    FirstByte(s3, o, b);
  }

  lemma FirstByte(s: System, e: EntrySlot, b: byte)
    requires |s.flash| >= LAYOUT_END && s.Image(e) != [] && s.Image(e)[0] != b
    requires s.flash[SlotOf(e).Area().offset..SlotOf(e).Area().offset + 1] == [b]
    ensures !Intact(s, e)
  {
    var base := SlotOf(e).Area().offset;
    assert s.flash[base] == s.flash[base..base + 1][0] == b;
  }

  /**
   Preparing while a newer entry is undecided writes over its image without touching the entry:
   if it is then confirmed after all, the newest confirmed entry has lost its image.
   */
  lemma ConfirmOverwrittenImage(s: System, c: EntrySlot, b: byte, s1: System, s2: System, s3: System, s4: System)
    requires Inv(s, c) && Pending(EntryAt(s.flash, c.Other()))
    requires EntryAt(s.flash, c.Other()).seqNo > EntryAt(s.flash, c).seqNo
    requires s.Image(c.Other()) != [] && s.Image(c.Other())[0] != b
    requires |s1.flash| >= LAYOUT_END && |s2.flash| >= LAYOUT_END && |s3.flash| >= LAYOUT_END
    requires Next(s, Prepare, s1) && Next(s1, Write([b]), s2) && Next(s2, PowerLoss, s3)
    requires Next(s3, SetState(c.Other(), Valid), s4)
    ensures |s4.flash| >= LAYOUT_END && !Safe(s4)
  {
    hide Inv, Next, Safe, EntryAt, Intact;
    OverwrittenImage(s, c, b, s1, s2, s3);
    LostImageConfirmed(s3, c.Other(), s4, c);
  }
}
