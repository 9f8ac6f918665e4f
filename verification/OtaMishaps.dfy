/** Runs from a fresh device that leave the assumptions of the theorems, and what they come to. */
module OtaMishaps {
  import opened Bytes
  import opened Crc
  import opened Flash
  import opened SelectEntry
  import opened SlotChoice
  import opened Ota
  import opened OtaRuns
  import opened OtaSafety
  import opened OtaNumbers
  import opened FirstUpdate
  import opened Wrappers

  /** With entry 0 as anchor, an update goes to slot 1, and so does its commit. */
  lemma PreparedOther(s: System) returns (t: System)
    requires Inv(s, Zero)
    ensures |s.flash| >= LAYOUT_END && Next(s, Prepare, t)
    ensures t == s.(update := Some((Slot1, 0)), streamed := []) && Inv(t, Zero)
    ensures CommitTarget(s.flash) == One && CommitSlot(s.flash) == Slot1
  {
    hide SeqChecksum, EntryAt, Core, Written, Committed, CommitEntry, TornCommit, Torn, WithState, Pending, Holds,
         CommitSlot, CommitTarget, ChosenSlot, CommitSeq, NextNumber;
    ChoicesAgree(s.flash, Zero);
    t := s.(update := Some((Slot1, 0)), streamed := []);
    PrepareStep(s, t, Zero);
  }

  /** Preparing the next update while the first is undecided: it goes to the same slot. */
  lemma PreparedAgain(s: System, image: seq<byte>) returns (t: System)
    requires FirstCommitted(s, image)
    ensures |s.flash| >= LAYOUT_END && Next(s, Prepare, t)
    ensures t == s.(update := Some((Slot1, 0)), streamed := []) && Inv(t, Zero)
    ensures CommitTarget(s.flash) == One && CommitSlot(s.flash) == Slot1
    ensures NextNumber(s.flash) == 3
  {
    hide SeqChecksum, EntryAt, Core, Written, Committed, CommitEntry, TornCommit, Torn, WithState, Pending, Holds,
         CommitSlot,
         CommitTarget, ChosenSlot, CommitSeq;
    ChoicesAgree(s.flash, Zero);
    t := s.(update := Some((Slot1, 0)), streamed := []);
    PrepareStep(s, t, Zero);
  }

  // ---- An image overwritten while undecided ----

  /**
   A run that writes over the undecided image, gives up, and confirms it after all: the device lost
   its newest image.
   */
  lemma OverwrittenThenConfirmed(s: System, image: seq<byte>, b: byte) returns (states: seq<System>, events: seq<Event>)
    requires Init(s) && 0 < |image| <= OTA_1.size && image[0] != b
    ensures |states| == 8 && states[0] == s && |states[6].flash| >= LAYOUT_END && |states[7].flash| >= LAYOUT_END
    ensures events == [Prepare, Write(image), Commit, Prepare, Write([b]), PowerLoss, SetState(One, Valid)]
    ensures Safe(states[6]) && !Safe(states[7])
    ensures Run(states, events)
  {
    hide *;
    FreshHasLayout(s);
    FirstCommit(s, image);
    states, events := Stages(s, image), UpdateEvents(image);
    var tail := OverwrittenTail(states[3], image, b);
    var more := [Prepare, Write([b]), PowerLoss, SetState(One, Valid)];
    Continued(states, events, tail, more);
    states, events := states + tail, events + more;
    RunHasLayout(states, events);
  }

  lemma OverwrittenTail(s3: System, image: seq<byte>, b: byte) returns (tail: seq<System>)
    requires FirstCommitted(s3, image) && image != [] && image[0] != b
    ensures |s3.flash| >= LAYOUT_END && |tail| == 4
    ensures Follows(s3, tail, [Prepare, Write([b]), PowerLoss, SetState(One, Valid)])
    ensures |tail[2].flash| >= LAYOUT_END && |tail[3].flash| >= LAYOUT_END && Safe(tail[2]) && !Safe(tail[3])
  {
    hide *;
    var s4, s5, s6 := OverwrittenStates(s3, image, b);
    var s7 := ConfirmedAt(s6, Zero.Other());
    ConfirmOverwrittenImage(s3, Zero, b, s4, s5, s6, s7);
    FourMore(s3, s4, s5, s6, s7, Prepare, Write([b]), PowerLoss, SetState(One, Valid));
    tail := [s4, s5, s6, s7];
  }

  lemma FourMore(s3: System, s4: System, s5: System, s6: System, s7: System, e4: Event, e5: Event, e6: Event, e7: Event)
    requires |s3.flash| >= LAYOUT_END && |s4.flash| >= LAYOUT_END && |s5.flash| >= LAYOUT_END
    requires |s6.flash| >= LAYOUT_END && |s7.flash| >= LAYOUT_END
    requires Next(s3, e4, s4) && Next(s4, e5, s5) && Next(s5, e6, s6) && Next(s6, e7, s7)
    ensures Follows(s3, [s4, s5, s6, s7], [e4, e5, e6, e7])
  {
    hide Next;
  }

  lemma OverwrittenStates(s3: System, image: seq<byte>, b: byte) returns (s4: System, s5: System, s6: System)
    requires FirstCommitted(s3, image) && image != [] && image[0] != b
    ensures |s3.flash| >= LAYOUT_END && |s4.flash| >= LAYOUT_END && |s5.flash| >= LAYOUT_END && |s6.flash| >= LAYOUT_END
    ensures Next(s3, Prepare, s4) && Next(s4, Write([b]), s5) && Next(s5, PowerLoss, s6)
    ensures Inv(s3, Zero) && Pending(EntryAt(s3.flash, Zero.Other()))
    ensures EntryAt(s3.flash, Zero.Other()).seqNo > EntryAt(s3.flash, Zero).seqNo
    ensures s3.Image(Zero.Other()) == image && Pending(EntryAt(s6.flash, Zero.Other())) && Safe(s6)
        && Zero.Other() == One
  {
    hide SeqChecksum, EntryAt, Core, Written, Committed, CommitEntry, TornCommit, Torn, WithState, Holds, CommitSlot,
         CommitTarget, ChosenSlot, CommitSeq, Safe;
    s4 := PreparedAgain(s3, image);
    s5 := s4.(flash := Written(s4.flash, OTA_1.offset, [b]), update := Some((Slot1, 1)), streamed := [b]);
    assert s4.streamed + [b] == [b];
    s6 := s5.(update := None);
    OverwrittenImage(s3, Zero, b, s4, s5, s6);
    SoundIsSafe(s6, Zero);
  }

  /** A pending entry can be confirmed. */
  lemma ConfirmedAt(s: System, e: EntrySlot) returns (t: System)
    requires |s.flash| >= LAYOUT_END && Pending(EntryAt(s.flash, e))
    ensures |t.flash| >= LAYOUT_END && Next(s, SetState(e, Valid), t)
    ensures t == s.(flash := WithState(s.flash, e, Valid))
  {
    hide EntryAt, WithState, Pending, ChosenSlot, CommitSlot, NextNumber, CommitTarget, Committed, TornCommit, Torn,
         Written;
    t := s.(flash := WithState(s.flash, e, Valid));
  }

  // ---- A confirmation in the middle of an update ----

  /** A run in which the undecided entry is confirmed while the next update is under way: the commit panics. */
  lemma ConfirmedThenCommitted(s: System, image: seq<byte>) returns (states: seq<System>, events: seq<Event>)
    requires Init(s) && |image| <= OTA_1.size
    ensures |states| == 7 && states[0] == s && |states[5].flash| >= LAYOUT_END
    ensures events == [Prepare, Write(image), Commit, Prepare, SetState(One, Valid), Commit]
    ensures Safe(states[5]) && Stale(states[5]) && states[6].panicked
    ensures Run(states, events)
  {
    hide *;
    FreshHasLayout(s);
    FirstCommit(s, image);
    states, events := Stages(s, image), UpdateEvents(image);
    var tail := StaleTail(states[3], image);
    var more := [Prepare, SetState(One, Valid), Commit];
    Continued(states, events, tail, more);
    states, events := states + tail, events + more;
    RunHasLayout(states, events);
  }

  lemma StaleTail(s3: System, image: seq<byte>) returns (tail: seq<System>)
    requires FirstCommitted(s3, image)
    ensures |s3.flash| >= LAYOUT_END && |tail| == 3 && Follows(s3, tail, [Prepare, SetState(One, Valid), Commit])
    ensures |tail[1].flash| >= LAYOUT_END && Safe(tail[1]) && Stale(tail[1]) && tail[2].panicked
  {
    hide Next, Safe, Stale, FirstCommitted;
    var s4, s5, s6 := StaleStates(s3, image);
    tail := [s4, s5, s6];
  }

  lemma StaleStates(s3: System, image: seq<byte>) returns (s4: System, s5: System, s6: System)
    requires FirstCommitted(s3, image)
    ensures |s3.flash| >= LAYOUT_END && |s4.flash| >= LAYOUT_END && |s5.flash| >= LAYOUT_END && |s6.flash| >= LAYOUT_END
    ensures Next(s3, Prepare, s4) && Next(s4, SetState(One, Valid), s5) && Next(s5, Commit, s6)
    ensures Safe(s5) && Stale(s5) && s6.panicked
  {
    hide SeqChecksum, EntryAt, Core, Written, Committed, CommitEntry, TornCommit, Torn, WithState, Holds, CommitSlot,
         CommitTarget, ChosenSlot, CommitSeq, Safe, Stale, Next;
    s4 := PreparedAgain(s3, image);
    s5 := ConfirmedAt(s4, One);
    var d := SetStateStep(s4, One, Valid, s5, Zero);
    SoundIsSafe(s5, d);
    AnchorOfSystem(s5, d);
    s6 := PanickingCommit(s5, d);
  }

  lemma PanickingCommit(s: System, c: EntrySlot) returns (t: System)
    requires StaleInv(s, c)
    ensures |s.flash| >= LAYOUT_END && |t.flash| >= LAYOUT_END && Next(s, Commit, t) && t.panicked
  {
    hide SeqChecksum, EntryAt, Core, Written, Committed, CommitEntry, TornCommit, Torn, WithState, Holds, CommitSlot,
         CommitTarget, ChosenSlot, CommitSeq;
    ChoicesAgree(s.flash, c);
    t := s.(update := None, panicked := true);
  }

  // ---- A number that comes round ----

  /** A run in which two commits have the same number: the commit between them was cut. */
  lemma NumbersComeRound(s: System, image: seq<byte>) returns (states: seq<System>, events: seq<Event>)
    requires Init(s) && |image| <= OTA_1.size
    ensures |states| == 8 && states[0] == s
    ensures events == [Prepare, Write(image), Commit, Prepare, CommitCut, Prepare, Commit]
    ensures |states[2].flash| >= LAYOUT_END && Commits(states[2], Commit) && NextNumber(states[2].flash) == 2
    ensures |states[4].flash| >= LAYOUT_END && MayForget(states[4], CommitCut)
    ensures |states[6].flash| >= LAYOUT_END && Commits(states[6], Commit) && NextNumber(states[6].flash) == 2
    ensures Run(states, events)
  {
    hide *;
    FreshHasLayout(s);
    FirstCommit(s, image);
    states, events := Stages(s, image), UpdateEvents(image);
    var tail := RoundTail(states[3], image);
    var more := [Prepare, CommitCut, Prepare, Commit];
    Continued(states, events, tail, more);
    states, events := states + tail, events + more;
    RunHasLayout(states, events);
  }

  lemma RoundTail(s3: System, image: seq<byte>) returns (tail: seq<System>)
    requires FirstCommitted(s3, image)
    ensures |s3.flash| >= LAYOUT_END && |tail| == 4 && Follows(s3, tail, [Prepare, CommitCut, Prepare, Commit])
    ensures |tail[0].flash| >= LAYOUT_END && MayForget(tail[0], CommitCut)
    ensures |tail[2].flash| >= LAYOUT_END && Commits(tail[2], Commit) && NextNumber(tail[2].flash) == 2
  {
    hide *;
    var s4, s5, s6, s7 := RoundStates(s3, image);
    FourMore(s3, s4, s5, s6, s7, Prepare, CommitCut, Prepare, Commit);
    tail := [s4, s5, s6, s7];
  }

  lemma RoundStates(s3: System, image: seq<byte>) returns (s4: System, s5: System, s6: System, s7: System)
    requires FirstCommitted(s3, image)
    ensures |s3.flash| >= LAYOUT_END && |s4.flash| >= LAYOUT_END && |s5.flash| >= LAYOUT_END
    ensures |s6.flash| >= LAYOUT_END && |s7.flash| >= LAYOUT_END
    ensures Next(s3, Prepare, s4) && Next(s4, CommitCut, s5) && Next(s5, Prepare, s6) && Next(s6, Commit, s7)
    ensures MayForget(s4, CommitCut) && Commits(s6, Commit) && NextNumber(s6.flash) == 2
  {
    hide SeqChecksum, EntryAt, Core, Written, Committed, CommitEntry, TornCommit, Torn, WithState, Holds, CommitSlot,
         CommitTarget, ChosenSlot, CommitSeq, Highest, MayForget, Next;
    s4 := PreparedAgain(s3, image);
    s5 := CutAtNumber(s4);
    CommitStep(s4, s5, Zero);
    ChoicesAgree(s5.flash, Zero);
    s6, s7 := CommitAgain(s5);
  }

  /** A commit cut after the number: the entry does not count any more. */
  lemma CutAtNumber(s: System) returns (t: System)
    requires Inv(s, Zero) && s.update.Some? && NewestLive(s.flash, One) && EntryAt(s.flash, Zero).seqNo == 1
    requires CommitTarget(s.flash) == One && CommitSlot(s.flash) == Slot1 == s.update.value.0
    ensures |t.flash| >= LAYOUT_END && Next(s, CommitCut, t) && MayForget(s, CommitCut)
    ensures Inv(t, Zero) && t.update == None && NextNumber(t.flash) == 2
    ensures EntryBytes(t.flash, One) == Overlay(EntryBytes(s.flash, One), Encode(CommitEntry(s.flash)), 4)
  {
    hide SeqChecksum, EntryAt, Core, Written, Committed, Torn, TornAt, WithState, Holds, CommitSlot,
         CommitTarget, ChosenSlot, CommitSeq, Highest, Encode, Parse, CommitEntry, EntryBytes;
    var n := CommitEntry(s.flash);
    var m := CutAfter(s.flash, One, Encode(n), 4);
    TornSomewhere(s.flash, m, One.Address(), Encode(n), One.Address() + 4, false);
    t := s.AfterCut(One, m);
    CommitStep(s, t, Zero);
    AnchorOfSystem(s, Zero);
    NewestIsBootable(s.flash, Zero);
    NumberAfterCut(s.flash, m);
  }

  lemma NumberAfterCut(m: seq<byte>, t: seq<byte>)
    requires |m| >= LAYOUT_END && |t| == |m| && CommitTarget(m) == One
    requires EntryAt(m, Zero).Live() && EntryAt(m, Zero).seqNo == 1 && NewestLive(m, One)
    requires EntryBytes(t, One) == Overlay(EntryBytes(m, One), Encode(CommitEntry(m)), 4)
    requires EntryAt(t, Zero) == EntryAt(m, Zero)
    ensures NextNumber(t) == 2
  {
    hide SeqChecksum, CommitTarget, CommitSeq, Highest, Encode, Parse, EntryBytes;
    CutCommitReusesNumbers(EntryAt(m, Zero), EntryBytes(m, One), CommitEntry(m));
  }

  /** The next update is committed under the number after the anchor's. */
  lemma CommitAgain(s: System) returns (p: System, t: System)
    requires Inv(s, Zero) && s.update == None && NextNumber(s.flash) == 2
    ensures |s.flash| >= LAYOUT_END && |p.flash| >= LAYOUT_END && |t.flash| >= LAYOUT_END
    ensures Next(s, Prepare, p) && Next(p, Commit, t) && Commits(p, Commit) && NextNumber(p.flash) == 2
  {
    hide SeqChecksum, EntryAt, Core, Written, Committed, CommitEntry, TornCommit, Torn, WithState, Holds, CommitSlot,
         CommitTarget, ChosenSlot, CommitSeq;
    ChoicesAgree(s.flash, Zero);
    p := s.(update := Some((Slot1, 0)), streamed := []);
    t := p.WithCommit(One, Committed(p.flash));
  }

  // ---- A rejected entry that passes its checksum again ----

  /** The first update, rejected. */
  lemma Rejected(s: System, image: seq<byte>) returns (t: System)
    requires FirstCommitted(s, image)
    ensures |s.flash| >= LAYOUT_END && |t.flash| >= LAYOUT_END && Next(s, SetState(One, Invalid), t)
    ensures Inv(t, Zero) && t.update == None && EntryAt(t.flash, Zero).seqNo == 1 && NewestLive(t.flash, One)
    ensures EntryAt(t.flash, One).seqNo == 2 && EntryAt(t.flash, One).state == Invalid
  {
    hide SeqChecksum, EntryAt, Core, Written, Committed, CommitEntry, TornCommit, Torn, WithState, Holds, CommitSlot,
         CommitTarget, ChosenSlot, CommitSeq, NextNumber;
    t := s.(flash := WithState(s.flash, One, Invalid));
    var d := SetStateStep(s, One, Invalid, t, Zero);
  }

  /** The fields of an entry whose number was replaced and nothing else. */
  lemma NumberReplaced(o: seq<byte>, n: Entry)
    requires |o| == ENTRY_SIZE && |n.seqLabel| == LABEL_SIZE && n.state == New
    ensures Parse(Overlay(o, Encode(n), 4)) == Parse(o).(seqNo := n.seqNo)
  {
    hide SeqChecksum, Encode, SumOf, FromLe;
    var t := Overlay(o, Encode(n), 4);
    NewStateWord(n);
    OverlayWords(o, Encode(n), t, 4);
    assert t[4..24] == o[4..24];
  }

  /** Number 3 over the checksum of number 2, rejected: writing number 2 there revives it. */
  lemma NumberTwoRevives(o: seq<byte>, n: Entry)
    requires |o| == ENTRY_SIZE && |n.seqLabel| == LABEL_SIZE && n.state == New && n.seqNo == 2
    requires Parse(o).seqNo != 2 && Parse(o).state == Invalid && Parse(o).crc == SeqChecksum(2)
    ensures Revives(o, n)
  {
    hide SeqChecksum, Encode, SumOf, FromLe;
    var b := Encode(n);
    NewStateWord(n);
    if Parse(o).ChecksumOk() {
      SeqChecksumInjective(Parse(o).seqNo, 2);
    }
    if o[4..] == b[4..] {
      assert o[24..28] == o[4..][20..24] == b[4..][20..24] == b[24..28];
      NewWord();
    }
    assert Overlay(o[0..4], b[0..4], 4) == b[0..4];
    assert o[4..] != b[4..] && SeqChecksum(FromLe(Overlay(o[0..4], b[0..4], 4))) == Parse(o).crc;
  }

  lemma NewWord()
    ensures StateFrom(FromLe([0, 0, 0, 0])) == New
  {
  }

  /** The second cut, at the number again. */
  lemma CutAgain(s: System) returns (t: System)
    requires |s.flash| >= LAYOUT_END && s.update == Some((Slot1, 0))
    requires CommitTarget(s.flash) == One && CommitSlot(s.flash) == Slot1 && NextNumber(s.flash) == 2
    ensures |t.flash| >= LAYOUT_END && Next(s, CommitCut, t)
    ensures EntryAt(t.flash, One) == EntryAt(s.flash, One).(seqNo := 2)
    ensures EntryBytes(t.flash, One) == Overlay(EntryBytes(s.flash, One), Encode(CommitEntry(s.flash)), 4)
  {
    hide SeqChecksum, Written, Torn, TornAt, WithState, CommitSlot, CommitTarget, ChosenSlot, NextNumber, Encode, Parse,
         CommitEntry, EntryBytes;
    var n := CommitEntry(s.flash);
    var m := CutAfter(s.flash, One, Encode(n), 4);
    TornSomewhere(s.flash, m, One.Address(), Encode(n), One.Address() + 4, false);
    NumberReplaced(EntryBytes(s.flash, One), n);
    t := s.AfterCut(One, m);
  }

  /** The states from the rejection to the second cut. */
  lemma RevivalStates(s3: System, image: seq<byte>) returns (s4: System, s5: System, s6: System, s7: System, s8: System)
    requires FirstCommitted(s3, image)
    ensures |s3.flash| >= LAYOUT_END && |s4.flash| >= LAYOUT_END && |s5.flash| >= LAYOUT_END
    ensures |s6.flash| >= LAYOUT_END && |s7.flash| >= LAYOUT_END && |s8.flash| >= LAYOUT_END
    ensures Next(s3, SetState(One, Invalid), s4) && Next(s4, Prepare, s5) && Next(s5, CommitCut, s6)
    ensures Next(s6, Prepare, s7) && Next(s7, CommitCut, s8)
    ensures Revival(s7, s8)
  {
    hide SeqChecksum, EntryAt, Core, Written, Committed, CommitEntry, TornCommit, Torn, WithState, Holds, CommitSlot,
         CommitTarget, ChosenSlot, CommitSeq, Highest, MayForget, Next, Encode, Parse, EntryBytes, NextNumber, Revival;
    s4 := Rejected(s3, image);
    s5 := PreparedOther(s4);
    s6 := CutAtNumber(s5);
    s7 := PreparedOther(s6);
    s8 := CutAgain(s7);
    RevivedAgain(s5.flash, s7, s8);
  }

  /**
   Before the cut, entry 1 fails its checksum and the write can revive; after it, entry 1 is the
   rejected one, passes under number 2, and is neither what was there nor what was written.
   */
  ghost predicate Revival(s: System, t: System)
    requires |s.flash| >= LAYOUT_END && |t.flash| >= LAYOUT_END
  {
    && !EntryAt(s.flash, One).ChecksumOk()
    && Revives(EntryBytes(s.flash, CommitTarget(s.flash)), CommitEntry(s.flash))
    && EntryAt(t.flash, One).Live() && EntryAt(t.flash, One).state == Invalid && EntryAt(t.flash, One).seqNo == 2
    && !AtomicallyTorn(s.flash, t.flash)
  }

  lemma RevivedAgain(m: seq<byte>, s: System, t: System)
    requires |m| >= LAYOUT_END && |s.flash| >= LAYOUT_END && |t.flash| >= LAYOUT_END
    requires NewestLive(m, One) && EntryAt(m, One).seqNo == 2 && EntryAt(m, One).state == Invalid
    requires EntryBytes(s.flash, One) == Overlay(EntryBytes(m, One), Encode(CommitEntry(m)), 4)
    requires CommitTarget(s.flash) == One && NextNumber(s.flash) == 2
    requires EntryAt(t.flash, One) == EntryAt(s.flash, One).(seqNo := 2)
    ensures Revival(s, t)
  {
    hide SeqChecksum, Encode, Parse, CommitTarget, EntryBytes, CommitSeq, Revives, Overlay;
    NumberReplaced(EntryBytes(m, One), CommitEntry(m));
    CommitSeqIsNext(EntryAt(m, Zero), EntryAt(m, One));
    SeqChecksumDiffers(NextNumber(m));
    NumberTwoRevives(EntryBytes(s.flash, One), CommitEntry(s.flash));
    EntryRoundTrip(CommitEntry(s.flash));
  }

  lemma SeqChecksumDiffers(n: u32)
    ensures SeqChecksum(n) == SeqChecksum(2) ==> n == 2
  {
    hide SeqChecksum;
    if SeqChecksum(n) == SeqChecksum(2) {
      SeqChecksumInjective(n, 2);
    }
  }

  /**
   A run in which the first update is rejected, and the next two commits are cut after their
   numbers: the second one brings the rejected entry back.
   */
  lemma RejectedEntryRevived(s: System, image: seq<byte>) returns (states: seq<System>, events: seq<Event>)
    requires Init(s) && |image| <= OTA_1.size
    ensures |states| == 9 && states[0] == s && |states[7].flash| >= LAYOUT_END && |states[8].flash| >= LAYOUT_END
    ensures events ==
              [Prepare, Write(image), Commit, SetState(One, Invalid), Prepare, CommitCut, Prepare, CommitCut]
    ensures Revival(states[7], states[8])
    ensures Run(states, events)
  {
    hide *;
    FreshHasLayout(s);
    FirstCommit(s, image);
    states, events := Stages(s, image), UpdateEvents(image);
    var tail := RevivalTail(states[3], image);
    var more := [SetState(One, Invalid), Prepare, CommitCut, Prepare, CommitCut];
    Continued(states, events, tail, more);
    states, events := states + tail, events + more;
    RunHasLayout(states, events);
  }

  lemma RevivalTail(s3: System, image: seq<byte>) returns (tail: seq<System>)
    requires FirstCommitted(s3, image)
    ensures |s3.flash| >= LAYOUT_END && |tail| == 5
    ensures Follows(s3, tail, [SetState(One, Invalid), Prepare, CommitCut, Prepare, CommitCut])
    ensures |tail[3].flash| >= LAYOUT_END && |tail[4].flash| >= LAYOUT_END && Revival(tail[3], tail[4])
  {
    hide Next, FirstCommitted, Revival;
    var s4, s5, s6, s7, s8 := RevivalStates(s3, image);
    tail := [s4, s5, s6, s7, s8];
  }

  // ---- A stale update that writes ----

  /** A run in which an entry is confirmed while its slot is being written, and then overwritten. */
  lemma ConfirmedThenOverwritten(s: System, image: seq<byte>, b: byte)
    returns (states: seq<System>, events: seq<Event>)
    requires Init(s) && 0 < |image| <= OTA_1.size && image[0] != b
    ensures |states| == 7 && states[0] == s && |states[5].flash| >= LAYOUT_END && |states[6].flash| >= LAYOUT_END
    ensures events == [Prepare, Write(image), Commit, Prepare, SetState(One, Valid), Write([b])]
    ensures Safe(states[5]) && Stale(states[5]) && !Safe(states[6]) && !states[6].panicked
    ensures Run(states, events)
  {
    hide *;
    FreshHasLayout(s);
    FirstCommit(s, image);
    states, events := Stages(s, image), UpdateEvents(image);
    var tail := StaleWriteTail(states[3], image, b);
    var more := [Prepare, SetState(One, Valid), Write([b])];
    Continued(states, events, tail, more);
    states, events := states + tail, events + more;
    RunHasLayout(states, events);
  }

  lemma StaleWriteTail(s3: System, image: seq<byte>, b: byte) returns (tail: seq<System>)
    requires FirstCommitted(s3, image) && image != [] && image[0] != b
    ensures |s3.flash| >= LAYOUT_END && |tail| == 3
    ensures Follows(s3, tail, [Prepare, SetState(One, Valid), Write([b])])
    ensures |tail[1].flash| >= LAYOUT_END && Safe(tail[1]) && Stale(tail[1])
    ensures |tail[2].flash| >= LAYOUT_END && !Safe(tail[2]) && !tail[2].panicked
  {
    hide Next, Safe, Stale, FirstCommitted;
    var s4, s5, s6 := StaleWriteStates(s3, image, b);
    tail := [s4, s5, s6];
  }

  lemma StaleWriteStates(s3: System, image: seq<byte>, b: byte) returns (s4: System, s5: System, s6: System)
    requires FirstCommitted(s3, image) && image != [] && image[0] != b
    ensures |s3.flash| >= LAYOUT_END && |s4.flash| >= LAYOUT_END && |s5.flash| >= LAYOUT_END && |s6.flash| >= LAYOUT_END
    ensures Next(s3, Prepare, s4) && Next(s4, SetState(One, Valid), s5) && Next(s5, Write([b]), s6)
    ensures Safe(s5) && Stale(s5) && !Safe(s6) && !s6.panicked
  {
    hide SeqChecksum, EntryAt, Core, Written, Committed, CommitEntry, TornCommit, Torn, WithState, Holds, CommitSlot,
         CommitTarget, ChosenSlot, CommitSeq, Safe, Stale, Next;
    s4 := PreparedAgain(s3, image);
    s5 := ConfirmedAt(s4, One);
    var d := SetStateStep(s4, One, Valid, s5, Zero);
    SoundIsSafe(s5, d);
    AnchorOfSystem(s5, d);
    s6 := OneByteWritten(s5, b);
    NotRepeated(s5, image, b);
    StaleWrite(s5, [b], s6, d);
  }

  lemma OneByteWritten(s: System, b: byte) returns (t: System)
    requires |s.flash| >= LAYOUT_END && s.update == Some((Slot1, 0)) && s.streamed == []
    ensures |t.flash| >= LAYOUT_END && Next(s, Write([b]), t) && t.panicked == s.panicked
  {
    hide EntryAt, ChosenSlot, CommitSlot, NextNumber, CommitTarget, Committed, TornCommit, Torn, Written, WithState,
         Pending;
    t := s.(flash := Written(s.flash, OTA_1.offset, [b]), update := Some((Slot1, 1)), streamed := [b]);
    assert [] + [b] == [b];
  }

  lemma NotRepeated(s: System, image: seq<byte>, b: byte)
    requires |s.flash| >= LAYOUT_END && s.update == Some((Slot1, 0)) && s.image1 == image && Stale(s)
    requires image != [] && image[0] != b
    ensures !Harmless(s, Write([b]))
  {
    hide Stale, Intact;
    assert [b][0] == b;
  }

  // ---- Blank OTA data ----

  /** On blank OTA data an update goes to slot 0 and its commit to slot 1: the commit panics. */
  lemma BlankDataPanics(s: System) returns (t: System, u: System)
    requires |s.flash| >= LAYOUT_END && Blank(EntryBytes(s.flash, Zero)) && Blank(EntryBytes(s.flash, One))
    ensures ChosenSlot(s.flash) == Slot0 && CommitSlot(s.flash) == Slot1
    ensures |t.flash| >= LAYOUT_END && Next(s, Prepare, t) && Next(t, Commit, u) && u.panicked
  {
    hide SeqChecksum, Parse, EntryBytes, Written, Committed, CommitEntry, TornCommit, Torn, WithState;
    assert EntryBytes(s.flash, Zero) == ERASED_ENTRY && EntryBytes(s.flash, One) == ERASED_ENTRY;
    ErasedEntry();
    t := s.(update := Some((Slot0, 0)), streamed := []);
    u := t.(update := None, panicked := true);
  }
}
