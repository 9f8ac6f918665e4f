/** The protocol at work: a freshly flashed device, and its first update up to the confirmation. */
module FirstUpdate {
  import opened Bytes
  import opened Crc
  import opened Flash
  import opened SelectEntry
  import opened SlotChoice
  import opened Ota
  import opened OtaRuns
  import opened OtaSafety
  import opened OtaNumbers
  import opened OtaDiscipline
  import opened Wrappers

  /** A device as it leaves the factory: all erased but the entry of slot 0. */
  lemma FreshDevice() returns (s: System)
    ensures Init(s)
  {
    hide SeqChecksum, Encode, Parse;
    var erased := seq(LAYOUT_END, i requires 0 <= i < LAYOUT_END => ERASED);
    var e := Entry(1, seq(LABEL_SIZE, i requires 0 <= i < LABEL_SIZE => ERASED), Valid, SeqChecksum(1));
    var flash := Written(erased, Zero.Address(), Encode(e));
    s := System(flash, None, [], [], [], false);
    CommittedBytes(erased, Zero, Encode(e), flash);
    EntryRoundTrip(e);
  }

  lemma FirstNumber(s: System)
    requires Init(s)
    ensures NextNumber(s.flash) == 2 && !Pending(EntryAt(s.flash, Zero))
  {
    hide SeqChecksum, EntryAt, CommitSeq;
    InitEntries(s);
    FreshEntryIsDead(s);
    CommitSeqIsNext(EntryAt(s.flash, Zero), EntryAt(s.flash, One));
  }

  lemma FreshEntryIsDead(s: System)
    requires Init(s)
    ensures !EntryAt(s.flash, One).Live()
  {
    hide SeqChecksum, Parse;
    assert EntryBytes(s.flash, One) == ERASED_ENTRY;
    ErasedEntry();
  }

  ghost predicate Step(s: System, ev: Event, t: System) {
    |s.flash| >= LAYOUT_END && |t.flash| >= LAYOUT_END && Next(s, ev, t)
  }

  /** `tail` continues from `s` by `events`. */
  ghost predicate Follows(s: System, tail: seq<System>, events: seq<Event>) {
    |tail| == |events| && forall i :: 0 <= i < |tail| ==> Step(([s] + tail)[i], events[i], tail[i])
  }

  /** More events at the end of a run. */
  lemma Continued(states: seq<System>, events: seq<Event>, tail: seq<System>, more: seq<Event>)
    requires Run(states, events) && |states| == |events| + 1
    requires Follows(states[|events|], tail, more)
    ensures Run(states + tail, events + more) && |tail| == |more|
  {
    hide Init, Next;
    var (all, es, n) := (states + tail, events + more, |events|);
    forall i | 0 <= i < |es| ensures Step(all[i], es[i], all[i + 1]) {
      if i >= n {
        assert ([states[n]] + tail)[i - n] == all[i] && tail[i - n] == all[i + 1] && more[i - n] == es[i];
      }
    }
  }

  lemma RunHasLayout(states: seq<System>, events: seq<Event>)
    requires Run(states, events)
    ensures |states| == |events| + 1 && forall i :: 0 <= i < |states| ==> |states[i].flash| >= LAYOUT_END
  {
    hide Init, Next;
  }

  lemma Start(s: System)
    requires Init(s)
    ensures Run([s], [])
  {
    FreshHasLayout(s);
    hide Init, Next;
  }

  /** The states of a first update from `s` with `image`: fresh, prepared, written, committed. */
  function Stages(s: System, image: seq<byte>): (states: seq<System>)
    requires |s.flash| >= LAYOUT_END && |image| <= OTA_1.size
    ensures |states| == 4
  {
    var s1 := s.(update := Some((Slot1, 0)), streamed := []);
    var s2 := s1.(flash := Written(s1.flash, OTA_1.offset, image), update := Some((Slot1, |image|)), streamed := image);
    var s3 := s2.WithCommit(One, Committed(s2.flash));
    [s, s1, s2, s3]
  }

  lemma StagesHaveLayout(s: System, image: seq<byte>)
    requires |s.flash| >= LAYOUT_END && |image| <= OTA_1.size
    ensures Stages(s, image)[0] == s
    ensures forall i :: 0 <= i < 4 ==> |Stages(s, image)[i].flash| == |s.flash|
  {
    hide Written, Committed;
  }

  function UpdateEvents(image: seq<byte>): (events: seq<Event>)
    ensures |events| == 3
  {
    [Prepare, Write(image), Commit]
  }

  /** What the first commit leaves: entry 1 new, under number 2, with the image in its slot. */
  ghost predicate FirstCommitted(s: System, image: seq<byte>) {
    && Inv(s, Zero) && s.update == None && s.image1 == image && Intact(s, One)
    && EntryAt(s.flash, Zero).seqNo == 1
    && EntryAt(s.flash, One).Live() && EntryAt(s.flash, One).state == New && EntryAt(s.flash, One).seqNo == 2
  }

  lemma FreshHasLayout(s: System)
    requires Init(s)
    ensures |s.flash| >= LAYOUT_END && EntryAt(s.flash, Zero).seqNo == 1
    ensures !Pending(EntryAt(s.flash, Zero)) && !Pending(EntryAt(s.flash, One))
  {
    hide EntryAt;
    FirstNumber(s);
    InitEntries(s);
  }

  lemma UpToCommit(s: System, image: seq<byte>)
    requires Init(s) && |s.flash| >= LAYOUT_END && |image| <= OTA_1.size
    ensures forall i :: 0 <= i < 4 ==> |Stages(s, image)[i].flash| == |s.flash|
    ensures
      var states := Stages(s, image);
      && Next(states[0], Prepare, states[1]) && Next(states[1], Write(image), states[2])
          && Next(states[2], Commit, states[3])
      && Commits(states[2], Commit) && NextNumber(states[2].flash) == 2 && FirstCommitted(states[3], image)
  {
    hide SeqChecksum, EntryAt, Core, Written, Committed, CommitEntry, NextNumber, TornCommit, Torn, WithState,
         Pending, Holds, CommitSlot,
         CommitTarget, ChosenSlot;
    var states := Stages(s, image);
    StagesHaveLayout(s, image);
    InitEntries(s);
    FirstNumber(s);
    ChoicesAgree(s.flash, Zero);
    PrepareStep(s, states[1], Zero);
    assert [] + image == image;
    WriteStep(states[1], image, states[2], Zero);
    FirmwareWrite(s.flash, Slot1, 0, image);
    SameNumbers(s.flash, states[2].flash, Slot1);
    SlotChangeKeeps(s.flash, states[2].flash, One, []);
    ChoicesAgree(states[2].flash, Zero);
    CommitStep(states[2], states[3], Zero);
    CommitSupremacy(states[2].flash);
  }

  lemma SameNumbers(m: seq<byte>, t: seq<byte>, slot: Slot)
    requires |m| >= LAYOUT_END && SameOutside(m, t, slot)
    ensures NextNumber(t) == NextNumber(m)
  {
    hide EntryAt, CommitSeq;
    SameEntries(m, t, slot);
  }

  /** From every fresh device and with every image that fits there is a run up to the first commit. */
  lemma FirstCommit(s: System, image: seq<byte>)
    requires Init(s) && |s.flash| >= LAYOUT_END && |image| <= OTA_1.size
    ensures |Stages(s, image)[2].flash| >= LAYOUT_END
    ensures |Stages(s, image)[3].flash| >= LAYOUT_END && UpdateEvents(image) == [Prepare, Write(image), Commit]
    ensures Run(Stages(s, image), UpdateEvents(image)) && Stages(s, image)[0] == s
        && FirstCommitted(Stages(s, image)[3], image)
    ensures Commits(Stages(s, image)[2], Commit) && NextNumber(Stages(s, image)[2].flash) == 2
  {
    hide Init, Next, Run, FirstCommitted, Stages, Commits, NextNumber;
    var states := Stages(s, image);
    UpToCommit(s, image);
    StagesHaveLayout(s, image);
    Start(s);
    var (tail, events) := (states[1..], UpdateEvents(image));
    assert [s] + tail == states && [] + events == events;
    assert Follows(s, tail, events);
    Continued([s], [], tail, events);
  }

  /** Confirming the first update. */
  lemma Confirmation(s: System, image: seq<byte>) returns (t: System)
    requires FirstCommitted(s, image)
    ensures |s.flash| >= LAYOUT_END && |t.flash| >= LAYOUT_END && Next(s, SetState(One, Valid), t)
    ensures Confirmed(EntryAt(t.flash, One)) && EntryAt(t.flash, One).seqNo == 2 && Holds(t.flash, One, image)
  {
    hide SeqChecksum, EntryAt, WithState, Holds, Core, Written, Torn, TornCommit, Committed, CommitSlot,
         CommitTarget, ChosenSlot;
    t := s.(flash := WithState(s.flash, One, Valid));
    StateWritten(s.flash, One, Valid);
    FirmwareKept(s.flash, t.flash, One, image);
  }

  /**
   From every fresh device and with every image that fits there is a disciplined run that ends
   with the image confirmed in slot 1 under number 2.
   */
  lemma FirstUpdateSucceeds(s: System, image: seq<byte>) returns (states: seq<System>, events: seq<Event>)
    requires Init(s) && |image| <= OTA_1.size
    ensures |states| == 5 && states[0] == s && forall i :: 0 <= i < 5 ==> |states[i].flash| >= LAYOUT_END
    ensures events == [Prepare, Write(image), Commit, SetState(One, Valid)]
    ensures forall i :: 0 <= i < 4 ==> Disciplined(states[i], events[i])
    ensures Confirmed(EntryAt(states[4].flash, One)) && EntryAt(states[4].flash, One).seqNo == 2
    ensures Holds(states[4].flash, One, image)
    ensures Run(states, events)
  {
    hide Init, Next, Holds, EntryAt, Inv, Stages, Confirmed, NextNumber, Pending, FirstCommitted, Commits;
    FreshHasLayout(s);
    FirstCommit(s, image);
    var before := Stages(s, image);
    var t := Confirmation(before[3], image);
    states, events := before + [t], UpdateEvents(image) + [SetState(One, Valid)];
    assert Follows(before[3], [t], [SetState(One, Valid)]);
    Continued(before, UpdateEvents(image), [t], [SetState(One, Valid)]);
    RunHasLayout(states, events);
  }
}
