/**
 Runs in which every commit is confirmed or rejected before the next update is prepared, and
 what goes wrong in runs that leave the assumptions of the safety theorems.
 */
module OtaDiscipline {
  import opened Crc
  import opened Flash
  import opened SelectEntry
  import opened SlotChoice
  import opened Ota
  import opened OtaRuns
  import opened OtaSafety

  /** No update is prepared while a committed entry is still undecided. */
  ghost predicate Disciplined(s: System, ev: Event)
    requires |s.flash| >= LAYOUT_END
  {
    ev == Prepare ==> !Pending(EntryAt(s.flash, Zero)) && !Pending(EntryAt(s.flash, One))
  }

  /** Undecided entries have their image, and none is undecided while its slot is being written. */
  ghost predicate PendingIntact(s: System, c: EntrySlot)
    requires |s.flash| >= LAYOUT_END
  {
    Pending(EntryAt(s.flash, c.Other())) ==> Intact(s, c.Other()) && s.update.None?
  }

  ghost predicate StrictInv(s: System, c: EntrySlot) {
    && Inv(s, c)
    && UndefinedIsTorn(EntryAt(s.flash, c), EntryAt(s.flash, c.Other()))
    && PendingIntact(s, c)
  }

  /** What may be booted: checksum-ok, not rejected. */
  predicate Active(e: Entry) {
    e.Live() && e.state != Invalid && e.state != Aborted
  }

  /** Some entry may be booted, no two tie, and the newest that may be has its image. */
  ghost predicate ActiveIntact(s: System)
    requires |s.flash| >= LAYOUT_END
  {
    var (e0, e1) := (EntryAt(s.flash, Zero), EntryAt(s.flash, One));
    && (Active(e0) || Active(e1))
    && (Active(e0) && Active(e1) ==> e0.seqNo != e1.seqNo)
    && (Active(e0) && (Active(e1) ==> e1.seqNo < e0.seqNo) ==> Intact(s, Zero))
    && (Active(e1) && (Active(e0) ==> e0.seqNo < e1.seqNo) ==> Intact(s, One))
  }

  lemma StrictInvIsActiveIntact(s: System, c: EntrySlot)
    requires StrictInv(s, c)
    ensures ActiveIntact(s)
  {
    hide SeqChecksum, EntryAt, Intact;
    var (a, o) := (EntryAt(s.flash, c), EntryAt(s.flash, c.Other()));
    AnchorIsNewest(a, o);
    if o.state == Undefined {
      UndefinedIsNotOk(a, o);
    }
  }

  /** A decision on an entry finds no update under way, and the image in its slot. */
  lemma StrictDecision(s: System, e: EntrySlot, state: State, t: System, c: EntrySlot)
    requires StrictInv(s, c) && Next(s, SetState(e, state), t)
    ensures |s.flash| >= LAYOUT_END && Intact(s, e) && s.update.None?
  {
    hide SeqChecksum, EntryAt, Intact, Torn, UndefinedIsTorn, ChosenSlot, CommitSlot, CommitTarget, Committed,
         TornCommit;
  }

  lemma StrictInvIsHarmless(s: System, ev: Event, t: System, c: EntrySlot)
    requires StrictInv(s, c) && Next(s, ev, t)
    ensures |s.flash| >= LAYOUT_END && |t.flash| >= LAYOUT_END && Harmless(s, ev)
  {
    hide Inv, Next, Stale, UndefinedIsTorn, PendingIntact, Safe, Intact;
    InvIsNotStale(s, c);
    if ev.SetState? {
      StrictDecision(s, ev.entry, ev.state, t, c);
      var d := SetStateStep(s, ev.entry, ev.state, t, c);
      InvIsNotStale(t, d);
    } else {
      ProtocolStep(s, ev, t, c);
      InvIsNotStale(t, c);
    }
  }

  lemma FirmwareStepKeepsStrict(s: System, ev: Event, t: System, c: EntrySlot)
    requires StrictInv(s, c) && Next(s, ev, t) && Disciplined(s, ev)
    requires ev == Prepare || ev.Write? || ev.WriteCut? || ev == PowerLoss
    ensures StrictInv(t, c)
  {
    hide SeqChecksum, EntryAt, Torn, Written, Core, UndefinedIsTorn, Holds, Pending;
    var slot := SlotOf(c.Other());
    match ev
    case Prepare =>
      PrepareStep(s, t, c);
    case Write(buf) =>
      WriteStep(s, buf, t, c);
      if |s.streamed| + |buf| <= slot.Area().size {
        FirmwareWrite(s.flash, slot, |s.streamed|, buf);
        SlotChangeKeeps(s.flash, t.flash, c.Other(), s.Image(c));
      }
    case WriteCut(buf, upto, erased) =>
      WriteCutStep(s, buf, upto, erased, t, c);
      WriteCutMeans(s, buf, upto, erased, t);
      FirmwareTorn(s.flash, t.flash, slot, |s.streamed|, buf);
      SlotChangeKeeps(s.flash, t.flash, c.Other(), s.Image(c));
    case PowerLoss =>
      PowerLossStep(s, t, c);
  }

  lemma CommitStepKeepsStrict(s: System, ev: Event, t: System, c: EntrySlot)
    requires StrictInv(s, c) && Next(s, ev, t) && (ev == Commit || ev == CommitCut)
    ensures StrictInv(t, c)
  {
    hide SeqChecksum, EntryAt, Torn, TornCommit, Written, Core, UndefinedIsTorn, Holds, Pending, Intact, Committed;
    CommitStep(s, t, c);
  }

  lemma StateStepKeepsStrict(s: System, e: EntrySlot, state: State, t: System, c: EntrySlot) returns (d: EntrySlot)
    requires StrictInv(s, c) && Next(s, SetState(e, state), t)
    ensures StrictInv(t, d)
  {
    hide SeqChecksum, EntryAt, Intact, SumBelow, Holds;
    StrictDecision(s, e, state, t, c);
    d := SetStateStep(s, e, state, t, c);
  }

  lemma {:induction false} RunKeepsStrict(states: seq<System>, events: seq<Event>, n: nat) returns (c: EntrySlot)
    requires Run(states, events) && n < |states|
    requires forall i :: 0 <= i < |events| ==> Disciplined(states[i], events[i])
    ensures StrictInv(states[n], c)
    decreases n
  {
    hide Init, Next, Disciplined, StrictInv;
    if n == 0 {
      InitIsStrict(states[0]);
      c := Zero;
    } else {
      c := RunKeepsStrict(states, events, n - 1);
      var (s, ev, t) := (states[n - 1], events[n - 1], states[n]);
      match ev
      case Prepare => FirmwareStepKeepsStrict(s, ev, t, c);
      case Write(_) => FirmwareStepKeepsStrict(s, ev, t, c);
      case WriteCut(_, _, _) => FirmwareStepKeepsStrict(s, ev, t, c);
      case PowerLoss => FirmwareStepKeepsStrict(s, ev, t, c);
      case Commit => CommitStepKeepsStrict(s, ev, t, c);
      case CommitCut => CommitStepKeepsStrict(s, ev, t, c);
      case SetState(e, state) => c := StateStepKeepsStrict(s, e, state, t, c);
    }
  }

  lemma InitIsStrict(s: System)
    requires Init(s)
    ensures StrictInv(s, Zero)
  {
    hide SeqChecksum, EntryAt;
    InitEntries(s);
  }

  /**
   In a disciplined run every event is harmless, whenever it comes: the device can boot, and the
   newest entry that is not rejected has its image, confirmed or not.
   */
  lemma DisciplinedRunsAreSafe(states: seq<System>, events: seq<Event>, n: nat)
    requires Run(states, events) && n < |states|
    requires forall i :: 0 <= i < |events| ==> Disciplined(states[i], events[i])
    ensures Safe(states[n]) && ActiveIntact(states[n])
    ensures n < |events| ==> Harmless(states[n], events[n])
  {
    hide Inv, StaleInv, Safe, Next, Disciplined, ActiveIntact, PendingIntact, UndefinedIsTorn, Harmless;
    var c := RunKeepsStrict(states, events, n);
    SoundIsSafe(states[n], c);
    StrictInvIsActiveIntact(states[n], c);
    if n < |events| {
      StrictInvIsHarmless(states[n], events[n], states[n + 1], c);
    }
  }
}
