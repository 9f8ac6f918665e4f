/**
 The schedule, the web handlers and the motor around their queue, interleaved in any order: a
 sender waits while the queue is full, and the motor steps while others send.
 */
module CommandSystem {
  import opened Motor
  import opened Scheduler
  import opened Wrappers

  const CAPACITY: nat := 10
  const WEB_TASK_POOL_SIZE: nat := 2

  type WebTask = id: nat | id < WEB_TASK_POOL_SIZE

  datatype Source = Timer | Web(id: WebTask)

  datatype Message = Message(source: Source, command: StepCommand)

  /** What the motor is doing: waiting for a command, or part way through a movement. */
  datatype Phase = Waiting | Stepping(up: bool, left: nat)

  /**
   The tasks and the queue between them, with what happened so far: the clock readings of the
   schedule, the messages each task asked to send, those that entered the queue, and those that
   the motor took out.
   */
  datatype System = System(
    schedule: Schedule,
    pending: map<Source, StepCommand>,
    queue: seq<Message>,
    blind: Blind,
    phase: Phase,
    readings: seq<Option<DateTime>>,
    requested: seq<Message>,
    sent: seq<Message>,
    consumed: seq<Message>)
  {
    /** A task hands a command to the queue, and waits until it is in. */
    function Asked(source: Source, c: StepCommand): System {
      this.(pending := pending[source := c], requested := requested + [Message(source, c)])
    }
  }

  const INIT: System := System(IDLE, map[], [], START, Waiting, [], [], [], [])

  datatype Event =
    | Poll(reading: Option<DateTime>)
    | Request(id: WebTask, command: StepCommand)
    | Enqueue(source: Source)
    | Receive
    | Toggle
    | Stop

  predicate Enabled(s: System, e: Event) {
    match e
    case Poll(_) => Timer !in s.pending
    case Request(id, _) => Web(id) !in s.pending
    case Enqueue(source) => source in s.pending && |s.queue| < CAPACITY
    case Receive => s.phase == Waiting && s.queue != []
    case Toggle => s.phase.Stepping? && s.phase.left > 0
    case Stop => s.phase.Stepping? && s.phase.left == 0
  }

  /** The motor as it takes up a command: the flag changes now, the steps come later. */
  function Received(s: System): System
    requires s.queue != []
  {
    var c := s.queue[0].command;
    var after := s.(queue := s.queue[1..], consumed := s.consumed + [s.queue[0]]);
    if Skips(s.blind.raised, c) then after
    else after.(blind := s.blind.(raised := RaisedBy(s.blind.raised, c)),
                phase := Stepping(Upward(c), Toggles(c, MICROSTEPS)))
  }

  function Next(s: System, e: Event, sun: Sun): System
    requires Enabled(s, e)
  {
    match e
    case Poll(reading) =>
      var after := s.(schedule := Polled(s.schedule, reading, sun), readings := s.readings + [reading]);
      var order := Sent(s.schedule, reading, sun);
      if order.Some? then after.Asked(Timer, order.value) else after
    case Request(id, c) => s.Asked(Web(id), c)
    case Enqueue(source) =>
      var m := Message(source, s.pending[source]);
      s.(pending := s.pending - {source}, queue := s.queue + [m], sent := s.sent + [m])
    case Receive => Received(s)
    case Toggle => s.(blind := Toggled(s.blind, s.phase.up, 1), phase := s.phase.(left := s.phase.left - 1))
    case Stop => s.(phase := Waiting)
  }

  // ---- What every interleaving keeps ----

  function Commands(ms: seq<Message>): (cs: seq<StepCommand>)
    ensures |cs| == |ms|
  {
    seq(|ms|, i requires 0 <= i < |ms| => ms[i].command)
  }

  /** The commands of one task, in order. */
  function From(source: Source, ms: seq<Message>): seq<StepCommand>
    decreases |ms|
  {
    if ms == [] then []
    else From(source, ms[..|ms| - 1]) + if ms[|ms| - 1].source == source then [ms[|ms| - 1].command] else []
  }

  function Waits(s: System, source: Source): seq<StepCommand> {
    if source in s.pending then [s.pending[source]] else []
  }

  /** The messages of the schedule's orders. */
  function AsMessages(os: seq<Order>): (ms: seq<Message>)
    ensures |ms| == |os|
  {
    seq(|os|, i requires 0 <= i < |os| => Message(Timer, os[i].command))
  }

  /** No message is lost, doubled or overtaken by another. */
  ghost predicate Conserved(s: System) {
    && |s.queue| <= CAPACITY
    && s.sent == s.consumed + s.queue
    && forall source :: From(source, s.requested) == From(source, s.sent) + Waits(s, source)
  }

  /** The schedule has asked for exactly its orders. */
  predicate Scheduled(s: System, sun: Sun) {
    && s.schedule == Run(s.readings, sun)
    && From(Timer, s.requested) == Commands(AsMessages(Orders(s.readings, sun)))
  }

  function Initial<T>(xs: seq<T>): seq<T>
    requires xs != []
  {
    xs[..|xs| - 1]
  }

  function Last<T>(xs: seq<T>): T
    requires xs != []
  {
    xs[|xs| - 1]
  }

  /**
   A waiting motor has carried out every command it consumed.  A stepping one has carried out
   all but the last, and made the toggles of that which are not left.
   */
  predicate Accounted(s: System) {
    var cs := Commands(s.consumed);
    match s.phase
    case Waiting => s.blind == ApplyAll(START, cs)
    case Stepping(up, left) =>
      && cs != []
      && (var (before, c) := (ApplyAll(START, Initial(cs)), Last(cs));
          && !Skips(before.raised, c) && up == Upward(c) && left <= Toggles(c, MICROSTEPS)
          && s.blind == Toggled(before, up, Toggles(c, MICROSTEPS) - left).(raised := RaisedBy(before.raised, c)))
  }

  ghost predicate Inv(s: System, sun: Sun) {
    Conserved(s) && Scheduled(s, sun) && Accounted(s)
  }

  lemma FromAppended(source: Source, ms: seq<Message>, m: Message)
    ensures From(source, ms + [m]) == From(source, ms) + if m.source == source then [m.command] else []
  {
    assert (ms + [m])[..|ms|] == ms;
  }

  lemma AskedKeepsConserved(s: System, source: Source, c: StepCommand)
    requires Conserved(s) && source !in s.pending
    ensures Conserved(s.Asked(source, c))
  {
    hide From;
    forall other {
      FromAppended(other, s.requested, Message(source, c));
    }
  }

  lemma EnqueueKeepsConserved(s: System, source: Source, sun: Sun)
    requires Conserved(s) && Enabled(s, Enqueue(source))
    ensures Conserved(Next(s, Enqueue(source), sun))
  {
    hide From;
    var m := Message(source, s.pending[source]);
    forall other {
      FromAppended(other, s.sent, m);
    }
    assert s.sent + [m] == s.consumed + (s.queue + [m]);
  }

  lemma PollKeepsScheduled(s: System, reading: Option<DateTime>, sun: Sun)
    requires Scheduled(s, sun) && Enabled(s, Poll(reading))
    ensures Scheduled(Next(s, Poll(reading), sun), sun)
  {
    var rs := s.readings + [reading];
    assert rs[..|s.readings|] == s.readings;
    var order := Sent(s.schedule, reading, sun);
    if order.Some? {
      FromAppended(Timer, s.requested, Message(Timer, order.value));
    }
    assert Orders(s.readings, sun) + [] == Orders(s.readings, sun);
  }

  lemma RequestKeepsScheduled(s: System, id: WebTask, c: StepCommand, sun: Sun)
    requires Scheduled(s, sun)
    ensures Scheduled(s.Asked(Web(id), c), sun)
  {
    FromAppended(Timer, s.requested, Message(Web(id), c));
  }

  lemma ReceiveKeepsAccounted(s: System)
    requires Accounted(s) && s.phase == Waiting && s.queue != []
    ensures Accounted(Received(s))
  {
    var (cs, c) := (Commands(s.consumed), s.queue[0].command);
    assert Commands(s.consumed + [s.queue[0]]) == cs + [c];
    assert Initial(cs + [c]) == cs;
  }

  lemma ToggleKeepsAccounted(s: System, sun: Sun)
    requires Accounted(s) && Enabled(s, Toggle)
    ensures Accounted(Next(s, Toggle, sun))
  {
    hide ApplyAll, Commands, Skips, RaisedBy, Toggles, Toggled;
    var cs := Commands(s.consumed);
    var (before, done) := (ApplyAll(START, Initial(cs)), Toggles(Last(cs), MICROSTEPS) - s.phase.left);
    ToggledOn(before, s.phase.up, done, s.blind.raised);
  }

  /** Some toggles and then one more; the flag plays no part. */
  lemma ToggledOn(b: Blind, up: bool, done: nat, raised: bool)
    ensures Toggled(Toggled(b, up, done).(raised := raised), up, 1) == Toggled(b, up, done + 1).(raised := raised)
  {
  }

  lemma StopKeepsAccounted(s: System, sun: Sun)
    requires Accounted(s) && Enabled(s, Stop)
    ensures Accounted(Next(s, Stop, sun))
  {
  }

  lemma StepKeepsInv(s: System, e: Event, sun: Sun)
    requires Inv(s, sun) && Enabled(s, e)
    ensures Inv(Next(s, e, sun), sun)
  {
    hide Polled, Sent, Toggled, Skips, RaisedBy, Toggles, From, Commands, AsMessages, ApplyAll, Run, Orders;
    match e
    case Poll(reading) =>
      PollKeepsScheduled(s, reading, sun);
      var order := Sent(s.schedule, reading, sun);
      if order.Some? {
        AskedKeepsConserved(s, Timer, order.value);
      }
    case Request(id, c) =>
      AskedKeepsConserved(s, Web(id), c);
      RequestKeepsScheduled(s, id, c, sun);
    case Enqueue(source) =>
      EnqueueKeepsConserved(s, source, sun);
    case Receive =>
      ReceiveKeepsAccounted(s);
      assert s.consumed + s.queue == (s.consumed + [s.queue[0]]) + s.queue[1..];
    case Toggle =>
      ToggleKeepsAccounted(s, sun);
    case Stop =>
      StopKeepsAccounted(s, sun);
  }

  // ---- Whole runs ----

  /** The system after a run, if each event was possible when it came. */
  function After(es: seq<Event>, sun: Sun): Option<System>
    decreases |es|
  {
    if es == [] then Some(INIT)
    else
      var before := After(Initial(es), sun);
      if before.Some? && Enabled(before.value, Last(es)) then Some(Next(before.value, Last(es), sun)) else None
  }

  lemma {:induction false} RunsKeepInv(es: seq<Event>, sun: Sun)
    requires After(es, sun).Some?
    ensures Inv(After(es, sun).value, sun)
    decreases |es|
  {
    hide Next, Conserved, Scheduled, Accounted;
    if es == [] {
      InitInv(sun);
    } else {
      RunsKeepInv(Initial(es), sun);
      StepKeepsInv(After(Initial(es), sun).value, Last(es), sun);
    }
  }

  lemma InitInv(sun: Sun)
    ensures Inv(INIT, sun)
  {
    assert Commands([]) == [] && AsMessages([]) == [];
  }

  /**
   Between commands, the blind is where the consumed commands put it: raised or lowered as the
   last raise or lower said, plus the net jogs; the step line is at its level.
   */
  lemma PositionBetweenCommands(es: seq<Event>, sun: Sun)
    requires After(es, sun).Some? && After(es, sun).value.phase == Waiting
    ensures
      var (s, cs) := (After(es, sun).value, Commands(After(es, sun).value.consumed));
      && s.blind.raised == LastRaised(cs)
      && s.blind.stepHigh
      && s.blind.position == Rest(s.blind.raised) + Jogs(cs)
  {
    hide Conserved, Scheduled, Commands, After, ApplyAll;
    RunsKeepInv(es, sun);
    PositionAccounted(Commands(After(es, sun).value.consumed));
  }

  /**
   At every moment, the flag is that of the consumed commands, and the blind is between where
   the commands before the last one put it and where the last one puts it.
   */
  lemma PositionAtAnyMoment(es: seq<Event>, sun: Sun)
    requires After(es, sun).Some? && After(es, sun).value.consumed != []
    ensures
      var (s, cs) := (After(es, sun).value, Commands(After(es, sun).value.consumed));
      var (from, to) := (ApplyAll(START, Initial(cs)).position, ApplyAll(START, cs).position);
      && s.blind.raised == LastRaised(cs)
      && (from <= s.blind.position <= to || to <= s.blind.position <= from)
  {
    hide Conserved, Scheduled, Commands, After, Toggles;
    RunsKeepInv(es, sun);
    var s := After(es, sun).value;
    var cs := Commands(s.consumed);
    PositionAccounted(cs);
    PositionAccounted(Initial(cs));
  }

  lemma {:induction false} NoJogs(cs: seq<StepCommand>)
    requires forall c :: c in cs ==> c in {Raise, Lower}
    ensures Jogs(cs) == 0
    decreases |cs|
  {
    if cs != [] {
      assert forall c :: c in Initial(cs) ==> c in cs;
      assert Last(cs) in cs;
      NoJogs(Initial(cs));
    }
  }

  /** As long as nobody jogs it, the blind never leaves its frame, whatever repeats and races. */
  lemma StaysInFrame(es: seq<Event>, sun: Sun)
    requires After(es, sun).Some?
    requires forall m :: m in After(es, sun).value.consumed ==> m.command in {Raise, Lower}
    ensures -4450 <= After(es, sun).value.blind.position <= 0
  {
    hide Conserved, Scheduled, After;
    var s := After(es, sun).value;
    var cs := Commands(s.consumed);
    RunsKeepInv(es, sun);
    if s.consumed == [] {
      assert cs == [];
    } else {
      assert forall c :: c in Initial(cs) ==> c in cs;
      NoJogs(cs);
      NoJogs(Initial(cs));
      PositionAccounted(cs);
      PositionAccounted(Initial(cs));
      PositionAtAnyMoment(es, sun);
    }
  }

  lemma {:induction false} FromSplits(source: Source, a: seq<Message>, b: seq<Message>)
    ensures From(source, a + b) == From(source, a) + From(source, b)
    decreases |b|
  {
    if b == [] {
      assert a + b == a;
    } else {
      FromSplits(source, a, Initial(b));
      assert a + b == (a + Initial(b)) + [Last(b)];
      FromAppended(source, a + Initial(b), Last(b));
    }
  }

  /**
   Every message asked for is consumed, queued or still waiting to be queued: nothing is lost,
   nothing comes twice, and each task's commands reach the motor in the order it sent them.
   */
  lemma NothingLost(es: seq<Event>, sun: Sun, source: Source)
    requires After(es, sun).Some?
    ensures
      var s := After(es, sun).value;
      && |s.queue| <= 10 && s.sent == s.consumed + s.queue
      && From(source, s.requested) == From(source, s.consumed) + From(source, s.queue) + Waits(s, source)
  {
    hide Scheduled, Accounted, After, From;
    RunsKeepInv(es, sun);
    FromSplits(source, After(es, sun).value.consumed, After(es, sun).value.queue);
  }

  lemma {:induction false} LengthBySource(ms: seq<Message>)
    ensures |ms| == |From(Timer, ms)| + |From(Web(0), ms)| + |From(Web(1), ms)|
    decreases |ms|
  {
    if ms != [] {
      LengthBySource(Initial(ms));
    }
  }

  /** The senders are never further ahead of the motor than the queue and one command each. */
  lemma SendersWait(es: seq<Event>, sun: Sun)
    requires After(es, sun).Some?
    ensures |After(es, sun).value.requested| <= |After(es, sun).value.consumed| + 13
  {
    hide Scheduled, Accounted, After, From;
    RunsKeepInv(es, sun);
    LengthBySource(After(es, sun).value.requested);
    LengthBySource(After(es, sun).value.sent);
  }

  lemma Then(es: seq<Event>, s: System, e: Event, sun: Sun) returns (more: seq<Event>, t: System)
    requires After(es, sun) == Some(s) && Enabled(s, e)
    ensures After(more, sun) == Some(t) && t == Next(s, e, sun)
  {
    more, t := es + [e], Next(s, e, sun);
    assert Initial(more) == es;
  }

  /** A run that queues `k` commands while the motor has not taken up any. */
  lemma {:induction false} Queued(k: nat, sun: Sun) returns (es: seq<Event>, s: System)
    requires k <= 10
    ensures After(es, sun) == Some(s) && s.schedule == IDLE && s.pending == map[] && s.consumed == []
    ensures |s.queue| == |s.requested| == k
    decreases k
  {
    hide After;
    if k == 0 {
      es, s := [], INIT;
      FirstBoot(sun);
    } else {
      es, s := Queued(k - 1, sun);
      es, s := Then(es, s, Request(0, Raise), sun);
      es, s := Then(es, s, Enqueue(Web(0)), sun);
      assert s.pending == map[];
    }
  }

  lemma FirstBoot(sun: Sun)
    ensures After([], sun) == Some(INIT)
  {
  }

  /** The bound is reached: ten commands queued, and all three senders waiting. */
  lemma SendersCanWait(now: DateTime, sun: Sun) returns (es: seq<Event>)
    requires sun(now.date).Some?
    ensures After(es, sun).Some? && After(es, sun).value.consumed == [] && |After(es, sun).value.requested| == 13
    ensures forall source :: !Enabled(After(es, sun).value, Enqueue(source))
  {
    hide After;
    var s;
    es, s := Queued(10, sun);
    es, s := Then(es, s, Request(0, Raise), sun);
    es, s := Then(es, s, Request(1, Lower), sun);
    es, s := Then(es, s, Poll(Some(now)), sun);
  }

  /**
   What the schedule tells the motor, through any interleaving: the commands of the schedule's
   own orders, as far as they have come, which on a steady clock alternate and number at most
   two a day and one more.
   */
  lemma ScheduleReachesMotor(es: seq<Event>, sun: Sun)
    requires After(es, sun).Some?
    ensures From(Timer, After(es, sun).value.consumed) <=
        Commands(AsMessages(Orders(After(es, sun).value.readings, sun)))
    ensures
      var (heard, readings) := (From(Timer, After(es, sun).value.consumed), After(es, sun).value.readings);
      && (forall i :: 0 < i < |heard| ==> heard[i] != heard[i - 1])
      && (Steady(readings) ==> |heard| <= 2 * |Dates(readings)| + 1)
  {
    hide Conserved, Accounted, After, From, Orders, Steady;
    RunsKeepInv(es, sun);
    NothingLost(es, sun, Timer);
    var s := After(es, sun).value;
    var (heard, cs) := (From(Timer, s.consumed), Commands(AsMessages(Orders(s.readings, sun))));
    assert cs == heard + (From(Timer, s.queue) + Waits(s, Timer));
    RunFollowsSun(s.readings, sun);
    forall i | 0 < i < |heard| ensures heard[i] != heard[i - 1] {
      assert heard[i] == cs[i] && heard[i - 1] == cs[i - 1];
    }
    if Steady(s.readings) {
      DailyOrders(s.readings, sun);
    }
  }

  // ---- Every command is carried out ----

  /** The events that need nothing from outside. */
  predicate Internal(e: Event) {
    e.Enqueue? || e.Receive? || e.Toggle? || e.Stop?
  }

  predicate Quiet(s: System) {
    s.pending == map[] && s.queue == [] && s.phase == Waiting
  }

  /** The events a message needs at most from being asked for, and from being queued, until it is carried out. */
  const QUEUED: nat := USIZE_RANGE + 1
  const ASKED: nat := QUEUED + 1

  /** A bound on the internal events still to come. */
  function Work(s: System): nat {
    |s.pending| * ASKED + |s.queue| * QUEUED + match s.phase case Waiting => 0 case Stepping(_, left) => left + 1
  }

  /** Every internal event brings the end of all work nearer. */
  lemma WorkFalls(s: System, e: Event, sun: Sun)
    requires Internal(e) && Enabled(s, e)
    ensures Work(Next(s, e, sun)) < Work(s)
  {
    hide Skips, RaisedBy, Toggled;
    if e.Enqueue? {
      var rest := s.pending - {e.source};
      assert rest.Keys == s.pending.Keys - {e.source};
      assert |rest| == |s.pending| - 1;
    }
  }

  /** Unless all is quiet, some internal event is possible: the tasks never wait for each other in a circle. */
  lemma NeverStuck(s: System) returns (e: Event)
    requires !Quiet(s)
    ensures Internal(e) && Enabled(s, e)
  {
    if s.phase.Stepping? {
      e := if s.phase.left > 0 then Toggle else Stop;
    } else if s.queue != [] {
      e := Receive;
    } else {
      assert s.pending.Keys != {};
      var source :| source in s.pending;
      e := Enqueue(source);
    }
  }

  /** Events that can follow one another from `s`, and the system after them. */
  function Continue(s: System, es: seq<Event>, sun: Sun): Option<System>
    decreases |es|
  {
    if es == [] then Some(s)
    else
      var before := Continue(s, Initial(es), sun);
      if before.Some? && Enabled(before.value, Last(es)) then Some(Next(before.value, Last(es), sun)) else None
  }

  lemma {:induction false} ContinueKeeps(s: System, es: seq<Event>, sun: Sun)
    requires Inv(s, sun) && Continue(s, es, sun).Some? && forall e :: e in es ==> Internal(e)
    ensures
      var t := Continue(s, es, sun).value;
      Inv(t, sun) && t.requested == s.requested && Work(t) + |es| <= Work(s)
    decreases |es|
  {
    hide Conserved, Scheduled, Accounted, Work;
    if es != [] {
      assert Last(es) in es && forall e :: e in Initial(es) ==> e in es;
      ContinueKeeps(s, Initial(es), sun);
      StepKeepsInv(Continue(s, Initial(es), sun).value, Last(es), sun);
      WorkFalls(Continue(s, Initial(es), sun).value, Last(es), sun);
    }
  }

  /**
   When no new commands are given, any order of events comes to an end, and can only end when
   every command that was asked for has been carried out.
   */
  lemma AllCarriedOut(es: seq<Event>, more: seq<Event>, sun: Sun)
    requires After(es, sun).Some? && forall e :: e in more ==> Internal(e)
    requires Continue(After(es, sun).value, more, sun).Some?
    ensures |more| <= Work(After(es, sun).value)
    ensures
      var (s, t) := (After(es, sun).value, Continue(After(es, sun).value, more, sun).value);
      (forall e :: Internal(e) ==> !Enabled(t, e)) ==>
        && t.phase == Waiting
        && (forall source :: From(source, t.consumed) == From(source, s.requested))
        && t.blind == ApplyAll(START, Commands(t.consumed))
  {
    hide Scheduled, After, Continue, Work, Commands, ApplyAll, From;
    var s := After(es, sun).value;
    RunsKeepInv(es, sun);
    ContinueKeeps(s, more, sun);
    var t := Continue(s, more, sun).value;
    if forall e :: Internal(e) ==> !Enabled(t, e) {
      if !Quiet(t) {
        var e := NeverStuck(t);
        assert false;
      }
      assert t.sent == t.consumed;
    }
  }
}
