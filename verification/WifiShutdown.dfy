/**
 Shutting Wi-Fi down: the caller signals the connection task, which stops the radio and signals
 completion, and then waits until it is told to restart.  A signal holds at most one value;
 signalling again overwrites it, and taking it empties it.
 */
module WifiShutdown {
  import opened Wrappers

  /** Where the connection task is. */
  datatype Task =
    | Joining
    | Joined
    | Stopping
    | Stopped
    | Failed

  /** Where the caller is: the Wi-Fi is his to shut down, he awaits completion, or he was told it is down. */
  datatype Caller = Free | Waiting | Down

  datatype System = System(
    task: Task,
    caller: Caller,
    // The three signals.
    shutdown: bool,
    complete: bool,
    restart: bool,
    // What happened so far.
    log: seq<Mark>)
  {
    function Logged(m: Mark): System {
      this.(log := log + [m])
    }
  }

  datatype Mark = MCall | MStop | MReturn | MRestart | MResume

  const INIT: System := System(Joining, Free, false, false, false, [])

  datatype Event =
    | Call
    | Return
    | Restart
    | JoinEnds(ok: bool)
    | TakeShutdown
    | RadioStops
    | TakeRestart
    | Fail

  /** What can happen; only one caller waits at a time. */
  predicate Enabled(s: System, e: Event) {
    match e
    case Call => s.caller != Waiting
    case Return => s.caller == Waiting && s.complete
    case Restart => true
    case JoinEnds(_) => s.task == Joining
    case TakeShutdown => s.task == Joined && s.shutdown
    case RadioStops => s.task == Stopping
    case TakeRestart => s.task == Stopped && s.restart
    case Fail => s.task == Joining || s.task == Stopping
  }

  function Next(s: System, e: Event): System
    requires Enabled(s, e)
  {
    match e
    case Call => s.(caller := Waiting, shutdown := true).Logged(MCall)
    case Return => s.(caller := Down, complete := false).Logged(MReturn)
    case Restart => s.(caller := if s.caller == Down then Free else s.caller, restart := true).Logged(MRestart)
    case JoinEnds(ok) => if ok then s.(task := Joined) else s
    case TakeShutdown => s.(task := Stopping, shutdown := false)
    case RadioStops => s.(task := Stopped, complete := true).Logged(MStop)
    case TakeRestart => s.(task := Joining, restart := false).Logged(MResume)
    case Fail => s.(task := Failed)
  }

  function After(es: seq<Event>): Option<System>
    decreases |es|
  {
    if es == [] then Some(INIT)
    else
      var before := After(es[..|es| - 1]);
      if before.Some? && Enabled(before.value, es[|es| - 1]) then Some(Next(before.value, es[|es| - 1])) else None
  }

  // ---- Whatever is restarted when ----

  /** The calls, stops and returns, without the restarts. */
  function Exchange(log: seq<Mark>): seq<Mark>
    decreases |log|
  {
    if log == [] then []
    else Exchange(log[..|log| - 1]) + if log[|log| - 1] in {MCall, MStop, MReturn} then [log[|log| - 1]] else []
  }

  /** The marks go round and round. */
  predicate Cycles(marks: seq<Mark>, round: seq<Mark>)
    requires round != []
  {
    forall i :: 0 <= i < |marks| ==> marks[i] == round[i % |round|]
  }

  const EXCHANGE: seq<Mark> := [MCall, MStop, MReturn]

  /** The last of the radio's stops and resumptions was a stop. */
  predicate StoppedLast(log: seq<Mark>)
    decreases |log|
  {
    log != [] &&
    match log[|log| - 1]
    case MStop => true
    case MResume => false
    case _ => StoppedLast(log[..|log| - 1])
  }

  /** How far the exchange has come. */
  predicate Progress(s: System, n: nat) {
    if s.caller != Waiting then n % 3 == 0 && !s.shutdown && !s.complete && s.task != Stopping
    else if s.complete then n % 3 == 2 && !s.shutdown && s.task != Stopping
    else n % 3 == 1 && (if s.task == Stopping then !s.shutdown else s.shutdown || s.task == Failed)
  }

  predicate Inv(s: System) {
    && Cycles(Exchange(s.log), EXCHANGE)
    && Progress(s, |Exchange(s.log)|)
    && (s.task == Stopped ==> StoppedLast(s.log))
    && (s.complete && s.task != Stopped ==> !StoppedLast(s.log))
  }

  lemma LogGrows(log: seq<Mark>, m: Mark)
    ensures Exchange(log + [m]) == Exchange(log) + if m in {MCall, MStop, MReturn} then [m] else []
    ensures StoppedLast(log + [m]) == if m == MStop then true else if m == MResume then false else StoppedLast(log)
  {
    assert (log + [m])[..|log|] == log;
  }

  lemma StepKeepsInv(s: System, e: Event)
    requires Inv(s) && Enabled(s, e)
    ensures Inv(Next(s, e))
  {
    hide Exchange, StoppedLast;
    LogGrows(s.log, MCall);
    LogGrows(s.log, MStop);
    LogGrows(s.log, MReturn);
    LogGrows(s.log, MRestart);
    LogGrows(s.log, MResume);
  }

  lemma {:induction false} RunsKeepInv(es: seq<Event>)
    requires After(es).Some?
    ensures Inv(After(es).value)
    decreases |es|
  {
    hide Next, Inv;
    if es == [] {
      InitInv();
    } else {
      RunsKeepInv(es[..|es| - 1]);
      StepKeepsInv(After(es[..|es| - 1]).value, es[|es| - 1]);
    }
  }

  lemma InitInv()
    ensures Inv(INIT)
  {
  }

  /**
   In every interleaving, restarts signalled at any time included: calls, stops and returns take
   turns, so a call returns only after a stop of its own, and each completion is taken once.
   When a call returns, the radio is still stopped exactly if it was not resumed meanwhile.
   */
  lemma ReturnsAfterStop(es: seq<Event>)
    requires After(es).Some?
    ensures Cycles(Exchange(After(es).value.log), EXCHANGE)
    ensures
      var s := After(es).value;
      Enabled(s, Return) ==> (s.task == Stopped <==> StoppedLast(s.log))
  {
    hide Next, Cycles, After;
    RunsKeepInv(es);
  }

  // ---- What a call finds when it returns ----

  /** Events that neither restart nor return. */
  predicate Meanwhile(more: seq<Event>) {
    Restart !in more && Return !in more
  }

  /** With no more restarts, the waiting call may yet return to a radio that is not stopped. */
  ghost predicate MayFindResumed(es: seq<Event>) {
    exists more ::
      && Meanwhile(more)
      && After(es + more).Some?
      && Enabled(After(es + more).value, Return)
      && After(es + more).value.task != Stopped
  }

  /** The restart signal, or what it has already done, is still ahead of the return. */
  predicate ResumePending(s: System) {
    if s.complete then s.task != Stopped || s.restart else s.restart && s.task != Stopped && s.task != Failed
  }

  /** While nothing is pending, nothing resumes a radio that has stopped for the call. */
  lemma NothingPending(s: System, e: Event)
    requires s.caller == Waiting && Enabled(s, e) && e != Restart && e != Return
    requires !ResumePending(s)
    ensures Next(s, e).caller == Waiting && !ResumePending(Next(s, e))
  {
  }

  lemma {:induction false} NothingPendingOver(es: seq<Event>, more: seq<Event>)
    requires After(es).Some? && After(es).value.caller == Waiting && !ResumePending(After(es).value)
    requires After(es + more).Some? && Meanwhile(more)
    ensures After(es + more).value.caller == Waiting && !ResumePending(After(es + more).value)
    decreases |more|
  {
    hide Next, Enabled, ResumePending;
    if more == [] {
      assert es + more == es;
    } else {
      var n := |more| - 1;
      assert (es + more)[..|es + more| - 1] == es + more[..n] && more[n] in more;
      NothingPendingOver(es, more[..n]);
      NothingPending(After(es + more[..n]).value, more[n]);
    }
  }

  /** The events until a waiting call can return to a resumed radio. */
  function Ahead(s: System): nat {
    if s.complete && s.task != Stopped then 0
    else
      match s.task
      case Stopped => 1
      case Stopping => 2
      case Joined => 3
      case Joining => 4
      case Failed => 5
  }

  lemma PendingStep(s: System) returns (e: Event)
    requires Inv(s) && s.caller == Waiting && ResumePending(s) && Ahead(s) > 0
    ensures Enabled(s, e) && e != Restart && e != Return
    ensures Next(s, e).caller == Waiting && ResumePending(Next(s, e)) && Ahead(Next(s, e)) < Ahead(s)
  {
    hide Exchange, StoppedLast, Cycles;
    e := if s.task == Joining then JoinEnds(true)
         else if s.task == Joined then TakeShutdown
         else if s.task == Stopping then RadioStops
         else TakeRestart;
  }

  /** What is pending can come about. */
  lemma {:induction false} PendingHappens(es: seq<Event>) returns (more: seq<Event>)
    requires After(es).Some? && After(es).value.caller == Waiting && ResumePending(After(es).value)
    ensures Meanwhile(more) && After(es + more).Some?
    ensures Enabled(After(es + more).value, Return) && After(es + more).value.task != Stopped
    decreases Ahead(After(es).value)
  {
    hide After, Inv, Next, ResumePending;
    var s := After(es).value;
    if Ahead(s) == 0 {
      more := [];
      assert es + more == es;
    } else {
      RunsKeepInv(es);
      var e := PendingStep(s);
      var longer, t := Then(es, s, e);
      var rest := PendingHappens(longer);
      more := [e] + rest;
      assert es + more == longer + rest;
    }
  }

  /**
   In every reachable state in which a call waits: with no further restart it can return to a
   radio that is not stopped, exactly if a restart is pending.
   */
  lemma ReturnFindsResumed(es: seq<Event>)
    requires After(es).Some? && After(es).value.caller == Waiting
    ensures MayFindResumed(es) <==> ResumePending(After(es).value)
  {
    hide After, Next, Enabled, ResumePending;
    if ResumePending(After(es).value) {
      var more := PendingHappens(es);
    } else if MayFindResumed(es) {
      var more :| Meanwhile(more) && After(es + more).Some? && Enabled(After(es + more).value, Return)
                  && After(es + more).value.task != Stopped;
      NothingPendingOver(es, more);
      PendingAtReturn(After(es + more).value);
    }
  }

  lemma PendingAtReturn(s: System)
    ensures Enabled(s, Return) && s.task != Stopped ==> ResumePending(s)
  {
  }

  /**
   What a caller can read before the call: if nobody restarts in the meantime, it is sure to
   return to a stopped radio, or not to return, exactly if no restart is signalled, or the radio
   is stopped already, or the task has failed.
   */
  lemma CallFindsResumed(es: seq<Event>)
    requires After(es).Some? && After(es).value.caller != Waiting
    ensures After(es + [Call]).Some?
    ensures
      var s := After(es).value;
      MayFindResumed(es + [Call]) <==> s.restart && s.task != Stopped && s.task != Failed
  {
    RunsKeepInv(es);
    hide MayFindResumed, Exchange, StoppedLast, Cycles;
    var called, t := Then(es, After(es).value, Call);
    ReturnFindsResumed(called);
  }

  /**
   A waiting call whose task lives can get on without a restart or luck, exactly if it is
   complete, or the task is not waiting to be restarted, or a restart is signalled.
   */
  lemma CallGetsOn(es: seq<Event>)
    requires After(es).Some? && After(es).value.caller == Waiting && After(es).value.task != Failed
    ensures
      var s := After(es).value;
      (exists e :: Enabled(s, e) && e != Restart && e != Fail && e != JoinEnds(false)) <==>
      s.complete || s.task != Stopped || s.restart
  {
    RunsKeepInv(es);
    hide After, Exchange, StoppedLast, Cycles;
    var s := After(es).value;
    assert s.complete ==> Enabled(s, Return);
    assert s.task == Joining ==> Enabled(s, JoinEnds(true));
    assert s.task == Joined && !s.complete ==> Enabled(s, TakeShutdown);
    assert s.task == Stopping ==> Enabled(s, RadioStops);
    assert s.task == Stopped && s.restart ==> Enabled(s, TakeRestart);
  }

  lemma Then(es: seq<Event>, s: System, e: Event) returns (more: seq<Event>, t: System)
    requires After(es) == Some(s) && Enabled(s, e)
    ensures After(more) == Some(t) && t == Next(s, e) && more == es + [e]
  {
    more, t := es + [e], Next(s, e);
    assert more[..|es|] == es;
  }

  // ---- A caller who restarts only what was shut down ----

  /** The caller shuts down when free, and restarts when down. */
  predicate Orderly(s: System, e: Event) {
    Enabled(s, e) && (e == Call ==> s.caller == Free) && (e == Restart ==> s.caller == Down)
  }

  /** The system after a run in which every event was orderly. */
  function OrderlyAfter(es: seq<Event>): Option<System>
    decreases |es|
  {
    if es == [] then Some(INIT)
    else
      var before := OrderlyAfter(es[..|es| - 1]);
      if before.Some? && Orderly(before.value, es[|es| - 1]) then Some(Next(before.value, es[|es| - 1])) else None
  }

  /** The log without the radio's resumptions. */
  function Rounds(log: seq<Mark>): seq<Mark>
    decreases |log|
  {
    if log == [] then []
    else Rounds(log[..|log| - 1]) + if log[|log| - 1] == MResume then [] else [log[|log| - 1]]
  }

  const ROUND: seq<Mark> := [MCall, MStop, MReturn, MRestart]

  /** How far the round has come; the radio waits for a restart exactly while one is signalled or none may be. */
  predicate RoundProgress(s: System, n: nat) {
    match s.caller
    case Free =>
      n % 4 == 0 && !s.shutdown && !s.complete && s.task != Stopping && (s.restart <==> s.task == Stopped)
    case Down =>
      n % 4 == 3 && !s.shutdown && !s.complete && s.task == Stopped && !s.restart
    case Waiting =>
      if s.complete then n % 4 == 2 && !s.shutdown && s.task == Stopped && !s.restart
      else
        && n % 4 == 1
        && (s.restart <==> s.task == Stopped)
        && (if s.task == Stopping then !s.shutdown else s.shutdown || s.task == Failed)
  }

  predicate OrderlyInv(s: System) {
    Cycles(Rounds(s.log), ROUND) && RoundProgress(s, |Rounds(s.log)|)
  }

  lemma RoundsGrow(log: seq<Mark>, m: Mark)
    ensures Rounds(log + [m]) == Rounds(log) + if m == MResume then [] else [m]
  {
    assert (log + [m])[..|log|] == log;
  }

  lemma StepKeepsOrderlyInv(s: System, e: Event)
    requires OrderlyInv(s) && Orderly(s, e)
    ensures OrderlyInv(Next(s, e))
  {
    hide Rounds;
    RoundsGrow(s.log, MCall);
    RoundsGrow(s.log, MStop);
    RoundsGrow(s.log, MReturn);
    RoundsGrow(s.log, MRestart);
    RoundsGrow(s.log, MResume);
  }

  lemma {:induction false} OrderlyRunsKeepInv(es: seq<Event>)
    requires OrderlyAfter(es).Some?
    ensures OrderlyInv(OrderlyAfter(es).value)
    decreases |es|
  {
    hide Next, OrderlyInv, Orderly;
    if es == [] {
      InitOrderlyInv();
    } else {
      OrderlyRunsKeepInv(es[..|es| - 1]);
      StepKeepsOrderlyInv(OrderlyAfter(es[..|es| - 1]).value, es[|es| - 1]);
    }
  }

  lemma InitOrderlyInv()
    ensures OrderlyInv(INIT)
  {
  }

  /**
   With an orderly caller, in every interleaving: call, stop, return and restart take turns.  A
   call returns only to a stopped radio, and from then on the radio stays stopped until the
   caller signals the restart.
   */
  lemma StaysStopped(es: seq<Event>)
    requires OrderlyAfter(es).Some?
    ensures Cycles(Rounds(OrderlyAfter(es).value.log), ROUND)
    ensures
      var s := OrderlyAfter(es).value;
      && (Enabled(s, Return) ==> s.task == Stopped && !s.restart)
      && (s.caller == Down ==> s.task == Stopped && forall e :: Enabled(s, e) ==> e in {Call, Restart})
  {
    hide Next, Cycles, OrderlyAfter, Rounds;
    OrderlyRunsKeepInv(es);
  }

  /** The events still to come until a waiting call returns. */
  function Distance(s: System): nat {
    if s.complete then 1
    else
      match s.task
      case Stopping => 2
      case Joined => 3
      case Joining => 4
      case Stopped => 5
      case Failed => 0
  }

  /** While an orderly caller waits, some event brings the return nearer, unless the connection task has failed. */
  lemma NeverStuck(s: System) returns (e: Event)
    requires OrderlyInv(s) && s.caller == Waiting && s.task != Failed
    ensures Orderly(s, e) && e != Fail && e != JoinEnds(false)
  {
    e := if s.complete then Return
         else if s.task == Joining then JoinEnds(true)
         else if s.task == Joined then TakeShutdown
         else if s.task == Stopping then RadioStops
         else TakeRestart;
  }

  /** Every event but a failed join or the end of the task brings it nearer by one, or is the return. */
  lemma DistanceFalls(s: System, e: Event)
    requires OrderlyInv(s) && s.caller == Waiting && s.task != Failed && Orderly(s, e) && e != Fail
    ensures
      var t := Next(s, e);
      if e == Return then Distance(s) == 1 && t.caller == Down
      else
        && t.caller == Waiting && t.task != Failed
        && Distance(t) == if e == JoinEnds(false) then Distance(s) else Distance(s) - 1
  {
    hide Rounds, Cycles;
  }

  function FailedJoins(es: seq<Event>): nat
    decreases |es|
  {
    if es == [] then 0 else FailedJoins(es[..|es| - 1]) + if es[|es| - 1] == JoinEnds(false) then 1 else 0
  }

  /**
   A call of an orderly caller returns after a bounded number of events: as long as it has not,
   there were at most four besides failed joins since it was waiting, and while the task lives
   another can follow.
   */
  lemma {:induction false} CallReturns(es: seq<Event>, more: seq<Event>)
    requires OrderlyAfter(es).Some? && OrderlyAfter(es).value.caller == Waiting && OrderlyAfter(es).value.task != Failed
    requires OrderlyAfter(es + more).Some? && Return !in more && Fail !in more
    ensures
      var (s, t) := (OrderlyAfter(es).value, OrderlyAfter(es + more).value);
      && t.caller == Waiting && t.task != Failed
      && |more| - FailedJoins(more) == Distance(s) - Distance(t) <= 4
      && exists e :: Orderly(t, e) && e != Fail && e != JoinEnds(false)
    decreases |more|
  {
    hide Orderly, OrderlyInv, Next, Distance;
    if more == [] {
      assert es + more == es;
    } else {
      var n := |more| - 1;
      assert (es + more)[..|es + more| - 1] == es + more[..n];
      CallReturns(es, more[..n]);
      OrderlyRunsKeepInv(es + more[..n]);
      assert more[n] in more;
      DistanceFalls(OrderlyAfter(es + more[..n]).value, more[n]);
    }
    OrderlyRunsKeepInv(es + more);
    DistanceBounded(OrderlyAfter(es).value, OrderlyAfter(es + more).value);
    var e := NeverStuck(OrderlyAfter(es + more).value);
  }

  lemma DistanceBounded(s: System, t: System)
    requires t.task != Failed
    ensures Distance(s) - Distance(t) <= 4
  {
  }

  lemma FirstBoot()
    ensures After([]) == Some(INIT)
  {
  }

  /** A restart signalled too early resumes the radio under a caller who is then told that it stopped. */
  lemma EarlyRestart() returns (es: seq<Event>)
    ensures After(es).Some? && Enabled(After(es).value, Return) && After(es).value.task == Joining
  {
    FirstBoot();
    hide After;
    var s;
    es, s := Then([], INIT, JoinEnds(true));
    es, s := Then(es, s, Restart);
    es, s := Then(es, s, Call);
    es, s := Then(es, s, TakeShutdown);
    es, s := Then(es, s, RadioStops);
    es, s := Then(es, s, TakeRestart);
  }

  /** Shutting down what is down already waits until somebody restarts it. */
  lemma SecondCallWaits() returns (es: seq<Event>)
    ensures After(es).Some? && After(es).value.caller == Waiting
    ensures forall e :: Enabled(After(es).value, e) <==> e == Restart
  {
    FirstBoot();
    hide After;
    var s;
    es, s := Then([], INIT, JoinEnds(true));
    es, s := Then(es, s, Call);
    es, s := Then(es, s, TakeShutdown);
    es, s := Then(es, s, RadioStops);
    es, s := Then(es, s, Return);
    es, s := Then(es, s, Call);
  }
}
