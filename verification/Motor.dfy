/** The stepper motor: commands, the step-line ramp, and the blind's position. */
module Motor {
  import opened Bytes

  /** Counts are machine words. */
  type usize = u32
  const USIZE_RANGE: int := 0x1_0000_0000

  datatype StepCommand = Forward(n: usize) | Backward(n: usize) | Raise | Lower

  const BLIND_HEIGHT: usize := 4450

  /** Machine subtraction, which must not go below zero. */
  function Minus(a: usize, b: usize): usize
    requires b <= a
  {
    a - b
  }

  // ---- The ramp ----

  const SLOW: nat := 5000
  const FAST: nat := 1500
  const RAMP: usize := 100

  /** The pause after toggle `i` of `n`: slow for the first and last hundred. */
  function Pause(n: usize, i: usize): nat
    requires i < n
  {
    if i < RAMP || i >= Minus(n, RAMP) then SLOW else FAST
  }

  /** The pauses of one movement. */
  function Ramp(n: usize): (r: seq<nat>)
    ensures |r| == n
  {
    seq(n, i requires 0 <= i < n => Pause(n, i))
  }

  function Total(r: seq<nat>): nat {
    if r == [] then 0 else Total(r[..|r| - 1]) + r[|r| - 1]
  }

  /** How many of the pauses are slow. */
  function SlowCount(r: seq<nat>): nat {
    if r == [] then 0 else SlowCount(r[..|r| - 1]) + if r[|r| - 1] == SLOW then 1 else 0
  }

  function Min(a: int, b: int): int {
    if a < b then a else b
  }

  function Max(a: int, b: int): int {
    if a > b then a else b
  }

  /** How many of the first `k` toggles of a movement are slow. */
  function SlowAmong(n: usize, k: nat): nat
    requires k <= n
  {
    if n <= 2 * RAMP then k else Min(k, RAMP) + Max(0, k - (n - RAMP))
  }

  lemma {:induction false} RampPrefix(n: usize, k: nat)
    requires k <= n
    ensures SlowCount(Ramp(n)[..k]) == SlowAmong(n, k)
    ensures Total(Ramp(n)[..k]) == SLOW * SlowAmong(n, k) + FAST * (k - SlowAmong(n, k))
    decreases k
  {
    if k > 0 {
      RampPrefix(n, k - 1);
      assert Ramp(n)[..k][..k - 1] == Ramp(n)[..k - 1];
      assert Ramp(n)[..k][k - 1] == Pause(n, k - 1);
    }
  }

  /**
   A movement of `n` toggles is slow for two hundred of them, or all if it has no more; this
   gives its duration, and it reads the same backwards.
   */
  lemma RampLaws(n: usize)
    ensures SlowCount(Ramp(n)) == Min(n, 200)
    ensures Total(Ramp(n)) == 5000 * Min(n, 200) + 1500 * Max(0, n - 200)
    ensures forall i :: 0 <= i < n ==> Ramp(n)[i] == Ramp(n)[n - 1 - i]
  {
    RampPrefix(n, n);
    assert Ramp(n)[..n] == Ramp(n);
  }

  // ---- Position ----

  /** The blind as the motor knows it, and where its steps have put it. */
  datatype Blind = Blind(raised: bool, stepHigh: bool, position: int)

  const START: Blind := Blind(true, true, 0)

  /** The driver steps on each rising edge of the step line. */
  function RisingEdges(stepHigh: bool, toggles: nat): nat {
    if stepHigh then toggles / 2 else (toggles + 1) / 2
  }

  /** The blind after `toggles` of the step line in one direction. */
  function Toggled(b: Blind, up: bool, toggles: nat): Blind {
    var edges := RisingEdges(b.stepHigh, toggles);
    b.(stepHigh := b.stepHigh == (toggles % 2 == 0),
       position := if up then b.position + edges else b.position - edges)
  }

  function Skips(raised: bool, c: StepCommand): bool {
    (raised && c == Raise) || (!raised && c == Lower)
  }

  function RaisedBy(raised: bool, c: StepCommand): bool {
    if c == Raise then true else if c == Lower then false else raised
  }

  predicate Upward(c: StepCommand) {
    c.Forward? || c == Raise
  }

  /** The toggles of a movement, in machine arithmetic. */
  function Toggles(c: StepCommand, microsteps: usize): usize {
    var k := match c
             case Forward(n) => n
             case Backward(n) => n
             case Raise => BLIND_HEIGHT
             case Lower => BLIND_HEIGHT;
    (k as int * microsteps as int) % USIZE_RANGE
  }

  function Apply(b: Blind, c: StepCommand, microsteps: usize): Blind {
    if Skips(b.raised, c) then b
    else Toggled(b, Upward(c), Toggles(c, microsteps)).(raised := RaisedBy(b.raised, c))
  }

  const MICROSTEPS: usize := 2

  function ApplyAll(b: Blind, cs: seq<StepCommand>): Blind
    decreases |cs|
  {
    if cs == [] then b else Apply(ApplyAll(b, cs[..|cs| - 1]), cs[|cs| - 1], MICROSTEPS)
  }

  /** The steps a jog makes: its count, unless doubling it overflows. */
  function JogSteps(k: usize): nat {
    k % 0x8000_0000
  }

  lemma JogExact(k: usize)
    ensures JogSteps(k) == k <==> k as int * MICROSTEPS as int < USIZE_RANGE
    ensures Toggles(Forward(k), MICROSTEPS) == 2 * JogSteps(k)
    ensures Toggles(Backward(k), MICROSTEPS) == 2 * JogSteps(k)
  {
  }

  /** A raise or lower crosses the whole window, in 8900 toggles and a little over fourteen seconds. */
  lemma FullTravel(b: Blind, c: StepCommand)
    requires c in {Raise, Lower} && !Skips(b.raised, c) && b.stepHigh
    ensures Apply(b, c, MICROSTEPS).position == if c == Raise then b.position + 4450 else b.position - 4450
    ensures |Pulses(b.stepHigh, Toggles(c, MICROSTEPS))| == 8900
    ensures Total(Ramp(Toggles(c, MICROSTEPS))) == 14_050_000
  {
    hide Ramp, Total;
    RampLaws(8900);
  }

  /** Net steps of one command if it is a jog. */
  function Jog(c: StepCommand): int {
    match c
    case Forward(k) => JogSteps(k)
    case Backward(k) => -(JogSteps(k) as int)
    case Raise => 0
    case Lower => 0
  }

  /** Net steps of the jogs in a command sequence. */
  function Jogs(cs: seq<StepCommand>): int
    decreases |cs|
  {
    if cs == [] then 0 else Jogs(cs[..|cs| - 1]) + Jog(cs[|cs| - 1])
  }

  /** Whether the last raise or lower of a sequence was a raise; a blind starts raised. */
  function LastRaised(cs: seq<StepCommand>): bool
    decreases |cs|
  {
    if cs == [] then true else RaisedBy(LastRaised(cs[..|cs| - 1]), cs[|cs| - 1])
  }

  /** Where a blind without jogs rests. */
  function Rest(raised: bool): int {
    if raised then 0 else -(BLIND_HEIGHT as int)
  }

  /** One command moves the blind by its jog and by the change of its rest, and leaves the step line level. */
  lemma AppliedMoves(b: Blind, c: StepCommand)
    requires b.stepHigh
    ensures
      var after := Apply(b, c, MICROSTEPS);
      && after.raised == RaisedBy(b.raised, c)
      && after.stepHigh
      && after.position - Rest(after.raised) == b.position - Rest(b.raised) + Jog(c)
  {
    match c
    case Forward(k) => JogExact(k);
    case Backward(k) => JogExact(k);
    case Raise =>
    case Lower =>
  }

  /**
   For every command sequence: the flag is the last raise or lower, the step line is back at its
   level, and the position is that of a raised or lowered blind plus the net jogs.
   */
  lemma {:induction false} PositionAccounted(cs: seq<StepCommand>)
    ensures
      var b := ApplyAll(START, cs);
      && b.raised == LastRaised(cs)
      && b.stepHigh
      && b.position == Rest(b.raised) + Jogs(cs)
    decreases |cs|
  {
    hide Apply, Jog, RaisedBy;
    if cs != [] {
      PositionAccounted(cs[..|cs| - 1]);
      AppliedMoves(ApplyAll(START, cs[..|cs| - 1]), cs[|cs| - 1]);
    }
  }

  // ---- The task ----

  /** One change of the step line: its new level and the pause after it. */
  datatype Pulse = Pulse(high: bool, pause: nat)

  function Pulses(stepHigh: bool, n: usize): (p: seq<Pulse>)
    ensures |p| == n
  {
    seq(n, i requires 0 <= i < n => Pulse(stepHigh == (i % 2 == 1), Pause(n, i)))
  }

  class MotorTask {
    var raised: bool
    var enableLow: bool
    var dirHigh: bool
    var stepHigh: bool
    const microsteps: usize

    /** Where the steps have put the blind, and every pulse so far. */
    ghost var position: int
    ghost var pulses: seq<Pulse>

    ghost function View(): Blind
      reads this
    {
      Blind(raised, stepHigh, position)
    }

    constructor (microsteps: usize)
      ensures View() == START && !enableLow && pulses == [] && this.microsteps == microsteps
    {
      raised, enableLow, dirHigh, stepHigh := true, false, true, true;
      this.microsteps := microsteps;
      position, pulses := 0, [];
    }

    /** Carries out one command. */
    method Handle(msg: StepCommand)
      requires !enableLow
      modifies this
      ensures View() == Apply(old(View()), msg, microsteps)
      ensures pulses == old(pulses) +
                if Skips(old(raised), msg) then [] else Pulses(old(stepHigh), Toggles(msg, microsteps))
      ensures !enableLow
    {
      if raised && msg == Raise {
        return;
      } else if !raised && msg == Lower {
        return;
      } else if msg == Raise || msg == Lower {
        raised := !raised;
      }
      var dir, n;
      match msg {
        case Forward(k) => dir, n := true, k;
        case Backward(k) => dir, n := false, k;
        case Raise => dir, n := true, BLIND_HEIGHT;
        case Lower => dir, n := false, BLIND_HEIGHT;
      }
      n := (n as int * microsteps as int) % USIZE_RANGE;
      dirHigh := dir;
      enableLow := true;
      Step(n);
      enableLow := false;
    }

    /** Toggles the step line `n` times along the ramp. */
    method Step(n: usize)
      requires enableLow
      modifies this`stepHigh, this`position, this`pulses
      ensures View() == Toggled(old(View()), dirHigh, n)
      ensures pulses == old(pulses) + Pulses(old(stepHigh), n)
    {
      ghost var was := View();
      ghost var train := Pulses(was.stepHigh, n);
      for i := 0 to n
        invariant View() == Toggled(was, dirHigh, i)
        invariant pulses == old(pulses) + train[..i]
      {
        assert train[i] == Pulse(was.stepHigh == (i % 2 == 1), Pause(n, i));
        var pause := if i < RAMP || i >= Minus(n, RAMP) then SLOW else FAST;
        stepHigh := !stepHigh;
        if stepHigh {
          position := if dirHigh then position + 1 else position - 1;
        }
        pulses := pulses + [Pulse(stepHigh, pause)];
        assert train[..i + 1] == train[..i] + [train[i]];
      }
    }
  }

  /** The pauses of a movement's pulses are the ramp. */
  lemma PulsesFollowRamp(stepHigh: bool, n: usize)
    ensures forall i :: 0 <= i < n ==> Pulses(stepHigh, n)[i].pause == Ramp(n)[i]
    ensures forall i :: 0 <= i < n - 1 ==> Pulses(stepHigh, n)[i].high != Pulses(stepHigh, n)[i + 1].high
    ensures n > 0 ==> Pulses(stepHigh, n)[0].high != stepHigh
  {
  }
}
