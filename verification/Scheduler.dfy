/** The daily schedule: the blind is raised from half past twelve until sunset. */
module Scheduler {
  import opened Motor
  import opened Wrappers

  const NANOS: nat := 1_000_000_000

  const DAY: nat := 86_400 * NANOS

  const RAISE_TIME: nat := (12 * 3600 + 30 * 60) * NANOS

  /** A local date, and the time of day in nanoseconds. */
  type TimeOfDay = t: nat | t < DAY

  datatype DateTime = DateTime(date: int, time: TimeOfDay)

  type SecondOfDay = s: nat | s < 86_400

  /** When the sun sets on each date, to the second; the calculation fails on some dates. */
  type Sun = int -> Option<SecondOfDay>

  /** The sunset on the date of `now`: hour, minute and second replaced, what is below a second kept. */
  function CalculateSunset(sun: Sun, now: DateTime): Option<DateTime> {
    match sun(now.date)
    case None => None
    case Some(s) => Some(now.(time := s * NANOS + now.time % NANOS))
  }

  // ---- One poll ----

  /** What the schedule wants at a time of day, given the time of sunset: up from half past twelve until sunset. */
  predicate Up(time: TimeOfDay, sunset: TimeOfDay) {
    RAISE_TIME <= time < sunset
  }

  function Wanted(time: TimeOfDay, sunset: TimeOfDay): StepCommand {
    if Up(time, sunset) then Raise else Lower
  }

  /** The last command sent and the cached sunset. */
  datatype Schedule = Schedule(state: Option<StepCommand>, sunset: Option<DateTime>)

  const IDLE: Schedule := Schedule(None, None)

  /** The sunset in force for a reading: the cached one on its own date, else a new one. */
  function SunsetFor(s: Schedule, now: DateTime, sun: Sun): Option<DateTime> {
    if s.sunset.Some? && s.sunset.value.date == now.date then s.sunset else CalculateSunset(sun, now)
  }

  /** A poll changes nothing if the clock or the calculation fails. */
  function Polled(s: Schedule, reading: Option<DateTime>, sun: Sun): Schedule {
    if reading.None? || SunsetFor(s, reading.value, sun).None? then s
    else
      var sunset := SunsetFor(s, reading.value, sun);
      Schedule(Some(Wanted(reading.value.time, sunset.value.time)), sunset)
  }

  /** A poll sends the wanted command if it is not the last one sent. */
  function Sent(s: Schedule, reading: Option<DateTime>, sun: Sun): Option<StepCommand> {
    var after := Polled(s, reading, sun);
    if after.state == s.state then None else after.state
  }

  class ScheduleTask {
    const sun: Sun
    var state: Option<StepCommand>
    var sunset: Option<DateTime>

    ghost function View(): Schedule
      reads this
    {
      Schedule(state, sunset)
    }

    constructor (sun: Sun)
      ensures View() == IDLE && this.sun == sun
    {
      this.sun := sun;
      state, sunset := None, None;
    }

    /** One round of the schedule, given what the clock reads; the clock may be unset. */
    method Poll(reading: Option<DateTime>) returns (sent: Option<StepCommand>)
      modifies this
      ensures View() == Polled(old(View()), reading, sun)
      ensures sent == Sent(old(View()), reading, sun)
    {
      sent := None;
      if reading.None? {
        return;
      }
      var now := reading.value;
      var newDay := if sunset.Some? then sunset.value.date != now.date else true;
      if newDay {
        var calculated := CalculateSunset(sun, now);
        if calculated.None? {
          return;
        }
        sunset := calculated;
      }
      var action;
      match (if sunset.Some? then Some(sunset.value.time <= now.time) else None, RAISE_TIME <= now.time) {
        case (Some(true), _) => action := Lower;
        case (Some(false), true) => action := Raise;
        case (Some(false), false) => action := Lower;
        case (None, _) => assert false;
      }
      if state != Some(action) {
        state := Some(action);
        sent := Some(action);
      }
    }
  }

  // ---- The cache ----

  /** The cached sunset is one that was calculated on its date. */
  predicate CacheOk(s: Schedule, sun: Sun) {
    && (s.sunset.Some? ==> sun(s.sunset.value.date) == Some(s.sunset.value.time / NANOS))
    && (s.state.Some? ==> s.sunset.Some?)
  }

  lemma PollKeepsCache(s: Schedule, reading: Option<DateTime>, sun: Sun)
    requires CacheOk(s, sun)
    ensures CacheOk(Polled(s, reading, sun), sun)
  {
    if reading.Some? && sun(reading.value.date).Some? {
      WholeSeconds(sun(reading.value.date).value, reading.value.time);
    }
  }

  lemma WholeSeconds(s: SecondOfDay, t: TimeOfDay)
    ensures (s * NANOS + t % NANOS) / NANOS == s
    ensures (s * NANOS + t % NANOS) % NANOS == t % NANOS
  {
  }

  /**
   A poll succeeds exactly when the clock can be read and the sun sets on its date.  Then the
   cache holds the sunset of that date, the same to the second as a fresh calculation, and the
   state is the command wanted now; otherwise nothing changes and nothing is sent.
   */
  lemma PollFollowsSun(s: Schedule, reading: Option<DateTime>, sun: Sun)
    requires CacheOk(s, sun)
    ensures
      var after := Polled(s, reading, sun);
      if reading.Some? && sun(reading.value.date).Some? then
        && after.sunset.Some? && after.sunset.value.date == reading.value.date
        && after.sunset.value.time / NANOS == CalculateSunset(sun, reading.value).value.time / NANOS
        && (s.sunset.Some? && s.sunset.value.date == reading.value.date ==> after.sunset == s.sunset)
        && (s.sunset.None? || s.sunset.value.date != reading.value.date ==>
              after.sunset.value.time ==
              sun(reading.value.date).value * 1_000_000_000 + reading.value.time % 1_000_000_000)
        && (after.state == Some(Raise) <==> 45_000_000_000_000 <= reading.value.time < after.sunset.value.time)
        && (after.state == Some(Lower) <==> !(45_000_000_000_000 <= reading.value.time < after.sunset.value.time))
        && (Sent(s, reading, sun) == if after.state == s.state then None else after.state)
      else after == s && Sent(s, reading, sun).None?
  {
    PollKeepsCache(s, reading, sun);
    if reading.Some? && sun(reading.value.date).Some? {
      WholeSeconds(sun(reading.value.date).value, reading.value.time);
    }
  }

  /**
   The cached sunset and a fresh one want different commands exactly within the second of
   sunset, while the clock is still short of the part of a second that the cache kept.
   */
  lemma CacheIsExact(s: Schedule, now: DateTime, sun: Sun)
    requires CacheOk(s, sun) && sun(now.date).Some? && s.sunset.Some? && s.sunset.value.date == now.date
    ensures
      Wanted(now.time, s.sunset.value.time) != Wanted(now.time, CalculateSunset(sun, now).value.time) <==>
      && now.time / NANOS == sun(now.date).value
      && RAISE_TIME <= now.time < s.sunset.value.time
  {
    WholeSeconds(sun(now.date).value, now.time);
    var anew, cached := CalculateSunset(sun, now).value.time, s.sunset.value.time;
    Compare(now.time, anew);
    Compare(now.time, cached);
  }

  lemma Compare(a: nat, b: nat)
    ensures a < b <==> a / NANOS < b / NANOS || (a / NANOS == b / NANOS && a % NANOS < b % NANOS)
  {
  }

  // ---- Runs ----

  /** A command sent, and the date on which it was. */
  datatype Order = Order(command: StepCommand, date: int)

  function Run(readings: seq<Option<DateTime>>, sun: Sun): Schedule
    decreases |readings|
  {
    if readings == [] then IDLE else Polled(Run(readings[..|readings| - 1], sun), readings[|readings| - 1], sun)
  }

  /** Everything sent during a run. */
  function Orders(readings: seq<Option<DateTime>>, sun: Sun): seq<Order>
    decreases |readings|
  {
    if readings == [] then []
    else
      var (before, reading) := (readings[..|readings| - 1], readings[|readings| - 1]);
      var sent := Sent(Run(before, sun), reading, sun);
      Orders(before, sun) + if sent.Some? && reading.Some? then [Order(sent.value, reading.value.date)] else []
  }

  predicate NotAfter(a: DateTime, b: DateTime) {
    a.date < b.date || (a.date == b.date && a.time <= b.time)
  }

  /** The clock never goes back from one reading to a later one. */
  predicate Steady(readings: seq<Option<DateTime>>) {
    forall i, j :: 0 <= i < j < |readings| && readings[i].Some? && readings[j].Some? ==>
      NotAfter(readings[i].value, readings[j].value)
  }

  /** Neighbours differ. */
  predicate Alternate(os: seq<Order>) {
    forall i :: 0 < i < |os| ==> os[i].command != os[i - 1].command
  }

  /** No two raises on one date, and the dates in order. */
  predicate RaisedDaily(os: seq<Order>) {
    forall i, j :: 0 <= i < j < |os| && os[i].command == Raise && os[j].command == Raise ==> os[i].date < os[j].date
  }

  function Dates(readings: seq<Option<DateTime>>): set<int> {
    set r | r in readings && r.Some? :: r.value.date
  }

  /** The latest reading of a run. */
  function Latest(readings: seq<Option<DateTime>>): Option<DateTime>
    decreases |readings|
  {
    if readings == [] then None
    else if readings[|readings| - 1].Some? then readings[|readings| - 1]
    else Latest(readings[..|readings| - 1])
  }

  lemma {:induction false} LatestIsRead(readings: seq<Option<DateTime>>)
    ensures Latest(readings).Some? ==> Latest(readings) in readings
    ensures Latest(readings).None? ==> forall r :: r in readings ==> r.None?
    decreases |readings|
  {
    if readings != [] && readings[|readings| - 1].None? {
      LatestIsRead(readings[..|readings| - 1]);
    }
  }

  predicate RaisedOn(os: seq<Order>, date: int) {
    Order(Raise, date) in os
  }

  /** Why a second raise on one date cannot come: the first holds until sunset, and that stays put. */
  predicate RaiseSpent(s: Schedule, os: seq<Order>, latest: DateTime) {
    RaisedOn(os, latest.date) ==>
      && s.sunset.Some? && s.sunset.value.date == latest.date
      && RAISE_TIME <= latest.time
      && (s.state == Some(Raise) || s.sunset.value.time <= latest.time)
  }

  predicate LastSent(os: seq<Order>, state: Option<StepCommand>) {
    state == if os == [] then None else Some(os[|os| - 1].command)
  }

  predicate Upto(os: seq<Order>, latest: DateTime) {
    forall o :: o in os ==> o.command in {Raise, Lower} && o.date <= latest.date
  }

  /** What every steady run keeps. */
  predicate RunOk(s: Schedule, os: seq<Order>, latest: Option<DateTime>) {
    && LastSent(os, s.state)
    && Alternate(os)
    && RaisedDaily(os)
    && (if latest.Some? then Upto(os, latest.value) && RaiseSpent(s, os, latest.value) else os == [])
  }

  /** Ordering something new keeps the orders alternating and the raises daily. */
  lemma Ordered(os: seq<Order>, o: Order)
    requires Alternate(os) && RaisedDaily(os) && !LastSent(os, Some(o.command))
    requires forall p :: p in os ==> p.date <= o.date
    requires o.command == Raise ==> !RaisedOn(os, o.date)
    ensures Alternate(os + [o]) && RaisedDaily(os + [o])
  {
    var after := os + [o];
    forall i, j | 0 <= i < j < |after| && after[i].command == Raise && after[j].command == Raise
      ensures after[i].date < after[j].date
    {
      assert after[i] in os && after[i] == Order(Raise, after[i].date);
    }
  }

  /** A poll spends the raise of its date, and never sends a second one. */
  lemma PollSpendsRaise(s: Schedule, os: seq<Order>, latest: DateTime, reading: DateTime, sun: Sun)
    requires NotAfter(latest, reading) && Upto(os, latest) && RaiseSpent(s, os, latest)
    ensures Sent(s, Some(reading), sun) == Some(Raise) ==> !RaisedOn(os, reading.date)
    ensures RaisedOn(os, reading.date) ==> RaiseSpent(Polled(s, Some(reading), sun), os, reading)
  {
  }

  lemma PollKeepsRun(s: Schedule, os: seq<Order>, latest: Option<DateTime>, reading: DateTime, sun: Sun)
    requires RunOk(s, os, latest) && (latest.Some? ==> NotAfter(latest.value, reading))
    ensures
      var sent := Sent(s, Some(reading), sun);
      RunOk(Polled(s, Some(reading), sun),
            os + if sent.Some? then [Order(sent.value, reading.date)] else [],
            Some(reading))
  {
    hide Alternate, RaisedDaily;
    var sent := Sent(s, Some(reading), sun);
    if latest.Some? {
      PollSpendsRaise(s, os, latest.value, reading, sun);
    }
    if sent.Some? {
      var o := Order(sent.value, reading.date);
      Ordered(os, o);
      assert forall p :: p in os + [o] <==> p in os || p == o;
    } else {
      assert os + [] == os;
    }
  }

  lemma {:induction false} RunKeepsOk(readings: seq<Option<DateTime>>, sun: Sun)
    requires Steady(readings)
    ensures RunOk(Run(readings, sun), Orders(readings, sun), Latest(readings))
    decreases |readings|
  {
    if readings != [] {
      var n := |readings| - 1;
      RunKeepsOk(readings[..n], sun);
      LatestIsRead(readings[..n]);
      if readings[n].Some? {
        PollKeepsRun(Run(readings[..n], sun), Orders(readings[..n], sun), Latest(readings[..n]), readings[n].value,
            sun);
      } else {
        assert Orders(readings, sun) == Orders(readings[..n], sun);
      }
    }
  }

  /** However the clock behaves, the cache stays right, and the state is the last command sent. */
  lemma {:induction false} RunFollowsSun(readings: seq<Option<DateTime>>, sun: Sun)
    ensures CacheOk(Run(readings, sun), sun)
    ensures LastSent(Orders(readings, sun), Run(readings, sun).state)
    ensures Alternate(Orders(readings, sun))
    decreases |readings|
  {
    if readings != [] {
      var n := |readings| - 1;
      RunFollowsSun(readings[..n], sun);
      PollKeepsCache(Run(readings[..n], sun), readings[n], sun);
    }
  }

  function RaiseDates(os: seq<Order>): set<int> {
    set o | o in os && o.command == Raise :: o.date
  }

  lemma RaiseDatesGrow(before: seq<Order>, o: Order)
    ensures RaiseDates(before + [o]) == RaiseDates(before) + if o.command == Raise then {o.date} else {}
  {
    assert forall p :: p in before + [o] <==> p in before || p == o;
  }

  lemma RaiseDateIsNew(os: seq<Order>)
    requires os != [] && RaisedDaily(os) && os[|os| - 1].command == Raise
    ensures os[|os| - 1].date !in RaiseDates(os[..|os| - 1])
  {
  }

  lemma {:induction false} AlternateCount(os: seq<Order>)
    requires Alternate(os) && RaisedDaily(os) && forall o :: o in os ==> o.command in {Raise, Lower}
    ensures |os| <= 2 * |RaiseDates(os)| + 1
    ensures os != [] && os[|os| - 1].command == Raise ==> |os| <= 2 * |RaiseDates(os)|
    decreases |os|
  {
    hide RaiseDates;
    if os != [] {
      var n := |os| - 1;
      var before, o := os[..n], os[n];
      AlternateCount(before);
      assert os == before + [o];
      RaiseDatesGrow(before, o);
      if o.command == Raise {
        RaiseDateIsNew(os);
      } else if n > 0 {
        assert before[n - 1] in os && before[n - 1].command == Raise;
      }
    }
  }

  lemma {:induction false} OrdersAreDated(readings: seq<Option<DateTime>>, sun: Sun)
    ensures forall o :: o in Orders(readings, sun) ==> o.date in Dates(readings)
    decreases |readings|
  {
    if readings != [] {
      var n := |readings| - 1;
      OrdersAreDated(readings[..n], sun);
      assert Dates(readings[..n]) <= Dates(readings);
      assert readings[n] in readings;
    }
  }

  lemma {:induction false} SubsetIsSmaller<T>(a: set<T>, b: set<T>)
    requires a <= b
    ensures |a| <= |b|
  {
    if a != {} {
      var x :| x in a;
      SubsetIsSmaller(a - {x}, b - {x});
    }
  }

  /**
   While the clock does not go back, commands alternate, no date sees two raises, and the
   blind is sent at most two commands a day and one more.
   */
  lemma DailyOrders(readings: seq<Option<DateTime>>, sun: Sun)
    requires Steady(readings)
    ensures Alternate(Orders(readings, sun))
    ensures RaisedDaily(Orders(readings, sun))
    ensures |Orders(readings, sun)| <= 2 * |Dates(readings)| + 1
  {
    var os := Orders(readings, sun);
    RunKeepsOk(readings, sun);
    OrdersAreDated(readings, sun);
    AlternateCount(os);
    SubsetIsSmaller(RaiseDates(os), Dates(readings));
  }

  // ---- Clocks that go back ----

  /** The readings of one date, and what the schedule makes of them by the sunset of the first. */
  function OnDate(date: int, times: seq<TimeOfDay>): (readings: seq<Option<DateTime>>)
    ensures |readings| == |times|
  {
    seq(|times|, i requires 0 <= i < |times| => Some(DateTime(date, times[i])))
  }

  /** Up, then not, then up again. */
  predicate Dip(times: seq<TimeOfDay>, sunset: TimeOfDay, i: nat, j: nat, k: nat) {
    i < j < k < |times| && Up(times[i], sunset) && !Up(times[j], sunset) && Up(times[k], sunset)
  }

  /** The time of day leaves the hours in which the blind is up, and comes back into them. */
  ghost predicate Returns(times: seq<TimeOfDay>, sunset: TimeOfDay) {
    exists i, j, k :: Dip(times, sunset, i, j, k)
  }

  predicate EverUp(times: seq<TimeOfDay>, sunset: TimeOfDay) {
    exists i :: 0 <= i < |times| && Up(times[i], sunset)
  }

  /** How many of the orders are raises. */
  function Raises(os: seq<Order>): nat
    decreases |os|
  {
    if os == [] then 0 else Raises(os[..|os| - 1]) + if os[|os| - 1].command == Raise then 1 else 0
  }

  lemma EverUpGrows(times: seq<TimeOfDay>, t: TimeOfDay, sunset: TimeOfDay)
    ensures EverUp(times + [t], sunset) <==> EverUp(times, sunset) || Up(t, sunset)
  {
    hide Up;
    var (n, more) := (|times|, times + [t]);
    assert more[n] == t && forall i :: 0 <= i < n ==> more[i] == times[i];
  }

  /** A new dip ends at the new reading, after one that was not up. */
  lemma ReturnsGrow(times: seq<TimeOfDay>, t: TimeOfDay, sunset: TimeOfDay)
    requires times != []
    ensures Returns(times + [t], sunset) <==>
            Returns(times, sunset) || (EverUp(times, sunset) && !Up(times[|times| - 1], sunset) && Up(t, sunset))
  {
    hide Dip, Up;
    var (n, more) := (|times|, times + [t]);
    if Returns(times, sunset) {
      var i: nat, j: nat, k: nat :| Dip(times, sunset, i, j, k);
      SameDip(times, t, sunset, i, j, k);
    } else if EverUp(times, sunset) && !Up(times[n - 1], sunset) && Up(t, sunset) {
      var i :| 0 <= i < n && Up(times[i], sunset);
      NewDip(times, t, sunset, i);
    } else if Returns(more, sunset) {
      var i: nat, j: nat, k: nat :| Dip(more, sunset, i, j, k);
      NoNewDip(times, t, sunset, i, j, k);
    }
  }

  lemma SameDip(times: seq<TimeOfDay>, t: TimeOfDay, sunset: TimeOfDay, i: nat, j: nat, k: nat)
    ensures k < |times| ==> Dip(times + [t], sunset, i, j, k) == Dip(times, sunset, i, j, k)
    ensures Dip(times, sunset, i, j, k) ==> k < |times|
  {
    hide Up;
  }

  lemma NewDip(times: seq<TimeOfDay>, t: TimeOfDay, sunset: TimeOfDay, i: nat)
    requires i < |times| && Up(times[i], sunset) && !Up(times[|times| - 1], sunset) && Up(t, sunset)
    ensures Dip(times + [t], sunset, i, |times| - 1, |times|)
  {
    hide Up;
  }

  lemma NoNewDip(times: seq<TimeOfDay>, t: TimeOfDay, sunset: TimeOfDay, i: nat, j: nat, k: nat)
    requires Dip(times + [t], sunset, i, j, k)
    ensures Dip(times, sunset, i, j, k)
            || (EverUp(times, sunset) && Up(t, sunset)
                && (!Up(times[|times| - 1], sunset) || Dip(times, sunset, i, j, |times| - 1)))
  {
    hide Up;
    var more := times + [t];
    assert more[i] == times[i] && more[j] == times[j];
  }

  /** What a run on one date comes to, and how often it raises. */
  ghost predicate DayOk(s: Schedule, os: seq<Order>, date: int, times: seq<TimeOfDay>, sunset: DateTime)
    requires times != []
  {
    && s == Schedule(Some(Wanted(times[|times| - 1], sunset.time)), Some(sunset)) && sunset.date == date
    && (Raises(os) > 0 <==> EverUp(times, sunset.time))
    && (Raises(os) > 1 <==> Returns(times, sunset.time))
    && forall o :: o in os ==> o.date == date
  }

  lemma FirstPoll(date: int, t: TimeOfDay, sun: Sun)
    requires sun(date).Some?
    ensures
      var sunset := CalculateSunset(sun, DateTime(date, t)).value;
      DayOk(Polled(IDLE, Some(DateTime(date, t)), sun), [Order(Wanted(t, sunset.time), date)], date, [t], sunset)
  {
    var sunset := CalculateSunset(sun, DateTime(date, t)).value;
    var os := [Order(Wanted(t, sunset.time), date)];
    assert os[..0] == [];
    assert EverUp([t], sunset.time) <==> Up([t][0], sunset.time);
  }

  lemma NextPoll(s: Schedule, os: seq<Order>, date: int, times: seq<TimeOfDay>, sunset: DateTime, t: TimeOfDay,
      sun: Sun)
    requires times != [] && DayOk(s, os, date, times, sunset)
    ensures
      var (reading, sent) := (Some(DateTime(date, t)), Sent(s, Some(DateTime(date, t)), sun));
      DayOk(Polled(s, reading, sun),
            os + if sent.Some? then [Order(sent.value, date)] else [],
            date, times + [t], sunset)
  {
    hide EverUp, Returns, Raises, Up;
    EverUpGrows(times, t, sunset.time);
    ReturnsGrow(times, t, sunset.time);
    RaisesGrow(os, Sent(s, Some(DateTime(date, t)), sun), date);
    LastUp(times, sunset.time);
  }

  lemma LastUp(times: seq<TimeOfDay>, sunset: TimeOfDay)
    requires times != []
    ensures Up(times[|times| - 1], sunset) ==> EverUp(times, sunset)
  {
  }

  lemma {:induction false} DayOrders(date: int, times: seq<TimeOfDay>, sun: Sun)
    requires times != [] && sun(date).Some?
    ensures DayOk(Run(OnDate(date, times), sun), Orders(OnDate(date, times), sun), date, times,
                  CalculateSunset(sun, DateTime(date, times[0])).value)
    decreases |times|
  {
    hide DayOk, Wanted;
    var n := |times| - 1;
    var (before, t, readings) := (times[..n], times[n], OnDate(date, times));
    assert readings[..n] == OnDate(date, before) && times == before + [t];
    if n == 0 {
      assert times == [t];
      FirstPoll(date, t, sun);
      FirstOrder(date, t, sun);
    } else {
      DayOrders(date, before, sun);
      NextPoll(Run(readings[..n], sun), Orders(readings[..n], sun), date, before,
               CalculateSunset(sun, DateTime(date, times[0])).value, t, sun);
    }
  }

  lemma FirstOrder(date: int, t: TimeOfDay, sun: Sun)
    requires sun(date).Some?
    ensures Run(OnDate(date, [t]), sun) == Polled(IDLE, Some(DateTime(date, t)), sun)
    ensures Orders(OnDate(date, [t]), sun) ==
        [Order(Wanted(t, CalculateSunset(sun, DateTime(date, t)).value.time), date)]
  {
    var readings := OnDate(date, [t]);
    assert readings[..0] == [] && readings[0] == Some(DateTime(date, t));
    assert Run(readings[..0], sun) == IDLE && Orders(readings[..0], sun) == [];
  }

  lemma RaisesGrow(os: seq<Order>, sent: Option<StepCommand>, date: int)
    ensures
      var more := os + if sent.Some? then [Order(sent.value, date)] else [];
      Raises(more) == Raises(os) + if sent == Some(Raise) then 1 else 0
  {
    if sent.Some? {
      assert (os + [Order(sent.value, date)])[..|os|] == os;
    } else {
      assert os + [] == os;
    }
  }

  lemma {:induction false} RaisesCounted(os: seq<Order>)
    ensures Raises(os) > 0 <==> exists i :: 0 <= i < |os| && os[i].command == Raise
    ensures Raises(os) > 1 <==> exists i, j :: 0 <= i < j < |os| && os[i].command == Raise && os[j].command == Raise
    decreases |os|
  {
    if os != [] {
      var n := |os| - 1;
      RaisesCounted(os[..n]);
      assert forall i :: 0 <= i < n ==> os[..n][i] == os[i];
    }
  }

  lemma RaisesOnOneDate(os: seq<Order>, date: int)
    requires forall o :: o in os ==> o.date == date
    ensures RaisedDaily(os) <==> Raises(os) <= 1
  {
    hide Raises;
    RaisesCounted(os);
    assert forall i :: 0 <= i < |os| ==> os[i] in os;
  }

  /**
   However the clock jumps within a date, the blind is raised twice on it exactly if the time
   leaves the hours from half past twelve until sunset and comes back into them.
   */
  lemma RaisedTwiceExactly(date: int, times: seq<TimeOfDay>, sun: Sun)
    requires times != [] && sun(date).Some?
    ensures !RaisedDaily(Orders(OnDate(date, times), sun)) <==>
            Returns(times, CalculateSunset(sun, DateTime(date, times[0])).value.time)
  {
    hide EverUp, Returns, Raises, RaisedDaily, Run, Orders, CalculateSunset;
    DayOrders(date, times, sun);
    RaisesOnOneDate(Orders(OnDate(date, times), sun), date);
  }

  // ---- Any clock, over any dates ----

  predicate Succeeds(reading: Option<DateTime>, sun: Sun) {
    reading.Some? && sun(reading.value.date).Some?
  }

  /** The sunset calculated when the clock last came to the date it is on. */
  function InForce(readings: seq<Option<DateTime>>, sun: Sun): (r: Option<DateTime>)
    decreases |readings|
  {
    if readings == [] then None
    else
      var (before, last) := (InForce(readings[..|readings| - 1], sun), readings[|readings| - 1]);
      if !Succeeds(last, sun) then before
      else if before.Some? && before.value.date == last.value.date then before
      else CalculateSunset(sun, last.value)
  }

  /** The clock was within the hours in which the blind is up, when it last could be read. */
  predicate WasUp(readings: seq<Option<DateTime>>, sun: Sun)
    decreases |readings|
  {
    readings != [] &&
    var last := readings[|readings| - 1];
    if Succeeds(last, sun) && InForce(readings, sun).Some? then Up(last.value.time, InForce(readings, sun).value.time)
    else WasUp(readings[..|readings| - 1], sun)
  }

  /** The dates on which the clock came into those hours, in order. */
  function Rises(readings: seq<Option<DateTime>>, sun: Sun): seq<int>
    decreases |readings|
  {
    if readings == [] then []
    else
      var (before, last) := (readings[..|readings| - 1], readings[|readings| - 1]);
      Rises(before, sun) +
      if Succeeds(last, sun) && WasUp(readings, sun) && !WasUp(before, sun) then [last.value.date] else []
  }

  predicate Increasing(dates: seq<int>) {
    forall i, j :: 0 <= i < j < |dates| ==> dates[i] < dates[j]
  }

  /** The dates of the raises among the orders, in order. */
  function RaisedOnDates(os: seq<Order>): seq<int>
    decreases |os|
  {
    if os == [] then []
    else RaisedOnDates(os[..|os| - 1]) + if os[|os| - 1].command == Raise then [os[|os| - 1].date] else []
  }

  lemma RaisedOnMore(os: seq<Order>, sent: Option<StepCommand>, date: int)
    ensures
      var more := os + if sent.Some? then [Order(sent.value, date)] else [];
      RaisedOnDates(more) == RaisedOnDates(os) + if sent == Some(Raise) then [date] else []
  {
    if sent.Some? {
      assert (os + [Order(sent.value, date)])[..|os|] == os;
    } else {
      assert os + [] == os;
    }
  }

  /** What the schedule holds, told by the clock alone. */
  lemma {:induction false} RunToldByClock(readings: seq<Option<DateTime>>, sun: Sun)
    ensures Run(readings, sun).sunset == InForce(readings, sun)
    ensures Run(readings, sun).state ==
              if InForce(readings, sun).None? then None else Some(if WasUp(readings, sun) then Raise else Lower)
    ensures InForce(readings, sun).None? ==> !WasUp(readings, sun)
    ensures RaisedOnDates(Orders(readings, sun)) == Rises(readings, sun)
    decreases |readings|
  {
    hide Up, RaisedOnDates;
    if readings == [] {
      NoOrders();
    } else {
      var (before, last) := (readings[..|readings| - 1], readings[|readings| - 1]);
      RunToldByClock(before, sun);
      RunFollowsSun(before, sun);
      assert Rises(before, sun) + [] == Rises(before, sun) && Orders(before, sun) + [] == Orders(before, sun);
      if last.Some? {
        RaisedOnMore(Orders(before, sun), Sent(Run(before, sun), last, sun), last.value.date);
      }
    }
  }

  lemma NoOrders()
    ensures RaisedOnDates([]) == []
  {
  }

  lemma {:induction false} RaisedDailyIsIncreasing(os: seq<Order>)
    ensures RaisedDaily(os) <==> Increasing(RaisedOnDates(os))
    ensures forall d :: d in RaisedOnDates(os) <==> Order(Raise, d) in os
    decreases |os|
  {
    if os != [] {
      var n := |os| - 1;
      var (before, o) := (os[..n], os[n]);
      RaisedDailyIsIncreasing(before);
      assert os == before + [o];
      DailyMore(before, o);
      if o.command == Raise {
        IncreasingMore(RaisedOnDates(before), o.date);
        RaisesBelow(before, RaisedOnDates(before), o.date);
      } else {
        assert RaisedOnDates(before) + [] == RaisedOnDates(before);
      }
    }
  }

  lemma RaisesBelow(os: seq<Order>, dates: seq<int>, d: int)
    requires forall e :: e in dates <==> Order(Raise, e) in os
    ensures (forall i :: 0 <= i < |os| && os[i].command == Raise ==> os[i].date < d) <==>
            forall e :: e in dates ==> e < d
  {
    if forall e :: e in dates ==> e < d {
      forall i | 0 <= i < |os| && os[i].command == Raise ensures os[i].date < d {
        assert os[i] == Order(Raise, os[i].date) && os[i] in os;
      }
    }
  }

  lemma IncreasingMore(dates: seq<int>, d: int)
    ensures Increasing(dates + [d]) <==> Increasing(dates) && forall e :: e in dates ==> e < d
  {
    var more := dates + [d];
    if Increasing(more) {
      forall i, j | 0 <= i < j < |dates| ensures dates[i] < dates[j] {
        assert more[i] < more[j];
      }
      forall e | e in dates ensures e < d {
        var i :| 0 <= i < |dates| && dates[i] == e;
        assert more[i] < more[|dates|];
      }
    }
    if Increasing(dates) && forall e :: e in dates ==> e < d {
      forall i, j | 0 <= i < j < |more| ensures more[i] < more[j] {
        assert more[i] == dates[i] && dates[i] in dates;
      }
    }
  }

  lemma DailyMore(os: seq<Order>, o: Order)
    ensures RaisedDaily(os + [o]) <==>
            && RaisedDaily(os)
            && (o.command == Raise ==> forall i :: 0 <= i < |os| && os[i].command == Raise ==> os[i].date < o.date)
  {
    var more := os + [o];
    assert more[|os|] == o && forall i :: 0 <= i < |os| ==> more[i] == os[i];
  }

  /**
   However the clock jumps, over any dates: every raise is on a later date than the one before,
   exactly if the clock comes into the hours from half past twelve until sunset on later and
   later dates.
   */
  lemma RaisedDailyExactly(readings: seq<Option<DateTime>>, sun: Sun)
    ensures RaisedDaily(Orders(readings, sun)) <==> Increasing(Rises(readings, sun))
  {
    hide RaisedDaily, Increasing, RaisedOnDates, Orders, Rises;
    RunToldByClock(readings, sun);
    RaisedDailyIsIncreasing(Orders(readings, sun));
  }

  /** A clock set back across sunset raises the blind again on the same date. */
  lemma RaisedTwice(date: int) returns (readings: seq<Option<DateTime>>, sun: Sun)
    ensures !Steady(readings) && Dates(readings) == {date}
    ensures Orders(readings, sun) == [Order(Raise, date), Order(Lower, date), Order(Raise, date)]
    ensures !RaisedDaily(Orders(readings, sun))
  {
    sun := d => Some(16 * 3600);
    var day, night := DateTime(date, 13 * 3600 * NANOS), DateTime(date, 17 * 3600 * NANOS);
    var r1, r2 := [Some(day)], [Some(day), Some(night)];
    readings := [Some(day), Some(night), Some(day)];
    assert readings[..2] == r2 && r2[..1] == r1 && r1[..0] == [];
    WholeSeconds(16 * 3600, day.time);
    assert Orders(r1, sun) == [Order(Raise, date)];
    assert Orders(r2, sun) == [Order(Raise, date), Order(Lower, date)];
    var os := Orders(readings, sun);
    assert os[0].command == Raise && os[2].command == Raise && os[0].date == os[2].date;
    assert NotAfter(day, night) && !NotAfter(night, day);
    assert readings[1] == Some(night) && readings[2] == Some(day);
  }
}
