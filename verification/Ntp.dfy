/** Correcting the clock from a time server. */
module Ntp {
  import opened Bytes
  import opened Clock

  const I64_MIN: int := -0x8000_0000_0000_0000
  const I64_MAX: int := 0x7FFF_FFFF_FFFF_FFFF

  type i64 = w: int | I64_MIN <= w <= I64_MAX

  /** The low 64 bits of `x`, read as a signed and as an unsigned number. */
  function AsI64(x: int): i64 {
    (x - I64_MIN) % U64_RANGE + I64_MIN
  }

  function AsU64(x: int): u64 {
    x % U64_RANGE
  }

  /** The time a signed offset away from `now`, as computed: negate, reinterpret, add or subtract wrapping. */
  function Shifted(now: u64, offset: i64): u64 {
    if offset < 0 then AsU64(now - AsU64(AsI64(-(offset as int))))
    else AsU64(now + AsU64(offset))
  }

  /** For every offset, the most negative one included, the result is the sum modulo the 64-bit range. */
  lemma ShiftedExact(now: u64, offset: i64)
    ensures Shifted(now, offset) == (now + offset) % U64_RANGE
    ensures 0 <= now + offset < U64_RANGE <==> Shifted(now, offset) == now + offset
  {
    hide AsI64;
    if offset < 0 {
      NegatedOffset(offset);
    }
  }

  lemma NegatedOffset(offset: i64)
    requires offset < 0
    ensures AsU64(AsI64(-(offset as int))) == -(offset as int)
  {
  }

  function Distance(a: u64, b: u64): (d: u64)
    ensures d == a - b || d == b - a
  {
    if a >= b then a - b else b - a
  }

  const US_PER_S: u64 := 1_000_000

  /** Where a clock reading is handed to the time server's protocol. */
  class TimestampGen {
    var seconds: u64
    var subSeconds: u32

    constructor ()
      ensures seconds == 0 && subSeconds == 0
    {
      seconds, subSeconds := 0, 0;
    }

    /** Splits the clock's time into seconds and the microseconds beyond them. */
    method Init(systemTime: SystemTime, ticks: u64)
      modifies this
      ensures seconds * 1_000_000 + subSeconds == Reading(systemTime.Boot(), Micros(ticks, systemTime.calibration))
      ensures subSeconds < 1_000_000
    {
      var us := systemTime.GetTimeUs(ticks);
      seconds := us / US_PER_S;
      subSeconds := us - seconds * US_PER_S;
    }
  }

  /** The server's answer: its time, the offset from ours, and the time as seconds and microseconds. */
  datatype Answer = Answer(seconds: u32, micros: u32, offset: i64)

  /**
   Sets the clock from an answer, by offset or absolutely.  The clock's counter is read three
   times: when the offset is added, when the adjustment is measured, and when the time is set.
   */
  method Correct(systemTime: SystemTime, answer: Answer, useOffset: bool, addTicks: u64, measureTicks: u64,
      setTicks: u64)
    returns (ntpTime: u64, adjustment: i64)
    modifies systemTime
    ensures ntpTime == answer.seconds * 1_000_000 + answer.micros
    ensures
      var (boot, cal) := (old(systemTime.Boot()), old(systemTime.calibration));
      var newTime := if useOffset then Shifted(Reading(boot, Micros(addTicks, cal)), answer.offset) else ntpTime;
      && systemTime.Boot() == BootFor(newTime, Micros(setTicks, cal))
      && adjustment == AsI64(Distance(Reading(boot, Micros(measureTicks, cal)), newTime))
    ensures systemTime.calibration == old(systemTime.calibration)
  {
    hide AsI64, AsU64, Micros, Reading, BootFor;
    ntpTime := answer.seconds * 1_000_000 + answer.micros;
    var newTime := ntpTime;
    if useOffset {
      var now := systemTime.GetTimeUs(addTicks);
      if answer.offset < 0 {
        var o := AsU64(AsI64(-(answer.offset as int)));
        newTime := AsU64(now as int - o as int);
      } else {
        var o := AsU64(answer.offset);
        newTime := AsU64(now as int + o as int);
      }
    }
    var now := systemTime.GetTimeUs(measureTicks);
    systemTime.SetTimeUs(newTime, setTicks);
    adjustment := if now >= newTime then AsI64(now - newTime) else AsI64(newTime - now);
  }

  /**
   A correction by offset that was computed at counter `add` and set at counter `set`: from then
   on the clock reads the shifted time plus the counter's advance since it was set.
   */
  lemma ReadAfterCorrection(boot: u64, offset: i64, add: u64, set': u64, later: u64)
    requires set' <= later
    requires 0 <= Reading(boot, add) + offset < U64_RANGE
    ensures
      var t := Reading(boot, add) + offset;
      Reading(BootFor(Shifted(Reading(boot, add), offset), set'), later) == t + (later - set') <==>
      t + (later - set') <= U64_MAX && !(t == 0 && later == set' && set' > 0)
  {
    ShiftedExact(Reading(boot, add), offset);
    ReadAfterSet(Reading(boot, add) + offset, set', later);
  }

  /** The reported adjustment is the distance between the old and the new time exactly when that fits. */
  lemma AdjustmentExact(now: u64, newTime: u64)
    ensures AsI64(Distance(now, newTime)) == Distance(now, newTime) <==> Distance(now, newTime) <= I64_MAX
    ensures AsI64(Distance(now, newTime)) >= 0 <==> Distance(now, newTime) <= I64_MAX
  {
  }

  /**
   When the counter stands still during the correction, the clock jumps by exactly the offset,
   and the reported adjustment is the offset's magnitude.
   */
  lemma CorrectionShiftsClock(boot: u64, offset: i64, rtc: u64)
    requires 0 < Reading(boot, rtc) + offset < U64_RANGE && offset != I64_MIN
    ensures Reading(BootFor(Shifted(Reading(boot, rtc), offset), rtc), rtc) == Reading(boot, rtc) + offset
    ensures AsI64(Distance(Reading(boot, rtc), Shifted(Reading(boot, rtc), offset))) ==
            if offset < 0 then -offset else offset
  {
    ShiftedExact(Reading(boot, rtc), offset);
    ReadAfterCorrection(boot, offset, rtc, rtc, rtc);
    AdjustmentExact(Reading(boot, rtc), Reading(boot, rtc) + offset);
  }
}
