/** The real-time clock: calibrated ticks since power-up, and a boot time kept beside them. */
module Clock {
  import opened Bytes

  const U32_RANGE: int := 0x1_0000_0000
  const U64_RANGE: int := 0x1_0000_0000_0000_0000

  type u64 = w: int | 0 <= w < U64_RANGE

  const U64_MAX: u64 := U64_RANGE - 1

  // ---- Ticks to microseconds ----

  const CAL_FRACT: int := 0x8_0000  // 2 to the power of 19

  /** The conversion as computed: in two halves, every operation in 64 bits. */
  function Micros(ticks: u64, cal: u64): u64 {
    var (low, high) := (ticks % U32_RANGE, ticks / U32_RANGE);
    ((low * cal) % U64_RANGE / CAL_FRACT + (high * cal) % U64_RANGE * (U32_RANGE / CAL_FRACT) % U64_RANGE) % U64_RANGE
  }

  lemma MulGrows(a: nat, b: nat, c: nat)
    requires a <= b
    ensures a * c <= b * c
  {
  }

  lemma ProductBound(a: nat, b: nat, m: nat, n: nat)
    requires a < m && b < n
    ensures 0 <= a * b <= (m - 1) * (n - 1)
  {
    MulGrows(a, m - 1, b);
    MulGrows(b, n - 1, m - 1);
    assert (m - 1) * b == b * (m - 1);
  }

  lemma SplitProduct(low: nat, high: nat, cal: nat)
    ensures (low + U32_RANGE * high) * cal == low * cal + U32_RANGE * (high * cal)
  {
  }

  lemma SplitQuotient(p: nat, q: nat)
    ensures (p + U32_RANGE * q) / CAL_FRACT == p / CAL_FRACT + 0x2000 * q
  {
  }

  /**
   For all 48 bits of ticks and 32 of calibration: the split product is the exact one, rounded
   down once, and no 64-bit operation overflows.
   */
  lemma MicrosExact(ticks: u64, cal: u64)
    requires ticks < 0x1_0000_0000_0000 && cal < U32_RANGE
    ensures (ticks % U32_RANGE) * cal < U64_RANGE
    ensures (ticks / U32_RANGE) * cal * (U32_RANGE / CAL_FRACT) < U64_RANGE
    ensures Micros(ticks, cal) == ticks * cal / CAL_FRACT
  {
    var (low, high) := (ticks % U32_RANGE, ticks / U32_RANGE);
    ProductBound(low, cal, U32_RANGE, U32_RANGE);
    ProductBound(high, cal, 0x1_0000, U32_RANGE);
    SplitProduct(low, high, cal);
    SplitQuotient(low * cal, high * cal);
    NoOverflow(low * cal, high * cal);
  }

  lemma NoOverflow(p: nat, q: nat)
    requires p <= 0xFFFF_FFFF * 0xFFFF_FFFF && q <= 0xFFFF * 0xFFFF_FFFF
    ensures
      (p % U64_RANGE / CAL_FRACT + q % U64_RANGE * (U32_RANGE / CAL_FRACT) % U64_RANGE) % U64_RANGE
      == p / CAL_FRACT + 0x2000 * q
  {
    assert q * 0x2000 < U64_RANGE;
  }

  /** More ticks never read as less time, and converting in portions loses at most a microsecond. */
  lemma MicrosSteady(a: u64, b: u64, cal: u64)
    requires a + b < 0x1_0000_0000_0000 && cal < U32_RANGE
    ensures Micros(a, cal) <= Micros(a + b, cal)
    ensures 0 <= Micros(a + b, cal) - Micros(a, cal) - Micros(b, cal) <= 1
  {
    MicrosExact(a, cal);
    MicrosExact(b, cal);
    MicrosExact(a + b, cal);
    assert (a + b) * cal == a * cal + b * cal;
    ProductBound(a, cal, 0x1_0000_0000_0000, U32_RANGE);
    ProductBound(b, cal, 0x1_0000_0000_0000, U32_RANGE);
    SumOfQuotients(a * cal, b * cal);
  }

  lemma SumOfQuotients(x: nat, y: nat)
    ensures 0 <= (x + y) / CAL_FRACT - x / CAL_FRACT - y / CAL_FRACT <= 1
  {
  }

  // ---- Boot time ----

  /** The time read with boot time `boot` when the clock has counted `rtc`. */
  function Reading(boot: u64, rtc: u64): u64 {
    var wrapped := U64_MAX - boot;
    if rtc > wrapped then rtc - wrapped else boot + rtc
  }

  /** The boot time that makes the clock read `time` when it has counted `rtc`. */
  function BootFor(time: u64, rtc: u64): u64 {
    if time < rtc then U64_MAX - rtc + time else time - rtc
  }

  /** Boot times wrap around at one less than the 64-bit range. */
  lemma ReadingModulo(boot: u64, rtc: u64)
    ensures Reading(boot, rtc) % U64_MAX == (boot + rtc) % U64_MAX
  {
    if rtc > U64_MAX - boot {
      assert Reading(boot, rtc) == (boot + rtc) - U64_MAX;
      assert (boot + rtc) % U64_MAX == (boot + rtc - U64_MAX) % U64_MAX;
    }
  }

  /**
   After the time was set to `t`, the clock advances with its counter.  The one exception is
   midnight of the epoch, which reads as the largest time until the counter moves on.
   */
  lemma ReadAfterSet(t: u64, r: u64, r': u64)
    requires r <= r'
    ensures Reading(BootFor(t, r), r') == t + (r' - r) <==>
            t + (r' - r) <= U64_MAX && !(t == 0 && r' == r && r > 0)
    ensures t == 0 && r' == r && r > 0 ==> Reading(BootFor(t, r), r') == U64_MAX
    ensures t + (r' - r) > U64_MAX ==> Reading(BootFor(t, r), r') == t + (r' - r) - U64_MAX
  {
  }

  /** Rewriting the boot time at one counter value changes no reading, except of a counter back at 0. */
  lemma RefreshKeepsReadings(boot: u64, r: u64, r': u64)
    ensures Reading(BootFor(Reading(boot, r), r), r') == Reading(boot, r') <==>
            !(boot == U64_MAX && r > 0 && r' == 0)
  {
  }

  /** One refresh of the boot time: the counter read, and the counter when it is written back. */
  datatype Refresh = Refresh(read: u64, written: u64)

  function Refreshed(boot: u64, us: seq<Refresh>): u64
    decreases |us|
  {
    if us == [] then boot else Refreshed(BootFor(Reading(boot, us[0].read), us[0].written), us[1..])
  }

  /** The counter never goes back, from `r` through every refresh to `end`. */
  predicate InOrder(r: u64, us: seq<Refresh>, end: u64)
    decreases |us|
  {
    if us == [] then r <= end else r <= us[0].read <= us[0].written && InOrder(us[0].written, us[1..], end)
  }

  function Lost(us: seq<Refresh>): nat
    requires forall i :: 0 <= i < |us| ==> us[i].read <= us[i].written
    decreases |us|
  {
    if us == [] then 0 else us[0].written - us[0].read + Lost(us[1..])
  }

  lemma {:induction false} OrderBounds(r: u64, us: seq<Refresh>, end: u64)
    requires InOrder(r, us, end)
    ensures forall i :: 0 <= i < |us| ==> us[i].read <= us[i].written
    ensures Lost(us) <= end - r
    decreases |us|
  {
    if us != [] {
      OrderBounds(us[0].written, us[1..], end);
      assert forall i :: 1 <= i < |us| ==> us[i] == us[1..][i - 1];
    }
  }

  /**
   However often the boot time is refreshed after the time was set, the clock reads the set time
   plus the counter's advance, less exactly what the counter advanced within the refreshes.
   */
  lemma {:induction false} ReadAfterRefreshes(t: u64, r: u64, us: seq<Refresh>, end: u64)
    requires InOrder(r, us, end) && t > 0 && t + (end - r) <= U64_MAX
    requires forall i :: 0 <= i < |us| ==> us[i].read <= us[i].written
    ensures Reading(Refreshed(BootFor(t, r), us), end) == t + (end - r) - Lost(us)
    decreases |us|
  {
    if us == [] {
      ReadAfterSet(t, r, end);
    } else {
      OrderBounds(us[0].written, us[1..], end);
      ReadAfterSet(t, r, us[0].read);
      ReadAfterRefreshes(t + (us[0].read - r), us[0].written, us[1..], end);
    }
  }

  // ---- The registers ----

  class SystemTime {
    var store2: u32
    var store3: u32
    var calibration: u64
    var offsetSeconds: int
    var configured: bool

    /** The boot time held by the two registers. */
    function Boot(): u64
      reads this
    {
      store2 + store3 * U32_RANGE
    }

    constructor ()
      ensures Boot() == 0 && calibration == 0 && !configured && offsetSeconds == 0
    {
      store2, store3, calibration, offsetSeconds, configured := 0, 0, 0, 0, false;
    }

    method Configure(offset: int, cal: u32)
      modifies this
      ensures configured && calibration == cal && offsetSeconds == offset && Boot() == old(Boot())
    {
      offsetSeconds := offset;
      calibration := cal;
      configured := true;
    }

    method GetBootTimeUs() returns (r: u64)
      ensures r == Boot() == store2 as int + 0x1_0000_0000 * store3 as int
    {
      r := store2 + store3 * U32_RANGE;
    }

    method SetBootTimeUs(boot: u64)
      modifies `store2, `store3
      ensures Boot() == boot && store2 as int == boot % 0x1_0000_0000 && store3 as int == boot / 0x1_0000_0000
    {
      store2 := boot % U32_RANGE;
      store3 := boot / U32_RANGE;
    }

    /** The counter's `ticks` in microseconds. */
    method GetRtcTimeUs(ticks: u64) returns (r: u64)
      ensures r == Micros(ticks, calibration)
      ensures ticks < 0x1_0000_0000_0000 && calibration < U32_RANGE ==> r == ticks * calibration / CAL_FRACT
    {
      var low := ticks % U32_RANGE;
      var high := ticks / U32_RANGE;
      r := ((low * calibration) % U64_RANGE / CAL_FRACT
            + (high * calibration) % U64_RANGE * (U32_RANGE / CAL_FRACT) % U64_RANGE) % U64_RANGE;
      if ticks < 0x1_0000_0000_0000 && calibration < U32_RANGE {
        MicrosExact(ticks, calibration);
      }
    }

    method GetTimeUs(ticks: u64) returns (r: u64)
      ensures r == Reading(Boot(), Micros(ticks, calibration))
    {
      var rtc := GetRtcTimeUs(ticks);
      var boot := GetBootTimeUs();
      var wrapped := U64_MAX - boot;
      r := if rtc > wrapped then rtc - wrapped else boot + rtc;
    }

    method SetTimeUs(time: u64, ticks: u64)
      modifies `store2, `store3
      ensures Boot() == BootFor(time, Micros(ticks, calibration))
    {
      var rtc := GetRtcTimeUs(ticks);
      if time < rtc {
        SetBootTimeUs(U64_MAX - rtc + time);
      } else {
        SetBootTimeUs(time - rtc);
      }
    }

    /** Writes the boot time back; the counter is read once for the time and once more to set it. */
    method UpdateBoot(readTicks: u64, writeTicks: u64)
      modifies `store2, `store3
      ensures Boot() == Refreshed(old(Boot()),
          [Refresh(Micros(readTicks, calibration), Micros(writeTicks, calibration))])
    {
      ghost var u := Refresh(Micros(readTicks, calibration), Micros(writeTicks, calibration));
      var now := GetTimeUs(readTicks);
      SetTimeUs(now, writeTicks);
      assert [u][1..] == [];
    }
  }
}
