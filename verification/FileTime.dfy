/** FILETIME (100 ns ticks since 1601, in two 32-bit halves) and time_t (seconds since 1970), in 64-bit arithmetic. */
module FileTime {
  import opened Bytes

  const FILETIME_TICKS_PER_SECOND: int := 10000000
  const FILETIME_AT_UNIX_EPOCH: int := 116444736000000000
  const TWO_63: int := 0x8000_0000_0000_0000
  const TWO_64: int := 0x1_0000_0000_0000_0000

  type u64 = v: int | 0 <= v < 0x1_0000_0000_0000_0000
  type time_t = t: int | -0x8000_0000_0000_0000 <= t < 0x8000_0000_0000_0000

  datatype FILETIME = FILETIME(dwLowDateTime: u32, dwHighDateTime: u32)

  /** Conversion to an unsigned 64-bit integer wraps around. */
  function ToU64(v: int): u64 {
    v % TWO_64
  }

  /** Conversion to a signed 64-bit integer wraps around. */
  function ToI64(v: u64): time_t {
    if v < TWO_63 then v else v - TWO_64
  }

  function Ticks(ft: FILETIME): u64 {
    ft.dwHighDateTime as int * TWO_32 + ft.dwLowDateTime
  }

  function OfTicks(ticks: u64): FILETIME {
    FILETIME(ticks % TWO_32, ticks / TWO_32)
  }

  lemma TicksOfTicks(ticks: u64)
    ensures Ticks(OfTicks(ticks)) == ticks
  {
  }

  /** Every product and sum is taken modulo 2^64. */
  function TimeToFileTime(t: time_t): FILETIME {
    OfTicks(ToU64(FILETIME_AT_UNIX_EPOCH + ToU64(ToU64(t) * FILETIME_TICKS_PER_SECOND)))
  }

  /** A zero FILETIME means "unknown" and reads as 0. */
  function FileTimeToTime(ft: FILETIME): time_t {
    if ft.dwLowDateTime == 0 && ft.dwHighDateTime == 0 then 0
    else
      var ticks := Ticks(ft);
      if ticks < FILETIME_AT_UNIX_EPOCH then
        -ToI64(ToU64(FILETIME_AT_UNIX_EPOCH - ticks) / FILETIME_TICKS_PER_SECOND)
      else
        ToI64(ToU64(ticks - FILETIME_AT_UNIX_EPOCH) / FILETIME_TICKS_PER_SECOND)
  }

  /** The guard of the "set time" entry point. */
  predicate IsUnsetFileTime(ft: FILETIME) {
    ft.dwLowDateTime == 0 && ft.dwHighDateTime == 0
  }

  /** The exact tick count of a time. */
  function ExactTicks(t: int): int {
    FILETIME_AT_UNIX_EPOCH + t * FILETIME_TICKS_PER_SECOND
  }

  lemma WrappedTicks(t: time_t)
    ensures Ticks(TimeToFileTime(t)) == ToU64(ExactTicks(t))
  {
    var m := FILETIME_TICKS_PER_SECOND;
    var k := if t < 0 then 1 else 0;
    assert ToU64(t) == t + k * TWO_64;
    ModShift(t * m, k * m);
    assert (t + k * TWO_64) * m == t * m + (k * m) * TWO_64;
    ModSum(FILETIME_AT_UNIX_EPOCH, t * m);
    TicksOfTicks(ToU64(ExactTicks(t)));
  }

  lemma ModShift(a: int, k: int)
    ensures (a + k * TWO_64) % TWO_64 == a % TWO_64
  {
    var q, r := a / TWO_64, a % TWO_64;
    assert a + k * TWO_64 == (q + k) * TWO_64 + r;
    assert ((q + k) * TWO_64 + r) / TWO_64 == q + k;
  }

  lemma ModSum(a: int, b: int)
    ensures (a + b % TWO_64) % TWO_64 == (a + b) % TWO_64
  {
    var q := b / TWO_64;
    assert b == q * TWO_64 + b % TWO_64;
    ModShift(a + b % TWO_64, q);
  }

  predicate Representable(t: int) {
    -11644473600 < t <= 1833029933770
  }

  /** A time survives exactly when its tick count is positive and fits 64 bits; every other time_t comes back
      changed. The single time whose tick count is 0 reads as "unknown". */
  lemma TimeRoundTrip(t: time_t)
    ensures FileTimeToTime(TimeToFileTime(t)) == t <==> Representable(t)
  {
    WrappedTicks(t);
    var ticks := ToU64(ExactTicks(t));
    if 0 <= ExactTicks(t) < TWO_64 {
      assert ticks == ExactTicks(t);
      if t < 0 {
        assert (FILETIME_AT_UNIX_EPOCH - ticks) / FILETIME_TICKS_PER_SECOND == -t;
      } else {
        assert (ticks - FILETIME_AT_UNIX_EPOCH) / FILETIME_TICKS_PER_SECOND == t;
      }
    }
  }

  /** Re-encoding the time of any set FILETIME lands between it and 1970, less than a second away. */
  lemma FileTimeRoundTrip(ft: FILETIME)
    requires !IsUnsetFileTime(ft)
    ensures var ticks, again := Ticks(ft), Ticks(TimeToFileTime(FileTimeToTime(ft)));
      if ticks < FILETIME_AT_UNIX_EPOCH then ticks <= again <= FILETIME_AT_UNIX_EPOCH && again - ticks < FILETIME_TICKS_PER_SECOND
      else FILETIME_AT_UNIX_EPOCH <= again <= ticks && ticks - again < FILETIME_TICKS_PER_SECOND
  {
    hide TimeToFileTime, ToU64;
    var t := FileTimeToTime(ft);
    TruncatedSeconds(ft);
    WrappedTicks(t);
    NoWrap(ExactTicks(t));
  }

  lemma NoWrap(v: int)
    ensures 0 <= v < TWO_64 ==> ToU64(v) == v
  {
  }

  lemma WholeSeconds(n: nat)
    requires n < TWO_64
    ensures var s := ToU64(n) / FILETIME_TICKS_PER_SECOND;
      ToI64(s) == s && s * FILETIME_TICKS_PER_SECOND <= n < s * FILETIME_TICKS_PER_SECOND + FILETIME_TICKS_PER_SECOND
  {
    NoWrap(n);
  }

  /** The time of a set FILETIME is cut to whole seconds, towards 1970. */
  lemma TruncatedSeconds(ft: FILETIME)
    requires !IsUnsetFileTime(ft)
    ensures var ticks, exact := Ticks(ft), ExactTicks(FileTimeToTime(ft));
      if ticks < FILETIME_AT_UNIX_EPOCH then ticks <= exact <= FILETIME_AT_UNIX_EPOCH && exact - ticks < FILETIME_TICKS_PER_SECOND
      else FILETIME_AT_UNIX_EPOCH <= exact <= ticks && ticks - exact < FILETIME_TICKS_PER_SECOND
  {
    hide ToU64, ToI64;
    if Ticks(ft) < FILETIME_AT_UNIX_EPOCH {
      WholeSeconds(FILETIME_AT_UNIX_EPOCH - Ticks(ft));
    } else {
      WholeSeconds(Ticks(ft) - FILETIME_AT_UNIX_EPOCH);
    }
  }

  /** Distinct representable times have distinct FILETIMEs. */
  lemma TimeToFileTimeInjective(t: time_t, u: time_t)
    requires Representable(t) && Representable(u) && TimeToFileTime(t) == TimeToFileTime(u)
    ensures t == u
  {
    TimeRoundTrip(t);
    TimeRoundTrip(u);
  }
}
