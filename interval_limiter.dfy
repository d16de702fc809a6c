/**
 * `TimeIntervalLimiter`: lets an operation through at most once per window.
 *
 * The limiter keeps the time of its last granted acquisition (initially 0)
 * and grants a new one when at least `windowSizeMillis` have passed since.
 * The clock reading `System.currentTimeMillis()` becomes the parameter `now`,
 * and the compare-and-set on the atomic field, which cannot fail when one
 * thread runs alone, becomes a plain assignment. Times are Java `long`s: the
 * subtraction `now - lastTime` wraps modulo 2^64.
 */
module IntervalLimiter {

  const MinLong: int := -0x8000_0000_0000_0000
  const MaxLong: int := 0x7FFF_FFFF_FFFF_FFFF

  type Long = x: int | -0x8000_0000_0000_0000 <= x <= 0x7FFF_FFFF_FFFF_FFFF

  /** Java `long` subtraction: the exact difference reduced to 64 bits. */
  function Minus(a: Long, b: Long): (r: Long)
    ensures MinLong <= a - b <= MaxLong ==> r == a - b
    ensures (a - b - r) % 0x1_0000_0000_0000_0000 == 0
  {
    (a - b - MinLong) % 0x1_0000_0000_0000_0000 + MinLong
  }

  /** The units a window can be given in. */
  datatype TimeUnit = Nanoseconds | Microseconds | Milliseconds | Seconds | Minutes | Hours | Days

  /** Multiplication clamped to the `long` range, as `TimeUnit` conversions do. */
  function SaturatedTimes(d: Long, factor: nat): (r: Long)
    requires factor >= 1
    ensures MinLong <= d * factor <= MaxLong ==> r == d * factor
    ensures d * factor > MaxLong ==> r == MaxLong
    ensures d * factor < MinLong ==> r == MinLong
  {
    if d * factor > MaxLong then MaxLong
    else if d * factor < MinLong then MinLong
    else d * factor
  }

  /** Division truncating toward zero, as Java's `/` on `long`. */
  function TruncatedDiv(d: Long, divisor: nat): (r: Long)
    requires divisor >= 1
    ensures d >= 0 ==> 0 <= r * divisor <= d < (r + 1) * divisor
    ensures d < 0 ==> (r - 1) * divisor < d <= r * divisor <= 0
  {
    if d >= 0 then
      DivBounds(d, divisor);
      d / divisor
    else
      DivBounds(0 - d as int, divisor);
      -((0 - d as int) / divisor)
  }

  lemma DivBounds(x: nat, divisor: nat)
    requires divisor >= 1
    ensures 0 <= (x / divisor) * divisor <= x < (x / divisor + 1) * divisor
  {
    var q, m := x / divisor, x % divisor;
    assert x == divisor * q + m && 0 <= m < divisor;
    assert (q + 1) * divisor == q * divisor + divisor;
  }

  /** `timeUnit.toMillis(interval)`. */
  function ToMillis(interval: Long, unit: TimeUnit): Long
  {
    match unit
    case Nanoseconds => TruncatedDiv(interval, 1_000_000)
    case Microseconds => TruncatedDiv(interval, 1_000)
    case Milliseconds => interval
    case Seconds => SaturatedTimes(interval, 1_000)
    case Minutes => SaturatedTimes(interval, 60_000)
    case Hours => SaturatedTimes(interval, 3_600_000)
    case Days => SaturatedTimes(interval, 86_400_000)
  }

  /** The grant rule: at least a window since the last granted time. */
  predicate Grants(windowSizeMillis: Long, lastTime: Long, now: Long)
  {
    Minus(now, lastTime) >= windowSizeMillis
  }

  /**
   * With clock readings that are not negative, the wrapped difference is
   * the exact one, so the rule reads as plain arithmetic.
   */
  lemma GrantsWithoutOverflow(windowSizeMillis: Long, lastTime: Long, now: Long)
    requires lastTime >= 0 && now >= 0
    ensures Grants(windowSizeMillis, lastTime, now) <==> now - lastTime >= windowSizeMillis
  {
  }

  class Limiter {
    /** The minimum distance between two granted acquisitions; fixed at construction. */
    const windowSizeMillis: Long
    /** The time of the last granted acquisition. */
    var lastTime: Long

    constructor (interval: Long, unit: TimeUnit)
      ensures windowSizeMillis == ToMillis(interval, unit) && lastTime == 0
    {
      windowSizeMillis := ToMillis(interval, unit);
      lastTime := 0;
    }

    /** `tryAcquire()` at clock reading `now`. */
    method TryAcquire(now: Long) returns (ok: bool)
      modifies this
      ensures ok <==> Grants(windowSizeMillis, old(lastTime), now)
      ensures ok ==> lastTime == now
      ensures !ok ==> lastTime == old(lastTime)
    {
      var last := lastTime;
      ok := Minus(now, last) >= windowSizeMillis;
      if ok {
        lastTime := now;
      }
    }
  }

  /** The last granted time after a run of acquisitions at the given times. */
  function LastAfter(windowSizeMillis: Long, lastTime: Long, times: seq<Long>): Long
    decreases |times|
  {
    if times == [] then lastTime
    else if Grants(windowSizeMillis, lastTime, times[0]) then LastAfter(windowSizeMillis, times[0], times[1..])
    else LastAfter(windowSizeMillis, lastTime, times[1..])
  }

  /** The times at which acquisitions were granted, in order. */
  function GrantedTimes(windowSizeMillis: Long, lastTime: Long, times: seq<Long>): (r: seq<Long>)
    ensures forall t :: t in r ==> t in times
    decreases |times|
  {
    if times == [] then []
    else if Grants(windowSizeMillis, lastTime, times[0]) then [times[0]] + GrantedTimes(windowSizeMillis, times[0], times[1..])
    else GrantedTimes(windowSizeMillis, lastTime, times[1..])
  }

  /**
   * Drives a limiter through acquisitions at the given times and reports
   * which were granted. The limiter ends with the last granted time.
   */
  method AcquireAll(limiter: Limiter, times: seq<Long>) returns (granted: seq<bool>)
    modifies limiter
    ensures |granted| == |times|
    ensures limiter.lastTime == LastAfter(limiter.windowSizeMillis, old(limiter.lastTime), times)
    ensures Filter(times, granted) == GrantedTimes(limiter.windowSizeMillis, old(limiter.lastTime), times)
  {
    granted := [];
    var i := 0;
    while i < |times|
      invariant 0 <= i <= |times| && |granted| == i
      invariant LastAfter(limiter.windowSizeMillis, limiter.lastTime, times[i..])
             == LastAfter(limiter.windowSizeMillis, old(limiter.lastTime), times)
      invariant Filter(times[..i], granted) + GrantedTimes(limiter.windowSizeMillis, limiter.lastTime, times[i..])
             == GrantedTimes(limiter.windowSizeMillis, old(limiter.lastTime), times)
    {
      var ok := limiter.TryAcquire(times[i]);
      assert times[i..][1..] == times[i + 1..];
      FilterSnoc(times[..i], granted, times[i], ok);
      assert times[..i + 1] == times[..i] + [times[i]];
      granted := granted + [ok];
      i := i + 1;
    }
    assert times[i..] == [] && times[..i] == times;
  }

  /** The elements of xs whose flag is set. */
  function Filter<T>(xs: seq<T>, flags: seq<bool>): seq<T>
    requires |xs| == |flags|
  {
    if xs == [] then [] else (if flags[0] then [xs[0]] else []) + Filter(xs[1..], flags[1..])
  }

  lemma {:induction false} FilterSnoc<T>(xs: seq<T>, flags: seq<bool>, x: T, f: bool)
    requires |xs| == |flags|
    ensures Filter(xs + [x], flags + [f]) == Filter(xs, flags) + (if f then [x] else [])
    decreases |xs|
  {
    if xs != [] {
      assert (xs + [x])[1..] == xs[1..] + [x];
      assert (flags + [f])[1..] == flags[1..] + [f];
      FilterSnoc(xs[1..], flags[1..], x, f);
    }
  }

  /**
   * Any two consecutive granted acquisitions are at least a window apart,
   * for clock readings that are not negative.
   */
  lemma {:induction false} GrantsAreSpaced(windowSizeMillis: Long, lastTime: Long, times: seq<Long>)
    requires lastTime >= 0 && forall t :: t in times ==> t >= 0
    ensures var g := GrantedTimes(windowSizeMillis, lastTime, times);
      forall k :: 0 <= k < |g| - 1 ==> g[k + 1] - g[k] >= windowSizeMillis
    ensures var g := GrantedTimes(windowSizeMillis, lastTime, times);
      |g| > 0 ==> g[0] - lastTime >= windowSizeMillis
    decreases |times|
  {
    if times != [] {
      var t := times[0];
      assert t in times;
      assert forall u :: u in times[1..] ==> u in times;
      if Grants(windowSizeMillis, lastTime, t) {
        GrantsWithoutOverflow(windowSizeMillis, lastTime, t);
        GrantsAreSpaced(windowSizeMillis, t, times[1..]);
      } else {
        GrantsAreSpaced(windowSizeMillis, lastTime, times[1..]);
      }
    }
  }

  /** A fresh limiter grants its first acquisition exactly when `now` is at least one window. */
  lemma FirstAcquisition(windowSizeMillis: Long, now: Long)
    requires now >= 0
    ensures Grants(windowSizeMillis, 0, now) <==> now >= windowSizeMillis
  {
  }
}
