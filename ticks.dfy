/**
 * Time arithmetic of the report: libdvdnav hands out durations and chapter
 * offsets as unsigned 64-bit counts of a 90 kHz clock; the program converts
 * them to milliseconds and prints each value both as `secs.ms` and as
 * `hh:mm:ss.ms`.
 */
module Ticks {

  const TWO_64: int := 0x1_0000_0000_0000_0000

  /** The C type uint64_t. */
  type u64 = x: int | 0 <= x < TWO_64

  /** The largest tick count whose product by 100 still fits in a uint64_t. */
  const LAST_EXACT_TICKS: int := (TWO_64 - 1) / 100

  /**
   * `((d * 100) / 90) / 100` evaluated in uint64_t: the product wraps
   * modulo 2^64, both divisions are unsigned (floor) divisions.
   * The result never exceeds the exact millisecond count `d / 90`, and
   * equals it whenever `d * 100` does not wrap.
   */
  function TicksToMs(d: u64): (ms: u64)
    ensures ms <= d / 90
    ensures d <= LAST_EXACT_TICKS ==> ms == d / 90
  {
    var product: u64 := (d * 100) % TWO_64;
    NestedDivision(product, 90, 100);
    NestedDivision(d * 100, 90, 100);
    (product / 90) / 100
  }

  /** Two floor divisions in a row are one floor division by the product. */
  lemma NestedDivision(x: nat, a: nat, b: nat)
    requires a > 0 && b > 0
    ensures (x / a) / b == x / (a * b)
  {
    var q, r := x / a, x % a;
    var q2, r2 := q / b, q % b;
    MulSplit(a, b, q2, r2);
    assert x == (a * b) * q2 + (a * r2 + r);
    MulBelow(a, b, r2);
    DivisionUnique(x, a * b, q2, a * r2 + r);
  }

  /** `a * (b * q + r) == (a * b) * q + a * r`. */
  lemma MulSplit(a: int, b: int, q: int, r: int)
    ensures a * (b * q + r) == (a * b) * q + a * r
  {
    assert a * (b * q + r) == a * (b * q) + a * r;
    assert a * (b * q) == (a * b) * q;
  }

  /** `a * r + (a - 1) < a * b` for a digit `r` below `b`. */
  lemma MulBelow(a: nat, b: nat, r: nat)
    requires a > 0 && r < b
    ensures a * r + a <= a * b
  {
    assert a * (r + 1) <= a * b by {
      ProductMonotone(a, r + 1, b);
    }
    assert a * (r + 1) == a * r + a;
  }

  /** Multiplying by a natural number keeps the order. */
  lemma ProductMonotone(a: nat, u: nat, v: nat)
    requires u <= v
    ensures a * u <= a * v
  {
    assert a * v == a * u + a * (v - u);
  }

  /** Quotient and remainder are determined by `x == d * q + r` with `0 <= r < d`. */
  lemma DivisionUnique(x: int, d: int, q: int, r: int)
    requires d > 0 && 0 <= r < d && x == d * q + r
    ensures x / d == q && x % d == r
  {
    var q0, r0 := x / d, x % d;
    assert d * q0 + r0 == d * q + r;
    if q0 < q {
      assert d * (q - q0) == d * q - d * q0;
      ProductAtLeast(d, q - q0);
    } else if q0 > q {
      assert d * (q0 - q) == d * q0 - d * q;
      ProductAtLeast(d, q0 - q);
    }
  }

  /** A positive multiple of `d` is at least `d`. */
  lemma ProductAtLeast(d: nat, k: int)
    requires k >= 1
    ensures d * k >= d
  {
    assert d * k == d + d * (k - 1);
  }

  /** Below the wrap-around bound the conversion is the exact division by 90. */
  lemma TicksToMsExact(d: u64)
    requires d * 100 < TWO_64
    ensures TicksToMs(d) == d / 90
    ensures TicksToMs(d) * 90 <= d < (TicksToMs(d) + 1) * 90
  {
  }

  /** Below the wrap-around bound a later stamp never converts to fewer milliseconds. */
  lemma TicksToMsMonotone(d1: u64, d2: u64)
    requires d1 <= d2 && d2 * 100 < TWO_64
    ensures TicksToMs(d1) <= TicksToMs(d2)
  {
    TicksToMsExact(d1);
    TicksToMsExact(d2);
  }

  /**
   * Past the bound the product wraps: one more tick turns about 65 000
   * years of milliseconds into 0, so the conversion is not monotone on the
   * whole uint64_t range.
   */
  lemma TicksToMsWrapsPastBound()
    ensures LAST_EXACT_TICKS == 184467440737095516
    ensures TicksToMs(184467440737095516) == 2049638230412172
    ensures TicksToMs(184467440737095517) == 0
  {
  }

  /** A millisecond count printed as `<secs>.<ms3>`. */
  datatype Stamp = Stamp(secs: nat, millis: nat)

  /** A millisecond count printed as `<hh>:<mm>:<ss>.<ms3>`; hours are not reduced modulo 24. */
  datatype Clock = Clock(hours: nat, minutes: nat, seconds: nat, millis: nat)

  /** `duration / 1000` and `duration % 1000`. */
  function ToStamp(ms: nat): (s: Stamp)
    ensures s.millis < 1000
    ensures s.secs * 1000 + s.millis == ms
  {
    Stamp(ms / 1000, ms % 1000)
  }

  /**
   * `(d / 1000) / 3600`, `((d / 1000) / 60) % 60`, `(d / 1000) % 60` and
   * `d % 1000`: the fields are in range and put back together give `d`.
   */
  function ToClock(ms: nat): (c: Clock)
    ensures c.millis < 1000 && c.minutes < 60 && c.seconds < 60
    ensures (c.hours * 3600 + c.minutes * 60 + c.seconds) * 1000 + c.millis == ms
  {
    var s := ms / 1000;
    NestedDivision(s, 60, 60);
    Clock(s / 3600, (s / 60) % 60, s % 60, ms % 1000)
  }

  /** Both renderings of one value show the same number of whole seconds and the same milliseconds. */
  lemma {:induction false} ClockMatchesStamp(ms: nat)
    ensures ToClock(ms).hours * 3600 + ToClock(ms).minutes * 60 + ToClock(ms).seconds == ToStamp(ms).secs
    ensures ToClock(ms).millis == ToStamp(ms).millis
  {
    var c, s := ToClock(ms), ToStamp(ms);
    var hms := c.hours * 3600 + c.minutes * 60 + c.seconds;
    assert hms * 1000 + c.millis == s.secs * 1000 + s.millis;
    DivisionUnique(ms, 1000, hms, c.millis);
    DivisionUnique(ms, 1000, s.secs, s.millis);
  }

  /** The split is one-to-one: two durations with the same clock fields are equal. */
  lemma ClockInjective(ms1: nat, ms2: nat)
    requires ToClock(ms1) == ToClock(ms2)
    ensures ms1 == ms2
  {
  }
}
