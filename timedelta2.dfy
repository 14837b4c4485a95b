/** The version-2 TimeDelta: a signed duration stored as a 128-bit count of picoseconds.
    Values are `TimeDelta`; the in-place operators (`+=`, `-=`, `*=`, `/=`, `%=`, `++`,
    `--`) act on a `MutableTimeDelta` object holding one. Operations whose int128
    result would overflow, and division or remainder by zero, are undefined in the
    library and are excluded here by preconditions. */
module TimeDelta2 {
  import opened Arith

  /** Picoseconds per unit. */
  const PS_PER_NS: int := 1000
  const PS_PER_US: int := 1000_000
  const PS_PER_MS: int := 1000_000_000
  const PS_PER_S: int := 1000_000_000_000
  const PS_PER_MIN: int := 60 * PS_PER_S
  const PS_PER_HOUR: int := 3600 * PS_PER_S
  const PS_PER_DAY: int := 86400 * PS_PER_S

  datatype TimeDelta = TimeDelta(count: Int128)

  /** The tick period of a std::chrono::duration, `std::ratio<num, den>` seconds. */
  datatype Ratio = Ratio(num: int, den: int)

  predicate ValidRatio(p: Ratio) {
    p.num > 0 && p.den > 0
  }

  const SECONDS: Ratio := Ratio(1, 1)
  const MICROS: Ratio := Ratio(1, 1000_000)
  const FEMTOS: Ratio := Ratio(1, 1000_000_000_000_000)

  /** The value `TimeDelta()`. */
  const ZERO: TimeDelta := TimeDelta(0)

  /** `min()`, `max()` and `resolution()`. */
  const MIN: TimeDelta := TimeDelta(INT128_MIN)
  const MAX: TimeDelta := TimeDelta(INT128_MAX)
  const RESOLUTION: TimeDelta := TimeDelta(1)

  // ------------------------------------------------- conversion from and to durations

  /** `std::ratio_divide<P, std::pico>` in lowest terms: a tick of period `p` is
      `num / den` picoseconds. `duration_cast` multiplies a count by `num` and then
      divides by `den` in 128-bit arithmetic, and converts the other way by the
      reciprocal. */
  function Factor(p: Ratio): (f: Ratio)
    requires ValidRatio(p)
    ensures ValidRatio(f) && Gcd(f.num, f.den) == 1
    ensures f.num * p.den == f.den * (p.num * PS_PER_S)
  {
    var a := p.num * PS_PER_S;
    var g := Gcd(a, p.den);
    DivisorAtMost(p.den, g);
    ReducedCoprime(a, p.den);
    assert a == g * (a / g) && p.den == g * (p.den / g);
    assert (a / g) * p.den == (p.den / g) * a by {
      assert (a / g) * (g * (p.den / g)) == (p.den / g) * (g * (a / g));
    }
    Ratio(a / g, p.den / g)
  }

  /** `duration_cast<Duration>` of `n` ticks of period `p`: picoseconds, truncated
      toward zero. */
  function PicosOf(n: int, p: Ratio): int
    requires ValidRatio(p)
  {
    Quot(n * p.num * PS_PER_S, p.den)
  }

  /** Computed with the factor in lowest terms, as `duration_cast` does, both
      conversions give the exact truncated quotients; so a 128-bit intermediate
      product keeps the result in range too. */
  lemma ConversionsInLowestTerms(n: int, p: Ratio)
    requires ValidRatio(p)
    ensures PicosOf(n, p) == Quot(n * Factor(p).num, Factor(p).den)
    ensures Quot(n * p.den, p.num * PS_PER_S) == Quot(n * Factor(p).den, Factor(p).num)
    ensures InInt128(n * Factor(p).num) ==> InInt128(PicosOf(n, p))
    ensures InInt128(n * Factor(p).den) ==> InInt128(Quot(n * p.den, p.num * PS_PER_S))
  {
    var a := p.num * PS_PER_S;
    var f, g := Factor(p), Gcd(a, p.den);
    assert a == g * f.num && p.den == g * f.den;
    assert n * p.num * PS_PER_S == g * (n * f.num) by {
      assert n * p.num * PS_PER_S == n * a;
      assert n * (g * f.num) == g * (n * f.num);
    }
    assert n * p.den == g * (n * f.den);
    assert n * a == g * (n * f.num);
    QuotScale(n * f.num, f.den, g);
    QuotScale(n * f.den, f.num, g);
    QuotAtMost(n * f.num, f.den);
    QuotAtMost(n * f.den, f.num);
  }

  /** `TimeDelta(duration<R, P>(n))` for an integral `R`. The product of the count
      and the factor's numerator is formed in 128 bits. */
  function FromDuration(n: int, p: Ratio): (t: TimeDelta)
    requires ValidRatio(p) && InInt128(n * Factor(p).num)
    ensures Arith.Abs(t.count) * p.den <= Arith.Abs(n * p.num * PS_PER_S)
              < (Arith.Abs(t.count) + 1) * p.den
    ensures t.count == 0 || ((t.count > 0) == (n > 0))
  {
    ConversionsInLowestTerms(n, p);
    SignOfProduct(n, p.num * PS_PER_S);
    assert n * p.num * PS_PER_S == n * (p.num * PS_PER_S);
    TimeDelta(PicosOf(n, p))
  }

  /** `duration<R, P>(t)` for an integral `R`: the tick count in periods `p`,
      truncated toward zero. The product of the count and the factor's denominator
      is formed in 128 bits. */
  function ToDuration(t: TimeDelta, p: Ratio): (n: int)
    requires ValidRatio(p) && InInt128(t.count * Factor(p).den)
    ensures Arith.Abs(n) * (p.num * PS_PER_S) <= Arith.Abs(t.count * p.den)
              < (Arith.Abs(n) + 1) * (p.num * PS_PER_S)
    ensures n == 0 || ((n > 0) == (t.count > 0))
  {
    SignOfProduct(t.count, p.den);
    Quot(t.count * p.den, p.num * PS_PER_S)
  }

  lemma SignOfProduct(n: int, k: int)
    requires k > 0
    ensures (n * k > 0) == (n > 0) && (n * k == 0) == (n == 0)
  {
    if n > 0 {
      MulMonotone(k, 1, n);
    } else if n < 0 {
      MulMonotone(k, n, -1);
    }
  }

  // ------------------------------------------------------------------- factories

  function Days(n: int): (t: TimeDelta)
    requires InInt128(n * PS_PER_DAY)
    ensures t.count == n * PS_PER_DAY
  {
    ExactScale(n, 86400, 1, PS_PER_DAY);
    FromDuration(n, Ratio(86400, 1))
  }

  function Hours(n: int): (t: TimeDelta)
    requires InInt128(n * PS_PER_HOUR)
    ensures t.count == n * PS_PER_HOUR
  {
    ExactScale(n, 3600, 1, PS_PER_HOUR);
    FromDuration(n, Ratio(3600, 1))
  }

  function Minutes(n: int): (t: TimeDelta)
    requires InInt128(n * PS_PER_MIN)
    ensures t.count == n * PS_PER_MIN
  {
    ExactScale(n, 60, 1, PS_PER_MIN);
    FromDuration(n, Ratio(60, 1))
  }

  function Seconds(n: int): (t: TimeDelta)
    requires InInt128(n * PS_PER_S)
    ensures t.count == n * PS_PER_S
  {
    ExactScale(n, 1, 1, PS_PER_S);
    FromDuration(n, Ratio(1, 1))
  }

  function Milliseconds(n: int): (t: TimeDelta)
    requires InInt128(n * PS_PER_MS)
    ensures t.count == n * PS_PER_MS
  {
    ExactScale(n, 1, 1000, PS_PER_MS);
    FromDuration(n, Ratio(1, 1000))
  }

  function Microseconds(n: int): (t: TimeDelta)
    requires InInt128(n * PS_PER_US)
    ensures t.count == n * PS_PER_US
  {
    ExactScale(n, 1, 1000_000, PS_PER_US);
    FromDuration(n, Ratio(1, 1000_000))
  }

  function Nanoseconds(n: int): (t: TimeDelta)
    requires InInt128(n * PS_PER_NS)
    ensures t.count == n * PS_PER_NS
  {
    ExactScale(n, 1, 1000_000_000, PS_PER_NS);
    FromDuration(n, Ratio(1, 1000_000_000))
  }

  function Picoseconds(n: int): (t: TimeDelta)
    requires InInt128(n)
    ensures t.count == n
  {
    ExactScale(n, 1, 1000_000_000_000, 1);
    FromDuration(n, Ratio(1, 1000_000_000_000))
  }

  /** A period that is a whole number `k` of picoseconds converts exactly. */
  lemma ExactScale(n: int, num: int, den: int, k: int)
    requires num > 0 && den > 0 && num * PS_PER_S == k * den
    ensures Factor(Ratio(num, den)) == Ratio(k, 1)
    ensures PicosOf(n, Ratio(num, den)) == n * k
  {
    FloorDivUnique(num * PS_PER_S, den, k, 0);
    GcdOfDivisor(num * PS_PER_S, den);
    assert n * num * PS_PER_S == (n * k) * den by {
      assert n * num * PS_PER_S == n * (num * PS_PER_S);
      assert n * (k * den) == (n * k) * den;
    }
    QuotOfMultiple(n * k, den);
  }

  // ------------------------------------------------------------------ arithmetic

  /** Unary `+`. */
  function Plus(t: TimeDelta): TimeDelta {
    t
  }

  /** Unary `-`. */
  function Negate(t: TimeDelta): TimeDelta
    requires t.count != INT128_MIN
  {
    TimeDelta(-t.count)
  }

  function Add(a: TimeDelta, b: TimeDelta): TimeDelta
    requires InInt128(a.count + b.count)
  {
    TimeDelta(a.count + b.count)
  }

  function Subtract(a: TimeDelta, b: TimeDelta): TimeDelta
    requires InInt128(a.count - b.count)
  {
    TimeDelta(a.count - b.count)
  }

  /** `t * k` and `k * t` for an integral scalar `k`. */
  function Multiply(t: TimeDelta, k: int): TimeDelta
    requires InInt128(t.count * k)
  {
    TimeDelta(t.count * k)
  }

  /** `t / k` for an integral scalar `k`. */
  function Divide(t: TimeDelta, k: int): TimeDelta
    requires k != 0 && InInt128(Quot(t.count, k))
  {
    TimeDelta(Quot(t.count, k))
  }

  /** `t % k` for a scalar `k`. The int128 `%` is undefined exactly where `/` is. */
  function Modulo(t: TimeDelta, k: int): TimeDelta
    requires k != 0 && InInt128(Quot(t.count, k))
  {
    TimeDelta(Rem(t.count, k))
  }

  /** `t % other`, defined as `t % other.count()`. */
  function ModuloDelta(t: TimeDelta, other: TimeDelta): TimeDelta
    requires other.count != 0 && InInt128(Quot(t.count, other.count))
  {
    Modulo(t, other.count)
  }

  // ----------------------------------------------------------------- comparisons

  predicate Less(a: TimeDelta, b: TimeDelta) {
    a.count < b.count
  }

  predicate Greater(a: TimeDelta, b: TimeDelta) {
    a.count > b.count
  }

  predicate LessEq(a: TimeDelta, b: TimeDelta) {
    !Greater(a, b)
  }

  predicate GreaterEq(a: TimeDelta, b: TimeDelta) {
    !Less(a, b)
  }

  // ------------------------------------------------------------- rounding family

  function Abs(dt: TimeDelta): (r: TimeDelta)
    requires dt.count != INT128_MIN
    ensures r.count >= 0
    ensures r == dt || r == Negate(dt)
    ensures r.count == Arith.Abs(dt.count)
  {
    if dt.count < 0 then TimeDelta(-dt.count) else dt
  }

  /** `trunc(dt, period)`: the nearest multiple of `period` toward zero. */
  function Trunc(dt: TimeDelta, period: TimeDelta): (t: TimeDelta)
    requires period.count != 0 && InInt128(Quot(dt.count, period.count))
    ensures IsMultiple(t.count, period.count)
    ensures Arith.Abs(t.count) <= Arith.Abs(dt.count)
    ensures t.count == 0 || ((t.count > 0) == (dt.count > 0))
    ensures Arith.Abs(dt.count - t.count) < Arith.Abs(period.count)
  {
    var q := Quot(dt.count, period.count);
    QuotOfMultiple(q, period.count);
    assert dt.count - Rem(dt.count, period.count) == q * period.count;
    Subtract(dt, ModuloDelta(dt, period))
  }

  /** The precondition of `floor`: a non-zero period and, where `trunc` overshoots
      (the only case in which `abs(period)` is evaluated), a period whose magnitude is
      representable and a step down by it that stays in range. */
  predicate FloorDefined(dt: TimeDelta, period: TimeDelta) {
    period.count != 0
    && InInt128(Quot(dt.count, period.count))
    && (Rem(dt.count, period.count) < 0 ==>
          period.count != INT128_MIN
          && InInt128(dt.count - Rem(dt.count, period.count) - Arith.Abs(period.count)))
  }

  /** `floor(dt, period)`: the greatest multiple of `period` not above `dt`. */
  function Floor(dt: TimeDelta, period: TimeDelta): (f: TimeDelta)
    requires FloorDefined(dt, period)
    ensures IsMultiple(f.count, period.count)
    ensures f.count <= dt.count < f.count + Arith.Abs(period.count)
  {
    var t := Trunc(dt, period);
    MultipleShift(t.count, period.count);
    if LessEq(t, dt) then t else Subtract(t, Abs(period))
  }

  /** The precondition of `ceil`: as for `floor`, with `abs(period)` evaluated only
      where `trunc` falls short. */
  predicate CeilDefined(dt: TimeDelta, period: TimeDelta) {
    period.count != 0
    && InInt128(Quot(dt.count, period.count))
    && (Rem(dt.count, period.count) > 0 ==>
          period.count != INT128_MIN
          && InInt128(dt.count - Rem(dt.count, period.count) + Arith.Abs(period.count)))
  }

  /** `ceil(dt, period)`: the least multiple of `period` not below `dt`. */
  function Ceil(dt: TimeDelta, period: TimeDelta): (c: TimeDelta)
    requires CeilDefined(dt, period)
    ensures IsMultiple(c.count, period.count)
    ensures c.count - Arith.Abs(period.count) < dt.count <= c.count
  {
    var t := Trunc(dt, period);
    MultipleShift(t.count, period.count);
    if GreaterEq(t, dt) then t else Add(t, Abs(period))
  }

  /** The precondition of `round`, which always evaluates `abs(period)`. */
  predicate RoundDefined(dt: TimeDelta, period: TimeDelta) {
    period.count != INT128_MIN && FloorDefined(dt, period)
    && InInt128(Floor(dt, period).count + Arith.Abs(period.count))
  }

  /** `round(dt, period)`: the nearer of the two multiples of `period` around `dt`;
      at an exact tie, the even multiple. */
  function Round(dt: TimeDelta, period: TimeDelta): (r: TimeDelta)
    requires RoundDefined(dt, period)
    ensures IsMultiple(r.count, period.count)
    ensures r == Floor(dt, period) || r.count == Floor(dt, period).count + Arith.Abs(period.count)
    ensures 2 * Arith.Abs(dt.count - r.count) <= Arith.Abs(period.count)
    ensures 2 * Arith.Abs(dt.count - r.count) == Arith.Abs(period.count) ==>
              Quot(r.count, period.count) % 2 == 0
  {
    var lower := Floor(dt, period);
    var upper := Add(lower, Abs(period));
    RoundOperands(dt, period);
    var lowerDiff := Subtract(dt, lower);
    var upperDiff := Subtract(upper, dt);
    var r :=
      if Less(lowerDiff, upperDiff) then lower
      else if Less(upperDiff, lowerDiff) then upper
      else if Quot(lower.count, period.count) % 2 == 1 then upper
      else lower;
    RoundNearest(dt.count, lower.count, period.count, r.count);
    r
  }

  /** The multiple `round` picks around `x`, from the multiple `lo` just below it and
      the next one up, is a multiple within half a period of `x`, and an even one at a
      tie. */
  lemma RoundNearest(x: int, lo: int, p: int, r: int)
    requires p != 0 && IsMultiple(lo, p) && lo <= x < lo + Arith.Abs(p)
    requires var P := Arith.Abs(p);
      r == (if x - lo < lo + P - x then lo
            else if lo + P - x < x - lo then lo + P
            else if Quot(lo, p) % 2 == 1 then lo + P else lo)
    ensures IsMultiple(r, p) && (r == lo || r == lo + Arith.Abs(p))
    ensures 2 * Arith.Abs(x - r) <= Arith.Abs(p)
    ensures 2 * Arith.Abs(x - r) == Arith.Abs(p) ==> Quot(r, p) % 2 == 0
  {
    MultipleShift(lo, p);
    ParityStep(Quot(lo, p), if p > 0 then 1 else -1);
    RoundPick(x, lo, Arith.Abs(p), Quot(lo, p) % 2 == 1, r);
  }

  /** The two distances `round` compares are within the 128-bit range. */
  lemma RoundOperands(dt: TimeDelta, period: TimeDelta)
    requires RoundDefined(dt, period)
    ensures var lo := Floor(dt, period).count;
      InInt128(dt.count - lo) && InInt128(lo + Arith.Abs(period.count) - dt.count)
  {
  }

  /** Picking the nearer of `lo` and `lo + P` around `x`, and at a tie `lo + P` exactly
      when `odd`, lands within half of `P` of `x`. */
  lemma RoundPick(x: int, lo: int, P: int, odd: bool, r: int)
    requires P > 0 && lo <= x < lo + P
    requires r == (if x - lo < lo + P - x then lo
                   else if lo + P - x < x - lo then lo + P
                   else if odd then lo + P else lo)
    ensures r == lo || r == lo + P
    ensures 2 * Arith.Abs(x - r) <= P
    ensures 2 * Arith.Abs(x - r) == P ==> (r == lo + P <==> odd)
  {
  }

  /** One step away from an odd number is even. */
  lemma ParityStep(q: int, s: int)
    requires s == 1 || s == -1
    ensures q % 2 == 1 ==> (q + s) % 2 == 0
    ensures q % 2 != 1 ==> q % 2 == 0
  {
    FloorDivStep(q - 1, 2);
    FloorDivStep(q, 2);
  }

  // ------------------------------------------------------ in-place operators

  /** A TimeDelta object, whose compound assignments and increments change its
      tick count in place. */
  class MutableTimeDelta {
    var duration: TimeDelta

    constructor(d: TimeDelta)
      ensures duration == d
    {
      duration := d;
    }

    /** `++dt`: returns the incremented value. */
    method PreIncrement() returns (r: TimeDelta)
      requires InInt128(duration.count + 1)
      modifies this
      ensures duration.count == old(duration.count) + 1 && r == duration
    {
      duration := TimeDelta(duration.count + 1);
      r := duration;
    }

    /** `dt++`: returns the value before the increment. */
    method PostIncrement() returns (r: TimeDelta)
      requires InInt128(duration.count + 1)
      modifies this
      ensures duration.count == old(duration.count) + 1 && r == old(duration)
    {
      r := duration;
      duration := TimeDelta(duration.count + 1);
    }

    /** `--dt`: returns the decremented value. */
    method PreDecrement() returns (r: TimeDelta)
      requires InInt128(duration.count - 1)
      modifies this
      ensures duration.count == old(duration.count) - 1 && r == duration
    {
      duration := TimeDelta(duration.count - 1);
      r := duration;
    }

    /** `dt--`: returns the value before the decrement. */
    method PostDecrement() returns (r: TimeDelta)
      requires InInt128(duration.count - 1)
      modifies this
      ensures duration.count == old(duration.count) - 1 && r == old(duration)
    {
      r := duration;
      duration := TimeDelta(duration.count - 1);
    }

    /** `dt += other`. */
    method AddAssign(other: TimeDelta)
      requires InInt128(duration.count + other.count)
      modifies this
      ensures duration == Add(old(duration), other)
    {
      duration := TimeDelta(duration.count + other.count);
    }

    /** `dt -= other`. */
    method SubtractAssign(other: TimeDelta)
      requires InInt128(duration.count - other.count)
      modifies this
      ensures duration == Subtract(old(duration), other)
    {
      duration := TimeDelta(duration.count - other.count);
    }

    /** `dt *= k` for an integral scalar `k`. */
    method MultiplyAssign(k: int)
      requires InInt128(duration.count * k)
      modifies this
      ensures duration == Multiply(old(duration), k)
    {
      duration := TimeDelta(duration.count * k);
    }

    /** `dt /= k` for an integral scalar `k`. */
    method DivideAssign(k: int)
      requires k != 0 && InInt128(Quot(duration.count, k))
      modifies this
      ensures duration == Divide(old(duration), k)
    {
      duration := TimeDelta(Quot(duration.count, k));
    }

    /** `dt %= k`. */
    method ModuloAssign(k: int)
      requires k != 0 && InInt128(Quot(duration.count, k))
      modifies this
      ensures duration == Modulo(old(duration), k)
    {
      duration := TimeDelta(Rem(duration.count, k));
    }

    /** `dt %= other`. */
    method ModuloDeltaAssign(other: TimeDelta)
      requires other.count != 0 && InInt128(Quot(duration.count, other.count))
      modifies this
      ensures duration == ModuloDelta(old(duration), other)
    {
      duration := TimeDelta(Rem(duration.count, other.count));
    }
  }

  // ------------------------------------------------------------------ lemmas

  /** The default value, the resolution, and the extreme values: `min()` and `max()`
      hold the least and the greatest 128-bit counts, so every TimeDelta lies between
      them. */
  lemma Constants()
    ensures ZERO.count == 0 && RESOLUTION == Picoseconds(1)
    ensures MIN.count == INT128_MIN && MAX.count == INT128_MAX
  {
  }

  /** Converting to a duration with a period that is a whole number of picoseconds
      and back is exact. */
  lemma DurationRoundTrip(n: int, p: Ratio)
    requires ValidRatio(p) && IsMultiple(p.num * PS_PER_S, p.den)
    requires InInt128(n * Factor(p).num)
    ensures Factor(p).den == 1 && ToDuration(FromDuration(n, p), p) == n
  {
    var big := p.num * PS_PER_S;
    var k := Quot(big, p.den);
    assert big == p.den * k;
    ExactScale(n, p.num, p.den, k);
    Reassociate(n, p.num, PS_PER_S, p.den, k);
    QuotOfMultiple(n * k, p.den);
    assert FromDuration(n, p).count == n * k;
    QuotOfMultiple(n, big);
  }

  lemma Reassociate(n: int, a: int, b: int, d: int, k: int)
    requires a * b == d * k
    ensures n * a * b == (n * k) * d && (n * k) * d == n * (a * b)
  {
    assert n * a * b == n * (a * b);
    assert n * (d * k) == (n * k) * d;
  }

  /** Sub-picosecond inputs truncate toward zero; microseconds convert both ways
      exactly; `max()` in femtoseconds overflows the 128-bit intermediate product. */
  lemma ConversionExamples()
    ensures Factor(FEMTOS) == Ratio(1, 1000) && Factor(MICROS) == Ratio(1000_000, 1)
    ensures FromDuration(999, FEMTOS).count == 0
    ensures FromDuration(-999, FEMTOS).count == 0
    ensures FromDuration(123456, MICROS).count == 123456 * PS_PER_US
    ensures ToDuration(FromDuration(123456, MICROS), MICROS) == 123456
    ensures !InInt128(MAX.count * Factor(FEMTOS).den)
  {
    assert Gcd(PS_PER_S, 1000_000_000_000_000) == Gcd(1000_000_000_000_000, PS_PER_S);
    assert Gcd(1000_000_000_000_000, PS_PER_S) == Gcd(PS_PER_S, 0);
    ExactScale(123456, 1, 1000_000, PS_PER_US);
    DurationRoundTrip(123456, MICROS);
  }

  /** Unary minus is an involution; unary plus changes nothing. */
  lemma NegateInvolution(t: TimeDelta)
    requires t.count != INT128_MIN
    ensures Negate(t).count != INT128_MIN && Negate(Negate(t)) == t
    ensures Plus(t) == t
  {
  }

  /** Addition is commutative with identity zero, and subtraction undoes it. */
  lemma AddLaws(a: TimeDelta, b: TimeDelta)
    requires InInt128(a.count + b.count)
    ensures Add(a, b) == Add(b, a)
    ensures Add(a, ZERO) == a
    ensures InInt128(Add(a, b).count - b.count) && Subtract(Add(a, b), b) == a
  {
  }

  /** The difference of two values, added back to the subtrahend, gives the minuend. */
  lemma SubtractLaws(a: TimeDelta, b: TimeDelta)
    requires InInt128(b.count - a.count)
    ensures Subtract(b, a).count == b.count - a.count
    ensures InInt128(Subtract(b, a).count + a.count) && Add(Subtract(b, a), a) == b
  {
  }

  /** Division truncates toward zero, undoes multiplication, and the remainder
      completes it: `(t / k) * k + t % k == t`, with the remainder smaller than `k`
      and of the sign of `t`. */
  lemma DivideModuloLaws(t: TimeDelta, k: int)
    requires k != 0 && InInt128(Quot(t.count, k))
    ensures Arith.Abs(Divide(t, k).count) * Arith.Abs(k) <= Arith.Abs(t.count)
    ensures Divide(t, k).count * k + Modulo(t, k).count == t.count
    ensures Arith.Abs(Modulo(t, k).count) < Arith.Abs(k)
    ensures Modulo(t, k).count == 0 || ((Modulo(t, k).count > 0) == (t.count > 0))
  {
  }

  lemma MultiplyThenDivide(a: TimeDelta, k: int)
    requires k != 0 && InInt128(a.count * k)
    ensures InInt128(Quot(Multiply(a, k).count, k)) && Divide(Multiply(a, k), k) == a
  {
    QuotOfMultiple(a.count, k);
  }

  /** `dt % other` and `dt % other.count()` agree, and so do their compound forms. */
  lemma ModuloDeltaIsModuloCount(t: TimeDelta, other: TimeDelta)
    requires other.count != 0 && InInt128(Quot(t.count, other.count))
    ensures ModuloDelta(t, other).count == t.count - other.count * Quot(t.count, other.count)
  {
  }

  /** The comparisons are the total order on tick counts. */
  lemma ComparisonLaws(a: TimeDelta, b: TimeDelta)
    ensures Less(a, b) <==> a.count < b.count
    ensures Greater(a, b) <==> Less(b, a)
    ensures LessEq(a, b) <==> (Less(a, b) || a == b)
    ensures GreaterEq(a, b) <==> (Greater(a, b) || a == b)
    ensures (if Less(a, b) then 1 else 0) + (if a == b then 1 else 0) + (if Greater(a, b) then 1 else 0) == 1
  {
  }

  /** `floor` gives the greatest multiple not above `dt`. */
  lemma FloorIsGreatest(dt: TimeDelta, period: TimeDelta, m: int)
    requires FloorDefined(dt, period)
    requires IsMultiple(m, period.count) && m <= dt.count
    ensures m <= Floor(dt, period).count
  {
    var f := Floor(dt, period).count;
    if f < m {
      MultipleGap(f, m, period.count);
      assert false;
    }
  }

  /** `ceil` gives the least multiple not below `dt`. */
  lemma CeilIsLeast(dt: TimeDelta, period: TimeDelta, m: int)
    requires CeilDefined(dt, period)
    requires IsMultiple(m, period.count) && dt.count <= m
    ensures Ceil(dt, period).count <= m
  {
    var c := Ceil(dt, period).count;
    if m < c {
      MultipleGap(m, c, period.count);
      assert false;
    }
  }

  /** No multiple of the period is nearer to `dt` than `round(dt, period)`. */
  lemma RoundIsNearest(dt: TimeDelta, period: TimeDelta, m: int)
    requires RoundDefined(dt, period)
    requires IsMultiple(m, period.count)
    ensures Arith.Abs(dt.count - Round(dt, period).count) <= Arith.Abs(dt.count - m)
  {
    NearestAmongMultiples(dt.count, Floor(dt, period).count, period.count, m,
                          Round(dt, period).count);
  }

  /** Within half a period of `x`, and one of the multiples `f` and `f + |p|` around it,
      is at least as near as any multiple of `p`. */
  lemma NearestAmongMultiples(x: int, f: int, p: int, m: int, r: int)
    requires p != 0 && IsMultiple(f, p) && IsMultiple(m, p)
    requires f <= x < f + Arith.Abs(p)
    requires (r == f || r == f + Arith.Abs(p)) && 2 * Arith.Abs(x - r) <= Arith.Abs(p)
    ensures Arith.Abs(x - r) <= Arith.Abs(x - m)
  {
    var P := Arith.Abs(p);
    if m < f {
      MultipleGap(m, f, p);
    } else if f < m {
      MultipleGap(f, m, p);
      if m != f + P {
        MultipleShift(f, p);
        MultipleGap(f + P, m, p);
      }
    }
  }

  /** With `min()` as the period, `floor` of a non-negative and `ceil` of a
      non-positive value need no `abs(period)`: 5 ps and -5 ps both go to zero. */
  lemma MinPeriodExamples()
    ensures FloorDefined(Picoseconds(5), MIN) && Floor(Picoseconds(5), MIN) == ZERO
    ensures CeilDefined(Picoseconds(-5), MIN) && Ceil(Picoseconds(-5), MIN) == ZERO
  {
    QuotUnique(5, INT128_MIN, 0, 5);
    QuotUnique(-5, INT128_MIN, 0, -5);
  }

  /** The worked examples of `trunc`, `floor` and `ceil`. */
  lemma TruncFloorCeilExamples()
    ensures Trunc(Milliseconds(2500), Seconds(1)) == Seconds(2)
    ensures Trunc(Milliseconds(-2500), Seconds(1)) == Seconds(-2)
    ensures Floor(Milliseconds(2500), Seconds(1)) == Seconds(2)
    ensures Floor(Milliseconds(-2500), Seconds(1)) == Seconds(-3)
    ensures Ceil(Milliseconds(2500), Seconds(1)) == Seconds(3)
    ensures Ceil(Milliseconds(-2500), Seconds(1)) == Seconds(-2)
  {
    QuotUnique(2500 * PS_PER_MS, PS_PER_S, 2, 500 * PS_PER_MS);
    QuotUnique(-2500 * PS_PER_MS, PS_PER_S, -2, -500 * PS_PER_MS);
  }

  /** For a positive period, `floor` of `w` periods and `r` more is `w` periods. */
  lemma FloorOfPositivePeriod(dt: TimeDelta, period: TimeDelta, w: int, r: int)
    requires period.count > 0 && FloorDefined(dt, period)
    requires dt.count == w * period.count + r && 0 <= r < period.count
    ensures Floor(dt, period).count == w * period.count
  {
    var f := Floor(dt, period).count;
    QuotOfMultiple(w, period.count);
    assert IsMultiple(w * period.count, period.count);
    if f < w * period.count {
      MultipleGap(f, w * period.count, period.count);
    } else if f > w * period.count {
      MultipleGap(w * period.count, f, period.count);
    }
  }

  /** `round` to a positive period, for `w` periods and a remainder `r`: down below half
      a period, up above it, and at exactly half to the even one of `w` and `w + 1`. */
  lemma RoundOfPositivePeriod(dt: TimeDelta, period: TimeDelta, w: int, r: int)
    requires period.count > 0 && RoundDefined(dt, period)
    requires dt.count == w * period.count + r && 0 <= r < period.count
    ensures Round(dt, period).count ==
      (if 2 * r < period.count then w
       else if 2 * r > period.count then w + 1
       else if w % 2 == 1 then w + 1
       else w) * period.count
  {
    var p := period.count;
    FloorOfPositivePeriod(dt, period, w, r);
    QuotOfMultiple(w, p);
    assert (w + 1) * p == w * p + p;
  }

  /** 2.499 s, 2.501 s, 2.5 s and 3.5 s rounded to whole seconds. */
  lemma RoundExamples()
    ensures RoundDefined(Milliseconds(2499), Seconds(1))
              && Round(Milliseconds(2499), Seconds(1)) == Seconds(2)
    ensures RoundDefined(Milliseconds(2501), Seconds(1))
              && Round(Milliseconds(2501), Seconds(1)) == Seconds(3)
    ensures RoundDefined(Milliseconds(2500), Seconds(1))
              && Round(Milliseconds(2500), Seconds(1)) == Seconds(2)
    ensures RoundDefined(Milliseconds(3500), Seconds(1))
              && Round(Milliseconds(3500), Seconds(1)) == Seconds(4)
  {
    RoundExample(2, 499);
    RoundExample(2, 501);
    RoundExample(2, 500);
    RoundExample(3, 500);
  }

  /** `round` of `whole` seconds plus `frac` milliseconds to whole seconds. */
  lemma RoundExample(whole: int, frac: int)
    requires 0 <= whole < 10 && 0 <= frac < 1000
    ensures RoundDefined(Milliseconds(1000 * whole + frac), Seconds(1))
    ensures Round(Milliseconds(1000 * whole + frac), Seconds(1)).count ==
      (if 2 * frac < 1000 then whole
       else if 2 * frac > 1000 then whole + 1
       else if whole % 2 == 1 then whole + 1
       else whole) * PS_PER_S
  {
    var dt := Milliseconds(1000 * whole + frac);
    var r := frac * PS_PER_MS;
    assert dt.count == whole * PS_PER_S + r;
    QuotUnique(dt.count, PS_PER_S, whole, r);
    assert FloorDefined(dt, Seconds(1));
    FloorOfPositivePeriod(dt, Seconds(1), whole, r);
    assert RoundDefined(dt, Seconds(1));
    RoundOfPositivePeriod(dt, Seconds(1), whole, r);
  }
}
