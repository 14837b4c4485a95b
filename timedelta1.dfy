/** The version-1 TimeDelta: the same 128-bit picosecond tick count as version 2, with
    only integral scalars for `*=`, `/=` and `%=`. Each operation is written as the
    version-1 code computes it and is proved to agree with the version-2 operation, so
    the laws proved there carry over; the laws the version-1 interface promises are
    restated for it at the end. */
module TimeDelta1 {
  import opened Arith
  import V2 = TimeDelta2

  datatype TimeDelta = TimeDelta(count: Int128)

  /** The same tick count as a version-2 value. */
  function ToV2(t: TimeDelta): V2.TimeDelta {
    V2.TimeDelta(t.count)
  }

  /** `TimeDelta()`, `min()`, `max()` and `resolution()`. */
  const ZERO: TimeDelta := TimeDelta(0)
  const MIN: TimeDelta := TimeDelta(INT128_MIN)
  const MAX: TimeDelta := TimeDelta(INT128_MAX)
  const RESOLUTION: TimeDelta := TimeDelta(1)

  // ------------------------------------------------- conversion from and to durations

  /** `TimeDelta(duration<FromRep, FromPeriod>(n))` for an integral `FromRep`: the
      `duration_cast` to picoseconds, truncating toward zero. */
  function FromDuration(n: int, p: V2.Ratio): (t: TimeDelta)
    requires V2.ValidRatio(p) && InInt128(n * V2.Factor(p).num)
    ensures ToV2(t) == V2.FromDuration(n, p)
  {
    V2.ConversionsInLowestTerms(n, p);
    TimeDelta(Quot(n * p.num * V2.PS_PER_S, p.den))
  }

  /** `duration<ToRep, ToPeriod>(t)` for an integral `ToRep`. */
  function ToDuration(t: TimeDelta, p: V2.Ratio): (n: int)
    requires V2.ValidRatio(p) && InInt128(t.count * V2.Factor(p).den)
    ensures n == V2.ToDuration(ToV2(t), p)
  {
    Quot(t.count * p.den, p.num * V2.PS_PER_S)
  }

  // ------------------------------------------------------------------- factories

  function Days(n: int): (t: TimeDelta)
    requires InInt128(n * V2.PS_PER_DAY)
    ensures ToV2(t) == V2.Days(n)
  {
    V2.ExactScale(n, 86400, 1, V2.PS_PER_DAY);
    FromDuration(n, V2.Ratio(86400, 1))
  }

  function Hours(n: int): (t: TimeDelta)
    requires InInt128(n * V2.PS_PER_HOUR)
    ensures ToV2(t) == V2.Hours(n)
  {
    V2.ExactScale(n, 3600, 1, V2.PS_PER_HOUR);
    FromDuration(n, V2.Ratio(3600, 1))
  }

  function Minutes(n: int): (t: TimeDelta)
    requires InInt128(n * V2.PS_PER_MIN)
    ensures ToV2(t) == V2.Minutes(n)
  {
    V2.ExactScale(n, 60, 1, V2.PS_PER_MIN);
    FromDuration(n, V2.Ratio(60, 1))
  }

  function Seconds(n: int): (t: TimeDelta)
    requires InInt128(n * V2.PS_PER_S)
    ensures ToV2(t) == V2.Seconds(n)
  {
    V2.ExactScale(n, 1, 1, V2.PS_PER_S);
    FromDuration(n, V2.SECONDS)
  }

  function Milliseconds(n: int): (t: TimeDelta)
    requires InInt128(n * V2.PS_PER_MS)
    ensures ToV2(t) == V2.Milliseconds(n)
  {
    V2.ExactScale(n, 1, 1000, V2.PS_PER_MS);
    FromDuration(n, V2.Ratio(1, 1000))
  }

  function Microseconds(n: int): (t: TimeDelta)
    requires InInt128(n * V2.PS_PER_US)
    ensures ToV2(t) == V2.Microseconds(n)
  {
    V2.ExactScale(n, 1, 1000_000, V2.PS_PER_US);
    FromDuration(n, V2.MICROS)
  }

  function Nanoseconds(n: int): (t: TimeDelta)
    requires InInt128(n * V2.PS_PER_NS)
    ensures ToV2(t) == V2.Nanoseconds(n)
  {
    V2.ExactScale(n, 1, 1000_000_000, V2.PS_PER_NS);
    FromDuration(n, V2.Ratio(1, 1000_000_000))
  }

  function Picoseconds(n: int): (t: TimeDelta)
    requires InInt128(n)
    ensures ToV2(t) == V2.Picoseconds(n)
  {
    V2.ExactScale(n, 1, 1000_000_000_000, 1);
    FromDuration(n, V2.Ratio(1, 1000_000_000_000))
  }

  // ------------------------------------------------------------------ arithmetic

  /** Unary `+`: a copy. */
  function Plus(t: TimeDelta): (r: TimeDelta)
    ensures ToV2(r) == V2.Plus(ToV2(t))
  {
    t
  }

  /** Unary `-`: `TimeDelta(-duration_)`. */
  function Negate(t: TimeDelta): (r: TimeDelta)
    requires t.count != INT128_MIN
    ensures ToV2(r) == V2.Negate(ToV2(t))
  {
    TimeDelta(-t.count)
  }

  /** `lhs + rhs`: a copy of `lhs`, then `+= rhs`. */
  function Add(a: TimeDelta, b: TimeDelta): (r: TimeDelta)
    requires InInt128(a.count + b.count)
    ensures ToV2(r) == V2.Add(ToV2(a), ToV2(b))
  {
    TimeDelta(a.count + b.count)
  }

  function Subtract(a: TimeDelta, b: TimeDelta): (r: TimeDelta)
    requires InInt128(a.count - b.count)
    ensures ToV2(r) == V2.Subtract(ToV2(a), ToV2(b))
  {
    TimeDelta(a.count - b.count)
  }

  /** `lhs * rhs` and `rhs * lhs` for an integral `Rep` scalar. */
  function Multiply(t: TimeDelta, k: int): (r: TimeDelta)
    requires InInt128(t.count * k)
    ensures ToV2(r) == V2.Multiply(ToV2(t), k)
  {
    TimeDelta(t.count * k)
  }

  /** `lhs / rhs` for an integral `Rep` scalar, truncating toward zero. */
  function Divide(t: TimeDelta, k: int): (r: TimeDelta)
    requires k != 0 && InInt128(Quot(t.count, k))
    ensures ToV2(r) == V2.Divide(ToV2(t), k)
  {
    TimeDelta(Quot(t.count, k))
  }

  /** `lhs % rhs` for an integral `Rep` scalar. */
  function Modulo(t: TimeDelta, k: int): (r: TimeDelta)
    requires k != 0 && InInt128(Quot(t.count, k))
    ensures ToV2(r) == V2.Modulo(ToV2(t), k)
  {
    TimeDelta(Rem(t.count, k))
  }

  /** `lhs % rhs` for a TimeDelta `rhs`: `lhs % rhs.count()`. */
  function ModuloDelta(t: TimeDelta, other: TimeDelta): (r: TimeDelta)
    requires other.count != 0 && InInt128(Quot(t.count, other.count))
    ensures ToV2(r) == V2.ModuloDelta(ToV2(t), ToV2(other))
  {
    Modulo(t, other.count)
  }

  // ----------------------------------------------------------------- comparisons

  predicate Less(a: TimeDelta, b: TimeDelta) {
    a.count < b.count
  }

  predicate Greater(a: TimeDelta, b: TimeDelta) {
    a.count > b.count
  }

  /** `<=` is `not (lhs > rhs)`. */
  predicate LessEq(a: TimeDelta, b: TimeDelta) {
    !Greater(a, b)
  }

  /** `>=` is `not (lhs < rhs)`. */
  predicate GreaterEq(a: TimeDelta, b: TimeDelta) {
    !Less(a, b)
  }

  // ------------------------------------------------------------- rounding family

  /** `abs(dt)`: `std::chrono::abs` of the duration. */
  function Abs(dt: TimeDelta): (r: TimeDelta)
    requires dt.count != INT128_MIN
    ensures ToV2(r) == V2.Abs(ToV2(dt))
  {
    if dt.count >= 0 then dt else TimeDelta(-dt.count)
  }

  /** `trunc(dt, period)`: `dt - (dt % period)`. */
  function Trunc(dt: TimeDelta, period: TimeDelta): (t: TimeDelta)
    requires period.count != 0 && InInt128(Quot(dt.count, period.count))
    ensures ToV2(t) == V2.Trunc(ToV2(dt), ToV2(period))
  {
    assert V2.Trunc(ToV2(dt), ToV2(period)).count == dt.count - Rem(dt.count, period.count);
    Subtract(dt, ModuloDelta(dt, period))
  }

  /** `floor(dt, period)`: `trunc`, stepped down by `abs(period)` when it overshoots. */
  function Floor(dt: TimeDelta, period: TimeDelta): (f: TimeDelta)
    requires V2.FloorDefined(ToV2(dt), ToV2(period))
    ensures ToV2(f) == V2.Floor(ToV2(dt), ToV2(period))
  {
    var t := Trunc(dt, period);
    if LessEq(t, dt) then t else Subtract(t, Abs(period))
  }

  /** `ceil(dt, period)`: `trunc`, stepped up by `abs(period)` when it falls short. */
  function Ceil(dt: TimeDelta, period: TimeDelta): (c: TimeDelta)
    requires V2.CeilDefined(ToV2(dt), ToV2(period))
    ensures ToV2(c) == V2.Ceil(ToV2(dt), ToV2(period))
  {
    var t := Trunc(dt, period);
    if GreaterEq(t, dt) then t else Add(t, Abs(period))
  }

  /** `round(dt, period)`: the nearer of `floor` and `floor + abs(period)`; at a tie
      the one whose quotient by `period` has its low bit clear. The low bit of a two's
      complement integer is its remainder modulo 2, which is Dafny's `% 2`. */
  function Round(dt: TimeDelta, period: TimeDelta): (r: TimeDelta)
    requires V2.RoundDefined(ToV2(dt), ToV2(period))
    ensures ToV2(r) == V2.Round(ToV2(dt), ToV2(period))
  {
    var lower := Floor(dt, period);
    var upper := Add(lower, Abs(period));
    var lowerDiff := Subtract(dt, lower);
    var upperDiff := Subtract(upper, dt);
    if Less(lowerDiff, upperDiff) then lower
    else if Less(upperDiff, lowerDiff) then upper
    else if Quot(lower.count, period.count) % 2 == 1 then upper
    else lower
  }

  // ------------------------------------------------------ in-place operators

  /** A version-1 TimeDelta object, whose compound assignments and increments change
      its `duration_` in place. */
  class MutableTimeDelta {
    var duration: TimeDelta

    constructor(d: TimeDelta)
      ensures duration == d
    {
      duration := d;
    }

    /** `++dt`: returns the incremented value. */
    method PreIncrement() returns (r: TimeDelta)
      requires InInt128(duration.count + 1)
      modifies this
      ensures duration.count == old(duration.count) + 1 && r == duration
    {
      duration := TimeDelta(duration.count + 1);
      r := duration;
    }

    /** `dt++`: `TimeDelta(duration_++)`, the value before the increment. */
    method PostIncrement() returns (r: TimeDelta)
      requires InInt128(duration.count + 1)
      modifies this
      ensures duration.count == old(duration.count) + 1 && r == old(duration)
    {
      r := duration;
      duration := TimeDelta(duration.count + 1);
    }

    /** `--dt`: returns the decremented value. */
    method PreDecrement() returns (r: TimeDelta)
      requires InInt128(duration.count - 1)
      modifies this
      ensures duration.count == old(duration.count) - 1 && r == duration
    {
      duration := TimeDelta(duration.count - 1);
      r := duration;
    }

    /** `dt--`: `TimeDelta(duration_--)`, the value before the decrement. */
    method PostDecrement() returns (r: TimeDelta)
      requires InInt128(duration.count - 1)
      modifies this
      ensures duration.count == old(duration.count) - 1 && r == old(duration)
    {
      r := duration;
      duration := TimeDelta(duration.count - 1);
    }

    method AddAssign(other: TimeDelta)
      requires InInt128(duration.count + other.count)
      modifies this
      ensures duration == Add(old(duration), other)
    {
      duration := TimeDelta(duration.count + other.count);
    }

    method SubtractAssign(other: TimeDelta)
      requires InInt128(duration.count - other.count)
      modifies this
      ensures duration == Subtract(old(duration), other)
    {
      duration := TimeDelta(duration.count - other.count);
    }

    /** `dt *= k` for an integral `Rep` scalar. */
    method MultiplyAssign(k: int)
      requires InInt128(duration.count * k)
      modifies this
      ensures duration == Multiply(old(duration), k)
    {
      duration := TimeDelta(duration.count * k);
    }

    /** `dt /= k` for an integral `Rep` scalar. */
    method DivideAssign(k: int)
      requires k != 0 && InInt128(Quot(duration.count, k))
      modifies this
      ensures duration == Divide(old(duration), k)
    {
      duration := TimeDelta(Quot(duration.count, k));
    }

    /** `dt %= k` for an integral `Rep` scalar. */
    method ModuloAssign(k: int)
      requires k != 0 && InInt128(Quot(duration.count, k))
      modifies this
      ensures duration == Modulo(old(duration), k)
    {
      duration := TimeDelta(Rem(duration.count, k));
    }

    /** `dt %= other`. */
    method ModuloDeltaAssign(other: TimeDelta)
      requires other.count != 0 && InInt128(Quot(duration.count, other.count))
      modifies this
      ensures duration == ModuloDelta(old(duration), other)
    {
      duration := TimeDelta(Rem(duration.count, other.count));
    }
  }

  // ------------------------------------------------------------------ lemmas

  /** The integral factories scale exactly to picoseconds. */
  lemma FactoriesExact(n: int)
    requires InInt128(n * V2.PS_PER_DAY)
    ensures Days(n).count == n * 86400 * V2.PS_PER_S
    ensures Hours(n).count == n * 3600 * V2.PS_PER_S
    ensures Minutes(n).count == n * 60 * V2.PS_PER_S
    ensures Seconds(n).count == n * V2.PS_PER_S
    ensures Milliseconds(n).count == n * V2.PS_PER_MS
    ensures Microseconds(n).count == n * V2.PS_PER_US
    ensures Nanoseconds(n).count == n * V2.PS_PER_NS
    ensures Picoseconds(n).count == n
  {
    FactoryRanges(n);
  }

  /** A day count in range keeps every smaller unit in range. */
  lemma FactoryRanges(n: int)
    requires InInt128(n * V2.PS_PER_DAY)
    ensures InInt128(n * V2.PS_PER_HOUR) && InInt128(n * V2.PS_PER_MIN)
    ensures InInt128(n * V2.PS_PER_S) && InInt128(n * V2.PS_PER_MS)
    ensures InInt128(n * V2.PS_PER_US) && InInt128(n * V2.PS_PER_NS) && InInt128(n)
  {
    var N: int := Arith.Abs(n);
    MulMonotone(N, V2.PS_PER_HOUR, V2.PS_PER_DAY);
    MulMonotone(N, 1, V2.PS_PER_HOUR);
    assert Arith.Abs(n * V2.PS_PER_DAY) == N * V2.PS_PER_DAY;
    assert Arith.Abs(n * V2.PS_PER_HOUR) == N * V2.PS_PER_HOUR;
    assert Arith.Abs(n * V2.PS_PER_MIN) == N * V2.PS_PER_MIN;
    assert Arith.Abs(n * V2.PS_PER_S) == N * V2.PS_PER_S;
    assert Arith.Abs(n * V2.PS_PER_MS) == N * V2.PS_PER_MS;
    assert Arith.Abs(n * V2.PS_PER_US) == N * V2.PS_PER_US;
    assert Arith.Abs(n * V2.PS_PER_NS) == N * V2.PS_PER_NS;
  }

  /** Integral conversions truncate toward zero in both directions. */
  lemma ConversionsTruncate(n: int, p: V2.Ratio, t: TimeDelta)
    requires V2.ValidRatio(p) && InInt128(n * V2.Factor(p).num)
    requires InInt128(t.count * V2.Factor(p).den)
    ensures var c := FromDuration(n, p).count;
      Arith.Abs(c) * p.den <= Arith.Abs(n * p.num * V2.PS_PER_S) < (Arith.Abs(c) + 1) * p.den
      && (c == 0 || ((c > 0) == (n > 0)))
    ensures var m := ToDuration(t, p);
      Arith.Abs(m) * (p.num * V2.PS_PER_S) <= Arith.Abs(t.count * p.den)
        < (Arith.Abs(m) + 1) * (p.num * V2.PS_PER_S)
      && (m == 0 || ((m > 0) == (t.count > 0)))
  {
  }

  /** Scalar division truncates toward zero and `%` is the remainder that goes with it;
      `dt % other` is `dt % other.count()`. */
  lemma ScalarLaws(t: TimeDelta, k: int, other: TimeDelta)
    requires k != 0 && InInt128(Quot(t.count, k))
    requires other.count != 0 && InInt128(Quot(t.count, other.count))
    ensures Arith.Abs(Divide(t, k).count) * Arith.Abs(k) <= Arith.Abs(t.count)
    ensures Divide(t, k).count * k + Modulo(t, k).count == t.count
    ensures Arith.Abs(Modulo(t, k).count) < Arith.Abs(k)
    ensures Modulo(t, k).count == 0 || ((Modulo(t, k).count > 0) == (t.count > 0))
    ensures ModuloDelta(t, other) == Modulo(t, other.count)
  {
    V2.DivideModuloLaws(ToV2(t), k);
  }

  /** The comparisons are the total order on tick counts, `<=` and `>=` being the
      negations of `>` and `<`. */
  lemma ComparisonLaws(a: TimeDelta, b: TimeDelta)
    ensures Greater(a, b) <==> Less(b, a)
    ensures LessEq(a, b) <==> (Less(a, b) || a == b)
    ensures GreaterEq(a, b) <==> (Greater(a, b) || a == b)
    ensures (if Less(a, b) then 1 else 0) + (if a == b then 1 else 0)
              + (if Greater(a, b) then 1 else 0) == 1
  {
  }

  /** `abs`, `trunc`, `floor` and `ceil` obey the version-2 laws. */
  lemma RoundingLaws(dt: TimeDelta, period: TimeDelta)
    requires dt.count != INT128_MIN
    requires V2.FloorDefined(ToV2(dt), ToV2(period)) && V2.CeilDefined(ToV2(dt), ToV2(period))
    ensures Abs(dt).count >= 0 && (Abs(dt) == dt || Abs(dt) == Negate(dt))
    ensures var t := Trunc(dt, period).count;
      IsMultiple(t, period.count) && Arith.Abs(t) <= Arith.Abs(dt.count)
      && (t == 0 || ((t > 0) == (dt.count > 0)))
    ensures var f := Floor(dt, period).count;
      IsMultiple(f, period.count) && f <= dt.count < f + Arith.Abs(period.count)
    ensures var c := Ceil(dt, period).count;
      IsMultiple(c, period.count) && c - Arith.Abs(period.count) < dt.count <= c
  {
  }

  /** `round` picks a multiple of `period` no farther from `dt` than any other, and at an
      exact tie the even multiple. */
  lemma RoundLaws(dt: TimeDelta, period: TimeDelta, m: int)
    requires V2.RoundDefined(ToV2(dt), ToV2(period))
    requires IsMultiple(m, period.count)
    ensures var r := Round(dt, period).count;
      IsMultiple(r, period.count)
      && Arith.Abs(dt.count - r) <= Arith.Abs(dt.count - m)
      && (2 * Arith.Abs(dt.count - r) == Arith.Abs(period.count) ==> Quot(r, period.count) % 2 == 0)
  {
    V2.RoundIsNearest(ToV2(dt), ToV2(period), m);
  }
}
