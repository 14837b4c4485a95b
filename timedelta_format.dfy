/** The text form of a version-2 TimeDelta (`operator<<`): an optional sign, then
    the magnitude split into whole days, hours and minutes (each group only once the
    magnitude reaches its unit), then the rest in the largest of s/ms/us/ns/ps that
    fits, with a decimal fraction whose trailing zeros are dropped. The stream is
    modelled as the returned string and the `showpos` and `showpoint` stream flags as
    parameters. */
module TimeDeltaFormat {
  import opened Arith
  import opened Digits
  import opened TimeDelta2

  /** The unit of the final group: its length in picoseconds, how many fraction
      digits it is printed with, and its suffix. */
  datatype Unit = Unit(ticks: nat, digits: nat, suffix: string)

  /** The largest of s, ms, us, ns and ps that does not exceed `a` (ps when `a` is 0). */
  function FinalUnit(a: nat): (u: Unit)
    ensures u in {Unit(PS_PER_S, 12, "s"), Unit(PS_PER_MS, 9, "ms"), Unit(PS_PER_US, 6, "us"),
                  Unit(PS_PER_NS, 3, "ns"), Unit(1, 0, "ps")}
    ensures u.ticks == Pow10(u.digits)
    ensures u.ticks <= a || u.ticks == 1
    ensures u.ticks == PS_PER_S || a < 1000 * u.ticks
  {
    if a >= PS_PER_S then Unit(PS_PER_S, 12, "s")
    else if a >= PS_PER_MS then Unit(PS_PER_MS, 9, "ms")
    else if a >= PS_PER_US then Unit(PS_PER_US, 6, "us")
    else if a >= PS_PER_NS then Unit(PS_PER_NS, 3, "ns")
    else Unit(1, 0, "ps")
  }

  function SignText(negative: bool, showpos: bool): string {
    if negative then "-" else if showpos then "+" else ""
  }

  /** The text of the fraction of the final group: the fraction left-padded with zeros
      to the unit's digit count, trailing zeros dropped; for a zero fraction nothing,
      or ".0" under `showpoint`. */
  function FractionText(frac: nat, digits: nat, showpoint: bool): string {
    if frac != 0 then Trim("." + ZeroPadded(frac, digits))
    else if showpoint then ".0"
    else ""
  }

  /** A day, hour or minute group: its count and suffix once the magnitude `a` has
      reached the group's unit, nothing before. */
  function GroupText(a: nat, unit: nat, value: nat, suffix: string): string {
    if a >= unit then Decimal(value) + suffix else ""
  }

  /** The final group: the whole number of units in `rest`, the fraction and the suffix. */
  function FinalText(rest: nat, u: Unit, showpoint: bool): string
    requires u.ticks > 0
  {
    Decimal(rest / u.ticks) + FractionText(rest % u.ticks, u.digits, showpoint) + u.suffix
  }

  /** The text after the sign, with each group taken directly from the magnitude. */
  function MagnitudeText(a: nat, showpoint: bool): string {
    GroupText(a, PS_PER_DAY, a / PS_PER_DAY, "d")
    + GroupText(a, PS_PER_HOUR, a % PS_PER_DAY / PS_PER_HOUR, "h")
    + GroupText(a, PS_PER_MIN, a % PS_PER_HOUR / PS_PER_MIN, "m")
    + FinalText(a % PS_PER_MIN, FinalUnit(a), showpoint)
  }

  /** The whole text of `dt`. */
  function Formatted(dt: TimeDelta, showpos: bool, showpoint: bool): string
    requires dt.count != INT128_MIN
  {
    SignText(dt.count < 0, showpos) + MagnitudeText(Arith.Abs(dt.count), showpoint)
  }

  /** `os << dt`: splits off days, hours and minutes one after another, each by
      quotient and remainder of what the previous step left. */
  method Format(dt: TimeDelta, showpos: bool, showpoint: bool) returns (s: string)
    requires dt.count != INT128_MIN
    ensures s == Formatted(dt, showpos, showpoint)
  {
    s := "";
    if Less(dt, ZERO) {
      s := s + "-";
    } else if showpos {
      s := s + "+";
    }
    ghost var sign := s;
    assert sign == SignText(dt.count < 0, showpos);
    var a := TimeDelta2.Abs(dt);
    assert a.count == Arith.Abs(dt.count);
    s := PrintMagnitude(s, a, showpoint);
    FormattedFrom(dt, showpos, showpoint, sign, MagnitudeText(a.count, showpoint));
  }

  /** What `os << dt` prints after the sign: the day, hour and minute steps one after
      another on the remaining `frac`, then the final group. */
  method PrintMagnitude(s: string, a: TimeDelta, showpoint: bool) returns (s': string)
    requires a.count >= 0
    ensures s' == s + MagnitudeText(a.count, showpoint)
  {
    var n: nat := a.count;
    var frac: nat := n;
    GroupSteps(n);
    ghost var d := GroupText(n, PS_PER_DAY, n / PS_PER_DAY, "d");
    ghost var h := GroupText(n, PS_PER_HOUR, n % PS_PER_DAY / PS_PER_HOUR, "h");
    ghost var m := GroupText(n, PS_PER_MIN, n % PS_PER_HOUR / PS_PER_MIN, "m");
    ghost var f := FinalText(n % PS_PER_MIN, FinalUnit(n), showpoint);
    s', frac := PrintGroup(s, a, frac, Days(1), "d", n / PS_PER_DAY);
    assert s' == s + d;
    s', frac := PrintGroup(s', a, frac, Hours(1), "h", n % PS_PER_DAY / PS_PER_HOUR);
    assert s' == s + d + h;
    s', frac := PrintGroup(s', a, frac, Minutes(1), "m", n % PS_PER_HOUR / PS_PER_MIN);
    assert s' == s + d + h + m;
    s' := PrintFinal(s', a, frac, showpoint);
    assert s' == s + d + h + m + f;
    MagnitudeTextFrom(n, showpoint, d, h, m, f);
    Associate(s, d, h, m, f);
  }

  /** Each group step sees what the previous one left: the remainder by the next
      larger unit, or the whole magnitude while it is below the unit. */
  lemma GroupSteps(n: nat)
    ensures n % PS_PER_DAY % PS_PER_HOUR == n % PS_PER_HOUR
    ensures n % PS_PER_HOUR % PS_PER_MIN == n % PS_PER_MIN
    ensures n < PS_PER_HOUR ==> n % PS_PER_DAY == n
    ensures n < PS_PER_MIN ==> n % PS_PER_HOUR == n
  {
    ModOfMod(n, PS_PER_HOUR, 24);
    ModOfMod(n, PS_PER_MIN, 60);
    if n < PS_PER_HOUR { FloorDivUnique(n, PS_PER_DAY, 0, n); }
    if n < PS_PER_MIN { FloorDivUnique(n, PS_PER_HOUR, 0, n); }
  }

  /** One `if (a >= unit)` step of `os << dt`: once the magnitude has reached the unit,
      prints the quotient of what is left by the unit and keeps the remainder. */
  method PrintGroup(s: string, a: TimeDelta, frac: nat, unit: TimeDelta, suffix: string,
                    ghost value: nat) returns (s': string, frac': nat)
    requires a.count >= 0 && unit.count > 0
    requires a.count >= unit.count ==>
               frac / unit.count == value && frac % unit.count == a.count % unit.count
    requires a.count < unit.count ==> frac == a.count
    ensures s' == s + GroupText(a.count, unit.count, value, suffix)
    ensures frac' == a.count % unit.count
  {
    s', frac' := s, frac;
    if GreaterEq(a, unit) {
      var whole: nat;
      QuotOfNonnegative(frac, unit.count);
      whole, frac' := Quot(frac, unit.count), Rem(frac, unit.count);
      s' := s' + Decimal(whole) + suffix;
    } else {
      FloorDivUnique(a.count, unit.count, 0, a.count);
    }
  }

  /** The last step of `os << dt`: the whole units of what is left, the trimmed
      fraction (or ".0" under `showpoint`) and the unit's suffix. */
  method PrintFinal(s: string, a: TimeDelta, frac: nat, showpoint: bool) returns (s': string)
    requires a.count >= 0
    ensures s' == s + FinalText(frac, FinalUnit(a.count), showpoint)
  {
    var u := FinalUnit(a.count);
    QuotOfNonnegative(frac, u.ticks);
    var whole, rest := Quot(frac, u.ticks), Rem(frac, u.ticks);
    s' := s + Decimal(whole);
    s' := PrintFraction(s', rest, u.digits, showpoint);
    s' := s' + u.suffix;
    FinalTextOfSplit(frac, u, showpoint, whole, rest);
    Associate3(s, Decimal(whole), FractionText(rest, u.digits, showpoint), u.suffix);
  }

  lemma Associate3(a: string, b: string, c: string, d: string)
    ensures a + b + c + d == a + (b + c + d)
  {
  }

  /** The final group's text from the quotient and remainder of the fraction. */
  lemma FinalTextOfSplit(frac: nat, u: Unit, showpoint: bool, whole: nat, rest: nat)
    requires u.ticks > 0 && whole == frac / u.ticks && rest == frac % u.ticks
    ensures FinalText(frac, u, showpoint)
      == Decimal(whole) + FractionText(rest, u.digits, showpoint) + u.suffix
  {
  }

  /** The fraction of the final group: the `if (frac) ... else if (showpoint)` step. */
  method PrintFraction(s: string, frac: nat, digits: nat, showpoint: bool) returns (s': string)
    ensures s' == s + FractionText(frac, digits, showpoint)
  {
    s' := s;
    if frac != 0 {
      s' := s' + Trim("." + ZeroPadded(frac, digits));
    } else if showpoint {
      s' := s' + ".0";
    }
  }

  lemma Associate(a: string, b: string, c: string, d: string, e: string)
    ensures a + b + c + d + e == a + (b + c + d + e)
  {
  }

  /** The text of a value from its sign text and its magnitude text. */
  lemma FormattedFrom(dt: TimeDelta, showpos: bool, showpoint: bool, sign: string, mag: string)
    requires dt.count != INT128_MIN
    requires SignText(dt.count < 0, showpos) == sign
    requires MagnitudeText(Arith.Abs(dt.count), showpoint) == mag
    ensures Formatted(dt, showpos, showpoint) == sign + mag
  {
  }

  /** One group step of `Format`: after the remainder by the next larger unit, the
      quotient and remainder by `unit` are those of the whole magnitude. */
  lemma StepFacts(n: nat, frac: nat, unit: nat, k: nat)
    requires unit > 0 && k > 0 && frac == n % (k * unit)
    ensures Quot(frac, unit) == frac / unit && Rem(frac, unit) == n % unit
  {
    QuotOfNonnegative(frac, unit);
    ModOfMod(n, unit, k);
  }

  // ---------------------------------------------------------------- lemmas

  /** Taking the remainder by a multiple of `m` first does not change the remainder
      by `m`. */
  lemma ModOfMod(x: nat, m: nat, k: nat)
    requires m > 0 && k > 0
    ensures x % (k * m) % m == x % m
  {
    var q, r := x / (k * m), x % (k * m);
    var q2, r2 := r / m, r % m;
    assert x == m * (k * q + q2) + r2 by {
      assert x == (k * m) * q + r;
      assert r == m * q2 + r2;
      assert (k * m) * q == m * (k * q);
    }
    FloorDivUnique(x, m, k * q + q2, r2);
  }

  /** The text begins with '-' exactly for a negative value, and with '+' exactly for a
      non-negative value under `showpos`. */
  lemma SignOfFormatted(dt: TimeDelta, showpos: bool, showpoint: bool)
    requires dt.count != INT128_MIN
    ensures var s := Formatted(dt, showpos, showpoint);
      |s| >= 1 && (s[0] == '-' <==> dt.count < 0)
      && (s[0] == '+' <==> (showpos && dt.count >= 0))
  {
    var a := Arith.Abs(dt.count);
    MagnitudeStartsWithDigit(a, showpoint);
  }

  /** The text after the sign starts with a digit. */
  lemma MagnitudeStartsWithDigit(a: nat, showpoint: bool)
    ensures |MagnitudeText(a, showpoint)| >= 1 && IsDigit(MagnitudeText(a, showpoint)[0])
  {
    var g1 := GroupText(a, PS_PER_DAY, a / PS_PER_DAY, "d");
    var g2 := GroupText(a, PS_PER_HOUR, a % PS_PER_DAY / PS_PER_HOUR, "h");
    var g3 := GroupText(a, PS_PER_MIN, a % PS_PER_HOUR / PS_PER_MIN, "m");
    var f := FinalText(a % PS_PER_MIN, FinalUnit(a), showpoint);
    GroupStartsWithDigit(a, PS_PER_DAY, a / PS_PER_DAY, "d");
    GroupStartsWithDigit(a, PS_PER_HOUR, a % PS_PER_DAY / PS_PER_HOUR, "h");
    GroupStartsWithDigit(a, PS_PER_MIN, a % PS_PER_HOUR / PS_PER_MIN, "m");
    FinalStartsWithDigit(a % PS_PER_MIN, FinalUnit(a), showpoint);
    MagnitudeTextFrom(a, showpoint, g1, g2, g3, f);
    StartsWithDigit(g1, g2, g3, f);
  }

  /** Groups that are empty or start with a digit, before a final group that starts
      with a digit, make a text that starts with a digit. */
  lemma StartsWithDigit(g1: string, g2: string, g3: string, f: string)
    requires g1 == "" || IsDigit(g1[0])
    requires g2 == "" || IsDigit(g2[0])
    requires g3 == "" || IsDigit(g3[0])
    requires |f| >= 1 && IsDigit(f[0])
    ensures |g1 + g2 + g3 + f| >= 1 && IsDigit((g1 + g2 + g3 + f)[0])
  {
  }

  lemma GroupStartsWithDigit(a: nat, unit: nat, value: nat, suffix: string)
    ensures var g := GroupText(a, unit, value, suffix); g == "" || IsDigit(g[0])
  {
    DecimalFacts(value);
  }

  lemma FinalStartsWithDigit(rest: nat, u: Unit, showpoint: bool)
    requires u.ticks > 0
    ensures var f := FinalText(rest, u, showpoint); |f| >= 1 && IsDigit(f[0])
  {
    DecimalFacts(rest / u.ticks);
  }

  /** The groups rebuild the magnitude exactly: days, hours below 24, minutes below 60,
      and the whole and fractional units of the final group; a group that is not
      printed is zero. */
  lemma FormattedGroupsReconstruct(a: nat)
    ensures var u := FinalUnit(a);
      var days, hours, minutes := a / PS_PER_DAY, a % PS_PER_DAY / PS_PER_HOUR,
        a % PS_PER_HOUR / PS_PER_MIN;
      var whole, frac := a % PS_PER_MIN / u.ticks, a % PS_PER_MIN % u.ticks;
      days * PS_PER_DAY + hours * PS_PER_HOUR + minutes * PS_PER_MIN
        + whole * u.ticks + frac == a
      && hours < 24 && minutes < 60 && frac < u.ticks
      && (a < PS_PER_DAY ==> days == 0)
      && (a < PS_PER_HOUR ==> hours == 0)
      && (a < PS_PER_MIN ==> minutes == 0)
  {
    var u := FinalUnit(a);
    Reconstruct(a, PS_PER_DAY, PS_PER_HOUR, PS_PER_MIN, u.ticks);
    if a < PS_PER_DAY { FloorDivUnique(a, PS_PER_DAY, 0, a); }
    if a < PS_PER_HOUR { FloorDivUnique(a, PS_PER_HOUR, 0, a); }
    if a < PS_PER_MIN { FloorDivUnique(a, PS_PER_MIN, 0, a); }
  }

  lemma Reconstruct(a: nat, day: nat, hour: nat, minute: nat, t: nat)
    requires minute > 0 && t > 0 && hour == 60 * minute && day == 24 * hour
    ensures (a / day) * day + (a % day / hour) * hour + (a % hour / minute) * minute
              + (a % minute / t) * t + a % minute % t == a
    ensures a % day / hour < 24 && a % hour / minute < 60 && a % minute % t < t
  {
    ModOfMod(a, hour, 24);
    ModOfMod(a, minute, 60);
    DivBelow(a % day, hour, 24);
    DivBelow(a % hour, minute, 60);
  }

  lemma DivBelow(x: nat, m: nat, k: nat)
    requires m > 0 && x < k * m
    ensures x / m < k
  {
    DivBounds(x, m);
    if x / m >= k {
      MulMonotone(m, k, x / m);
      assert false;
    }
  }

  /** A non-zero fraction prints as '.' and at most `digits` digits not ending in '0',
      which padded back with zeros read as the fraction. */
  lemma FractionTextFacts(frac: nat, digits: nat, showpoint: bool)
    requires digits >= 1 && frac < Pow10(digits)
    ensures frac == 0 ==> FractionText(frac, digits, showpoint) == (if showpoint then ".0" else "")
    ensures frac != 0 ==>
      var t := FractionText(frac, digits, showpoint);
      2 <= |t| <= digits + 1 && t[0] == '.' && t[|t| - 1] != '0'
      && Resize(t[1..], digits, '0') == ZeroPadded(frac, digits)
      && AllDigits(t[1..]) && Value(Resize(t[1..], digits, '0')) == frac
  {
    if frac != 0 {
      var z := ZeroPadded(frac, digits);
      TrimmedFraction(frac, digits, showpoint);
      assert FractionText(frac, digits, showpoint)[1..] == Trim(z);
      ZeroPaddedFacts(frac, digits);
    }
  }

  /** The digits a non-zero fraction keeps: its zero-padded text without the trailing
      zeros, not empty, and padding back to that text. */
  lemma TrimmedFraction(frac: nat, digits: nat, showpoint: bool)
    requires digits >= 1 && 0 < frac < Pow10(digits)
    ensures var z := ZeroPadded(frac, digits);
      && FractionText(frac, digits, showpoint) == "." + Trim(z)
      && 1 <= |Trim(z)| <= digits && Trim(z)[|Trim(z)| - 1] != '0'
      && Resize(Trim(z), digits, '0') == z && AllDigits(Trim(z))
  {
    var z := ZeroPadded(frac, digits);
    ZeroPaddedFacts(frac, digits);
    ZeroPaddedIsZeros(frac, digits);
    var i :| 0 <= i < |z| && z[i] != '0';
    TrimAfterMark('.', z);
    TrimFacts(z);
  }

  /** Trimming a string that starts with a non-zero mark trims only what follows it. */
  lemma TrimAfterMark(c: char, z: string)
    requires c != '0'
    requires exists i :: 0 <= i < |z| && z[i] != '0'
    ensures Trim([c] + z) == [c] + Trim(z)
  {
    var n := LastNotOf(z, '0');
    var s := [c] + z;
    var m := LastNotOf(s, '0');
    assert n >= 0;
    assert s[n + 1] == z[n];
    assert m == n + 1;
    assert s[..m + 1] == [c] + z[..n + 1];
  }

  /** The text of a magnitude from the texts of its groups. */
  lemma MagnitudeTextFrom(a: nat, showpoint: bool, d: string, h: string, m: string, f: string)
    requires GroupText(a, PS_PER_DAY, a / PS_PER_DAY, "d") == d
    requires GroupText(a, PS_PER_HOUR, a % PS_PER_DAY / PS_PER_HOUR, "h") == h
    requires GroupText(a, PS_PER_MIN, a % PS_PER_HOUR / PS_PER_MIN, "m") == m
    requires FinalText(a % PS_PER_MIN, FinalUnit(a), showpoint) == f
    ensures MagnitudeText(a, showpoint) == d + h + m + f
  {
  }

  /** Below a second the value is printed in ps, ns, us or ms. */
  lemma FormatExample123ps()
    ensures Formatted(Picoseconds(123), false, false) == "123ps"
  {
    MagnitudeTextFrom(123, false, "", "", "", "123ps");
  }

  /** The fraction is padded to three digits for ns and its trailing zero dropped. */
  lemma FormatExample1230ps()
    ensures Formatted(Picoseconds(1230), false, false) == "1.23ns"
  {
    var a := 1230;
    assert FinalUnit(a) == Unit(PS_PER_NS, 3, "ns");
    assert a % PS_PER_MIN == a;
    assert FractionText(230, 3, false) == ".23" by {
      assert "." + ZeroPadded(230, 3) == ".230";
      TrimPadded(".23", 1);
      assert ".23" + Zeros(1) == ".230";
    }
    assert FinalText(a, Unit(PS_PER_NS, 3, "ns"), false) == "1.23ns";
    assert GroupText(a, PS_PER_DAY, a / PS_PER_DAY, "d") == "";
    assert GroupText(a, PS_PER_HOUR, a % PS_PER_DAY / PS_PER_HOUR, "h") == "";
    assert GroupText(a, PS_PER_MIN, a % PS_PER_HOUR / PS_PER_MIN, "m") == "";
    MagnitudeTextFrom(a, false, "", "", "", "1.23ns");
  }

  lemma FormatExample12us345ns()
    ensures Formatted(Add(Microseconds(12), Nanoseconds(345)), false, false) == "12.345us"
  {
    var a := 12_345_000;
    assert Add(Microseconds(12), Nanoseconds(345)).count == a;
    assert FinalUnit(a) == Unit(PS_PER_US, 6, "us");
    assert a % PS_PER_MIN == a;
    assert FractionText(345_000, 6, false) == ".345" by {
      assert "." + ZeroPadded(345_000, 6) == ".345000";
      TrimPadded(".345", 3);
      assert ".345" + Zeros(3) == ".345000";
    }
    assert FinalText(a, Unit(PS_PER_US, 6, "us"), false) == "12.345us";
    assert GroupText(a, PS_PER_DAY, a / PS_PER_DAY, "d") == "";
    assert GroupText(a, PS_PER_HOUR, a % PS_PER_DAY / PS_PER_HOUR, "h") == "";
    assert GroupText(a, PS_PER_MIN, a % PS_PER_HOUR / PS_PER_MIN, "m") == "";
    MagnitudeTextFrom(a, false, "", "", "", "12.345us");
  }

  /** A negative value below a second: the sign, then the largest fitting unit. */
  lemma FormatExampleMinus999ms()
    ensures Formatted(Add(Seconds(-1), Milliseconds(1)), false, false) == "-999ms"
  {
    var dt := Add(Seconds(-1), Milliseconds(1));
    var a := 999_000_000_000;
    assert dt.count == -a;
    assert FinalUnit(a) == Unit(PS_PER_MS, 9, "ms");
    assert a % PS_PER_MIN == a;
    assert FinalText(a, Unit(PS_PER_MS, 9, "ms"), false) == "999ms";
    assert GroupText(a, PS_PER_DAY, a / PS_PER_DAY, "d") == "";
    assert GroupText(a, PS_PER_HOUR, a % PS_PER_DAY / PS_PER_HOUR, "h") == "";
    assert GroupText(a, PS_PER_MIN, a % PS_PER_HOUR / PS_PER_MIN, "m") == "";
    MagnitudeTextFrom(a, false, "", "", "", "999ms");
    FormattedFrom(dt, false, false, "-", "999ms");
  }

  /** 754 seconds reach a minute but not an hour. */
  lemma FormatExample754s()
    ensures Formatted(Seconds(754), false, false) == "12m34s"
  {
    var a := 754 * PS_PER_S;
    assert FinalUnit(a) == Unit(PS_PER_S, 12, "s");
    assert a % PS_PER_MIN == 34 * PS_PER_S;
    assert FinalText(34 * PS_PER_S, Unit(PS_PER_S, 12, "s"), false) == "34s";
    assert GroupText(a, PS_PER_DAY, a / PS_PER_DAY, "d") == "";
    assert GroupText(a, PS_PER_HOUR, a % PS_PER_DAY / PS_PER_HOUR, "h") == "";
    assert a % PS_PER_HOUR / PS_PER_MIN == 12;
    assert GroupText(a, PS_PER_MIN, 12, "m") == "12m";
    MagnitudeTextFrom(a, false, "", "", "12m", "34s");
  }

  /** Once the hour group is printed, the minute group follows even when it is zero,
      and the fraction keeps its leading zeros. */
  lemma FormatExampleMinus1h1ps()
    ensures Formatted(Subtract(Negate(Hours(1)), Picoseconds(1)), false, false)
              == "-1h0m0.000000000001s"
  {
    var dt := Subtract(Negate(Hours(1)), Picoseconds(1));
    var a := 3_600_000_000_000_001;
    assert dt.count == -a;
    Minus1h1psMagnitude();
    FormattedFrom(dt, false, false, "-", "1h0m0.000000000001s");
  }

  lemma Minus1h1psMagnitude()
    ensures MagnitudeText(3_600_000_000_000_001, false) == "1h0m0.000000000001s"
  {
    Minus1h1psGroups();
    Minus1h1psFinal();
    MagnitudeTextFrom(3_600_000_000_000_001, false, "", "1h", "0m", "0.000000000001s");
  }

  lemma Minus1h1psGroups()
    ensures var a := 3_600_000_000_000_001;
      GroupText(a, PS_PER_DAY, a / PS_PER_DAY, "d") == ""
      && GroupText(a, PS_PER_HOUR, a % PS_PER_DAY / PS_PER_HOUR, "h") == "1h"
      && GroupText(a, PS_PER_MIN, a % PS_PER_HOUR / PS_PER_MIN, "m") == "0m"
  {
    var a := 3_600_000_000_000_001;
    assert a % PS_PER_DAY / PS_PER_HOUR == 1;
    assert a % PS_PER_HOUR / PS_PER_MIN == 0;
    assert GroupText(a, PS_PER_HOUR, 1, "h") == "1h";
    assert GroupText(a, PS_PER_MIN, 0, "m") == "0m";
  }

  lemma Minus1h1psFinal()
    ensures var a := 3_600_000_000_000_001;
      FinalText(a % PS_PER_MIN, FinalUnit(a), false) == "0.000000000001s"
  {
    var a := 3_600_000_000_000_001;
    assert FinalUnit(a) == Unit(PS_PER_S, 12, "s");
    assert a % PS_PER_MIN == 1;
    assert 1 / PS_PER_S == 0 && 1 % PS_PER_S == 1;
    Fraction1ps();
    assert FinalText(1, Unit(PS_PER_S, 12, "s"), false) == "0" + ".000000000001" + "s";
  }

  /** Every group present, with a fraction of a second. */
  lemma FormatExampleAllGroups()
    ensures Formatted(Add(Add(Add(Add(Days(1), Hours(23)), Minutes(4)), Seconds(56)),
                          Milliseconds(789)), false, false) == "1d23h4m56.789s"
  {
    var a := 169_496_789_000_000_000;
    assert Add(Add(Add(Add(Days(1), Hours(23)), Minutes(4)), Seconds(56)),
               Milliseconds(789)).count == a;
    AllGroupsGroups();
    AllGroupsFinal();
    MagnitudeTextFrom(a, false, "1d", "23h", "4m", "56.789s");
  }

  lemma AllGroupsGroups()
    ensures var a := 169_496_789_000_000_000;
      GroupText(a, PS_PER_DAY, a / PS_PER_DAY, "d") == "1d"
      && GroupText(a, PS_PER_HOUR, a % PS_PER_DAY / PS_PER_HOUR, "h") == "23h"
      && GroupText(a, PS_PER_MIN, a % PS_PER_HOUR / PS_PER_MIN, "m") == "4m"
  {
    var a := 169_496_789_000_000_000;
    assert a / PS_PER_DAY == 1;
    assert a % PS_PER_DAY / PS_PER_HOUR == 23;
    assert a % PS_PER_HOUR / PS_PER_MIN == 4;
    assert GroupText(a, PS_PER_DAY, 1, "d") == "1d";
    assert GroupText(a, PS_PER_HOUR, 23, "h") == "23h";
    assert GroupText(a, PS_PER_MIN, 4, "m") == "4m";
  }

  lemma AllGroupsFinal()
    ensures var a := 169_496_789_000_000_000;
      FinalText(a % PS_PER_MIN, FinalUnit(a), false) == "56.789s"
  {
    var a := 169_496_789_000_000_000;
    assert FinalUnit(a) == Unit(PS_PER_S, 12, "s");
    var r := 56_789_000_000_000;
    assert a % PS_PER_MIN == r;
    assert r / PS_PER_S == 56 && r % PS_PER_S == 789 * PS_PER_MS;
    assert Decimal(56) == "56";
    Fraction789ms();
    assert FinalText(r, Unit(PS_PER_S, 12, "s"), false) == "56" + ".789" + "s";
  }

  /** `showpos` adds '+' to a non-negative value. */
  lemma FormatExampleShowpos()
    ensures Formatted(Seconds(10), true, false) == "+10s"
  {
    var a := 10 * PS_PER_S;
    assert FinalUnit(a) == Unit(PS_PER_S, 12, "s");
    assert a % PS_PER_MIN == a;
    assert FinalText(a, Unit(PS_PER_S, 12, "s"), false) == "10s";
    assert GroupText(a, PS_PER_DAY, a / PS_PER_DAY, "d") == "";
    assert GroupText(a, PS_PER_HOUR, a % PS_PER_DAY / PS_PER_HOUR, "h") == "";
    assert GroupText(a, PS_PER_MIN, a % PS_PER_HOUR / PS_PER_MIN, "m") == "";
    MagnitudeTextFrom(a, false, "", "", "", "10s");
    FormattedFrom(Seconds(10), true, false, "+", "10s");
  }

  /** `showpoint` prints a zero fraction as ".0". */
  lemma FormatExampleShowpoint()
    ensures Formatted(Seconds(-10), false, true) == "-10.0s"
  {
    var a := 10 * PS_PER_S;
    assert Seconds(-10).count == -a;
    assert FinalUnit(a) == Unit(PS_PER_S, 12, "s");
    assert a % PS_PER_MIN == a;
    assert FinalText(a, Unit(PS_PER_S, 12, "s"), true) == "10.0s";
    assert GroupText(a, PS_PER_DAY, a / PS_PER_DAY, "d") == "";
    assert GroupText(a, PS_PER_HOUR, a % PS_PER_DAY / PS_PER_HOUR, "h") == "";
    assert GroupText(a, PS_PER_MIN, a % PS_PER_HOUR / PS_PER_MIN, "m") == "";
    MagnitudeTextFrom(a, true, "", "", "", "10.0s");
    FormattedFrom(Seconds(-10), false, true, "-", "10.0s");
  }

  lemma Fraction1ps()
    ensures FractionText(1, 12, false) == ".000000000001"
  {
    assert ZeroPadded(1, 12) == "000000000001";
    TrimPadded(".000000000001", 0);
    assert ".000000000001" + Zeros(0) == ".000000000001";
  }

  lemma Fraction789ms()
    ensures FractionText(789 * PS_PER_MS, 12, false) == ".789"
  {
    assert Pow10(9) == PS_PER_MS;
    DecimalShift(789, 9);
    assert Decimal(789) == "789";
    assert ZeroPadded(789 * PS_PER_MS, 12) == "789" + Zeros(9);
    TrimPadded(".789", 9);
    assert "." + ("789" + Zeros(9)) == ".789" + Zeros(9);
  }
}
