/** The version-2 DateTime: ten "broken-down" components, validated on construction,
    compared lexicographically, parsed from and formatted to the extended ISO 8601
    date-and-time form with up to twelve sub-second digits. */
module DateTime2 {
  import opened Digits
  import opened Errors
  import Arith
  import Calendar

  /** The `std::array<int, 10>` of components, most significant first: year, month,
      day, hour, minute, second, millisecond, microsecond, nanosecond, picosecond. */
  type Components = c: seq<int> | |c| == 10 witness [1, 1, 1, 0, 0, 0, 0, 0, 0, 0]

  datatype DateTime = DateTime(components: Components)

  /** The constructor's error message for each component, in order. */
  const MESSAGES: seq<string> := [
    "invalid year", "invalid month", "invalid day", "invalid hour", "invalid minute",
    "invalid second", "invalid millisecond", "invalid microsecond", "invalid nanosecond",
    "invalid picosecond"]

  // ---------------------------------------------------------------- validation

  /** Component `i` lies in its range: years 1 through 9999, months 1 through 12, a day
      of that month in the proleptic Gregorian calendar, a 24-hour clock, and each
      sub-second group in [0, 1000). */
  predicate InRange(c: Components, i: int)
    requires 0 <= i < 10
  {
    if i == 0 then 1 <= c[0] <= 9999
    else if i == 1 then 1 <= c[1] <= 12
    else if i == 2 then Calendar.IsValid(Calendar.Date(c[0], c[1], c[2]))
    else if i == 3 then 0 <= c[3] < 24
    else if i <= 5 then 0 <= c[i] < 60
    else 0 <= c[i] < 1000
  }

  /** Every component is in range. */
  predicate Valid(t: DateTime) {
    forall i :: 0 <= i < 10 ==> InRange(t.components, i)
  }

  /** The first component from `i` on that is out of range, or 10 if there is none. */
  function FirstInvalid(c: Components, i: nat): (k: nat)
    requires i <= 10
    ensures i <= k <= 10
    ensures k < 10 ==> !InRange(c, k)
    ensures forall j :: i <= j < k ==> InRange(c, j)
    decreases 10 - i
  {
    if i == 10 then 10 else if !InRange(c, i) then i else FirstInvalid(c, i + 1)
  }

  /** The component constructor: the components are checked in order and the first one
      outside its range is reported. */
  function Make(year: int, month: int, day: int, hour: int, minute: int, second: int,
                millisecond: int, microsecond: int, nanosecond: int, picosecond: int)
    : (r: Result<DateTime>)
    ensures var c: Components := [year, month, day, hour, minute, second,
                                  millisecond, microsecond, nanosecond, picosecond];
      && (r.Ok? <==> FirstInvalid(c, 0) == 10)
      && (r.Ok? ==> r.value.components == c && Valid(r.value))
      && (r.Err? ==> r.error == InvalidArgument(MESSAGES[FirstInvalid(c, 0)]))
  {
    var c: Components := [year, month, day, hour, minute, second,
                          millisecond, microsecond, nanosecond, picosecond];
    if year < 1 || year > 9999 then
      Rejected(c, 0); Err(InvalidArgument("invalid year"))
    else if month < 1 || month > 12 then
      Rejected(c, 1); Err(InvalidArgument("invalid month"))
    else if day < 1 || day > Calendar.LastDayOfMonth(year, month) then
      Rejected(c, 2); Err(InvalidArgument("invalid day"))
    else if hour < 0 || hour >= 24 then
      Rejected(c, 3); Err(InvalidArgument("invalid hour"))
    else if minute < 0 || minute >= 60 then
      Rejected(c, 4); Err(InvalidArgument("invalid minute"))
    else if second < 0 || second >= 60 then
      Rejected(c, 5); Err(InvalidArgument("invalid second"))
    else if millisecond < 0 || millisecond >= 1000 then
      Rejected(c, 6); Err(InvalidArgument("invalid millisecond"))
    else if microsecond < 0 || microsecond >= 1000 then
      Rejected(c, 7); Err(InvalidArgument("invalid microsecond"))
    else if nanosecond < 0 || nanosecond >= 1000 then
      Rejected(c, 8); Err(InvalidArgument("invalid nanosecond"))
    else if picosecond < 0 || picosecond >= 1000 then
      Rejected(c, 9); Err(InvalidArgument("invalid picosecond"))
    else
      Rejected(c, 10); Ok(DateTime(c))
  }

  /** The search for an invalid component stops at the first one. */
  lemma {:induction false} Rejected(c: Components, k: nat)
    requires k <= 10 && (k < 10 ==> !InRange(c, k))
    requires forall j :: 0 <= j < k ==> InRange(c, j)
    ensures FirstInvalid(c, 0) == k
  {
    FirstInvalidFrom(c, 0, k);
  }

  lemma {:induction false} FirstInvalidFrom(c: Components, i: nat, k: nat)
    requires i <= k <= 10 && (k < 10 ==> !InRange(c, k))
    requires forall j :: i <= j < k ==> InRange(c, j)
    ensures FirstInvalid(c, i) == k
    decreases k - i
  {
    if i < k {
      FirstInvalidFrom(c, i + 1, k);
    }
  }

  // ------------------------------------------------------------------ accessors

  function Year(t: DateTime): int { t.components[0] }
  function Month(t: DateTime): int { t.components[1] }
  function Day(t: DateTime): int { t.components[2] }
  function Hour(t: DateTime): int { t.components[3] }
  function Minute(t: DateTime): int { t.components[4] }
  function Second(t: DateTime): int { t.components[5] }
  function Millisecond(t: DateTime): int { t.components[6] }
  function Microsecond(t: DateTime): int { t.components[7] }
  function Nanosecond(t: DateTime): int { t.components[8] }
  function Picosecond(t: DateTime): int { t.components[9] }

  /** `min()`: 0001-01-01T00:00:00. */
  function Min(): (t: DateTime)
    ensures Valid(t)
  {
    var r := Make(1, 1, 1, 0, 0, 0, 0, 0, 0, 0);
    assert r.Ok?;
    r.value
  }

  /** `max()`: 9999-12-31T23:59:59.999999999999. */
  function Max(): (t: DateTime)
    ensures Valid(t)
  {
    var r := Make(9999, 12, 31, 23, 59, 59, 999, 999, 999, 999);
    assert r.Ok?;
    r.value
  }

  /** `date()`: the calendar date. */
  function Date(t: DateTime): (d: Calendar.Date)
    requires Valid(t)
    ensures Calendar.IsValid(d)
  {
    assert InRange(t.components, 2);
    Calendar.Date(Year(t), Month(t), Day(t))
  }

  /** `weekday()`: the day of the week of the date's day number since 1970-01-01. */
  function Weekday(t: DateTime): Calendar.Weekday
    requires Valid(t)
  {
    Calendar.WeekdayFromDays(Calendar.DaysFromCivil(Date(t)))
  }

  // ---------------------------------------------------------------- comparisons

  /** `comp(x, y)` for `ranges::less` (`greater` false) or `ranges::greater`. */
  predicate Precedes(x: int, y: int, greater: bool) {
    if greater then x > y else x < y
  }

  /** `ranges::lexicographical_compare(a, b, comp)`. */
  predicate Lex(a: seq<int>, b: seq<int>, greater: bool)
    decreases |a|
  {
    if |a| == 0 then |b| > 0
    else if |b| == 0 || Precedes(b[0], a[0], greater) then false
    else if Precedes(a[0], b[0], greater) then true
    else Lex(a[1..], b[1..], greater)
  }

  /** `==` is `ranges::equal` of the components. */
  predicate Equal(a: DateTime, b: DateTime) {
    a.components == b.components
  }

  predicate NotEqual(a: DateTime, b: DateTime) {
    !Equal(a, b)
  }

  predicate Less(a: DateTime, b: DateTime) {
    Lex(a.components, b.components, false)
  }

  predicate Greater(a: DateTime, b: DateTime) {
    Lex(a.components, b.components, true)
  }

  predicate LessEq(a: DateTime, b: DateTime) {
    !Greater(a, b)
  }

  predicate GreaterEq(a: DateTime, b: DateTime) {
    !Less(a, b)
  }

  // ------------------------------------------------------------------ formatting

  /** `fmt::format("{:04d}-{:02d}-{:02d}T{:02d}:{:02d}:{:02d}", ...)`. */
  function DateAndTimeText(t: DateTime): string
    requires Valid(t)
  {
    assert InRange(t.components, 0) && InRange(t.components, 1) && InRange(t.components, 2);
    assert InRange(t.components, 3) && InRange(t.components, 4) && InRange(t.components, 5);
    ZeroPadded(Year(t), 4) + "-" + ZeroPadded(Month(t), 2) + "-" + ZeroPadded(Day(t), 2)
      + "T" + ZeroPadded(Hour(t), 2) + ":" + ZeroPadded(Minute(t), 2) + ":"
      + ZeroPadded(Second(t), 2)
  }

  /** `fmt::format("{:03d}{:03d}{:03d}{:03d}", ms, us, ns, ps)`. */
  function SubsecondText(t: DateTime): string
    requires Valid(t)
  {
    assert InRange(t.components, 6) && InRange(t.components, 7);
    assert InRange(t.components, 8) && InRange(t.components, 9);
    ZeroPadded(Millisecond(t), 3) + ZeroPadded(Microsecond(t), 3)
      + ZeroPadded(Nanosecond(t), 3) + ZeroPadded(Picosecond(t), 3)
  }

  predicate WholeSecond(t: DateTime) {
    Millisecond(t) == 0 && Microsecond(t) == 0 && Nanosecond(t) == 0 && Picosecond(t) == 0
  }

  /** `operator std::string`: the date and time, then, unless every sub-second component
      is zero, a point and the twelve sub-second digits without their trailing zeros. */
  function ToString(t: DateTime): (s: string)
    requires Valid(t)
    ensures WellFormed(s) && s[10] == 'T'
    ensures |s| == 19 <==> WholeSecond(t)
    ensures |s| > 19 ==> s[|s| - 1] != '0'
  {
    FieldFacts(t);
    if WholeSecond(t) then DateAndTimeText(t)
    else
      FractionFacts(t);
      WellFormedWithFraction(DateAndTimeText(t), Trim(SubsecondText(t)));
      DateAndTimeText(t) + "." + Trim(SubsecondText(t))
  }

  // -------------------------------------------------------------------- parsing

  /** Positions `i` up to `j` of `s` hold decimal digits. */
  predicate DigitsAt(s: string, i: int, j: int)
    requires 0 <= i <= j <= |s|
  {
    AllDigits(s[i..j])
  }

  /** The pattern `\d{4}-\d{2}-\d{2}(T| )\d{2}:\d{2}:\d{2}(\.\d{1,12})?`, matched
      against the whole string. */
  predicate WellFormed(s: string) {
    (|s| == 19 || 21 <= |s| <= 32)
    && DigitsAt(s, 0, 4) && s[4] == '-' && DigitsAt(s, 5, 7) && s[7] == '-'
    && DigitsAt(s, 8, 10) && (s[10] == 'T' || s[10] == ' ')
    && DigitsAt(s, 11, 13) && s[13] == ':' && DigitsAt(s, 14, 16) && s[16] == ':'
    && DigitsAt(s, 17, 19)
    && (|s| > 19 ==> s[19] == '.' && DigitsAt(s, 20, |s|))
  }

  /** The sub-seconds of a well-formed string, in picoseconds: its fraction digits read
      as a decimal fraction of a second. */
  function FractionPicos(s: string): (f: nat)
    requires WellFormed(s)
    ensures f < Pow10(12)
  {
    if |s| == 19 then 0
    else
      var digits := s[20..];
      FractionBelow(s);
      Value(digits) * Pow10(12 - |digits|)
  }

  /** The one to twelve fraction digits of a well-formed string, scaled to twelve
      places, stay below a second. */
  lemma {:induction false} FractionBelow(s: string)
    requires WellFormed(s) && |s| != 19
    ensures 1 <= |s[20..]| <= 12
    ensures Value(s[20..]) * Pow10(12 - |s[20..]|) < Pow10(12)
  {
    var digits := s[20..];
    assert AllDigits(digits);
    ValueBound(digits);
    ScaledBelow(Value(digits), |digits|, 12 - |digits|);
  }

  /** The string constructor's result: a string off the pattern is rejected, and the
      fields of one on it go through the component constructor, the sub-seconds split
      into milli-, micro-, nano- and picoseconds. */
  function FromString(s: string): Result<DateTime> {
    if !WellFormed(s) then Err(InvalidArgument("bad datetime string format"))
    else
      var f := FractionPicos(s);
      Make(Value(s[0..4]), Value(s[5..7]), Value(s[8..10]),
           Value(s[11..13]), Value(s[14..16]), Value(s[17..19]),
           f / 1000_000_000, (f / 1000_000) % 1000, (f / 1000) % 1000, f % 1000)
  }

  /** The string constructor as the library runs it: match the pattern, scan the
      fixed-width fields, pad the sub-second digits with '0' to twelve and scan them as
      four groups of three, then construct from the components. */
  method Parse(s: string) returns (r: Result<DateTime>)
    ensures r == FromString(s)
  {
    if !WellFormed(s) {
      return Err(InvalidArgument("bad datetime string format"));
    }
    var y, mo, d := Value(s[0..4]), Value(s[5..7]), Value(s[8..10]);
    var h, mi, sec := Value(s[11..13]), Value(s[14..16]), Value(s[17..19]);
    var ms, us, ns, ps := 0, 0, 0, 0;
    if |s| > 19 {
      var digits := s[20..];
      var padded := Resize(digits, 12, '0');
      assert AllDigits(padded);
      ms, us, ns, ps := Value(padded[0..3]), Value(padded[3..6]),
                        Value(padded[6..9]), Value(padded[9..12]);
      PaddedValue(digits, 12);
      SplitTwelve(padded);
    }
    r := Make(y, mo, d, h, mi, sec, ms, us, ns, ps);
  }

  // ---------------------------------------------------------------------- lemmas

  lemma {:induction false} Pow10Split(i: nat, j: nat)
    ensures Pow10(i) * Pow10(j) == Pow10(i + j)
    decreases i
  {
    if i > 0 {
      Pow10Split(i - 1, j);
    }
  }

  lemma {:induction false} ScaledBelow(v: nat, i: nat, j: nat)
    requires v < Pow10(i)
    ensures v * Pow10(j) < Pow10(i + j)
  {
    Pow10Split(i, j);
    Arith.MulMonotone(Pow10(j), v + 1, Pow10(i));
  }

  /** Padding a field of digits with '0' on the right scales its value by ten per digit. */
  lemma {:induction false} PaddedValue(digits: string, n: nat)
    requires AllDigits(digits) && |digits| <= n
    ensures AllDigits(Resize(digits, n, '0'))
    ensures Value(Resize(digits, n, '0')) == Value(digits) * Pow10(n - |digits|)
  {
    var z := Zeros(n - |digits|);
    assert Resize(digits, n, '0') == digits + z;
    ValueAppend(digits, z);
    ValueZeros(n - |digits|);
  }

  /** Scanning twelve digits as `%3d%3d%3d%3d` splits their value into thousands. */
  lemma {:induction false} SplitTwelve(z: string)
    requires |z| == 12 && AllDigits(z)
    ensures var f := Value(z);
      && Value(z[0..3]) == f / 1000_000_000
      && Value(z[3..6]) == (f / 1000_000) % 1000
      && Value(z[6..9]) == (f / 1000) % 1000
      && Value(z[9..12]) == f % 1000
  {
    var a, b, c, d := z[0..3], z[3..6], z[6..9], z[9..12];
    assert z == a + b + c + d;
    AllDigitsSlices(z);
    ValueOfGroups(a, b, c, d);
    SplitThousands(Value(a), Value(b), Value(c), Value(d));
  }

  lemma {:induction false} AllDigitsSlices(z: string)
    requires |z| == 12 && AllDigits(z)
    ensures AllDigits(z[0..3]) && AllDigits(z[3..6]) && AllDigits(z[6..9]) && AllDigits(z[9..12])
  {
    assert forall i :: 0 <= i < 3 ==>
      (z[0..3][i] == z[i] && z[3..6][i] == z[i + 3] && z[6..9][i] == z[i + 6] && z[9..12][i] == z[i + 9]);
  }

  /** Four fields of three digits read together as one number in base one thousand. */
  lemma {:induction false} ValueOfGroups(a: string, b: string, c: string, d: string)
    requires |a| == 3 && |b| == 3 && |c| == 3 && |d| == 3
    requires AllDigits(a) && AllDigits(b) && AllDigits(c) && AllDigits(d)
    ensures AllDigits(a + b + c + d)
    ensures Value(a) < 1000 && Value(b) < 1000 && Value(c) < 1000 && Value(d) < 1000
    ensures Value(a + b + c + d) == ((Value(a) * 1000 + Value(b)) * 1000 + Value(c)) * 1000 + Value(d)
  {
    assert Pow10(3) == 1000;
    ValueAppend(a, b);
    ValueAppend(a + b, c);
    ValueAppend(a + b + c, d);
    ValueBound(a); ValueBound(b); ValueBound(c); ValueBound(d);
  }

  /** Four groups of three digits form a twelve-digit number from which division and
      remainder by powers of a thousand recover every group. */
  lemma {:induction false} SplitThousands(a: nat, b: nat, c: nat, d: nat)
    requires a < 1000 && b < 1000 && c < 1000 && d < 1000
    ensures var f := ((a * 1000 + b) * 1000 + c) * 1000 + d;
      && a == f / 1000_000_000 && b == (f / 1000_000) % 1000
      && c == (f / 1000) % 1000 && d == f % 1000
  {
    var f := ((a * 1000 + b) * 1000 + c) * 1000 + d;
    Arith.FloorDivUnique(f, 1000_000_000, a, (b * 1000 + c) * 1000 + d);
    Arith.FloorDivUnique(f, 1000_000, a * 1000 + b, c * 1000 + d);
    Arith.FloorDivUnique(f, 1000, (a * 1000 + b) * 1000 + c, d);
    Arith.FloorDivUnique(a * 1000 + b, 1000, a, b);
    Arith.FloorDivUnique((a * 1000 + b) * 1000 + c, 1000, a * 1000 + b, c);
  }

  /** Unless all zero, the twelve sub-second digits trim to one to twelve digits ending
      in a non-zero one. */
  lemma {:induction false} FractionFacts(t: DateTime)
    requires Valid(t) && !WholeSecond(t)
    ensures var f := Trim(SubsecondText(t));
      1 <= |f| <= 12 && AllDigits(f) && f[|f| - 1] != '0'
  {
    SubsecondFacts(t);
    TrimDigits(SubsecondText(t));
  }

  lemma {:induction false} FieldFacts(t: DateTime)
    requires Valid(t)
    ensures WellFormed(DateAndTimeText(t)) && |DateAndTimeText(t)| == 19
    ensures DateAndTimeText(t)[10] == 'T'
    ensures Value(DateAndTimeText(t)[0..4]) == Year(t)
    ensures Value(DateAndTimeText(t)[5..7]) == Month(t)
    ensures Value(DateAndTimeText(t)[8..10]) == Day(t)
    ensures Value(DateAndTimeText(t)[11..13]) == Hour(t)
    ensures Value(DateAndTimeText(t)[14..16]) == Minute(t)
    ensures Value(DateAndTimeText(t)[17..19]) == Second(t)
  {
    assert InRange(t.components, 0) && InRange(t.components, 2) && InRange(t.components, 3);
    assert InRange(t.components, 4) && InRange(t.components, 5);
    ZeroPaddedFacts(Year(t), 4);
    ZeroPaddedFacts(Month(t), 2);
    ZeroPaddedFacts(Day(t), 2);
    ZeroPaddedFacts(Hour(t), 2);
    ZeroPaddedFacts(Minute(t), 2);
    ZeroPaddedFacts(Second(t), 2);
    Fields(ZeroPadded(Year(t), 4), ZeroPadded(Month(t), 2), ZeroPadded(Day(t), 2), 'T',
           ZeroPadded(Hour(t), 2), ZeroPadded(Minute(t), 2), ZeroPadded(Second(t), 2));
  }

  /** The layout of `YYYY-MM-DDThh:mm:ss` built from its six fields. */
  lemma {:induction false} Fields(y: string, mo: string, d: string, sep: char, h: string, mi: string, s: string)
    requires |y| == 4 && |mo| == 2 && |d| == 2 && |h| == 2 && |mi| == 2 && |s| == 2
    requires AllDigits(y) && AllDigits(mo) && AllDigits(d)
    requires AllDigits(h) && AllDigits(mi) && AllDigits(s)
    requires sep == 'T' || sep == ' '
    ensures var text := y + "-" + mo + "-" + d + [sep] + h + ":" + mi + ":" + s;
      && |text| == 19 && WellFormed(text) && text[10] == sep
      && text[0..4] == y && text[5..7] == mo && text[8..10] == d
      && text[11..13] == h && text[14..16] == mi && text[17..19] == s
  {
    var text := y + "-" + mo + "-" + d + [sep] + h + ":" + mi + ":" + s;
    assert text[0..4] == y && text[5..7] == mo && text[8..10] == d;
    assert text[11..13] == h && text[14..16] == mi && text[17..19] == s;
  }

  /** The twelve sub-second digits read back as the sub-second picoseconds, and they are
      all '0' exactly when every sub-second component is zero. */
  lemma {:induction false} SubsecondFacts(t: DateTime)
    requires Valid(t)
    ensures |SubsecondText(t)| == 12 && AllDigits(SubsecondText(t))
    ensures Value(SubsecondText(t)) == ((Millisecond(t) * 1000 + Microsecond(t)) * 1000
                                         + Nanosecond(t)) * 1000 + Picosecond(t)
    ensures !WholeSecond(t) ==> exists i :: 0 <= i < 12 && SubsecondText(t)[i] != '0'
  {
    assert InRange(t.components, 6) && InRange(t.components, 7);
    assert InRange(t.components, 8) && InRange(t.components, 9);
    ZeroPaddedFacts(Millisecond(t), 3);
    ZeroPaddedFacts(Microsecond(t), 3);
    ZeroPaddedFacts(Nanosecond(t), 3);
    ZeroPaddedFacts(Picosecond(t), 3);
    var z := SubsecondText(t);
    ValueOfGroups(ZeroPadded(Millisecond(t), 3), ZeroPadded(Microsecond(t), 3),
                  ZeroPadded(Nanosecond(t), 3), ZeroPadded(Picosecond(t), 3));
    if !WholeSecond(t) {
      NotAllZeros(z);
    }
  }

  /** A field of digits with a non-zero value holds a digit other than '0'. */
  lemma {:induction false} NotAllZeros(z: string)
    requires AllDigits(z) && Value(z) != 0
    ensures exists i :: 0 <= i < |z| && z[i] != '0'
  {
    if forall i :: 0 <= i < |z| ==> z[i] == '0' {
      assert z == Zeros(|z|);
      ValueZeros(|z|);
    }
  }

  /** Appending a point and one to twelve digits keeps the string on the pattern. */
  lemma {:induction false} WellFormedWithFraction(text: string, f: string)
    requires WellFormed(text) && |text| == 19
    requires 1 <= |f| <= 12 && AllDigits(f)
    ensures WellFormed(text + "." + f)
    ensures (text + "." + f)[..19] == text && (text + "." + f)[20..] == f
    ensures (text + "." + f)[|text + "." + f| - 1] == f[|f| - 1]
  {
    var s := text + "." + f;
    assert s[..19] == text && s[20..] == f;
    assert s[0..4] == text[0..4] && s[5..7] == text[5..7] && s[8..10] == text[8..10];
    assert s[11..13] == text[11..13] && s[14..16] == text[14..16];
    assert s[17..19] == text[17..19];
  }

  // ------------------------------------------------------------ properties

  /** The accessors return the components the constructor was given, in order. */
  lemma {:induction false} AccessorsOfMake(year: int, month: int, day: int, hour: int, minute: int,
                        second: int, millisecond: int, microsecond: int, nanosecond: int,
                        picosecond: int)
    requires Make(year, month, day, hour, minute, second,
                  millisecond, microsecond, nanosecond, picosecond).Ok?
    ensures var t := Make(year, month, day, hour, minute, second,
                          millisecond, microsecond, nanosecond, picosecond).value;
      && Year(t) == year && Month(t) == month && Day(t) == day
      && Hour(t) == hour && Minute(t) == minute && Second(t) == second
      && Millisecond(t) == millisecond && Microsecond(t) == microsecond
      && Nanosecond(t) == nanosecond && Picosecond(t) == picosecond
      && Date(t) == Calendar.Date(year, month, day)
  {
  }

  /** The component constructor's year and month checks, on the library's own cases. */
  lemma {:induction false} MakeDateExamples()
    ensures Make(0, 1, 1, 0, 0, 0, 0, 0, 0, 0) == Err(InvalidArgument("invalid year"))
    ensures Make(10000, 1, 1, 0, 0, 0, 0, 0, 0, 0) == Err(InvalidArgument("invalid year"))
    ensures Make(2000, 0, 1, 0, 0, 0, 0, 0, 0, 0) == Err(InvalidArgument("invalid month"))
    ensures Make(2000, 13, 1, 0, 0, 0, 0, 0, 0, 0) == Err(InvalidArgument("invalid month"))
  {
  }

  /** The component constructor's day-of-month checks, on the library's own cases. */
  lemma {:induction false} MakeDayExamples()
    ensures Make(2000, 1, 0, 0, 0, 0, 0, 0, 0, 0) == Err(InvalidArgument("invalid day"))
    ensures Make(2000, 1, 32, 0, 0, 0, 0, 0, 0, 0) == Err(InvalidArgument("invalid day"))
    ensures Make(2000, 2, 30, 0, 0, 0, 0, 0, 0, 0) == Err(InvalidArgument("invalid day"))
    ensures Make(2001, 2, 29, 0, 0, 0, 0, 0, 0, 0) == Err(InvalidArgument("invalid day"))
    ensures Make(2000, 4, 31, 0, 0, 0, 0, 0, 0, 0) == Err(InvalidArgument("invalid day"))
    ensures Make(1920, 2, 29, 0, 0, 0, 0, 0, 0, 0).Ok?
  {
    assert Calendar.LastDayOfMonth(2001, 2) == 28;
    assert Calendar.LastDayOfMonth(1920, 2) == 29;
  }

  /** The component constructor's time-of-day checks, on the library's own cases. */
  lemma {:induction false} MakeTimeExamples()
    ensures Make(2000, 1, 1, -1, 0, 0, 0, 0, 0, 0) == Err(InvalidArgument("invalid hour"))
    ensures Make(2000, 1, 1, 24, 0, 0, 0, 0, 0, 0) == Err(InvalidArgument("invalid hour"))
    ensures Make(2000, 1, 1, 0, -1, 0, 0, 0, 0, 0) == Err(InvalidArgument("invalid minute"))
    ensures Make(2000, 1, 1, 0, 60, 0, 0, 0, 0, 0) == Err(InvalidArgument("invalid minute"))
    ensures Make(2000, 1, 1, 0, 0, -1, 0, 0, 0, 0) == Err(InvalidArgument("invalid second"))
    ensures Make(2000, 1, 1, 0, 0, 60, 0, 0, 0, 0) == Err(InvalidArgument("invalid second"))
  {
  }

  /** The component constructor's sub-second checks, on the library's own cases. */
  lemma {:induction false} MakeSubsecondExamples()
    ensures Make(2000, 1, 1, 0, 0, 0, -1, 0, 0, 0) == Err(InvalidArgument("invalid millisecond"))
    ensures Make(2000, 1, 1, 0, 0, 0, 1000, 0, 0, 0) == Err(InvalidArgument("invalid millisecond"))
    ensures Make(2000, 1, 1, 0, 0, 0, 0, -1, 0, 0) == Err(InvalidArgument("invalid microsecond"))
    ensures Make(2000, 1, 1, 0, 0, 0, 0, 1000, 0, 0) == Err(InvalidArgument("invalid microsecond"))
    ensures Make(2000, 1, 1, 0, 0, 0, 0, 0, -1, 0) == Err(InvalidArgument("invalid nanosecond"))
    ensures Make(2000, 1, 1, 0, 0, 0, 0, 0, 1000, 0) == Err(InvalidArgument("invalid nanosecond"))
    ensures Make(2000, 1, 1, 0, 0, 0, 0, 0, 0, -1) == Err(InvalidArgument("invalid picosecond"))
    ensures Make(2000, 1, 1, 0, 0, 0, 0, 0, 0, 1000) == Err(InvalidArgument("invalid picosecond"))
  {
  }

  /** `weekday()` on the library's own dates: 2021-04-03 was a Saturday, 1969-12-31 a
      Wednesday, 1920-02-29 a Sunday and 1920-03-01 a Monday. */
  lemma {:induction false} WeekdayExample2021()
    ensures Weekday(DateTime([2021, 4, 3, 0, 0, 0, 0, 0, 0, 0])) == Calendar.Saturday
  {
    WeekdayOf(2021, 4, 3, 0, 0, 0, 0, 18720);
  }

  lemma {:induction false} WeekdayExample1969()
    ensures Weekday(DateTime([1969, 12, 31, 23, 59, 59, 999, 999, 999, 999]))
              == Calendar.Wednesday
  {
    WeekdayOf(1969, 12, 31, 23, 59, 59, 999, -1);
  }

  lemma {:induction false} WeekdayExampleLeapDay()
    ensures Weekday(DateTime([1920, 2, 29, 0, 0, 0, 0, 0, 0, 0])) == Calendar.Sunday
    ensures Weekday(DateTime([1920, 3, 1, 0, 0, 0, 0, 0, 0, 0])) == Calendar.Monday
  {
    WeekdayOf(1920, 2, 29, 0, 0, 0, 0, -18204);
    WeekdayOf(1920, 3, 1, 0, 0, 0, 0, -18203);
  }

  /** The weekday of a valid DateTime is that of its date's day number. */
  lemma {:induction false} WeekdayOf(y: int, m: int, d: int, h: int, mi: int, s: int, sub: int, z: int)
    requires Make(y, m, d, h, mi, s, sub, sub, sub, sub).Ok?
    requires Calendar.DaysFromCivil(Calendar.Date(y, m, d)) == z
    ensures var t := DateTime([y, m, d, h, mi, s, sub, sub, sub, sub]);
      Valid(t) && Weekday(t) == Calendar.WeekdayFromDays(z)
  {
  }

  /** `a` and `b` agree before position `k` and `comp` orders them at `k`. */
  predicate FirstDifference(a: seq<int>, b: seq<int>, k: int, greater: bool) {
    0 <= k < |a| && k < |b| && (forall j :: 0 <= j < k ==> a[j] == b[j])
    && Precedes(a[k], b[k], greater)
  }

  /** On sequences of equal length, the lexicographic comparison holds exactly when the
      first position where they differ is ordered by `comp`. */
  lemma {:induction false} LexIff(a: seq<int>, b: seq<int>, greater: bool)
    requires |a| == |b|
    ensures Lex(a, b, greater) <==> exists k :: FirstDifference(a, b, k, greater)
    decreases |a|
  {
    if |a| == 0 {
      assert forall k :: !FirstDifference(a, b, k, greater);
    } else {
      LexIff(a[1..], b[1..], greater);
      if Lex(a, b, greater) {
        if Precedes(a[0], b[0], greater) {
          assert FirstDifference(a, b, 0, greater);
        } else {
          var k :| FirstDifference(a[1..], b[1..], k, greater);
          assert FirstDifference(a, b, k + 1, greater);
        }
      } else if exists k :: FirstDifference(a, b, k, greater) {
        var k :| FirstDifference(a, b, k, greater);
        if k == 0 {
          assert false;
        } else {
          assert FirstDifference(a[1..], b[1..], k - 1, greater);
          assert false;
        }
      }
    }
  }

  /** `>` on sequences of equal length is `<` with the operands swapped. */
  lemma {:induction false} GreaterIsSwappedLess(a: seq<int>, b: seq<int>)
    requires |a| == |b|
    ensures Lex(a, b, true) == Lex(b, a, false)
    decreases |a|
  {
    if |a| > 0 {
      GreaterIsSwappedLess(a[1..], b[1..]);
    }
  }

  /** Exactly one of `a < b`, `a == b` and `b < a` holds for sequences of equal length. */
  lemma {:induction false} LexTrichotomy(a: seq<int>, b: seq<int>)
    requires |a| == |b|
    ensures (if Lex(a, b, false) then 1 else 0) + (if a == b then 1 else 0)
              + (if Lex(b, a, false) then 1 else 0) == 1
    decreases |a|
  {
    if |a| > 0 {
      LexTrichotomy(a[1..], b[1..]);
      if a[0] == b[0] {
        assert a == b <==> a[1..] == b[1..] by {
          assert a == [a[0]] + a[1..] && b == [b[0]] + b[1..];
        }
      }
    }
  }

  /** A sequence no component of which exceeds the other's is not greater than it. */
  lemma {:induction false} PointwiseNotGreater(a: seq<int>, b: seq<int>)
    requires |a| == |b| && forall i :: 0 <= i < |a| ==> a[i] <= b[i]
    ensures !Lex(a, b, true)
    decreases |a|
  {
    if |a| > 0 {
      PointwiseNotGreater(a[1..], b[1..]);
    }
  }

  /** The comparison operators: `==` compares all ten components, `<` and `>` compare
      them lexicographically, most significant first, so exactly one of `<`, `==`, `>`
      holds; `<=` and `>=` are the negations of `>` and `<`. */
  lemma {:induction false} ComparisonLaws(a: DateTime, b: DateTime)
    ensures Equal(a, b) <==> (forall i :: 0 <= i < 10 ==> a.components[i] == b.components[i])
    ensures NotEqual(a, b) <==> !Equal(a, b)
    ensures Less(a, b) <==> exists k :: FirstDifference(a.components, b.components, k, false)
    ensures Greater(a, b) <==> exists k :: FirstDifference(a.components, b.components, k, true)
    ensures Greater(a, b) <==> Less(b, a)
    ensures (if Less(a, b) then 1 else 0) + (if Equal(a, b) then 1 else 0)
              + (if Greater(a, b) then 1 else 0) == 1
    ensures LessEq(a, b) <==> (Less(a, b) || Equal(a, b))
    ensures GreaterEq(a, b) <==> (Greater(a, b) || Equal(a, b))
  {
    LexIff(a.components, b.components, false);
    LexIff(a.components, b.components, true);
    GreaterIsSwappedLess(a.components, b.components);
    LexTrichotomy(a.components, b.components);
    GreaterIsSwappedLess(b.components, a.components);
  }

  /** `min()` and `max()` are 0001-01-01T00:00:00 and 9999-12-31T23:59:59.999999999999,
      and every valid DateTime lies between them. */
  lemma {:induction false} MinMax(t: DateTime)
    requires Valid(t)
    ensures Min().components == [1, 1, 1, 0, 0, 0, 0, 0, 0, 0]
    ensures Max().components == [9999, 12, 31, 23, 59, 59, 999, 999, 999, 999]
    ensures LessEq(Min(), t) && LessEq(t, Max())
  {
    forall i | 0 <= i < 10
      ensures Min().components[i] <= t.components[i] <= Max().components[i]
    {
      assert InRange(t.components, i);
    }
    PointwiseNotGreater(Min().components, t.components);
    PointwiseNotGreater(t.components, Max().components);
  }

  /** Parsing the formatted string gives back the same DateTime. */
  lemma {:induction false} RoundTrip(t: DateTime)
    requires Valid(t)
    ensures FromString(ToString(t)) == Ok(t)
  {
    ParsedFields(t);
    FractionRoundTrip(t);
    RoundTripFrom(t, ToString(t));
  }

  /** The picoseconds within the second a DateTime's sub-second components make up. */
  function SubsecondPicos(t: DateTime): int {
    ((Millisecond(t) * 1000 + Microsecond(t)) * 1000 + Nanosecond(t)) * 1000 + Picosecond(t)
  }

  /** Any string on the pattern with the fields of a valid DateTime parses back to it. */
  lemma {:induction false} RoundTripFrom(t: DateTime, s: string)
    requires Valid(t) && WellFormed(s)
    requires Value(s[0..4]) == Year(t) && Value(s[5..7]) == Month(t)
    requires Value(s[8..10]) == Day(t) && Value(s[11..13]) == Hour(t)
    requires Value(s[14..16]) == Minute(t) && Value(s[17..19]) == Second(t)
    requires FractionPicos(s) == SubsecondPicos(t)
    ensures FromString(s) == Ok(t)
  {
    var f := SubsecondPicos(t);
    SubsecondSplit(t);
    FromStringOfFields(s, Year(t), Month(t), Day(t), Hour(t), Minute(t), Second(t), f);
    MakeOfValid(t);
  }

  /** Division and remainder by powers of a thousand recover the sub-second components. */
  lemma {:induction false} SubsecondSplit(t: DateTime)
    requires Valid(t)
    ensures var f := SubsecondPicos(t);
      && f / 1000_000_000 == Millisecond(t) && (f / 1000_000) % 1000 == Microsecond(t)
      && (f / 1000) % 1000 == Nanosecond(t) && f % 1000 == Picosecond(t)
  {
    assert InRange(t.components, 6) && InRange(t.components, 7);
    assert InRange(t.components, 8) && InRange(t.components, 9);
    SplitThousands(Millisecond(t), Microsecond(t), Nanosecond(t), Picosecond(t));
  }

  /** The string constructor on a string on the pattern, in terms of its field values. */
  lemma {:induction false} FromStringOfFields(s: string, y: int, mo: int, d: int, h: int, mi: int, sec: int,
                           f: int)
    requires WellFormed(s)
    requires Value(s[0..4]) == y && Value(s[5..7]) == mo && Value(s[8..10]) == d
    requires Value(s[11..13]) == h && Value(s[14..16]) == mi && Value(s[17..19]) == sec
    requires FractionPicos(s) == f
    ensures FromString(s) == Make(y, mo, d, h, mi, sec, f / 1000_000_000,
                                  (f / 1000_000) % 1000, (f / 1000) % 1000, f % 1000)
  {
  }

  /** Constructing from the components of a valid DateTime gives it back. */
  lemma {:induction false} MakeOfValid(t: DateTime)
    requires Valid(t)
    ensures Make(Year(t), Month(t), Day(t), Hour(t), Minute(t), Second(t),
                 Millisecond(t), Microsecond(t), Nanosecond(t), Picosecond(t)) == Ok(t)
  {
    var c: Components := [Year(t), Month(t), Day(t), Hour(t), Minute(t), Second(t),
                          Millisecond(t), Microsecond(t), Nanosecond(t), Picosecond(t)];
    assert c == t.components;
    Rejected(c, 10);
  }

  /** The formatted string holds the date and time fields of the DateTime. */
  lemma {:induction false} ParsedFields(t: DateTime)
    requires Valid(t)
    ensures var s := ToString(t);
      && Value(s[0..4]) == Year(t) && Value(s[5..7]) == Month(t) && Value(s[8..10]) == Day(t)
      && Value(s[11..13]) == Hour(t) && Value(s[14..16]) == Minute(t)
      && Value(s[17..19]) == Second(t)
  {
    var s, text := ToString(t), DateAndTimeText(t);
    FieldFacts(t);
    if !WholeSecond(t) {
      FractionFacts(t);
      WellFormedWithFraction(text, Trim(SubsecondText(t)));
    }
    SameFields(s, text);
  }

  /** A string that starts with a 19-character date and time has that text's fields. */
  lemma {:induction false} SameFields(s: string, text: string)
    requires |text| == 19 && |s| >= 19 && s[..19] == text
    ensures s[0..4] == text[0..4] && s[5..7] == text[5..7] && s[8..10] == text[8..10]
    ensures s[11..13] == text[11..13] && s[14..16] == text[14..16]
    ensures s[17..19] == text[17..19]
  {
  }

  /** The fraction of the formatted string is worth the DateTime's sub-seconds. */
  lemma {:induction false} FractionRoundTrip(t: DateTime)
    requires Valid(t)
    ensures FractionPicos(ToString(t)) == SubsecondPicos(t)
  {
    SubsecondFacts(t);
    var s, z := ToString(t), SubsecondText(t);
    if WholeSecond(t) {
      assert |s| == 19;
    } else {
      FieldFacts(t);
      FractionFacts(t);
      WellFormedWithFraction(DateAndTimeText(t), Trim(z));
      assert s[20..] == Trim(z);
      TrimFacts(z);
      PaddedValue(Trim(z), 12);
    }
  }

  /** Strings off the pattern are rejected: no date at all, a `*` separator, thirteen
      sub-second digits. */
  lemma {:induction false} ParseRejects()
    ensures FromString("asdf") == Err(InvalidArgument("bad datetime string format"))
    ensures FromString("2001-02-03*04:05:06.78")
              == Err(InvalidArgument("bad datetime string format"))
    ensures FromString("2001-02-03T04:05:06.0000000000001")
              == Err(InvalidArgument("bad datetime string format"))
  {
    assert "2001-02-03*04:05:06.78"[10] == '*';
  }

  /** The text `y-mo-d<sep>h:mi:sec`, followed by `.frac` when `frac` is not empty. */
  function Text(y: string, mo: string, d: string, sep: char, h: string, mi: string,
                sec: string, frac: string): string
  {
    y + "-" + mo + "-" + d + [sep] + h + ":" + mi + ":" + sec
      + (if |frac| == 0 then "" else "." + frac)
  }

  /** Parsing a text assembled from digit fields of the pattern's widths: the fields'
      values, and the fraction read as a decimal fraction of a second. */
  lemma {:induction false} ParseOfFields(y: string, mo: string, d: string, sep: char, h: string, mi: string,
                      sec: string, frac: string)
    requires |y| == 4 && |mo| == 2 && |d| == 2 && |h| == 2 && |mi| == 2 && |sec| == 2
    requires AllDigits(y) && AllDigits(mo) && AllDigits(d)
    requires AllDigits(h) && AllDigits(mi) && AllDigits(sec)
    requires sep == 'T' || sep == ' '
    requires |frac| <= 12 && AllDigits(frac)
    ensures var f := Value(frac) * Pow10(12 - |frac|);
      FromString(Text(y, mo, d, sep, h, mi, sec, frac))
        == Make(Value(y), Value(mo), Value(d), Value(h), Value(mi), Value(sec),
                f / 1000_000_000, (f / 1000_000) % 1000, (f / 1000) % 1000, f % 1000)
  {
    TextFacts(y, mo, d, sep, h, mi, sec, frac);
    FromStringOfFields(Text(y, mo, d, sep, h, mi, sec, frac),
                       Value(y), Value(mo), Value(d), Value(h), Value(mi), Value(sec),
                       Value(frac) * Pow10(12 - |frac|));
  }

  /** A text assembled from digit fields of the pattern's widths is on the pattern,
      holds those fields and has their fraction. */
  lemma {:induction false} TextFacts(y: string, mo: string, d: string, sep: char, h: string, mi: string,
                  sec: string, frac: string)
    requires |y| == 4 && |mo| == 2 && |d| == 2 && |h| == 2 && |mi| == 2 && |sec| == 2
    requires AllDigits(y) && AllDigits(mo) && AllDigits(d)
    requires AllDigits(h) && AllDigits(mi) && AllDigits(sec)
    requires sep == 'T' || sep == ' '
    requires |frac| <= 12 && AllDigits(frac)
    ensures var s := Text(y, mo, d, sep, h, mi, sec, frac);
      && WellFormed(s) && s[10] == sep
      && Value(s[0..4]) == Value(y) && Value(s[5..7]) == Value(mo) && Value(s[8..10]) == Value(d)
      && Value(s[11..13]) == Value(h) && Value(s[14..16]) == Value(mi)
      && Value(s[17..19]) == Value(sec)
      && FractionPicos(s) == Value(frac) * Pow10(12 - |frac|)
  {
    var text := y + "-" + mo + "-" + d + [sep] + h + ":" + mi + ":" + sec;
    Fields(y, mo, d, sep, h, mi, sec);
    TextParts(Text(y, mo, d, sep, h, mi, sec, frac), text, frac);
  }

  /** A 19-character date and time, optionally followed by a point and a fraction. */
  lemma {:induction false} TextParts(s: string, text: string, frac: string)
    requires WellFormed(text) && |text| == 19
    requires |frac| <= 12 && AllDigits(frac)
    requires |frac| == 0 ==> s == text
    requires |frac| > 0 ==> s == text + "." + frac
    ensures WellFormed(s) && s[10] == text[10]
    ensures s[0..4] == text[0..4] && s[5..7] == text[5..7] && s[8..10] == text[8..10]
    ensures s[11..13] == text[11..13] && s[14..16] == text[14..16]
    ensures s[17..19] == text[17..19]
    ensures FractionPicos(s) == Value(frac) * Pow10(12 - |frac|)
  {
    if |frac| == 0 {
      assert Value(frac) * Pow10(12 - |frac|) == 0;
    } else {
      WellFormedWithFraction(text, frac);
      FractionOfDigits(s, frac);
    }
    SameFields(s, text);
  }

  /** The sub-seconds of a string whose fraction digits are known. */
  lemma {:induction false} FractionOfDigits(s: string, frac: string)
    requires WellFormed(s) && |s| > 19 && s[20..] == frac
    ensures FractionPicos(s) == Value(frac) * Pow10(12 - |frac|)
  {
  }

  /** `ParseOfFields` with the expected components named. */
  lemma {:induction false} ParseOfFieldsIs(y: string, mo: string, d: string, sep: char, h: string, mi: string,
                        sec: string, frac: string, year: int, month: int, day: int,
                        hour: int, minute: int, second: int, ms: int, us: int, ns: int,
                        ps: int)
    requires |y| == 4 && |mo| == 2 && |d| == 2 && |h| == 2 && |mi| == 2 && |sec| == 2
    requires AllDigits(y) && AllDigits(mo) && AllDigits(d)
    requires AllDigits(h) && AllDigits(mi) && AllDigits(sec)
    requires sep == 'T' || sep == ' '
    requires |frac| <= 12 && AllDigits(frac)
    requires Value(y) == year && Value(mo) == month && Value(d) == day
    requires Value(h) == hour && Value(mi) == minute && Value(sec) == second
    requires Value(frac) * Pow10(12 - |frac|) == ms * 1000_000_000 + us * 1000_000 + ns * 1000 + ps
    requires 0 <= us < 1000 && 0 <= ns < 1000 && 0 <= ps < 1000 && 0 <= ms
    ensures FromString(Text(y, mo, d, sep, h, mi, sec, frac))
              == Make(year, month, day, hour, minute, second, ms, us, ns, ps)
  {
    var f := Value(frac) * Pow10(12 - |frac|);
    ParseOfFields(y, mo, d, sep, h, mi, sec, frac);
    SplitExample(f, ms, us, ns, ps);
  }

  lemma {:induction false} SplitExample(f: int, ms: int, us: int, ns: int, ps: int)
    requires f == ms * 1000_000_000 + us * 1000_000 + ns * 1000 + ps
    requires 0 <= us < 1000 && 0 <= ns < 1000 && 0 <= ps < 1000 && 0 <= ms
    ensures f / 1000_000_000 == ms && (f / 1000_000) % 1000 == us
    ensures (f / 1000) % 1000 == ns && f % 1000 == ps
  {
    Arith.FloorDivUnique(f, 1000_000_000, ms, us * 1000_000 + ns * 1000 + ps);
    Arith.FloorDivUnique(f, 1000_000, ms * 1000 + us, ns * 1000 + ps);
    Arith.FloorDivUnique(f / 1000_000, 1000, ms, us);
    Arith.FloorDivUnique(f, 1000, (ms * 1000 + us) * 1000 + ns, ps);
    Arith.FloorDivUnique(f / 1000, 1000, ms * 1000 + us, ns);
  }

  /** The library's parsing cases: `.789` is 789 ms. */
  lemma {:induction false} ParseExampleMillis()
    ensures FromString(Text("2001", "02", "03", 'T', "04", "05", "06", "789"))
              == Make(2001, 2, 3, 4, 5, 6, 789, 0, 0, 0)
  {
    Value4('2', '0', '0', '1');
    Value2('0', '2'); Value2('0', '3'); Value2('0', '4'); Value2('0', '5'); Value2('0', '6');
    Value3('7', '8', '9');
    assert Pow10(9) == 1000_000_000;
    ParseOfFieldsIs("2001", "02", "03", 'T', "04", "05", "06", "789", 2001, 2, 3, 4, 5, 6, 789, 0, 0, 0);
  }

  /** A space separator, and `.78` is 780 ms. */
  lemma {:induction false} ParseExampleSpace()
    ensures FromString(Text("2001", "02", "03", ' ', "04", "05", "06", "78"))
              == Make(2001, 2, 3, 4, 5, 6, 780, 0, 0, 0)
  {
    Value4('2', '0', '0', '1');
    Value2('0', '2'); Value2('0', '3'); Value2('0', '4'); Value2('0', '5'); Value2('0', '6');
    Value2('7', '8');
    assert Pow10(10) == 10_000_000_000;
    ParseOfFieldsIs("2001", "02", "03", ' ', "04", "05", "06", "78", 2001, 2, 3, 4, 5, 6, 780, 0, 0, 0);
  }

  /** Twelve digits give all four sub-second components. */
  lemma {:induction false} ParseExamplePicos()
    ensures FromString(Text("2000", "01", "02", 'T', "03", "04", "05", "006007008009"))
              == Make(2000, 1, 2, 3, 4, 5, 6, 7, 8, 9)
  {
    Value4('2', '0', '0', '0');
    Value2('0', '1'); Value2('0', '2'); Value2('0', '3'); Value2('0', '4'); Value2('0', '5');
    TwelveDigitsExample();
    ParseOfFieldsIs("2000", "01", "02", 'T', "03", "04", "05", "006007008009",
                    2000, 1, 2, 3, 4, 5, 6, 7, 8, 9);
  }

  /** No fraction: the sub-seconds are zero. */
  lemma {:induction false} ParseExampleWhole()
    ensures FromString(Text("2001", "02", "03", 'T', "04", "05", "06", ""))
              == Make(2001, 2, 3, 4, 5, 6, 0, 0, 0, 0)
  {
    Value4('2', '0', '0', '1');
    Value2('0', '2'); Value2('0', '3'); Value2('0', '4'); Value2('0', '5'); Value2('0', '6');
    ParseOfFieldsIs("2001", "02", "03", 'T', "04", "05", "06", "", 2001, 2, 3, 4, 5, 6, 0, 0, 0, 0);
  }

  lemma {:induction false} TwelveDigitsExample()
    ensures AllDigits("006007008009") && Value("006007008009") == 6007008009
  {
    Value3('0', '0', '6'); Value3('0', '0', '7'); Value3('0', '0', '8'); Value3('0', '0', '9');
    assert "006007008009" == "006" + "007" + "008" + "009";
    ValueOfGroups("006", "007", "008", "009");
  }

  /** The date and time text of 2000-01-02T03:04:05, the time the formatting tests use. */
  lemma {:induction false} ClockTextExample(t: DateTime)
    requires Valid(t)
    requires Year(t) == 2000 && Month(t) == 1 && Day(t) == 2
    requires Hour(t) == 3 && Minute(t) == 4 && Second(t) == 5
    ensures DateAndTimeText(t) == "2000-01-02T03:04:05"
  {
    PaddedClockFields();
  }

  /** The text of a DateTime with a sub-second part, from its two halves. */
  lemma {:induction false} ToStringOfParts(t: DateTime, clock: string, sub: string)
    requires Valid(t) && !WholeSecond(t)
    requires DateAndTimeText(t) == clock && Trim(SubsecondText(t)) == sub
    ensures ToString(t) == clock + "." + sub
  {
  }

  /** The sub-second groups of 6 ms, 7 us, 8 ns and 9 ps print as twelve digits, none of them trimmed. */
  lemma {:induction false} SubsecondTextPicos(t: DateTime)
    requires Valid(t)
    requires Millisecond(t) == 6 && Microsecond(t) == 7 && Nanosecond(t) == 8 && Picosecond(t) == 9
    ensures Trim(SubsecondText(t)) == "006007008009"
  {
    PaddedMilliFields();
    assert SubsecondText(t) == "006" + "007" + "008" + "009";
    assert "006" + "007" + "008" + "009" == "006007008009";
    TrimKeeps("006007008009");
  }

  /** The sub-second groups of 678 ms and 900 us print as `6789` once trimmed. */
  lemma {:induction false} SubsecondTextTrimmed(t: DateTime)
    requires Valid(t)
    requires Millisecond(t) == 678 && Microsecond(t) == 900 && Nanosecond(t) == 0 && Picosecond(t) == 0
    ensures Trim(SubsecondText(t)) == "6789"
  {
    PaddedMilliFields();
    assert SubsecondText(t) == "6789" + Zeros(8);
    TrimPadded("6789", 8);
  }

  /** `std::string(DateTime(2000, 1, 2, 3, 4, 5, 6, 7, 8, 9))` prints all four groups. */
  lemma {:induction false} ToStringExamplePicos(t: DateTime)
    requires Make(2000, 1, 2, 3, 4, 5, 6, 7, 8, 9) == Ok(t)
    ensures ToString(t) == "2000-01-02T03:04:05.006007008009"
  {
    AccessorsOfMake(2000, 1, 2, 3, 4, 5, 6, 7, 8, 9);
    ClockTextExample(t);
    SubsecondTextPicos(t);
    ToStringOfParts(t, "2000-01-02T03:04:05", "006007008009");
  }

  /** A whole second prints no fraction. */
  lemma {:induction false} ToStringExampleWhole(t: DateTime)
    requires Make(2000, 1, 2, 3, 4, 5, 0, 0, 0, 0) == Ok(t)
    ensures ToString(t) == "2000-01-02T03:04:05"
  {
    AccessorsOfMake(2000, 1, 2, 3, 4, 5, 0, 0, 0, 0);
    ClockTextExample(t);
  }

  /** Trailing zeros of the fraction are trimmed: 678 ms and 900 us print `.6789`. */
  lemma {:induction false} ToStringExampleTrimmed(t: DateTime)
    requires Make(2000, 1, 2, 3, 4, 5, 678, 900, 0, 0) == Ok(t)
    ensures ToString(t) == "2000-01-02T03:04:05.6789"
  {
    AccessorsOfMake(2000, 1, 2, 3, 4, 5, 678, 900, 0, 0);
    ClockTextExample(t);
    SubsecondTextTrimmed(t);
    ToStringOfParts(t, "2000-01-02T03:04:05", "6789");
  }
}
