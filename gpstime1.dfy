/** The version-1 GPSTime: a 128-bit picosecond tick count since the GPS epoch,
    1980-01-06 00:00:00. GPS time has no leap seconds, so the epoch is a fixed 3657 days
    after 1970-01-01. The calendar components are computed from the tick count on
    demand; the component constructor and the string constructor go the other way. */
module GpsTime1 {
  import opened Arith
  import opened Digits
  import opened Errors
  import Calendar
  import TD = TimeDelta1
  import DT = DateTime2

  /** Days from 1970-01-01 to 1980-01-06: the change of epoch made by `clock_cast`. */
  const GPS_EPOCH_DAYS: int := 3657

  const PS_PER_US: int := 1000_000
  const PS_PER_S: int := 1000_000_000_000
  const PS_PER_MIN: int := 60 * PS_PER_S
  const PS_PER_HOUR: int := 3600 * PS_PER_S
  const PS_PER_DAY: int := 86400 * PS_PER_S

  /** The tick counts of 0001-01-01T00:00:00 and 9999-12-31T23:59:59.999999999999. */
  const MIN_TICKS: int := -722819 * PS_PER_DAY
  const MAX_TICKS: int := 2929240 * PS_PER_DAY - 1

  /** The `time_point_` field: picoseconds since the GPS epoch. */
  datatype GpsTime = GpsTime(ticks: Int128)

  /** The eight components, most significant first: year, month, day, hour, minute,
      second, microsecond, picosecond. */
  type Fields = c: seq<int> | |c| == 8 witness [1, 1, 1, 0, 0, 0, 0, 0]

  /** The component constructor's error message for each component, in order. */
  const MESSAGES: seq<string> := [
    "invalid year", "invalid month", "invalid day", "invalid hour", "invalid minute",
    "invalid second", "invalid microsecond", "invalid picosecond"]

  // ------------------------------------------------------------ construction

  /** Component `i` lies in its range: years 1 through 9999, months 1 through 12, a day
      of that month, a 24-hour clock, and microseconds and picoseconds in [0, 10^6). */
  predicate InRange(c: Fields, i: int)
    requires 0 <= i < 8
  {
    if i == 0 then 1 <= c[0] <= 9999
    else if i == 1 then 1 <= c[1] <= 12
    else if i == 2 then Calendar.IsValid(Calendar.Date(c[0], c[1], c[2]))
    else if i == 3 then 0 <= c[3] < 24
    else if i <= 5 then 0 <= c[i] < 60
    else 0 <= c[i] < 1000_000
  }

  /** The first component from `i` on that is out of range, or 8 if there is none. */
  function FirstInvalid(c: Fields, i: nat): (k: nat)
    requires i <= 8
    ensures i <= k <= 8
    ensures k < 8 ==> !InRange(c, k)
    ensures forall j :: i <= j < k ==> InRange(c, j)
    decreases 8 - i
  {
    if i == 8 then 8 else if !InRange(c, i) then i else FirstInvalid(c, i + 1)
  }

  /** `local_days(year_month_day)` moved to the GPS epoch: the day number of a date. */
  function GpsDays(date: Calendar.Date): int
    requires Calendar.IsValid(date)
  {
    Calendar.DaysFromCivil(date) - GPS_EPOCH_DAYS
  }

  /** `Hours(hour) + Minutes(minute) + Seconds(second) + Microsecs(us) + Picosecs(ps)`. */
  function SinceMidnight(hour: int, minute: int, second: int, microsecond: int,
                         picosecond: int): int
  {
    hour * PS_PER_HOUR + minute * PS_PER_MIN + second * PS_PER_S
      + microsecond * PS_PER_US + picosecond
  }

  /** A time point is within [min(), max()]. */
  predicate Valid(t: GpsTime) {
    MIN_TICKS <= t.ticks <= MAX_TICKS
  }

  /** The component constructor: the components are checked in order and the first one
      outside its range is reported; otherwise the time point is the date's day number
      in whole days plus the time since midnight. */
  function Make(year: int, month: int, day: int, hour: int, minute: int, second: int,
                microsecond: int, picosecond: int): (r: Result<GpsTime>)
    ensures var c: Fields := [year, month, day, hour, minute, second, microsecond, picosecond];
      && (r.Ok? <==> FirstInvalid(c, 0) == 8)
      && (r.Err? ==> r.error == InvalidArgument(MESSAGES[FirstInvalid(c, 0)]))
      && (r.Ok? ==> Valid(r.value))
  {
    var c: Fields := [year, month, day, hour, minute, second, microsecond, picosecond];
    if year < 1 || year > 9999 then
      Rejected(c, 0); Err(InvalidArgument("invalid year"))
    else if month < 1 || month > 12 then
      Rejected(c, 1); Err(InvalidArgument("invalid month"))
    else if day < 1 || day > Calendar.LastDayOfMonth(year, month) then
      Rejected(c, 2); Err(InvalidArgument("invalid day"))
    else if hour < 0 || hour >= 24 then
      Rejected(c, 3); Err(InvalidArgument("invalid hour"))
    else if minute < 0 || minute >= 60 then
      Rejected(c, 4); Err(InvalidArgument("invalid minute"))
    else if second < 0 || second >= 60 then
      Rejected(c, 5); Err(InvalidArgument("invalid second"))
    else if microsecond < 0 || microsecond >= 1000_000 then
      Rejected(c, 6); Err(InvalidArgument("invalid microsecond"))
    else if picosecond < 0 || picosecond >= 1000_000 then
      Rejected(c, 7); Err(InvalidArgument("invalid picosecond"))
    else
      Rejected(c, 8);
      Ok(Assemble(year, month, day, hour, minute, second, microsecond, picosecond))
  }

  /** `TimePoint(gps_days) + since_midnight` for components in range. */
  function Assemble(year: int, month: int, day: int, hour: int, minute: int, second: int,
                    microsecond: int, picosecond: int): (t: GpsTime)
    requires 1 <= year <= 9999 && Calendar.IsValid(Calendar.Date(year, month, day))
    requires 0 <= hour < 24 && 0 <= minute < 60 && 0 <= second < 60
    requires 0 <= microsecond < 1000_000 && 0 <= picosecond < 1000_000
    ensures Valid(t)
  {
    var date := Calendar.Date(year, month, day);
    var tod := SinceMidnight(hour, minute, second, microsecond, picosecond);
    TicksInRange(date, tod);
    GpsTime(GpsDays(date) * PS_PER_DAY + tod)
  }

  /** The search for an invalid component stops at the first one. */
  lemma {:induction false} Rejected(c: Fields, k: nat)
    requires k <= 8 && (k < 8 ==> !InRange(c, k))
    requires forall j :: 0 <= j < k ==> InRange(c, j)
    ensures FirstInvalid(c, 0) == k
  {
    FirstInvalidFrom(c, 0, k);
  }

  lemma {:induction false} FirstInvalidFrom(c: Fields, i: nat, k: nat)
    requires i <= k <= 8 && (k < 8 ==> !InRange(c, k))
    requires forall j :: i <= j < k ==> InRange(c, j)
    ensures FirstInvalid(c, i) == k
    decreases k - i
  {
    if i < k {
      FirstInvalidFrom(c, i + 1, k);
    }
  }

  /** A time since midnight within one day, put on a date in years 1 through 9999. */
  lemma {:induction false} TicksInRange(date: Calendar.Date, tod: int)
    requires Calendar.IsValid(date) && 1 <= date.year <= 9999
    requires 0 <= tod < PS_PER_DAY
    ensures MIN_TICKS <= GpsDays(date) * PS_PER_DAY + tod <= MAX_TICKS
  {
    var n := GpsDays(date);
    DaysInRange(date);
    MulMonotone(PS_PER_DAY, -722819, n);
    MulMonotone(PS_PER_DAY, n, 2929239);
  }

  /** The day numbers of dates in years 1 through 9999. */
  lemma {:induction false} DaysInRange(date: Calendar.Date)
    requires Calendar.IsValid(date) && 1 <= date.year <= 9999
    ensures -722819 <= GpsDays(date) <= 2929239
  {
    var first, last := Calendar.Date(1, 1, 1), Calendar.Date(9999, 12, 31);
    assert GpsDays(first) == -722819 && GpsDays(last) == 2929239;
    if date != first {
      Calendar.DaysFromCivilStrictlyIncreasing(first, date);
    }
    if date != last {
      Calendar.DaysFromCivilStrictlyIncreasing(date, last);
    }
  }

  /** `min()`: 0001-01-01T00:00:00. */
  function Min(): (t: GpsTime)
    ensures t.ticks == MIN_TICKS
  {
    var r := Make(1, 1, 1, 0, 0, 0, 0, 0);
    Rejected([1, 1, 1, 0, 0, 0, 0, 0], 8);
    assert r.Ok?;
    assert GpsDays(Calendar.Date(1, 1, 1)) == -722819;
    r.value
  }

  /** `max()`: 9999-12-31T23:59:59.999999999999. */
  function Max(): (t: GpsTime)
    ensures t.ticks == MAX_TICKS
  {
    var r := Make(9999, 12, 31, 23, 59, 59, 999_999, 999_999);
    Rejected([9999, 12, 31, 23, 59, 59, 999_999, 999_999], 8);
    assert r.Ok?;
    assert GpsDays(Calendar.Date(9999, 12, 31)) == 2929239;
    r.value
  }

  /** The time-point constructor: a time point before `min()` or after `max()` is out
      of range. */
  function FromTimePoint(ticks: Int128): (r: Result<GpsTime>)
    ensures r.Ok? <==> Valid(GpsTime(ticks))
    ensures r.Ok? ==> r.value.ticks == ticks
    ensures r.Err? ==> r.error == OutOfRange("input time point is outside of valid GPSTime range")
  {
    var t := GpsTime(ticks);
    if Less(t, Min()) || Greater(t, Max()) then
      Err(OutOfRange("input time point is outside of valid GPSTime range"))
    else Ok(t)
  }

  // ---------------------------------------------------------------- accessors

  /** The time point moved to 1970-01-01 and rounded down to whole days. */
  function UnixDays(t: GpsTime): int {
    (t.ticks + GPS_EPOCH_DAYS * PS_PER_DAY) / PS_PER_DAY
  }

  /** `date()`: the calendar date of the day the time point falls in. */
  function Date(t: GpsTime): (d: Calendar.Date)
    ensures Calendar.IsValid(d) && Calendar.DaysFromCivil(d) == UnixDays(t)
  {
    Calendar.CivilFromDaysInverse(UnixDays(t));
    Calendar.CivilFromDays(UnixDays(t))
  }

  /** `time_of_day()`: the ticks minus the ticks rounded down to whole days. */
  function TimeOfDay(t: GpsTime): (d: int)
    ensures 0 <= d < PS_PER_DAY
  {
    t.ticks - (t.ticks / PS_PER_DAY) * PS_PER_DAY
  }

  /** `hh_mm_ss` of the time of day: whole hours, then whole minutes of the rest, then
      whole seconds, then what is left. */
  function Hour(t: GpsTime): int {
    TimeOfDay(t) / PS_PER_HOUR
  }

  function Minute(t: GpsTime): int {
    (TimeOfDay(t) - Hour(t) * PS_PER_HOUR) / PS_PER_MIN
  }

  function Second(t: GpsTime): int {
    (TimeOfDay(t) - Hour(t) * PS_PER_HOUR - Minute(t) * PS_PER_MIN) / PS_PER_S
  }

  function Subseconds(t: GpsTime): int {
    TimeOfDay(t) - Hour(t) * PS_PER_HOUR - Minute(t) * PS_PER_MIN - Second(t) * PS_PER_S
  }

  function Year(t: GpsTime): int { Date(t).year }
  function Month(t: GpsTime): int { Date(t).month }
  function Day(t: GpsTime): int { Date(t).day }

  /** `microsecond()`: the sub-seconds truncated to whole microseconds. */
  function Microsecond(t: GpsTime): int {
    Subseconds(t) / PS_PER_US
  }

  /** `picosecond()`: the sub-seconds minus their whole microseconds. */
  function Picosecond(t: GpsTime): int {
    Subseconds(t) - Microsecond(t) * PS_PER_US
  }

  /** `weekday()`: the day of the week of the date's day number since 1970-01-01. */
  function Weekday(t: GpsTime): Calendar.Weekday {
    Calendar.WeekdayFromDays(Calendar.DaysFromCivil(Date(t)))
  }

  /** All eight components, in the constructor's order. */
  function Components(t: GpsTime): Fields {
    [Year(t), Month(t), Day(t), Hour(t), Minute(t), Second(t), Microsecond(t), Picosecond(t)]
  }

  // --------------------------------------------------------------- arithmetic

  /** `t + dt` and `dt + t`: a copy of `t`, then `+= dt`. */
  function Add(t: GpsTime, dt: TD.TimeDelta): (r: GpsTime)
    requires InInt128(t.ticks + dt.count)
    ensures r.ticks - t.ticks == dt.count
  {
    GpsTime(t.ticks + dt.count)
  }

  /** `t - dt`: a copy of `t`, then `-= dt`. */
  function Subtract(t: GpsTime, dt: TD.TimeDelta): (r: GpsTime)
    requires InInt128(t.ticks - dt.count)
    ensures t.ticks - r.ticks == dt.count
  {
    GpsTime(t.ticks - dt.count)
  }

  /** `t1 - t2`: the TimeDelta between the two time points. */
  function Difference(t1: GpsTime, t2: GpsTime): (dt: TD.TimeDelta)
    requires InInt128(t1.ticks - t2.ticks)
    ensures t2.ticks + dt.count == t1.ticks
  {
    TD.TimeDelta(t1.ticks - t2.ticks)
  }

  /** The in-place operators act on a GPSTime object's `time_point_`. */
  class MutableGpsTime {
    var time: GpsTime

    constructor(t: GpsTime)
      ensures time == t
    {
      time := t;
    }

    /** `++t`: one tick later; the object itself is returned. */
    method PreIncrement() returns (r: GpsTime)
      requires InInt128(time.ticks + 1)
      modifies this
      ensures time.ticks == old(time.ticks) + 1 && r == time
    {
      time := GpsTime(time.ticks + 1);
      r := time;
    }

    /** `t++` as written: `GPSTime(time_point_ + Duration(1))`, a new range-checked
        time point one tick later; the object itself is left as it was. */
    method PostIncrement() returns (r: Result<GpsTime>)
      requires InInt128(time.ticks + 1)
      modifies this
      ensures time == old(time)
      ensures r == FromTimePoint(old(time.ticks) + 1)
    {
      r := FromTimePoint(time.ticks + 1);
    }

    /** `t++` as a postfix increment is meant: the object moves one tick later and
        its previous value is returned. */
    method PostIncrementIntended() returns (r: GpsTime)
      requires InInt128(time.ticks + 1)
      modifies this
      ensures time.ticks == old(time.ticks) + 1 && r == old(time)
    {
      r := time;
      time := GpsTime(time.ticks + 1);
    }

    /** `--t`: one tick earlier; the object itself is returned. */
    method PreDecrement() returns (r: GpsTime)
      requires InInt128(time.ticks - 1)
      modifies this
      ensures time.ticks == old(time.ticks) - 1 && r == time
    {
      time := GpsTime(time.ticks - 1);
      r := time;
    }

    /** `t--` as written: a new range-checked time point one tick earlier; the object
        itself is left as it was. */
    method PostDecrement() returns (r: Result<GpsTime>)
      requires InInt128(time.ticks - 1)
      modifies this
      ensures time == old(time)
      ensures r == FromTimePoint(old(time.ticks) - 1)
    {
      r := FromTimePoint(time.ticks - 1);
    }

    /** `t--` as a postfix decrement is meant. */
    method PostDecrementIntended() returns (r: GpsTime)
      requires InInt128(time.ticks - 1)
      modifies this
      ensures time.ticks == old(time.ticks) - 1 && r == old(time)
    {
      r := time;
      time := GpsTime(time.ticks - 1);
    }

    /** `t += dt`. */
    method AddAssign(dt: TD.TimeDelta) returns (r: GpsTime)
      requires InInt128(time.ticks + dt.count)
      modifies this
      ensures time == Add(old(time), dt) && r == time
    {
      time := GpsTime(time.ticks + dt.count);
      r := time;
    }

    /** `t -= dt`. */
    method SubtractAssign(dt: TD.TimeDelta) returns (r: GpsTime)
      requires InInt128(time.ticks - dt.count)
      modifies this
      ensures time == Subtract(old(time), dt) && r == time
    {
      time := GpsTime(time.ticks - dt.count);
      r := time;
    }
  }

  // -------------------------------------------------------------- comparisons

  /** The comparison operators compare the tick counts. */
  predicate Equal(a: GpsTime, b: GpsTime) { a.ticks == b.ticks }
  predicate NotEqual(a: GpsTime, b: GpsTime) { !Equal(a, b) }
  predicate Less(a: GpsTime, b: GpsTime) { a.ticks < b.ticks }
  predicate Greater(a: GpsTime, b: GpsTime) { a.ticks > b.ticks }
  predicate LessEq(a: GpsTime, b: GpsTime) { !Greater(a, b) }
  predicate GreaterEq(a: GpsTime, b: GpsTime) { !Less(a, b) }

  // --------------------------------------------------------------- formatting

  /** `fmt::format("{:04d}-{:02d}-{:02d}T{:02d}:{:02d}:{:02d}", ...)`. */
  function DateAndTimeText(t: GpsTime): string
    requires Valid(t)
  {
    ComponentRanges(t);
    ZeroPadded(Year(t), 4) + "-" + ZeroPadded(Month(t), 2) + "-" + ZeroPadded(Day(t), 2)
      + "T" + ZeroPadded(Hour(t), 2) + ":" + ZeroPadded(Minute(t), 2) + ":"
      + ZeroPadded(Second(t), 2)
  }

  /** `fmt::format("{:06d}{:06d}", us, ps)`. */
  function SubsecondText(t: GpsTime): string
    requires Valid(t)
  {
    ComponentRanges(t);
    ZeroPadded(Microsecond(t), 6) + ZeroPadded(Picosecond(t), 6)
  }

  predicate WholeSecond(t: GpsTime) {
    Microsecond(t) == 0 && Picosecond(t) == 0
  }

  /** `operator std::string`: the date and time, then, unless both sub-second
      components are zero, a point and their twelve digits without trailing zeros. */
  function ToString(t: GpsTime): (s: string)
    requires Valid(t)
    ensures WellFormed(s)
    ensures |s| == 19 <==> WholeSecond(t)
    ensures |s| > 19 ==> s[|s| - 1] != '0'
  {
    FieldFacts(t);
    if WholeSecond(t) then DateAndTimeText(t)
    else
      SubsecondFacts(t);
      TrimDigits(SubsecondText(t));
      DT.WellFormedWithFraction(DateAndTimeText(t), Trim(SubsecondText(t)));
      DateAndTimeText(t) + "." + Trim(SubsecondText(t))
  }

  // ------------------------------------------------------------------ parsing

  /** The pattern `(\d{4}-\d{2}-\d{2})T(\d{2}:\d{2}:\d{2})(\.(\d{1,12}))?`, matched
      against the whole string: the DateTime pattern with `T` as the only separator. */
  predicate WellFormed(s: string) {
    DT.WellFormed(s) && s[10] == 'T'
  }

  /** The string constructor: a string off the pattern is rejected, and the fields of
      one on it go through the component constructor, the sub-seconds split into micro-
      and picoseconds. */
  function FromString(s: string): Result<GpsTime> {
    if !WellFormed(s) then Err(InvalidArgument("bad datetime string"))
    else
      var f := DT.FractionPicos(s);
      Make(Value(s[0..4]), Value(s[5..7]), Value(s[8..10]),
           Value(s[11..13]), Value(s[14..16]), Value(s[17..19]),
           f / 1000_000, f % 1000_000)
  }

  /** The string constructor as the library runs it: match the pattern, scan the
      fixed-width fields, pad the sub-second digits with '0' to twelve and scan them as
      two groups of six, then construct from the components. */
  method Parse(s: string) returns (r: Result<GpsTime>)
    ensures r == FromString(s)
  {
    if !WellFormed(s) {
      return Err(InvalidArgument("bad datetime string"));
    }
    var y, mo, d := Value(s[0..4]), Value(s[5..7]), Value(s[8..10]);
    var h, mi, sec := Value(s[11..13]), Value(s[14..16]), Value(s[17..19]);
    var us, ps := 0, 0;
    if |s| > 19 {
      var padded := Resize(s[20..], 12, '0');
      FractionGroups(s);
      us, ps := Value(padded[0..6]), Value(padded[6..12]);
    } else {
      assert DT.FractionPicos(s) == 0;
    }
    r := Make(y, mo, d, h, mi, sec, us, ps);
    FromStringOfFields(s, y, mo, d, h, mi, sec, DT.FractionPicos(s));
  }

  // ------------------------------------------------------------------- lemmas

  /** The padded sub-second digits of a string on the pattern, scanned as two groups of
      six, are the micro- and picoseconds of its fraction. */
  lemma {:induction false} FractionGroups(s: string)
    requires WellFormed(s) && |s| > 19
    ensures var z := Resize(s[20..], 12, '0');
      && AllDigits(z[0..6]) && AllDigits(z[6..12])
      && Value(z[0..6]) == DT.FractionPicos(s) / 1000_000
      && Value(z[6..12]) == DT.FractionPicos(s) % 1000_000
  {
    DT.PaddedValue(s[20..], 12);
    SplitSix(Resize(s[20..], 12, '0'));
  }

  /** Scanning twelve digits as `%6d%6d` splits their value into millions. */
  lemma {:induction false} SplitSix(z: string)
    requires |z| == 12 && AllDigits(z)
    ensures AllDigits(z[0..6]) && AllDigits(z[6..12])
    ensures Value(z[0..6]) == Value(z) / 1000_000 && Value(z[6..12]) == Value(z) % 1000_000
  {
    var a, b := z[0..6], z[6..12];
    assert z == a + b;
    assert forall i :: 0 <= i < 6 ==> a[i] == z[i] && b[i] == z[i + 6];
    ValueAppend(a, b);
    ValueBound(b);
    assert Pow10(6) == 1000_000;
    FloorDivUnique(Value(z), 1000_000, Value(a), Value(b));
  }

  /** Dividing a mixed-radix number by its lowest radix recovers both parts. */
  lemma {:induction false} Split(x: int, q: int, r: int, d: int)
    requires d > 0 && 0 <= r < d && x == q * d + r
    ensures x / d == q && x % d == r
  {
    FloorDivUnique(x, d, q, r);
  }

  /** The components of a time point are in their ranges; a valid one has a year from
      1 through 9999. */
  lemma {:induction false} ComponentRanges(t: GpsTime)
    ensures Calendar.IsValid(Date(t))
    ensures 0 <= Hour(t) < 24 && 0 <= Minute(t) < 60 && 0 <= Second(t) < 60
    ensures 0 <= Subseconds(t) < PS_PER_S
    ensures 0 <= Microsecond(t) < 1000_000 && 0 <= Picosecond(t) < 1000_000
    ensures Valid(t) ==> 1 <= Year(t) <= 9999
  {
    TimeRanges(t);
    if Valid(t) {
      YearRange(t);
    }
  }

  lemma {:induction false} TimeRanges(t: GpsTime)
    ensures 0 <= Hour(t) < 24 && 0 <= Minute(t) < 60 && 0 <= Second(t) < 60
    ensures 0 <= Subseconds(t) < PS_PER_S
    ensures 0 <= Microsecond(t) < 1000_000 && 0 <= Picosecond(t) < 1000_000
  {
    var d := TimeOfDay(t);
    DivBounds(d, PS_PER_HOUR);
    var m := d - Hour(t) * PS_PER_HOUR;
    DivBounds(m, PS_PER_MIN);
    var s := m - Minute(t) * PS_PER_MIN;
    DivBounds(s, PS_PER_S);
    DivBounds(Subseconds(t), PS_PER_US);
  }

  lemma {:induction false} YearRange(t: GpsTime)
    requires Valid(t)
    ensures 1 <= Year(t) <= 9999
  {
    var z := UnixDays(t);
    var x := t.ticks + GPS_EPOCH_DAYS * PS_PER_DAY;
    DivBounds(x - MIN_TICKS - GPS_EPOCH_DAYS * PS_PER_DAY, PS_PER_DAY);
    assert x == (x - MIN_TICKS - GPS_EPOCH_DAYS * PS_PER_DAY) + (-719162) * PS_PER_DAY;
    DayOfShift(x - MIN_TICKS - GPS_EPOCH_DAYS * PS_PER_DAY, -719162);
    DayOfShift(x - (2932897 * PS_PER_DAY), 2932897);
    assert -719162 <= z <= 2932896;
    var date := Date(t);
    var first, last := Calendar.Date(1, 1, 1), Calendar.Date(9999, 12, 31);
    assert Calendar.DaysFromCivil(first) == -719162;
    assert Calendar.DaysFromCivil(last) == 2932896;
    if Calendar.Before(date, first) {
      Calendar.DaysFromCivilStrictlyIncreasing(date, first);
    }
    if Calendar.Before(last, date) {
      Calendar.DaysFromCivilStrictlyIncreasing(last, date);
    }
  }

  /** Adding whole days adds to the floor quotient. */
  lemma {:induction false} DayOfShift(x: int, k: int)
    ensures (x + k * PS_PER_DAY) / PS_PER_DAY == x / PS_PER_DAY + k
  {
    DivBounds(0, 1);
    var q, r := x / PS_PER_DAY, x % PS_PER_DAY;
    FloorDivUnique(x + k * PS_PER_DAY, PS_PER_DAY, q + k, r);
  }

  /** The time point is its whole days since the GPS epoch plus its time of day, and
      the time of day is its components' time since midnight. */
  lemma {:induction false} Decompose(t: GpsTime)
    ensures Calendar.DaysFromCivil(Date(t)) == t.ticks / PS_PER_DAY + GPS_EPOCH_DAYS
    ensures t.ticks == (t.ticks / PS_PER_DAY) * PS_PER_DAY + TimeOfDay(t)
    ensures TimeOfDay(t) == SinceMidnight(Hour(t), Minute(t), Second(t), Microsecond(t),
                                          Picosecond(t))
  {
    DayOfShift(t.ticks, GPS_EPOCH_DAYS);
  }

  /** The accessors of a constructed time point return the components it was built
      from. */
  lemma {:induction false} AccessorsOfMake(year: int, month: int, day: int, hour: int, minute: int,
                        second: int, microsecond: int, picosecond: int)
    requires Make(year, month, day, hour, minute, second, microsecond, picosecond).Ok?
    ensures var t := Make(year, month, day, hour, minute, second, microsecond, picosecond).value;
      Components(t) == [year, month, day, hour, minute, second, microsecond, picosecond]
  {
    var c: Fields := [year, month, day, hour, minute, second, microsecond, picosecond];
    Rejected(c, 8);
    assert InRange(c, 2) && InRange(c, 3) && InRange(c, 4) && InRange(c, 5);
    assert InRange(c, 6) && InRange(c, 7);
    var t := Make(year, month, day, hour, minute, second, microsecond, picosecond).value;
    var date := Calendar.Date(year, month, day);
    var n := GpsDays(date);
    var tod := SinceMidnight(hour, minute, second, microsecond, picosecond);
    assert t.ticks == n * PS_PER_DAY + tod;
    Split(t.ticks, n, tod, PS_PER_DAY);
    Decompose(t);
    Calendar.DaysFromCivilInjective(Date(t), date);
    TimeOfDayOf(t, hour, minute, second, microsecond, picosecond);
  }

  /** A time of day made of in-range components splits back into them. */
  lemma {:induction false} TimeOfDayOf(t: GpsTime, hour: int, minute: int, second: int, microsecond: int,
                    picosecond: int)
    requires 0 <= hour < 24 && 0 <= minute < 60 && 0 <= second < 60
    requires 0 <= microsecond < 1000_000 && 0 <= picosecond < 1000_000
    requires TimeOfDay(t) == SinceMidnight(hour, minute, second, microsecond, picosecond)
    ensures Hour(t) == hour && Minute(t) == minute && Second(t) == second
    ensures Microsecond(t) == microsecond && Picosecond(t) == picosecond
  {
    var rs := microsecond * PS_PER_US + picosecond;
    var rm := second * PS_PER_S + rs;
    var rh := minute * PS_PER_MIN + rm;
    Split(TimeOfDay(t), hour, rh, PS_PER_HOUR);
    Split(rh, minute, rm, PS_PER_MIN);
    Split(rm, second, rs, PS_PER_S);
    Split(rs, microsecond, picosecond, PS_PER_US);
  }

  /** Constructing from the components of a valid time point gives it back. */
  lemma {:induction false} MakeOfComponents(t: GpsTime)
    requires Valid(t)
    ensures Make(Year(t), Month(t), Day(t), Hour(t), Minute(t), Second(t),
                 Microsecond(t), Picosecond(t)) == Ok(t)
  {
    ComponentRanges(t);
    Decompose(t);
    var c := Components(t);
    Rejected(c, 8);
  }

  /** Valid time points are equal exactly when their components are. */
  lemma {:induction false} ComponentsInjective(a: GpsTime, b: GpsTime)
    requires Valid(a) && Valid(b)
    ensures a == b <==> Components(a) == Components(b)
  {
    if Components(a) == Components(b) {
      MakeOfComponents(a);
      MakeOfComponents(b);
    }
  }

  /** The time-point constructor accepts exactly the time points from `min()` to
      `max()`, and every constructed GPSTime is among them. */
  lemma {:induction false} RangeLaws(ticks: Int128, t: GpsTime)
    ensures FromTimePoint(ticks).Ok? <==> (LessEq(Min(), GpsTime(ticks)) && LessEq(GpsTime(ticks), Max()))
    ensures Valid(t) ==> FromTimePoint(t.ticks) == Ok(t)
  {
  }

  /** `min()` and `max()` have the library's components. */
  lemma {:induction false} MinMaxComponents()
    ensures Components(Min()) == [1, 1, 1, 0, 0, 0, 0, 0]
    ensures Components(Max()) == [9999, 12, 31, 23, 59, 59, 999_999, 999_999]
  {
    AccessorsOfMake(1, 1, 1, 0, 0, 0, 0, 0);
    AccessorsOfMake(9999, 12, 31, 23, 59, 59, 999_999, 999_999);
  }

  /** The date and time text is on the pattern and holds the components' digits. */
  lemma {:induction false} FieldFacts(t: GpsTime)
    requires Valid(t)
    ensures WellFormed(DateAndTimeText(t)) && |DateAndTimeText(t)| == 19
    ensures Value(DateAndTimeText(t)[0..4]) == Year(t)
    ensures Value(DateAndTimeText(t)[5..7]) == Month(t)
    ensures Value(DateAndTimeText(t)[8..10]) == Day(t)
    ensures Value(DateAndTimeText(t)[11..13]) == Hour(t)
    ensures Value(DateAndTimeText(t)[14..16]) == Minute(t)
    ensures Value(DateAndTimeText(t)[17..19]) == Second(t)
  {
    ComponentRanges(t);
    ZeroPaddedFacts(Year(t), 4);
    ZeroPaddedFacts(Month(t), 2);
    ZeroPaddedFacts(Day(t), 2);
    ZeroPaddedFacts(Hour(t), 2);
    ZeroPaddedFacts(Minute(t), 2);
    ZeroPaddedFacts(Second(t), 2);
    DT.Fields(ZeroPadded(Year(t), 4), ZeroPadded(Month(t), 2), ZeroPadded(Day(t), 2), 'T',
              ZeroPadded(Hour(t), 2), ZeroPadded(Minute(t), 2), ZeroPadded(Second(t), 2));
  }

  /** The twelve sub-second digits read back as the sub-second picoseconds, and they are
      all '0' exactly when both sub-second components are zero. */
  lemma {:induction false} SubsecondFacts(t: GpsTime)
    requires Valid(t)
    ensures |SubsecondText(t)| == 12 && AllDigits(SubsecondText(t))
    ensures Value(SubsecondText(t)) == Microsecond(t) * PS_PER_US + Picosecond(t)
    ensures !WholeSecond(t) ==> exists i :: 0 <= i < 12 && SubsecondText(t)[i] != '0'
  {
    ComponentRanges(t);
    ZeroPaddedFacts(Microsecond(t), 6);
    ZeroPaddedFacts(Picosecond(t), 6);
    ValueAppend(ZeroPadded(Microsecond(t), 6), ZeroPadded(Picosecond(t), 6));
    if !WholeSecond(t) {
      DT.NotAllZeros(SubsecondText(t));
    }
  }

  /** Parsing the formatted string gives back the same time point. */
  lemma {:induction false} RoundTrip(t: GpsTime)
    requires Valid(t)
    ensures FromString(ToString(t)) == Ok(t)
  {
    var s := ToString(t);
    ParsedFields(t);
    FractionRoundTrip(t);
    ComponentRanges(t);
    Split(DT.FractionPicos(s), Microsecond(t), Picosecond(t), 1000_000);
    FromStringOfFields(s, Year(t), Month(t), Day(t), Hour(t), Minute(t), Second(t),
                       DT.FractionPicos(s));
    MakeOfComponents(t);
  }

  /** The string constructor on a string on the pattern, in terms of its field values. */
  lemma {:induction false} FromStringOfFields(s: string, y: int, mo: int, d: int, h: int, mi: int, sec: int,
                           f: int)
    requires WellFormed(s)
    requires Value(s[0..4]) == y && Value(s[5..7]) == mo && Value(s[8..10]) == d
    requires Value(s[11..13]) == h && Value(s[14..16]) == mi && Value(s[17..19]) == sec
    requires DT.FractionPicos(s) == f
    ensures FromString(s) == Make(y, mo, d, h, mi, sec, f / 1000_000, f % 1000_000)
  {
  }

  /** The formatted string holds the date and time fields of the time point. */
  lemma {:induction false} ParsedFields(t: GpsTime)
    requires Valid(t)
    ensures var s := ToString(t);
      && Value(s[0..4]) == Year(t) && Value(s[5..7]) == Month(t) && Value(s[8..10]) == Day(t)
      && Value(s[11..13]) == Hour(t) && Value(s[14..16]) == Minute(t)
      && Value(s[17..19]) == Second(t)
  {
    var s, text := ToString(t), DateAndTimeText(t);
    FieldFacts(t);
    if !WholeSecond(t) {
      SubsecondFacts(t);
      TrimDigits(SubsecondText(t));
      DT.WellFormedWithFraction(text, Trim(SubsecondText(t)));
    }
    DT.SameFields(s, text);
  }

  /** The fraction of the formatted string is worth the time point's sub-seconds. */
  lemma {:induction false} FractionRoundTrip(t: GpsTime)
    requires Valid(t)
    ensures DT.FractionPicos(ToString(t)) == Microsecond(t) * PS_PER_US + Picosecond(t)
  {
    SubsecondFacts(t);
    var s, z := ToString(t), SubsecondText(t);
    if WholeSecond(t) {
      assert |s| == 19;
    } else {
      FieldFacts(t);
      SubsecondFacts(t);
      TrimDigits(SubsecondText(t));
      DT.WellFormedWithFraction(DateAndTimeText(t), Trim(z));
      assert s[20..] == Trim(z);
      TrimFacts(z);
      DT.PaddedValue(Trim(z), 12);
    }
  }

  /** The number `x` followed by the digits `ds` in the mixed radices `rs`. */
  function Horner(x: int, ds: seq<int>, rs: seq<int>): int
    requires |ds| == |rs|
    decreases |ds|
  {
    if |ds| == 0 then x else Horner(x * rs[0] + ds[0], ds[1..], rs[1..])
  }

  /** Every digit is below its radix. */
  predicate InRadix(ds: seq<int>, rs: seq<int>)
    requires |ds| == |rs|
  {
    forall i :: 0 <= i < |ds| ==> 0 <= ds[i] < rs[i]
  }

  /** Appending a digit below the radix keeps the order of the leading parts. */
  lemma {:induction false} MixedLess(x: int, r: int, y: int, r': int, d: int)
    requires d > 0 && 0 <= r < d && 0 <= r' < d
    ensures x * d + r < y * d + r' <==> x < y || (x == y && r < r')
    ensures x * d + r == y * d + r' <==> x == y && r == r'
  {
    if x < y {
      MulMonotone(d, x + 1, y);
    } else if y < x {
      MulMonotone(d, y + 1, x);
    }
  }

  /** Mixed-radix numbers compare as their leading parts and then their digits,
      lexicographically. */
  lemma {:induction false} HornerLess(x: int, y: int, ds: seq<int>, es: seq<int>, rs: seq<int>)
    requires |ds| == |rs| && |es| == |rs| && InRadix(ds, rs) && InRadix(es, rs)
    ensures Horner(x, ds, rs) < Horner(y, es, rs) <==> x < y || (x == y && DT.Lex(ds, es, false))
    decreases |ds|
  {
    if |ds| > 0 {
      assert InRadix(ds[1..], rs[1..]) && InRadix(es[1..], rs[1..]) by {
        assert forall i :: 0 <= i < |ds| - 1 ==> ds[1..][i] == ds[i + 1] && es[1..][i] == es[i + 1];
      }
      HornerLess(x * rs[0] + ds[0], y * rs[0] + es[0], ds[1..], es[1..], rs[1..]);
      assert 0 <= ds[0] < rs[0] && 0 <= es[0] < rs[0];
      MixedLess(x, ds[0], y, es[0], rs[0]);
    }
  }

  /** Lexicographic order of concatenations of equal-length parts. */
  lemma {:induction false} LexAppend(a: seq<int>, b: seq<int>, a': seq<int>, b': seq<int>)
    requires |a| == |a'| && |b| == |b'|
    ensures DT.Lex(a + b, a' + b', false) <==>
              DT.Lex(a, a', false) || (a == a' && DT.Lex(b, b', false))
    decreases |a|
  {
    if |a| == 0 {
      assert a + b == b && a' + b' == b';
    } else {
      assert (a + b)[1..] == a[1..] + b && (a' + b')[1..] == a'[1..] + b';
      LexAppend(a[1..], b, a'[1..], b');
      assert a == a' <==> a[0] == a'[0] && a[1..] == a'[1..] by {
        assert a == [a[0]] + a[1..] && a' == [a'[0]] + a'[1..];
      }
    }
  }

  /** The time of day is the hour followed by the lower components in their radices. */
  lemma {:induction false} TimeOfDayDigits(t: GpsTime)
    ensures TimeOfDay(t) == Horner(Hour(t), [Minute(t), Second(t), Microsecond(t), Picosecond(t)],
                                   [60, 60, 1000_000, 1000_000])
    ensures InRadix([Minute(t), Second(t), Microsecond(t), Picosecond(t)], [60, 60, 1000_000, 1000_000])
  {
    TimeRanges(t);
    Decompose(t);
    SinceMidnightDigits(Hour(t), Minute(t), Second(t), Microsecond(t), Picosecond(t));
  }

  lemma {:induction false} SinceMidnightDigits(h: int, mi: int, sec: int, us: int, ps: int)
    ensures Horner(h, [mi, sec, us, ps], [60, 60, 1000_000, 1000_000])
              == SinceMidnight(h, mi, sec, us, ps)
  {
    var ds, rs := [mi, sec, us, ps], [60, 60, 1000_000, 1000_000];
    assert ds[1..] == [sec, us, ps] && rs[1..] == [60, 1000_000, 1000_000];
    assert ds[1..][1..] == [us, ps] && rs[1..][1..] == [1000_000, 1000_000];
    assert ds[1..][1..][1..] == [ps] && rs[1..][1..][1..] == [1000_000];
    assert ds[1..][1..][1..][1..] == [] && rs[1..][1..][1..][1..] == [];
    var x1 := h * 60 + mi;
    var x2 := x1 * 60 + sec;
    var x3 := x2 * 1000_000 + us;
    var x4 := x3 * 1000_000 + ps;
    assert Horner(x4, [], []) == x4;
    assert Horner(x3, [ps], [1000_000]) == x4;
    assert Horner(x2, [us, ps], [1000_000, 1000_000]) == x4;
    assert Horner(x1, [sec, us, ps], [60, 1000_000, 1000_000]) == x4;
    assert Horner(h, ds, rs) == x4;
  }

  /** Lexicographic order of three components. */
  lemma {:induction false} Lex3(a0: int, a1: int, a2: int, b0: int, b1: int, b2: int)
    ensures DT.Lex([a0, a1, a2], [b0, b1, b2], false) <==>
              a0 < b0 || (a0 == b0 && (a1 < b1 || (a1 == b1 && a2 < b2)))
  {
    var a, b := [a0, a1, a2], [b0, b1, b2];
    assert a[1..] == [a1, a2] && b[1..] == [b1, b2];
    assert a[1..][1..] == [a2] && b[1..][1..] == [b2];
    assert a[1..][1..][1..] == [] && b[1..][1..][1..] == [];
    assert DT.Lex([a2], [b2], false) <==> a2 < b2;
    assert DT.Lex([a1, a2], [b1, b2], false) <==> a1 < b1 || (a1 == b1 && a2 < b2);
  }

  /** Day numbers order dates as the calendar does. */
  lemma {:induction false} DaysOrder(d1: Calendar.Date, d2: Calendar.Date)
    requires Calendar.IsValid(d1) && Calendar.IsValid(d2)
    ensures Calendar.DaysFromCivil(d1) < Calendar.DaysFromCivil(d2) <==>
              DT.Lex([d1.year, d1.month, d1.day], [d2.year, d2.month, d2.day], false)
    ensures Calendar.DaysFromCivil(d1) == Calendar.DaysFromCivil(d2) <==> d1 == d2
  {
    Lex3(d1.year, d1.month, d1.day, d2.year, d2.month, d2.day);
    if Calendar.Before(d1, d2) {
      Calendar.DaysFromCivilStrictlyIncreasing(d1, d2);
    } else if Calendar.Before(d2, d1) {
      Calendar.DaysFromCivilStrictlyIncreasing(d2, d1);
    }
  }

  /** The calendar components and the clock components of a time point. */
  function DateFields(t: GpsTime): seq<int> {
    [Year(t), Month(t), Day(t)]
  }

  function ClockFields(t: GpsTime): seq<int> {
    [Hour(t), Minute(t), Second(t), Microsecond(t), Picosecond(t)]
  }

  /** Ordering by tick count is ordering by components, most significant first. */
  lemma {:induction false} TicksOrder(a: GpsTime, b: GpsTime)
    ensures a.ticks < b.ticks <==> DT.Lex(Components(a), Components(b), false)
  {
    DayTimeOrder(a, b);
    DateOrder(a, b);
    ClockOrder(a, b);
    assert Components(a) == DateFields(a) + ClockFields(a);
    assert Components(b) == DateFields(b) + ClockFields(b);
    LexAppend(DateFields(a), ClockFields(a), DateFields(b), ClockFields(b));
  }

  /** Ticks order by whole days, then by time of day. */
  lemma {:induction false} DayTimeOrder(a: GpsTime, b: GpsTime)
    ensures var da, db := a.ticks / PS_PER_DAY, b.ticks / PS_PER_DAY;
      a.ticks < b.ticks <==> (da < db || (da == db && TimeOfDay(a) < TimeOfDay(b)))
  {
    Decompose(a);
    Decompose(b);
    MixedLess(a.ticks / PS_PER_DAY, TimeOfDay(a), b.ticks / PS_PER_DAY, TimeOfDay(b), PS_PER_DAY);
  }

  /** Whole days order as the dates do. */
  lemma {:induction false} DateOrder(a: GpsTime, b: GpsTime)
    ensures a.ticks / PS_PER_DAY < b.ticks / PS_PER_DAY <==> DT.Lex(DateFields(a), DateFields(b), false)
    ensures a.ticks / PS_PER_DAY == b.ticks / PS_PER_DAY <==> DateFields(a) == DateFields(b)
  {
    Decompose(a);
    Decompose(b);
    DaysOrder(Date(a), Date(b));
  }

  /** Times of day order as the clock components do. */
  lemma {:induction false} ClockOrder(a: GpsTime, b: GpsTime)
    ensures TimeOfDay(a) < TimeOfDay(b) <==> DT.Lex(ClockFields(a), ClockFields(b), false)
  {
    TimeOfDayDigits(a);
    TimeOfDayDigits(b);
    var ta, tb := ClockFields(a)[1..], ClockFields(b)[1..];
    assert ta == [Minute(a), Second(a), Microsecond(a), Picosecond(a)];
    assert tb == [Minute(b), Second(b), Microsecond(b), Picosecond(b)];
    HornerLess(Hour(a), Hour(b), ta, tb, [60, 60, 1000_000, 1000_000]);
  }

  /** The comparison operators: they order by tick count, which is the lexicographic
      order of the components; exactly one of `<`, `==`, `>` holds, and `<=` and `>=`
      are the negations of `>` and `<`. */
  lemma {:induction false} ComparisonLaws(a: GpsTime, b: GpsTime)
    requires Valid(a) && Valid(b)
    ensures Equal(a, b) <==> Components(a) == Components(b)
    ensures NotEqual(a, b) <==> !Equal(a, b)
    ensures Less(a, b) <==> DT.Lex(Components(a), Components(b), false)
    ensures Greater(a, b) <==> DT.Lex(Components(a), Components(b), true)
    ensures (if Less(a, b) then 1 else 0) + (if Equal(a, b) then 1 else 0)
              + (if Greater(a, b) then 1 else 0) == 1
    ensures LessEq(a, b) <==> (Less(a, b) || Equal(a, b))
    ensures GreaterEq(a, b) <==> (Greater(a, b) || Equal(a, b))
  {
    ComponentsInjective(a, b);
    TicksOrder(a, b);
    TicksOrder(b, a);
    DT.GreaterIsSwappedLess(Components(a), Components(b));
  }

  // ----------------------------------------------------------- the library's cases

  /** The component constructor's year and month checks, on the library's own cases. */
  lemma {:induction false} MakeDateExamples()
    ensures Make(0, 1, 1, 0, 0, 0, 0, 0) == Err(InvalidArgument("invalid year"))
    ensures Make(10000, 1, 1, 0, 0, 0, 0, 0) == Err(InvalidArgument("invalid year"))
    ensures Make(2000, 0, 1, 0, 0, 0, 0, 0) == Err(InvalidArgument("invalid month"))
    ensures Make(2000, 13, 1, 0, 0, 0, 0, 0) == Err(InvalidArgument("invalid month"))
  {
  }

  /** The component constructor's day-of-month checks, on the library's own cases. */
  lemma {:induction false} MakeDayExamples()
    ensures Make(2000, 1, 0, 0, 0, 0, 0, 0) == Err(InvalidArgument("invalid day"))
    ensures Make(2000, 1, 32, 0, 0, 0, 0, 0) == Err(InvalidArgument("invalid day"))
    ensures Make(2000, 2, 30, 0, 0, 0, 0, 0) == Err(InvalidArgument("invalid day"))
    ensures Make(2001, 2, 29, 0, 0, 0, 0, 0) == Err(InvalidArgument("invalid day"))
    ensures Make(2000, 4, 31, 0, 0, 0, 0, 0) == Err(InvalidArgument("invalid day"))
  {
    assert Calendar.LastDayOfMonth(2001, 2) == 28;
  }

  /** The component constructor's time-of-day checks, on the library's own cases. */
  lemma {:induction false} MakeTimeExamples()
    ensures Make(2000, 1, 1, -1, 0, 0, 0, 0) == Err(InvalidArgument("invalid hour"))
    ensures Make(2000, 1, 1, 24, 0, 0, 0, 0) == Err(InvalidArgument("invalid hour"))
    ensures Make(2000, 1, 1, 0, -1, 0, 0, 0) == Err(InvalidArgument("invalid minute"))
    ensures Make(2000, 1, 1, 0, 60, 0, 0, 0) == Err(InvalidArgument("invalid minute"))
    ensures Make(2000, 1, 1, 0, 0, -1, 0, 0) == Err(InvalidArgument("invalid second"))
    ensures Make(2000, 1, 1, 0, 0, 60, 0, 0) == Err(InvalidArgument("invalid second"))
  {
  }

  /** The component constructor's sub-second checks, on the library's own cases. */
  lemma {:induction false} MakeSubsecondExamples()
    ensures Make(2000, 1, 1, 0, 0, 0, -1, 0) == Err(InvalidArgument("invalid microsecond"))
    ensures Make(2000, 1, 1, 0, 0, 0, 1000_000, 0) == Err(InvalidArgument("invalid microsecond"))
    ensures Make(2000, 1, 1, 0, 0, 0, 0, -1) == Err(InvalidArgument("invalid picosecond"))
    ensures Make(2000, 1, 1, 0, 0, 0, 0, 1000_000) == Err(InvalidArgument("invalid picosecond"))
  {
  }

  /** One hour, two minutes and three seconds after the GPS epoch is 1980-01-06 01:02:03:
      no leap seconds separate the two epochs. */
  lemma {:induction false} EpochExample()
    ensures Components(GpsTime(3723 * PS_PER_S)) == [1980, 1, 6, 1, 2, 3, 0, 0]
  {
    Calendar.Epochs();
    assert GpsDays(Calendar.Date(1980, 1, 6)) == 0;
    assert Assemble(1980, 1, 6, 1, 2, 3, 0, 0) == GpsTime(3723 * PS_PER_S);
    ComponentsAt(GpsTime(3723 * PS_PER_S), 1980, 1, 6, 1, 2, 3, 0, 0);
  }

  /** The components of a time point the component constructor builds. */
  lemma {:induction false} ComponentsAt(t: GpsTime, year: int, month: int, day: int, hour: int, minute: int,
                     second: int, microsecond: int, picosecond: int)
    requires Make(year, month, day, hour, minute, second, microsecond, picosecond) == Ok(t)
    ensures Components(t) == [year, month, day, hour, minute, second, microsecond, picosecond]
  {
    AccessorsOfMake(year, month, day, hour, minute, second, microsecond, picosecond);
  }

  /** 2001-01-01T00:00:00 moved one tick forward has one picosecond. */
  lemma {:induction false} NextTickExample()
    ensures Components(GpsTime(Make(2001, 1, 1, 0, 0, 0, 0, 0).value.ticks + 1))
              == [2001, 1, 1, 0, 0, 0, 0, 1]
  {
    ComponentsAt(GpsTime(Make(2001, 1, 1, 0, 0, 0, 0, 0).value.ticks + 1),
                 2001, 1, 1, 0, 0, 0, 0, 1);
  }

  /** 2001-01-01T00:00:00 moved one tick back is the last picosecond of 2000-12-31. */
  lemma {:induction false} PreviousTickExample()
    ensures Components(GpsTime(Make(2001, 1, 1, 0, 0, 0, 0, 0).value.ticks - 1))
              == [2000, 12, 31, 23, 59, 59, 999_999, 999_999]
  {
    assert Calendar.DaysFromCivil(Calendar.Date(2001, 1, 1)) == 11323;
    assert Calendar.DaysFromCivil(Calendar.Date(2000, 12, 31)) == 11322;
    ComponentsAt(GpsTime(Make(2001, 1, 1, 0, 0, 0, 0, 0).value.ticks - 1),
                 2000, 12, 31, 23, 59, 59, 999_999, 999_999);
  }

  /** 2000-01-02T03:04:05.000006000007 plus 12 days 34 minutes 56 seconds 78
      microseconds 90 picoseconds is 2000-01-14T03:39:01.000084000097, and
      2001-02-03T04:05:06.000007000008 minus the same is 2001-01-22T03:30:09.999928999918. */
  lemma {:induction false} ArithmeticExamples()
    ensures var dt := TD.TimeDelta(12 * PS_PER_DAY + 34 * PS_PER_MIN + 56 * PS_PER_S
                                   + 78 * PS_PER_US + 90);
      && Add(Make(2000, 1, 2, 3, 4, 5, 6, 7).value, dt) == Make(2000, 1, 14, 3, 39, 1, 84, 97).value
      && Subtract(Make(2001, 2, 3, 4, 5, 6, 7, 8).value, dt)
           == Make(2001, 1, 22, 3, 30, 9, 999_928, 999_918).value
      && Difference(Make(2001, 2, 3, 4, 5, 6, 7, 8).value,
                    Make(2001, 1, 22, 3, 30, 9, 999_928, 999_918).value) == dt
  {
    assert Calendar.DaysFromCivil(Calendar.Date(2000, 1, 14))
        == Calendar.DaysFromCivil(Calendar.Date(2000, 1, 2)) + 12;
    assert Calendar.DaysFromCivil(Calendar.Date(2001, 2, 3))
        == Calendar.DaysFromCivil(Calendar.Date(2001, 1, 22)) + 12;
  }

  /** 2001-01-01T00:00:00 and the tick after it, as the postfix cases below use them. */
  lemma {:induction false} NextTick(start: GpsTime)
    requires Make(2001, 1, 1, 0, 0, 0, 0, 0) == Ok(start)
    ensures Valid(GpsTime(start.ticks + 1))
    ensures Picosecond(start) == 0 && Picosecond(GpsTime(start.ticks + 1)) == 1
  {
    StartTicks(start);
    ComponentsAt(start, 2001, 1, 1, 0, 0, 0, 0, 0);
    NextTickExample();
  }

  /** 2001-01-01T00:00:00 and the tick before it. */
  lemma {:induction false} PreviousTick(start: GpsTime)
    requires Make(2001, 1, 1, 0, 0, 0, 0, 0) == Ok(start)
    ensures Valid(GpsTime(start.ticks - 1))
    ensures Picosecond(start) == 0 && Picosecond(GpsTime(start.ticks - 1)) == 999_999
  {
    StartTicks(start);
    ComponentsAt(start, 2001, 1, 1, 0, 0, 0, 0, 0);
    PreviousTickExample();
  }

  /** 2001-01-01 is day 7666 of the GPS calendar. */
  lemma {:induction false} StartTicks(start: GpsTime)
    requires Make(2001, 1, 1, 0, 0, 0, 0, 0) == Ok(start)
    ensures start.ticks == 7666 * PS_PER_DAY
  {
    assert Calendar.DaysFromCivil(Calendar.Date(2001, 1, 1)) == 11323;
  }

  /** `t++` as written on 2001-01-01T00:00:00: the value returned is one tick later
      (picosecond 1) and the object still reads picosecond 0, where a postfix increment
      returns the old value (0) and moves the object (1). */
  method PostIncrementAsWrittenExample(start: GpsTime) returns (returned: int, after: int)
    requires Make(2001, 1, 1, 0, 0, 0, 0, 0) == Ok(start)
    ensures returned == 1 && after == 0
  {
    NextTick(start);
    var obj := new MutableGpsTime(start);
    var r := obj.PostIncrement();
    returned, after := Picosecond(r.value), Picosecond(obj.time);
  }

  /** The intended `t++` on 2001-01-01T00:00:00 returns picosecond 0 and leaves the
      object at picosecond 1. */
  method PostIncrementIntendedExample(start: GpsTime) returns (returned: int, after: int)
    requires Make(2001, 1, 1, 0, 0, 0, 0, 0) == Ok(start)
    ensures returned == 0 && after == 1
  {
    NextTick(start);
    var obj := new MutableGpsTime(start);
    var r := obj.PostIncrementIntended();
    returned, after := Picosecond(r), Picosecond(obj.time);
  }

  /** `t--` as written on 2001-01-01T00:00:00: the value returned is the last
      picosecond of 2000-12-31 and the object is unchanged. */
  method PostDecrementAsWrittenExample(start: GpsTime) returns (returned: int, after: int)
    requires Make(2001, 1, 1, 0, 0, 0, 0, 0) == Ok(start)
    ensures returned == 999_999 && after == 0
  {
    PreviousTick(start);
    var obj := new MutableGpsTime(start);
    var r := obj.PostDecrement();
    returned, after := Picosecond(r.value), Picosecond(obj.time);
  }

  /** The intended `t--` on 2001-01-01T00:00:00. */
  method PostDecrementIntendedExample(start: GpsTime) returns (returned: int, after: int)
    requires Make(2001, 1, 1, 0, 0, 0, 0, 0) == Ok(start)
    ensures returned == 0 && after == 999_999
  {
    PreviousTick(start);
    var obj := new MutableGpsTime(start);
    var r := obj.PostDecrementIntended();
    returned, after := Picosecond(r), Picosecond(obj.time);
  }

  /** Shifting by a TimeDelta and back restores the time point, and the difference of
      two time points shifts one onto the other. */
  lemma {:induction false} ArithmeticLaws(t: GpsTime, u: GpsTime, dt: TD.TimeDelta)
    requires InInt128(t.ticks + dt.count) && InInt128(t.ticks - dt.count)
    requires InInt128(t.ticks - u.ticks)
    ensures Subtract(Add(t, dt), dt) == t && Add(Subtract(t, dt), dt) == t
    ensures Difference(Add(t, dt), t) == dt
    ensures Add(u, Difference(t, u)) == t
    ensures dt.count != INT128_MIN ==> Subtract(t, dt) == Add(t, TD.Negate(dt))
    ensures t.ticks - u.ticks != INT128_MIN ==> Difference(u, t) == TD.Negate(Difference(t, u))
  {
  }

  /** The test's two GPS times subtracted the other way round give the negated TimeDelta. */
  lemma {:induction false} DifferenceExample()
    ensures var dt := TD.TimeDelta(12 * PS_PER_DAY + 34 * PS_PER_MIN + 56 * PS_PER_S
                                   + 78 * PS_PER_US + 90);
      Difference(Make(2001, 1, 22, 3, 30, 9, 999_928, 999_918).value,
                 Make(2001, 2, 3, 4, 5, 6, 7, 8).value) == TD.Negate(dt)
  {
    ArithmeticExamples();
  }

  /** The weekday is that of the day number, and it advances by one a day. */
  lemma {:induction false} WeekdayLaws(t: GpsTime)
    requires InInt128(t.ticks + PS_PER_DAY)
    ensures Weekday(t) == Calendar.WeekdayFromDays(UnixDays(t))
    ensures Weekday(GpsTime(t.ticks + PS_PER_DAY)) == Calendar.NextWeekday(Weekday(t))
  {
    var z := UnixDays(t);
    NextUnixDay(t);
    Calendar.WeekdaySuccessor(z);
  }

  /** One day's ticks later is the next day number. */
  lemma {:induction false} NextUnixDay(t: GpsTime)
    requires InInt128(t.ticks + PS_PER_DAY)
    ensures UnixDays(GpsTime(t.ticks + PS_PER_DAY)) == UnixDays(t) + 1
  {
    var x := t.ticks + GPS_EPOCH_DAYS * PS_PER_DAY;
    assert t.ticks + PS_PER_DAY + GPS_EPOCH_DAYS * PS_PER_DAY == x + 1 * PS_PER_DAY;
    DayOfShift(x, 1);
  }

  /** The GPS epoch, tick 0, was a Sunday. */
  lemma {:induction false} EpochWeekday()
    ensures Weekday(GpsTime(0)) == Calendar.Sunday
  {
    var z := UnixDays(GpsTime(0));
    assert z == GPS_EPOCH_DAYS;
    assert (z + 4) % 7 == 0;
  }

  /** The time-point constructor rejects the ticks just outside [min(), max()]. */
  lemma {:induction false} RangeExamples()
    ensures FromTimePoint(MIN_TICKS - 1) == Err(OutOfRange("input time point is outside of valid GPSTime range"))
    ensures FromTimePoint(MAX_TICKS + 1) == Err(OutOfRange("input time point is outside of valid GPSTime range"))
    ensures FromTimePoint(MIN_TICKS) == Ok(Min()) && FromTimePoint(MAX_TICKS) == Ok(Max())
  {
  }

  // ------------------------------------------------------------- parse cases

  /** Parsing a text assembled from digit fields of the pattern's widths with `T` as
      separator, with the expected components named. */
  lemma {:induction false} ParseOfFieldsIs(y: string, mo: string, d: string, h: string, mi: string,
                        sec: string, frac: string, year: int, month: int, day: int,
                        hour: int, minute: int, second: int, us: int, ps: int)
    requires |y| == 4 && |mo| == 2 && |d| == 2 && |h| == 2 && |mi| == 2 && |sec| == 2
    requires AllDigits(y) && AllDigits(mo) && AllDigits(d)
    requires AllDigits(h) && AllDigits(mi) && AllDigits(sec)
    requires |frac| <= 12 && AllDigits(frac)
    requires Value(y) == year && Value(mo) == month && Value(d) == day
    requires Value(h) == hour && Value(mi) == minute && Value(sec) == second
    requires Value(frac) * Pow10(12 - |frac|) == us * 1000_000 + ps
    requires 0 <= us && 0 <= ps < 1000_000
    ensures FromString(DT.Text(y, mo, d, 'T', h, mi, sec, frac))
              == Make(year, month, day, hour, minute, second, us, ps)
  {
    var s := DT.Text(y, mo, d, 'T', h, mi, sec, frac);
    DT.TextFacts(y, mo, d, 'T', h, mi, sec, frac);
    var f := us * 1000_000 + ps;
    Split(f, us, ps, 1000_000);
    assert WellFormed(s);
    FromStringOfFields(s, year, month, day, hour, minute, second, f);
  }

  /** `.789` is 789000 microseconds. */
  lemma {:induction false} ParseExampleMillis()
    ensures FromString(DT.Text("2001", "02", "03", 'T', "04", "05", "06", "789"))
              == Make(2001, 2, 3, 4, 5, 6, 789_000, 0)
  {
    Value4('2', '0', '0', '1');
    Value2('0', '2'); Value2('0', '3'); Value2('0', '4'); Value2('0', '5'); Value2('0', '6');
    Value3('7', '8', '9');
    assert Pow10(9) == 1000_000_000;
    ParseOfFieldsIs("2001", "02", "03", "04", "05", "06", "789", 2001, 2, 3, 4, 5, 6, 789_000, 0);
  }

  /** `.000007000008` is 7 microseconds and 8 picoseconds. */
  lemma {:induction false} ParseExampleTwelve()
    ensures FromString(DT.Text("2001", "02", "03", 'T', "04", "05", "06", "000007000008"))
              == Make(2001, 2, 3, 4, 5, 6, 7, 8)
  {
    Value4('2', '0', '0', '1');
    Value2('0', '2'); Value2('0', '3'); Value2('0', '4'); Value2('0', '5'); Value2('0', '6');
    Value3('0', '0', '0'); Value3('0', '0', '7'); Value3('0', '0', '8');
    assert "000007000008" == "000" + "007" + "000" + "008";
    DT.ValueOfGroups("000", "007", "000", "008");
    ParseOfFieldsIs("2001", "02", "03", "04", "05", "06", "000007000008",
                    2001, 2, 3, 4, 5, 6, 7, 8);
  }

  /** No fraction: both sub-second components are zero. */
  lemma {:induction false} ParseExampleWhole()
    ensures FromString(DT.Text("2001", "02", "03", 'T', "04", "05", "06", ""))
              == Make(2001, 2, 3, 4, 5, 6, 0, 0)
  {
    Value4('2', '0', '0', '1');
    Value2('0', '2'); Value2('0', '3'); Value2('0', '4'); Value2('0', '5'); Value2('0', '6');
    ParseOfFieldsIs("2001", "02", "03", "04", "05", "06", "", 2001, 2, 3, 4, 5, 6, 0, 0);
  }

  /** Strings off the pattern are rejected: no date at all, a space separator (which
      the DateTime pattern allows), thirteen sub-second digits. */
  lemma {:induction false} ParseRejects()
    ensures FromString("asdf") == Err(InvalidArgument("bad datetime string"))
    ensures FromString("2001-02-03 04:05:06") == Err(InvalidArgument("bad datetime string"))
    ensures FromString("2001-02-03T04:05:06.0000000000001")
              == Err(InvalidArgument("bad datetime string"))
  {
    assert "2001-02-03 04:05:06"[10] == ' ';
  }

  /** The date and time text of 2000-01-02T03:04:05, the time the formatting tests use. */
  lemma {:induction false} ClockTextExample(t: GpsTime)
    requires Valid(t)
    requires Year(t) == 2000 && Month(t) == 1 && Day(t) == 2
    requires Hour(t) == 3 && Minute(t) == 4 && Second(t) == 5
    ensures DateAndTimeText(t) == "2000-01-02T03:04:05"
  {
    PaddedClockFields();
  }

  /** The text of a GPS time with a sub-second part, from its two halves. */
  lemma {:induction false} ToStringOfParts(t: GpsTime, clock: string, sub: string)
    requires Valid(t) && !WholeSecond(t)
    requires DateAndTimeText(t) == clock && Trim(SubsecondText(t)) == sub
    ensures ToString(t) == clock + "." + sub
  {
  }

  /** The sub-second groups of 6 us and 7 ps print as twelve digits, none of them trimmed. */
  lemma {:induction false} SubsecondTextPicos(t: GpsTime)
    requires Valid(t)
    requires Microsecond(t) == 6 && Picosecond(t) == 7
    ensures Trim(SubsecondText(t)) == "000006000007"
  {
    PaddedMicroFields();
    assert SubsecondText(t) == "000006" + "000007";
    assert "000006" + "000007" == "000006000007";
    TrimKeeps("000006000007");
  }

  /** The sub-second groups of 678900 us print as `6789` once trimmed. */
  lemma {:induction false} SubsecondTextTrimmed(t: GpsTime)
    requires Valid(t)
    requires Microsecond(t) == 678_900 && Picosecond(t) == 0
    ensures Trim(SubsecondText(t)) == "6789"
  {
    PaddedMicroFields();
    assert SubsecondText(t) == "6789" + Zeros(8);
    TrimPadded("6789", 8);
  }

  /** `std::string(GPSTime(2000, 1, 2, 3, 4, 5, 6, 7))` prints both sub-second groups. */
  lemma {:induction false} ToStringExamplePicos(t: GpsTime)
    requires Make(2000, 1, 2, 3, 4, 5, 6, 7) == Ok(t)
    ensures ToString(t) == "2000-01-02T03:04:05.000006000007"
  {
    ComponentsAt(t, 2000, 1, 2, 3, 4, 5, 6, 7);
    ClockTextExample(t);
    SubsecondTextPicos(t);
    ToStringOfParts(t, "2000-01-02T03:04:05", "000006000007");
  }

  /** A whole second prints no fraction. */
  lemma {:induction false} ToStringExampleWhole(t: GpsTime)
    requires Make(2000, 1, 2, 3, 4, 5, 0, 0) == Ok(t)
    ensures ToString(t) == "2000-01-02T03:04:05"
  {
    ComponentsAt(t, 2000, 1, 2, 3, 4, 5, 0, 0);
    ClockTextExample(t);
  }

  /** Trailing zeros of the fraction are trimmed: 678900 us print `.6789`. */
  lemma {:induction false} ToStringExampleTrimmed(t: GpsTime)
    requires Make(2000, 1, 2, 3, 4, 5, 678_900, 0) == Ok(t)
    ensures ToString(t) == "2000-01-02T03:04:05.6789"
  {
    ComponentsAt(t, 2000, 1, 2, 3, 4, 5, 678_900, 0);
    ClockTextExample(t);
    SubsecondTextTrimmed(t);
    ToStringOfParts(t, "2000-01-02T03:04:05", "6789");
  }
}
