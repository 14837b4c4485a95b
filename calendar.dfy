/** The proleptic Gregorian calendar the library takes from Howard Hinnant's `date`
    library: leap years, month lengths, the serial day number counted from 1970-01-01
    (`sys_days`) and back (`year_month_day`), and the day of the week. */
module Calendar {
  import opened Arith

  datatype Date = Date(year: int, month: int, day: int)

  datatype Weekday = Sunday | Monday | Tuesday | Wednesday | Thursday | Friday | Saturday

  /** Days from 0001-01-01 to 1970-01-01. */
  const UNIX_EPOCH_DAYS: int := 719162

  /** Leap years of the Gregorian calendar: every fourth year, except centuries not
      divisible by 400. */
  predicate IsLeap(y: int) {
    y % 4 == 0 && (y % 100 != 0 || y % 400 == 0)
  }

  function DaysInYear(y: int): int {
    if IsLeap(y) then 366 else 365
  }

  /** The `month_day_last` of a year and month. */
  function LastDayOfMonth(y: int, m: int): (d: int)
    requires 1 <= m <= 12
    ensures 28 <= d <= 31
    ensures m == 2 ==> (d == 29 <==> IsLeap(y))
  {
    if m == 2 then (if IsLeap(y) then 29 else 28)
    else if m == 4 || m == 6 || m == 9 || m == 11 then 30
    else 31
  }

  /** A month in 1..12 and a day within that month. */
  predicate IsValid(date: Date) {
    1 <= date.month <= 12 && 1 <= date.day <= LastDayOfMonth(date.year, date.month)
  }

  /** Days from 0001-01-01 to the first of January of year `y` (negative before year 1). */
  function DaysBeforeYear(y: int): int {
    var p := y - 1;
    365 * p + p / 4 - p / 100 + p / 400
  }

  /** Days from the first of January to the first of month `m` (13 stands for the
      first of January of the next year). */
  function DaysBeforeMonth(y: int, m: int): int
    requires 1 <= m <= 13
  {
    var t := [0, 31, 59, 90, 120, 151, 181, 212, 243, 273, 304, 334, 365][m - 1];
    if m > 2 && IsLeap(y) then t + 1 else t
  }

  /** `sys_days(year_month_day)`: days since 1970-01-01. */
  function DaysFromCivil(date: Date): int
    requires IsValid(date)
  {
    DaysBeforeYear(date.year) + DaysBeforeMonth(date.year, date.month) + date.day - 1
      - UNIX_EPOCH_DAYS
  }

  /** The month in which the `dy`-th day (counting from 0) of year `y` falls. */
  function MonthOfDayOfYear(y: int, dy: int): (m: int)
    requires 0 <= dy < DaysInYear(y)
    ensures 1 <= m <= 12
    ensures DaysBeforeMonth(y, m) <= dy < DaysBeforeMonth(y, m + 1)
  {
    if dy < DaysBeforeMonth(y, 2) then 1
    else if dy < DaysBeforeMonth(y, 3) then 2
    else if dy < DaysBeforeMonth(y, 4) then 3
    else if dy < DaysBeforeMonth(y, 5) then 4
    else if dy < DaysBeforeMonth(y, 6) then 5
    else if dy < DaysBeforeMonth(y, 7) then 6
    else if dy < DaysBeforeMonth(y, 8) then 7
    else if dy < DaysBeforeMonth(y, 9) then 8
    else if dy < DaysBeforeMonth(y, 10) then 9
    else if dy < DaysBeforeMonth(y, 11) then 10
    else if dy < DaysBeforeMonth(y, 12) then 11
    else 12
  }

  /** Splits a count of days since 0001-01-01 into whole 400-, 100-, 4- and 1-year
      cycles and the day of the year. */
  datatype YearSplit = YearSplit(a: int, b: int, c: int, e: int, dy: int)

  function SplitDays(n: int): (s: YearSplit)
    ensures 0 <= s.b <= 3 && 0 <= s.c <= 24 && 0 <= s.e <= 3 && 0 <= s.dy <= 365
    ensures n == 146097 * s.a + 36524 * s.b + 1461 * s.c + 365 * s.e + s.dy
    ensures s.dy == 365 ==> s.e == 3 && (s.c == 24 ==> s.b == 3)
  {
    var a, r400 := n / 146097, n % 146097;
    var b := if r400 / 36524 == 4 then 3 else r400 / 36524;
    var r100 := r400 - 36524 * b;
    var c, r4 := r100 / 1461, r100 % 1461;
    var e := if r4 / 365 == 4 then 3 else r4 / 365;
    var dy := r4 - 365 * e;
    YearSplit(a, b, c, e, dy)
  }

  /** `year_month_day(sys_days(z))`: the civil date `z` days after 1970-01-01. */
  function CivilFromDays(z: int): Date
  {
    var s := SplitDays(z + UNIX_EPOCH_DAYS);
    var y := 400 * s.a + 100 * s.b + 4 * s.c + s.e + 1;
    YearCompleted(s);
    var m := MonthOfDayOfYear(y, s.dy);
    Date(y, m, s.dy - DaysBeforeMonth(y, m) + 1)
  }

  /** `weekday(sys_days)`: 1970-01-01 was a Thursday. */
  function WeekdayFromDays(z: int): Weekday
  {
    var k := (z + 4) % 7;
    if k == 0 then Sunday
    else if k == 1 then Monday
    else if k == 2 then Tuesday
    else if k == 3 then Wednesday
    else if k == 4 then Thursday
    else if k == 5 then Friday
    else Saturday
  }

  function NextWeekday(w: Weekday): Weekday {
    match w
    case Sunday => Monday
    case Monday => Tuesday
    case Tuesday => Wednesday
    case Wednesday => Thursday
    case Thursday => Friday
    case Friday => Saturday
    case Saturday => Sunday
  }

  // ---------------------------------------------------------------- lemmas

  /** The split of a day count forms a complete civil year: its day falls inside the
      year it yields, and the years before it hold exactly the days of whole cycles. */
  lemma YearCompleted(s: YearSplit)
    requires 0 <= s.b <= 3 && 0 <= s.c <= 24 && 0 <= s.e <= 3 && 0 <= s.dy <= 365
    requires s.dy == 365 ==> s.e == 3 && (s.c == 24 ==> s.b == 3)
    ensures var y := 400 * s.a + 100 * s.b + 4 * s.c + s.e + 1;
      s.dy < DaysInYear(y) &&
      DaysBeforeYear(y) == 146097 * s.a + 36524 * s.b + 1461 * s.c + 365 * s.e
  {
    var y := 400 * s.a + 100 * s.b + 4 * s.c + s.e + 1;
    var p := y - 1;
    FloorDivUnique(p, 4, 100 * s.a + 25 * s.b + s.c, s.e);
    FloorDivUnique(p, 100, 4 * s.a + s.b, 4 * s.c + s.e);
    FloorDivUnique(p, 400, s.a, 100 * s.b + 4 * s.c + s.e);
    if s.dy == 365 {
      FloorDivUnique(y, 4, 100 * s.a + 25 * s.b + s.c + 1, 0);
      if s.c < 24 {
        FloorDivUnique(y, 100, 4 * s.a + s.b, 4 * s.c + 4);
      } else {
        FloorDivUnique(y, 400, s.a + 1, 0);
      }
      assert IsLeap(y);
    }
  }

  /** Consecutive years are `DaysInYear` apart. */
  lemma DaysBeforeYearStep(y: int)
    ensures DaysBeforeYear(y + 1) == DaysBeforeYear(y) + DaysInYear(y)
  {
    var p := y - 1;
    FloorDivStep(p, 4);
    FloorDivStep(p, 100);
    FloorDivStep(p, 400);
  }

  lemma {:induction false} DaysBeforeYearMonotone(y: int, y': int)
    requires y < y'
    ensures DaysBeforeYear(y + 1) <= DaysBeforeYear(y')
    decreases y' - y
  {
    if y + 1 < y' {
      DaysBeforeYearMonotone(y, y' - 1);
      DaysBeforeYearStep(y' - 1);
    }
  }

  /** A valid date lies within its own year's span of day numbers. */
  lemma DaysFromCivilInYear(date: Date)
    requires IsValid(date)
    ensures DaysBeforeYear(date.year) <= DaysFromCivil(date) + UNIX_EPOCH_DAYS
              < DaysBeforeYear(date.year + 1)
  {
    DaysBeforeYearStep(date.year);
  }

  /** Strictly earlier in (year, month, day) order. */
  predicate Before(d1: Date, d2: Date) {
    d1.year < d2.year
    || (d1.year == d2.year && (d1.month < d2.month
        || (d1.month == d2.month && d1.day < d2.day)))
  }

  /** The day number strictly increases with the calendar order. */
  lemma DaysFromCivilStrictlyIncreasing(d1: Date, d2: Date)
    requires IsValid(d1) && IsValid(d2) && Before(d1, d2)
    ensures DaysFromCivil(d1) < DaysFromCivil(d2)
  {
    if d1.year < d2.year {
      DaysFromCivilInYear(d1);
      DaysFromCivilInYear(d2);
      DaysBeforeYearMonotone(d1.year, d2.year);
    }
  }

  /** Distinct valid dates have distinct day numbers. */
  lemma DaysFromCivilInjective(d1: Date, d2: Date)
    requires IsValid(d1) && IsValid(d2)
    requires DaysFromCivil(d1) == DaysFromCivil(d2)
    ensures d1 == d2
  {
    if Before(d1, d2) {
      DaysFromCivilStrictlyIncreasing(d1, d2);
    } else if Before(d2, d1) {
      DaysFromCivilStrictlyIncreasing(d2, d1);
    }
  }

  /** Every day number names a valid date, and that date's day number is the original. */
  lemma CivilFromDaysInverse(z: int)
    ensures IsValid(CivilFromDays(z))
    ensures DaysFromCivil(CivilFromDays(z)) == z
  {
    YearCompleted(SplitDays(z + UNIX_EPOCH_DAYS));
  }

  /** Every valid date is recovered from its day number. */
  lemma DaysFromCivilInverse(date: Date)
    requires IsValid(date)
    ensures CivilFromDays(DaysFromCivil(date)) == date
  {
    var z := DaysFromCivil(date);
    CivilFromDaysInverse(z);
    DaysFromCivilInjective(CivilFromDays(z), date);
  }

  /** Day 0 is 1970-01-01 and day 3657 is 1980-01-06, the start of GPS time. */
  lemma Epochs()
    ensures DaysFromCivil(Date(1970, 1, 1)) == 0
    ensures DaysFromCivil(Date(1980, 1, 6)) == 3657
    ensures CivilFromDays(0) == Date(1970, 1, 1)
  {
    DaysFromCivilInverse(Date(1970, 1, 1));
  }

  /** The weekday advances by one each day, and 1970-01-01 was a Thursday. */
  lemma WeekdaySuccessor(z: int)
    ensures WeekdayFromDays(z + 1) == NextWeekday(WeekdayFromDays(z))
    ensures WeekdayFromDays(0) == Thursday
  {
    FloorDivStep(z + 4, 7);
  }

  /** The weekday repeats every seven days. */
  lemma WeekdayPeriodic(z: int)
    ensures WeekdayFromDays(z + 7) == WeekdayFromDays(z)
  {
    FloorDivUnique(z + 11, 7, (z + 4) / 7 + 1, (z + 4) % 7);
  }
}
