# caesar time library — a Dafny model

This project models the picosecond time library of the `caesar` C++ repository (`datetime/`):

- **TimeDelta** (v2 `caesar/time/timedelta.hpp` and v1 `caesar/datetime/timedelta.hpp`): a signed
  duration stored as one 128-bit count of picoseconds, with unit factories, truncating
  conversions to and from other tick periods, `+ - * / %`, unary operators, `++`/`--`, compound
  assignment, the total order, and the rounding family `abs`, `trunc`, `floor`, `ceil`, `round`
  (ties to the even multiple).
- **The TimeDelta text formatter** (v2 `timedelta.cpp`): sign, greedy day/hour/minute groups, an
  SI-prefixed final unit with a trimmed decimal fraction, and the `showpos`/`showpoint` flags.
- **DateTime** (v2 `datetime.hpp`/`datetime.cpp`): ten validated, broken-down components compared
  lexicographically, with `min`/`max`, `date()`, `weekday()`, the ISO 8601 extended
  date-and-time string form (section 4.3.2 of ISO 8601:2004, decimal fractions of a second per
  section 4.2.2.4, and the space separator allowed by section 5.6 of RFC 3339) and its parser.
- **GPSTime** (v1 `gpstime.hpp`/`gpstime.cpp`): a picosecond tick count since the GPS epoch
  1980-01-06T00:00:00, built from and broken back into components through days since the epoch
  and floor division, shifted by TimeDeltas, ordered by ticks, formatted and parsed.

Layout, one module per source file plus shared helpers:

| file | module | models |
|---|---|---|
| `errors.dfy` | `Errors` | the exceptions the core throws (`std::invalid_argument`, `std::out_of_range`) as a `Result` |
| `arith.dfy` | `Arith` | the `int128` range and C++'s truncating `/` and `%` |
| `digits.dfy` | `Digits` | decimal text: `fmt`'s `{}` and `{:0Nd}`, `std::string::resize`, the trailing-zero `trim`, the value of a digit string (what `sscanf`'s `%Nd` reads) |
| `calendar.dfy` | `Calendar` | the proleptic Gregorian calendar: last day of a month, days from 1970-01-01 and back (proved inverse), weekdays |
| `timedelta2.dfy` | `TimeDelta2` | v2 `TimeDelta` and its free functions |
| `timedelta_format.dfy` | `TimeDeltaFormat` | v2 `operator<<(std::ostream&, const TimeDelta&)` |
| `timedelta1.dfy` | `TimeDelta1` | v1 `TimeDelta`, each operation proved to agree with v2 |
| `datetime2.dfy` | `DateTime2` | v2 `DateTime` |
| `gpstime1.dfy` | `GpsTime1` | v1 `GPSTime` |

`Rep` (`absl::int128`) is Dafny's unbounded `int` restricted by the predicate `InInt128`. An
operation whose int128 arithmetic would leave that range has a precondition excluding it: the
result of `+ - * / %`, the unit factories and `abs`, and the intermediate product `count·num`
that `std::chrono::duration_cast` forms before it divides. The final `static_cast` of a
conversion to a narrower target rep is not modelled (see "Left out"). Values that
the source only reads are datatypes and functions; the objects whose operators update a field in
place are classes (`MutableTimeDelta` with field `duration`, `MutableGpsTime` with field `time`)
whose methods state the new field value in terms of the pure operations. Exceptions become
`Err(InvalidArgument(message))` / `Err(OutOfRange(message))` with the source's messages. The
formatter and both parsers are methods that follow the source's steps (successive divmods,
`resize`-padding, fixed-width field reads) and are proved equal to declarative specification
functions, about which the properties are proved.

## Model

| member | source | states |
|---|---|---|
| Arith.Quot | datetime/v2/caesar/time/timedelta.hpp:376-390 | C++ integer `/`: the quotient truncated toward zero, \|q\|·\|b\| ≤ \|a\| < (\|q\|+1)·\|b\| and sign of a·b |
| Arith.Rem | datetime/v2/caesar/time/timedelta.hpp:392-397 | C++ integer `%`: a == b·Quot(a,b) + r, \|r\| < \|b\|, r zero or with the sign of a |
| Arith.QuotUnique | datetime/v2/caesar/time/timedelta.hpp:376-397 | any q, r with a == b·q+r, \|r\|<\|b\| and r of a's sign are exactly Quot and Rem |
| Digits.DecimalFacts | datetime/v2/caesar/time/timedelta.cpp:39-47 | `{}` of n is a non-empty digit string whose value is n and whose length is the least with n < 10^len |
| Digits.ZeroPaddedFacts | datetime/v2/caesar/time/datetime.cpp:108-110 | `{:0Nd}` of n < 10^N is exactly N digits whose value is n |
| Digits.ZeroPaddedIsZeros | datetime/v2/caesar/time/datetime.cpp:117-124 | the padded text is all zeros iff n == 0 |
| Digits.TrimFacts | datetime/v2/caesar/time/datetime.cpp:127-134 | trim keeps a prefix, padding it back with '0' restores the text, and a text with a non-zero digit trims to one ending in a non-zero digit |
| Digits.TrimPadded | datetime/v2/caesar/time/timedelta.cpp:69-77 | trimming t followed by zeros gives back t when t ends in a non-zero digit |
| Digits.Resize | datetime/v2/caesar/time/datetime.cpp:87-92 | `resize(n, c)`: length n, the old characters first, then c |
| Digits.LastNotOf | datetime/v2/caesar/time/datetime.cpp:128 | `find_last_not_of(c)`: the last index not holding c, -1 (npos) when there is none |
| Digits.ValueAppend | datetime/v2/caesar/time/datetime.cpp:98 | the value of a concatenation is value(s)·10^\|t\| + value(t), as fixed-width reads rely on |
| Digits.ValueBound | datetime/v2/caesar/time/datetime.cpp:98 | a k-digit field reads a value below 10^k |
| Digits.Value | datetime/v2/caesar/time/datetime.cpp:79-99 | definition: the number a field of decimal digits denotes, which `%Nd` reads; Digits.ValueAppend and ValueBound state its laws |
| Digits.Decimal | datetime/v2/caesar/time/timedelta.cpp:39-47 | definition of `{}` by repeated division by ten; Digits.DecimalFacts states what it produces |
| Digits.ZeroPadded | datetime/v2/caesar/time/datetime.cpp:108-124 | definition of `{:0Nd}`: the decimal text left-padded with zeros to N characters; Digits.ZeroPaddedFacts and ZeroPaddedIsZeros state its laws |
| Digits.Trim | datetime/v2/caesar/time/datetime.cpp:127-134 | definition of the `trim` lambda through LastNotOf; Digits.TrimFacts, TrimPadded and TrimDigits state its laws |
| Calendar.LastDayOfMonth | datetime/v2/caesar/time/datetime.cpp:22-30 | 28..31 days, and February has 29 exactly in Gregorian leap years |
| Calendar.IsLeap | datetime/v2/caesar/time/datetime.cpp:22-30 | definition: the Gregorian rule, every fourth year except centuries not divisible by 400; Calendar.LastDayOfMonth states that February has 29 days exactly in these years |
| Calendar.IsValid | datetime/v2/caesar/time/datetime.cpp:35-40 | definition: a month in 1..12 and a day from 1 to that month's last day, the constructor's month and day checks; Calendar.CivilFromDaysInverse states that every day count gives such a date |
| Calendar.DaysFromCivil | datetime/v1/caesar/datetime/gpstime.hpp:456-462 | definition of `local_days(year_month_day)`: whole years, then months, then days since 1970-01-01; Calendar.DaysFromCivilInverse, DaysFromCivilStrictlyIncreasing and Epochs state its laws |
| Calendar.CivilFromDays | datetime/v1/caesar/datetime/gpstime.hpp:170-174 | definition of `year_month_day(days)` through the 400-, 100-, 4- and 1-year split; Calendar.CivilFromDaysInverse states that it inverts DaysFromCivil |
| Calendar.WeekdayFromDays | datetime/v2/caesar/time/datetime.hpp:201-210 | definition: the day count plus four, modulo seven, counted from Sunday; Calendar.WeekdaySuccessor and WeekdayPeriodic state its laws |
| Calendar.MonthOfDayOfYear | datetime/v1/caesar/datetime/gpstime.hpp:173-174 | the month whose span of days contains the day of the year |
| Calendar.SplitDays | datetime/v1/caesar/datetime/gpstime.hpp:173-174 | a day count splits into 400-, 100-, 4- and 1-year cycles and a day of the year |
| Calendar.CivilFromDaysInverse | datetime/v1/caesar/datetime/gpstime.hpp:163-175 | the date of a day count is a valid date whose day count is that number |
| Calendar.DaysFromCivilInverse | datetime/v1/caesar/datetime/gpstime.hpp:451-456 | days-from-civil followed by civil-from-days is the identity on valid dates |
| Calendar.DaysFromCivilStrictlyIncreasing | datetime/v1/caesar/datetime/gpstime.hpp:451-456 | a date earlier in calendar order has a smaller day count |
| Calendar.DaysFromCivilInjective | datetime/v1/caesar/datetime/gpstime.hpp:451-456 | distinct valid dates have distinct day counts |
| Calendar.Epochs | datetime/v1/caesar/datetime/gpstime.hpp:458-459 | 1970-01-01 is day 0 and the GPS epoch 1980-01-06 is day 3657 |
| Calendar.WeekdaySuccessor | datetime/v2/caesar/time/datetime.hpp:201-210 | the weekday of the next day is the next weekday; day 0 (1970-01-01) was a Thursday |
| Calendar.WeekdayPeriodic | datetime/v2/caesar/time/datetime.hpp:201-210 | weekdays repeat every seven days |
| TimeDelta2.FromDuration | datetime/v2/caesar/time/timedelta.hpp:63-78 | the converting constructor, defined when the intermediate n·CF::num fits int128 (CF the period over a picosecond in lowest terms): \|count\|·den ≤ \|n·num·10^12\| < (\|count\|+1)·den, sign kept (truncation toward zero) |
| TimeDelta2.ToDuration | datetime/v2/caesar/time/timedelta.hpp:84-101 | conversion to another period, defined when the intermediate count·CF::den fits int128, truncates toward zero in the same sense; the result is the int128 quotient before the cast to the target rep |
| TimeDelta2.DurationRoundTrip | datetime/v2/caesar/time/timedelta.hpp:63-101 | for a period that divides into picoseconds, converting in and out gives back n |
| TimeDelta2.ConversionExamples | datetime/v2/test/time/timedelta_test.cpp:50-86 | 999 fs and -999 fs give 0 ticks; 123456 us is 123456·10^6 ticks and converts back to 123456; femtoseconds reduce to 1/1000 and converting `max()` to them overflows the intermediate |
| TimeDelta2.Factor | datetime/v2/caesar/time/timedelta.hpp:63-101 | the factor `duration_cast` scales by: a ratio equal to period/10^-12 with coprime numerator and denominator |
| TimeDelta2.ConversionsInLowestTerms | datetime/v2/caesar/time/timedelta.hpp:63-101 | each conversion is the truncating quotient by the reduced factor, and an intermediate product that fits int128 gives a result that fits |
| TimeDelta2.Days | datetime/v2/caesar/time/timedelta.hpp:161-168 | `days(n).count() == n·86400·10^12` |
| TimeDelta2.Hours | datetime/v2/caesar/time/timedelta.hpp:171-178 | `hours(n).count() == n·3600·10^12` |
| TimeDelta2.Minutes | datetime/v2/caesar/time/timedelta.hpp:181-188 | `minutes(n).count() == n·60·10^12` |
| TimeDelta2.Seconds | datetime/v2/caesar/time/timedelta.hpp:191-198 | `seconds(n).count() == n·10^12` |
| TimeDelta2.Milliseconds | datetime/v2/caesar/time/timedelta.hpp:201-208 | `milliseconds(n).count() == n·10^9` |
| TimeDelta2.Microseconds | datetime/v2/caesar/time/timedelta.hpp:211-218 | `microseconds(n).count() == n·10^6` |
| TimeDelta2.Nanoseconds | datetime/v2/caesar/time/timedelta.hpp:221-228 | `nanoseconds(n).count() == n·10^3` |
| TimeDelta2.Picoseconds | datetime/v2/caesar/time/timedelta.hpp:231-238 | `picoseconds(n).count() == n` |
| TimeDelta2.ExactScale | datetime/v2/caesar/time/timedelta.hpp:161-238 | the generic duration_cast is exact (n·k) for a unit of k picoseconds |
| TimeDelta2.Constants | datetime/v2/caesar/time/timedelta.hpp:51-122 | the default value is 0, `resolution()` is one picosecond, `min()`/`max()` hold the least and greatest int128 counts |
| TimeDelta2.Plus | datetime/v2/caesar/time/timedelta.hpp:262-266 | definition: unary `+` returns its argument; TimeDelta2.NegateInvolution states it is the identity |
| TimeDelta2.Negate | datetime/v2/caesar/time/timedelta.hpp:268-273 | definition: unary `-` negates the count, `min()` excluded; TimeDelta2.NegateInvolution states it is an involution |
| TimeDelta2.Add | datetime/v2/caesar/time/timedelta.hpp:438-444 | definition: `+` adds the counts within int128; TimeDelta2.AddLaws states its laws |
| TimeDelta2.Subtract | datetime/v2/caesar/time/timedelta.hpp:447-453 | definition: `-` subtracts the counts within int128; TimeDelta2.SubtractLaws states its laws |
| TimeDelta2.Multiply | datetime/v2/caesar/time/timedelta.hpp:456-474 | definition: integral `*` in either order multiplies the count; TimeDelta2.MultiplyThenDivide states that `/` undoes it |
| TimeDelta2.Divide | datetime/v2/caesar/time/timedelta.hpp:476-483 | definition: integral `/` is C++'s truncating division of the count; TimeDelta2.DivideModuloLaws states its laws |
| TimeDelta2.Modulo | datetime/v2/caesar/time/timedelta.hpp:485-492 | definition: `%` by a Rep is C++'s truncating remainder; TimeDelta2.DivideModuloLaws states its laws |
| TimeDelta2.ModuloDelta | datetime/v2/caesar/time/timedelta.hpp:494-499 | definition: `%` by a TimeDelta is `%` by its count; TimeDelta2.ModuloDeltaIsModuloCount states it |
| TimeDelta2.Less | datetime/v2/caesar/time/timedelta.hpp:517-522 | definition: `<` on the counts; TimeDelta2.ComparisonLaws states the order laws |
| TimeDelta2.Greater | datetime/v2/caesar/time/timedelta.hpp:524-529 | definition: `>` on the counts; TimeDelta2.ComparisonLaws states it is swapped `<` |
| TimeDelta2.LessEq | datetime/v2/caesar/time/timedelta.hpp:531-536 | definition: not `>`; TimeDelta2.ComparisonLaws states it is `<` or equal |
| TimeDelta2.GreaterEq | datetime/v2/caesar/time/timedelta.hpp:538-543 | definition: not `<`; TimeDelta2.ComparisonLaws states it is `>` or equal |
| TimeDelta2.NegateInvolution | datetime/v2/caesar/time/timedelta.hpp:262-273 | unary minus is an involution, unary plus the identity |
| TimeDelta2.AddLaws | datetime/v2/caesar/time/timedelta.hpp:438-444 | `+` is commutative, zero is its identity, and `(a+b)-b == a` |
| TimeDelta2.SubtractLaws | datetime/v2/caesar/time/timedelta.hpp:447-453 | `(b-a).count() == b.count()-a.count()` and `(b-a)+a == b` |
| TimeDelta2.DivideModuloLaws | datetime/v2/caesar/time/timedelta.hpp:476-492 | `/k` truncates toward zero and `%k` is the matching remainder: q·k + r == count, \|r\| < \|k\|, r of count's sign |
| TimeDelta2.MultiplyThenDivide | datetime/v2/caesar/time/timedelta.hpp:456-483 | `(a·k)/k == a` for k ≠ 0 |
| TimeDelta2.ModuloDeltaIsModuloCount | datetime/v2/caesar/time/timedelta.hpp:495-499 | `dt % other` is the truncating remainder by `other.count()` |
| TimeDelta2.ComparisonLaws | datetime/v2/caesar/time/timedelta.hpp:504-543 | `<` is `<` on counts, `>` is swapped `<`, `<=`/`>=` are `<`/`>` or equal, exactly one of `<`, `==`, `>` |
| TimeDelta2.Abs | datetime/v2/caesar/time/timedelta.hpp:619-624 | `abs(dt)` is ≥ 0 and is `dt` or `-dt` |
| TimeDelta2.Trunc | datetime/v2/caesar/time/timedelta.hpp:653-657 | a multiple of the period, no larger in magnitude than dt, of dt's sign or zero, less than \|p\| from dt |
| TimeDelta2.Floor | datetime/v2/caesar/time/timedelta.hpp:686-691 | defined for every non-zero period, `min()` included, unless the truncated value lies above dt, where the source evaluates `abs(period)`; a multiple of the period with floor ≤ dt < floor + \|p\| |
| TimeDelta2.FloorIsGreatest | datetime/v2/caesar/time/timedelta.hpp:659-691 | every multiple of the period at most dt is at most floor |
| TimeDelta2.FloorOfPositivePeriod | datetime/v2/caesar/time/timedelta.hpp:686-691 | for p > 0 and dt == w·p + r with 0 ≤ r < p, floor is w·p |
| TimeDelta2.Ceil | datetime/v2/caesar/time/timedelta.hpp:720-725 | defined for every non-zero period, `min()` included, unless the truncated value lies below dt, where the source evaluates `abs(period)`; a multiple of the period with ceil - \|p\| < dt ≤ ceil |
| TimeDelta2.CeilIsLeast | datetime/v2/caesar/time/timedelta.hpp:693-725 | every multiple of the period at least dt is at least ceil |
| TimeDelta2.Round | datetime/v2/caesar/time/timedelta.hpp:754-772 | defined when period ≠ `min()`, since round always evaluates `abs(period)`: floor or floor+\|p\|, within \|p\|/2 of dt, and on an exact tie an even multiple of p |
| TimeDelta2.RoundIsNearest | datetime/v2/caesar/time/timedelta.hpp:727-772 | no multiple of the period is nearer to dt than round |
| TimeDelta2.RoundOfPositivePeriod | datetime/v2/caesar/time/timedelta.hpp:754-772 | for p > 0: w·p below the half, (w+1)·p above, and on the half whichever of w, w+1 is even |
| TimeDelta2.TruncFloorCeilExamples | datetime/v2/test/time/timedelta_test.cpp:626-690 | trunc(±2.5s,1s) = ±2s, floor gives 2s and -3s, ceil gives 3s and -2s |
| TimeDelta2.RoundExamples | datetime/v2/test/time/timedelta_test.cpp:692-724 | 2.499s→2s, 2.501s→3s, 2.5s→2s, 3.5s→4s |
| TimeDelta2.RoundExample | datetime/v2/caesar/time/timedelta.hpp:754-772 | to whole seconds, whole.frac seconds rounds half to even |
| TimeDelta2.MinPeriodExamples | datetime/v2/caesar/time/timedelta.hpp:686-725 | `floor(5 ps, min())` and `ceil(-5 ps, min())` are defined and are zero, since neither reaches `abs(min())` |
| TimeDelta2.MutableTimeDelta.PreIncrement | datetime/v2/caesar/time/timedelta.hpp:285-290 | the count goes up by one and the new value is returned |
| TimeDelta2.MutableTimeDelta.PostIncrement | datetime/v2/caesar/time/timedelta.hpp:293-297 | the count goes up by one and the old value is returned |
| TimeDelta2.MutableTimeDelta.PreDecrement | datetime/v2/caesar/time/timedelta.hpp:300-305 | the count goes down by one and the new value is returned |
| TimeDelta2.MutableTimeDelta.PostDecrement | datetime/v2/caesar/time/timedelta.hpp:308-312 | the count goes down by one and the old value is returned |
| TimeDelta2.MutableTimeDelta.AddAssign | datetime/v2/caesar/time/timedelta.hpp:344-349 | the new value is old + other |
| TimeDelta2.MutableTimeDelta.SubtractAssign | datetime/v2/caesar/time/timedelta.hpp:352-357 | the new value is old - other |
| TimeDelta2.MutableTimeDelta.MultiplyAssign | datetime/v2/caesar/time/timedelta.hpp:360-374 | the new value is old · k (integral k) |
| TimeDelta2.MutableTimeDelta.DivideAssign | datetime/v2/caesar/time/timedelta.hpp:376-390 | the new value is old / k, truncated toward zero (integral k) |
| TimeDelta2.MutableTimeDelta.ModuloAssign | datetime/v2/caesar/time/timedelta.hpp:392-397 | the new value is old % k |
| TimeDelta2.MutableTimeDelta.ModuloDeltaAssign | datetime/v2/caesar/time/timedelta.hpp:399-405 | the new value is old % other |
| TimeDeltaFormat.Format | datetime/v2/caesar/time/timedelta.cpp:11-92 | the step-by-step printer produces exactly `Formatted(dt, showpos, showpoint)` |
| TimeDeltaFormat.PrintMagnitude | datetime/v2/caesar/time/timedelta.cpp:29-89 | appends the magnitude's text: the d/h/m groups and the final unit |
| TimeDeltaFormat.PrintGroup | datetime/v2/caesar/time/timedelta.cpp:37-48 | a group is printed only once the magnitude reaches its unit, and leaves `frac` as the remainder by that unit |
| TimeDeltaFormat.PrintFinal | datetime/v2/caesar/time/timedelta.cpp:53-89 | appends the final unit's whole part, fraction and suffix |
| TimeDeltaFormat.PrintFraction | datetime/v2/caesar/time/timedelta.cpp:81-88 | appends the padded-then-trimmed fraction, or `.0` under showpoint when it is zero |
| TimeDeltaFormat.FinalUnit | datetime/v2/caesar/time/timedelta.cpp:53-67 | one of the five units s, ms, us, ns, ps with its digit count and suffix; the unit is 10^digits ticks, the largest not above the magnitude (ps for 0) |
| TimeDeltaFormat.Formatted | datetime/v2/caesar/time/timedelta.cpp:11-92 | definition of the whole text: sign, then the magnitude's text; TimeDeltaFormat.Format, SignOfFormatted, MagnitudeStartsWithDigit and FormattedGroupsReconstruct state its properties |
| TimeDeltaFormat.SignText | datetime/v2/caesar/time/timedelta.cpp:22-26 | definition: `-` for a negative value, `+` under showpos, else nothing; TimeDeltaFormat.SignOfFormatted states its effect |
| TimeDeltaFormat.MagnitudeText | datetime/v2/caesar/time/timedelta.cpp:29-89 | definition: the d/h/m groups taken from the magnitude directly, then the final group; TimeDeltaFormat.PrintMagnitude and FormattedGroupsReconstruct state its properties |
| TimeDeltaFormat.GroupText | datetime/v2/caesar/time/timedelta.cpp:37-48 | definition: a group's count and suffix once the magnitude reaches its unit; TimeDeltaFormat.PrintGroup and GroupSteps state its properties |
| TimeDeltaFormat.FinalText | datetime/v2/caesar/time/timedelta.cpp:53-89 | definition: whole units, fraction and suffix of the final group; TimeDeltaFormat.PrintFinal states that the printer produces it |
| TimeDeltaFormat.FractionText | datetime/v2/caesar/time/timedelta.cpp:69-88 | definition: the padded-then-trimmed fraction, or `.0`/nothing for zero; TimeDeltaFormat.FractionTextFacts states its properties |
| TimeDeltaFormat.SignOfFormatted | datetime/v2/caesar/time/timedelta.cpp:22-26 | the text starts with `-` iff dt < 0 and with `+` iff showpos and dt ≥ 0 |
| TimeDeltaFormat.MagnitudeStartsWithDigit | datetime/v2/caesar/time/timedelta.cpp:34-80 | after the sign the text starts with a digit |
| TimeDeltaFormat.FormattedGroupsReconstruct | datetime/v2/caesar/time/timedelta.cpp:34-79 | d·day + h·hour + m·min + whole·unit + frac == \|dt\|, h < 24, m < 60, frac < unit, and groups below their unit are zero |
| TimeDeltaFormat.FractionTextFacts | datetime/v2/caesar/time/timedelta.cpp:81-88 | a zero fraction prints "" or ".0"; a non-zero one prints `.` and at most `digits` digits not ending in 0 that pad back to its value |
| TimeDeltaFormat.GroupSteps | datetime/v2/caesar/time/timedelta.cpp:37-48 | the remainder after each group is the magnitude modulo that group's unit |
| TimeDeltaFormat.FormatExample123ps | datetime/v2/test/time/timedelta_test.cpp:561-564 | 123 ps prints `123ps` |
| TimeDeltaFormat.FormatExample1230ps | datetime/v2/test/time/timedelta_test.cpp:566-569 | 1230 ps prints `1.23ns` |
| TimeDeltaFormat.FormatExample12us345ns | datetime/v2/test/time/timedelta_test.cpp:571-575 | 12 us + 345 ns prints `12.345us` |
| TimeDeltaFormat.FormatExampleMinus999ms | datetime/v2/test/time/timedelta_test.cpp:577-581 | -1 s + 1 ms prints `-999ms` |
| TimeDeltaFormat.FormatExample754s | datetime/v2/test/time/timedelta_test.cpp:583-586 | 754 s prints `12m34s` |
| TimeDeltaFormat.FormatExampleMinus1h1ps | datetime/v2/test/time/timedelta_test.cpp:588-592 | -1 h - 1 ps prints `-1h0m0.000000000001s` |
| TimeDeltaFormat.FormatExampleAllGroups | datetime/v2/test/time/timedelta_test.cpp:594-599 | 1d 23h 4m 56s 789ms prints `1d23h4m56.789s` |
| TimeDeltaFormat.FormatExampleShowpos | datetime/v2/test/time/timedelta_test.cpp:601-605 | 10 s under showpos prints `+10s` |
| TimeDeltaFormat.FormatExampleShowpoint | datetime/v2/test/time/timedelta_test.cpp:607-611 | -10 s under showpoint prints `-10.0s` |
| TimeDelta1.FromDuration | datetime/v1/caesar/datetime/timedelta.hpp:640-661 | the v1 converting constructor is the v2 one, under the same bound on the intermediate product (truncation toward zero) |
| TimeDelta1.ToDuration | datetime/v1/caesar/datetime/timedelta.hpp:663-681 | the v1 conversion out is the v2 one, under the same bound on the intermediate product |
| TimeDelta1.ConversionsTruncate | datetime/v1/caesar/datetime/timedelta.hpp:640-681 | both conversions truncate toward zero and keep the sign |
| TimeDelta1.Days | datetime/v1/caesar/datetime/timedelta.hpp:126-133 | agrees with v2 `days` |
| TimeDelta1.Hours | datetime/v1/caesar/datetime/timedelta.hpp:149-156 | agrees with v2 `hours` |
| TimeDelta1.Minutes | datetime/v1/caesar/datetime/timedelta.hpp:172-179 | agrees with v2 `minutes` |
| TimeDelta1.Seconds | datetime/v1/caesar/datetime/timedelta.hpp:193-200 | agrees with v2 `seconds` |
| TimeDelta1.Milliseconds | datetime/v1/caesar/datetime/timedelta.hpp:215-222 | agrees with v2 `milliseconds` |
| TimeDelta1.Microseconds | datetime/v1/caesar/datetime/timedelta.hpp:237-244 | agrees with v2 `microseconds` |
| TimeDelta1.Nanoseconds | datetime/v1/caesar/datetime/timedelta.hpp:259-266 | agrees with v2 `nanoseconds` |
| TimeDelta1.Picoseconds | datetime/v1/caesar/datetime/timedelta.hpp:281-288 | agrees with v2 `picoseconds` |
| TimeDelta1.FactoriesExact | datetime/v1/caesar/datetime/timedelta.hpp:126-288 | each v1 factory scales n exactly to picoseconds |
| TimeDelta1.FactoryRanges | datetime/v1/caesar/datetime/timedelta.hpp:126-288 | a day count in range keeps every smaller unit's count in range |
| TimeDelta1.Plus | datetime/v1/caesar/datetime/timedelta.hpp:305-310 | agrees with v2 unary `+` |
| TimeDelta1.Negate | datetime/v1/caesar/datetime/timedelta.hpp:312-317 | agrees with v2 unary `-` |
| TimeDelta1.Add | datetime/v1/caesar/datetime/timedelta.hpp:414-421 | agrees with v2 `+` |
| TimeDelta1.Subtract | datetime/v1/caesar/datetime/timedelta.hpp:423-430 | agrees with v2 `-` |
| TimeDelta1.Multiply | datetime/v1/caesar/datetime/timedelta.hpp:432-448 | agrees with v2 integral `*` |
| TimeDelta1.Divide | datetime/v1/caesar/datetime/timedelta.hpp:450-463 | agrees with v2 integral `/` |
| TimeDelta1.Modulo | datetime/v1/caesar/datetime/timedelta.hpp:465-478 | agrees with v2 `%` by a Rep |
| TimeDelta1.ModuloDelta | datetime/v1/caesar/datetime/timedelta.hpp:480-489 | agrees with v2 `%` by a TimeDelta |
| TimeDelta1.ScalarLaws | datetime/v1/caesar/datetime/timedelta.hpp:365-412 | `/` truncates toward zero, `%` is the matching remainder, and `lhs % rhs == lhs % rhs.count()` |
| TimeDelta1.ComparisonLaws | datetime/v1/caesar/datetime/timedelta.hpp:491-531 | `>` is swapped `<`, `<=`/`>=` are `<`/`>` or equal, exactly one of `<`, `==`, `>` |
| TimeDelta1.Abs | datetime/v1/caesar/datetime/timedelta.hpp:537-543 | agrees with v2 `abs` |
| TimeDelta1.Trunc | datetime/v1/caesar/datetime/timedelta.hpp:559-563 | agrees with v2 `trunc` |
| TimeDelta1.Floor | datetime/v1/caesar/datetime/timedelta.hpp:579-584 | agrees with v2 `floor`, with `min()` allowed as a period where `abs` is not evaluated |
| TimeDelta1.Ceil | datetime/v1/caesar/datetime/timedelta.hpp:600-605 | agrees with v2 `ceil`, with `min()` allowed as a period where `abs` is not evaluated |
| TimeDelta1.Round | datetime/v1/caesar/datetime/timedelta.hpp:621-639 | agrees with v2 `round` |
| TimeDelta1.RoundingLaws | datetime/v1/caesar/datetime/timedelta.hpp:538-605 | the v1 `abs`, `trunc`, `floor`, `ceil` keep the same bounds and multiple-of-period laws |
| TimeDelta1.RoundLaws | datetime/v1/caesar/datetime/timedelta.hpp:621-639 | v1 `round` is a nearest multiple, ties to the even multiple |
| TimeDelta1.MutableTimeDelta.PreIncrement | datetime/v1/caesar/datetime/timedelta.hpp:319-325 | the count goes up by one and the new value is returned |
| TimeDelta1.MutableTimeDelta.PostIncrement | datetime/v1/caesar/datetime/timedelta.hpp:327-332 | the count goes up by one and the old value is returned |
| TimeDelta1.MutableTimeDelta.PreDecrement | datetime/v1/caesar/datetime/timedelta.hpp:334-340 | the count goes down by one and the new value is returned |
| TimeDelta1.MutableTimeDelta.PostDecrement | datetime/v1/caesar/datetime/timedelta.hpp:342-347 | the count goes down by one and the old value is returned |
| TimeDelta1.MutableTimeDelta.AddAssign | datetime/v1/caesar/datetime/timedelta.hpp:349-355 | the new value is old + other |
| TimeDelta1.MutableTimeDelta.SubtractAssign | datetime/v1/caesar/datetime/timedelta.hpp:357-363 | the new value is old - other |
| TimeDelta1.MutableTimeDelta.MultiplyAssign | datetime/v1/caesar/datetime/timedelta.hpp:365-371 | the new value is old · mul |
| TimeDelta1.MutableTimeDelta.DivideAssign | datetime/v1/caesar/datetime/timedelta.hpp:372-386 | the new value is old / div, truncated toward zero |
| TimeDelta1.MutableTimeDelta.ModuloAssign | datetime/v1/caesar/datetime/timedelta.hpp:388-400 | the new value is old % mod |
| TimeDelta1.MutableTimeDelta.ModuloDeltaAssign | datetime/v1/caesar/datetime/timedelta.hpp:402-412 | the new value is old % other |
| DateTime2.Make | datetime/v2/caesar/time/datetime.cpp:9-62 | Ok exactly when every component is in range, then holding the ten components; otherwise the message of the first check that fails |
| DateTime2.FirstInvalid | datetime/v2/caesar/time/datetime.cpp:32-61 | the index of the first component outside its range; all before it are in range |
| DateTime2.Rejected | datetime/v2/caesar/time/datetime.cpp:32-61 | a component out of range after in-range ones is the one reported |
| DateTime2.InRange | datetime/v2/caesar/time/datetime.cpp:32-61 | definition: the range of each component as the constructor checks it; DateTime2.Make and FirstInvalid state how it decides construction |
| DateTime2.Valid | datetime/v2/caesar/time/datetime.cpp:32-61 | definition: all ten components in range; DateTime2.Make states that exactly valid components construct |
| DateTime2.MakeDateExamples | datetime/v2/test/time/datetime_test.cpp:57-68 | years 0 and 10000 and months 0 and 13 are rejected with their messages |
| DateTime2.MakeDayExamples | datetime/v2/test/time/datetime_test.cpp:69-77 | days 0 and 32, 2000-02-30, 2001-02-29 and 2000-04-31 are rejected with "invalid day"; the leap day 1920-02-29 is accepted |
| DateTime2.MakeTimeExamples | datetime/v2/test/time/datetime_test.cpp:78-95 | hours -1 and 24, minutes and seconds -1 and 60 are rejected with their messages |
| DateTime2.MakeSubsecondExamples | datetime/v2/test/time/datetime_test.cpp:96-119 | each sub-second component at -1 and at 1000 is rejected with its message |
| DateTime2.AccessorsOfMake | datetime/v2/caesar/time/datetime.hpp:122-199 | the accessors and `date()` return the components given to the constructor |
| DateTime2.Year | datetime/v2/caesar/time/datetime.hpp:122-126 | definition: component 0; DateTime2.AccessorsOfMake states it returns the constructor's year |
| DateTime2.Month | datetime/v2/caesar/time/datetime.hpp:129-133 | definition: component 1; DateTime2.AccessorsOfMake states it returns the constructor's month |
| DateTime2.Day | datetime/v2/caesar/time/datetime.hpp:136-140 | definition: component 2; DateTime2.AccessorsOfMake states it returns the constructor's day |
| DateTime2.Hour | datetime/v2/caesar/time/datetime.hpp:143-147 | definition: component 3; DateTime2.AccessorsOfMake states it returns the constructor's hour |
| DateTime2.Minute | datetime/v2/caesar/time/datetime.hpp:150-154 | definition: component 4; DateTime2.AccessorsOfMake states it returns the constructor's minute |
| DateTime2.Second | datetime/v2/caesar/time/datetime.hpp:157-161 | definition: component 5; DateTime2.AccessorsOfMake states it returns the constructor's second |
| DateTime2.Millisecond | datetime/v2/caesar/time/datetime.hpp:164-168 | definition: component 6; DateTime2.AccessorsOfMake states it returns the constructor's millisecond |
| DateTime2.Microsecond | datetime/v2/caesar/time/datetime.hpp:171-175 | definition: component 7; DateTime2.AccessorsOfMake states it returns the constructor's microsecond |
| DateTime2.Nanosecond | datetime/v2/caesar/time/datetime.hpp:178-182 | definition: component 8; DateTime2.AccessorsOfMake states it returns the constructor's nanosecond |
| DateTime2.Picosecond | datetime/v2/caesar/time/datetime.hpp:185-189 | definition: component 9; DateTime2.AccessorsOfMake states it returns the constructor's picosecond |
| DateTime2.MakeOfValid | datetime/v2/caesar/time/datetime.cpp:9-62 | constructing from a valid DateTime's own components gives it back |
| DateTime2.Min | datetime/v2/caesar/time/datetime.hpp:94-98 | a valid DateTime |
| DateTime2.Max | datetime/v2/caesar/time/datetime.hpp:101-105 | a valid DateTime |
| DateTime2.MinMax | datetime/v2/caesar/time/datetime.hpp:94-105 | min is 0001-01-01T00:00:00, max 9999-12-31T23:59:59 with 999/999/999/999, and every valid DateTime lies between |
| DateTime2.Date | datetime/v2/caesar/time/datetime.hpp:191-199 | a valid calendar date |
| DateTime2.Weekday | datetime/v2/caesar/time/datetime.hpp:201-210 | definition: the weekday of the date's day count; DateTime2.WeekdayOf and the weekday examples state its value |
| DateTime2.WeekdayOf | datetime/v2/caesar/time/datetime.hpp:201-210 | the weekday is that of the date's day count since 1970-01-01 |
| DateTime2.WeekdayExample2021 | datetime/v2/test/time/datetime_test.cpp:271-292 | 2021-04-03 is a Saturday |
| DateTime2.WeekdayExample1969 | datetime/v2/test/time/datetime_test.cpp:271-292 | 1969-12-31 is a Wednesday |
| DateTime2.WeekdayExampleLeapDay | datetime/v2/test/time/datetime_test.cpp:271-292 | 1920-02-29 is a Sunday and 1920-03-01 a Monday |
| DateTime2.Lex | datetime/v2/caesar/time/datetime.hpp:229-242 | definition of `ranges::lexicographical_compare` with `less` or `greater`; DateTime2.LexIff and LexTrichotomy state its laws |
| DateTime2.Equal | datetime/v2/caesar/time/datetime.hpp:215-219 | definition: `ranges::equal` of the components; DateTime2.ComparisonLaws states its laws |
| DateTime2.NotEqual | datetime/v2/caesar/time/datetime.hpp:222-226 | definition: not `==`; DateTime2.ComparisonLaws states its laws |
| DateTime2.Less | datetime/v2/caesar/time/datetime.hpp:229-234 | definition: lexicographic `less` on the components; DateTime2.ComparisonLaws states it is decided by the first difference |
| DateTime2.Greater | datetime/v2/caesar/time/datetime.hpp:237-242 | definition: lexicographic `greater` on the components; DateTime2.GreaterIsSwappedLess and ComparisonLaws state it is swapped `<` |
| DateTime2.LessEq | datetime/v2/caesar/time/datetime.hpp:245-249 | definition: not `>`; DateTime2.ComparisonLaws states it is `<` or `==` |
| DateTime2.GreaterEq | datetime/v2/caesar/time/datetime.hpp:252-256 | definition: not `<`; DateTime2.ComparisonLaws states it is `>` or `==` |
| DateTime2.ComparisonLaws | datetime/v2/caesar/time/datetime.hpp:215-256 | `==` iff all ten components agree; `<` and `>` iff at the first difference the left component is smaller/larger; `>` is swapped `<`; exactly one of `<`, `==`, `>`; `<=`/`>=` as negations |
| DateTime2.LexIff | datetime/v2/caesar/time/datetime.hpp:229-242 | lexicographic comparison holds iff there is a first differing position deciding it |
| DateTime2.LexTrichotomy | datetime/v2/caesar/time/datetime.hpp:229-242 | of equal-length sequences exactly one is lexicographically smaller, or they are equal |
| DateTime2.GreaterIsSwappedLess | datetime/v2/caesar/time/datetime.hpp:237-242 | comparing with `greater` is comparing the swapped pair with `less` |
| DateTime2.PointwiseNotGreater | datetime/v2/caesar/time/datetime.hpp:237-242 | a pointwise smaller-or-equal sequence is not lexicographically greater |
| DateTime2.ToString | datetime/v2/caesar/time/datetime.cpp:105-137 | the text matches the parser's pattern with `T`; it is 19 characters iff all sub-second components are zero, otherwise it does not end in `0` |
| DateTime2.FieldFacts | datetime/v2/caesar/time/datetime.cpp:108-110 | the zero-padded date-and-time part is 19 characters whose fields read back as the six components |
| DateTime2.SubsecondFacts | datetime/v2/caesar/time/datetime.cpp:123-124 | the 3+3+3+3 sub-second text is 12 digits reading back as ms·10^9 + us·10^6 + ns·10^3 + ps |
| DateTime2.FractionFacts | datetime/v2/caesar/time/datetime.cpp:126-136 | a non-zero fraction trims to 1..12 digits ending in a non-zero digit |
| DateTime2.ToStringExamplePicos | datetime/v2/test/time/datetime_test.cpp:213-216 | 2000-01-02T03:04:05 with 6, 7, 8, 9 prints `2000-01-02T03:04:05.006007008009` |
| DateTime2.ToStringExampleWhole | datetime/v2/test/time/datetime_test.cpp:218-221 | a whole second prints `2000-01-02T03:04:05` |
| DateTime2.ToStringExampleTrimmed | datetime/v2/test/time/datetime_test.cpp:223-226 | 678 ms and 900 us print `.6789` |
| DateTime2.WellFormed | datetime/v2/caesar/time/datetime.cpp:66-77 | definition of the pattern matched against the whole string; DateTime2.ToString states the printer's output matches it and DateTime2.ParseRejects shows strings that do not |
| DateTime2.FromString | datetime/v2/caesar/time/datetime.cpp:64-103 | definition of the string constructor's result; DateTime2.Parse, FromStringOfFields and RoundTrip state its properties |
| DateTime2.FractionPicos | datetime/v2/caesar/time/datetime.cpp:94-99 | the fraction read from a well-formed string is below 10^12 picoseconds |
| DateTime2.FractionOfDigits | datetime/v2/caesar/time/datetime.cpp:87-99 | the fraction digits d read as value(d)·10^(12-\|d\|) picoseconds |
| DateTime2.Parse | datetime/v2/caesar/time/datetime.cpp:64-103 | the step-by-step parser (pattern check, field reads, resize to 12, 3+3+3+3 reads) computes `FromString` |
| DateTime2.FromStringOfFields | datetime/v2/caesar/time/datetime.cpp:79-101 | a well-formed string parses to the constructor applied to its field values and the 3+3+3+3 split of its fraction |
| DateTime2.ParseOfFields | datetime/v2/caesar/time/datetime.cpp:64-101 | a text assembled from digit fields with `T` or space parses to the constructor of those values |
| DateTime2.RoundTrip | datetime/v2/caesar/time/datetime.cpp:64-137 | parsing the text of any valid DateTime gives it back |
| DateTime2.FractionRoundTrip | datetime/v2/caesar/time/datetime.cpp:94-136 | the printed fraction reads back as the sub-second picoseconds |
| DateTime2.ParsedFields | datetime/v2/caesar/time/datetime.cpp:79-85 | the printed date and time fields read back as the six components |
| DateTime2.SubsecondSplit | datetime/v2/caesar/time/datetime.cpp:98 | the 3+3+3+3 split of the sub-second picoseconds gives back ms, us, ns, ps |
| DateTime2.ParseExampleMillis | datetime/v2/test/time/datetime_test.cpp:123-138 | `2001-02-03T04:05:06.789` gives ms = 789 |
| DateTime2.ParseExampleSpace | datetime/v2/test/time/datetime_test.cpp:174-189 | the space separator is accepted and `.78` gives ms = 780 |
| DateTime2.ParseExamplePicos | datetime/v2/test/time/datetime_test.cpp:140-155 | `.006007008009` gives 6, 7, 8, 9 |
| DateTime2.ParseExampleWhole | datetime/v2/test/time/datetime_test.cpp:157-172 | no fraction gives four zeros |
| DateTime2.ParseRejects | datetime/v2/test/time/datetime_test.cpp:191-208 | `asdf`, a `*` separator and 13 sub-second digits are rejected with "bad datetime string format" |
| GpsTime1.Make | datetime/v1/caesar/datetime/gpstime.hpp:412-480 | Ok exactly when every component is in range (microsecond and picosecond in [0, 10^6)), then a time point within [min, max]; otherwise the first failing check's message |
| GpsTime1.FirstInvalid | datetime/v1/caesar/datetime/gpstime.hpp:431-455 | the index of the first component outside its range |
| GpsTime1.Rejected | datetime/v1/caesar/datetime/gpstime.hpp:431-455 | a component out of range after in-range ones is the one reported |
| GpsTime1.Assemble | datetime/v1/caesar/datetime/gpstime.hpp:456-478 | days since 1980-01-06 times a day's ticks plus the time since midnight is within [min, max] |
| GpsTime1.GpsDays | datetime/v1/caesar/datetime/gpstime.hpp:456-465 | definition: the date's day count since 1970-01-01 less the 3657 days to the GPS epoch; GpsTime1.DaysInRange and DaysOrder state its laws |
| GpsTime1.Valid | datetime/v1/caesar/datetime/gpstime.hpp:105-143 | definition: min ≤ ticks ≤ max; GpsTime1.FromTimePoint and RangeLaws state that these are exactly the accepted time points |
| GpsTime1.TicksInRange | datetime/v1/caesar/datetime/gpstime.hpp:456-478 | dates in years 1..9999 with a time of day give ticks within [min, max] |
| GpsTime1.DaysInRange | datetime/v1/caesar/datetime/gpstime.hpp:451-461 | years 1..9999 lie between day -722819 and day 2929239 of the GPS calendar |
| GpsTime1.MakeDateExamples | datetime/v1/test/datetime/gpstime_test.cpp:53-64 | years 0 and 10000 and months 0 and 13 are rejected with their messages |
| GpsTime1.MakeDayExamples | datetime/v1/test/datetime/gpstime_test.cpp:65-73 | days 0 and 32, 2000-02-30, 2001-02-29 and 2000-04-31 are rejected with "invalid day" |
| GpsTime1.MakeTimeExamples | datetime/v1/test/datetime/gpstime_test.cpp:74-91 | hours -1 and 24, minutes and seconds -1 and 60 are rejected with their messages |
| GpsTime1.MakeSubsecondExamples | datetime/v1/test/datetime/gpstime_test.cpp:92-102 | microseconds and picoseconds at -1 and at 10^6 are rejected with their messages |
| GpsTime1.EpochExample | datetime/v1/test/datetime/gpstime_test.cpp:105-122 | tick 0 plus 1h2m3s reads 1980-01-06 01:02:03.000000000000 |
| GpsTime1.FromTimePoint | datetime/v1/caesar/datetime/gpstime.hpp:105-112 | the time-point constructor succeeds iff min ≤ t ≤ max, keeping the ticks; otherwise out_of_range with its message |
| GpsTime1.RangeLaws | datetime/v1/caesar/datetime/gpstime.hpp:105-112 | success is exactly `min() <= t && t <= max()`, and a valid time point comes back unchanged |
| GpsTime1.RangeExamples | datetime/v1/caesar/datetime/gpstime.hpp:105-143 | one tick below min and one above max are rejected; min and max themselves are accepted |
| GpsTime1.Min | datetime/v1/caesar/datetime/gpstime.hpp:132-136 | the ticks are those of 0001-01-01T00:00:00 |
| GpsTime1.Max | datetime/v1/caesar/datetime/gpstime.hpp:139-143 | the ticks are those of 9999-12-31T23:59:59.999999999999 |
| GpsTime1.MinMaxComponents | datetime/v1/test/datetime/gpstime_test.cpp:203-229 | min reads 0001-01-01 00:00:00 0 0 and max 9999-12-31 23:59:59 999999 999999 |
| GpsTime1.Date | datetime/v1/caesar/datetime/gpstime.hpp:162-175 | a valid date whose day count since 1970-01-01 is the floor of the ticks shifted by the epoch, in days |
| GpsTime1.TimeOfDay | datetime/v1/caesar/datetime/gpstime.hpp:177-188 | the ticks since the last midnight (floor by whole days), in [0, one day) |
| GpsTime1.UnixDays | datetime/v1/caesar/datetime/gpstime.hpp:166-171 | definition: the ticks moved to 1970-01-01 and floored to whole days; GpsTime1.Date states the date has this day count |
| GpsTime1.Year | datetime/v1/caesar/datetime/gpstime.hpp:190-196 | definition: the year of `date()`; GpsTime1.ComponentRanges and AccessorsOfMake state its range and value |
| GpsTime1.Month | datetime/v1/caesar/datetime/gpstime.hpp:198-204 | definition: the month of `date()`; GpsTime1.ComponentRanges and AccessorsOfMake state its range and value |
| GpsTime1.Day | datetime/v1/caesar/datetime/gpstime.hpp:206-212 | definition: the day of `date()`; GpsTime1.ComponentRanges and AccessorsOfMake state its range and value |
| GpsTime1.Hour | datetime/v1/caesar/datetime/gpstime.hpp:223-229 | definition: whole hours of the time of day; GpsTime1.ComponentRanges, Decompose and TimeOfDayOf state its range and value |
| GpsTime1.Minute | datetime/v1/caesar/datetime/gpstime.hpp:231-237 | definition: whole minutes of what the hours leave; GpsTime1.ComponentRanges, Decompose and TimeOfDayOf state its range and value |
| GpsTime1.Second | datetime/v1/caesar/datetime/gpstime.hpp:239-245 | definition: whole seconds of what the minutes leave; GpsTime1.ComponentRanges, Decompose and TimeOfDayOf state its range and value |
| GpsTime1.Microsecond | datetime/v1/caesar/datetime/gpstime.hpp:247-261 | definition: the sub-seconds truncated to microseconds; GpsTime1.ComponentRanges, Decompose and TimeOfDayOf state its range and value |
| GpsTime1.Picosecond | datetime/v1/caesar/datetime/gpstime.hpp:263-277 | definition: the sub-seconds less their whole microseconds; GpsTime1.ComponentRanges, Decompose and TimeOfDayOf state its range and value |
| GpsTime1.Weekday | datetime/v1/caesar/datetime/gpstime.hpp:214-221 | definition: the weekday of the date's day count; GpsTime1.WeekdayLaws and EpochWeekday state its laws |
| GpsTime1.Components | datetime/v1/caesar/datetime/gpstime.hpp:190-277 | definition: the eight accessors in the constructor's order; GpsTime1.ComponentsInjective and MakeOfComponents state its laws |
| GpsTime1.ComponentRanges | datetime/v1/caesar/datetime/gpstime.hpp:190-277 | every accessor is within its range, and a valid time point has a year in 1..9999 |
| GpsTime1.Decompose | datetime/v1/caesar/datetime/gpstime.hpp:162-277 | the ticks are whole days since the epoch plus the time of day, rebuilt from hour, minute, second, microsecond and picosecond |
| GpsTime1.AccessorsOfMake | datetime/v1/caesar/datetime/gpstime.hpp:162-277 | the accessors return the components given to the constructor |
| GpsTime1.MakeOfComponents | datetime/v1/caesar/datetime/gpstime.hpp:412-480 | constructing from a valid time point's own components gives it back |
| GpsTime1.ComponentsInjective | datetime/v1/caesar/datetime/gpstime.hpp:162-277 | two valid time points are equal iff their components are |
| GpsTime1.TimeOfDayOf | datetime/v1/caesar/datetime/gpstime.hpp:223-277 | a time of day built from in-range h, m, s, us, ps reads them back |
| GpsTime1.WeekdayLaws | datetime/v1/caesar/datetime/gpstime.hpp:214-221 | the weekday is that of the day count since 1970-01-01, and one day later is the next weekday |
| GpsTime1.EpochWeekday | datetime/v1/caesar/datetime/gpstime.hpp:214-221 | the GPS epoch was a Sunday |
| GpsTime1.NextUnixDay | datetime/v1/caesar/datetime/gpstime.hpp:162-175 | one day's ticks later is the next day |
| GpsTime1.NextTickExample | datetime/v1/test/datetime/gpstime_test.cpp:272-280 | one tick after 2001-01-01T00:00:00 has picosecond 1 |
| GpsTime1.PreviousTickExample | datetime/v1/test/datetime/gpstime_test.cpp:289-297 | one tick before 2001-01-01T00:00:00 is 2000-12-31 23:59:59 999999 999999 |
| GpsTime1.Add | datetime/v1/caesar/datetime/gpstime.hpp:325-340 | `t + dt` (either order) moves the ticks by dt's count |
| GpsTime1.Subtract | datetime/v1/caesar/datetime/gpstime.hpp:343-349 | `t - dt` moves the ticks back by dt's count |
| GpsTime1.Difference | datetime/v1/caesar/datetime/gpstime.hpp:352-357 | `t1 - t2` is the TimeDelta of their tick difference |
| GpsTime1.ArithmeticLaws | datetime/v1/caesar/datetime/gpstime.hpp:309-357 | adding and subtracting dt cancel, `(t+dt)-t == dt`, `u + (t-u) == t`, `t - dt == t + (-dt)` and `u - t == -(t - u)` |
| GpsTime1.ArithmeticExamples | datetime/v1/test/datetime/gpstime_test.cpp:306-356 | the test's sum, difference and TimeDelta between the two GPS times |
| GpsTime1.DifferenceExample | datetime/v1/test/datetime/gpstime_test.cpp:344-356 | the later time subtracted from the earlier gives the negated TimeDelta |
| GpsTime1.Equal | datetime/v1/caesar/datetime/gpstime.hpp:360-364 | definition: equal ticks; GpsTime1.ComparisonLaws states it is equality of components |
| GpsTime1.NotEqual | datetime/v1/caesar/datetime/gpstime.hpp:367-371 | definition: different ticks; GpsTime1.ComparisonLaws states its laws |
| GpsTime1.Less | datetime/v1/caesar/datetime/gpstime.hpp:374-378 | definition: fewer ticks; GpsTime1.TicksOrder states it is lexicographic order of components |
| GpsTime1.Greater | datetime/v1/caesar/datetime/gpstime.hpp:381-385 | definition: more ticks; GpsTime1.ComparisonLaws states it is lexicographically larger components |
| GpsTime1.LessEq | datetime/v1/caesar/datetime/gpstime.hpp:388-392 | definition: not `>`; GpsTime1.ComparisonLaws states its laws |
| GpsTime1.GreaterEq | datetime/v1/caesar/datetime/gpstime.hpp:395-399 | definition: not `<`; GpsTime1.ComparisonLaws states its laws |
| GpsTime1.MutableGpsTime.PreIncrement | datetime/v1/caesar/datetime/gpstime.hpp:279-285 | the ticks go up by one and the new value is returned |
| GpsTime1.MutableGpsTime.PreDecrement | datetime/v1/caesar/datetime/gpstime.hpp:294-300 | the ticks go down by one and the new value is returned |
| GpsTime1.MutableGpsTime.PostIncrement | datetime/v1/caesar/datetime/gpstime.hpp:287-292 | as written: the object is unchanged and the range-checked time point one tick later is returned |
| GpsTime1.MutableGpsTime.PostDecrement | datetime/v1/caesar/datetime/gpstime.hpp:302-307 | as written: the object is unchanged and the range-checked time point one tick earlier is returned |
| GpsTime1.MutableGpsTime.PostIncrementIntended | datetime/v1/test/datetime/gpstime_test.cpp:282-286 | a postfix increment: the ticks go up by one and the old value is returned |
| GpsTime1.MutableGpsTime.PostDecrementIntended | datetime/v1/test/datetime/gpstime_test.cpp:299-303 | a postfix decrement: the ticks go down by one and the old value is returned |
| GpsTime1.PostIncrementAsWrittenExample | datetime/v1/caesar/datetime/gpstime.hpp:287-292 | `t++` as written on 2001-01-01 returns picosecond 1 and leaves the object at picosecond 0 |
| GpsTime1.PostIncrementIntendedExample | datetime/v1/test/datetime/gpstime_test.cpp:282-286 | the intended `t++` returns picosecond 0 and leaves the object at picosecond 1 |
| GpsTime1.PostDecrementAsWrittenExample | datetime/v1/caesar/datetime/gpstime.hpp:302-307 | `t--` as written returns picosecond 999999 and leaves the object at picosecond 0 |
| GpsTime1.PostDecrementIntendedExample | datetime/v1/test/datetime/gpstime_test.cpp:299-303 | the intended `t--` returns picosecond 0 and leaves the object at picosecond 999999 |
| GpsTime1.MutableGpsTime.AddAssign | datetime/v1/caesar/datetime/gpstime.hpp:309-315 | the object becomes `t + dt` and is returned |
| GpsTime1.MutableGpsTime.SubtractAssign | datetime/v1/caesar/datetime/gpstime.hpp:317-323 | the object becomes `t - dt` and is returned |
| GpsTime1.ComparisonLaws | datetime/v1/caesar/datetime/gpstime.hpp:359-399 | tick order agrees with lexicographic component order: `==` iff equal components, `<`/`>` iff lexicographically smaller/larger, exactly one of them, `<=`/`>=` as negations |
| GpsTime1.TicksOrder | datetime/v1/caesar/datetime/gpstime.hpp:373-378 | a smaller tick count iff lexicographically smaller components |
| GpsTime1.DaysOrder | datetime/v1/caesar/datetime/gpstime.hpp:163-175 | day counts order valid dates as (year, month, day) does, and are equal iff the dates are |
| GpsTime1.ToString | datetime/v1/caesar/datetime/gpstime.cpp:46-75 | the text matches the parser's pattern; 19 characters iff us = ps = 0, otherwise it does not end in `0` |
| GpsTime1.FieldFacts | datetime/v1/caesar/datetime/gpstime.cpp:49-51 | the zero-padded date-and-time part is 19 characters whose fields read back as the six components |
| GpsTime1.SubsecondFacts | datetime/v1/caesar/datetime/gpstime.cpp:62 | the 6+6 sub-second text is 12 digits reading back as us·10^6 + ps |
| Digits.TrimDigits | datetime/v1/caesar/datetime/gpstime.cpp:64-74 | stripping the trailing zeros of a digit text with a non-zero digit leaves a non-empty digit text, no longer than before, ending in a non-zero digit |
| GpsTime1.ToStringExamplePicos | datetime/v1/test/datetime/gpstime_test.cpp:187-190 | 2000-01-02T03:04:05 with 6 us and 7 ps prints `2000-01-02T03:04:05.000006000007` |
| GpsTime1.ToStringExampleWhole | datetime/v1/test/datetime/gpstime_test.cpp:192-195 | a whole second prints `2000-01-02T03:04:05` |
| GpsTime1.ToStringExampleTrimmed | datetime/v1/test/datetime/gpstime_test.cpp:197-200 | 678900 us prints `.6789` |
| GpsTime1.WellFormed | datetime/v1/caesar/datetime/gpstime.cpp:12-18 | definition of the pattern, DateTime's with `T` as the only separator; GpsTime1.ToString states the printer's output matches it |
| GpsTime1.FromString | datetime/v1/caesar/datetime/gpstime.cpp:10-44 | definition of the string constructor's result; GpsTime1.Parse, FromStringOfFields and RoundTrip state its properties |
| GpsTime1.Parse | datetime/v1/caesar/datetime/gpstime.cpp:10-44 | the step-by-step parser (pattern check, field reads, resize to 12, 6+6 reads) computes `FromString` |
| GpsTime1.FractionGroups | datetime/v1/caesar/datetime/gpstime.cpp:36-40 | the two 6-digit reads of the padded fraction are its picoseconds divided by and modulo 10^6 |
| GpsTime1.FromStringOfFields | datetime/v1/caesar/datetime/gpstime.cpp:20-42 | a well-formed string parses to the constructor applied to its field values and the 6+6 split of its fraction |
| GpsTime1.RoundTrip | datetime/v1/caesar/datetime/gpstime.cpp:10-75 | parsing the text of any valid GPS time gives it back |
| GpsTime1.FractionRoundTrip | datetime/v1/caesar/datetime/gpstime.cpp:53-74 | the printed fraction reads back as us·10^6 + ps |
| GpsTime1.ParsedFields | datetime/v1/caesar/datetime/gpstime.cpp:20-26 | the printed date and time fields read back as the six components |
| GpsTime1.ParseOfFieldsIs | datetime/v1/caesar/datetime/gpstime.cpp:10-42 | a text assembled from digit fields with `T` parses to the constructor of those values |
| GpsTime1.ParseExampleMillis | datetime/v1/test/datetime/gpstime_test.cpp:126-139 | `2001-02-03T04:05:06.789` gives us = 789000, ps = 0 |
| GpsTime1.ParseExampleTwelve | datetime/v1/test/datetime/gpstime_test.cpp:141-154 | `.000007000008` gives us = 7, ps = 8 |
| GpsTime1.ParseExampleWhole | datetime/v1/test/datetime/gpstime_test.cpp:156-169 | no fraction gives us = ps = 0 |
| GpsTime1.ParseRejects | datetime/v1/caesar/datetime/gpstime.cpp:12-18 | text off the pattern is rejected with "bad datetime string": the tests' `asdf` and 13 sub-second digits, and the space separator, which only DateTime's pattern allows |

## Left out

- Floating-point paths: `total_seconds`, the factories, constructors, conversions and `*=`/`/=`
  with a floating-point argument. Only the integral forms are modelled.
- `absl::int128` wrap-around and undefined behaviour (`abs(min())`, division or modulus by zero, a
  zero period, a result outside the 128-bit range): each is a precondition of the operation.
- `now()` of GPSTime: it reads the host clock.
- The v2 `gpstime.hpp`: a thin subclass of DateTime adding `now()`; it is not part of this model.
- The `date` library is not part of this model. `year_month_day`, `sys_days`/`local_days`,
  `year_month_day_last` and `hh_mm_ss` are replaced by the closed-form civil-day functions of
  `Calendar`, proved inverse, and by floor division of the ticks. Both `clock_cast` calls between
  `gps_clock` and `local_t` are the fixed shift of 3657 days between 1970-01-01 and 1980-01-06,
  with no leap seconds, as the epoch test expects.
- `std::regex`, `sscanf` and `fmt` are replaced by the predicates `WellFormed`/`DigitsAt`, the
  digit-string value `Value`, and `Decimal`/`ZeroPadded`; the stream `operator<<` overloads are
  the string-returning functions they print.
- GpsTime1.FromString: the v1 string constructor calls `regex_match` without its `match` argument
  and then reads `match[1].data()`, which is not a member of `std::sub_match`; the model follows the
  group-wise parse its comments describe and its tests assert, as DateTime's parser does.
- GpsTime1.ToString and DateTime2.ToString require a valid value; out-of-range years (which
  `{:04d}` would print with more digits or a sign) cannot arise from the constructors.
- TimeDelta2.ToDuration: the result is the int128 quotient that `duration_cast` computes, before
  its final `static_cast` to the target rep; when that rep is narrower (int64 nanoseconds of
  `days(1000000)`, say) the source wraps or truncates and the model does not capture it. The same
  holds for TimeDelta1.ToDuration.
- DateTime2.FromString and GpsTime1.FromString: the source hands `string_view::data()` to
  `regex_match` as a C string (datetime.cpp:73-75, gpstime.cpp:15-16), so a view without a NUL
  after its end is read past its end and an embedded NUL cuts the text short; the model reads
  exactly the view's characters.
- TimeDelta2.Constants: `min()`/`max()` are stated as the bounds of the 128-bit count; the tests'
  comparison against a quintillion years of seconds in floating point is not stated.
- The error library (`error/`), the type traits and the other directories of the repository.
- Copying, default construction of DateTime/GPSTime and the stream inserters beyond the string
  they insert.

## Findings

| source | as written | input that shows it | evidently intended | confidence | as-written member | corrected member |
|---|---|---|---|---|---|---|
| datetime/v1/caesar/datetime/gpstime.hpp:287-292 | `operator++(int)` returns `GPSTime(time_point_ + Duration(1))` and leaves `*this` unchanged | `t = GPSTime(2001, 1, 1, 0, 0, 0)`: `(t++).picosecond()` is 1 and `t.picosecond()` stays 0, where the test expects 0 and 1 (gpstime_test.cpp:282-286) | return the old value and move `*this` one tick later | not executed | GpsTime1.PostIncrementAsWrittenExample | GpsTime1.MutableGpsTime.PostIncrementIntended |
| datetime/v1/caesar/datetime/gpstime.hpp:302-307 | `operator--(int)` returns `GPSTime(time_point_ - Duration(1))` and leaves `*this` unchanged | the same `t`: `(t--).picosecond()` is 999999 and `t.picosecond()` stays 0, where the test expects 0 and 999999 (gpstime_test.cpp:299-303) | return the old value and move `*this` one tick earlier | not executed | GpsTime1.PostDecrementAsWrittenExample | GpsTime1.MutableGpsTime.PostDecrementIntended |
