/** Dates as the ECMAScript `Date` object handles them in this program: a day number
  * counted from 1970-01-01 in the proleptic Gregorian calendar, read through
  * `getFullYear`/`getMonth`/`getDate`/`getDay` and moved with the normalising
  * `setDate` and `setMonth` (ECMA-262 MakeDay) and `new Date(y, m, d)` (MakeDay after
  * the constructor's two-digit year mapping). */
module CivilDate {

  /** Days since 1970-01-01 (ECMA-262 `Day(t)`); day 0 is a Thursday. */
  type Day = int

  predicate IsLeapYear(y: int) {
    y % 4 == 0 && (y % 100 != 0 || y % 400 == 0)
  }

  function DaysInYear(y: int): int {
    if IsLeapYear(y) then 366 else 365
  }

  /** Length of month `m` of year `y`; months are numbered from 0 as `getMonth` does. */
  function DaysInMonth(y: int, m: int): int
    requires 0 <= m < 12
  {
    if m == 1 then (if IsLeapYear(y) then 29 else 28)
    else if m == 3 || m == 5 || m == 8 || m == 10 then 30
    else 31
  }

  /** Days of year `y` before the first of month `m`; at `m == 12` the length of the year. */
  function DaysBeforeMonth(y: int, m: int): int
    requires 0 <= m <= 12
  {
    [0, 31, 59, 90, 120, 151, 181, 212, 243, 273, 304, 334, 365][m]
    + (if m >= 2 && IsLeapYear(y) then 1 else 0)
  }

  /** Day number of January 1 of year `y`: year by year from 1970. */
  function YearStart(y: int): Day
    decreases if y < 1970 then 1970 - y else y - 1970
  {
    if y == 1970 then 0
    else if y > 1970 then YearStart(y - 1) + DaysInYear(y - 1)
    else YearStart(y + 1) - DaysInYear(y)
  }

  /** Day number of the first of month `m` of year `y`. */
  function MonthStart(y: int, m: int): Day
    requires 0 <= m < 12
  {
    YearStart(y) + DaysBeforeMonth(y, m)
  }

  /** Consecutive years are `DaysInYear` apart. */
  lemma YearStartStep(y: int)
    ensures YearStart(y + 1) == YearStart(y) + DaysInYear(y)
  {
  }

  /** Leap years before year `y`, counted with floor division as in ECMA-262 `DayFromYear`. */
  function LeapYearsBefore(y: int): int {
    (y - 1) / 4 - (y - 1) / 100 + (y - 1) / 400
  }

  /** ECMA-262 `DayFromYear`, the closed form of `YearStart`. */
  function DayFromYear(y: int): Day {
    365 * (y - 1970) + LeapYearsBefore(y) - LeapYearsBefore(1970)
  }

  lemma DivStep4(y: int)
    ensures y / 4 - (y - 1) / 4 == if y % 4 == 0 then 1 else 0
  {
  }

  lemma DivStep100(y: int)
    ensures y / 100 - (y - 1) / 100 == if y % 100 == 0 then 1 else 0
  {
  }

  lemma DivStep400(y: int)
    ensures y / 400 - (y - 1) / 400 == if y % 400 == 0 then 1 else 0
  {
  }

  lemma Mod100Mod4(y: int)
    requires y % 100 == 0
    ensures y % 4 == 0
  {
    assert y == 4 * (25 * (y / 100));
  }

  lemma Mod400Mod100(y: int)
    requires y % 400 == 0
    ensures y % 100 == 0
  {
    assert y == 100 * (4 * (y / 400));
  }

  /** The closed form counts one leap day for exactly the leap years. */
  lemma LeapYearsStep(y: int)
    ensures LeapYearsBefore(y + 1) - LeapYearsBefore(y) == if IsLeapYear(y) then 1 else 0
  {
    DivStep4(y);
    DivStep100(y);
    DivStep400(y);
    if y % 100 == 0 {
      Mod100Mod4(y);
    }
    if y % 400 == 0 {
      Mod400Mod100(y);
    }
  }

  /** The year-by-year count agrees with the ECMA-262 formula for every year. */
  lemma {:induction false} YearStartIsDayFromYear(y: int)
    ensures YearStart(y) == DayFromYear(y)
    decreases if y < 1970 then 1970 - y else y - 1970
  {
    if y > 1970 {
      YearStartIsDayFromYear(y - 1);
      LeapYearsStep(y - 1);
    } else if y < 1970 {
      YearStartIsDayFromYear(y + 1);
      LeapYearsStep(y);
    }
  }

  /** Later years start later: at least 365 days per year in between. */
  lemma {:induction false} YearStartMonotone(a: int, b: int)
    requires a <= b
    ensures YearStart(a) + 365 * (b - a) <= YearStart(b)
    decreases b - a
  {
    if a < b {
      YearStartMonotone(a, b - 1);
      YearStartStep(b - 1);
    }
  }

  /** Consecutive months are `DaysInMonth` apart, and the last one ends the year. */
  lemma DaysBeforeMonthStep(y: int, m: int)
    requires 0 <= m < 12
    ensures DaysBeforeMonth(y, m + 1) == DaysBeforeMonth(y, m) + DaysInMonth(y, m)
    ensures DaysBeforeMonth(y, 12) == DaysInYear(y)
  {
  }

  lemma {:induction false} DaysBeforeMonthMonotone(y: int, a: int, b: int)
    requires 0 <= a < b <= 12
    ensures DaysBeforeMonth(y, a) + DaysInMonth(y, a) <= DaysBeforeMonth(y, b)
    decreases b - a
  {
    DaysBeforeMonthStep(y, a);
    if a + 1 < b {
      DaysBeforeMonthMonotone(y, a + 1, b);
    }
  }

  /** The year containing day `n`, searched for from the guess `y`. */
  function FindYear(n: Day, y: int): (r: int)
    ensures YearStart(r) <= n < YearStart(r + 1)
    decreases if n < YearStart(y) then YearStart(y) - n
              else if YearStart(y + 1) <= n then n - YearStart(y)
              else 0
  {
    YearStartStep(y - 1);
    YearStartStep(y);
    YearStartStep(y + 1);
    if n < YearStart(y) then FindYear(n, y - 1)
    else if YearStart(y + 1) <= n then FindYear(n, y + 1)
    else y
  }

  /** The month of year `y` containing day `n`, searched for from month `m` on. */
  function FindMonth(n: Day, y: int, m: int): (r: int)
    requires 0 <= m < 12 && MonthStart(y, m) <= n < YearStart(y + 1)
    ensures m <= r < 12 && MonthStart(y, r) <= n < MonthStart(y, r) + DaysInMonth(y, r)
    decreases 12 - m
  {
    DaysBeforeMonthStep(y, m);
    YearStartStep(y);
    if m == 11 || n < MonthStart(y, m + 1) then m
    else FindMonth(n, y, m + 1)
  }

  /** A calendar date split into the fields `getFullYear`, `getMonth` (0-based) and `getDate` return. */
  datatype Civil = Civil(year: int, month: int, day: int)

  predicate ValidCivil(c: Civil) {
    0 <= c.month < 12 && 1 <= c.day <= DaysInMonth(c.year, c.month)
  }

  function Encode(c: Civil): Day
    requires 0 <= c.month < 12
  {
    MonthStart(c.year, c.month) + c.day - 1
  }

  /** The fields of day `n`: a real calendar date that encodes back to `n`. */
  function Decode(n: Day): (c: Civil)
    ensures ValidCivil(c) && Encode(c) == n
  {
    var y := FindYear(n, 1970);
    var m := FindMonth(n, y, 0);
    Civil(y, m, n - MonthStart(y, m) + 1)
  }

  /** A valid date lies inside its own year. */
  lemma EncodeInYear(c: Civil)
    requires ValidCivil(c)
    ensures YearStart(c.year) <= Encode(c) < YearStart(c.year + 1)
  {
    YearStartStep(c.year);
    DaysBeforeMonthStep(c.year, c.month);
    if c.month < 11 {
      DaysBeforeMonthMonotone(c.year, c.month + 1, 12);
    }
  }

  /** Distinct valid dates have distinct day numbers. */
  lemma EncodeInjective(a: Civil, b: Civil)
    requires ValidCivil(a) && ValidCivil(b) && Encode(a) == Encode(b)
    ensures a == b
  {
    EncodeInYear(a);
    EncodeInYear(b);
    if a.year < b.year {
      YearStartMonotone(a.year + 1, b.year);
    } else if b.year < a.year {
      YearStartMonotone(b.year + 1, a.year);
    }
    if a.month < b.month {
      DaysBeforeMonthMonotone(a.year, a.month, b.month);
    } else if b.month < a.month {
      DaysBeforeMonthMonotone(a.year, b.month, a.month);
    }
  }

  /** Decoding inverts encoding on every valid date. */
  lemma DecodeEncode(c: Civil)
    requires ValidCivil(c)
    ensures Decode(Encode(c)) == c
  {
    EncodeInjective(Decode(Encode(c)), c);
  }

  /** `getFullYear`. */
  function YearOf(n: Day): int {
    Decode(n).year
  }

  /** `getMonth`: 0 for January up to 11 for December. */
  function MonthOf(n: Day): (m: int)
    ensures 0 <= m < 12
  {
    Decode(n).month
  }

  /** `getDate`: the day of the month, within the month's length. */
  function DateOf(n: Day): (d: int)
    ensures 1 <= d <= DaysInMonth(YearOf(n), MonthOf(n))
  {
    Decode(n).day
  }

  /** `getDay`: 0 for Sunday up to 6 for Saturday; 1970-01-01 was a Thursday. */
  function WeekDay(n: Day): (w: int)
    ensures 0 <= w < 7
  {
    (n + 4) % 7
  }

  /** ECMA-262 MakeDay, as `setDate` and `setMonth` apply it: month and day may be out
    * of range and roll over. */
  function MakeDay(y: int, m: int, d: int): Day {
    MonthStart(y + m / 12, m % 12) + d - 1
  }

  /** The year the `Date` constructor uses (ECMA-262 MakeFullYear): a year from 0 to 99
    * stands for 1900 + year. */
  function FullYear(y: int): int {
    if 0 <= y <= 99 then 1900 + y else y
  }

  /** `new Date(y, m, d)`: MakeDay on the constructor's full year. */
  function NewDate(y: int, m: int, d: int): Day {
    MakeDay(FullYear(y), m, d)
  }

  /** `date.setDate(d)`: same year and month, day `d` with roll-over. */
  function SetDate(n: Day, d: int): Day {
    MakeDay(YearOf(n), MonthOf(n), d)
  }

  /** `date.setMonth(m)`: same year and day of month, month `m` with roll-over. */
  function SetMonth(n: Day, m: int): Day {
    MakeDay(YearOf(n), m, DateOf(n))
  }

  /** `d.setDate(d.getDate() + k)` moves `d` by exactly `k` days, whatever month boundary it crosses. */
  lemma SetDateShift(n: Day, k: int)
    ensures SetDate(n, DateOf(n) + k) == n + k
  {
    var c := Decode(n);
    assert c.month / 12 == 0 && c.month % 12 == c.month;
  }

  /** `d.setDate(x)` is `d` moved by `x - d.getDate()` days, for every `x`. */
  lemma SetDateAll(n: Day)
    ensures forall x :: SetDate(n, x) == n - DateOf(n) + x
  {
    forall x ensures SetDate(n, x) == n - DateOf(n) + x {
      SetDateShift(n, x - DateOf(n));
    }
  }

  /** Stepping back by the weekday lands on a Sunday. */
  lemma WeekStartIsSunday(n: Day)
    ensures WeekDay(n - WeekDay(n)) == 0
  {
  }

  /** Moving by a multiple of seven days keeps the weekday. */
  lemma WeekDayShift(n: Day, k: int)
    ensures WeekDay(n + 7 * k) == WeekDay(n)
  {
  }

  /** The first of the month after month `m` of year `y`. */
  lemma NextMonthStart(y: int, m: int)
    requires 0 <= m < 12
    ensures MakeDay(y, m + 1, 1) == MonthStart(y, m) + DaysInMonth(y, m)
    ensures m < 11 ==> MakeDay(y, m + 1, 1) == MonthStart(y, m + 1)
    ensures m == 11 ==> MakeDay(y, m + 1, 1) == MonthStart(y + 1, 0)
  {
    DaysBeforeMonthStep(y, m);
    YearStartStep(y);
  }

  /** Day 0 of the month after month `m` is the last day of month `m`. */
  lemma LastDayOfMonth(y: int, m: int)
    requires 0 <= m < 12
    ensures Decode(MakeDay(y, m + 1, 0)) == Civil(y, m, DaysInMonth(y, m))
  {
    var k := DaysInMonth(y, m) - 1;
    NextMonthStart(y, m);
    assert MakeDay(y, m + 1, 0) == MonthStart(y, m) + k;
    DecodeInMonth(y, m, k);
  }

  /** Index of the month before / after month `m` (months wrap around the year). */
  function PreviousMonthIndex(m: int): int
    requires 0 <= m < 12
  {
    if m == 0 then 11 else m - 1
  }

  function NextMonthIndex(m: int): int
    requires 0 <= m < 12
  {
    if m == 11 then 0 else m + 1
  }

  /** The `k`-th day of a month decodes to that month, day `k + 1`. */
  lemma DecodeInMonth(y: int, m: int, k: int)
    requires 0 <= m < 12 && 0 <= k < DaysInMonth(y, m)
    ensures Decode(MonthStart(y, m) + k) == Civil(y, m, k + 1)
  {
    DecodeEncode(Civil(y, m, k + 1));
  }

  /** Up to 28 days before the first of a month fall in the previous month. */
  lemma DecodeBeforeMonth(y: int, m: int, k: int)
    requires 0 <= m < 12 && 1 <= k <= 28
    ensures MonthOf(MonthStart(y, m) - k) == PreviousMonthIndex(m)
  {
    var py := if m == 0 then y - 1 else y;
    var pm := PreviousMonthIndex(m);
    assert MonthStart(y, m) == MonthStart(py, pm) + DaysInMonth(py, pm) by {
      NextMonthStart(py, pm);
    }
    assert MonthStart(y, m) - k == MonthStart(py, pm) + (DaysInMonth(py, pm) - k);
    DecodeInMonth(py, pm, DaysInMonth(py, pm) - k);
  }

  /** Up to 28 days after the last of a month fall in the next month. */
  lemma DecodeAfterMonth(y: int, m: int, k: int)
    requires 0 <= m < 12 && 0 <= k < 28
    ensures MonthOf(MonthStart(y, m) + DaysInMonth(y, m) + k) == NextMonthIndex(m)
  {
    var ny := if m == 11 then y + 1 else y;
    var nm := NextMonthIndex(m);
    assert MonthStart(ny, nm) == MonthStart(y, m) + DaysInMonth(y, m) by {
      NextMonthStart(y, m);
    }
    DecodeInMonth(ny, nm, k);
  }

  /** MakeDay with a month index out of range, as `setMonth(mm)` computes it: the year
    * absorbs whole years of months, and an in-range day is kept. */
  lemma MakeDayInMonth(y: int, mm: int, d: int)
    requires 1 <= d <= DaysInMonth(y + mm / 12, mm % 12)
    ensures Decode(MakeDay(y, mm, d)) == Civil(y + mm / 12, mm % 12, d)
  {
    var ty, tm := y + mm / 12, mm % 12;
    assert MakeDay(y, mm, d) == MonthStart(ty, tm) + (d - 1);
    DecodeInMonth(ty, tm, d - 1);
  }

  /** MakeDay with a day past the end of the month, as `setMonth(mm)` computes it: it
    * rolls over into the next month by the days that do not fit. */
  lemma MakeDayPastMonth(y: int, mm: int, d: int)
    requires DaysInMonth(y + mm / 12, mm % 12) < d <= 31
    ensures var ty, tm := y + mm / 12, mm % 12;
      var r := Decode(MakeDay(y, mm, d));
      r.month == NextMonthIndex(tm) && r.day == d - DaysInMonth(ty, tm)
  {
    var ty, tm := y + mm / 12, mm % 12;
    var ny, nm := if tm == 11 then ty + 1 else ty, NextMonthIndex(tm);
    var extra := d - DaysInMonth(ty, tm);
    assert MonthStart(ny, nm) == MonthStart(ty, tm) + DaysInMonth(ty, tm) by {
      NextMonthStart(ty, tm);
    }
    assert MakeDay(y, mm, d) == MonthStart(ny, nm) + (extra - 1);
    DecodeInMonth(ny, nm, extra - 1);
  }
}
