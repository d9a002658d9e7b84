/** The proleptic Gregorian calendar JavaScript's `Date` uses for its local date fields,
    with days numbered consecutively from 1970-01-01 (day 0). */
module Calendar {

  /** A calendar date; `month` runs 1..12 (one more than `getMonth()`). */
  datatype Date = Date(year: int, month: int, day: int)

  predicate IsLeapYear(y: int) {
    y % 4 == 0 && (y % 100 != 0 || y % 400 == 0)
  }

  function DaysInYear(y: int): int {
    if IsLeapYear(y) then 366 else 365
  }

  function DaysInMonth(y: int, m: int): int
    requires 1 <= m <= 12
  {
    if m == 2 then (if IsLeapYear(y) then 29 else 28)
    else if m == 4 || m == 6 || m == 9 || m == 11 then 30
    else 31
  }

  predicate ValidDate(d: Date) {
    1 <= d.month <= 12 && 1 <= d.day <= DaysInMonth(d.year, d.month)
  }

  /** Days of year `y` before the first of month `m`. */
  function DaysBeforeMonth(y: int, m: int): int
    requires 1 <= m <= 12
  {
    (if m == 1 then 0 else if m == 2 then 31 else if m == 3 then 59 else if m == 4 then 90
     else if m == 5 then 120 else if m == 6 then 151 else if m == 7 then 181
     else if m == 8 then 212 else if m == 9 then 243 else if m == 10 then 273
     else if m == 11 then 304 else 334)
    + (if m > 2 && IsLeapYear(y) then 1 else 0)
  }

  lemma MonthStep(y: int, m: int)
    requires 1 <= m <= 12
    ensures m < 12 ==> DaysBeforeMonth(y, m + 1) == DaysBeforeMonth(y, m) + DaysInMonth(y, m)
    ensures m == 12 ==> DaysBeforeMonth(y, m) + DaysInMonth(y, m) == DaysInYear(y)
  {
  }

  lemma MonthsIncrease(y: int, a: int, b: int)
    requires 1 <= a < b <= 12
    ensures DaysBeforeMonth(y, a) + DaysInMonth(y, a) <= DaysBeforeMonth(y, b)
  {
  }

  /** Days in the `k` consecutive years from `y` on. */
  function DaysOfYears(y: int, k: nat): int
    decreases k
  {
    if k == 0 then 0 else DaysInYear(y) + DaysOfYears(y + 1, k - 1)
  }

  lemma {:induction false} DaysOfYearsLast(y: int, k: nat)
    ensures DaysOfYears(y, k + 1) == DaysOfYears(y, k) + DaysInYear(y + k)
    decreases k
  {
    if k > 0 {
      DaysOfYearsLast(y + 1, k - 1);
    }
  }

  /** Day number of January 1 of year `y`. */
  function YearStart(y: int): int
  {
    if y >= 1970 then DaysOfYears(1970, y - 1970) else -DaysOfYears(y, 1970 - y)
  }

  lemma YearStep(y: int)
    ensures YearStart(y + 1) == YearStart(y) + DaysInYear(y)
  {
    if y >= 1970 {
      DaysOfYearsLast(1970, y - 1970);
    }
  }

  lemma {:induction false} YearsIncrease(a: int, b: int)
    requires a < b
    ensures YearStart(a + 1) <= YearStart(b)
    decreases b - a
  {
    YearStep(a);
    if a + 1 < b {
      YearsIncrease(a + 1, b);
      YearStep(a + 1);
    }
  }

  /** Day number of a date. */
  function DaysFromCivil(d: Date): int
    requires ValidDate(d)
  {
    YearStart(d.year) + DaysBeforeMonth(d.year, d.month) + d.day - 1
  }

  /** The year `new Date(year, month, day)` builds its date in: the constructor reads the
      years 0 to 99 as 1900 to 1999, so it never yields a two-digit year. */
  function CalendarYear(year: int): (r: int)
    ensures !(0 <= r <= 99) && r % 100 == year % 100
    ensures r == year <==> !(0 <= year <= 99)
  {
    if 0 <= year <= 99 then 1900 + year else year
  }

  /** Day number of `new Date(year, month - 1, day)`: the year as `CalendarYear` reads it,
      and a day past the end of the month carried into the months after it. */
  function ConstructedDay(year: int, month: int, day: int): int
    requires 1 <= month <= 12
  {
    var y := CalendarYear(year);
    YearStart(y) + DaysBeforeMonth(y, month) + day - 1
  }

  /** The day after a date, as the constructor builds it from `day + 1`: the next day,
      except in the years 0 to 99, where it lands after the start of 1900. */
  lemma ConstructedNextDay(d: Date)
    requires ValidDate(d)
    ensures !(0 <= d.year <= 99) ==> ConstructedDay(d.year, d.month, d.day + 1) == DaysFromCivil(d) + 1
    ensures 0 <= d.year <= 99 ==> YearStart(d.year + 1900) < ConstructedDay(d.year, d.month, d.day + 1)
    ensures DaysFromCivil(d) < ConstructedDay(d.year, d.month, d.day + 1)
  {
    if 0 <= d.year <= 99 {
      DayOfYearInRange(d);
      YearsIncrease(d.year, d.year + 1900);
    }
  }

  /** The year holding day `n`, searched upwards from a year that starts no later. */
  function YearUpFrom(y: int, n: int): (r: int)
    requires YearStart(y) <= n
    ensures YearStart(r) <= n < YearStart(r + 1)
    decreases n - YearStart(y)
  {
    YearStep(y);
    if n < YearStart(y + 1) then y else YearUpFrom(y + 1, n)
  }

  /** The year holding day `n`, searched downwards from a year that ends later. */
  function YearDownFrom(y: int, n: int): (r: int)
    requires n < YearStart(y + 1)
    ensures YearStart(r) <= n < YearStart(r + 1)
    decreases YearStart(y) - n
  {
    YearStep(y - 1);
    if YearStart(y) <= n then y else YearDownFrom(y - 1, n)
  }

  function YearOf(n: int): (r: int)
    ensures YearStart(r) <= n < YearStart(r + 1)
  {
    if n >= 0 then YearUpFrom(1970, n) else YearDownFrom(1969, n)
  }

  /** Later days lie in the same year or a later one. */
  lemma YearOfMonotone(a: int, b: int)
    requires a <= b
    ensures YearOf(a) <= YearOf(b)
  {
    if YearOf(b) < YearOf(a) {
      YearsIncrease(YearOf(b), YearOf(a));
    }
  }

  /** Only one year brackets a day number. */
  lemma YearUnique(y: int, n: int)
    requires YearStart(y) <= n < YearStart(y + 1)
    ensures YearOf(n) == y
  {
    var r := YearOf(n);
    if r < y {
      YearsIncrease(r, y);
    } else if y < r {
      YearsIncrease(y, r);
    }
  }

  /** The month holding day `doy` (counted from 0) of year `y`, searched from month `m`. */
  function MonthFrom(y: int, m: int, doy: int): (r: int)
    requires 1 <= m <= 12 && DaysBeforeMonth(y, m) <= doy < DaysInYear(y)
    ensures 1 <= r <= 12
    ensures DaysBeforeMonth(y, r) <= doy < DaysBeforeMonth(y, r) + DaysInMonth(y, r)
    decreases 12 - m
  {
    MonthStep(y, m);
    if m == 12 || doy < DaysBeforeMonth(y, m + 1) then m else MonthFrom(y, m + 1, doy)
  }

  lemma {:induction false} MonthUnique(y: int, m0: int, m: int, doy: int)
    requires 1 <= m0 <= m <= 12
    requires DaysBeforeMonth(y, m) <= doy < DaysBeforeMonth(y, m) + DaysInMonth(y, m)
    ensures DaysBeforeMonth(y, m0) <= doy < DaysInYear(y)
    ensures MonthFrom(y, m0, doy) == m
    decreases m - m0
  {
    MonthStep(y, m);
    if m < 12 {
      MonthsIncrease(y, m, 12);
      MonthStep(y, 12);
    }
    if m0 < m {
      MonthsIncrease(y, m0, m);
      MonthStep(y, m0);
      MonthUnique(y, m0 + 1, m, doy);
    }
  }

  /** The date of day number `n`. */
  function CivilFromDays(n: int): (d: Date)
    ensures ValidDate(d)
    ensures DaysFromCivil(d) == n
    ensures d.year == YearOf(n)
  {
    var y := YearOf(n);
    YearStep(y);
    var doy := n - YearStart(y);
    var m := MonthFrom(y, 1, doy);
    Date(y, m, doy - DaysBeforeMonth(y, m) + 1)
  }

  /** A valid date's offset into its year lies inside the year. */
  lemma DayOfYearInRange(d: Date)
    requires ValidDate(d)
    ensures 0 <= DaysBeforeMonth(d.year, d.month) + d.day - 1 < DaysInYear(d.year)
    ensures YearStart(d.year) <= DaysFromCivil(d) < YearStart(d.year + 1)
  {
    MonthStep(d.year, d.month);
    if d.month < 12 {
      MonthsIncrease(d.year, d.month, 12);
      MonthStep(d.year, 12);
    }
    YearStep(d.year);
  }

  /** Numbering is a bijection between valid dates and integers: the other direction. */
  lemma CivilRoundTrip(d: Date)
    requires ValidDate(d)
    ensures CivilFromDays(DaysFromCivil(d)) == d
  {
    var n := DaysFromCivil(d);
    DayOfYearInRange(d);
    YearUnique(d.year, n);
    MonthUnique(d.year, 1, d.month, n - YearStart(d.year));
  }

  lemma DaysFromCivilInjective(a: Date, b: Date)
    requires ValidDate(a) && ValidDate(b)
    ensures DaysFromCivil(a) == DaysFromCivil(b) <==> a == b
  {
    if DaysFromCivil(a) == DaysFromCivil(b) {
      CivilRoundTrip(a);
      CivilRoundTrip(b);
    }
  }

  /** The date after `d`: `d.setDate(d.getDate() + 1)` on a local date. */
  function NextDate(d: Date): (r: Date)
    requires ValidDate(d)
    ensures ValidDate(r)
  {
    if d.day < DaysInMonth(d.year, d.month) then Date(d.year, d.month, d.day + 1)
    else if d.month < 12 then Date(d.year, d.month + 1, 1)
    else Date(d.year + 1, 1, 1)
  }

  lemma NextDateIsNextDay(d: Date)
    requires ValidDate(d)
    ensures DaysFromCivil(NextDate(d)) == DaysFromCivil(d) + 1
  {
    MonthStep(d.year, d.month);
    YearStep(d.year);
  }

  lemma NextOfCivil(n: int)
    ensures NextDate(CivilFromDays(n)) == CivilFromDays(n + 1)
  {
    var d := CivilFromDays(n);
    NextDateIsNextDay(d);
    CivilRoundTrip(NextDate(d));
  }

  /** Every date of year `y`, January 1 first: the dates of its consecutive day numbers. */
  function YearDates(y: int): (r: seq<Date>)
    ensures |r| == DaysInYear(y)
    ensures forall i :: 0 <= i < |r| ==> ValidDate(r[i]) && DaysFromCivil(r[i]) == YearStart(y) + i
  {
    var r := seq(DaysInYear(y), i => CivilFromDays(YearStart(y) + i));
    assert forall i :: 0 <= i < |r| ==> r[i] == CivilFromDays(YearStart(y) + i);
    r
  }

  /** The walk covers year `y` exactly: it starts on January 1, ends on December 31, each
      date is the day after the one before, each lies in `y`, and every valid date of `y`
      appears, at the position given by its day of the year. */
  lemma YearDatesSpan(y: int)
    ensures YearDates(y)[0] == Date(y, 1, 1)
    ensures YearDates(y)[|YearDates(y)| - 1] == Date(y, 12, 31)
    ensures forall i :: 0 <= i < |YearDates(y)| - 1 ==> YearDates(y)[i + 1] == NextDate(YearDates(y)[i])
  {
    var ds := YearDates(y);
    DaysFromCivilInjective(ds[0], Date(y, 1, 1));
    MonthStep(y, 12);
    DaysFromCivilInjective(ds[|ds| - 1], Date(y, 12, 31));
    forall i | 0 <= i < |ds| - 1
      ensures ds[i + 1] == NextDate(ds[i])
    {
      NextDateIsNextDay(ds[i]);
      DaysFromCivilInjective(ds[i + 1], NextDate(ds[i]));
    }
  }

  lemma YearDatesExact(y: int, d: Date)
    requires ValidDate(d)
    ensures d in YearDates(y) <==> d.year == y
    ensures d.year == y ==> YearDates(y)[DaysBeforeMonth(y, d.month) + d.day - 1] == d
  {
    if d.year == y {
      YearDateAt(d);
    }
    if d in YearDates(y) {
      YearDateInYear(y, d);
    }
  }

  lemma YearDateAt(d: Date)
    requires ValidDate(d)
    ensures 0 <= DaysBeforeMonth(d.year, d.month) + d.day - 1 < |YearDates(d.year)|
    ensures YearDates(d.year)[DaysBeforeMonth(d.year, d.month) + d.day - 1] == d
  {
    DayOfYearInRange(d);
    SameDayNumber(YearDates(d.year), DaysBeforeMonth(d.year, d.month) + d.day - 1, d);
  }

  lemma SameDayNumber(ds: seq<Date>, k: int, d: Date)
    requires 0 <= k < |ds| && ValidDate(ds[k]) && ValidDate(d)
    requires DaysFromCivil(ds[k]) == DaysFromCivil(d)
    ensures ds[k] == d
  {
    DaysFromCivilInjective(ds[k], d);
  }

  lemma YearDateInYear(y: int, d: Date)
    requires ValidDate(d) && d in YearDates(y)
    ensures d.year == y
  {
    var ds := YearDates(y);
    var i :| 0 <= i < |ds| && ds[i] == d;
    DayOfYearInRange(d);
    YearStep(y);
    YearUnique(y, DaysFromCivil(d));
    YearUnique(d.year, DaysFromCivil(d));
  }
}
