/** Local wall-clock time as `Date`'s local getters see it, for a time zone at a fixed
    offset `zone` (milliseconds ahead of UTC). Timestamps are milliseconds since the
    epoch, of any sign. */
module LocalTime {
  import opened Calendar

  const DayMs: int := 86400000
  const HourMs: int := 3600000
  const MinuteMs: int := 60000
  const SecondMs: int := 1000

  /** The local day number holding instant `t`; `/` floors because `DayMs` is positive. */
  function DayIndex(t: int, zone: int): int {
    (t + zone) / DayMs
  }

  /** The instant of local midnight starting day `n`. */
  function DayStart(n: int, zone: int): int {
    n * DayMs - zone
  }

  /** Milliseconds since local midnight. */
  function TimeOfDay(t: int, zone: int): (r: int)
    ensures 0 <= r < DayMs
  {
    (t + zone) % DayMs
  }

  lemma DayBounds(t: int, zone: int)
    ensures DayStart(DayIndex(t, zone), zone) <= t < DayStart(DayIndex(t, zone) + 1, zone)
    ensures t == DayStart(DayIndex(t, zone), zone) + TimeOfDay(t, zone)
  {
  }

  /** Only one local day holds an instant. */
  lemma DayIndexOf(t: int, zone: int, n: int)
    requires DayStart(n, zone) <= t < DayStart(n + 1, zone)
    ensures DayIndex(t, zone) == n
  {
    DayBounds(t, zone);
  }

  /** `new Date(y, m, d + 1).getTime()` for the local date `(y, m, d)` of `t`: local
      midnight of the day `ConstructedDay` numbers. Outside the years 0 to 99 that day is
      the next one, so the body takes it directly; `NextMidnightIsConstructed` shows both
      branches are the constructor's day. */
  function NextMidnight(t: int, zone: int): (r: int)
    ensures t < r
  {
    DayBounds(t, zone);
    if !EarlyYearDay(DayIndex(t, zone)) then DayStart(DayIndex(t, zone) + 1, zone)
    else
      var d := LocalDate(t, zone);
      ConstructedNextDay(d);
      DayStart(ConstructedDay(d.year, d.month, d.day + 1), zone)
  }

  /** The boundary is local midnight of the day the constructor builds from the local date
      of `t` with its day of the month plus one. */
  lemma NextMidnightIsConstructed(t: int, zone: int)
    ensures var d := LocalDate(t, zone);
            NextMidnight(t, zone) == DayStart(ConstructedDay(d.year, d.month, d.day + 1), zone)
  {
    ConstructedNextDay(LocalDate(t, zone));
  }

  /** Day numbers in the local years 0 to 99. */
  predicate EarlyYearDay(n: int) {
    0 <= YearOf(n) <= 99
  }

  /** Outside the years 0 to 99 the boundary is the next local midnight, and every instant
      from `t` up to it lies on the day of `t`. */
  lemma NextMidnightRegular(t: int, zone: int)
    requires !EarlyYearDay(DayIndex(t, zone))
    ensures NextMidnight(t, zone) == DayStart(DayIndex(t, zone) + 1, zone) <= t + DayMs
    ensures DayIndex(NextMidnight(t, zone), zone) == DayIndex(t, zone) + 1
    ensures forall u :: t <= u < NextMidnight(t, zone) ==> DayIndex(u, zone) == DayIndex(t, zone)
  {
    var n := DayIndex(t, zone);
    ConstructedNextDay(LocalDate(t, zone));
    DayBounds(t, zone);
    DayIndexOf(DayStart(n + 1, zone), zone, n + 1);
    forall u | t <= u < DayStart(n + 1, zone) ensures DayIndex(u, zone) == n {
      DayIndexOf(u, zone, n);
    }
  }

  /** In a year `y` from 0 to 99 the constructor reads the year as `1900 + y`, so the
      boundary lies after local midnight of January 1 of that year. */
  lemma NextMidnightEarly(t: int, zone: int)
    requires EarlyYearDay(DayIndex(t, zone))
    ensures DayStart(YearStart(YearOf(DayIndex(t, zone)) + 1900), zone) < NextMidnight(t, zone)
  {
    ConstructedNextDay(LocalDate(t, zone));
  }

  /** Instants in time order lie on days in order. */
  lemma DayIndexMonotone(t: int, u: int, zone: int)
    requires t <= u
    ensures DayIndex(t, zone) <= DayIndex(u, zone)
  {
    DayBounds(t, zone);
    DayBounds(u, zone);
  }

  /** The local calendar date of `t`: `getFullYear()`, `getMonth() + 1`, `getDate()`. */
  function LocalDate(t: int, zone: int): (d: Date)
    ensures ValidDate(d)
  {
    CivilFromDays(DayIndex(t, zone))
  }

  /** `getHours()`, `getMinutes()` and `getSeconds()`. */
  function Hours(t: int, zone: int): (r: int)
    ensures 0 <= r < 24
  {
    TimeOfDay(t, zone) / HourMs
  }

  function Minutes(t: int, zone: int): (r: int)
    ensures 0 <= r < 60
  {
    TimeOfDay(t, zone) / MinuteMs % 60
  }

  function Seconds(t: int, zone: int): (r: int)
    ensures 0 <= r < 60
  {
    TimeOfDay(t, zone) / SecondMs % 60
  }

  /** The clock fields and the sub-second remainder rebuild the time of day. */
  lemma ClockFieldsExact(t: int, zone: int)
    ensures Hours(t, zone) * HourMs + Minutes(t, zone) * MinuteMs + Seconds(t, zone) * SecondMs
            + TimeOfDay(t, zone) % SecondMs == TimeOfDay(t, zone)
  {
    var x := TimeOfDay(t, zone);
    var s := x / SecondMs;
    assert x == s * SecondMs + x % SecondMs;
    var m := s / 60;
    assert s == m * 60 + s % 60;
    assert x / MinuteMs == m;
    assert m == (m / 60) * 60 + m % 60;
    assert x / HourMs == m / 60;
  }

  /** Instants on different local days carry different dates. */
  lemma LocalDateSeparates(t: int, u: int, zone: int)
    ensures LocalDate(t, zone) == LocalDate(u, zone) <==> DayIndex(t, zone) == DayIndex(u, zone)
  {
    DaysFromCivilInjective(LocalDate(t, zone), LocalDate(u, zone));
  }

  /** Local midnight of a day falls on that day's date. */
  lemma DayStartDate(n: int, zone: int)
    ensures DayIndex(DayStart(n, zone), zone) == n
    ensures LocalDate(DayStart(n, zone), zone) == CivilFromDays(n)
  {
    DayIndexOf(DayStart(n, zone), zone, n);
  }
}
