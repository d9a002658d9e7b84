/** `computeCalendarData(year, events)`: the heat-map cells of one year, one per local
    date, each carrying the rounded hours worked that day and a level from 0 to 4. */
module CalendarData {
  import opened Options
  import opened Punches
  import opened Segments
  import opened Calendar
  import opened LocalTime
  import opened TimeFormat
  import opened DayAllocation

  /** One cell: `{ date, count, level }`. */
  datatype DayEntry = DayEntry(date: string, count: int, level: int)

  /** `Math.round(ms / 1000 / 60 / 60)` for a whole number of milliseconds; halves round up. */
  function RoundHours(ms: int): (r: int)
    ensures r * HourMs - HourMs / 2 <= ms < r * HourMs + HourMs / 2
  {
    (ms + HourMs / 2) / HourMs
  }

  /** The level chain: nothing worked is 0, under 3 rounded hours 1, under 6 2, under 9 3,
      otherwise 4. */
  function LevelOf(ms: int, hours: int): (r: int)
    ensures 0 <= r <= 4
    ensures r == 0 <==> hours == 0 && ms == 0
  {
    if hours == 0 && ms == 0 then 0
    else if hours < 3 && ms > 0 then 1
    else if hours < 6 then 2
    else if hours < 9 then 3
    else 4
  }

  /** The cell pushed for a date with `ms` milliseconds worked: dated, with the rounded
      hours, and level 0 only for no work at all. */
  function Entry(date: string, ms: int): (r: DayEntry)
    ensures r.date == date && r.count == RoundHours(ms)
    ensures 0 <= r.level <= 4 && (r.level == 0 <==> ms == 0)
  {
    var hours := RoundHours(ms);
    DayEntry(date, hours, LevelOf(ms, hours))
  }

  /** What one allocation adds under key `k`: its amount when the year read back from the
      key is the selected year, nothing otherwise. */
  function YearShare(allocations: map<string, int>, year: int, k: string): int {
    if KeyYear(k) == Some(year) then Get(allocations, k) else 0
  }

  /** `dailyDurations[k] || 0` once the given segments have been added. */
  function DailyMs(segments: seq<Interval>, year: int, zone: int, k: string): int
    decreases |segments|
  {
    if segments == [] then 0
    else DailyMs(segments[..|segments| - 1], year, zone, k)
         + YearShare(Allocation(segments[|segments| - 1], zone), year, k)
  }

  /** The cells for the given dates. */
  function Entries(dates: seq<Date>, segments: seq<Interval>, year: int, zone: int): (r: seq<DayEntry>)
    ensures |r| == |dates|
  {
    seq(|dates|, j requires 0 <= j < |dates| =>
      Entry(DateKey(dates[j]), DailyMs(segments, year, zone, DateKey(dates[j]))))
  }

  /** What `computeCalendarData(year, events)` returns. */
  function CalendarData(year: int, events: seq<Event>, zone: int): seq<DayEntry> {
    Cells(year, WorkSegments(events), zone)
  }

  /** The cells of the calendar year of `year` for the given work segments. */
  function Cells(year: int, segments: seq<Interval>, zone: int): seq<DayEntry> {
    Entries(YearDates(CalendarYear(year)), segments, year, zone)
  }

  /** The body of `for (const day in allocations)`: adds each allocation whose key's year is
      the selected one. */
  method AddYearShare(daily: map<string, int>, allocations: map<string, int>, year: int)
    returns (r: map<string, int>)
    ensures forall k :: Get(r, k) == Get(daily, k) + YearShare(allocations, year, k)
  {
    r := daily;
    var remaining := allocations.Keys;
    while remaining != {}
      invariant remaining <= allocations.Keys
      invariant forall k :: Get(r, k) == Get(daily, k) + (if k in remaining then 0 else YearShare(allocations, year, k))
      decreases |remaining|
    {
      var day :| day in remaining;
      var y := KeyYear(day);
      if y == Some(year) {
        r := r[day := Get(r, day) + allocations[day]];
      }
      remaining := remaining - {day};
    }
  }

  /** The first half of `computeCalendarData`: every segment's allocation added up. */
  method DailyDurations(segments: seq<Interval>, year: int, zone: int) returns (dailyDurations: map<string, int>)
    ensures forall k :: Get(dailyDurations, k) == DailyMs(segments, year, zone, k)
  {
    dailyDurations := map[];
    var i := 0;
    while i < |segments|
      invariant 0 <= i <= |segments|
      invariant forall k :: Get(dailyDurations, k) == DailyMs(segments[..i], year, zone, k)
    {
      var allocations := AllocateSegmentToDays(segments[i], zone);
      dailyDurations := AddYearShare(dailyDurations, allocations, year);
      assert segments[..i + 1][..i] == segments[..i];
      i := i + 1;
    }
    assert segments[..i] == segments;
  }

  /** The label the walk writes on local midnight of day `n` is the key of that day's date. */
  lemma WalkLabel(n: int, zone: int, date: Date)
    requires ValidDate(date) && DaysFromCivil(date) == n
    ensures DateKey(LocalDate(DayStart(n, zone), zone)) == DateKey(date)
  {
    DayStartDate(n, zone);
    CivilRoundTrip(date);
  }

  /** The keys of the given dates. */
  function Keys(dates: seq<Date>): (r: seq<string>)
    ensures |r| == |dates| && forall j :: 0 <= j < |dates| ==> r[j] == DateKey(dates[j])
    decreases |dates|
  {
    if dates == [] then [] else [DateKey(dates[0])] + Keys(dates[1..])
  }

  /** `cells` are the cells of the first `|cells|` keys, read from the daily totals. */
  predicate CellsFor(cells: seq<DayEntry>, keys: seq<string>, daily: map<string, int>) {
    |cells| <= |keys| && forall j :: 0 <= j < |cells| ==> cells[j] == Entry(keys[j], Get(daily, keys[j]))
  }

  /** The instant of local midnight starting date `d`: `getTime()` of a `Date` built from
      local fields. */
  function Midnight(d: Date, zone: int): int
    requires ValidDate(d)
  {
    DayStart(DaysFromCivil(d), zone)
  }

  /** One turn of the walk: the cell of the current date joins the cells before it. */
  lemma WalkStep(cells: seq<DayEntry>, keys: seq<string>, daily: map<string, int>, k: string)
    requires CellsFor(cells, keys, daily) && |cells| < |keys| && k == keys[|cells|]
    ensures CellsFor(cells + [Entry(k, Get(daily, k))], keys, daily)
  {
  }

  lemma KeyAt(dates: seq<Date>, i: int)
    requires 0 <= i < |dates|
    ensures Keys(dates)[i] == DateKey(dates[i])
  {
  }

  /** The date after the current one is the next date of the year, while there is one. */
  lemma WalkNext(y: int, k: int, d: Date)
    requires 0 <= k < DaysInYear(y) && ValidDate(d) && DaysFromCivil(d) == YearStart(y) + k
    ensures d == YearDates(y)[k]
    ensures ValidDate(NextDate(d)) && DaysFromCivil(NextDate(d)) == YearStart(y) + k + 1
  {
    DaysFromCivilInjective(d, YearDates(y)[k]);
    NextDateIsNextDay(d);
  }

  lemma YearEnds(y: int)
    ensures ValidDate(Date(y, 1, 1)) && DaysFromCivil(Date(y, 1, 1)) == YearStart(y)
    ensures ValidDate(Date(y, 12, 31)) && DaysFromCivil(Date(y, 12, 31)) == YearStart(y) + DaysInYear(y) - 1
  {
    MonthStep(y, 12);
  }

  /** The second half: `d` walks the local dates from January 1 to December 31 of the
      calendar year by `setDate(getDate() + 1)`, one cell per date, read from the daily
      totals. */
  method WalkYear(daily: map<string, int>, year: int, zone: int) returns (result: seq<DayEntry>)
    ensures var keys := Keys(YearDates(CalendarYear(year)));
            |result| == |keys| && CellsFor(result, keys, daily)
  {
    var cy := CalendarYear(year);
    ghost var dates := YearDates(cy);
    YearEnds(cy);
    var d := Date(cy, 1, 1);
    var endDate := Date(cy, 12, 31);
    result := [];
    while Midnight(d, zone) <= Midnight(endDate, zone)
      invariant ValidDate(d) && DaysFromCivil(d) == YearStart(cy) + |result|
      invariant CellsFor(result, Keys(dates), daily)
      decreases Midnight(endDate, zone) - Midnight(d, zone)
    {
      WalkNext(cy, |result|, d);
      KeyAt(dates, |result|);
      var dateString := DateKey(d);
      WalkStep(result, Keys(dates), daily, dateString);
      var durationMs := Get(daily, dateString);
      result := result + [Entry(dateString, durationMs)];
      d := NextDate(d);
    }
  }

  method ComputeCalendarData(year: int, events: seq<Event>, zone: int) returns (result: seq<DayEntry>)
    ensures result == CalendarData(year, events, zone)
  {
    var segments := ComputeWorkSegments(events);
    var dailyDurations := DailyDurations(segments, year, zone);
    result := WalkYear(dailyDurations, year, zone);
    ghost var spec := CalendarData(year, events, zone);
    assert |result| == |spec|;
    assert forall j :: 0 <= j < |result| ==> result[j] == spec[j];
  }

  /** The milliseconds of the segments that fall on local day `n`. */
  function WorkedOn(segments: seq<Interval>, n: int, zone: int): (r: int)
    ensures r >= 0
    decreases |segments|
  {
    if segments == [] then 0
    else
      var last := segments[|segments| - 1];
      WorkedOn(segments[..|segments| - 1], n, zone) + Overlap(last.start, last.end, n, zone)
  }

  /** Every segment is clear of the local years 0 to 99. */
  predicate SegmentsClear(segments: seq<Interval>, zone: int) {
    forall j :: 0 <= j < |segments| ==> ClearOfEarlyYears(segments[j].start, segments[j].end, zone)
  }

  /** Nothing is added under a key whose year is not the selected one. */
  lemma {:induction false} DailyMsOffYear(segments: seq<Interval>, year: int, zone: int, k: string)
    requires KeyYear(k) != Some(year)
    ensures DailyMs(segments, year, zone, k) == 0
    decreases |segments|
  {
    if segments != [] {
      DailyMsOffYear(segments[..|segments| - 1], year, zone, k);
    }
  }

  /** For segments clear of the years 0 to 99, the daily total under the key of day `n` is
      the time worked on that day, or nothing when the year read back from the key is not
      the selected one. */
  lemma {:induction false} DailyMsOnDay(segments: seq<Interval>, year: int, zone: int, n: int)
    requires SegmentsClear(segments, zone)
    ensures DailyMs(segments, year, zone, DayLabel(n))
         == if KeyYear(DayLabel(n)) == Some(year) then WorkedOn(segments, n, zone) else 0
    decreases |segments|
  {
    if segments != [] {
      var last := segments[|segments| - 1];
      var init := segments[..|segments| - 1];
      assert forall j :: 0 <= j < |init| ==> init[j] == segments[j];
      DailyMsOnDay(init, year, zone, n);
      AllocationOnDay(last, n, zone);
    }
  }

  /** The `i`-th date of a year is the date of day number `YearStart(y) + i`, in year `y`. */
  lemma {:induction false} YearDateIs(y: int, i: int)
    requires 0 <= i < DaysInYear(y)
    ensures YearDates(y)[i] == CivilFromDays(YearStart(y) + i)
    ensures YearDates(y)[i].year == y
  {
    YearStep(y);
    YearUnique(y, YearStart(y) + i);
  }

  /** The key of the date of day `n`, a date of the calendar year of `year`, is the label of
      that day, and the walk reads under it the time worked on that day when `year` is 100
      or later (for segments clear of the years 0 to 99) and nothing otherwise: for years 0 to 99 the date lies in 1900 to 1999 while
      the filter keeps keys of the year itself, and for a negative year the key's first field
      is empty and reads as 0. */
  lemma {:induction false} CellMs(year: int, segments: seq<Interval>, zone: int, d: Date, n: int)
    requires ValidDate(d) && DaysFromCivil(d) == n && d.year == CalendarYear(year)
    requires year >= 100 ==> SegmentsClear(segments, zone)
    ensures DailyMs(segments, year, zone, DateKey(d))
         == if year >= 100 then WorkedOn(segments, n, zone) else 0
  {
    CivilRoundTrip(d);
    LabelOfDate(d, n);
    KeyYearOf(d);
    ShareOnDay(segments, year, zone, n, DateKey(d), year >= 100);
  }

  /** `CellMs` from year 100 on. */
  lemma {:induction false} DayMsAt(year: int, segments: seq<Interval>, zone: int, d: Date, n: int)
    requires year >= 100 && ValidDate(d) && DaysFromCivil(d) == n && d.year == year
    requires SegmentsClear(segments, zone)
    ensures DailyMs(segments, year, zone, DateKey(d)) == WorkedOn(segments, n, zone)
  {
    CellMs(year, segments, zone, d, n);
  }

  /** The key of the date of day `n` is the label of day `n`. */
  lemma LabelOfDate(d: Date, n: int)
    requires d == CivilFromDays(n)
    ensures DateKey(d) == DayLabel(n)
  {
  }

  /** `DailyMsOnDay` for a key `k` known to be the label of day `n`, with `b` telling whether
      its year is the selected one. */
  lemma {:induction false} ShareOnDay(segments: seq<Interval>, year: int, zone: int, n: int, k: string, b: bool)
    requires k == DayLabel(n)
    requires KeyYear(k) == Some(year) <==> b
    requires b ==> SegmentsClear(segments, zone)
    ensures DailyMs(segments, year, zone, k) == if b then WorkedOn(segments, n, zone) else 0
  {
    if b {
      DailyMsOnDay(segments, year, zone, n);
    } else {
      DailyMsOffYear(segments, year, zone, k);
    }
  }

  /** Cell `i` of the calendar: the `i`-th date of the calendar year, and the time worked on
      that local day when the selected year is 100 or later and the work lies clear of the
      years 0 to 99; every cell is empty before year 100. */
  lemma {:induction false} CalendarCell(year: int, events: seq<Event>, zone: int, i: int)
    requires 0 <= i < DaysInYear(CalendarYear(year))
    requires year >= 100 ==> SegmentsClear(WorkSegments(events), zone)
    ensures |CalendarData(year, events, zone)| == DaysInYear(CalendarYear(year))
    ensures CalendarData(year, events, zone)[i]
         == Entry(DateKey(YearDates(CalendarYear(year))[i]),
                  if year >= 100 then WorkedOn(WorkSegments(events), YearStart(year) + i, zone) else 0)
  {
    CellAt(year, WorkSegments(events), zone, i);
  }

  /** `CalendarCell` for any list of work segments. */
  lemma {:induction false} CellAt(year: int, segments: seq<Interval>, zone: int, i: int)
    requires 0 <= i < DaysInYear(CalendarYear(year))
    requires year >= 100 ==> SegmentsClear(segments, zone)
    ensures |Cells(year, segments, zone)| == DaysInYear(CalendarYear(year))
    ensures Cells(year, segments, zone)[i]
         == Entry(DateKey(YearDates(CalendarYear(year))[i]),
                  if year >= 100 then WorkedOn(segments, YearStart(year) + i, zone) else 0)
  {
    if year >= 100 {
      CellOfYear(year, segments, zone, i);
    } else {
      CellOfEarlyYear(year, segments, zone, i);
    }
  }

  /** From year 100 on, the cell holds the time worked on its day. */
  lemma {:induction false} CellOfYear(year: int, segments: seq<Interval>, zone: int, i: int)
    requires year >= 100 && 0 <= i < DaysInYear(year)
    requires SegmentsClear(segments, zone)
    ensures CalendarYear(year) == year
    ensures Cells(year, segments, zone)[i]
         == Entry(DateKey(YearDates(year)[i]), WorkedOn(segments, YearStart(year) + i, zone))
  {
    CellIndex(year, segments, zone, i);
    DayMsOf(year, segments, zone, i);
  }

  /** Cell `i` of a year from 100 on is the entry for the `i`-th date of that year. */
  lemma {:induction false} CellIndex(year: int, segments: seq<Interval>, zone: int, i: int)
    requires year >= 100 && 0 <= i < DaysInYear(year)
    ensures CalendarYear(year) == year
    ensures Cells(year, segments, zone)[i]
         == Entry(DateKey(YearDates(year)[i]), DailyMs(segments, year, zone, DateKey(YearDates(year)[i])))
  {
    assert CalendarYear(year) == year;
  }

  /** The daily total read for the `i`-th date of a year from 100 on is the time worked on
      its day number. */
  lemma {:induction false} DayMsOf(year: int, segments: seq<Interval>, zone: int, i: int)
    requires year >= 100 && 0 <= i < DaysInYear(year)
    requires SegmentsClear(segments, zone)
    ensures DailyMs(segments, year, zone, DateKey(YearDates(year)[i])) == WorkedOn(segments, YearStart(year) + i, zone)
  {
    var d := YearDates(year)[i];
    YearDateIs(year, i);
    DayMsAt(year, segments, zone, d, YearStart(year) + i);
  }

  /** Before year 100, every cell is empty. */
  lemma {:induction false} CellOfEarlyYear(year: int, segments: seq<Interval>, zone: int, i: int)
    requires year < 100 && 0 <= i < DaysInYear(CalendarYear(year))
    ensures Cells(year, segments, zone)[i] == Entry(DateKey(YearDates(CalendarYear(year))[i]), 0)
  {
    var cy := CalendarYear(year);
    var d := YearDates(cy)[i];
    var c := Cells(year, segments, zone)[i];
    assert c == Entry(DateKey(d), DailyMs(segments, year, zone, DateKey(d)));
    YearDateIs(cy, i);
    CellMs(year, segments, zone, d, YearStart(cy) + i);
    EntryOf(c, DateKey(d), DailyMs(segments, year, zone, DateKey(d)), 0);
  }

  /** An entry equals the one built from an equal amount. */
  lemma EntryOf(c: DayEntry, date: string, ms: int, ms': int)
    requires c == Entry(date, ms) && ms == ms'
    ensures c == Entry(date, ms')
  {
  }

  /** The cells run from January 1 to December 31 of the calendar year. */
  lemma CalendarSpan(year: int, events: seq<Event>, zone: int)
    ensures var cells := CalendarData(year, events, zone);
            var cy := CalendarYear(year);
            |cells| == DaysInYear(cy)
            && cells[0].date == DateKey(Date(cy, 1, 1))
            && cells[|cells| - 1].date == DateKey(Date(cy, 12, 31))
  {
    YearDatesSpan(CalendarYear(year));
  }

  /** No date appears twice. */
  lemma CalendarDatesDistinct(year: int, events: seq<Event>, zone: int, i: int, j: int)
    requires 0 <= i < j < DaysInYear(CalendarYear(year))
    ensures CalendarData(year, events, zone)[i].date != CalendarData(year, events, zone)[j].date
  {
    var ds := YearDates(CalendarYear(year));
    DateKeyInjective(ds[i], ds[j]);
  }

  /** With no events every cell of the year is empty: no hours, level 0. */
  lemma {:induction false} EmptyLogCalendar(year: int, zone: int, i: int)
    requires 0 <= i < DaysInYear(CalendarYear(year))
    ensures CalendarData(year, [], zone)[i] == DayEntry(DateKey(YearDates(CalendarYear(year))[i]), 0, 0)
  {
    assert WorkSegments([]) == [];
    CellAt(year, [], zone, i);
  }

  /** The level bands in milliseconds: 0 only for no work, 1 below 2.5 hours, 2 below 5.5,
      3 below 8.5, 4 from 8.5 hours on (the bands of 3, 6 and 9 rounded hours). */
  lemma LevelBands(date: string, ms: int)
    requires ms >= 0
    ensures Entry(date, ms).level == 0 <==> ms == 0
    ensures Entry(date, ms).level == 1 <==> 0 < ms < 5 * HourMs / 2
    ensures Entry(date, ms).level == 2 <==> 5 * HourMs / 2 <= ms < 11 * HourMs / 2
    ensures Entry(date, ms).level == 3 <==> 11 * HourMs / 2 <= ms < 17 * HourMs / 2
    ensures Entry(date, ms).level == 4 <==> 17 * HourMs / 2 <= ms
  {
  }

  /** The count is the nearest whole number of hours, a half hour rounding up. */
  lemma CountRounds(date: string, ms: int)
    ensures Entry(date, ms).count * HourMs - HourMs / 2 <= ms < Entry(date, ms).count * HourMs + HourMs / 2
    ensures ms >= 0 ==> Entry(date, ms).count >= 0
  {
  }

  /** A shift of 8.5 hours of work shows 9 hours at the top level; under half an hour shows
      0 hours but level 1. */
  lemma CellExamples(date: string)
    ensures Entry(date, 17 * HourMs / 2) == DayEntry(date, 9, 4)
    ensures Entry(date, 8 * HourMs) == DayEntry(date, 8, 3)
    ensures Entry(date, 29 * MinuteMs) == DayEntry(date, 0, 1)
    ensures Entry(date, 0) == DayEntry(date, 0, 0)
  {
  }
}
