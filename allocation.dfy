/** `allocateSegmentToDays`: a work interval split at local midnights, the milliseconds of
    each piece filed under the key of its local date. */
module DayAllocation {
  import opened Punches
  import opened Calendar
  import opened LocalTime
  import opened TimeFormat

  /** `dict[key] || 0` for a dictionary of numbers. */
  function Get(m: map<string, int>, k: string): int {
    if k in m then m[k] else 0
  }

  /** `[s, e)` has no instant in the local years 0 to 99: it starts after them or ends
      before them. */
  predicate ClearOfEarlyYears(s: int, e: int, zone: int) {
    s >= e || 100 <= YearOf(DayIndex(s, zone)) || YearOf(DayIndex(e - 1, zone)) < 0
  }

  /** The loop's pieces: `[s, e)` cut at each boundary `NextMidnight` gives. */
  function Slices(s: int, e: int, zone: int): seq<Interval>
    decreases e - s
  {
    if s >= e then []
    else
      var b := Min(e, NextMidnight(s, zone));
      [Interval(s, b)] + Slices(b, e, zone)
  }

  /** Adds each amount to what the map holds under its key. */
  function Tally(m: map<string, int>, entries: seq<(string, int)>): map<string, int>
    decreases |entries|
  {
    if entries == [] then m
    else
      var (k, v) := entries[0];
      Tally(m[k := Get(m, k) + v], entries[1..])
  }

  /** Each piece with its length, filed under the label of the local day it starts on. */
  function Pieces(slices: seq<Interval>, zone: int, tag: int -> string): seq<(string, int)>
    decreases |slices|
  {
    if slices == [] then []
    else [(tag(DayIndex(slices[0].start, zone)), Length(slices[0]))] + Pieces(slices[1..], zone, tag)
  }

  /** What `allocateSegmentToDays(segment)` returns: the pieces filed under the date-only
      label of their day. */
  function Allocation(segment: Interval, zone: int): map<string, int> {
    Tally(map[], Pieces(Slices(segment.start, segment.end, zone), zone, DayLabel))
  }

  method AllocateSegmentToDays(segment: Interval, zone: int) returns (allocations: map<string, int>)
    ensures allocations == Allocation(segment, zone)
  {
    allocations := map[];
    var s := segment.start;
    var e := segment.end;
    while s < e
      invariant Tally(allocations, Pieces(Slices(s, e, zone), zone, DayLabel)) == Allocation(segment, zone)
      decreases e - s
    {
      var sDate := LocalDate(s, zone);
      var dayString := DateKey(sDate);
      KeyOfLocalDate(s, zone);
      var boundary := NextMidnight(s, zone);
      var segmentEnd := Min(e, boundary);
      var duration := segmentEnd - s;
      AllocationStep(allocations, s, e, zone, DayLabel, Allocation(segment, zone), dayString, segmentEnd, duration);
      allocations := allocations[dayString := Get(allocations, dayString) + duration];
      s := segmentEnd;
    }
  }

  /** The key `toDateString` writes for the local date of `t` is the label of its day. */
  lemma KeyOfLocalDate(t: int, zone: int)
    ensures DateKey(LocalDate(t, zone)) == DayLabel(DayIndex(t, zone))
  {
  }

  /** One turn of the loop: the piece up to the next midnight is added under the label of
      its day, and the rest of the interval is still to come. */
  lemma AllocationStep(m: map<string, int>, s: int, e: int, zone: int, tag: int -> string,
                       goal: map<string, int>, k: string, b: int, v: int)
    requires s < e
    requires Tally(m, Pieces(Slices(s, e, zone), zone, tag)) == goal
    requires k == tag(DayIndex(s, zone)) && b == Min(e, NextMidnight(s, zone)) && v == b - s
    ensures Tally(m[k := Get(m, k) + v], Pieces(Slices(b, e, zone), zone, tag)) == goal
  {
    SlicesStep(s, e, zone);
    PiecesCons(s, b, Slices(b, e, zone), zone, tag);
    TallyStep(m, k, v, Pieces(Slices(b, e, zone), zone, tag));
  }

  /** The first piece, then the rest still to come. */
  lemma SlicesStep(s: int, e: int, zone: int)
    requires s < e
    ensures Slices(s, e, zone) == [Interval(s, Min(e, NextMidnight(s, zone)))] + Slices(Min(e, NextMidnight(s, zone)), e, zone)
  {
  }

  /** Clear of the years 0 to 99, the first piece starts outside them and so does the rest. */
  lemma ClearStep(s: int, b: int, e: int, zone: int)
    requires ClearOfEarlyYears(s, e, zone) && s < e && s <= b
    ensures !EarlyYearDay(DayIndex(s, zone)) && ClearOfEarlyYears(b, e, zone)
  {
    DayIndexMonotone(s, e - 1, zone);
    YearOfMonotone(DayIndex(s, zone), DayIndex(e - 1, zone));
    if b < e {
      DayIndexMonotone(s, b, zone);
      YearOfMonotone(DayIndex(s, zone), DayIndex(b, zone));
      DayIndexMonotone(b, e - 1, zone);
      YearOfMonotone(DayIndex(b, zone), DayIndex(e - 1, zone));
    }
  }

  lemma PiecesCons(s: int, b: int, rest: seq<Interval>, zone: int, tag: int -> string)
    ensures Pieces([Interval(s, b)] + rest, zone, tag) == [(tag(DayIndex(s, zone)), b - s)] + Pieces(rest, zone, tag)
  {
    var x := Interval(s, b);
    assert ([x] + rest)[0] == x && ([x] + rest)[1..] == rest;
  }

  lemma TallyStep(m: map<string, int>, k: string, v: int, rest: seq<(string, int)>)
    ensures Tally(m, [(k, v)] + rest) == Tally(m[k := Get(m, k) + v], rest)
  {
    assert ([(k, v)] + rest)[1..] == rest;
  }

  /** Every piece is non-empty, lies inside one local day, and the `i`-th piece lies in the
      `i`-th day from the day of `s`. */
  lemma {:induction false} SlicesWithinDays(s: int, e: int, zone: int)
    requires ClearOfEarlyYears(s, e, zone)
    ensures forall i :: 0 <= i < |Slices(s, e, zone)| ==>
              var p := Slices(s, e, zone)[i];
              p.start < p.end
              && DayIndex(p.start, zone) == DayIndex(p.end - 1, zone) == DayIndex(s, zone) + i
    decreases e - s
  {
    if s < e {
      var b := Min(e, NextMidnight(s, zone));
      var rest := Slices(b, e, zone);
      ClearStep(s, b, e, zone);
      NextMidnightRegular(s, zone);
      SlicesWithinDays(b, e, zone);
      var sl := Slices(s, e, zone);
      var n := DayIndex(s, zone);
      assert sl == [Interval(s, b)] + rest;
      assert DayIndex(b - 1, zone) == n;
      forall i | 0 <= i < |sl|
        ensures sl[i].start < sl[i].end && DayIndex(sl[i].start, zone) == DayIndex(sl[i].end - 1, zone) == n + i
      {
        if i > 0 {
          assert sl[i] == rest[i - 1];
          assert DayIndex(b, zone) == n + 1;
        }
      }
    }
  }

  /** The pieces follow one another without gap or overlap from `s` to `e`, so their
      lengths add up to the length of the interval. */
  lemma {:induction false} SlicesCover(s: int, e: int, zone: int)
    ensures var sl := Slices(s, e, zone);
            (s < e ==> |sl| > 0 && sl[0].start == s && sl[|sl| - 1].end == e)
            && (forall i :: 0 <= i < |sl| - 1 ==> sl[i].end == sl[i + 1].start)
            && TotalLength(sl) == Max(0, e - s)
    decreases e - s
  {
    if s < e {
      var b := Min(e, NextMidnight(s, zone));
      var rest := Slices(b, e, zone);
      SlicesCover(b, e, zone);
      assert Slices(s, e, zone) == [Interval(s, b)] + rest;
      assert TotalLength([Interval(s, b)] + rest) == (b - s) + TotalLength(rest) by {
        assert ([Interval(s, b)] + rest)[1..] == rest;
      }
    }
  }

  /** The milliseconds of `[s, e)` that fall on local day `n`. */
  function Overlap(s: int, e: int, n: int, zone: int): (r: int)
    ensures r >= 0
  {
    Max(0, Min(e, DayStart(n + 1, zone)) - Max(s, DayStart(n, zone)))
  }

  lemma GetUpdate(m: map<string, int>, k0: string, v: int, k: string)
    ensures Get(m[k0 := v], k) == if k == k0 then v else Get(m, k)
  {
  }

  /** The amounts filed under key `k`. */
  function SumAt(entries: seq<(string, int)>, k: string): int
    decreases |entries|
  {
    if entries == [] then 0
    else (if entries[0].0 == k then entries[0].1 else 0) + SumAt(entries[1..], k)
  }

  lemma {:induction false} TallyAt(m: map<string, int>, entries: seq<(string, int)>, k: string)
    ensures Get(Tally(m, entries), k) == Get(m, k) + SumAt(entries, k)
    decreases |entries|
  {
    if entries != [] {
      var (k0, v) := entries[0];
      TallyAt(m[k0 := Get(m, k0) + v], entries[1..], k);
      GetUpdate(m, k0, Get(m, k0) + v, k);
    }
  }

  lemma DayStartsIncrease(a: int, b: int, zone: int)
    requires a < b
    ensures DayStart(a + 1, zone) <= DayStart(b, zone)
  {
  }

  lemma SumAtCons(k0: string, v: int, rest: seq<(string, int)>, k: string)
    ensures SumAt([(k0, v)] + rest, k) == (if k0 == k then v else 0) + SumAt(rest, k)
  {
    assert ([(k0, v)] + rest)[1..] == rest;
  }

  /** The first piece `[s, b)` lies on the day of `s` and nowhere else. */
  lemma OverlapSplit(s: int, b: int, e: int, n: int, zone: int)
    requires s < e && b == Min(e, NextMidnight(s, zone)) && !EarlyYearDay(DayIndex(s, zone))
    ensures Overlap(s, e, n, zone) == (if DayIndex(s, zone) == n then b - s else 0) + Overlap(b, e, n, zone)
  {
    var day := DayIndex(s, zone);
    DayBounds(s, zone);
    NextMidnightRegular(s, zone);
    if n < day {
      DayStartsIncrease(n, day, zone);
    } else if day < n {
      DayStartsIncrease(day, n, zone);
    }
  }

  /** With a labelling that tells days apart, the amounts filed under the label of day `n` add
      up to the part of `[s, e)` that falls on that day. */
  lemma {:induction false} SlicesOnDay(s: int, e: int, n: int, zone: int, tag: int -> string)
    requires forall i :: tag(i) == tag(n) ==> i == n
    requires ClearOfEarlyYears(s, e, zone)
    ensures SumAt(Pieces(Slices(s, e, zone), zone, tag), tag(n)) == Overlap(s, e, n, zone)
    decreases e - s
  {
    if s < e {
      var b := Min(e, NextMidnight(s, zone));
      SlicesStep(s, e, zone);
      ClearStep(s, b, e, zone);
      PiecesCons(s, b, Slices(b, e, zone), zone, tag);
      SumAtCons(tag(DayIndex(s, zone)), b - s, Pieces(Slices(b, e, zone), zone, tag), tag(n));
      SlicesOnDay(b, e, n, zone, tag);
      OverlapSplit(s, b, e, n, zone);
    }
  }

  /** For a segment clear of the years 0 to 99, the allocation files under the key of local
      day `n` exactly the part of the segment that falls on that day, and nothing under a
      day the segment does not touch. */
  lemma AllocationOnDay(segment: Interval, n: int, zone: int)
    requires ClearOfEarlyYears(segment.start, segment.end, zone)
    ensures Get(Allocation(segment, zone), DayLabel(n)) == Overlap(segment.start, segment.end, n, zone)
  {
    forall i | DayLabel(i) == DayLabel(n) ensures i == n {
      DayLabelInjective(i, n);
    }
    TallyAt(map[], Pieces(Slices(segment.start, segment.end, zone), zone, DayLabel), DayLabel(n));
    SlicesOnDay(segment.start, segment.end, n, zone, DayLabel);
  }

  /** The loop runs once per local day the segment touches. */
  lemma SliceCount(s: int, e: int, zone: int)
    requires s < e && ClearOfEarlyYears(s, e, zone)
    ensures |Slices(s, e, zone)| == DayIndex(e - 1, zone) - DayIndex(s, zone) + 1
  {
    SlicesWithinDays(s, e, zone);
    SlicesCover(s, e, zone);
  }

  /** A night shift from `a` on day `n` to `c` on the next day is filed in two parts, split at
      the midnight between them; no other day gets anything. */
  lemma NightShiftSplits(a: int, c: int, n: int, m: int, zone: int)
    requires DayStart(n, zone) <= a < DayStart(n + 1, zone) < c <= DayStart(n + 2, zone)
    requires ClearOfEarlyYears(a, c, zone)
    ensures Get(Allocation(Interval(a, c), zone), DayLabel(n)) == DayStart(n + 1, zone) - a
    ensures Get(Allocation(Interval(a, c), zone), DayLabel(n + 1)) == c - DayStart(n + 1, zone)
    ensures m < n || n + 1 < m ==> Get(Allocation(Interval(a, c), zone), DayLabel(m)) == 0
  {
    AllocationOnDay(Interval(a, c), n, zone);
    AllocationOnDay(Interval(a, c), n + 1, zone);
    AllocationOnDay(Interval(a, c), m, zone);
    if m < n {
      DayStartsIncrease(m, n, zone);
    } else if n + 1 < m {
      DayStartsIncrease(n + 1, m, zone);
    }
  }

  /** A piece that starts in a local year `y` from 0 to 99 is not cut at the next midnight:
      up to January 1 of `1900 + y` all of it is filed under the key of the day it starts
      on. */
  lemma EarlyYearPiece(s: int, e: int, zone: int)
    requires EarlyYearDay(DayIndex(s, zone))
    requires s < e <= DayStart(YearStart(YearOf(DayIndex(s, zone)) + 1900), zone)
    ensures Allocation(Interval(s, e), zone) == map[DayLabel(DayIndex(s, zone)) := e - s]
  {
    NextMidnightEarly(s, zone);
    SlicesStep(s, e, zone);
    PiecesCons(s, e, [], zone, DayLabel);
    TallyStep(map[], DayLabel(DayIndex(s, zone)), e - s, []);
  }

  /** Two days from local midnight of a date in the years 0 to 99 are filed under that date
      alone; the day after it gets nothing. */
  lemma EarlyYearTwoDays(d: Date, zone: int)
    requires ValidDate(d) && 0 <= d.year <= 99
    ensures var a := DayStart(DaysFromCivil(d), zone);
            Allocation(Interval(a, a + 2 * DayMs), zone) == map[DateKey(d) := 2 * DayMs]
  {
    var n := DaysFromCivil(d);
    var a := DayStart(n, zone);
    CivilRoundTrip(d);
    DayStartDate(n, zone);
    assert DayLabel(DayIndex(a, zone)) == DateKey(d);
    assert YearOf(DayIndex(a, zone)) == d.year;
    RoomBefore1900(d);
    assert a + 2 * DayMs == DayStart(n + 2, zone);
    EarlyYearPiece(a, a + 2 * DayMs, zone);
  }

  /** A date of the years 0 to 99 lies at least two days before January 1 of 1900 plus its
      year. */
  lemma RoomBefore1900(d: Date)
    requires ValidDate(d) && 0 <= d.year <= 99
    ensures DaysFromCivil(d) + 2 <= YearStart(d.year + 1900)
  {
    DayOfYearInRange(d);
    YearStep(d.year + 1);
    YearsIncrease(d.year + 1, d.year + 1900);
  }
}
