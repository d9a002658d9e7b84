/** Segment reconstruction (`computeWorkSegments`): one forward pass over the punch
    events, sorted by timestamp, that turns every complete clock-in .. clock-out shift
    into work intervals with the closed breaks cut out. */
module Segments {
  import opened Options
  import opened Punches
  import opened Sorting

  /** What the pass remembers between events: the open clock-in, the breaks closed
      during the open shift, and an open break start. */
  datatype Shift = Shift(clockIn: Option<int>, breaks: seq<Interval>, breakStart: Option<int>)

  const Idle: Shift := Shift(None, [], None)

  /** The clock-out branch: walks the breaks in order; a break whose start lies strictly
      between the current segment start and the clock-out ends a segment there, and the
      next segment starts at the break's end. Whatever is left before the clock-out is
      the last segment. */
  function CutBreaks(segStart: int, clockOut: int, breaks: seq<Interval>): seq<Interval>
    decreases |breaks|
  {
    if breaks == [] then
      if segStart < clockOut then [Interval(segStart, clockOut)] else []
    else
      var br := breaks[0];
      if br.start > segStart && br.start < clockOut then
        [Interval(segStart, br.start)] + CutBreaks(br.end, clockOut, breaks[1..])
      else
        CutBreaks(segStart, clockOut, breaks[1..])
  }

  /** The segments of one shift: its breaks are sorted by start before they are cut out. */
  function CloseShift(clockIn: int, clockOut: int, breaks: seq<Interval>): seq<Interval>
  {
    CutBreaks(clockIn, clockOut, SortBy(breaks, IntervalStart))
  }

  /** One event of the pass: the new state and the segments the event emits. */
  function Step(st: Shift, e: Event): (Shift, seq<Interval>)
  {
    match e.kind
    case Shukkin =>
      (Shift(Some(e.timestamp), [], None), [])
    case KyuukeiKaishi =>
      if st.clockIn.Some? then (st.(breakStart := Some(e.timestamp)), []) else (st, [])
    case KyuukeiShuuryou =>
      if st.clockIn.Some? && st.breakStart.Some? then
        (Shift(st.clockIn, st.breaks + [Interval(st.breakStart.value, e.timestamp)], None), [])
      else (st, [])
    case Taikin =>
      if st.clockIn.Some? then (Idle, CloseShift(st.clockIn.value, e.timestamp, st.breaks))
      else (st, [])
  }

  /** The segments emitted by the pass over `events`, starting in state `st`. */
  function Run(st: Shift, events: seq<Event>): seq<Interval>
    decreases |events|
  {
    if events == [] then []
    else
      var next := Step(st, events[0]);
      next.1 + Run(next.0, events[1..])
  }

  /** The specification of `computeWorkSegments`: sort by timestamp, then run the pass. */
  function WorkSegments(events: seq<Event>): seq<Interval>
  {
    Run(Idle, SortBy(events, EventTime))
  }

  ghost predicate Positive(segs: seq<Interval>) {
    forall i :: 0 <= i < |segs| ==> segs[i].start < segs[i].end
  }

  /** Ascending and pairwise non-overlapping. */
  ghost predicate Ordered(segs: seq<Interval>) {
    forall i, j :: 0 <= i < j < |segs| ==> segs[i].end <= segs[j].start
  }

  ghost predicate StartsFrom(segs: seq<Interval>, lo: int) {
    forall i :: 0 <= i < |segs| ==> lo <= segs[i].start
  }

  ghost predicate EndsBy(segs: seq<Interval>, hi: int) {
    forall i :: 0 <= i < |segs| ==> segs[i].end <= hi
  }

  ghost predicate WellFormedBreaks(breaks: seq<Interval>) {
    forall i :: 0 <= i < |breaks| ==> breaks[i].start <= breaks[i].end
  }

  method ComputeWorkSegments(events: seq<Event>) returns (segments: seq<Interval>)
    ensures segments == WorkSegments(events)
    ensures Positive(segments) && Ordered(segments)
  {
    var sortedEvents := SortBy(events, EventTime);
    segments := [];
    var currentClockIn: Option<int> := None;
    var breakIntervals: seq<Interval> := [];
    var currentBreakStart: Option<int> := None;
    var i := 0;
    while i < |sortedEvents|
      invariant 0 <= i <= |sortedEvents|
      invariant segments + RunFrom(Shift(currentClockIn, breakIntervals, currentBreakStart), sortedEvents, i)
                == RunFrom(Idle, sortedEvents, 0)
    {
      var event := sortedEvents[i];
      ghost var next := Step(Shift(currentClockIn, breakIntervals, currentBreakStart), event);
      RunFromUnfold(Shift(currentClockIn, breakIntervals, currentBreakStart), sortedEvents, i);
      ghost var before := segments;
      match event.kind {
        case Shukkin =>
          currentClockIn := Some(event.timestamp);
          breakIntervals := [];
          currentBreakStart := None;
        case KyuukeiKaishi =>
          if currentClockIn.Some? {
            currentBreakStart := Some(event.timestamp);
          }
        case KyuukeiShuuryou =>
          if currentClockIn.Some? && currentBreakStart.Some? {
            breakIntervals := breakIntervals + [Interval(currentBreakStart.value, event.timestamp)];
            currentBreakStart := None;
          }
        case Taikin =>
          if currentClockIn.Some? {
            var shiftSegments := SplitShift(currentClockIn.value, event.timestamp, breakIntervals);
            segments := segments + shiftSegments;
            currentClockIn := None;
            breakIntervals := [];
            currentBreakStart := None;
          }
      }
      StepInvariant(before, next, segments, Shift(currentClockIn, breakIntervals, currentBreakStart),
                    sortedEvents, i, RunFrom(Idle, sortedEvents, 0));
      i := i + 1;
    }
    RunFromIsRun(Idle, sortedEvents, 0);
    assert sortedEvents[0..] == sortedEvents;
    WorkSegmentsShape(events);
  }

  /** The pass from position `i` on, read by index: what the loop of `computeWorkSegments`
      still has to emit. */
  function RunFrom(st: Shift, events: seq<Event>, i: nat): seq<Interval>
    decreases |events| - i
  {
    if i >= |events| then []
    else
      var next := Step(st, events[i]);
      next.1 + RunFrom(next.0, events, i + 1)
  }

  lemma RunFromUnfold(st: Shift, events: seq<Event>, i: nat)
    requires i < |events|
    ensures RunFrom(st, events, i) == Step(st, events[i]).1 + RunFrom(Step(st, events[i]).0, events, i + 1)
  {
  }

  lemma StepInvariant(before: seq<Interval>, next: (Shift, seq<Interval>), segments: seq<Interval>, st: Shift,
                      events: seq<Event>, i: nat, goal: seq<Interval>)
    requires i < |events|
    requires before + (next.1 + RunFrom(next.0, events, i + 1)) == goal
    requires st == next.0 && segments == before + next.1
    ensures segments + RunFrom(st, events, i + 1) == goal
  {
  }

  lemma {:induction false} RunFromIsRun(st: Shift, events: seq<Event>, i: nat)
    requires i <= |events|
    ensures RunFrom(st, events, i) == Run(st, events[i..])
    decreases |events| - i
  {
    if i < |events| {
      RunFromIsRun(Step(st, events[i]).0, events, i + 1);
      assert events[i..][0] == events[i] && events[i..][1..] == events[i + 1..];
    }
  }

  /** The clock-out branch of `computeWorkSegments`: the segments of the shift from
      `clockIn` to `clockOut`, the breaks sorted by start and cut out one by one. */
  method SplitShift(clockIn: int, clockOut: int, breakIntervals: seq<Interval>)
    returns (segments: seq<Interval>)
    ensures segments == CloseShift(clockIn, clockOut, breakIntervals)
  {
    segments := [];
    var segmentStart := clockIn;
    var sortedBreaks := SortBy(breakIntervals, IntervalStart);
    ghost var goal := CloseShift(clockIn, clockOut, breakIntervals);
    CutFromIsCutBreaks(clockIn, clockOut, sortedBreaks, 0);
    assert sortedBreaks[0..] == sortedBreaks;
    var j := 0;
    while j < |sortedBreaks|
      invariant 0 <= j <= |sortedBreaks|
      invariant segments + CutFrom(segmentStart, clockOut, sortedBreaks, j) == goal
    {
      var br := sortedBreaks[j];
      if br.start > segmentStart && br.start < clockOut {
        CutTake(segments, segmentStart, clockOut, sortedBreaks, j, goal);
        segments := segments + [Interval(segmentStart, br.start)];
        segmentStart := br.end;
      } else {
        CutSkip(segments, segmentStart, clockOut, sortedBreaks, j, goal);
      }
      j := j + 1;
    }
    if segmentStart < clockOut {
      segments := segments + [Interval(segmentStart, clockOut)];
    }
  }

  /** The clock-out branch from break `j` on, read by index: what the loop of
      `splitShift` still has to emit. */
  function CutFrom(segStart: int, clockOut: int, breaks: seq<Interval>, j: nat): seq<Interval>
    decreases |breaks| - j
  {
    if j >= |breaks| then
      if segStart < clockOut then [Interval(segStart, clockOut)] else []
    else
      var br := breaks[j];
      if br.start > segStart && br.start < clockOut then
        [Interval(segStart, br.start)] + CutFrom(br.end, clockOut, breaks, j + 1)
      else
        CutFrom(segStart, clockOut, breaks, j + 1)
  }

  /** A break strictly inside the open segment ends it there. */
  lemma CutTake(before: seq<Interval>, segStart: int, clockOut: int, breaks: seq<Interval>, j: nat,
                goal: seq<Interval>)
    requires j < |breaks| && segStart < breaks[j].start < clockOut
    requires before + CutFrom(segStart, clockOut, breaks, j) == goal
    ensures (before + [Interval(segStart, breaks[j].start)]) + CutFrom(breaks[j].end, clockOut, breaks, j + 1) == goal
  {
  }

  /** Any other break is passed over. */
  lemma CutSkip(before: seq<Interval>, segStart: int, clockOut: int, breaks: seq<Interval>, j: nat,
                goal: seq<Interval>)
    requires j < |breaks| && !(segStart < breaks[j].start < clockOut)
    requires before + CutFrom(segStart, clockOut, breaks, j) == goal
    ensures before + CutFrom(segStart, clockOut, breaks, j + 1) == goal
  {
  }

  lemma {:induction false} CutFromIsCutBreaks(segStart: int, clockOut: int, breaks: seq<Interval>, j: nat)
    requires j <= |breaks|
    ensures CutFrom(segStart, clockOut, breaks, j) == CutBreaks(segStart, clockOut, breaks[j..])
    decreases |breaks| - j
  {
    if j < |breaks| {
      var br := breaks[j];
      assert breaks[j..][0] == br && breaks[j..][1..] == breaks[j + 1..];
      CutFromIsCutBreaks(br.end, clockOut, breaks, j + 1);
      CutFromIsCutBreaks(segStart, clockOut, breaks, j + 1);
    }
  }

  lemma OrderedAppend(a: seq<Interval>, b: seq<Interval>, m: int)
    requires Ordered(a) && Ordered(b) && EndsBy(a, m) && StartsFrom(b, m)
    ensures Ordered(a + b)
  {
  }

  /** The segments of one shift are positive, ascending, disjoint, and lie between the
      segment start and the clock-out. */
  lemma {:induction false} CutBreaksShape(segStart: int, clockOut: int, breaks: seq<Interval>)
    requires WellFormedBreaks(breaks)
    ensures var r := CutBreaks(segStart, clockOut, breaks);
      Positive(r) && Ordered(r) && StartsFrom(r, segStart) && EndsBy(r, clockOut)
    decreases |breaks|
  {
    if breaks != [] {
      var br := breaks[0];
      assert WellFormedBreaks(breaks[1..]) by {
        forall k | 0 <= k < |breaks| - 1 ensures breaks[1..][k].start <= breaks[1..][k].end {
          assert breaks[1..][k] == breaks[k + 1];
        }
      }
      if br.start > segStart && br.start < clockOut {
        CutBreaksShape(br.end, clockOut, breaks[1..]);
        OrderedAppend([Interval(segStart, br.start)], CutBreaks(br.end, clockOut, breaks[1..]), br.start);
      } else {
        CutBreaksShape(segStart, clockOut, breaks[1..]);
      }
    }
  }

  /** Every segment of a shift lies within `[clockIn, clockOut]`, whatever order the
      closed breaks were recorded in. */
  lemma CloseShiftShape(clockIn: int, clockOut: int, breaks: seq<Interval>)
    requires WellFormedBreaks(breaks)
    ensures var r := CloseShift(clockIn, clockOut, breaks);
      Positive(r) && Ordered(r) && StartsFrom(r, clockIn) && EndsBy(r, clockOut)
  {
    var sorted := SortBy(breaks, IntervalStart);
    forall k | 0 <= k < |sorted| ensures sorted[k].start <= sorted[k].end {
      SortKeepsMembers(breaks, IntervalStart, sorted[k]);
    }
    CutBreaksShape(clockIn, clockOut, sorted);
  }

  /** The state invariant of the pass, relative to the time `now` of the last event seen:
      the open clock-in and break start lie in the past and every closed break is a
      forward span. */
  ghost predicate StateWellFormed(st: Shift, now: int) {
    && (st.clockIn.Some? ==> st.clockIn.value <= now)
    && (st.breakStart.Some? ==> st.breakStart.value <= now)
    && WellFormedBreaks(st.breaks)
  }

  /** The earliest time a later segment can start from state `st`. */
  function Floor(st: Shift, now: int): int {
    if st.clockIn.Some? then st.clockIn.value else now
  }

  ghost predicate AllFrom(events: seq<Event>, now: int) {
    forall k :: 0 <= k < |events| ==> now <= events[k].timestamp
  }

  /** The events after the first of a sorted log are no earlier than the first. */
  lemma TailFrom(events: seq<Event>)
    requires events != [] && SortedBy(events, EventTime)
    ensures AllFrom(events[1..], events[0].timestamp)
  {
    forall k | 0 <= k < |events| - 1 ensures events[0].timestamp <= events[1..][k].timestamp {
      assert events[1..][k] == events[k + 1];
      assert EventTime(events[0]) <= EventTime(events[k + 1]);
    }
  }

  /** One event no earlier than `now` keeps the state well formed, relative to its time. */
  lemma StepWellFormed(st: Shift, now: int, e: Event)
    requires StateWellFormed(st, now) && now <= e.timestamp
    ensures StateWellFormed(Step(st, e).0, e.timestamp)
  {
    if e.kind == KyuukeiShuuryou && st.clockIn.Some? && st.breakStart.Some? {
      var nb := st.breaks + [Interval(st.breakStart.value, e.timestamp)];
      forall k | 0 <= k < |nb| ensures nb[k].start <= nb[k].end {
        if k < |st.breaks| { assert nb[k] == st.breaks[k]; }
      }
    }
  }

  lemma {:induction false} RunShape(st: Shift, now: int, events: seq<Event>)
    requires StateWellFormed(st, now)
    requires SortedBy(events, EventTime) && AllFrom(events, now)
    ensures var r := Run(st, events);
      Positive(r) && Ordered(r) && StartsFrom(r, Floor(st, now))
    decreases |events|
  {
    if events != [] {
      var e := events[0];
      var rest := events[1..];
      var next := Step(st, e);
      TailSorted(events, EventTime);
      TailFrom(events);
      StepWellFormed(st, now, e);
      RunShape(next.0, e.timestamp, rest);
      if e.kind == Taikin && st.clockIn.Some? {
        CloseShiftShape(st.clockIn.value, e.timestamp, st.breaks);
        OrderedAppend(next.1, Run(next.0, rest), e.timestamp);
      }
    }
  }

  /** `computeWorkSegments` emits positive, ascending, pairwise disjoint segments, within
      shifts and across them, for every event log. */
  lemma WorkSegmentsShape(events: seq<Event>)
    ensures Positive(WorkSegments(events)) && Ordered(WorkSegments(events))
  {
    var sorted := SortBy(events, EventTime);
    if sorted != [] {
      var now := sorted[0].timestamp;
      assert AllFrom(sorted, now) by {
        forall k | 0 <= k < |sorted| ensures now <= sorted[k].timestamp {
          if k > 0 { assert EventTime(sorted[0]) <= EventTime(sorted[k]); }
        }
      }
      RunShape(Idle, now, sorted);
    }
  }

  /** A positive, ordered run of segments between `lo` and `hi` covers at most `hi - lo`. */
  lemma {:induction false} OrderedTotalLength(segs: seq<Interval>, lo: int, hi: int)
    requires Positive(segs) && Ordered(segs) && StartsFrom(segs, lo) && EndsBy(segs, hi)
    ensures TotalLength(segs) <= Max(0, hi - lo)
  {
    if segs != [] {
      var rest := segs[1..];
      assert Ordered(rest) by {
        forall a, b | 0 <= a < b < |rest| ensures rest[a].end <= rest[b].start {
          assert rest[a] == segs[a + 1] && rest[b] == segs[b + 1];
        }
      }
      assert StartsFrom(rest, segs[0].end) by {
        forall k | 0 <= k < |rest| ensures segs[0].end <= rest[k].start {
          assert rest[k] == segs[k + 1];
        }
      }
      OrderedTotalLength(rest, segs[0].end, hi);
    }
  }

  /** The work time of a shift never exceeds the shift's length. */
  lemma ShiftWorkBound(clockIn: int, clockOut: int, breaks: seq<Interval>)
    requires WellFormedBreaks(breaks)
    ensures 0 <= TotalLength(CloseShift(clockIn, clockOut, breaks)) <= Max(0, clockOut - clockIn)
  {
    CloseShiftShape(clockIn, clockOut, breaks);
    OrderedTotalLength(CloseShift(clockIn, clockOut, breaks), clockIn, clockOut);
    PositiveTotalLength(CloseShift(clockIn, clockOut, breaks));
  }

  lemma {:induction false} PositiveTotalLength(segs: seq<Interval>)
    requires Positive(segs)
    ensures TotalLength(segs) >= 0
  {
    if segs != [] {
      assert Positive(segs[1..]) by {
        forall k | 0 <= k < |segs| - 1 ensures segs[1..][k].start < segs[1..][k].end {
          assert segs[1..][k] == segs[k + 1];
        }
      }
      PositiveTotalLength(segs[1..]);
    }
  }

  /** A break event while no shift is open changes nothing. */
  lemma OrphanBreakIgnored(e: Event, rest: seq<Event>)
    requires e.kind == KyuukeiKaishi || e.kind == KyuukeiShuuryou
    ensures Run(Idle, [e] + rest) == Run(Idle, rest)
  {
    assert ([e] + rest)[1..] == rest;
  }

  /** A clock-in discards any earlier partial shift, with its breaks: what follows it does
      not depend on the state before it. */
  lemma ClockInResetsShift(st1: Shift, st2: Shift, t: int, rest: seq<Event>)
    ensures Run(st1, [Event(Shukkin, t)] + rest) == Run(st2, [Event(Shukkin, t)] + rest)
  {
    assert ([Event(Shukkin, t)] + rest)[1..] == rest;
  }

  /** Events with no clock-out among them emit no segment: a shift still open at the end
      of the log counts nothing. */
  lemma {:induction false} NoClockOutNoSegments(st: Shift, events: seq<Event>)
    requires forall k :: 0 <= k < |events| ==> events[k].kind != Taikin
    ensures Run(st, events) == []
    decreases |events|
  {
    if events != [] {
      NoClockOutNoSegments(Step(st, events[0]).0, events[1..]);
    }
  }

  /** Only closed breaks are cut out: an open break start does not change what the
      clock-out emits. */
  lemma OpenBreakNotExcised(clockIn: int, breaks: seq<Interval>, x: Option<int>, y: Option<int>,
                            t: int, rest: seq<Event>)
    ensures Run(Shift(Some(clockIn), breaks, x), [Event(Taikin, t)] + rest)
         == Run(Shift(Some(clockIn), breaks, y), [Event(Taikin, t)] + rest)
  {
    assert ([Event(Taikin, t)] + rest)[1..] == rest;
  }

  /** After the clock-out of an open shift the pass is idle again. */
  lemma ClockOutResetsShift(st: Shift, t: int)
    requires st.clockIn.Some?
    ensures Step(st, Event(Taikin, t)).0 == Idle
    ensures Step(st, Event(Taikin, t)).1 == CloseShift(st.clockIn.value, t, st.breaks)
  {
  }
}
