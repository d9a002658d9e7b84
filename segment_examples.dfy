/** Worked cases of segment reconstruction, and what the input order of the log does and
    does not change. */
module SegmentExamples {
  import opened Options
  import opened Punches
  import opened Sorting
  import opened Segments

  /** The event at `i` of the pass, with the state it leads to named. */
  lemma StepAt(st: Shift, log: seq<Event>, i: nat, next: Shift)
    requires i < |log| && Step(st, log[i]).0 == next
    ensures RunFrom(st, log, i) == Step(st, log[i]).1 + RunFrom(next, log, i + 1)
  {
  }

  lemma RunOfLog(log: seq<Event>)
    ensures Run(Idle, log) == RunFrom(Idle, log, 0)
  {
    RunFromIsRun(Idle, log, 0);
    assert log[0..] == log;
  }

  /** A shift with no closed break is one segment, or none when it is empty. */
  lemma CloseShiftNoBreaks(a: int, b: int)
    ensures CloseShift(a, b, []) == if a < b then [Interval(a, b)] else []
  {
    assert SortBy([], IntervalStart) == [];
  }

  /** A log whose timestamps never go down from one event to the next is run as it is. */
  lemma SortedLogRunsAsIs(log: seq<Event>)
    requires forall k :: 0 < k < |log| ==> log[k - 1].timestamp <= log[k].timestamp
    ensures WorkSegments(log) == Run(Idle, log)
  {
    ChainSorted(log);
    SortSortedIsIdentity(log, EventTime);
  }

  lemma {:induction false} ChainSorted(log: seq<Event>)
    requires forall k :: 0 < k < |log| ==> log[k - 1].timestamp <= log[k].timestamp
    ensures SortedBy(log, EventTime)
    decreases |log|
  {
    if log != [] {
      var init := log[..|log| - 1];
      assert forall k :: 0 < k < |init| ==> init[k - 1].timestamp <= init[k].timestamp by {
        forall k | 0 < k < |init| ensures init[k - 1].timestamp <= init[k].timestamp {
          assert init[k - 1] == log[k - 1] && init[k] == log[k];
        }
      }
      ChainSorted(init);
      forall i, j | 0 <= i < j < |log| ensures EventTime(log[i]) <= EventTime(log[j]) {
        if j < |log| - 1 {
          assert log[i] == init[i] && log[j] == init[j];
        } else if i < j - 1 {
          assert log[i] == init[i] && log[j - 1] == init[j - 1];
          assert EventTime(init[i]) <= EventTime(init[j - 1]);
        }
      }
    }
  }

  /** A shift `[a, d)` with one closed break `[b, c)` inside it gives the two segments
      around the break. */
  lemma OneBreak(a: int, b: int, c: int, d: int)
    requires a < b <= c < d
    ensures WorkSegments([Event(Shukkin, a), Event(KyuukeiKaishi, b),
                          Event(KyuukeiShuuryou, c), Event(Taikin, d)])
         == [Interval(a, b), Interval(c, d)]
  {
    var log := [Event(Shukkin, a), Event(KyuukeiKaishi, b), Event(KyuukeiShuuryou, c), Event(Taikin, d)];
    OneBreakRun(a, b, c, d);
    SortedLogRunsAsIs(log);
  }

  lemma OneBreakRun(a: int, b: int, c: int, d: int)
    requires a < b <= c < d
    ensures Run(Idle, [Event(Shukkin, a), Event(KyuukeiKaishi, b), Event(KyuukeiShuuryou, c), Event(Taikin, d)])
         == [Interval(a, b), Interval(c, d)]
  {
    var log := [Event(Shukkin, a), Event(KyuukeiKaishi, b), Event(KyuukeiShuuryou, c), Event(Taikin, d)];
    var s1, s2, s3 := Shift(Some(a), [], None), Shift(Some(a), [], Some(b)), Shift(Some(a), [Interval(b, c)], None);
    SortSortedIsIdentity([Interval(b, c)], IntervalStart);
    assert CutBreaks(a, d, [Interval(b, c)]) == [Interval(a, b)] + CutBreaks(c, d, []);
    StepAt(s3, log, 3, Idle);
    StepAt(s2, log, 2, s3);
    StepAt(s1, log, 1, s2);
    StepAt(Idle, log, 0, s1);
    RunOfLog(log);
  }

  /** A break start with no break end before the clock-out does not shorten the shift. */
  lemma UnclosedBreakCountsAsWork(a: int, b: int, c: int)
    requires a <= b <= c && a < c
    ensures WorkSegments([Event(Shukkin, a), Event(KyuukeiKaishi, b), Event(Taikin, c)])
         == [Interval(a, c)]
  {
    var log := [Event(Shukkin, a), Event(KyuukeiKaishi, b), Event(Taikin, c)];
    UnclosedBreakRun(a, b, c);
    SortedLogRunsAsIs(log);
  }

  lemma UnclosedBreakRun(a: int, b: int, c: int)
    requires a <= b <= c && a < c
    ensures Run(Idle, [Event(Shukkin, a), Event(KyuukeiKaishi, b), Event(Taikin, c)]) == [Interval(a, c)]
  {
    var log := [Event(Shukkin, a), Event(KyuukeiKaishi, b), Event(Taikin, c)];
    var s1, s2 := Shift(Some(a), [], None), Shift(Some(a), [], Some(b));
    CloseShiftNoBreaks(a, c);
    StepAt(s2, log, 2, Idle);
    StepAt(s1, log, 1, s2);
    StepAt(Idle, log, 0, s1);
    RunOfLog(log);
  }

  /** A break that starts exactly at the clock-in is skipped, not cut out: the whole shift
      counts as work. */
  lemma BreakAtClockInNotExcised(a: int, b: int, c: int)
    requires a < b < c
    ensures WorkSegments([Event(Shukkin, a), Event(KyuukeiKaishi, a),
                          Event(KyuukeiShuuryou, b), Event(Taikin, c)])
         == [Interval(a, c)]
  {
    var log := [Event(Shukkin, a), Event(KyuukeiKaishi, a), Event(KyuukeiShuuryou, b), Event(Taikin, c)];
    BreakAtClockInRun(a, b, c);
    SortedLogRunsAsIs(log);
  }

  lemma BreakAtClockInRun(a: int, b: int, c: int)
    requires a < b < c
    ensures Run(Idle, [Event(Shukkin, a), Event(KyuukeiKaishi, a), Event(KyuukeiShuuryou, b), Event(Taikin, c)])
         == [Interval(a, c)]
  {
    var log := [Event(Shukkin, a), Event(KyuukeiKaishi, a), Event(KyuukeiShuuryou, b), Event(Taikin, c)];
    var s1, s2, s3 := Shift(Some(a), [], None), Shift(Some(a), [], Some(a)), Shift(Some(a), [Interval(a, b)], None);
    SortSortedIsIdentity([Interval(a, b)], IntervalStart);
    assert CutBreaks(a, c, [Interval(a, b)]) == CutBreaks(a, c, []);
    StepAt(s3, log, 3, Idle);
    StepAt(s2, log, 2, s3);
    StepAt(s1, log, 1, s2);
    StepAt(Idle, log, 0, s1);
    RunOfLog(log);
  }

  /** When no two events share a timestamp, the segments do not depend on the order in
      which the log lists its events. */
  lemma SegmentsIgnoreInputOrder(a: seq<Event>, b: seq<Event>)
    requires multiset(a) == multiset(b)
    requires DistinctKeys(a, EventTime)
    ensures WorkSegments(a) == WorkSegments(b)
  {
    SortIgnoresInputOrder(a, b, EventTime);
  }

  /** With tied timestamps the input order does matter: the stable sort keeps a clock-out
      and a clock-in at the same instant in log order, and the two orders give different
      segments. */
  lemma TiedEventsFollowLogOrder(x: int, y: int, z: int)
    requires x < y < z
    ensures var a := [Event(Shukkin, x), Event(Taikin, y), Event(Shukkin, y), Event(Taikin, z)];
            var b := [Event(Shukkin, x), Event(Shukkin, y), Event(Taikin, y), Event(Taikin, z)];
            multiset(a) == multiset(b)
            && WorkSegments(a) == [Interval(x, y), Interval(y, z)]
            && WorkSegments(b) == []
  {
    OutThenIn(x, y, z);
    InThenOut(x, y, z);
    TiedLogsSameEvents(x, y, z);
  }

  lemma OutThenIn(x: int, y: int, z: int)
    requires x < y < z
    ensures WorkSegments([Event(Shukkin, x), Event(Taikin, y), Event(Shukkin, y), Event(Taikin, z)])
         == [Interval(x, y), Interval(y, z)]
  {
    OutThenInRun(x, y, z);
    var log := [Event(Shukkin, x), Event(Taikin, y), Event(Shukkin, y), Event(Taikin, z)];
    SortedLogRunsAsIs(log);
  }

  lemma InThenOut(x: int, y: int, z: int)
    requires x < y < z
    ensures WorkSegments([Event(Shukkin, x), Event(Shukkin, y), Event(Taikin, y), Event(Taikin, z)]) == []
  {
    InThenOutRun(x, y, z);
    var log := [Event(Shukkin, x), Event(Shukkin, y), Event(Taikin, y), Event(Taikin, z)];
    SortedLogRunsAsIs(log);
  }

  lemma TiedLogsSameEvents(x: int, y: int, z: int)
    ensures multiset([Event(Shukkin, x), Event(Taikin, y), Event(Shukkin, y), Event(Taikin, z)])
         == multiset([Event(Shukkin, x), Event(Shukkin, y), Event(Taikin, y), Event(Taikin, z)])
  {
    var a := [Event(Shukkin, x), Event(Taikin, y), Event(Shukkin, y), Event(Taikin, z)];
    var b := [Event(Shukkin, x), Event(Shukkin, y), Event(Taikin, y), Event(Taikin, z)];
    assert a == [a[0]] + [a[1], a[2]] + [a[3]];
    assert b == [b[0]] + [b[1], b[2]] + [b[3]];
    assert multiset([a[1], a[2]]) == multiset([b[1], b[2]]);
  }

  lemma OutThenInRun(x: int, y: int, z: int)
    requires x < y < z
    ensures Run(Idle, [Event(Shukkin, x), Event(Taikin, y), Event(Shukkin, y), Event(Taikin, z)])
         == [Interval(x, y), Interval(y, z)]
  {
    var log := [Event(Shukkin, x), Event(Taikin, y), Event(Shukkin, y), Event(Taikin, z)];
    var open0, open5 := Shift(Some(x), [], None), Shift(Some(y), [], None);
    CloseShiftNoBreaks(x, y);
    CloseShiftNoBreaks(y, z);
    StepAt(open5, log, 3, Idle);
    StepAt(Idle, log, 2, open5);
    StepAt(open0, log, 1, Idle);
    StepAt(Idle, log, 0, open0);
    RunOfLog(log);
  }

  lemma InThenOutRun(x: int, y: int, z: int)
    requires x < y < z
    ensures Run(Idle, [Event(Shukkin, x), Event(Shukkin, y), Event(Taikin, y), Event(Taikin, z)]) == []
  {
    var log := [Event(Shukkin, x), Event(Shukkin, y), Event(Taikin, y), Event(Taikin, z)];
    var open0, open5 := Shift(Some(x), [], None), Shift(Some(y), [], None);
    CloseShiftNoBreaks(y, y);
    StepAt(Idle, log, 3, Idle);
    StepAt(open5, log, 2, Idle);
    StepAt(open0, log, 1, open5);
    StepAt(Idle, log, 0, open0);
    RunOfLog(log);
  }
}
