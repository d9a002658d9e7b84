/** The button overlay: which of the four polygons are enabled for a status, what a click
    on one does, and the SVG `points` string of a polygon. */
module Overlay {
  import opened Options
  import opened Punches
  import opened Decimal
  import opened Status

  /** The `enabledButtons` table; every button it enables passes the handler's guard. */
  predicate Enabled(status: Kind, button: Kind)
    ensures Enabled(status, button) ==> Accepts(status, button)
  {
    match button
    case Shukkin => status == Taikin
    case Taikin => status == Shukkin || status == KyuukeiShuuryou
    case KyuukeiKaishi => status == Shukkin
    case KyuukeiShuuryou => status == KyuukeiKaishi
  }

  /** `onClick` of a polygon: the punch handed to `onButtonClick`, if any. */
  function Click(status: Kind, button: Kind): (r: Option<Kind>)
    ensures r == None || r == Some(button)
  {
    if Enabled(status, button) then Some(button) else None
  }

  /** A click on a disabled polygon calls nothing; one on an enabled polygon calls the handler
      with that polygon's key, and the handler's guard lets it through. */
  lemma ClickReachesHandler(status: Kind, button: Kind)
    ensures Click(status, button).Some? <==> Enabled(status, button)
    ensures Click(status, button).Some? ==> Click(status, button).value == button
    ensures Click(status, button).Some? ==> Accepts(status, button)
  {
  }

  /** The overlay is stricter than the handler in exactly two places: a clock-in from any
      status but clocked out, and a break start straight after a break end. */
  lemma GuardGap(status: Kind, k: Kind)
    ensures Accepts(status, k) && !Enabled(status, k)
        <==> (k == Shukkin && status != Taikin) || (k == KyuukeiKaishi && status == KyuukeiShuuryou)
    ensures Enabled(status, k) ==> Accepts(status, k)
  {
  }

  /** The buttons each status enables; every status enables at least one. */
  lemma EnabledPerStatus(status: Kind, k: Kind)
    ensures status == Taikin ==> (Enabled(status, k) <==> k == Shukkin)
    ensures status == Shukkin ==> (Enabled(status, k) <==> k == Taikin || k == KyuukeiKaishi)
    ensures status == KyuukeiKaishi ==> (Enabled(status, k) <==> k == KyuukeiShuuryou)
    ensures status == KyuukeiShuuryou ==> (Enabled(status, k) <==> k == Taikin)
    ensures exists b :: Enabled(status, b)
  {
    match status
    case Taikin => assert Enabled(status, Shukkin);
    case Shukkin => assert Enabled(status, Taikin);
    case KyuukeiKaishi => assert Enabled(status, KyuukeiShuuryou);
    case KyuukeiShuuryou => assert Enabled(status, Taikin);
  }

  /** A vertex of a polygon in image coordinates. */
  datatype Point = Point(x: int, y: int)

  /** `${pt.x},${pt.y}`. */
  function PointString(p: Point): string {
    IntToString(p.x) + "," + IntToString(p.y)
  }

  /** `items.join(sep)`. */
  function Join(items: seq<string>, sep: char): string
    decreases |items|
  {
    if |items| == 0 then ""
    else if |items| == 1 then items[0]
    else items[0] + [sep] + Join(items[1..], sep)
  }

  /** `points.map(...)`. */
  function PointStrings(points: seq<Point>): (r: seq<string>)
    ensures |r| == |points|
    ensures forall i :: 0 <= i < |points| ==> r[i] == PointString(points[i])
    decreases |points|
  {
    if points == [] then [] else [PointString(points[0])] + PointStrings(points[1..])
  }

  /** `convertPointsToString(points)`: no points give the empty string. */
  function ConvertPointsToString(points: seq<Point>): (r: string)
    ensures points == [] <==> r == []
  {
    Join(PointStrings(points), ' ')
  }

  /** `s.split(sep)`: the pieces between separators, one more than there are separators. */
  function Split(s: string, sep: char): (r: seq<string>)
    ensures |r| >= 1
    decreases |s|
  {
    var head := FirstField(s, sep);
    if |head| == |s| then [s] else [head] + Split(s[|head| + 1..], sep)
  }

  /** The number of `c` in `s`. */
  function Occurrences(s: string, c: char): nat
    decreases |s|
  {
    if s == [] then 0 else (if s[0] == c then 1 else 0) + Occurrences(s[1..], c)
  }

  lemma {:induction false} OccurrencesAppend(a: string, b: string, c: char)
    ensures Occurrences(a + b, c) == Occurrences(a, c) + Occurrences(b, c)
    decreases |a|
  {
    if a == [] {
      assert a + b == b;
    } else {
      assert (a + b)[1..] == a[1..] + b;
      OccurrencesAppend(a[1..], b, c);
    }
  }

  lemma {:induction false} NoOccurrences(s: string, c: char)
    requires c !in s
    ensures Occurrences(s, c) == 0
    decreases |s|
  {
    if s != [] {
      NoOccurrences(s[1..], c);
    }
  }

  /** A piece free of the separator splits to itself. */
  lemma SplitWhole(s: string, sep: char)
    requires sep !in s
    ensures Split(s, sep) == [s]
  {
    FirstFieldWhole(s, sep);
  }

  /** A piece free of the separator, then the separator, splits off as the first piece. */
  lemma SplitCons(a: string, sep: char, rest: string)
    requires sep !in a
    ensures Split(a + [sep] + rest, sep) == [a] + Split(rest, sep)
  {
    var s := a + [sep] + rest;
    FirstFieldOf(a, sep, rest);
    assert s[|a| + 1..] == rest;
  }

  /** Splitting a join of pieces free of the separator gives the pieces back. */
  lemma {:induction false} SplitJoin(items: seq<string>, sep: char)
    requires |items| >= 1
    requires forall i :: 0 <= i < |items| ==> sep !in items[i]
    ensures Split(Join(items, sep), sep) == items
    decreases |items|
  {
    if |items| == 1 {
      SplitWhole(items[0], sep);
    } else {
      SplitCons(items[0], sep, Join(items[1..], sep));
      SplitJoin(items[1..], sep);
      assert items == [items[0]] + items[1..];
    }
  }

  lemma {:induction false} FirstFieldWhole(s: string, sep: char)
    requires sep !in s
    ensures FirstField(s, sep) == s
    decreases |s|
  {
    if s != [] {
      FirstFieldWhole(s[1..], sep);
    }
  }

  /** A join of pieces free of the separator holds one separator fewer than pieces. */
  lemma {:induction false} JoinSeparators(items: seq<string>, sep: char)
    requires |items| >= 1
    requires forall i :: 0 <= i < |items| ==> sep !in items[i]
    ensures Occurrences(Join(items, sep), sep) == |items| - 1
    decreases |items|
  {
    NoOccurrences(items[0], sep);
    if |items| > 1 {
      JoinSeparators(items[1..], sep);
      OccurrencesAppend(items[0], [sep], sep);
      OccurrencesAppend(items[0] + [sep], Join(items[1..], sep), sep);
    }
  }

  lemma IntToStringPlain(i: int)
    ensures ' ' !in IntToString(i) && ',' !in IntToString(i)
  {
    var s := IntToString(i);
    forall k | 0 <= k < |s|
      ensures s[k] != ' ' && s[k] != ','
    {
      if i >= 0 {
        assert IsDigit(s[k]);
      } else if k > 0 {
        assert IsDigit(s[1..][k - 1]);
      }
    }
  }

  /** Reads a point back from `x,y`. */
  function ParsePoint(s: string): Option<Point> {
    var fields := Split(s, ',');
    if |fields| != 2 then None
    else match (ParseInt(fields[0]), ParseInt(fields[1]))
      case (Some(x), Some(y)) => Some(Point(x, y))
      case _ => None
  }

  lemma PointRoundTrip(p: Point)
    ensures ' ' !in PointString(p)
    ensures ParsePoint(PointString(p)) == Some(p)
  {
    IntToStringPlain(p.x);
    IntToStringPlain(p.y);
    var xs, ys := IntToString(p.x), IntToString(p.y);
    assert PointString(p) == Join([xs, ys], ',');
    SplitJoin([xs, ys], ',');
    IntToStringRoundTrip(p.x);
    IntToStringRoundTrip(p.y);
  }

  /** Reads the points back from a `points` string. */
  function ParsePoints(s: string): Option<seq<Point>> {
    ParseAll(Split(s, ' '))
  }

  function ParseAll(items: seq<string>): (r: Option<seq<Point>>)
    ensures r.Some? ==> |r.value| == |items|
    decreases |items|
  {
    if items == [] then Some([])
    else match (ParsePoint(items[0]), ParseAll(items[1..]))
      case (Some(p), Some(ps)) => Some([p] + ps)
      case _ => None
  }

  lemma {:induction false} ParseAllOf(items: seq<string>, points: seq<Point>)
    requires |items| == |points|
    requires forall i :: 0 <= i < |items| ==> ParsePoint(items[i]) == Some(points[i])
    ensures ParseAll(items) == Some(points)
    decreases |items|
  {
    if items != [] {
      ParseAllOf(items[1..], points[1..]);
      assert points == [points[0]] + points[1..];
    }
  }

  /** `convertPointsToString` of `n >= 1` points holds `n - 1` spaces between the `x,y`
      items, in input order, and reads back to the points. */
  lemma PointsStringForm(points: seq<Point>)
    requires |points| >= 1
    ensures Split(ConvertPointsToString(points), ' ') == PointStrings(points)
    ensures Occurrences(ConvertPointsToString(points), ' ') == |points| - 1
    ensures ParsePoints(ConvertPointsToString(points)) == Some(points)
  {
    var items := PointStrings(points);
    forall i | 0 <= i < |items|
      ensures ' ' !in items[i] && ParsePoint(items[i]) == Some(points[i])
    {
      PointRoundTrip(points[i]);
    }
    SplitJoin(items, ' ');
    JoinSeparators(items, ' ');
    ParseAllOf(items, points);
  }
}
