/** A stable sort by an integer key, standing for JavaScript's `Array.prototype.sort`
    with a comparator `(a, b) => key(a) - key(b)` (stable since ECMAScript 2019). */
module Sorting {

  ghost predicate SortedBy<T>(s: seq<T>, key: T -> int) {
    forall i, j :: 0 <= i < j < |s| ==> key(s[i]) <= key(s[j])
  }

  /** Inserts `x` after every element whose key is at most `key(x)`. */
  function Insert<T>(x: T, s: seq<T>, key: T -> int): (r: seq<T>)
    requires SortedBy(s, key)
    ensures SortedBy(r, key)
    ensures multiset(r) == multiset(s) + multiset{x}
  {
    if s == [] then [x]
    else if key(x) < key(s[0]) then
      ConsSorted(x, s, key);
      [x] + s
    else
      TailSorted(s, key);
      var tail := Insert(x, s[1..], key);
      KeepHead(x, s, tail, key);
      [s[0]] + tail
  }

  lemma TailSorted<T>(s: seq<T>, key: T -> int)
    requires s != [] && SortedBy(s, key)
    ensures SortedBy(s[1..], key)
  {
    forall i, j | 0 <= i < j < |s| - 1 ensures key(s[1..][i]) <= key(s[1..][j]) {
      assert s[1..][i] == s[i + 1] && s[1..][j] == s[j + 1];
    }
  }

  /** An element no later than the head of a sorted sequence can go in front of it. */
  lemma ConsSorted<T>(x: T, s: seq<T>, key: T -> int)
    requires s != [] && SortedBy(s, key) && key(x) <= key(s[0])
    ensures SortedBy([x] + s, key)
    ensures multiset([x] + s) == multiset(s) + multiset{x}
  {
    var r := [x] + s;
    forall i, j | 0 <= i < j < |r| ensures key(r[i]) <= key(r[j]) {
      assert r[j] == s[j - 1];
      if i > 0 {
        assert r[i] == s[i - 1];
      } else if j > 1 {
        assert key(s[0]) <= key(s[j - 1]);
      }
    }
  }

  /** The head of `s` stays in front when `x` goes into the rest of `s`. */
  lemma KeepHead<T>(x: T, s: seq<T>, tail: seq<T>, key: T -> int)
    requires s != [] && SortedBy(s, key) && key(s[0]) <= key(x)
    requires SortedBy(tail, key) && multiset(tail) == multiset(s[1..]) + multiset{x}
    ensures SortedBy([s[0]] + tail, key)
    ensures multiset([s[0]] + tail) == multiset(s) + multiset{x}
  {
    forall k | 0 <= k < |tail| ensures key(s[0]) <= key(tail[k]) {
      assert tail[k] in multiset(tail);
      if tail[k] != x {
        assert tail[k] in multiset(s[1..]);
        var i :| 0 <= i < |s[1..]| && s[1..][i] == tail[k];
        assert s[i + 1] == tail[k];
      }
    }
    var r := [s[0]] + tail;
    forall i, j | 0 <= i < j < |r| ensures key(r[i]) <= key(r[j]) {
      assert r[j] == tail[j - 1];
      if i > 0 {
        assert r[i] == tail[i - 1];
      }
    }
    assert s == [s[0]] + s[1..];
  }

  /** Sorts by inserting the elements one by one, last to first position kept stable. */
  function SortBy<T>(s: seq<T>, key: T -> int): (r: seq<T>)
    ensures SortedBy(r, key)
    ensures multiset(r) == multiset(s)
    ensures |r| == |s|
  {
    if s == [] then []
    else
      var prefix := s[..|s| - 1];
      assert s == prefix + [s[|s| - 1]];
      var r := Insert(s[|s| - 1], SortBy(prefix, key), key);
      assert |r| == |multiset(r)|;
      r
  }

  lemma {:induction false} InsertAfterAll<T>(x: T, s: seq<T>, key: T -> int)
    requires SortedBy(s, key)
    requires forall y :: y in s ==> key(y) <= key(x)
    ensures Insert(x, s, key) == s + [x]
  {
    if s != [] {
      assert s[0] in s;
      forall y | y in s[1..] ensures key(y) <= key(x) { assert y in s; }
      InsertAfterAll(x, s[1..], key);
      assert s == [s[0]] + s[1..];
    }
  }

  /** Sorting a sequence that is already sorted leaves it as it is. */
  lemma {:induction false} SortSortedIsIdentity<T>(s: seq<T>, key: T -> int)
    requires SortedBy(s, key)
    ensures SortBy(s, key) == s
  {
    if s != [] {
      var prefix := s[..|s| - 1];
      SortedPrefix(s, key);
      SortSortedIsIdentity(prefix, key);
      InsertAfterAll(s[|s| - 1], prefix, key);
      SortByLast(s, key);
      LastSplit(s);
    }
  }

  lemma LastSplit<T>(s: seq<T>)
    requires s != []
    ensures s == s[..|s| - 1] + [s[|s| - 1]]
  {
  }

  lemma SortByLast<T>(s: seq<T>, key: T -> int)
    requires s != []
    ensures SortBy(s, key) == Insert(s[|s| - 1], SortBy(s[..|s| - 1], key), key)
  {
  }

  /** All but the last element of a sorted sequence are sorted and no later than the last. */
  lemma SortedPrefix<T>(s: seq<T>, key: T -> int)
    requires s != [] && SortedBy(s, key)
    ensures SortedBy(s[..|s| - 1], key)
    ensures forall y :: y in s[..|s| - 1] ==> key(y) <= key(s[|s| - 1])
  {
    var prefix := s[..|s| - 1];
    forall i, j | 0 <= i < j < |prefix| ensures key(prefix[i]) <= key(prefix[j]) {
      assert prefix[i] == s[i] && prefix[j] == s[j];
    }
    forall y | y in prefix ensures key(y) <= key(s[|s| - 1]) {
      var i :| 0 <= i < |prefix| && prefix[i] == y;
      assert s[i] == y;
    }
  }

  lemma SortKeepsMembers<T>(s: seq<T>, key: T -> int, x: T)
    ensures x in SortBy(s, key) <==> x in s
  {
    assert x in multiset(SortBy(s, key)) <==> x in multiset(s);
  }

  ghost predicate DistinctKeys<T>(s: seq<T>, key: T -> int) {
    forall i, j :: 0 <= i < |s| && 0 <= j < |s| && s[i] != s[j] ==> key(s[i]) != key(s[j])
  }

  lemma SortedSameHead<T>(a: seq<T>, b: seq<T>, key: T -> int)
    requires a != [] && SortedBy(a, key) && SortedBy(b, key)
    requires multiset(a) == multiset(b)
    requires DistinctKeys(a, key)
    ensures b != [] && a[0] == b[0]
  {
    assert a[0] in multiset(b);
    assert b[0] in multiset(a);
    var i :| 0 <= i < |b| && b[i] == a[0];
    var j :| 0 <= j < |a| && a[j] == b[0];
    assert key(b[0]) <= key(a[0]) <= key(b[0]);
  }

  /** Two sorted sequences holding the same elements are equal when no two of their
      elements share a key: then the sorted order of a collection is unique. */
  lemma {:induction false} SortedUnique<T>(a: seq<T>, b: seq<T>, key: T -> int)
    requires SortedBy(a, key) && SortedBy(b, key)
    requires multiset(a) == multiset(b)
    requires DistinctKeys(a, key)
    ensures a == b
  {
    if a == [] {
      assert |b| == |multiset(b)| == 0;
    } else {
      SortedSameHead(a, b, key);
      TailMultiset(a);
      TailMultiset(b);
      TailProperties(a, key);
      TailProperties(b, key);
      assert multiset(a[1..]) == multiset(b[1..]);
      SortedUnique(a[1..], b[1..], key);
    }
  }

  lemma TailProperties<T>(s: seq<T>, key: T -> int)
    requires s != []
    ensures SortedBy(s, key) ==> SortedBy(s[1..], key)
    ensures DistinctKeys(s, key) ==> DistinctKeys(s[1..], key)
  {
    if DistinctKeys(s, key) {
      forall i, j | 0 <= i < |s| - 1 && 0 <= j < |s| - 1 && s[1..][i] != s[1..][j]
        ensures key(s[1..][i]) != key(s[1..][j])
      {
        assert s[1..][i] == s[i + 1] && s[1..][j] == s[j + 1];
      }
    }
  }

  lemma TailMultiset<T>(s: seq<T>)
    requires s != []
    ensures multiset(s[1..]) == multiset(s) - multiset{s[0]}
  {
    assert s == [s[0]] + s[1..];
  }

  /** The sort's result depends only on the collection of elements, not on their input
      order, whenever the keys are pairwise distinct. */
  lemma SortIgnoresInputOrder<T>(a: seq<T>, b: seq<T>, key: T -> int)
    requires multiset(a) == multiset(b)
    requires DistinctKeys(a, key)
    ensures SortBy(a, key) == SortBy(b, key)
  {
    var sa, sb := SortBy(a, key), SortBy(b, key);
    forall i, j | 0 <= i < |sa| && 0 <= j < |sa| && sa[i] != sa[j] ensures key(sa[i]) != key(sa[j]) {
      SortKeepsMembers(a, key, sa[i]);
      SortKeepsMembers(a, key, sa[j]);
      var i' :| 0 <= i' < |a| && a[i'] == sa[i];
      var j' :| 0 <= j' < |a| && a[j'] == sa[j];
    }
    SortedUnique(sa, sb, key);
  }
}
