/**
 An interval is a closed range `[start, end]` of integers. The tree never
 checks `start <= end`; an interval with `start > end` simply contains no point.

 This module also holds the brute-force stabbing query, `Scan`, a linear
 filter that the tree's pruned search is measured against.
 */
module Intervals {

  datatype Interval = Interval(start: int, end: int)

  /** Both ends are inclusive. */
  predicate Contains(iv: Interval, point: int) {
    iv.start <= point && point <= iv.end
  }

  /** The larger of two integers, as `cmp::max` / `Math.max`. */
  function Max(a: int, b: int): (m: int)
    ensures m >= a && m >= b
    ensures m == a || m == b
  {
    if a >= b then a else b
  }

  /** The brute-force oracle: keep, in order, the intervals of `s` that contain `point`. */
  function Scan(s: seq<Interval>, point: int): (r: seq<Interval>)
    ensures |r| <= |s|
    ensures forall x :: x in r ==> x in s && Contains(x, point)
  {
    if |s| == 0 then []
    else (if Contains(s[0], point) then [s[0]] else []) + Scan(s[1..], point)
  }

  /** Filtering distributes over concatenation. */
  lemma {:induction false} ScanAppend(a: seq<Interval>, b: seq<Interval>, point: int)
    ensures Scan(a + b, point) == Scan(a, point) + Scan(b, point)
    decreases |a|
  {
    if |a| == 0 {
      assert a + b == b;
    } else {
      assert (a + b)[1..] == a[1..] + b;
      ScanAppend(a[1..], b, point);
    }
  }

  /** A sequence none of whose intervals contains the point scans to nothing. */
  lemma {:induction false} ScanNone(s: seq<Interval>, point: int)
    requires forall x :: x in s ==> !Contains(x, point)
    ensures Scan(s, point) == []
    decreases |s|
  {
    if |s| > 0 {
      assert s[0] in s;
      assert forall x :: x in s[1..] ==> x in s;
      ScanNone(s[1..], point);
    }
  }

  /** The filter keeps every copy of a containing interval and drops every other one. */
  lemma {:induction false} ScanCount(s: seq<Interval>, point: int, x: Interval)
    ensures multiset(Scan(s, point))[x] == (if Contains(x, point) then multiset(s)[x] else 0)
    decreases |s|
  {
    if |s| > 0 {
      assert s == [s[0]] + s[1..];
      ScanCount(s[1..], point, x);
    }
  }

  /** The filter keeps a sub-multiset of what it scans. */
  lemma ScanIsSubMultiset(s: seq<Interval>, point: int)
    ensures multiset(Scan(s, point)) <= multiset(s)
  {
    forall x
      ensures multiset(Scan(s, point))[x] <= multiset(s)[x]
    {
      ScanCount(s, point, x);
    }
  }

  /** The brute-force result, as a multiset, depends only on the multiset scanned. */
  lemma ScanRespectsMultiset(a: seq<Interval>, b: seq<Interval>, point: int)
    requires multiset(a) == multiset(b)
    ensures multiset(Scan(a, point)) == multiset(Scan(b, point))
  {
    forall x
      ensures multiset(Scan(a, point))[x] == multiset(Scan(b, point))[x]
    {
      ScanCount(a, point, x);
      ScanCount(b, point, x);
    }
  }
}
