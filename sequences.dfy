/** Generic sequence operations that stand in for the query builder's filter, first() and order_by. */
module Sequences {

  datatype Option<T> = None | Some(value: T)

  /** The elements of `s` that satisfy `p`, in the order of `s` (a query's `filter`). */
  function Filter<T(!new)>(p: T -> bool, s: seq<T>): (r: seq<T>)
    ensures |r| <= |s|
    ensures forall i :: 0 <= i < |r| ==> p(r[i])
    ensures forall x :: x in r <==> x in s && p(x)
    decreases |s|
  {
    if s == [] then []
    else if p(s[0]) then [s[0]] + Filter(p, s[1..])
    else Filter(p, s[1..])
  }

  /** The first element of `s` satisfying `p`, if any (a query's `first()`). */
  function First<T(!new)>(p: T -> bool, s: seq<T>): (r: Option<T>)
    ensures r.None? <==> forall x :: x in s ==> !p(x)
    ensures r.Some? ==> exists k :: 0 <= k < |s| && s[k] == r.value && p(s[k]) &&
                                    forall j :: 0 <= j < k ==> !p(s[j])
    decreases |s|
  {
    if s == [] then None
    else if p(s[0]) then Some(s[0])
    else
      var r := First(p, s[1..]);
      assert r.Some? ==> exists k :: 1 <= k < |s| && s[k] == r.value && p(s[k]) &&
                                     forall j :: 0 <= j < k ==> !p(s[j]) by {
        if r.Some? {
          var k :| 0 <= k < |s[1..]| && s[1..][k] == r.value && p(s[1..][k]) &&
                   forall j :: 0 <= j < k ==> !p(s[1..][j]);
          assert s[k + 1] == r.value;
          assert forall j :: 0 <= j < k + 1 ==> !p(s[j]) by {
            forall j | 0 <= j < k + 1 ensures !p(s[j]) {
              if j > 0 { assert s[j] == s[1..][j - 1]; }
            }
          }
        }
      }
      r
  }

  lemma {:induction false} FilterAppend<T(!new)>(p: T -> bool, a: seq<T>, b: seq<T>)
    ensures Filter(p, a + b) == Filter(p, a) + Filter(p, b)
    decreases |a|
  {
    if a == [] {
      assert a + b == b;
    } else {
      assert (a + b)[1..] == a[1..] + b;
      FilterAppend(p, a[1..], b);
    }
  }

  /** The number of elements satisfying `p` does not depend on the order of the elements. */
  lemma {:induction false} FilterCount<T(!new)>(p: T -> bool, a: seq<T>, b: seq<T>)
    requires multiset(a) == multiset(b)
    ensures |Filter(p, a)| == |Filter(p, b)|
    decreases |a|
  {
    if a == [] {
      assert |b| == |multiset(b)| == 0;
    } else {
      var x := a[0];
      assert x in multiset(b);
      var k :| 0 <= k < |b| && b[k] == x;
      RemoveOne(a, b, k);
      FilterCount(p, a[1..], b[..k] + b[k + 1..]);
      FilterSplit(p, b, k);
      assert a == [x] + a[1..];
      FilterAppend(p, [x], a[1..]);
    }
  }

  lemma FilterSplit<T(!new)>(p: T -> bool, b: seq<T>, k: int)
    requires 0 <= k < |b|
    ensures |Filter(p, b)| == |Filter(p, [b[k]])| + |Filter(p, b[..k] + b[k + 1..])|
  {
    var left, mid, right := b[..k], [b[k]], b[k + 1..];
    assert b == left + (mid + right);
    FilterAppend(p, left, mid + right);
    FilterAppend(p, mid, right);
    FilterAppend(p, left, right);
  }

  lemma RemoveOne<T>(a: seq<T>, b: seq<T>, k: int)
    requires multiset(a) == multiset(b) && a != [] && 0 <= k < |b| && b[k] == a[0]
    ensures multiset(a[1..]) == multiset(b[..k] + b[k + 1..])
  {
    assert b == b[..k] + [b[k]] + b[k + 1..];
    assert a == [a[0]] + a[1..];
    assert multiset(a[1..]) == multiset(a) - multiset{a[0]};
    assert multiset(b[..k] + b[k + 1..]) == multiset(b) - multiset{a[0]};
  }

  /** Narrowing the filter, and losing at least one element of `s` by it, shortens the result. */
  lemma {:induction false} FilterNarrows<T(!new)>(p: T -> bool, q: T -> bool, s: seq<T>, x: T)
    requires forall y :: y in s && q(y) ==> p(y)
    requires x in s && p(x) && !q(x)
    ensures |Filter(q, s)| < |Filter(p, s)|
    decreases |s|
  {
    if s[0] == x {
      FilterWeaker(p, q, s[1..]);
    } else {
      FilterNarrows(p, q, s[1..], x);
    }
  }

  lemma {:induction false} FilterWeaker<T(!new)>(p: T -> bool, q: T -> bool, s: seq<T>)
    requires forall y :: y in s && q(y) ==> p(y)
    ensures |Filter(q, s)| <= |Filter(p, s)|
    decreases |s|
  {
    if s != [] {
      FilterWeaker(p, q, s[1..]);
    }
  }

  /** `s` is in ascending order of `key` (what `order_by(key)` produces). */
  predicate SortedBy<T(!new)>(key: T -> int, s: seq<T>)
  {
    forall i, j :: 0 <= i < j < |s| ==> key(s[i]) <= key(s[j])
  }

  lemma {:induction false} FilterSorted<T(!new)>(key: T -> int, p: T -> bool, s: seq<T>)
    requires SortedBy(key, s)
    ensures SortedBy(key, Filter(p, s))
    decreases |s|
  {
    if s != [] {
      FilterSorted(key, p, s[1..]);
      var tail := Filter(p, s[1..]);
      assert forall y :: y in tail ==> key(s[0]) <= key(y) by {
        forall y | y in tail ensures key(s[0]) <= key(y) {
          var j :| 0 <= j < |s[1..]| && s[1..][j] == y;
          assert s[j + 1] == y;
        }
      }
    }
  }

  lemma SliceSorted<T(!new)>(key: T -> int, s: seq<T>, lo: int, hi: int)
    requires SortedBy(key, s) && 0 <= lo <= hi <= |s|
    ensures SortedBy(key, s[lo..hi])
  {
    assert forall i :: 0 <= i < hi - lo ==> s[lo..hi][i] == s[lo + i];
  }

  lemma HeadIsLeast<T(!new)>(key: T -> int, s: seq<T>, y: T)
    requires SortedBy(key, s) && s != [] && y in multiset(s[1..])
    ensures key(s[0]) <= key(y)
  {
    var j :| 0 <= j < |s[1..]| && s[1..][j] == y;
    assert s[j + 1] == y;
  }

  /** After the head of a sorted `s` is passed over, whatever `x` is inserted into the rest is
      no smaller than that head. */
  lemma InsertedTailBound<T(!new)>(key: T -> int, x: T, s: seq<T>, tail: seq<T>)
    requires SortedBy(key, s) && s != [] && key(s[0]) < key(x)
    requires multiset(tail) == multiset(s[1..]) + multiset{x}
    ensures forall y :: y in tail ==> key(s[0]) <= key(y)
  {
    forall y | y in tail ensures key(s[0]) <= key(y) {
      assert y in multiset(tail);
      if y != x {
        HeadIsLeast(key, s, y);
      }
    }
  }

  lemma ConsSorted<T(!new)>(key: T -> int, h: T, t: seq<T>)
    requires SortedBy(key, t) && forall y :: y in t ==> key(h) <= key(y)
    ensures SortedBy(key, [h] + t)
  {
    var r := [h] + t;
    forall i, j | 0 <= i < j < |r| ensures key(r[i]) <= key(r[j]) {
      assert r[j] == t[j - 1];
      if i > 0 { assert r[i] == t[i - 1]; }
    }
  }

  /** Places `x` before the first element whose key is at least `x`'s. */
  function InsertBy<T(!new)>(key: T -> int, x: T, s: seq<T>): (r: seq<T>)
    requires SortedBy(key, s)
    ensures SortedBy(key, r)
    ensures multiset(r) == multiset(s) + multiset{x}
    decreases |s|
  {
    if s == [] || key(x) <= key(s[0]) then
      ConsSorted(key, x, s);
      [x] + s
    else
      var tail := InsertBy(key, x, s[1..]);
      InsertedTailBound(key, x, s, tail);
      ConsSorted(key, s[0], tail);
      assert s == [s[0]] + s[1..];
      [s[0]] + tail
  }

  /** Insertion sort on `key`: the same elements, in ascending order of `key`. */
  function SortBy<T(!new)>(key: T -> int, s: seq<T>): (r: seq<T>)
    ensures SortedBy(key, r)
    ensures multiset(r) == multiset(s)
    ensures |r| == |s|
    decreases |s|
  {
    if s == [] then []
    else
      assert s == [s[0]] + s[1..];
      var r := InsertBy(key, s[0], SortBy(key, s[1..]));
      assert |r| == |multiset(r)|;
      r
  }

  lemma SortByMembers<T(!new)>(key: T -> int, s: seq<T>)
    ensures forall x :: x in SortBy(key, s) <==> x in s
  {
    var r := SortBy(key, s);
    assert forall x :: x in r <==> x in multiset(r);
  }

  /** Sorting an already sorted sequence leaves it as it is. */
  lemma {:induction false} SortBySorted<T(!new)>(key: T -> int, s: seq<T>)
    requires SortedBy(key, s)
    ensures SortBy(key, s) == s
    decreases |s|
  {
    if s != [] {
      var tail := s[1..];
      SliceSorted(key, s, 1, |s|);
      calc {
        SortBy(key, s);
        InsertBy(key, s[0], SortBy(key, tail));
        { SortBySorted(key, tail); }
        InsertBy(key, s[0], tail);
        { assert tail != [] ==> tail[0] == s[1] && key(s[0]) <= key(tail[0]); }
        [s[0]] + tail;
        s;
      }
    }
  }
}
