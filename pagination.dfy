/** `paginate_questions`: a fixed-size page cut from a result list with Python's slice rules. */
module Pagination {
  import opened Sequences

  const QUESTIONS_PER_PAGE: nat := 10

  function Min(a: int, b: int): int { if a <= b then a else b }

  /** Where a slice bound `i` lands in a list of length `n`: Python counts a negative bound from
      the end and clamps what is still out of range to `0..n`. */
  function SliceBound(i: int, n: nat): nat
  {
    if i < 0 then (if n + i < 0 then 0 else n + i)
    else Min(i, n)
  }

  /** Python's `s[start:stop]` with step 1. */
  function PySlice<T>(s: seq<T>, start: int, stop: int): seq<T>
  {
    var lo, hi := SliceBound(start, |s|), SliceBound(stop, |s|);
    if lo < hi then s[lo..hi] else []
  }

  /** Python's slice rules on indices: in-range bounds slice as written, a negative bound counts
      from the end, a start past the end or a non-negative stop at or below the start selects
      nothing, and a stop of 0 never counts from the end. */
  lemma PySliceIndices<T>(s: seq<T>, start: int, stop: int)
    ensures 0 <= start <= stop <= |s| ==> PySlice(s, start, stop) == s[start..stop]
    ensures 0 <= start <= stop < |s| ==> PySlice(s, start - |s|, stop - |s|) == s[start..stop]
    ensures 0 <= stop <= start || |s| <= start ==> PySlice(s, start, stop) == []
    ensures PySlice(s, start, 0) == []
  {
  }

  /** `paginate_questions(request, selection)` for the page number the request carries. */
  function Paginate<T>(page: int, items: seq<T>): (r: seq<T>)
    ensures |r| <= QUESTIONS_PER_PAGE && |r| <= |items|
    ensures forall x :: x in r ==> x in items
    ensures page == 0 ==> r == []
    ensures page >= 1 ==>
      r == items[Min((page - 1) * QUESTIONS_PER_PAGE, |items|)..Min(page * QUESTIONS_PER_PAGE, |items|)]
    ensures page >= 1 ==> (r == [] <==> (page - 1) * QUESTIONS_PER_PAGE >= |items|)
  {
    var start := (page - 1) * QUESTIONS_PER_PAGE;
    var end := start + QUESTIONS_PER_PAGE;
    var r := PySlice(items, start, end);
    assert forall x :: x in r ==> x in items by {
      forall x | x in r ensures x in items {
        var k :| 0 <= k < |r| && r[k] == x;
        assert r[k] == items[SliceBound(start, |items|) + k];
      }
    }
    assert page >= 1 ==>
      r == items[Min((page - 1) * QUESTIONS_PER_PAGE, |items|)..Min(page * QUESTIONS_PER_PAGE, |items|)];
    r
  }

  /** A page of a sorted list is sorted, on every page number (negative ones included). */
  lemma PaginateSorted<T(!new)>(key: T -> int, page: int, items: seq<T>)
    requires SortedBy(key, items)
    ensures SortedBy(key, Paginate(page, items))
  {
    var r := Paginate(page, items);
    var lo := SliceBound((page - 1) * QUESTIONS_PER_PAGE, |items|);
    assert forall k :: 0 <= k < |r| ==> r[k] == items[lo + k];
  }

  /** Python's negative indices: page -1 of 25 items is items 5 to 14. */
  lemma NegativePageExample<T>(items: seq<T>)
    requires |items| == 25
    ensures Paginate(-1, items) == items[5..15]
  {
  }

  /** Among pages 1, 2, ..., the item at index `i` lies on page `i / 10 + 1`, at position `i % 10`,
      and on no other page. */
  lemma PageOfIndex<T>(items: seq<T>, i: int, page: int)
    requires 0 <= i < |items| && page >= 1
    ensures var lo, hi := Min((page - 1) * QUESTIONS_PER_PAGE, |items|), Min(page * QUESTIONS_PER_PAGE, |items|);
            (lo <= i < hi) <==> page == i / QUESTIONS_PER_PAGE + 1
    ensures page == i / QUESTIONS_PER_PAGE + 1 ==>
            i % QUESTIONS_PER_PAGE < |Paginate(page, items)| &&
            Paginate(page, items)[i % QUESTIONS_PER_PAGE] == items[i]
  {
    var q := i / QUESTIONS_PER_PAGE;
    assert i == q * QUESTIONS_PER_PAGE + i % QUESTIONS_PER_PAGE;
    if page == q + 1 {
      assert (page - 1) * QUESTIONS_PER_PAGE == q * QUESTIONS_PER_PAGE;
    } else if page <= q {
      assert page * QUESTIONS_PER_PAGE <= q * QUESTIONS_PER_PAGE;
    } else {
      assert (page - 1) * QUESTIONS_PER_PAGE >= (q + 1) * QUESTIONS_PER_PAGE;
    }
  }

  /** Every item of the list is on some page numbered 1 or more. */
  lemma OnSomePage<T>(items: seq<T>, x: T)
    requires x in items
    ensures exists page :: page >= 1 && x in Paginate(page, items)
  {
    var i :| 0 <= i < |items| && items[i] == x;
    PageOfIndex(items, i, i / QUESTIONS_PER_PAGE + 1);
    assert Paginate(i / QUESTIONS_PER_PAGE + 1, items)[i % QUESTIONS_PER_PAGE] == x;
  }

  /** The number of non-empty pages for `n` items: the ceiling of `n / 10`. */
  function PageCount(n: nat): nat
  {
    (n + QUESTIONS_PER_PAGE - 1) / QUESTIONS_PER_PAGE
  }

  /** Page `page >= 1` is non-empty exactly when it is one of the first `PageCount(n)` pages. */
  lemma PageNonEmpty<T>(items: seq<T>, page: int)
    requires page >= 1
    ensures Paginate(page, items) != [] <==> page <= PageCount(|items|)
  {
    var n := |items|;
    var c := PageCount(n);
    assert c * QUESTIONS_PER_PAGE <= n + QUESTIONS_PER_PAGE - 1 < (c + 1) * QUESTIONS_PER_PAGE;
    if page <= c {
      assert (page - 1) * QUESTIONS_PER_PAGE <= (c - 1) * QUESTIONS_PER_PAGE;
    } else {
      assert (page - 1) * QUESTIONS_PER_PAGE >= c * QUESTIONS_PER_PAGE;
    }
  }

  /** Pages 1 to k, one after another. */
  function Pages<T>(items: seq<T>, k: nat): seq<T>
  {
    if k == 0 then [] else Pages(items, k - 1) + Paginate(k, items)
  }

  lemma {:induction false} PagesPrefix<T>(items: seq<T>, k: nat)
    ensures Pages(items, k) == items[..Min(k * QUESTIONS_PER_PAGE, |items|)]
  {
    if k > 0 {
      PagesPrefix(items, k - 1);
      var a := Min((k - 1) * QUESTIONS_PER_PAGE, |items|);
      var b := Min(k * QUESTIONS_PER_PAGE, |items|);
      assert items[..b] == items[..a] + items[a..b];
    }
  }

  /** Pages 1 to ceil(n / 10), concatenated, give back the whole list in order. */
  lemma PagesReassemble<T>(items: seq<T>)
    ensures Pages(items, PageCount(|items|)) == items
  {
    var c := PageCount(|items|);
    PagesPrefix(items, c);
    assert c * QUESTIONS_PER_PAGE >= |items|;
  }
}
