/**
  The integer order of the standalone sorter, in either direction, and its
  merge sort. `Before(x, y, descending)` is the strict test the sorter's
  comparisons make: `x < y` ascending, `x > y` descending. A list sorted in
  that direction is unique up to its contents, so every integer sort that
  finishes computes the same list, `MergeSortSimple`.
  The sortedness lemmas here mirror those of `Records` and `KeyedSorting`, which
  order records by one chosen key field rather than integers by value.
 */
module IntOrder {

  predicate Before(x: int, y: int, descending: bool)
  {
    if descending then x > y else x < y
  }

  /** `x` may stand before `y`: `y` is not strictly before `x`. */
  predicate InOrder(x: int, y: int, descending: bool)
  {
    !Before(y, x, descending)
  }

  ghost predicate SortedInts(s: seq<int>, descending: bool)
  {
    forall i, j :: 0 <= i < j < |s| ==> InOrder(s[i], s[j], descending)
  }

  /** `x` may stand before every element of `s`. */
  ghost predicate AllAfter(x: int, s: seq<int>, descending: bool)
  {
    forall i :: 0 <= i < |s| ==> InOrder(x, s[i], descending)
  }

  lemma AllAfterMultiset(x: int, a: seq<int>, b: seq<int>, descending: bool)
    requires AllAfter(x, a, descending)
    requires multiset(b) <= multiset(a)
    ensures AllAfter(x, b, descending)
  {
    forall i | 0 <= i < |b|
      ensures InOrder(x, b[i], descending)
    {
      assert b[i] in multiset(a);
      var p :| 0 <= p < |a| && a[p] == b[i];
    }
  }

  lemma SortedCons(x: int, s: seq<int>, descending: bool)
    requires AllAfter(x, s, descending) && SortedInts(s, descending)
    ensures SortedInts([x] + s, descending)
  {
    var t := [x] + s;
    forall i, j | 0 <= i < j < |t|
      ensures InOrder(t[i], t[j], descending)
    {
      assert t[j] == s[j - 1];
      if i > 0 {
        assert t[i] == s[i - 1];
      }
    }
  }

  /**
    Two sorted lists with the same contents are the same list: the sorted
    order of a multiset of integers is unique.
   */
  lemma {:induction false} SortedIntsUnique(a: seq<int>, b: seq<int>, descending: bool)
    requires multiset(a) == multiset(b)
    requires SortedInts(a, descending) && SortedInts(b, descending)
    ensures a == b
    decreases |a|
  {
    assert |a| == |multiset(a)| == |b|;
    if |a| > 0 {
      SortedHeadsEqual(a, b, descending);
      SortedTail(a, descending);
      SortedTail(b, descending);
      TailMultiset(a);
      TailMultiset(b);
      SortedIntsUnique(a[1..], b[1..], descending);
      assert a == [a[0]] + a[1..] && b == [b[0]] + b[1..];
    }
  }

  /** Sorted lists with the same contents start with the same element. */
  lemma SortedHeadsEqual(a: seq<int>, b: seq<int>, descending: bool)
    requires |a| > 0 && |b| > 0 && multiset(a) == multiset(b)
    requires SortedInts(a, descending) && SortedInts(b, descending)
    ensures a[0] == b[0]
  {
    assert a[0] in multiset(b) && b[0] in multiset(a);
    var p :| 0 <= p < |b| && b[p] == a[0];
    var q :| 0 <= q < |a| && a[q] == b[0];
    assert InOrder(b[0], b[p], descending) || p == 0;
    assert InOrder(a[0], a[q], descending) || q == 0;
  }

  lemma SortedTail(s: seq<int>, descending: bool)
    requires |s| > 0 && SortedInts(s, descending)
    ensures SortedInts(s[1..], descending)
  {
    forall i, j | 0 <= i < j < |s[1..]|
      ensures InOrder(s[1..][i], s[1..][j], descending)
    {
      assert s[1..][i] == s[i + 1] && s[1..][j] == s[j + 1];
    }
  }

  lemma TailMultiset(s: seq<int>)
    requires |s| > 0
    ensures multiset(s[1..]) == multiset(s) - multiset{s[0]}
  {
    assert s == [s[0]] + s[1..];
  }

  /**
    The merge step of the sorter's merge sorts: take the front of `left`
    only when it is strictly before the front of `right`, otherwise the
    front of `right`; then append what remains. The result holds exactly
    the elements of both lists.
   */
  function MergeInts(left: seq<int>, right: seq<int>, descending: bool): (r: seq<int>)
    ensures |r| == |left| + |right|
    ensures multiset(r) == multiset(left) + multiset(right)
    decreases |left| + |right|
  {
    if |left| == 0 then
      assert left + right == right;
      right
    else if |right| == 0 then
      assert left + right == left;
      left
    else if Before(left[0], right[0], descending) then
      assert left == [left[0]] + left[1..];
      [left[0]] + MergeInts(left[1..], right, descending)
    else
      assert right == [right[0]] + right[1..];
      [right[0]] + MergeInts(left, right[1..], descending)
  }

  /** Merging two sorted lists gives a sorted list. */
  lemma {:induction false} MergeIntsSorted(left: seq<int>, right: seq<int>, descending: bool)
    requires SortedInts(left, descending) && SortedInts(right, descending)
    ensures SortedInts(MergeInts(left, right, descending), descending)
    decreases |left| + |right|
  {
    if |left| > 0 && |right| > 0 {
      if Before(left[0], right[0], descending) {
        SortedTail(left, descending);
        MergeIntsSorted(left[1..], right, descending);
        MergeTake(left, right, MergeInts(left[1..], right, descending), descending);
      } else {
        SortedTail(right, descending);
        MergeIntsSorted(left, right[1..], descending);
        MergeTake(right, left, MergeInts(left, right[1..], descending), descending);
      }
    }
  }

  /**
    Taking the front of `xs`, which is in order with the front of `other`,
    ahead of a sorted merge of the rest keeps the merge sorted.
   */
  lemma MergeTake(xs: seq<int>, other: seq<int>, rest: seq<int>, descending: bool)
    requires |xs| > 0 && |other| > 0
    requires SortedInts(xs, descending) && SortedInts(other, descending)
    requires InOrder(xs[0], other[0], descending)
    requires multiset(rest) == multiset(xs[1..]) + multiset(other) && SortedInts(rest, descending)
    ensures multiset([xs[0]] + rest) == multiset(xs) + multiset(other)
    ensures SortedInts([xs[0]] + rest, descending)
  {
    assert xs == [xs[0]] + xs[1..];
    assert AllAfter(xs[0], xs[1..] + other, descending) by {
      forall i | 0 <= i < |xs[1..] + other|
        ensures InOrder(xs[0], (xs[1..] + other)[i], descending)
      {
        if i < |xs| - 1 {
          assert (xs[1..] + other)[i] == xs[i + 1];
        } else {
          assert (xs[1..] + other)[i] == other[i - |xs| + 1];
          assert InOrder(other[0], other[i - |xs| + 1], descending) || i == |xs| - 1;
        }
      }
    }
    AllAfterMultiset(xs[0], xs[1..] + other, rest, descending);
    SortedCons(xs[0], rest, descending);
  }

  /**
    `merge_sort_recursive_simple`: lists of at most one element are left as
    they are; longer ones are split at `len // 2`, both halves sorted and
    merged. The result is a sorted rearrangement of `s`.
   */
  function MergeSortSimple(s: seq<int>, descending: bool): (r: seq<int>)
    ensures |r| == |s|
    ensures multiset(r) == multiset(s)
    ensures SortedInts(r, descending)
    decreases |s|
  {
    if |s| <= 1 then s
    else
      var mid := |s| / 2;
      var left, right := MergeSortSimple(s[..mid], descending), MergeSortSimple(s[mid..], descending);
      assert s == s[..mid] + s[mid..];
      MergeIntsSorted(left, right, descending);
      MergeInts(left, right, descending)
  }

  /**
    Any sorted rearrangement of `s` is the merge sort of `s`; in particular
    a list that is already sorted is its own merge sort.
   */
  lemma SortedIsMergeSort(s: seq<int>, r: seq<int>, descending: bool)
    requires multiset(r) == multiset(s) && SortedInts(r, descending)
    ensures r == MergeSortSimple(s, descending)
  {
    SortedIntsUnique(r, MergeSortSimple(s, descending), descending);
  }

  /** A sequence is sorted when each element is in order with its neighbour. */
  lemma {:induction false} AdjacentInOrderSorted(s: seq<int>, descending: bool)
    requires forall p :: 0 <= p < |s| - 1 ==> InOrder(s[p], s[p + 1], descending)
    ensures SortedInts(s, descending)
  {
    if |s| > 1 {
      AdjacentInOrderSorted(s[1..], descending);
      assert AllAfter(s[0], s[1..], descending) by {
        forall i | 0 <= i < |s[1..]|
          ensures InOrder(s[0], s[1..][i], descending)
        {
          assert InOrder(s[1], s[1..][i], descending) || i == 0;
        }
      }
      SortedCons(s[0], s[1..], descending);
      assert [s[0]] + s[1..] == s;
    }
  }

  /** A sorted front, a sorted back, and every front element in order with every back one. */
  lemma SortedSplit(s: seq<int>, m: nat, descending: bool)
    requires m <= |s|
    requires SortedInts(s[..m], descending) && SortedInts(s[m..], descending)
    requires forall p, q :: 0 <= p < m <= q < |s| ==> InOrder(s[p], s[q], descending)
    ensures SortedInts(s, descending)
  {
    forall i, j | 0 <= i < j < |s|
      ensures InOrder(s[i], s[j], descending)
    {
      if j < m {
        assert s[..m][i] == s[i] && s[..m][j] == s[j];
      } else if m <= i {
        assert s[m..][i - m] == s[i] && s[m..][j - m] == s[j];
      }
    }
  }

  /**
    The loop invariant of a bubble sort: the elements from `m` on are sorted
    and in order with every element before them.
   */
  ghost predicate SortedBack(a: seq<int>, m: nat, descending: bool)
    requires m <= |a|
  {
    && SortedInts(a[m..], descending)
    && forall p, q :: 0 <= p < m <= q < |a| ==> InOrder(a[p], a[q], descending)
  }

  lemma SortedAdjacent(a: seq<int>, m: nat, descending: bool)
    requires m <= |a| && SortedInts(a, descending)
    ensures forall p :: 0 <= p < m - 1 ==> InOrder(a[p], a[p + 1], descending)
  {
  }

  /** A pass that swapped nothing saw a front in order, so the whole list is sorted. */
  lemma PassFoundSorted(a: seq<int>, m: nat, descending: bool)
    requires 0 < m <= |a|
    requires forall p :: 0 <= p < m - 1 ==> InOrder(a[p], a[p + 1], descending)
    requires SortedBack(a, m, descending)
    ensures SortedInts(a, descending)
  {
    var front := a[..m];
    assert forall p :: 0 <= p < m ==> front[p] == a[p];
    AdjacentInOrderSorted(front, descending);
    SortedSplit(a, m, descending);
  }

  /** After a pass over `b[..m]`, the sorted back of `b` grows by one element. */
  lemma PassGrowsBack(b: seq<int>, m: nat, descending: bool)
    requires 0 < m <= |b|
    requires SortedInts(b[m..], descending)
    requires forall p, q :: 0 <= p < m <= q < |b| ==> InOrder(b[p], b[q], descending)
    requires forall p :: 0 <= p < m ==> InOrder(b[p], b[m - 1], descending)
    ensures SortedBack(b, m - 1, descending)
  {
    var back := b[m..];
    assert AllAfter(b[m - 1], back, descending) by {
      forall i | 0 <= i < |back|
        ensures InOrder(b[m - 1], back[i], descending)
      {
        assert back[i] == b[m + i];
      }
    }
    SortedCons(b[m - 1], back, descending);
    assert b[m - 1..] == [b[m - 1]] + back;
  }
}
