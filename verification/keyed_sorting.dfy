/**
  The record sorts of the exam application: bubble sort, insertion sort and
  merge sort over a list of records, ordered by one column, ascending or
  descending.

  Python's bubble and insertion sorts rearrange the list they are given and
  return it; here the list is a value, so each method returns the rearranged
  contents. Merge sort builds a new list, which is what its function does.
 */
module KeyedSorting {
  import opened Records

  /**
    `_merge`: repeatedly take the front of `left` unless the front of `right`
    strictly precedes it, so equal keys are taken from `left` first; then
    append what remains. Given two sorted lists, the result is sorted, holds
    exactly their records, and every key group is the left group followed by
    the right group.
   */
  function Merge(left: seq<Record>, right: seq<Record>, key: SortKey, descending: bool): (r: seq<Record>)
    requires Sorted(left, key, descending) && Sorted(right, key, descending)
    ensures |r| == |left| + |right|
    ensures multiset(r) == multiset(left) + multiset(right)
    ensures Sorted(r, key, descending)
    ensures forall v :: WithKey(r, key, v) == WithKey(left, key, v) + WithKey(right, key, v)
    decreases |left| + |right|
  {
    if |left| == 0 then
      assert left + right == right;
      right
    else if |right| == 0 then
      assert left + right == left;
      left
    else if !Precedes(KeyOf(right[0], key), KeyOf(left[0], key), descending) then
      var rest := Merge(left[1..], right, key, descending);
      MergeTakeLeft(left, right, rest, key, descending);
      [left[0]] + rest
    else
      var rest := Merge(left, right[1..], key, descending);
      MergeTakeRight(left, right, rest, key, descending);
      [right[0]] + rest
  }

  lemma MergeTakeLeft(left: seq<Record>, right: seq<Record>, rest: seq<Record>, key: SortKey, descending: bool)
    requires |left| > 0 && |right| > 0
    requires Sorted(left, key, descending) && Sorted(right, key, descending)
    requires !Precedes(KeyOf(right[0], key), KeyOf(left[0], key), descending)
    requires multiset(rest) == multiset(left[1..]) + multiset(right) && Sorted(rest, key, descending)
    requires forall v :: WithKey(rest, key, v) == WithKey(left[1..], key, v) + WithKey(right, key, v)
    ensures multiset([left[0]] + rest) == multiset(left) + multiset(right)
    ensures Sorted([left[0]] + rest, key, descending)
    ensures forall v :: WithKey([left[0]] + rest, key, v) == WithKey(left, key, v) + WithKey(right, key, v)
  {
    assert multiset([left[0]] + rest) == multiset(left) + multiset(right) by {
      assert left == [left[0]] + left[1..];
    }
    assert Sorted([left[0]] + rest, key, descending) by {
      assert left == [left[0]] + left[1..];
      MergeFrontSorted(left, right, rest, key, descending);
    }
    MergeLeftKeyOrder(left, right, rest, key);
  }

  lemma MergeTakeRight(left: seq<Record>, right: seq<Record>, rest: seq<Record>, key: SortKey, descending: bool)
    requires |left| > 0 && |right| > 0
    requires Sorted(left, key, descending) && Sorted(right, key, descending)
    requires Precedes(KeyOf(right[0], key), KeyOf(left[0], key), descending)
    requires multiset(rest) == multiset(left) + multiset(right[1..]) && Sorted(rest, key, descending)
    requires forall v :: WithKey(rest, key, v) == WithKey(left, key, v) + WithKey(right[1..], key, v)
    ensures multiset([right[0]] + rest) == multiset(left) + multiset(right)
    ensures Sorted([right[0]] + rest, key, descending)
    ensures forall v :: WithKey([right[0]] + rest, key, v) == WithKey(left, key, v) + WithKey(right, key, v)
  {
    assert multiset([right[0]] + rest) == multiset(left) + multiset(right) by {
      assert right == [right[0]] + right[1..];
    }
    assert Sorted([right[0]] + rest, key, descending) by {
      PrecedesStrictTotalOrder(KeyOf(right[0], key), KeyOf(left[0], key), KeyOf(left[0], key), descending);
      assert right == [right[0]] + right[1..];
      MergeFrontSorted(right, left, rest, key, descending);
    }
    FrontKeyAbsent(left, right[0], key, descending);
    MergeRightKeyOrder(left, right, rest, key);
  }

  /** Taking the front of `s` (which is in order with the front of `t`) keeps the result sorted. */
  lemma MergeFrontSorted(s: seq<Record>, t: seq<Record>, rest: seq<Record>, key: SortKey, descending: bool)
    requires |s| > 0 && |t| > 0
    requires Sorted(s, key, descending) && Sorted(t, key, descending) && Sorted(rest, key, descending)
    requires InOrder(s[0], t[0], key, descending)
    requires multiset(rest) == multiset(s[1..]) + multiset(t)
    ensures Sorted([s[0]] + rest, key, descending)
  {
    forall i | 0 <= i < |t|
      ensures InOrder(s[0], t[i], key, descending)
    {
      if i > 0 {
        InOrderTransitive(s[0], t[0], t[i], key, descending);
      }
    }
    assert AllAfter(s[0], s[1..], key, descending) by {
      forall i | 0 <= i < |s[1..]|
        ensures InOrder(s[0], s[1..][i], key, descending)
      {
        assert s[1..][i] == s[i + 1];
      }
    }
    AllAfterMultiset(s[0], s[1..], t, rest, key, descending);
    SortedCons(s[0], rest, key, descending);
  }

  lemma MergeLeftKeyOrder(left: seq<Record>, right: seq<Record>, rest: seq<Record>, key: SortKey)
    requires |left| > 0
    requires forall v :: WithKey(rest, key, v) == WithKey(left[1..], key, v) + WithKey(right, key, v)
    ensures forall v :: WithKey([left[0]] + rest, key, v) == WithKey(left, key, v) + WithKey(right, key, v)
  {
    forall v
      ensures WithKey([left[0]] + rest, key, v) == WithKey(left, key, v) + WithKey(right, key, v)
    {
      MergeLeftKeyGroup(left, right, rest, key, v);
    }
  }

  lemma MergeLeftKeyGroup(left: seq<Record>, right: seq<Record>, rest: seq<Record>, key: SortKey, v: Field)
    requires |left| > 0
    requires WithKey(rest, key, v) == WithKey(left[1..], key, v) + WithKey(right, key, v)
    ensures WithKey([left[0]] + rest, key, v) == WithKey(left, key, v) + WithKey(right, key, v)
  {
    var l0 := left[0];
    var h := if KeyOf(l0, key) == v then [l0] else [];
    var wl, wr := WithKey(left[1..], key, v), WithKey(right, key, v);
    assert WithKey(left, key, v) == h + wl by {
      WithKeyCons(l0, left[1..], key, v);
      assert [l0] + left[1..] == left;
    }
    WithKeyCons(l0, rest, key, v);
    RecordsAssoc(h, wl, wr);
  }

  lemma RecordsAssoc(a: seq<Record>, b: seq<Record>, c: seq<Record>)
    ensures a + (b + c) == (a + b) + c
  {
  }

  /** A key strictly before the front of a sorted list is the key of none of its records. */
  lemma FrontKeyAbsent(left: seq<Record>, x: Record, key: SortKey, descending: bool)
    requires |left| > 0 && Sorted(left, key, descending)
    requires Precedes(KeyOf(x, key), KeyOf(left[0], key), descending)
    ensures forall i :: 0 <= i < |left| ==> KeyOf(left[i], key) != KeyOf(x, key)
  {
    forall i | 0 <= i < |left|
      ensures KeyOf(left[i], key) != KeyOf(x, key)
    {
      if i > 0 {
        assert InOrder(left[0], left[i], key, descending);
        PrecedesThenInOrder(KeyOf(x, key), KeyOf(left[0], key), KeyOf(left[i], key), descending);
      }
      PrecedesStrictTotalOrder(KeyOf(x, key), KeyOf(x, key), KeyOf(x, key), descending);
    }
  }

  lemma MergeRightKeyOrder(left: seq<Record>, right: seq<Record>, rest: seq<Record>, key: SortKey)
    requires |right| > 0
    requires forall i :: 0 <= i < |left| ==> KeyOf(left[i], key) != KeyOf(right[0], key)
    requires forall v :: WithKey(rest, key, v) == WithKey(left, key, v) + WithKey(right[1..], key, v)
    ensures forall v :: WithKey([right[0]] + rest, key, v) == WithKey(left, key, v) + WithKey(right, key, v)
  {
    forall v
      ensures WithKey([right[0]] + rest, key, v) == WithKey(left, key, v) + WithKey(right, key, v)
    {
      if KeyOf(right[0], key) == v {
        WithKeyNone(left, key, v);
      }
      MergeRightKeyGroup(left, right, rest, key, v);
    }
  }

  lemma MergeRightKeyGroup(left: seq<Record>, right: seq<Record>, rest: seq<Record>, key: SortKey, v: Field)
    requires |right| > 0
    requires KeyOf(right[0], key) == v ==> WithKey(left, key, v) == []
    requires WithKey(rest, key, v) == WithKey(left, key, v) + WithKey(right[1..], key, v)
    ensures WithKey([right[0]] + rest, key, v) == WithKey(left, key, v) + WithKey(right, key, v)
  {
    var r0 := right[0];
    var h := if KeyOf(r0, key) == v then [r0] else [];
    var wl, wr := WithKey(left, key, v), WithKey(right[1..], key, v);
    WithKeyCons(r0, rest, key, v);
    WithKeyCons(r0, right[1..], key, v);
    assert [r0] + right[1..] == right;
    CommuteWithEmpty(h, wl, wr);
  }

  lemma CommuteWithEmpty<T>(h: seq<T>, a: seq<T>, b: seq<T>)
    requires h == [] || a == []
    ensures h + (a + b) == a + (h + b)
  {
  }

  /**
    `merge_sort`: lists of length 0 or 1 come back unchanged; longer ones are
    split at `len // 2`, both halves sorted, and the results merged. The
    result is a sorted rearrangement of `data` that keeps every key group in
    its original order.
   */
  function MergeSort(data: seq<Record>, key: SortKey, descending: bool): (r: seq<Record>)
    requires UniformKeys(data, key)
    ensures |r| == |data|
    ensures multiset(r) == multiset(data)
    ensures Sorted(r, key, descending)
    ensures SameKeyOrder(data, r, key)
    decreases |data|
  {
    if |data| <= 1 then data
    else
      var mid := |data| / 2;
      var left := MergeSort(data[..mid], key, descending);
      var right := MergeSort(data[mid..], key, descending);
      assert data == data[..mid] + data[mid..];
      var r := Merge(left, right, key, descending);
      assert SameKeyOrder(data, r, key) by {
        forall v
          ensures WithKey(r, key, v) == WithKey(data, key, v)
        {
          WithKeyAppend(data[..mid], data[mid..], key, v);
        }
      }
      r
  }

  /** `merge_sort` hands back lists of at most one record unchanged. */
  lemma MergeSortShort(data: seq<Record>, key: SortKey, descending: bool)
    requires |data| <= 1
    ensures MergeSort(data, key, descending) == data
  {
  }

  /**
    One pass of `bubble_sort` over the front `a[..m]`: neighbours are swapped
    when the second's key strictly precedes the first's. Afterwards the last
    front position holds a record in order with every front record, the back
    is untouched, and a pass that swapped nothing found the front already in
    order.
   */
  method BubblePass(a: seq<Record>, m: nat, key: SortKey, descending: bool) returns (b: seq<Record>, swapped: bool)
    requires 0 < m <= |a|
    requires forall p, q :: 0 <= p < m <= q < |a| ==> InOrder(a[p], a[q], key, descending)
    ensures |b| == |a| && multiset(b) == multiset(a) && SameKeyOrder(a, b, key)
    ensures b[m..] == a[m..]
    ensures forall p, q :: 0 <= p < m <= q < |b| ==> InOrder(b[p], b[q], key, descending)
    ensures forall p :: 0 <= p < m ==> InOrder(b[p], b[m - 1], key, descending)
    ensures !swapped ==> b == a
    ensures !swapped <==> forall p :: 0 <= p < m - 1 ==> InOrder(a[p], a[p + 1], key, descending)
  {
    b := a;
    swapped := false;
    var j := 0;
    while j < m - 1
      invariant 0 <= j <= m - 1 && |b| == |a|
      invariant multiset(b) == multiset(a) && SameKeyOrder(a, b, key)
      invariant b[m..] == a[m..]
      invariant forall p, q :: 0 <= p < m <= q < |b| ==> InOrder(b[p], b[q], key, descending)
      invariant forall p :: 0 <= p < j ==> InOrder(b[p], b[j], key, descending)
      invariant !swapped ==> b == a && forall p :: 0 <= p < j ==> InOrder(a[p], a[p + 1], key, descending)
      invariant swapped ==> exists p :: 0 <= p < j && !InOrder(a[p], a[p + 1], key, descending)
    {
      if Precedes(KeyOf(b[j + 1], key), KeyOf(b[j], key), descending) {
        var c := b[j := b[j + 1]][j + 1 := b[j]];
        BubbleSwapStep(a, b, c, m, j, key, descending);
        if !swapped {
          assert !InOrder(a[j], a[j + 1], key, descending);
        }
        b := c;
        swapped := true;
      } else {
        forall p | 0 <= p < j
          ensures InOrder(b[p], b[j + 1], key, descending)
        {
          InOrderTransitive(b[p], b[j], b[j + 1], key, descending);
        }
      }
      j := j + 1;
    }
    PrecedesStrictTotalOrder(KeyOf(b[j], key), KeyOf(b[j], key), KeyOf(b[j], key), descending);
  }

  /** Swapping an out-of-order neighbour pair keeps every invariant of the pass. */
  lemma BubbleSwapStep(a: seq<Record>, b: seq<Record>, c: seq<Record>, m: nat, j: nat, key: SortKey, descending: bool)
    requires j + 1 < m <= |a| == |b|
    requires multiset(b) == multiset(a) && SameKeyOrder(a, b, key)
    requires b[m..] == a[m..]
    requires forall p, q :: 0 <= p < m <= q < |b| ==> InOrder(b[p], b[q], key, descending)
    requires forall p :: 0 <= p < j ==> InOrder(b[p], b[j], key, descending)
    requires Precedes(KeyOf(b[j + 1], key), KeyOf(b[j], key), descending)
    requires c == b[j := b[j + 1]][j + 1 := b[j]]
    ensures |c| == |a| && multiset(c) == multiset(a) && SameKeyOrder(a, c, key)
    ensures c[m..] == a[m..]
    ensures forall p, q :: 0 <= p < m <= q < |c| ==> InOrder(c[p], c[q], key, descending)
    ensures forall p :: 0 <= p < j + 1 ==> InOrder(c[p], c[j + 1], key, descending)
  {
    PrecedesStrictTotalOrder(KeyOf(b[j + 1], key), KeyOf(b[j], key), KeyOf(b[j], key), descending);
    SwapKeepsKeyOrder(b, j, key);
    SameKeyOrderTransitive(a, b, c, key);
    assert c[m..] == b[m..];
  }

  /**
    `bubble_sort`: passes over a shrinking front of the list, stopping after
    the first pass that swaps nothing. `passes` counts the passes made. The
    result is a stable sort of `data` (by `StableSortUnique`, the only one),
    and an already sorted list comes back unchanged after a single pass.
   */
  method BubbleSort(data: seq<Record>, key: SortKey, descending: bool) returns (r: seq<Record>, passes: nat)
    requires UniformKeys(data, key)
    ensures multiset(r) == multiset(data)
    ensures Sorted(r, key, descending)
    ensures SameKeyOrder(data, r, key)
    ensures passes <= |data|
    ensures Sorted(data, key, descending) ==> r == data && passes == (if |data| == 0 then 0 else 1)
  {
    r, passes := BubblePasses(data, key, descending);
  }

  /**
    The loop of `bubble_sort`. It needs no comparable keys here, since the
    order on fields is total; Python's `TypeError` is the requires above.
   */
  method BubblePasses(data: seq<Record>, key: SortKey, descending: bool) returns (r: seq<Record>, passes: nat)
    ensures multiset(r) == multiset(data)
    ensures Sorted(r, key, descending)
    ensures SameKeyOrder(data, r, key)
    ensures passes <= |data|
    ensures Sorted(data, key, descending) ==> r == data && passes == (if |data| == 0 then 0 else 1)
  {
    var n := |data|;
    var a := data;
    var i := 0;
    passes := 0;
    while i < n
      invariant 0 <= i <= n && |a| == n && passes == i
      invariant multiset(a) == multiset(data)
      invariant SameKeyOrder(data, a, key)
      invariant SortedBack(a, n - i, key, descending)
      invariant Sorted(data, key, descending) ==> a == data && i == 0
    {
      passes := passes + 1;
      if Sorted(data, key, descending) {
        SortedAdjacent(a, n - i, key, descending);
      }
      var b, swapped := BubblePass(a, n - i, key, descending);
      SameKeyOrderTransitive(data, a, b, key);
      if !swapped {
        PassFoundSorted(a, n - i, key, descending);
        break;
      }
      assert b[n - i..] == a[n - i..];
      PassGrowsBack(b, n - i, key, descending);
      a := b;
      i := i + 1;
    }
    assert a[0..] == a;
    r := a;
  }

  /**
    The loop invariant of `bubble_sort`: the records from `m` on are sorted
    and in order with every record before them.
   */
  ghost predicate SortedBack(a: seq<Record>, m: nat, key: SortKey, descending: bool)
    requires m <= |a|
  {
    && Sorted(a[m..], key, descending)
    && forall p, q :: 0 <= p < m <= q < |a| ==> InOrder(a[p], a[q], key, descending)
  }

  lemma SortedAdjacent(a: seq<Record>, m: nat, key: SortKey, descending: bool)
    requires m <= |a| && Sorted(a, key, descending)
    ensures forall p :: 0 <= p < m - 1 ==> InOrder(a[p], a[p + 1], key, descending)
  {
  }

  /** A pass that swapped nothing saw a front in order, so the whole list is sorted. */
  lemma PassFoundSorted(a: seq<Record>, m: nat, key: SortKey, descending: bool)
    requires 0 < m <= |a|
    requires forall p :: 0 <= p < m - 1 ==> InOrder(a[p], a[p + 1], key, descending)
    requires SortedBack(a, m, key, descending)
    ensures Sorted(a, key, descending)
  {
    var front := a[..m];
    assert forall p :: 0 <= p < m ==> front[p] == a[p];
    AdjacentInOrderSorted(front, key, descending);
    SortedSplit(a, m, key, descending);
  }

  /** After a pass over `b[..m]`, the sorted back of `b` grows by one record. */
  lemma PassGrowsBack(b: seq<Record>, m: nat, key: SortKey, descending: bool)
    requires 0 < m <= |b|
    requires Sorted(b[m..], key, descending)
    requires forall p, q :: 0 <= p < m <= q < |b| ==> InOrder(b[p], b[q], key, descending)
    requires forall p :: 0 <= p < m ==> InOrder(b[p], b[m - 1], key, descending)
    ensures SortedBack(b, m - 1, key, descending)
  {
    var back := b[m..];
    assert AllAfter(b[m - 1], back, key, descending) by {
      forall i | 0 <= i < |back|
        ensures InOrder(b[m - 1], back[i], key, descending)
      {
        assert back[i] == b[m + i];
      }
    }
    SortedCons(b[m - 1], back, key, descending);
    assert b[m - 1..] == [b[m - 1]] + back;
  }

  /**
    The inner loop of `insertion_sort` for position `i`: records before `i`
    whose key the current record's key strictly precedes are shifted one
    place right, and the current record drops into the gap at `k`.
   */
  method InsertShift(a: seq<Record>, i: nat, key: SortKey, descending: bool) returns (b: seq<Record>, k: nat)
    requires 0 < i < |a|
    ensures k <= i
    ensures b == a[..k] + [a[i]] + a[k..i] + a[i + 1..]
    ensures forall q :: k <= q < i ==> Precedes(KeyOf(a[i], key), KeyOf(a[q], key), descending)
    ensures k > 0 ==> !Precedes(KeyOf(a[i], key), KeyOf(a[k - 1], key), descending)
  {
    var cur := a[i];
    b := a;
    var j: int := i - 1;
    while j >= 0
      invariant -1 <= j <= i - 1 && |b| == |a|
      invariant b[..j + 1] == a[..j + 1]
      invariant b[j + 2..i + 1] == a[j + 1..i]
      invariant b[i + 1..] == a[i + 1..]
      invariant forall q :: j + 1 <= q < i ==> Precedes(KeyOf(cur, key), KeyOf(a[q], key), descending)
      decreases j + 1
    {
      if Precedes(KeyOf(cur, key), KeyOf(b[j], key), descending) {
        assert b[j] == a[j];
        b := b[j + 1 := b[j]];
        j := j - 1;
      } else {
        assert b[j] == a[j];
        break;
      }
    }
    k := j + 1;
    b := b[k := cur];
    assert b == a[..k] + [a[i]] + a[k..i] + a[i + 1..] by {
      assert b[..k] == a[..k];
      assert b[k + 1..i + 1] == a[k..i];
    }
  }

  /**
    Dropping `a[i]` into the gap at `k` extends the sorted front `a[..i]` to
    a sorted front `a[..i + 1]`, and keeps every key group in order because
    the record only moves past records with strictly later keys.
   */
  lemma InsertStep(a: seq<Record>, b: seq<Record>, i: nat, k: nat, key: SortKey, descending: bool)
    requires k <= i < |a|
    requires Sorted(a[..i], key, descending)
    requires b == a[..k] + [a[i]] + a[k..i] + a[i + 1..]
    requires forall q :: k <= q < i ==> Precedes(KeyOf(a[i], key), KeyOf(a[q], key), descending)
    requires k > 0 ==> !Precedes(KeyOf(a[i], key), KeyOf(a[k - 1], key), descending)
    ensures |b| == |a| && multiset(b) == multiset(a)
    ensures Sorted(b[..i + 1], key, descending)
    ensures SameKeyOrder(a, b, key)
  {
    InsertMoves(a, b, i, k);
    var x, mid := a[i], a[k..i];
    forall q | 0 <= q < |mid|
      ensures Precedes(KeyOf(x, key), KeyOf(mid[q], key), descending)
    {
      assert mid[q] == a[k + q];
    }
    InsertKeyOrder(a[..k], mid, x, a[i + 1..], key, descending);
    InsertSorted(a[..i], x, k, key, descending);
  }

  /** Moving `a[i]` back to `k` rearranges `a`, and its first `i + 1` are the insertion. */
  lemma InsertMoves(a: seq<Record>, b: seq<Record>, i: nat, k: nat)
    requires k <= i < |a|
    requires b == a[..k] + [a[i]] + a[k..i] + a[i + 1..]
    ensures a == a[..k] + a[k..i] + [a[i]] + a[i + 1..]
    ensures |b| == |a| && multiset(b) == multiset(a)
    ensures b[..i + 1] == a[..i][..k] + [a[i]] + a[..i][k..]
  {
    var x := a[i];
    var front, mid, back := a[..k], a[k..i], a[i + 1..];
    assert a == front + mid + [x] + back by {
      assert a == a[..i] + [x] + back;
      assert a[..i] == front + mid;
    }
    assert b[..i + 1] == a[..i][..k] + [x] + a[..i][k..] by {
      assert a[..i][..k] == front && a[..i][k..] == mid;
      assert b[..i + 1] == front + [x] + mid;
    }
  }

  lemma InsertKeyOrder(front: seq<Record>, mid: seq<Record>, x: Record, back: seq<Record>, key: SortKey, descending: bool)
    requires forall q :: 0 <= q < |mid| ==> Precedes(KeyOf(x, key), KeyOf(mid[q], key), descending)
    ensures SameKeyOrder(front + mid + [x] + back, front + [x] + mid + back, key)
  {
    forall v
      ensures WithKey(front + [x] + mid + back, key, v) == WithKey(front + mid + [x] + back, key, v)
    {
      InsertGroup(front, mid, x, back, key, descending, v);
    }
  }

  lemma InsertSorted(s: seq<Record>, x: Record, k: nat, key: SortKey, descending: bool)
    requires k <= |s| && Sorted(s, key, descending)
    requires forall q :: k <= q < |s| ==> Precedes(KeyOf(x, key), KeyOf(s[q], key), descending)
    requires k > 0 ==> !Precedes(KeyOf(x, key), KeyOf(s[k - 1], key), descending)
    ensures Sorted(s[..k] + [x] + s[k..], key, descending)
  {
    var t := s[..k] + [x] + s[k..];
    forall p, q | 0 <= p < q < |t|
      ensures InOrder(t[p], t[q], key, descending)
    {
      if q < k {
        assert t[p] == s[p] && t[q] == s[q];
      } else if q == k {
        assert t[p] == s[p] && t[q] == x;
        if p < k - 1 {
          InOrderTransitive(s[p], s[k - 1], x, key, descending);
        }
      } else if p == k {
        assert t[q] == s[q - 1];
        PrecedesStrictTotalOrder(KeyOf(x, key), KeyOf(s[q - 1], key), KeyOf(x, key), descending);
      } else if p < k {
        assert t[p] == s[p] && t[q] == s[q - 1];
      } else {
        assert t[p] == s[p - 1] && t[q] == s[q - 1];
      }
    }
  }

  lemma InsertGroup(front: seq<Record>, mid: seq<Record>, x: Record, back: seq<Record>, key: SortKey, descending: bool, v: Field)
    requires forall q :: 0 <= q < |mid| ==> Precedes(KeyOf(x, key), KeyOf(mid[q], key), descending)
    ensures WithKey(front + [x] + mid + back, key, v) == WithKey(front + mid + [x] + back, key, v)
  {
    var wx, wm := WithKey([x], key, v), WithKey(mid, key, v);
    if KeyOf(x, key) == v {
      forall q | 0 <= q < |mid|
        ensures KeyOf(mid[q], key) != v
      {
        PrecedesStrictTotalOrder(KeyOf(x, key), KeyOf(x, key), KeyOf(x, key), descending);
      }
      WithKeyNone(mid, key, v);
    } else {
      WithKeyNone([x], key, v);
    }
    WithKeyFour(front, [x], mid, back, key, v);
    WithKeyFour(front, mid, [x], back, key, v);
    var wf, wb := WithKey(front, key, v), WithKey(back, key, v);
    assert wf + wx + wm + wb == wf + wm + wx + wb by {
      assert wx + wm == wm + wx;
    }
  }

  lemma WithKeyFour(a: seq<Record>, b: seq<Record>, c: seq<Record>, d: seq<Record>, key: SortKey, v: Field)
    ensures WithKey(a + b + c + d, key, v) == WithKey(a, key, v) + WithKey(b, key, v) + WithKey(c, key, v) + WithKey(d, key, v)
  {
    var ab := a + b;
    var abc := ab + c;
    WithKeyAppend(a, b, key, v);
    WithKeyAppend(ab, c, key, v);
    WithKeyAppend(abc, d, key, v);
  }

  /**
    `insertion_sort`: each record in turn moves left past the records whose
    key its own key strictly precedes. The result is a stable sort of `data`,
    and so, by `StableSortUnique`, the same list as bubble sort's.
   */
  method InsertionSort(data: seq<Record>, key: SortKey, descending: bool) returns (r: seq<Record>)
    requires UniformKeys(data, key)
    ensures multiset(r) == multiset(data)
    ensures Sorted(r, key, descending)
    ensures SameKeyOrder(data, r, key)
  {
    var n := |data|;
    var a := data;
    var i := 1;
    while i < n
      invariant |a| == n && multiset(a) == multiset(data)
      invariant SameKeyOrder(data, a, key)
      invariant n == 0 || (1 <= i <= n && Sorted(a[..i], key, descending))
    {
      var b, k := InsertShift(a, i, key, descending);
      InsertStep(a, b, i, k, key, descending);
      SameKeyOrderTransitive(data, a, b, key);
      a := b;
      i := i + 1;
    }
    if n > 0 {
      assert a[..i] == a;
    }
    r := a;
  }
}
