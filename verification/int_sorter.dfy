/**
  The sorts of the standalone integer sorter: bubble sort, insertion sort and
  the merge sort wrapper, each descending or ascending and each able to stop
  when the user cancels.

  Python's sorts copy the list they are given (`arr[:]`), so the caller's
  list is never reordered; here lists are values, which makes that
  automatic. Cancellation is a `threading.Event` polled at fixed points of
  each algorithm. It is modelled as an oracle `cancelled` that answers the
  `q`-th poll of a run with `cancelled(q)`; a run that observes cancellation
  gives up at once and yields no list.
 */
module IntSorter {
  import opened Seqs
  import opened IntOrder

  /**
    The polls `from .. to - 1` were made, and the run stopped on a
    cancellation exactly when `stopped` holds: no poll before the last one
    saw the event set, and the last one saw it set precisely when the run
    stopped.
   */
  ghost predicate Observed(cancelled: nat -> bool, from: nat, to: nat, stopped: bool)
  {
    && from <= to
    && (stopped ==> from < to)
    && (forall q :: from <= q < to ==> (cancelled(q) <==> stopped && q == to - 1))
  }

  /** No poll from `from` up to `to` saw the event set. */
  ghost predicate Quiet(cancelled: nat -> bool, from: nat, to: nat)
  {
    from <= to && forall q :: from <= q < to ==> !cancelled(q)
  }

  lemma QuietExtend(cancelled: nat -> bool, from: nat, to: nat)
    requires Quiet(cancelled, from, to) && !cancelled(to)
    ensures Quiet(cancelled, from, to + 1)
  {
  }

  lemma QuietObserved(cancelled: nat -> bool, from: nat, to: nat)
    requires Quiet(cancelled, from, to)
    ensures Observed(cancelled, from, to, false)
  {
  }

  lemma StopObserved(cancelled: nat -> bool, from: nat, to: nat)
    requires Quiet(cancelled, from, to) && cancelled(to)
    ensures Observed(cancelled, from, to + 1, true)
  {
  }

  lemma QuietOfObserved(cancelled: nat -> bool, from: nat, to: nat)
    requires Observed(cancelled, from, to, false)
    ensures Quiet(cancelled, from, to)
  {
  }

  lemma QuietChain(cancelled: nat -> bool, a: nat, b: nat, c: nat)
    requires Quiet(cancelled, a, b) && Quiet(cancelled, b, c)
    ensures Quiet(cancelled, a, c)
  {
  }

  lemma ObservedChain(cancelled: nat -> bool, a: nat, b: nat, c: nat, stopped: bool)
    requires Quiet(cancelled, a, b) && Observed(cancelled, b, c, stopped)
    ensures Observed(cancelled, a, c, stopped)
  {
  }

  /** `is_cancelled()`: the poll numbered `c` reads the event. */
  method Poll(cancelled: nat -> bool, c: nat) returns (next: nat, stop: bool)
    ensures next == c + 1
    ensures stop == cancelled(c)
  {
    return c + 1, cancelled(c);
  }

  /**
    The polls of a loop that polls in each round whose index is a multiple
    of 1000 (`if j % 1000 == 0 and is_cancelled()`), over `rounds` rounds.
   */
  function StridePolls(rounds: nat): nat
  {
    (rounds + 999) / 1000
  }

  /** Round `k` adds a poll exactly when `k` is a multiple of 1000. */
  lemma StridePollsStep(k: nat)
    ensures StridePolls(k + 1) == StridePolls(k) + (if k % 1000 == 0 then 1 else 0)
  {
  }

  /** More rounds never make fewer polls. */
  lemma StridePollsMonotone(a: nat, b: nat)
    requires a <= b
    ensures StridePolls(a) <= StridePolls(b)
  {
  }

  /**
    Whatever the schedule, a run that made at least one poll and whose first
    poll saw the event set stopped at that poll.
   */
  lemma FirstPollStops(cancelled: nat -> bool, from: nat, to: nat, stopped: bool)
    requires Observed(cancelled, from, to, stopped)
    requires from < to && cancelled(from)
    ensures stopped && to == from + 1
  {
  }

  /**
    One pass of `bubble_sort` over the front `a[..m]`, polling for
    cancellation after each comparison whose index is a multiple of 1000.
    A pass that is not cancelled leaves in position `m - 1` an element in
    order with the whole front, leaves the back alone, and swaps nothing
    exactly when the front was already in order.
   */
  method BubblePass(a: seq<int>, m: nat, descending: bool, cancelled: nat -> bool, c0: nat)
    returns (b: seq<int>, swapped: bool, c: nat, stop: bool)
    requires 0 < m <= |a|
    requires forall p, q :: 0 <= p < m <= q < |a| ==> InOrder(a[p], a[q], descending)
    ensures Observed(cancelled, c0, c, stop)
    ensures !stop ==> c == c0 + StridePolls(m - 1)
    ensures stop ==> c <= c0 + StridePolls(m - 1)
    ensures m > 1 && cancelled(c0) ==> stop && c == c0 + 1
    ensures !stop ==> |b| == |a| && multiset(b) == multiset(a) && b[m..] == a[m..]
    ensures !stop ==> forall p, q :: 0 <= p < m <= q < |b| ==> InOrder(b[p], b[q], descending)
    ensures !stop ==> forall p :: 0 <= p < m ==> InOrder(b[p], b[m - 1], descending)
    ensures !stop ==> (!swapped ==> b == a)
    ensures !stop ==> (!swapped <==> forall p :: 0 <= p < m - 1 ==> InOrder(a[p], a[p + 1], descending))
  {
    b := a;
    swapped := false;
    c := c0;
    stop := false;
    var j := 0;
    while j < m - 1
      invariant 0 <= j <= m - 1 && |b| == |a|
      invariant Quiet(cancelled, c0, c) && c == c0 + StridePolls(j)
      invariant multiset(b) == multiset(a) && b[m..] == a[m..]
      invariant forall p, q :: 0 <= p < m <= q < |b| ==> InOrder(b[p], b[q], descending)
      invariant forall p :: 0 <= p < j ==> InOrder(b[p], b[j], descending)
      invariant !swapped ==> b == a && forall p :: 0 <= p < j ==> InOrder(a[p], a[p + 1], descending)
      invariant swapped ==> exists p :: 0 <= p < j && !InOrder(a[p], a[p + 1], descending)
    {
      if Before(b[j + 1], b[j], descending) {
        if !swapped {
          assert !InOrder(a[j], a[j + 1], descending);
        }
        var d := b[j := b[j + 1]][j + 1 := b[j]];
        PassSwapStep(a, b, d, m, j, descending);
        b := d;
        swapped := true;
      }
      StridePollsStep(j);
      if j % 1000 == 0 {
        ghost var before := c;
        c, stop := Poll(cancelled, c);
        if stop {
          StopObserved(cancelled, c0, before);
          StridePollsMonotone(j + 1, m - 1);
          return;
        }
        QuietExtend(cancelled, c0, before);
      }
      j := j + 1;
    }
    QuietObserved(cancelled, c0, c);
    if m > 1 && cancelled(c0) {
      FirstPollStops(cancelled, c0, c, stop);
    }
  }

  /** Swapping an out-of-order neighbour pair keeps every invariant of the pass. */
  lemma PassSwapStep(a: seq<int>, b: seq<int>, d: seq<int>, m: nat, j: nat, descending: bool)
    requires j + 1 < m <= |a| == |b|
    requires multiset(b) == multiset(a) && b[m..] == a[m..]
    requires forall p, q :: 0 <= p < m <= q < |b| ==> InOrder(b[p], b[q], descending)
    requires forall p :: 0 <= p < j ==> InOrder(b[p], b[j], descending)
    requires Before(b[j + 1], b[j], descending)
    requires d == b[j := b[j + 1]][j + 1 := b[j]]
    ensures |d| == |a| && multiset(d) == multiset(a) && d[m..] == a[m..]
    ensures forall p, q :: 0 <= p < m <= q < |d| ==> InOrder(d[p], d[q], descending)
    ensures forall p :: 0 <= p < j + 1 ==> InOrder(d[p], d[j + 1], descending)
  {
    assert d[m..] == b[m..];
  }

  /** The comparisons made by the first `passes` passes over `n` numbers. */
  function ComparisonsDone(n: nat, passes: nat): nat
    requires passes <= n
  {
    if passes == 0 then 0 else ComparisonsDone(n, passes - 1) + (n - passes)
  }

  /** `n * (n - 1) // 2`: the comparisons of a run that makes every pass. */
  function TotalComparisons(n: nat): nat
  {
    n * (n - 1) / 2
  }

  /** Twice the comparisons done is `passes * (2n - passes - 1)`. */
  lemma {:induction false} ComparisonsDoneClosed(n: nat, passes: nat)
    requires passes <= n
    ensures 2 * ComparisonsDone(n, passes) == passes * (2 * n - passes - 1)
  {
    if passes > 0 {
      ComparisonsDoneClosed(n, passes - 1);
    }
  }

  /** More passes, more comparisons; all `n` passes make every comparison. */
  lemma ComparisonsDoneBounds(n: nat, a: nat, b: nat)
    requires a <= b <= n
    ensures ComparisonsDone(n, a) <= ComparisonsDone(n, b) <= TotalComparisons(n)
    ensures ComparisonsDone(n, n) == TotalComparisons(n)
  {
    ComparisonsDoneMonotone(n, a, b);
    ComparisonsDoneMonotone(n, b, n);
    ComparisonsDoneClosed(n, n);
  }

  lemma {:induction false} ComparisonsDoneMonotone(n: nat, a: nat, b: nat)
    requires a <= b <= n
    ensures ComparisonsDone(n, a) <= ComparisonsDone(n, b)
    decreases b - a
  {
    if a < b {
      ComparisonsDoneMonotone(n, a, b - 1);
    }
  }

  function CapProgress(p: real): real
  {
    if p < 99.9 then p else 99.9
  }

  /**
    The value `bubble_sort` hands to its progress callback after pass `i`
    (counting from 0) of `n` numbers, as written: comparisons done over
    `n * (n - 1) // 2`, as a percentage capped at 99.9. For a single number
    the divisor is zero and Python raises `ZeroDivisionError` (`None`).
   */
  function PassProgressAsWritten(n: nat, i: nat): (p: Option<real>)
    requires i < n
    ensures p.None? <==> n == 1
  {
    var total := TotalComparisons(n);
    if total == 0 then None
    else Some(CapProgress(ComparisonsDone(n, i + 1) as real / total as real * 100.0))
  }

  /**
    The progress report as intended: when there is nothing to compare, the
    only pass has done all the work, so it reports the cap. Otherwise it is
    the value written above.
   */
  function PassProgress(n: nat, i: nat): (p: real)
    requires i < n
    ensures 0.0 <= p <= 99.9
    ensures n >= 2 ==> PassProgressAsWritten(n, i) == Some(p)
    ensures i == n - 1 ==> p == 99.9
  {
    var total := TotalComparisons(n);
    if total == 0 then 99.9
    else
      ComparisonsDoneBounds(n, i + 1, i + 1);
      ComparisonsDoneBounds(n, n, n);
      assert i == n - 1 ==> ComparisonsDone(n, i + 1) as real / total as real == 1.0;
      ProgressFraction(ComparisonsDone(n, i + 1), total);
      CapProgress(ComparisonsDone(n, i + 1) as real / total as real * 100.0)
  }

  lemma ProgressFraction(done: nat, total: nat)
    requires 0 < total && done <= total
    ensures 0.0 <= done as real / total as real * 100.0 <= 100.0
  {
    assert done as real / total as real <= 1.0;
  }

  /** Later passes never report less progress than earlier ones. */
  lemma PassProgressMonotone(n: nat, i: nat, j: nat)
    requires i <= j < n
    ensures PassProgress(n, i) <= PassProgress(n, j)
  {
    var total := TotalComparisons(n);
    if total > 0 {
      ComparisonsDoneBounds(n, i + 1, j + 1);
      PercentMonotone(ComparisonsDone(n, i + 1), ComparisonsDone(n, j + 1), total);
    }
  }

  lemma PercentMonotone(a: nat, b: nat, total: nat)
    requires a <= b && total > 0
    ensures a as real / total as real * 100.0 <= b as real / total as real * 100.0
  {
    assert a as real / total as real <= b as real / total as real;
  }

  /**
    The polls `bubble_sort` makes over `passes` complete passes of an
    `n`-element list: one before each pass, and the strided polls of pass
    `i`, which makes `n - i - 1` comparisons.
   */
  function BubblePolls(n: nat, passes: nat): (p: nat)
    requires passes <= n
    ensures passes <= p
  {
    if passes == 0 then 0
    else BubblePolls(n, passes - 1) + 1 + StridePolls(n - passes)
  }

  /**
    `bubble_sort`: polls before every pass and inside passes, reports its
    progress after every finished pass, and stops after the first pass that
    swaps nothing. A run that is not cancelled yields the sorted
    rearrangement of `arr`; the reports are the corrected progress values,
    one per finished pass, so they never decrease and stay within 0 to 99.9.
   */
  method BubbleSort(arr: seq<int>, descending: bool, cancelled: nat -> bool)
    returns (r: Option<seq<int>>, checks: nat, reports: seq<real>)
    ensures Observed(cancelled, 0, checks, r.None?)
    ensures |reports| <= |arr|
    ensures forall k :: 0 <= k < |reports| ==> reports[k] == PassProgress(|arr|, k)
    ensures r.Some? ==> (|reports| == 0 <==> |arr| == 0)
    ensures r.Some? ==> checks == BubblePolls(|arr|, |reports|)
    ensures r.None? ==> |reports| < |arr| && BubblePolls(|arr|, |reports|) < checks <= BubblePolls(|arr|, |reports| + 1)
    ensures |arr| > 0 && cancelled(0) ==> r.None? && checks == 1
    ensures r.Some? ==> multiset(r.value) == multiset(arr) && SortedInts(r.value, descending)
    ensures r.Some? ==> r.value == MergeSortSimple(arr, descending)
  {
    r, checks, reports := BubblePasses(arr, descending, cancelled);
    if r.Some? {
      SortedIsMergeSort(arr, r.value, descending);
    }
  }

  /** The passes of `bubble_sort`, up to the first that swaps nothing. */
  method BubblePasses(arr: seq<int>, descending: bool, cancelled: nat -> bool)
    returns (r: Option<seq<int>>, checks: nat, reports: seq<real>)
    ensures Observed(cancelled, 0, checks, r.None?)
    ensures r.Some? ==> multiset(r.value) == multiset(arr) && SortedInts(r.value, descending)
    ensures |reports| <= |arr|
    ensures forall k :: 0 <= k < |reports| ==> reports[k] == PassProgress(|arr|, k)
    ensures r.Some? ==> (|reports| == 0 <==> |arr| == 0)
    ensures r.Some? ==> checks == BubblePolls(|arr|, |reports|)
    ensures r.None? ==> |reports| < |arr| && BubblePolls(|arr|, |reports|) < checks <= BubblePolls(|arr|, |reports| + 1)
    ensures |arr| > 0 && cancelled(0) ==> r.None? && checks == 1
  {
    var n := |arr|;
    var a := arr;
    var i := 0;
    checks := 0;
    reports := [];
    while i < n
      invariant 0 <= i <= n && |a| == n
      invariant Quiet(cancelled, 0, checks)
      invariant multiset(a) == multiset(arr)
      invariant SortedBack(a, n - i, descending)
      invariant |reports| == i && checks == BubblePolls(n, i)
      invariant forall k :: 0 <= k < i ==> reports[k] == PassProgress(n, k)
    {
      var b, sorted, c, stop := PassRound(a, n - i, descending, cancelled, checks);
      ObservedChain(cancelled, 0, checks, c, stop);
      checks := c;
      if stop {
        return None, checks, reports;
      }
      QuietOfObserved(cancelled, 0, checks);
      reports := reports + [PassProgress(n, i)];
      a := b;
      if sorted {
        break;
      }
      i := i + 1;
    }
    assert a[0..] == a;
    r := Some(a);
    QuietObserved(cancelled, 0, checks);
    if n > 0 && cancelled(0) {
      FirstPollStops(cancelled, 0, checks, false);
    }
  }

  /**
    One round of the pass loop of `bubble_sort`: the poll before the pass,
    then the pass over the unsorted front of `m` elements. A round that is
    not cancelled either finds the list sorted or grows the sorted back by
    one element.
   */
  method PassRound(a: seq<int>, m: nat, descending: bool, cancelled: nat -> bool, c0: nat)
    returns (b: seq<int>, sorted: bool, c: nat, stop: bool)
    requires 0 < m <= |a| && SortedBack(a, m, descending)
    ensures Observed(cancelled, c0, c, stop)
    ensures !stop ==> c == c0 + 1 + StridePolls(m - 1)
    ensures stop ==> c0 < c <= c0 + 1 + StridePolls(m - 1)
    ensures !stop ==> |b| == |a| && multiset(b) == multiset(a)
    ensures !stop && sorted ==> SortedBack(b, 0, descending)
    ensures !stop && !sorted ==> SortedBack(b, m - 1, descending)
  {
    var swapped;
    c, stop := Poll(cancelled, c0);
    if stop {
      StopObserved(cancelled, c0, c0);
      return a, false, c, stop;
    }
    QuietExtend(cancelled, c0, c0);
    var c1;
    b, swapped, c1, stop := BubblePass(a, m, descending, cancelled, c);
    ObservedChain(cancelled, c0, c, c1, stop);
    c, sorted := c1, !swapped;
    if stop {
      return;
    }
    if sorted {
      PassFoundSorted(a, m, descending);
      assert b[0..] == b;
    } else {
      assert b[m..] == a[m..];
      PassGrowsBack(b, m, descending);
    }
  }

  /**
    The inner loop of `insertion_sort` for position `i`: elements before `i`
    that the current element is strictly before are shifted one place right,
    and the current element drops into the gap at `k`.
   */
  method InsertShift(a: seq<int>, i: nat, descending: bool) returns (b: seq<int>, k: nat)
    requires 0 < i < |a|
    ensures k <= i
    ensures b == a[..k] + [a[i]] + a[k..i] + a[i + 1..]
    ensures forall q :: k <= q < i ==> Before(a[i], a[q], descending)
    ensures k > 0 ==> !Before(a[i], a[k - 1], descending)
  {
    var cur := a[i];
    b := a;
    var j: int := i - 1;
    while j >= 0
      invariant -1 <= j <= i - 1 && |b| == |a|
      invariant b[..j + 1] == a[..j + 1]
      invariant b[j + 2..i + 1] == a[j + 1..i]
      invariant b[i + 1..] == a[i + 1..]
      invariant forall q :: j + 1 <= q < i ==> Before(cur, a[q], descending)
      decreases j + 1
    {
      assert b[j] == a[j];
      if Before(cur, b[j], descending) {
        b := b[j + 1 := b[j]];
        j := j - 1;
      } else {
        break;
      }
    }
    k := j + 1;
    b := b[k := cur];
    assert b == a[..k] + [a[i]] + a[k..i] + a[i + 1..] by {
      assert b[..k] == a[..k];
      assert b[k + 1..i + 1] == a[k..i];
    }
  }

  /** Dropping `x` into the gap at `k` of a sorted `s` keeps it sorted. */
  lemma InsertSorted(s: seq<int>, x: int, k: nat, descending: bool)
    requires k <= |s| && SortedInts(s, descending)
    requires forall q :: k <= q < |s| ==> Before(x, s[q], descending)
    requires k > 0 ==> !Before(x, s[k - 1], descending)
    ensures SortedInts(s[..k] + [x] + s[k..], descending)
  {
    var t := s[..k] + [x] + s[k..];
    forall p, q | 0 <= p < q < |t|
      ensures InOrder(t[p], t[q], descending)
    {
      if q < k {
        assert t[p] == s[p] && t[q] == s[q];
      } else if q == k {
        assert t[p] == s[p] && t[q] == x;
        assert p == k - 1 || InOrder(s[p], s[k - 1], descending);
      } else if p == k {
        assert t[q] == s[q - 1];
      } else if p < k {
        assert t[p] == s[p] && t[q] == s[q - 1];
      } else {
        assert t[p] == s[p - 1] && t[q] == s[q - 1];
      }
    }
  }

  lemma InsertStep(a: seq<int>, b: seq<int>, i: nat, k: nat, descending: bool)
    requires k <= i < |a|
    requires SortedInts(a[..i], descending)
    requires b == a[..k] + [a[i]] + a[k..i] + a[i + 1..]
    requires forall q :: k <= q < i ==> Before(a[i], a[q], descending)
    requires k > 0 ==> !Before(a[i], a[k - 1], descending)
    ensures |b| == |a| && multiset(b) == multiset(a)
    ensures SortedInts(b[..i + 1], descending)
  {
    InsertMoves(a, b, i, k);
    InsertSorted(a[..i], a[i], k, descending);
  }

  /** Moving `a[i]` back to `k` rearranges `a`, and its first `i + 1` are the insertion. */
  lemma InsertMoves(a: seq<int>, b: seq<int>, i: nat, k: nat)
    requires k <= i < |a|
    requires b == a[..k] + [a[i]] + a[k..i] + a[i + 1..]
    ensures |b| == |a| && multiset(b) == multiset(a)
    ensures b[..i + 1] == a[..i][..k] + [a[i]] + a[..i][k..]
  {
    var x := a[i];
    var front, mid, back := a[..k], a[k..i], a[i + 1..];
    assert a == front + mid + [x] + back by {
      assert a == a[..i] + [x] + back;
      assert a[..i] == front + mid;
    }
    assert b[..i + 1] == a[..i][..k] + [x] + a[..i][k..] by {
      assert a[..i][..k] == front && a[..i][k..] == mid;
      assert b[..i + 1] == front + [x] + mid;
    }
  }

  /**
    `(i / n) ** 2 * 100`: the progress insertion sort reports once it has
    placed element `i`, for every tenth `i`. It grows with the square of the
    share placed, so it stays strictly between 0 and 100.
   */
  function InsertProgress(n: nat, i: nat): (p: real)
    requires 0 < i < n
    ensures 0.0 < p < 100.0
  {
    var share := i as real / n as real;
    ShareSquared(share);
    share * share * 100.0
  }

  lemma ShareSquared(x: real)
    requires 0.0 < x < 1.0
    ensures 0.0 < x * x < 1.0
  {
    assert x * x < x * 1.0;
  }

  /** Placing element `i` adds a report exactly when `i` is a multiple of ten. */
  lemma TenthStep(i: nat)
    requires i >= 1
    ensures i / 10 == (i - 1) / 10 + (if i % 10 == 0 then 1 else 0)
  {
  }

  /** Elements placed later never report less progress. */
  lemma InsertProgressMonotone(n: nat, i: nat, j: nat)
    requires 0 < i <= j < n
    ensures InsertProgress(n, i) <= InsertProgress(n, j)
  {
    var x, y := i as real / n as real, j as real / n as real;
    assert x <= y;
    SquareMonotone(x, y);
  }

  lemma SquareMonotone(x: real, y: real)
    requires 0.0 <= x <= y
    ensures x * x * 100.0 <= y * y * 100.0
  {
    assert x * x <= x * y <= y * y;
  }

  /**
    `insertion_sort`: polls before placing each element from the second on,
    and reports its progress after placing every tenth one. A run that is not
    cancelled yields the sorted rearrangement of `arr`, having reported once
    for each multiple of ten below `len(arr)`.
   */
  method InsertionSort(arr: seq<int>, descending: bool, cancelled: nat -> bool)
    returns (r: Option<seq<int>>, checks: nat, reports: seq<real>)
    ensures Observed(cancelled, 0, checks, r.None?)
    ensures forall k :: 0 <= k < |reports| ==>
      10 * (k + 1) < |arr| && reports[k] == InsertProgress(|arr|, 10 * (k + 1))
    ensures r.Some? ==> |reports| == (if |arr| == 0 then 0 else (|arr| - 1) / 10)
    ensures r.Some? ==> checks == (if |arr| == 0 then 0 else |arr| - 1)
    ensures r.None? ==> 0 < checks < |arr| && |reports| == (checks - 1) / 10
    ensures |arr| > 1 && cancelled(0) ==> r.None? && checks == 1
    ensures r.Some? ==> multiset(r.value) == multiset(arr) && SortedInts(r.value, descending)
    ensures r.Some? ==> r.value == MergeSortSimple(arr, descending)
  {
    var n := |arr|;
    var a := arr;
    var i := 1;
    checks := 0;
    reports := [];
    while i < n
      invariant |a| == n && multiset(a) == multiset(arr)
      invariant Quiet(cancelled, 0, checks)
      invariant n == 0 || (1 <= i <= n && SortedInts(a[..i], descending))
      invariant 1 <= i && (n == 0 ==> i == 1) && |reports| == (i - 1) / 10
      invariant checks == i - 1
      invariant forall k :: 0 <= k < |reports| ==> 10 * (k + 1) < n && reports[k] == InsertProgress(n, 10 * (k + 1))
    {
      ghost var before := checks;
      var stop;
      checks, stop := Poll(cancelled, checks);
      if stop {
        StopObserved(cancelled, 0, before);
        return None, checks, reports;
      }
      QuietExtend(cancelled, 0, before);
      var b, k := InsertShift(a, i, descending);
      InsertStep(a, b, i, k, descending);
      a := b;
      if i % 10 == 0 {
        reports := reports + [InsertProgress(n, i)];
      }
      TenthStep(i);
      i := i + 1;
    }
    if n > 0 {
      assert i == n && a[..i] == a;
    }
    r := Some(a);
    SortedIsMergeSort(arr, a, descending);
    QuietObserved(cancelled, 0, checks);
  }

  /** What `merge_sort_wrapper` ends with. */
  datatype Outcome =
    | Done(value: seq<int>)
    /** The cancel event was seen; Python returns `None`. */
    | Cancelled
    /**
      A cancel event was given but no progress callback: the first finished
      merge calls `None` as the callback and Python raises `TypeError`.
     */
    | Failed

  /**
    The rounds of the merge loop, which runs while both sides have elements
    left: at least as many as the shorter side, and fewer than both sides
    together, since the last element is always copied after the loop.
   */
  function MergeRounds(left: seq<int>, right: seq<int>, descending: bool): (k: nat)
    ensures |left| > 0 && |right| > 0 ==>
      (|left| <= |right| ==> |left| <= k) && (|right| <= |left| ==> |right| <= k) && k < |left| + |right|
    ensures |left| == 0 || |right| == 0 ==> k == 0
    decreases |left| + |right|
  {
    if |left| == 0 || |right| == 0 then 0
    else if Before(left[0], right[0], descending) then 1 + MergeRounds(left[1..], right, descending)
    else 1 + MergeRounds(left, right[1..], descending)
  }

  /**
    The merge loop of `merge_sort_recursive`, which polls whenever the
    output index is a multiple of 1000. If it is not cancelled it builds
    exactly the merge of `left` and `right` after the strided polls of all
    its rounds; a cancelled event is seen by the first poll, which happens
    whenever both sides are non-empty.
   */
  method MergeChecked(left: seq<int>, right: seq<int>, descending: bool, cancelled: nat -> bool, c0: nat)
    returns (out: seq<int>, c: nat, stop: bool)
    ensures Observed(cancelled, c0, c, stop)
    ensures !stop ==> c == c0 + StridePolls(MergeRounds(left, right, descending))
    ensures stop ==> c <= c0 + StridePolls(MergeRounds(left, right, descending))
    ensures |left| > 0 && |right| > 0 && cancelled(c0) ==> stop && c == c0 + 1
    ensures !stop ==> out == MergeInts(left, right, descending)
  {
    var i, j, k := 0, 0, 0;
    out := [];
    c, stop := c0, false;
    assert left[0..] == left && right[0..] == right;
    while i < |left| && j < |right|
      invariant 0 <= i <= |left| && 0 <= j <= |right| && k == i + j
      invariant Quiet(cancelled, c0, c) && c == c0 + StridePolls(k)
      invariant k + MergeRounds(left[i..], right[j..], descending) == MergeRounds(left, right, descending)
      invariant out + MergeInts(left[i..], right[j..], descending) == MergeInts(left, right, descending)
    {
      StridePollsStep(k);
      if k % 1000 == 0 {
        ghost var before := c;
        c, stop := Poll(cancelled, c);
        if stop {
          StopObserved(cancelled, c0, before);
          StridePollsMonotone(k + 1, MergeRounds(left, right, descending));
          return;
        }
        QuietExtend(cancelled, c0, before);
      }
      out, i, j := MergeStep(left, right, i, j, out, descending);
      k := k + 1;
    }
    MergeFinish(left, right, i, j, out, descending);
    out := out + left[i..] + right[j..];
    QuietObserved(cancelled, c0, c);
  }

  /**
    One round of the merge loop: the front of `left` is copied when it is
    strictly before the front of `right`, otherwise the front of `right`.
   */
  method MergeStep(left: seq<int>, right: seq<int>, i: nat, j: nat, out: seq<int>, descending: bool)
    returns (out2: seq<int>, i2: nat, j2: nat)
    requires i < |left| && j < |right|
    requires out + MergeInts(left[i..], right[j..], descending) == MergeInts(left, right, descending)
    ensures i <= i2 <= |left| && j <= j2 <= |right| && i2 + j2 == i + j + 1
    ensures out2 + MergeInts(left[i2..], right[j2..], descending) == MergeInts(left, right, descending)
    ensures MergeRounds(left[i..], right[j..], descending) == 1 + MergeRounds(left[i2..], right[j2..], descending)
  {
    MergeAdvance(left, right, i, j, out, descending);
    assert left[i..][1..] == left[i + 1..] && right[j..][1..] == right[j + 1..];
    if Before(left[i], right[j], descending) {
      out2, i2, j2 := out + [left[i]], i + 1, j;
    } else {
      out2, i2, j2 := out + [right[j]], i, j + 1;
    }
  }

  /** One step of the merge loop keeps `out` a prefix of the merge. */
  lemma MergeAdvance(left: seq<int>, right: seq<int>, i: nat, j: nat, out: seq<int>, descending: bool)
    requires i < |left| && j < |right|
    requires out + MergeInts(left[i..], right[j..], descending) == MergeInts(left, right, descending)
    ensures Before(left[i], right[j], descending) ==>
      (out + [left[i]]) + MergeInts(left[i + 1..], right[j..], descending) == MergeInts(left, right, descending)
    ensures !Before(left[i], right[j], descending) ==>
      (out + [right[j]]) + MergeInts(left[i..], right[j + 1..], descending) == MergeInts(left, right, descending)
  {
    var m := MergeInts(left[i..], right[j..], descending);
    if Before(left[i], right[j], descending) {
      MergeUnfoldLeft(left[i..], right[j..], descending);
      assert left[i..][1..] == left[i + 1..];
      AppendAssoc(out, [left[i]], MergeInts(left[i + 1..], right[j..], descending));
    } else {
      MergeUnfoldRight(left[i..], right[j..], descending);
      assert right[j..][1..] == right[j + 1..];
      AppendAssoc(out, [right[j]], MergeInts(left[i..], right[j + 1..], descending));
    }
  }

  lemma MergeUnfoldLeft(l: seq<int>, r: seq<int>, descending: bool)
    requires |l| > 0 && |r| > 0 && Before(l[0], r[0], descending)
    ensures MergeInts(l, r, descending) == [l[0]] + MergeInts(l[1..], r, descending)
  {
  }

  lemma MergeUnfoldRight(l: seq<int>, r: seq<int>, descending: bool)
    requires |l| > 0 && |r| > 0 && !Before(l[0], r[0], descending)
    ensures MergeInts(l, r, descending) == [r[0]] + MergeInts(l, r[1..], descending)
  {
  }

  lemma AppendAssoc(a: seq<int>, b: seq<int>, c: seq<int>)
    ensures (a + b) + c == a + (b + c)
  {
  }

  /** When the loop ends, copying the remainders completes the merge. */
  lemma MergeFinish(left: seq<int>, right: seq<int>, i: nat, j: nat, out: seq<int>, descending: bool)
    requires i <= |left| && j <= |right| && (i == |left| || j == |right|)
    requires out + MergeInts(left[i..], right[j..], descending) == MergeInts(left, right, descending)
    ensures out + left[i..] + right[j..] == MergeInts(left, right, descending)
  {
    MergeRemainder(left[i..], right[j..], descending);
  }

  /** Once one side is used up, the merge is the other side. */
  lemma MergeRemainder(left: seq<int>, right: seq<int>, descending: bool)
    requires |left| == 0 || |right| == 0
    ensures MergeInts(left, right, descending) == left + right
  {
  }

  /**
    The polls of a finished `merge_sort_recursive` on `arr`: one on entry,
    then those of both halves and the strided polls of merging their sorted
    forms.
   */
  function MergeRecPolls(arr: seq<int>, descending: bool): nat
    decreases |arr|
  {
    if |arr| <= 1 then 1
    else
      var mid := |arr| / 2;
      1 + MergeRecPolls(arr[..mid], descending) + MergeRecPolls(arr[mid..], descending)
        + StridePolls(MergeRounds(MergeSortSimple(arr[..mid], descending), MergeSortSimple(arr[mid..], descending), descending))
  }

  /**
    Every call of `merge_sort_recursive` polls on entry and every merge polls
    at least once, so a finished run on `n` elements polls at least
    `2 * n - 1` times.
   */
  lemma {:induction false} MergeRecPollsAtLeast(arr: seq<int>, descending: bool)
    requires |arr| >= 1
    ensures MergeRecPolls(arr, descending) >= 2 * |arr| - 1
    decreases |arr|
  {
    if |arr| > 1 {
      var mid := |arr| / 2;
      MergeRecPollsAtLeast(arr[..mid], descending);
      MergeRecPollsAtLeast(arr[mid..], descending);
    }
  }

  /**
    `merge_sort_recursive`: polls on entry and during each merge, and
    propagates a cancellation up from either half. A run that finishes
    computes the merge sort of `arr` after exactly `MergeRecPolls` polls;
    an event already set is seen by the poll on entry. Without a progress
    callback no list of two or more elements ever finishes.
   */
  method MergeRec(arr: seq<int>, progress: bool, cancelled: nat -> bool, descending: bool, c0: nat)
    returns (r: Outcome, c: nat)
    ensures Observed(cancelled, c0, c, r.Cancelled?)
    ensures c0 < c
    ensures r.Done? ==> c == c0 + MergeRecPolls(arr, descending)
    ensures !r.Done? ==> c <= c0 + MergeRecPolls(arr, descending)
    ensures cancelled(c0) ==> r.Cancelled? && c == c0 + 1
    ensures r.Done? ==> r.value == MergeSortSimple(arr, descending)
    ensures r.Failed? ==> !progress && |arr| > 1
    ensures !progress && |arr| > 1 ==> !r.Done?
    decreases |arr|, 1
  {
    var stop;
    c, stop := Poll(cancelled, c0);
    if stop {
      StopObserved(cancelled, c0, c0);
      return Cancelled, c;
    }
    QuietExtend(cancelled, c0, c0);
    assert !cancelled(c0);
    if |arr| <= 1 {
      QuietObserved(cancelled, c0, c);
      return Done(arr), c;
    }
    var c1;
    r, c1 := MergeHalves(arr, progress, cancelled, descending, c);
    ObservedChain(cancelled, c0, c, c1, r.Cancelled?);
    c := c1;
  }

  /**
    The body of `merge_sort_recursive` after the poll on entry, for a list
    of two or more: sort both halves, stopping as soon as one does not
    finish, then merge them. A run that finishes computes the merge sort of
    `arr`; without a progress callback none finishes.
   */
  method MergeHalves(arr: seq<int>, progress: bool, cancelled: nat -> bool, descending: bool, c0: nat)
    returns (r: Outcome, c: nat)
    requires |arr| > 1
    ensures Observed(cancelled, c0, c, r.Cancelled?)
    ensures c0 < c
    ensures r.Done? ==> c + 1 == c0 + MergeRecPolls(arr, descending)
    ensures !r.Done? ==> c + 1 <= c0 + MergeRecPolls(arr, descending)
    ensures r.Done? ==> r.value == MergeSortSimple(arr, descending)
    ensures r.Failed? ==> !progress
    ensures !progress ==> !r.Done?
    decreases |arr|, 0
  {
    var mid := |arr| / 2;
    var lr, c1 := MergeRec(arr[..mid], progress, cancelled, descending, c0);
    if !lr.Done? {
      return lr, c1;
    }
    QuietOfObserved(cancelled, c0, c1);
    var rr, c2 := MergeRec(arr[mid..], progress, cancelled, descending, c1);
    ObservedChain(cancelled, c0, c1, c2, rr.Cancelled?);
    if !rr.Done? {
      return rr, c2;
    }
    QuietOfObserved(cancelled, c0, c2);
    var merged, c3, stop;
    merged, c3, stop := MergeChecked(lr.value, rr.value, descending, cancelled, c2);
    ObservedChain(cancelled, c0, c2, c3, stop);
    if stop {
      return Cancelled, c3;
    }
    if !progress {
      return Failed, c3;
    }
    return Done(merged), c3;
  }

  /**
    `merge_sort_wrapper`: with neither a progress callback nor a cancel
    event it sorts with `merge_sort_recursive_simple` and never polls;
    otherwise it runs `merge_sort_recursive` on a copy, polling the event
    when there is one. A run that finishes yields the merge sort of `arr`.
   */
  method MergeSortWrapper(arr: seq<int>, progress: bool, cancelEvent: Option<nat -> bool>, descending: bool)
    returns (r: Outcome, checks: nat)
    ensures cancelEvent.Some? ==> Observed(cancelEvent.value, 0, checks, r.Cancelled?)
    ensures cancelEvent.None? ==> !r.Cancelled?
    ensures progress || cancelEvent.Some? ==>
      0 < checks && (r.Done? ==> checks == MergeRecPolls(arr, descending)) && (!r.Done? ==> checks <= MergeRecPolls(arr, descending))
    ensures cancelEvent.Some? && cancelEvent.value(0) ==> r.Cancelled? && checks == 1
    ensures r.Failed? <==> !progress && cancelEvent.Some? && |arr| > 1 && !r.Cancelled?
    ensures !progress && cancelEvent.None? ==> r == Done(MergeSortSimple(arr, descending)) && checks == 0
    ensures r.Done? ==> r.value == MergeSortSimple(arr, descending)
  {
    if !progress && cancelEvent.None? {
      return Done(MergeSortSimple(arr, descending)), 0;
    }
    var cancelled: nat -> bool := if cancelEvent.Some? then cancelEvent.value else (q: nat) => false;
    r, checks := MergeRec(arr, progress, cancelled, descending, 0);
    if cancelEvent.None? {
      QuietNeverStops(cancelled, 0, checks, r.Cancelled?);
    }
  }

  /** An event that is never set is never observed. */
  lemma QuietNeverStops(cancelled: nat -> bool, from: nat, to: nat, stopped: bool)
    requires forall q :: !cancelled(q)
    requires Observed(cancelled, from, to, stopped)
    ensures !stopped
  {
    if from < to {
      assert !cancelled(to - 1);
    }
  }
}
