/**
  The records that the exam application sorts, the key values they are sorted
  by, and what "sorted" and "stable" mean for them.

  A record is one CSV row with the columns `ID`, `FirstName` and `LastName`.
  The ID is an `int` when it parsed and stays text otherwise, so a key value
  is either a number or a string. Python orders numbers numerically and
  strings by code point, and raises `TypeError` when asked to compare a
  number with a string; `Lt` puts every number before every string so that
  the order is total, and the sorts themselves require `UniformKeys`, the
  situation in which Python never compares across kinds. `IntOrder` repeats
  the sortedness lemmas for the standalone sorter's plain integers.
 */
module Records {

  datatype Field = Num(n: int) | Text(s: string)

  datatype Record = Record(id: Field, firstName: string, lastName: string)

  /** The column named by the application's "Sort Key" choice. */
  datatype SortKey = ById | ByFirstName | ByLastName

  function KeyOf(r: Record, k: SortKey): Field
  {
    match k
    case ById => r.id
    case ByFirstName => Text(r.firstName)
    case ByLastName => Text(r.lastName)
  }

  /** Python's `a < b` on two strings. */
  predicate StrLt(a: string, b: string)
  {
    if |a| == 0 then |b| > 0
    else if |b| == 0 then false
    else if a[0] != b[0] then a[0] < b[0]
    else StrLt(a[1..], b[1..])
  }

  /** Python's `a < b` on two key values of the same kind (see module note). */
  predicate Lt(a: Field, b: Field)
  {
    match (a, b)
    case (Num(x), Num(y)) => x < y
    case (Text(x), Text(y)) => StrLt(x, y)
    case (Num(_), Text(_)) => true
    case (Text(_), Num(_)) => false
  }

  lemma {:induction false} StrLtIrreflexive(a: string)
    ensures !StrLt(a, a)
  {
    if |a| > 0 {
      StrLtIrreflexive(a[1..]);
    }
  }

  lemma {:induction false} StrLtTransitive(a: string, b: string, c: string)
    requires StrLt(a, b) && StrLt(b, c)
    ensures StrLt(a, c)
  {
    if |a| > 0 && |b| > 0 && |c| > 0 && a[0] == b[0] && b[0] == c[0] {
      StrLtTransitive(a[1..], b[1..], c[1..]);
    }
  }

  lemma {:induction false} StrLtTotal(a: string, b: string)
    ensures a == b || StrLt(a, b) || StrLt(b, a)
  {
    if |a| > 0 && |b| > 0 && a[0] == b[0] {
      StrLtTotal(a[1..], b[1..]);
      if a[1..] == b[1..] {
        assert a == [a[0]] + a[1..] && b == [b[0]] + b[1..];
      }
    }
  }

  lemma {:induction false} StrLtAsymmetric(a: string, b: string)
    requires StrLt(a, b)
    ensures !StrLt(b, a)
  {
    if |a| > 0 && |b| > 0 && a[0] == b[0] {
      StrLtAsymmetric(a[1..], b[1..]);
    }
  }

  /** `Lt` is a strict total order on key values. */
  lemma LtStrictTotalOrder(a: Field, b: Field, c: Field)
    ensures !Lt(a, a)
    ensures Lt(a, b) ==> !Lt(b, a)
    ensures Lt(a, b) && Lt(b, c) ==> Lt(a, c)
    ensures a == b || Lt(a, b) || Lt(b, a)
  {
    if a.Text? {
      StrLtIrreflexive(a.s);
    }
    if a.Text? && b.Text? {
      StrLtTotal(a.s, b.s);
      if StrLt(a.s, b.s) {
        StrLtAsymmetric(a.s, b.s);
      }
    }
    if a.Text? && b.Text? && c.Text? && Lt(a, b) && Lt(b, c) {
      StrLtTransitive(a.s, b.s, c.s);
    }
  }

  /**
    `Precedes(a, b, descending)`: a record keyed `a` must come strictly before
    one keyed `b` (`a < b` ascending, `a > b` descending).
   */
  predicate Precedes(a: Field, b: Field, descending: bool)
  {
    if descending then Lt(b, a) else Lt(a, b)
  }

  lemma PrecedesStrictTotalOrder(a: Field, b: Field, c: Field, descending: bool)
    ensures !Precedes(a, a, descending)
    ensures Precedes(a, b, descending) ==> !Precedes(b, a, descending)
    ensures Precedes(a, b, descending) && Precedes(b, c, descending) ==> Precedes(a, c, descending)
    ensures a == b || Precedes(a, b, descending) || Precedes(b, a, descending)
  {
    LtStrictTotalOrder(a, b, c);
    LtStrictTotalOrder(c, b, a);
  }

  /** `x` may stand before `y`: `y`'s key does not strictly precede `x`'s. */
  predicate InOrder(x: Record, y: Record, k: SortKey, descending: bool)
  {
    !Precedes(KeyOf(y, k), KeyOf(x, k), descending)
  }

  lemma InOrderTransitive(x: Record, y: Record, z: Record, k: SortKey, descending: bool)
    requires InOrder(x, y, k, descending) && InOrder(y, z, k, descending)
    ensures InOrder(x, z, k, descending)
  {
    PrecedesStrictTotalOrder(KeyOf(z, k), KeyOf(x, k), KeyOf(y, k), descending);
    PrecedesStrictTotalOrder(KeyOf(x, k), KeyOf(y, k), KeyOf(z, k), descending);
  }

  /** Non-decreasing by key when ascending, non-increasing when descending. */
  ghost predicate Sorted(s: seq<Record>, k: SortKey, descending: bool)
  {
    forall i, j :: 0 <= i < j < |s| ==> InOrder(s[i], s[j], k, descending)
  }

  /** Every key has the same kind, so Python can compare any two of them. */
  predicate UniformKeys(s: seq<Record>, k: SortKey)
  {
    || (forall i :: 0 <= i < |s| ==> KeyOf(s[i], k).Num?)
    || (forall i :: 0 <= i < |s| ==> KeyOf(s[i], k).Text?)
  }

  /** The records of `s` whose key is `v`, in their order in `s`. */
  function WithKey(s: seq<Record>, k: SortKey, v: Field): (r: seq<Record>)
  {
    if |s| == 0 then []
    else (if KeyOf(s[0], k) == v then [s[0]] else []) + WithKey(s[1..], k, v)
  }

  /**
    `t` keeps the relative order of every group of records with equal keys in
    `s`: this is what a stable sort promises.
   */
  ghost predicate SameKeyOrder(s: seq<Record>, t: seq<Record>, k: SortKey)
  {
    forall v :: WithKey(t, k, v) == WithKey(s, k, v)
  }

  lemma {:induction false} WithKeyMembers(s: seq<Record>, k: SortKey, v: Field)
    ensures forall i :: 0 <= i < |WithKey(s, k, v)| ==>
      KeyOf(WithKey(s, k, v)[i], k) == v && WithKey(s, k, v)[i] in s
  {
    if |s| > 0 {
      WithKeyMembers(s[1..], k, v);
      var r, tail := WithKey(s, k, v), WithKey(s[1..], k, v);
      var head := if KeyOf(s[0], k) == v then [s[0]] else [];
      assert r == head + tail;
      forall i | 0 <= i < |r|
        ensures KeyOf(r[i], k) == v && r[i] in s
      {
        if i < |head| {
          assert r[i] == s[0];
        } else {
          var t := i - |head|;
          assert r[i] == tail[t];
          assert KeyOf(tail[t], k) == v && tail[t] in s[1..];
          var m :| 0 <= m < |s[1..]| && s[1..][m] == tail[t];
          assert s[m + 1] == r[i];
        }
      }
    }
  }

  lemma WithKeyHead(s: seq<Record>, k: SortKey)
    requires |s| > 0
    ensures WithKey(s, k, KeyOf(s[0], k)) != []
  {
  }

  lemma {:induction false} WithKeyAppend(a: seq<Record>, b: seq<Record>, k: SortKey, v: Field)
    ensures WithKey(a + b, k, v) == WithKey(a, k, v) + WithKey(b, k, v)
  {
    if |a| == 0 {
      assert a + b == b;
    } else {
      var h := if KeyOf(a[0], k) == v then [a[0]] else [];
      var wa, wb := WithKey(a[1..], k, v), WithKey(b, k, v);
      assert (a + b)[0] == a[0] && (a + b)[1..] == a[1..] + b;
      assert WithKey(a + b, k, v) == h + WithKey(a[1..] + b, k, v);
      WithKeyAppend(a[1..], b, k, v);
      assert h + (wa + wb) == (h + wa) + wb;
    }
  }

  lemma {:induction false} WithKeyNone(s: seq<Record>, k: SortKey, v: Field)
    requires forall i :: 0 <= i < |s| ==> KeyOf(s[i], k) != v
    ensures WithKey(s, k, v) == []
  {
    if |s| > 0 {
      WithKeyNone(s[1..], k, v);
    }
  }

  lemma SwapPairKeepsKeyOrder(x: Record, y: Record, rest: seq<Record>, k: SortKey, v: Field)
    requires KeyOf(x, k) != KeyOf(y, k)
    ensures WithKey([x, y] + rest, k, v) == WithKey([y, x] + rest, k, v)
  {
    assert [x, y] + rest == [x] + ([y] + rest);
    assert [y, x] + rest == [y] + ([x] + rest);
    WithKeyCons(x, [y] + rest, k, v);
    WithKeyCons(y, rest, k, v);
    WithKeyCons(y, [x] + rest, k, v);
    WithKeyCons(x, rest, k, v);
  }

  lemma WithKeyCons(x: Record, rest: seq<Record>, k: SortKey, v: Field)
    ensures WithKey([x] + rest, k, v) == (if KeyOf(x, k) == v then [x] else []) + WithKey(rest, k, v)
  {
    assert ([x] + rest)[1..] == rest;
  }

  /** Swapping two neighbours with different keys keeps every key group in order. */
  lemma SwapKeepsKeyOrder(s: seq<Record>, j: nat, k: SortKey)
    requires j + 1 < |s|
    requires KeyOf(s[j], k) != KeyOf(s[j + 1], k)
    ensures SameKeyOrder(s, s[j := s[j + 1]][j + 1 := s[j]], k)
  {
    var t := s[j := s[j + 1]][j + 1 := s[j]];
    var front, back := s[..j], s[j + 2..];
    assert s == front + ([s[j], s[j + 1]] + back);
    assert t == front + ([s[j + 1], s[j]] + back);
    forall v
      ensures WithKey(t, k, v) == WithKey(s, k, v)
    {
      WithKeyAppend(front, [s[j], s[j + 1]] + back, k, v);
      WithKeyAppend(front, [s[j + 1], s[j]] + back, k, v);
      SwapPairKeepsKeyOrder(s[j], s[j + 1], back, k, v);
    }
  }

  /** A strictly earlier key stays strictly earlier than anything after it. */
  lemma PrecedesThenInOrder(a: Field, b: Field, c: Field, descending: bool)
    requires Precedes(a, b, descending) && !Precedes(c, b, descending)
    ensures Precedes(a, c, descending)
  {
    PrecedesStrictTotalOrder(a, c, b, descending);
    PrecedesStrictTotalOrder(c, a, b, descending);
  }

  /** `x` may stand before every record of `s`. */
  ghost predicate AllAfter(x: Record, s: seq<Record>, k: SortKey, descending: bool)
  {
    forall i :: 0 <= i < |s| ==> InOrder(x, s[i], k, descending)
  }

  lemma SortedCons(x: Record, s: seq<Record>, k: SortKey, descending: bool)
    requires AllAfter(x, s, k, descending) && Sorted(s, k, descending)
    ensures Sorted([x] + s, k, descending)
  {
    var t := [x] + s;
    forall i, j | 0 <= i < j < |t|
      ensures InOrder(t[i], t[j], k, descending)
    {
      if i > 0 {
        assert t[i] == s[i - 1] && t[j] == s[j - 1];
      } else {
        assert t[j] == s[j - 1];
      }
    }
  }

  /** A sequence is sorted when each record is in order with its neighbour. */
  lemma {:induction false} AdjacentInOrderSorted(s: seq<Record>, k: SortKey, descending: bool)
    requires forall p :: 0 <= p < |s| - 1 ==> InOrder(s[p], s[p + 1], k, descending)
    ensures Sorted(s, k, descending)
  {
    if |s| > 1 {
      AdjacentInOrderSorted(s[1..], k, descending);
      forall i | 0 <= i < |s[1..]|
        ensures InOrder(s[0], s[1..][i], k, descending)
      {
        if i > 0 {
          assert InOrder(s[1], s[1..][i], k, descending);
          InOrderTransitive(s[0], s[1], s[1..][i], k, descending);
        }
      }
      SortedCons(s[0], s[1..], k, descending);
      assert [s[0]] + s[1..] == s;
    }
  }

  /** `AllAfter` holds of any rearrangement of records it holds of. */
  lemma AllAfterMultiset(x: Record, a: seq<Record>, b: seq<Record>, m: seq<Record>, k: SortKey, descending: bool)
    requires AllAfter(x, a, k, descending) && AllAfter(x, b, k, descending)
    requires multiset(m) == multiset(a) + multiset(b)
    ensures AllAfter(x, m, k, descending)
  {
    forall i | 0 <= i < |m|
      ensures InOrder(x, m[i], k, descending)
    {
      assert m[i] in multiset(m);
      if m[i] in multiset(a) {
        var p :| 0 <= p < |a| && a[p] == m[i];
      } else {
        assert m[i] in multiset(b);
        var p :| 0 <= p < |b| && b[p] == m[i];
      }
    }
  }

  /** A sorted front, a sorted back, and every front record in order with every back one. */
  lemma SortedSplit(s: seq<Record>, m: nat, k: SortKey, descending: bool)
    requires m <= |s|
    requires Sorted(s[..m], k, descending) && Sorted(s[m..], k, descending)
    requires forall p, q :: 0 <= p < m <= q < |s| ==> InOrder(s[p], s[q], k, descending)
    ensures Sorted(s, k, descending)
  {
    forall i, j | 0 <= i < j < |s|
      ensures InOrder(s[i], s[j], k, descending)
    {
      if j < m {
        assert s[..m][i] == s[i] && s[..m][j] == s[j];
      } else if m <= i {
        assert s[m..][i - m] == s[i] && s[m..][j - m] == s[j];
      }
    }
  }

  lemma SameKeyOrderTransitive(a: seq<Record>, b: seq<Record>, c: seq<Record>, k: SortKey)
    requires SameKeyOrder(a, b, k) && SameKeyOrder(b, c, k)
    ensures SameKeyOrder(a, c, k)
  {
    forall v
      ensures WithKey(c, k, v) == WithKey(a, k, v)
    {
      assert WithKey(c, k, v) == WithKey(b, k, v);
    }
  }

  /**
    Two sequences sorted by the same key, in the same direction, with the same
    records in every key group, are the same sequence: a stable sort has only
    one possible result.
   */
  lemma {:induction false} StableSortUnique(a: seq<Record>, b: seq<Record>, k: SortKey, descending: bool)
    requires Sorted(a, k, descending) && Sorted(b, k, descending)
    requires SameKeyOrder(a, b, k)
    ensures a == b
    decreases |a|
  {
    if |a| == 0 && |b| == 0 {
      return;
    }
    if |a| == 0 || |b| == 0 {
      WithKeyHead(if |a| == 0 then b else a, k);
      assert false;
    }
    SameFront(a, b, k, descending);
    SameKeyOrderTail(a, b, k);
    SortedTail(a, k, descending);
    SortedTail(b, k, descending);
    StableSortUnique(a[1..], b[1..], k, descending);
    assert a == [a[0]] + a[1..] && b == [b[0]] + b[1..];
  }

  /** Two stable sorts of the same records start with the same record. */
  lemma SameFront(a: seq<Record>, b: seq<Record>, k: SortKey, descending: bool)
    requires |a| > 0 && |b| > 0
    requires Sorted(a, k, descending) && Sorted(b, k, descending)
    requires SameKeyOrder(a, b, k)
    ensures a[0] == b[0]
  {
    var va, vb := KeyOf(a[0], k), KeyOf(b[0], k);
    var ga := WithKey(a, k, va);
    WithKeyMembers(b, k, va);
    WithKeyMembers(a, k, vb);
    assert ga[0] == a[0];
    assert ga == WithKey(b, k, va);
    assert ga[0] in b;
    var jb :| 0 <= jb < |b| && b[jb] == ga[0];
    assert jb == 0 || InOrder(b[0], b[jb], k, descending);
    var gb := WithKey(b, k, vb);
    assert gb[0] == b[0];
    assert gb == WithKey(a, k, vb);
    assert gb[0] in a;
    var ja :| 0 <= ja < |a| && a[ja] == gb[0];
    assert ja == 0 || InOrder(a[0], a[ja], k, descending);
    PrecedesStrictTotalOrder(va, vb, va, descending);
    assert va == vb;
  }

  /** Dropping a common first record keeps the key groups equal. */
  lemma SameKeyOrderTail(a: seq<Record>, b: seq<Record>, k: SortKey)
    requires |a| > 0 && |b| > 0 && a[0] == b[0]
    requires SameKeyOrder(a, b, k)
    ensures SameKeyOrder(a[1..], b[1..], k)
  {
    forall v
      ensures WithKey(a[1..], k, v) == WithKey(b[1..], k, v)
    {
      var head := if KeyOf(a[0], k) == v then [a[0]] else [];
      assert WithKey(a, k, v) == head + WithKey(a[1..], k, v);
      assert WithKey(b, k, v) == head + WithKey(b[1..], k, v);
      assert WithKey(a[1..], k, v) == WithKey(a, k, v)[|head|..];
    }
  }

  lemma SortedTail(a: seq<Record>, k: SortKey, descending: bool)
    requires |a| > 0 && Sorted(a, k, descending)
    ensures Sorted(a[1..], k, descending)
  {
    forall i, j | 0 <= i < j < |a| - 1
      ensures InOrder(a[1..][i], a[1..][j], k, descending)
    {
      assert a[1..][i] == a[i + 1] && a[1..][j] == a[j + 1];
    }
  }
}
