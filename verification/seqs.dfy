/**
  Generic sequence helpers shared by the sorters and the printers: an option
  type, flattening a sequence of sequences, and cutting a sequence into
  consecutive chunks of a fixed size (the `val[i:i + k]` slicing loop that the
  dataset reader uses on over-long tokens and the grid printers use on rows).
 */
module Seqs {

  datatype Option<+T> = None | Some(value: T)

  /** The concatenation of all the pieces, in order. */
  function Flatten<T>(xs: seq<seq<T>>): seq<T>
  {
    if |xs| == 0 then [] else xs[0] + Flatten(xs[1..])
  }

  lemma {:induction false} FlattenAppend<T>(xs: seq<seq<T>>, ys: seq<seq<T>>)
    ensures Flatten(xs + ys) == Flatten(xs) + Flatten(ys)
  {
    if |xs| == 0 {
      assert xs + ys == ys;
    } else {
      assert (xs + ys)[1..] == xs[1..] + ys;
      FlattenAppend(xs[1..], ys);
    }
  }

  /** The chunk boundaries of `for i in range(0, len(s), k): s[i:i + k]`. */
  ghost predicate ChunkShape<T>(cs: seq<seq<T>>, k: nat)
  {
    && (forall i :: 0 <= i < |cs| ==> 0 < |cs[i]| <= k)
    && (forall i :: 0 <= i < |cs| - 1 ==> |cs[i]| == k)
  }

  /**
    The consecutive `k`-sized pieces of `s`, in order; the last one may be
    shorter. Concatenating the pieces gives `s` back, and there are exactly
    as many as `k`-sized pieces are needed to hold `s`.
   */
  function Chunks<T>(s: seq<T>, k: nat): (cs: seq<seq<T>>)
    requires k > 0
    ensures Flatten(cs) == s
    ensures ChunkShape(cs, k)
    ensures |cs| == 0 <==> |s| == 0
    ensures |cs| > 0 ==> (|cs| - 1) * k < |s| <= |cs| * k
    decreases |s|
  {
    if |s| == 0 then []
    else if |s| <= k then [s]
    else
      var rest := Chunks(s[k..], k);
      assert s == s[..k] + s[k..];
      assert ([s[..k]] + rest)[1..] == rest;
      assert (|rest| + 1) * k == |rest| * k + k;
      [s[..k]] + rest
  }

  /** Occurrences of `x` in `s`. */
  function Count<T(==)>(s: seq<T>, x: T): nat
  {
    if |s| == 0 then 0 else (if s[0] == x then 1 else 0) + Count(s[1..], x)
  }

  lemma {:induction false} CountAppend<T>(a: seq<T>, b: seq<T>, x: T)
    ensures Count(a + b, x) == Count(a, x) + Count(b, x)
  {
    if |a| == 0 {
      assert a + b == b;
    } else {
      assert (a + b)[1..] == a[1..] + b;
      CountAppend(a[1..], b, x);
    }
  }

  lemma {:induction false} CountAbsent<T>(s: seq<T>, x: T)
    requires forall i :: 0 <= i < |s| ==> s[i] != x
    ensures Count(s, x) == 0
  {
    if |s| > 0 {
      CountAbsent(s[1..], x);
    }
  }

  /** The position of the first occurrence of `x` in `xs`. */
  function IndexOf<T(==)>(xs: seq<T>, x: T): (i: nat)
    requires x in xs
    ensures i < |xs| && xs[i] == x
    ensures forall j :: 0 <= j < i ==> xs[j] != x
  {
    if xs[0] == x then 0 else 1 + IndexOf(xs[1..], x)
  }

  /** There are ceil(|s| / k) chunks. */
  lemma ChunkCount<T>(s: seq<T>, k: nat)
    requires |s| > 0 && k > 0
    ensures |Chunks(s, k)| == (|s| + k - 1) / k
  {
    var c := |Chunks(s, k)|;
    assert (c - 1) * k < |s| <= c * k;
    assert (c - 1) * k == c * k - k;
    DivModUnique(|s| + k - 1, k, c, |s| + k - 1 - c * k);
  }

  /** `x / p` and `x % p` are the only quotient and remainder. */
  lemma DivModUnique(x: int, p: int, d: int, m: int)
    requires p > 0 && 0 <= m < p && x == d * p + m
    ensures x % p == m && x / p == d
  {
    var d', m' := x / p, x % p;
    assert x == d' * p + m' && 0 <= m' < p;
    if d' > d {
      assert (d + 1) * p == d * p + p;
      MulMonotone(d + 1, d', p);
    } else if d' < d {
      assert (d' + 1) * p == d' * p + p;
      MulMonotone(d' + 1, d, p);
    }
  }

  lemma {:induction false} MulMonotone(a: int, b: int, p: int)
    requires a <= b && p >= 0
    ensures a * p <= b * p
    decreases b - a
  {
    if a < b {
      MulMonotone(a, b - 1, p);
      assert b * p == (b - 1) * p + p;
    }
  }
}
