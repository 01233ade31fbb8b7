/**
  Python's conversions between `int` and `str` in base 10: `str(n)` and
  `int(s)`. The parsers of every front end go through `int(s)`, and the
  printers size their columns by `len(str(n))`.
 */
module PyInt {
  import opened Seqs
  import opened PyStr

  predicate IsDigit(c: char)
  {
    '0' <= c <= '9'
  }

  function DigitChar(d: nat): (c: char)
    requires d < 10
    ensures IsDigit(c)
  {
    ('0' as int + d) as char
  }

  /** Decimal digits of `n`, most significant first, without leading zeros. */
  function ShowNat(n: nat): (s: string)
    ensures |s| > 0
    ensures forall i :: 0 <= i < |s| ==> IsDigit(s[i])
    ensures s[0] == '0' ==> n == 0
  {
    if n < 10 then [DigitChar(n)] else ShowNat(n / 10) + [DigitChar(n % 10)]
  }

  /** `str(n)`. */
  function Show(n: int): string
  {
    if n < 0 then "-" + ShowNat(-n) else ShowNat(n)
  }

  /**
    The digit part that `int()` accepts in base 10: digits, where single
    underscores may separate two digits (`"1_000"`).
   */
  predicate DigitBody(b: string)
  {
    && |b| > 0
    && IsDigit(b[0])
    && IsDigit(b[|b| - 1])
    && (forall i | 0 <= i < |b| :: IsDigit(b[i]) || b[i] == '_')
    && (forall i | 0 <= i < |b| - 1 :: b[i] == '_' ==> b[i + 1] != '_')
  }

  /** The value of a digit body, underscores ignored. */
  function BodyValue(b: string): nat
  {
    if |b| == 0 then 0
    else if b[|b| - 1] == '_' then BodyValue(b[..|b| - 1])
    else
      var d := b[|b| - 1] as int - '0' as int;
      BodyValue(b[..|b| - 1]) * 10 + (if 0 <= d then d else 0)
  }

  /**
    The ASCII information separators U+001C to U+001F: whitespace to
    `str.isspace` and `str.strip`, but not to `int`, which skips only the
    ASCII whitespace `\t` to `\r` and space (and maps other Unicode
    whitespace to a space first).
   */
  predicate IsInfoSeparator(c: char)
  {
    '\U{1C}' <= c <= '\U{1F}'
  }

  /** The whitespace `strip()` removes from `s`: its leading run, then its trailing one. */
  function EdgeSpace(s: string): (e: string)
    ensures |e| + |Strip(s)| == |s|
    ensures AllSpace(e)
  {
    var l := LStrip(s);
    var t := Strip(s);
    assert forall i :: 0 <= i < |l| - |t| ==> l[|t|..][i] == l[|t| + i];
    s[..|s| - |l|] + l[|t|..]
  }

  /**
    Whether `int(s)` stops stripping before `strip()` does: an information
    separator lies in the whitespace `strip()` would remove. Such a
    separator is then left at an end of the text, where it is neither a
    sign nor a digit.
   */
  predicate EdgeSeparator(s: string)
  {
    exists i | 0 <= i < |EdgeSpace(s)| :: IsInfoSeparator(EdgeSpace(s)[i])
  }

  /**
    `int(s)`: `None` where Python raises `ValueError`. Surrounding whitespace
    other than the information separators is ignored, one sign is allowed,
    and the rest must be a digit body.
   */
  function Parse(s: string): (r: Option<int>)
    ensures var t := Strip(s);
      r.Some? <==> !EdgeSeparator(s) && (DigitBody(t) || (|t| > 0 && (t[0] == '+' || t[0] == '-') && DigitBody(t[1..])))
  {
    if EdgeSeparator(s) then None else ParseStripped(Strip(s))
  }

  /** `int(t)` for a `t` that has already been stripped. */
  function ParseStripped(t: string): Option<int>
  {
    if |t| == 0 then None
    else if t[0] == '-' then
      if DigitBody(t[1..]) then Some(0 - BodyValue(t[1..]) as int) else None
    else if t[0] == '+' then
      if DigitBody(t[1..]) then Some(BodyValue(t[1..])) else None
    else if DigitBody(t) then Some(BodyValue(t))
    else None
  }

  lemma {:induction false} BodyValueShowNat(n: nat)
    ensures BodyValue(ShowNat(n)) == n
  {
    if n >= 10 {
      var s := ShowNat(n);
      assert s[..|s| - 1] == ShowNat(n / 10);
      BodyValueShowNat(n / 10);
    }
  }

  lemma ShowNatIsBody(m: nat)
    ensures DigitBody(ShowNat(m))
    ensures BodyValue(ShowNat(m)) == m
  {
    BodyValueShowNat(m);
  }

  /** `int(str(n)) == n` for every integer. */
  lemma ParseShow(n: int)
    ensures Parse(Show(n)) == Some(n)
  {
    ShowIsStripped(n);
    ParseStrippedShow(n);
  }

  lemma ShowIsStripped(n: int)
    ensures Strip(Show(n)) == Show(n)
    ensures !EdgeSeparator(Show(n))
  {
    var s := Show(n);
    assert IsDigit(s[|s| - 1]);
    assert !IsSpace(s[0]) && !IsSpace(s[|s| - 1]);
    StripNoEdgeSpace(s);
    assert |EdgeSpace(s)| == 0;
  }

  lemma ParseStrippedShow(n: int)
    ensures ParseStripped(Show(n)) == Some(n)
  {
    var s := Show(n);
    var d := ShowNat(if n < 0 then -n else n);
    ShowNatIsBody(if n < 0 then -n else n);
    if n < 0 {
      assert s[1..] == d;
    } else {
      assert s == d;
    }
  }

  /**
    `int()` ignores the whitespace around the number that `strip()` removes,
    except that an information separator there makes it fail where
    `int(s.strip())` would not.
   */
  lemma ParseIgnoresStrip(s: string)
    ensures !EdgeSeparator(s) ==> Parse(s) == Parse(Strip(s))
    ensures EdgeSeparator(s) ==> Parse(s).None?
  {
    StripIdempotent(s);
    StripNoEdgeSeparator(s);
  }

  /** Stripped text has no whitespace left to remove. */
  lemma StripNoEdgeSeparator(s: string)
    ensures !EdgeSeparator(Strip(s))
  {
    var t := Strip(s);
    StripSpec(s);
    StripNoEdgeSpace(t);
    assert |EdgeSpace(t)| == 0;
  }

  /**
    `int` skips a leading ASCII space but not a leading information
    separator, which `strip()` would have removed.
   */
  lemma ParseLeadingSeparator(s: string)
    requires |s| > 0 && IsInfoSeparator(s[0])
    ensures Parse(s).None?
    ensures Parse(" " + s).None?
  {
    var p := " " + s;
    assert IsSpace(s[0]);
    assert LeadingSpaces(s) > 0;
    assert EdgeSpace(s)[0] == s[0];
    assert p[1..] == s;
    assert LeadingSpaces(p) > 1;
    assert EdgeSpace(p)[1] == s[0];
  }

  /** Longer numbers need no fewer digits. */
  lemma {:induction false} ShowNatLengthMonotone(a: nat, b: nat)
    requires a <= b
    ensures |ShowNat(a)| <= |ShowNat(b)|
  {
    if a >= 10 {
      ShowNatLengthMonotone(a / 10, b / 10);
    }
  }

  /**
    Every integer between `lo` and `hi` prints in no more characters than the
    longer of `str(lo)` and `str(hi)`.
   */
  lemma ShowFitsBetween(x: int, lo: int, hi: int)
    requires lo <= x <= hi
    ensures |Show(x)| <= |Show(lo)| || |Show(x)| <= |Show(hi)|
  {
    if x >= 0 {
      ShowNatLengthMonotone(x, hi);
    } else {
      ShowNatLengthMonotone(-x, -lo);
    }
  }

  /** `str(x)` for each element, one per line. */
  function ShowAll(xs: seq<int>): (lines: seq<string>)
    ensures |lines| == |xs|
    ensures forall i :: 0 <= i < |xs| ==> lines[i] == Show(xs[i])
  {
    if |xs| == 0 then [] else [Show(xs[0])] + ShowAll(xs[1..])
  }

  /** A printed integer is on one line. */
  lemma ShowHasNoNewline(x: int)
    ensures '\n' !in Show(x)
  {
    var d := ShowNat(if x < 0 then -x else x);
    if x < 0 {
      assert forall i :: 1 <= i < |Show(x)| ==> Show(x)[i] == d[i - 1];
    }
  }
}
