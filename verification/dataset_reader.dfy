/**
  `read_dataset` of the standalone integer sorter, over the lines of a file
  that has already been read. Each non-blank line is cut into tokens; the
  most common token length is taken as the typical width of a number; a
  token longer than one and a half times that width is taken to be several
  numbers written without separators and is cut into pieces of the typical
  width; tokens (or pieces) that are not integers are skipped.
 */
module DatasetReader {
  import opened Seqs
  import opened PyStr
  import opened PyInt

  /** A character the tokeniser separates on once a line has a comma or a space. */
  predicate IsSep(c: char)
  {
    c == ',' || IsSpace(c)
  }

  /** The characters of `s` that are not separators, in order. */
  function NonSep(s: string): string
  {
    if |s| == 0 then [] else (if IsSep(s[0]) then [] else [s[0]]) + NonSep(s[1..])
  }

  lemma {:induction false} NonSepAppend(a: string, b: string)
    ensures NonSep(a + b) == NonSep(a) + NonSep(b)
  {
    if |a| == 0 {
      assert a + b == b;
    } else {
      assert (a + b)[1..] == a[1..] + b;
      NonSepAppend(a[1..], b);
    }
  }

  lemma {:induction false} NonSepOfSpace(s: string)
    requires AllSpace(s)
    ensures NonSep(s) == []
  {
    if |s| > 0 {
      NonSepOfSpace(s[1..]);
    }
  }

  /** `s.replace(',', ' ')`. */
  function CommasToSpaces(s: string): (r: string)
    ensures |r| == |s|
    ensures forall i :: 0 <= i < |s| ==> r[i] == (if s[i] == ',' then ' ' else s[i])
  {
    if |s| == 0 then "" else [if s[0] == ',' then ' ' else s[0]] + CommasToSpaces(s[1..])
  }

  /** Whitespace after the replacement is exactly the separators before it. */
  lemma {:induction false} NonSpaceOfReplaced(s: string)
    ensures NonSpace(CommasToSpaces(s)) == NonSep(s)
  {
    if |s| > 0 {
      assert CommasToSpaces(s)[1..] == CommasToSpaces(s[1..]);
      NonSpaceOfReplaced(s[1..]);
    }
  }

  /** Stripping removes only separators. */
  lemma NonSepOfStrip(s: string)
    ensures NonSep(Strip(s)) == NonSep(s)
  {
    var l := LStrip(s);
    var r := RStrip(l);
    LStripSplit(s);
    RStripSplit(l);
    NonSepSpaceAround(s[..|s| - |l|], l, []);
    NonSepSpaceAround([], r, l[|r|..]);
  }

  lemma LStripSplit(s: string)
    ensures s == s[..|s| - |LStrip(s)|] + LStrip(s)
  {
    var l := LStrip(s);
    assert l == s[|s| - |l|..];
  }

  lemma RStripSplit(s: string)
    ensures s == RStrip(s) + s[|RStrip(s)|..]
  {
    var r := RStrip(s);
    assert r == s[..|r|];
  }

  /** Whitespace around a string adds no non-separators. */
  lemma NonSepSpaceAround(pre: string, mid: string, post: string)
    requires AllSpace(pre) && AllSpace(post)
    ensures NonSep(pre + mid) == NonSep(mid)
    ensures NonSep(mid + post) == NonSep(mid)
  {
    NonSepAppend(pre, mid);
    NonSepAppend(mid, post);
    NonSepOfSpace(pre);
    NonSepOfSpace(post);
  }

  /** `',' in stripped or ' ' in stripped`. */
  predicate HasSeparator(s: string)
  {
    ',' in s || ' ' in s
  }

  /**
    The tokens of one line. A blank line has none. A line whose stripped
    form holds a comma or a space yields its comma- or whitespace-separated
    pieces, and these hold exactly the line's non-separator characters, in
    order. Any other line is one token, the stripped line. No token is
    empty, and none holds a comma or a space.
   */
  function LineTokens(line: string): (ts: seq<string>)
    ensures forall i :: 0 <= i < |ts| ==> |ts[i]| > 0 && ',' !in ts[i] && ' ' !in ts[i]
    ensures |ts| == 0 <==> |NonSep(line)| == 0
    ensures HasSeparator(Strip(line)) ==> Flatten(ts) == NonSep(line)
    ensures !HasSeparator(Strip(line)) && |Strip(line)| > 0 ==> ts == [Strip(line)]
  {
    var stripped := Strip(line);
    if |stripped| == 0 then
      NonSepOfStrip(line);
      []
    else if HasSeparator(stripped) then
      SeparatedTokens(line);
      Words(CommasToSpaces(stripped))
    else
      PlainToken(line);
      [stripped]
  }

  /**
    The tokens of a line are its comma-separated fields: joining two or more
    non-empty fields free of separators with commas, and reading the line
    back, gives the fields.
   */
  lemma LineTokensOfCommaJoin(ws: seq<string>)
    requires |ws| >= 2
    requires forall i :: 0 <= i < |ws| ==> |ws[i]| > 0 && (forall k :: 0 <= k < |ws[i]| ==> !IsSep(ws[i][k]))
    ensures LineTokens(Join(ws, ",")) == ws
  {
    var line := Join(ws, ",");
    JoinEdges(ws, ",");
    StripNoEdgeSpace(line);
    assert line == ws[0] + "," + Join(ws[1..], ",");
    assert line[|ws[0]|] == ',';
    CommaJoinReplaced(ws);
    forall i | 0 <= i < |ws|
      ensures |ws[i]| > 0 && NoSpace(ws[i])
    {
      assert forall k :: 0 <= k < |ws[i]| ==> !IsSep(ws[i][k]);
    }
    WordsOfJoin(ws);
  }

  /** A joined text starts with the first part and ends with the last. */
  lemma {:induction false} JoinEdges(ws: seq<string>, sep: string)
    requires |ws| > 0 && forall i :: 0 <= i < |ws| ==> |ws[i]| > 0
    ensures var j := Join(ws, sep); |j| > 0 && j[0] == ws[0][0] && j[|j| - 1] == ws[|ws| - 1][|ws[|ws| - 1]| - 1]
  {
    if |ws| > 1 {
      JoinEdges(ws[1..], sep);
    }
  }

  /** Reading the commas of a comma-joined line as spaces gives the space-joined line. */
  lemma {:induction false} CommaJoinReplaced(ws: seq<string>)
    requires forall i :: 0 <= i < |ws| ==> ',' !in ws[i]
    ensures CommasToSpaces(Join(ws, ",")) == Join(ws, " ")
  {
    if |ws| == 1 {
      assert CommasToSpaces(ws[0]) == ws[0];
    } else if |ws| > 1 {
      CommaJoinReplaced(ws[1..]);
      var a, b := ws[0] + ",", Join(ws[1..], ",");
      assert Join(ws, ",") == a + b;
      CommasToSpacesAppend(a, b);
      assert CommasToSpaces(a) == ws[0] + " ";
    }
  }

  lemma CommasToSpacesAppend(a: string, b: string)
    ensures CommasToSpaces(a + b) == CommasToSpaces(a) + CommasToSpaces(b)
  {
  }

  lemma SeparatedTokens(line: string)
    ensures var ts := Words(CommasToSpaces(Strip(line)));
      && (forall i :: 0 <= i < |ts| ==> |ts[i]| > 0 && ',' !in ts[i] && ' ' !in ts[i])
      && (|ts| == 0 <==> |NonSep(line)| == 0)
      && Flatten(ts) == NonSep(line)
  {
    SeparatedWords(Strip(line));
    NonSepOfStrip(line);
  }

  /** Splitting with commas read as spaces yields the non-separator characters, in words. */
  lemma SeparatedWords(s: string)
    ensures var ts := Words(CommasToSpaces(s));
      && (forall i :: 0 <= i < |ts| ==> |ts[i]| > 0 && ',' !in ts[i] && ' ' !in ts[i])
      && (|ts| == 0 <==> |NonSep(s)| == 0)
      && Flatten(ts) == NonSep(s)
  {
    var ts := Words(CommasToSpaces(s));
    NonSpaceOfReplaced(s);
    forall i | 0 <= i < |ts|
      ensures ',' !in ts[i] && ' ' !in ts[i]
    {
      WordHasNoComma(CommasToSpaces(s), ts, i);
    }
    FlattenEmpty(ts);
  }

  lemma PlainToken(line: string)
    requires |Strip(line)| > 0 && !HasSeparator(Strip(line))
    ensures |NonSep(line)| > 0
  {
    var stripped := Strip(line);
    NonSepOfStrip(line);
    StripSpec(line);
    assert stripped[0] != ',' by {
      assert stripped[0] in stripped;
    }
    NonSepFront(stripped);
  }

  lemma NonSepFront(s: string)
    requires |s| > 0 && !IsSep(s[0])
    ensures |NonSep(s)| > 0
  {
  }

  lemma {:induction false} FlattenEmpty(ts: seq<string>)
    requires forall i :: 0 <= i < |ts| ==> |ts[i]| > 0
    ensures |ts| == 0 <==> |Flatten(ts)| == 0
  {
  }

  /** The words of a string without commas hold no comma and no space. */
  lemma WordHasNoComma(r: string, ws: seq<string>, i: nat)
    requires ws == Words(r) && i < |ws|
    requires ',' !in r
    ensures ',' !in ws[i] && ' ' !in ws[i]
  {
    WordsFromSource(r, ws, i);
  }

  lemma {:induction false} WordsFromSource(r: string, ws: seq<string>, i: nat)
    requires ws == Words(r) && i < |ws|
    ensures forall c :: c in ws[i] ==> c in r && !IsSpace(c)
    decreases |r|
  {
    if |r| > 0 {
      if IsSpace(r[0]) {
        WordsFromSource(r[1..], ws, i);
      } else {
        var n := RunLength(r);
        if i > 0 {
          WordsFromSource(r[n..], Words(r[n..]), i - 1);
        }
      }
    }
  }

  /** The tokens of all lines, line by line. */
  function Tokens(lines: seq<string>): (ts: seq<string>)
    ensures forall i :: 0 <= i < |ts| ==> |ts[i]| > 0 && ',' !in ts[i] && ' ' !in ts[i]
  {
    if |lines| == 0 then [] else LineTokens(lines[0]) + Tokens(lines[1..])
  }

  function Lengths(ts: seq<string>): (ls: seq<nat>)
    ensures |ls| == |ts|
    ensures forall i :: 0 <= i < |ts| ==> ls[i] == |ts[i]|
  {
    if |ts| == 0 then [] else [|ts[0]|] + Lengths(ts[1..])
  }

  /**
    `Counter(xs).most_common(1)[0][0]`: a value occurring most often, and
    among those the one that occurs first.
   */
  ghost predicate IsMode(xs: seq<nat>, m: nat)
  {
    && m in xs
    && (forall j :: 0 <= j < |xs| ==> Count(xs, xs[j]) <= Count(xs, m))
    && (forall j :: 0 <= j < |xs| && Count(xs, xs[j]) == Count(xs, m) ==> IndexOf(xs, m) <= j)
  }

  /** At most one value is the mode. */
  lemma ModeUnique(xs: seq<nat>, a: nat, b: nat)
    requires IsMode(xs, a) && IsMode(xs, b)
    ensures a == b
  {
    var ia, ib := IndexOf(xs, a), IndexOf(xs, b);
    assert Count(xs, xs[ia]) <= Count(xs, b) && Count(xs, xs[ib]) <= Count(xs, a);
  }

  function Mode(xs: seq<nat>): (m: nat)
    requires |xs| > 0
    ensures IsMode(xs, m)
  {
    xs[ModeFrom(xs, 1, 0)]
  }

  /**
    Scans `xs[i..]` for a value occurring strictly more often than the best
    one so far, `xs[best]`; ties keep the earlier value.
   */
  function ModeFrom(xs: seq<nat>, i: nat, best: nat): (m: nat)
    requires best < i <= |xs|
    requires IndexOf(xs, xs[best]) == best
    requires forall j :: 0 <= j < i ==> Count(xs, xs[j]) <= Count(xs, xs[best])
    requires forall j :: 0 <= j < i && Count(xs, xs[j]) == Count(xs, xs[best]) ==> best <= j
    ensures m < |xs| && IsMode(xs, xs[m])
    decreases |xs| - i
  {
    if i == |xs| then best
    else if Count(xs, xs[i]) > Count(xs, xs[best]) then
      assert forall j :: 0 <= j < i ==> xs[j] != xs[i];
      ModeFrom(xs, i + 1, i)
    else
      ModeFrom(xs, i + 1, best)
  }

  /** `int(typical_length * 1.5)`: for a whole number `t` this is `3 * t // 2`. */
  function Threshold(t: nat): nat
  {
    (3 * t) / 2
  }

  /**
    The pieces of one over-long token are converted in order until the first
    one that is not an integer; the `ValueError` ends the token, and the
    pieces already converted are kept.
   */
  function ParsePrefix(cs: seq<string>, value: string -> Option<int>): (r: seq<int>)
    ensures |r| <= |cs|
    ensures forall i :: 0 <= i < |r| ==> value(cs[i]) == Some(r[i])
    ensures |r| < |cs| ==> value(cs[|r|]).None?
  {
    if |cs| == 0 then []
    else match value(cs[0])
      case None => []
      case Some(v) => [v] + ParsePrefix(cs[1..], value)
  }

  /** What one token contributes, given the typical length `t`. */
  function TokenValues(val: string, t: nat): (r: seq<int>)
    ensures |val| <= Threshold(t) || t == 0 ==> r == (if Parse(val).Some? then [Parse(val).value] else [])
    ensures |val| > Threshold(t) && t > 0 ==>
      var cs := Chunks(val, t);
      && |r| <= |cs|
      && (forall i :: 0 <= i < |r| ==> Parse(cs[i]) == Some(r[i]))
      && (|r| < |cs| ==> Parse(cs[|r|]).None?)
  {
    if |val| > Threshold(t) && t > 0 then ParsePrefix(Chunks(val, t), Parse)
    else match Parse(val)
      case None => []
      case Some(v) => [v]
  }

  /** What the tokens contribute, token by token, given the typical length `t`. */
  function Values(ts: seq<string>, t: nat): seq<int>
  {
    if |ts| == 0 then [] else TokenValues(ts[0], t) + Values(ts[1..], t)
  }

  /**
    Tokens are read independently: the values of two runs of tokens are the
    values of the first run followed by those of the second.
   */
  lemma {:induction false} ValuesAppend(a: seq<string>, b: seq<string>, t: nat)
    ensures Values(a + b, t) == Values(a, t) + Values(b, t)
  {
    if |a| == 0 {
      assert a + b == b;
    } else {
      assert (a + b)[1..] == a[1..] + b;
      ValuesAppend(a[1..], b, t);
    }
  }

  /**
    `read_dataset` on the lines of a file: no tokens give no numbers;
    otherwise every token is read with the most common token length (the
    first to occur among equally common ones) as the typical width.
   */
  function ReadDataset(lines: seq<string>): (r: seq<int>)
    ensures |Tokens(lines)| == 0 ==> r == []
    ensures |Tokens(lines)| > 0 ==> exists t :: IsMode(Lengths(Tokens(lines)), t) && r == Values(Tokens(lines), t)
  {
    var ts := Tokens(lines);
    if |ts| == 0 then [] else Values(ts, Mode(Lengths(ts)))
  }

  /** A printed integer is a line with one token: itself. */
  lemma ShowTokens(x: int)
    ensures LineTokens(Show(x)) == [Show(x)]
  {
    var s := Show(x);
    var d := ShowNat(if x < 0 then -x else x);
    assert forall i :: 0 <= i < |s| ==> s[i] == '-' || IsDigit(s[i]) by {
      if x < 0 {
        assert forall i :: 1 <= i < |s| ==> s[i] == d[i - 1];
      }
    }
    StripNoEdgeSpace(s);
    assert ',' !in s && ' ' !in s;
  }

  lemma {:induction false} TokensOfShown(xs: seq<int>)
    ensures Tokens(ShowAll(xs)) == ShowAll(xs)
  {
    if |xs| > 0 {
      ShowTokens(xs[0]);
      TokensOfShown(xs[1..]);
      assert ShowAll(xs)[1..] == ShowAll(xs[1..]);
    }
  }

  lemma {:induction false} ValuesOfShown(xs: seq<int>, t: nat)
    requires forall i :: 0 <= i < |xs| ==> |Show(xs[i])| <= Threshold(t)
    ensures Values(ShowAll(xs), t) == xs
  {
    if |xs| > 0 {
      var ss := ShowAll(xs);
      assert ss[0] == Show(xs[0]) && ss[1..] == ShowAll(xs[1..]);
      assert TokenValues(ss[0], t) == [xs[0]] by {
        ParseShow(xs[0]);
      }
      ValuesOfShown(xs[1..], t);
      assert xs == [xs[0]] + xs[1..];
    }
  }

  /**
    Integers written one per line are read back exactly, provided no printed
    number is more than one and a half times as long as another, so that no
    token looks like several numbers run together.
   */
  lemma ReadShown(xs: seq<int>)
    requires forall i, j :: 0 <= i < |xs| && 0 <= j < |xs| ==> 2 * |Show(xs[i])| <= 3 * |Show(xs[j])|
    ensures ReadDataset(ShowAll(xs)) == xs
  {
    TokensOfShown(xs);
    var ts := ShowAll(xs);
    if |ts| > 0 {
      var ls := Lengths(ts);
      var t := Mode(ls);
      var j := IndexOf(ls, t);
      assert t == |Show(xs[j])|;
      ValuesOfShown(xs, t);
    }
  }

  /** Cutting pieces of one width that were glued together gives them back. */
  lemma {:induction false} ChunksOfGlued(ws: seq<string>, t: nat)
    requires t > 0 && forall i :: 0 <= i < |ws| ==> |ws[i]| == t
    ensures Chunks(Flatten(ws), t) == ws
  {
    if |ws| > 0 {
      var s := Flatten(ws);
      ChunksOfGlued(ws[1..], t);
      assert s == ws[0] + Flatten(ws[1..]);
      if |ws| == 1 {
        assert Flatten(ws[1..]) == [];
        assert s == ws[0];
      } else {
        FlattenLength(ws[1..], t);
        assert s[..t] == ws[0] && s[t..] == Flatten(ws[1..]);
        assert ws == [ws[0]] + ws[1..];
      }
    }
  }

  lemma {:induction false} FlattenLength(ws: seq<string>, t: nat)
    requires forall i :: 0 <= i < |ws| ==> |ws[i]| == t
    ensures |Flatten(ws)| == |ws| * t
  {
    if |ws| > 0 {
      FlattenLength(ws[1..], t);
    }
  }

  /** When every piece converts, the whole sequence of values comes back. */
  lemma {:induction false} ParsePrefixAll(cs: seq<string>, value: string -> Option<int>, xs: seq<int>)
    requires |cs| == |xs|
    requires forall i :: 0 <= i < |cs| ==> value(cs[i]) == Some(xs[i])
    ensures ParsePrefix(cs, value) == xs
  {
    if |cs| > 0 {
      ParsePrefixAll(cs[1..], value, xs[1..]);
      assert xs == [xs[0]] + xs[1..];
    }
  }

  /**
    Two or more numbers of the typical width written without separators
    form a token longer than the threshold, and it is read back as those
    numbers.
   */
  lemma GluedNumbersSplit(xs: seq<int>, t: nat)
    requires |xs| >= 2
    requires forall i :: 0 <= i < |xs| ==> |Show(xs[i])| == t
    ensures TokenValues(Flatten(ShowAll(xs)), t) == xs
  {
    var ws := ShowAll(xs);
    assert t == |Show(xs[0])| > 0;
    FlattenLength(ws, t);
    assert |Flatten(ws)| > Threshold(t);
    ChunksOfGlued(ws, t);
    forall i | 0 <= i < |xs|
      ensures Parse(ws[i]) == Some(xs[i])
    {
      ParseShow(xs[i]);
    }
    ParsePrefixAll(ws, Parse, xs);
  }
}
