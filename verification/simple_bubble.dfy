/**
  The stand-alone bubble-sort exercise: load a file of one integer per line,
  sort it ascending with the early-stopping bubble sort, and print it as a
  grid of right-justified numbers between two rules of `=` characters.
 */
module SimpleBubble {
  import opened Seqs
  import opened PyStr
  import opened PyInt
  import opened IntOrder
  import IntSorter
  import OutputFormat

  // load_dataset

  /** A line that `line.strip()` leaves empty; such lines are skipped. */
  predicate Blank(line: string)
  {
    forall i :: 0 <= i < |line| ==> IsSpace(line[i])
  }

  /** A line is blank exactly when stripping it leaves nothing. */
  lemma BlankIsStripEmpty(line: string)
    ensures Blank(line) <==> |Strip(line)| == 0
  {
    StripSpec(line);
  }

  /** The lines that are not blank, in file order. */
  function NonBlank(lines: seq<string>): (kept: seq<string>)
    ensures |kept| <= |lines|
    ensures forall i :: 0 <= i < |kept| ==> !Blank(kept[i])
  {
    if |lines| == 0 then []
    else
      var rest := NonBlank(lines[1..]);
      assert forall i :: 1 <= i < |lines| ==> lines[i] == lines[1..][i - 1];
      if Blank(lines[0]) then rest else [lines[0]] + rest
  }

  /**
    `int(line.strip())`. Since `int` strips too, this differs from
    `int(line)` only on a line with an information separator among its edge
    whitespace, which `int(line)` alone would reject.
   */
  function LineValue(line: string): (r: Option<int>)
    ensures Parse(line).Some? ==> r == Parse(line)
    ensures r != Parse(line) ==> EdgeSeparator(line) && Parse(line).None? && r.Some?
  {
    ParseIgnoresStrip(line);
    Parse(Strip(line))
  }

  /**
    The list comprehension `[value(line) for line in f if line.strip()]`,
    for a conversion `value` that may fail: `None` stands for the exception
    raised by the first non-blank line it rejects.
   */
  function Comprehension(lines: seq<string>, value: string -> Option<int>): Option<seq<int>>
  {
    if |lines| == 0 then Some([])
    else if Blank(lines[0]) then Comprehension(lines[1..], value)
    else match value(lines[0]) {
      case None => None
      case Some(x) =>
        match Comprehension(lines[1..], value) {
          case None => None
          case Some(xs) => Some([x] + xs)
        }
    }
  }

  /** Every non-blank line converts. */
  ghost predicate AllConvert(lines: seq<string>, value: string -> Option<int>)
  {
    forall i :: 0 <= i < |lines| && !Blank(lines[i]) ==> value(lines[i]).Some?
  }

  /** The comprehension raises exactly when some non-blank line does not convert. */
  lemma {:induction false} ComprehensionSucceeds(lines: seq<string>, value: string -> Option<int>)
    ensures Comprehension(lines, value).Some? <==> AllConvert(lines, value)
  {
    if |lines| > 0 {
      ComprehensionSucceeds(lines[1..], value);
      assert AllConvert(lines, value) <==> (Blank(lines[0]) || value(lines[0]).Some?) && AllConvert(lines[1..], value) by {
        assert forall i :: 1 <= i < |lines| ==> lines[i] == lines[1..][i - 1];
      }
    }
  }

  /** On success the values are those of the non-blank lines, in order. */
  lemma {:induction false} ComprehensionValues(lines: seq<string>, value: string -> Option<int>)
    requires Comprehension(lines, value).Some?
    ensures var xs := Comprehension(lines, value).value;
      |xs| == |NonBlank(lines)| && forall i :: 0 <= i < |xs| ==> value(NonBlank(lines)[i]) == Some(xs[i])
  {
    if |lines| > 0 {
      ComprehensionValues(lines[1..], value);
    }
  }

  /** Lines that are all non-blank and all convert give exactly their values. */
  lemma {:induction false} ComprehensionOfValues(lines: seq<string>, value: string -> Option<int>, xs: seq<int>)
    requires |lines| == |xs|
    requires forall i :: 0 <= i < |lines| ==> !Blank(lines[i]) && value(lines[i]) == Some(xs[i])
    ensures Comprehension(lines, value) == Some(xs)
  {
    if |lines| > 0 {
      ComprehensionOfValues(lines[1..], value, xs[1..]);
      assert xs == [xs[0]] + xs[1..];
    }
  }

  lemma {:induction false} ComprehensionSkipsBlank(before: seq<string>, blank: string, after: seq<string>, value: string -> Option<int>)
    requires Blank(blank)
    ensures Comprehension(before + [blank] + after, value) == Comprehension(before + after, value)
  {
    if |before| == 0 {
      assert before + [blank] + after == [blank] + after;
      assert ([blank] + after)[1..] == after;
      assert before + after == after;
    } else {
      ComprehensionSkipsBlank(before[1..], blank, after, value);
      assert (before + [blank] + after)[1..] == before[1..] + [blank] + after;
      assert (before + after)[1..] == before[1..] + after;
      assert (before + [blank] + after)[0] == before[0] == (before + after)[0];
    }
  }

  /**
    `load_dataset`: the integers of the non-blank lines, or the empty list
    as soon as one non-blank line is not an integer (all or nothing).
   */
  function LoadDataset(lines: seq<string>): (data: seq<int>)
    ensures !AllConvert(lines, LineValue) ==> data == []
    ensures AllConvert(lines, LineValue) ==>
      |data| == |NonBlank(lines)| && forall i :: 0 <= i < |data| ==> LineValue(NonBlank(lines)[i]) == Some(data[i])
  {
    ComprehensionSucceeds(lines, LineValue);
    match Comprehension(lines, LineValue) {
      case None => []
      case Some(xs) =>
        ComprehensionValues(lines, LineValue);
        xs
    }
  }

  /** Printing a list one number per line and loading it gives it back. */
  lemma LoadShown(xs: seq<int>)
    ensures LoadDataset(ShowAll(xs)) == xs
  {
    var lines := ShowAll(xs);
    forall i | 0 <= i < |lines|
      ensures !Blank(lines[i]) && LineValue(lines[i]) == Some(xs[i])
    {
      ShownLine(xs[i]);
    }
    ComprehensionOfValues(lines, LineValue, xs);
  }

  /** A printed number is a non-blank line that reads back as that number. */
  lemma ShownLine(x: int)
    ensures !Blank(Show(x)) && LineValue(Show(x)) == Some(x)
  {
    ParseShow(x);
    assert |Show(x)| > 0 && !IsSpace(Show(x)[0]);
  }

  /** Blank lines anywhere in the file change nothing. */
  lemma LoadSkipsBlank(before: seq<string>, blank: string, after: seq<string>)
    requires Blank(blank)
    ensures LoadDataset(before + [blank] + after) == LoadDataset(before + after)
  {
    ComprehensionSkipsBlank(before, blank, after, LineValue);
  }

  // bubble_sort

  /**
    One pass of the inner loop over `a[..m]`: neighbours with
    `arr[j] > arr[j + 1]` are swapped. Afterwards the largest element of the
    front sits at `m - 1`, nothing from `m` on has moved, and no swap
    happened exactly when the front was already in ascending order.
   */
  method Pass(a: seq<int>, m: nat) returns (b: seq<int>, swapped: bool)
    requires 0 < m <= |a|
    requires forall p, q :: 0 <= p < m <= q < |a| ==> a[p] <= a[q]
    ensures |b| == |a| && multiset(b) == multiset(a) && b[m..] == a[m..]
    ensures forall p, q :: 0 <= p < m <= q < |b| ==> b[p] <= b[q]
    ensures forall p :: 0 <= p < m ==> b[p] <= b[m - 1]
    ensures !swapped ==> b == a
    ensures !swapped <==> forall p :: 0 <= p < m - 1 ==> a[p] <= a[p + 1]
  {
    b := a;
    swapped := false;
    var j := 0;
    while j < m - 1
      invariant 0 <= j <= m - 1 && |b| == |a|
      invariant multiset(b) == multiset(a) && b[m..] == a[m..]
      invariant forall p, q :: 0 <= p < m <= q < |b| ==> b[p] <= b[q]
      invariant forall p :: 0 <= p < j ==> b[p] <= b[j]
      invariant !swapped ==> b == a && forall p :: 0 <= p < j ==> a[p] <= a[p + 1]
      invariant swapped ==> exists p :: 0 <= p < j && a[p] > a[p + 1]
    {
      if b[j] > b[j + 1] {
        var d := b[j := b[j + 1]][j + 1 := b[j]];
        IntSorter.PassSwapStep(a, b, d, m, j, false);
        b := d;
        swapped := true;
      }
      j := j + 1;
    }
  }

  /**
    `bubble_sort`: at most `len(arr)` passes over a shrinking front, stopping
    after the first pass that swaps nothing. The result is the ascending
    rearrangement of `arr`, which is the list merge sort computes. (`Passes`
    states that an already sorted list comes back unchanged after a single
    pass.)
   */
  method BubbleSort(arr: seq<int>) returns (r: seq<int>, passes: nat)
    ensures passes <= |arr|
    ensures r == MergeSortSimple(arr, false)
  {
    r, passes := Passes(arr);
    SortedIsMergeSort(arr, r, false);
  }

  /** The loop of `bubble_sort`. */
  method Passes(arr: seq<int>) returns (r: seq<int>, passes: nat)
    ensures multiset(r) == multiset(arr) && SortedInts(r, false)
    ensures passes <= |arr|
    ensures SortedInts(arr, false) ==> r == arr && passes == (if |arr| == 0 then 0 else 1)
  {
    var n := |arr|;
    var a := arr;
    var i := 0;
    passes := 0;
    while i < n
      invariant 0 <= i <= n && |a| == n && passes == i
      invariant multiset(a) == multiset(arr)
      invariant SortedBack(a, n - i, false)
      invariant SortedInts(arr, false) ==> a == arr && i == 0
    {
      if SortedInts(arr, false) {
        SortedAdjacent(a, n - i, false);
      }
      var b, swapped := Pass(a, n - i);
      passes := passes + 1;
      if !swapped {
        PassFoundSorted(a, n - i, false);
        break;
      }
      assert b[n - i..] == a[n - i..];
      PassGrowsBack(b, n - i, false);
      a := b;
      i := i + 1;
    }
    assert a[0..] == a;
    r := a;
  }

  // print_organized

  /** `'=' * count`. */
  function Rule(count: nat): (r: string)
    ensures |r| == count && forall i :: 0 <= i < count ==> r[i] == '='
  {
    if count == 0 then "" else "=" + Rule(count - 1)
  }

  const Title: string := " SORTED DATA "
  const NoDataLine: string := "No data.\n"

  /** The banner line (each `print` ends its text with a newline). */
  function Header(): string
  {
    "\n" + Rule(20) + Title + Rule(20) + "\n" + "\n"
  }

  function Footer(): string
  {
    "\n" + Rule(53) + "\n" + "\n"
  }

  function MaxOf(s: seq<int>): (m: int)
    requires |s| > 0
    ensures m in s && forall i :: 0 <= i < |s| ==> s[i] <= m
  {
    if |s| == 1 then s[0]
    else
      var rest := MaxOf(s[1..]);
      assert forall i :: 1 <= i < |s| ==> s[i] == s[1..][i - 1];
      if s[0] >= rest then s[0] else rest
  }

  function MinOf(s: seq<int>): (m: int)
    requires |s| > 0
    ensures m in s && forall i :: 0 <= i < |s| ==> m <= s[i]
  {
    if |s| == 1 then s[0]
    else
      var rest := MinOf(s[1..]);
      assert forall i :: 1 <= i < |s| ==> s[i] == s[1..][i - 1];
      if s[0] <= rest then s[0] else rest
  }

  /** `max(len(str(max(arr))), len(str(min(arr)))) + 2`. */
  function Width(arr: seq<int>): nat
    requires |arr| > 0
  {
    var a, b := |Show(MaxOf(arr))|, |Show(MinOf(arr))|;
    (if a >= b then a else b) + 2
  }

  /**
    Measuring only the largest and the smallest number is enough: every
    number, however long its sign makes it, is printed with at least two
    spaces in front, so every cell is exactly `Width(arr)` characters.
   */
  lemma CellsFit(arr: seq<int>)
    requires |arr| > 0
    ensures forall i :: 0 <= i < |arr| ==> |Show(arr[i])| + 2 <= Width(arr)
    ensures forall i :: 0 <= i < |arr| ==> |RJust(Show(arr[i]), Width(arr))| == Width(arr)
  {
    forall i | 0 <= i < |arr|
      ensures |Show(arr[i])| + 2 <= Width(arr)
    {
      ShowFitsBetween(arr[i], MinOf(arr), MaxOf(arr));
    }
  }

  /**
    The loop over `enumerate(arr)` from index `i` on: each number is printed
    right-justified to `w`, followed by a newline when `(i + 1) % perLine`
    is zero. Python's `%` and Dafny's differ for a negative divisor, but both
    are zero exactly on the multiples, which is all the test asks.
   */
  function Body(cells: seq<string>, perLine: int, i: nat): string
    requires i <= |cells| && perLine != 0
    decreases |cells| - i
  {
    if i == |cells| then ""
    else cells[i] + (if (i + 1) % perLine == 0 then "\n" else "") + Body(cells, perLine, i + 1)
  }

  /**
    The numbers as the loop writes them, with the closing newline that
    follows when the last line is not full (`len(arr) % items_per_line != 0`).
   */
  function Printed(cells: seq<string>, perLine: int): string
    requires perLine != 0
  {
    Body(cells, perLine, 0) + (if |cells| % perLine != 0 then "\n" else "")
  }

  /**
    `print_organized(arr, items_per_line)`, as the text it writes. A zero
    `items_per_line` makes `(i + 1) % items_per_line` raise
    `ZeroDivisionError` on the first number (`None`); an empty list never
    reaches that test.
   */
  function PrintOrganized(arr: seq<int>, perLine: int): (text: Option<string>)
    ensures text.None? <==> |arr| > 0 && perLine == 0
    ensures |arr| == 0 ==> text == Some(Header() + NoDataLine)
  {
    if |arr| == 0 then Some(Header() + NoDataLine)
    else if perLine == 0 then None
    else Some(Header() + Printed(OutputFormat.Cells(arr, Width(arr)), perLine) + Footer())
  }

  /** Each grid line written out: its cells side by side, then a newline. */
  function Lines(rows: seq<seq<string>>): string
  {
    if |rows| == 0 then "" else Flatten(rows[0]) + "\n" + Lines(rows[1..])
  }

  /**
    The numbers come out as a grid: the cells cut into lines of `perLine`,
    the last line holding the rest, each line ending in exactly one newline.
   */
  lemma GridLines(arr: seq<int>, perLine: nat)
    requires |arr| > 0 && perLine > 0
    ensures PrintOrganized(arr, perLine)
      == Some(Header() + Lines(Chunks(OutputFormat.Cells(arr, Width(arr)), perLine)) + Footer())
  {
    CellLines(arr, Width(arr), perLine);
  }

  lemma CellLines(arr: seq<int>, w: nat, perLine: nat)
    requires perLine > 0
    ensures Printed(OutputFormat.Cells(arr, w), perLine) == Lines(Chunks(OutputFormat.Cells(arr, w), perLine))
  {
    var cells := OutputFormat.Cells(arr, w);
    BodyRows(cells, perLine, 0);
    assert cells[0..] == cells;
  }

  /** From the start of a line (`i` a multiple of `perLine`), the rest of the loop writes the remaining lines. */
  lemma {:induction false} BodyRows(cells: seq<string>, perLine: nat, i: nat)
    requires perLine > 0 && i % perLine == 0 && i <= |cells|
    ensures Body(cells, perLine, i) + (if |cells| % perLine != 0 then "\n" else "")
      == Lines(Chunks(cells[i..], perLine))
    decreases |cells| - i
  {
    var n := |cells|;
    if i == n {
      assert cells[i..] == [];
    } else {
      var e := if i + perLine <= n then i + perLine else n;
      LineStep(cells, perLine, i);
      ChunkStep(cells, perLine, i);
      if e < n {
        ModShift(i, perLine, perLine);
        BodyRows(cells, perLine, e);
      } else {
        assert cells[e..] == [];
      }
    }
  }

  /** The loop writes one whole line from the start of a line. */
  lemma LineStep(cells: seq<string>, perLine: nat, i: nat)
    requires perLine > 0 && i % perLine == 0 && i < |cells|
    ensures var n := |cells|;
      var e := if i + perLine <= n then i + perLine else n;
      var fin := if n % perLine != 0 then "\n" else "";
      Body(cells, perLine, i) + fin
        == Flatten(cells[i..e]) + "\n" + (if e == n then "" else Body(cells, perLine, e) + fin)
  {
    var n := |cells|;
    var e := if i + perLine <= n then i + perLine else n;
    RowUnfold(cells, perLine, i, e - 1);
    ModShift(i, perLine, e - i);
    if e == n {
      assert Body(cells, perLine, n) == "";
    }
  }

  /** The first line of the grid from `i` on, and the rest. */
  lemma ChunkStep(cells: seq<string>, perLine: nat, i: nat)
    requires perLine > 0 && i < |cells|
    ensures var e := if i + perLine <= |cells| then i + perLine else |cells|;
      Lines(Chunks(cells[i..], perLine)) == Flatten(cells[i..e]) + "\n" + Lines(Chunks(cells[e..], perLine))
  {
    var e := if i + perLine <= |cells| then i + perLine else |cells|;
    ChunksFirst(cells[i..], perLine);
    assert cells[i..][..e - i] == cells[i..e] && cells[i..][e - i..] == cells[e..];
  }

  /**
    Inside a line the loop writes the cells with no newline between them, and
    the last cell of the line ends it exactly when its count `last + 1` is a
    multiple of `perLine`.
   */
  lemma RowUnfold(cells: seq<string>, perLine: nat, i: nat, last: nat)
    requires perLine > 0 && i % perLine == 0 && i <= last < |cells| && last < i + perLine
    ensures Body(cells, perLine, i)
      == Flatten(cells[i..last + 1]) + (if (last + 1) % perLine == 0 then "\n" else "") + Body(cells, perLine, last + 1)
  {
    RowUnfoldFrom(cells, perLine, i, i, last);
  }

  lemma {:induction false} RowUnfoldFrom(cells: seq<string>, perLine: nat, i: nat, j: nat, last: nat)
    requires perLine > 0 && i % perLine == 0 && i <= j <= last < |cells| && last < i + perLine
    ensures Body(cells, perLine, j)
      == Flatten(cells[j..last + 1]) + (if (last + 1) % perLine == 0 then "\n" else "") + Body(cells, perLine, last + 1)
    decreases last - j
  {
    if j == last {
      assert cells[j..last + 1] == [cells[j]];
      assert Flatten([cells[j]]) == cells[j] + Flatten([cells[j]][1..]);
    } else {
      ModShift(i, perLine, j + 1 - i);
      RowUnfoldFrom(cells, perLine, i, j + 1, last);
      assert cells[j..last + 1][1..] == cells[j + 1..last + 1];
    }
  }

  /** Counting on from a multiple of `p`: `(i + r) % p` is `r` below `p`, and 0 at `p`. */
  lemma ModShift(i: nat, p: nat, r: nat)
    requires p > 0 && i % p == 0 && r <= p
    ensures (i + r) % p == (if r == p then 0 else r)
  {
    DivModUnique(i, p, i / p, 0);
    if r == p {
      DivModUnique(i + r, p, i / p + 1, 0);
    } else {
      DivModUnique(i + r, p, i / p, r);
    }
  }

  /** The first chunk of a non-empty sequence is its first `k` elements, or all of it. */
  lemma ChunksFirst<T>(s: seq<T>, k: nat)
    requires k > 0 && |s| > 0
    ensures var e := if k <= |s| then k else |s|;
      Chunks(s, k) == [s[..e]] + Chunks(s[e..], k)
  {
    if |s| <= k {
      assert s[..|s|] == s && s[|s|..] == [];
    }
  }

  /**
    The grid has as many lines as `perLine`-sized lines are needed to hold
    every number: ceil(n / perLine).
   */
  lemma GridLineCount(arr: seq<int>, perLine: nat)
    requires |arr| > 0 && perLine > 0
    ensures |Chunks(OutputFormat.Cells(arr, Width(arr)), perLine)| == (|arr| + perLine - 1) / perLine
  {
    CellChunkCount(arr, Width(arr), perLine);
  }

  lemma CellChunkCount(arr: seq<int>, w: nat, perLine: nat)
    requires |arr| > 0 && perLine > 0
    ensures |Chunks(OutputFormat.Cells(arr, w), perLine)| == (|arr| + perLine - 1) / perLine
  {
    var cells := OutputFormat.Cells(arr, w);
    assert |cells| == |arr|;
    ChunkCount(cells, perLine);
  }
}
