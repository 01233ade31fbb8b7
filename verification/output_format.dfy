/**
  `SorterApp.format_output`: the text the integer sorter shows for a sorted
  list. Numbers are right-justified to the width of the widest one and laid
  out nine to a line, each line indented by four spaces and its numbers
  separated by a comma and four spaces.
 */
module OutputFormat {
  import opened Seqs
  import opened PyStr
  import opened PyInt

  const PerLine: nat := 9
  const Margin: string := "    "
  const Separator: string := ",    "
  const NoData: string := "No data to display"

  /** `max(len(str(num)) for num in data)`. */
  function MaxWidth(data: seq<int>): (w: nat)
    requires |data| > 0
    ensures forall i :: 0 <= i < |data| ==> |Show(data[i])| <= w
    ensures exists i :: 0 <= i < |data| && |Show(data[i])| == w
  {
    if |data| == 1 then |Show(data[0])|
    else
      var rest := MaxWidth(data[1..]);
      assert forall i :: 1 <= i < |data| ==> data[i] == data[1..][i - 1];
      if |Show(data[0])| >= rest then |Show(data[0])| else rest
  }

  /** `str(num).rjust(w)` for every number, in order. */
  function Cells(data: seq<int>, w: nat): (cells: seq<string>)
    ensures |cells| == |data|
    ensures forall i :: 0 <= i < |data| ==> cells[i] == RJust(Show(data[i]), w)
  {
    if |data| == 0 then [] else [RJust(Show(data[0]), w)] + Cells(data[1..], w)
  }

  /** One output line: the margin, then the cells joined by the separator. */
  function Row(cells: seq<string>): string
  {
    Margin + Join(cells, Separator)
  }

  function Rows(grid: seq<seq<string>>): (lines: seq<string>)
    ensures |lines| == |grid|
    ensures forall i :: 0 <= i < |grid| ==> lines[i] == Row(grid[i])
  {
    if |grid| == 0 then [] else [Row(grid[0])] + Rows(grid[1..])
  }

  /**
    The grid of cells: ceil(n / 9) rows of nine cells, the last row holding
    the rest; every cell is exactly as wide as the widest number, and read
    row by row the cells are the numbers in their order.
   */
  function Grid(data: seq<int>): (grid: seq<seq<string>>)
    requires |data| > 0
    ensures |grid| == (|data| + PerLine - 1) / PerLine
    ensures ChunkShape(grid, PerLine)
    ensures Flatten(grid) == Cells(data, MaxWidth(data))
    ensures forall i, j :: 0 <= i < |grid| && 0 <= j < |grid[i]| ==> |grid[i][j]| == MaxWidth(data)
  {
    var w := MaxWidth(data);
    var cells := Cells(data, w);
    ChunkCount(cells, PerLine);
    CellsWide(data, w);
    Chunks(cells, PerLine)
  }

  /** Every chunk of the cells holds cells of width exactly `w`, when no number is wider. */
  lemma CellsWide(data: seq<int>, w: nat)
    requires forall i :: 0 <= i < |data| ==> |Show(data[i])| <= w
    ensures var grid := Chunks(Cells(data, w), PerLine);
      forall i, j :: 0 <= i < |grid| && 0 <= j < |grid[i]| ==> |grid[i][j]| == w
  {
    var grid := Chunks(Cells(data, w), PerLine);
    forall i, j | 0 <= i < |grid| && 0 <= j < |grid[i]|
      ensures |grid[i][j]| == w
    {
      ChunkMember(grid, i, j);
    }
  }

  /** Every cell of a chunk is one of the cells that were chunked. */
  lemma ChunkMember(grid: seq<seq<string>>, i: nat, j: nat)
    requires i < |grid| && j < |grid[i]|
    ensures grid[i][j] in Flatten(grid)
  {
    assert Flatten(grid) == Flatten(grid[..i]) + Flatten(grid[i..]) by {
      assert grid == grid[..i] + grid[i..];
      FlattenAppend(grid[..i], grid[i..]);
    }
    assert Flatten(grid[i..]) == grid[i] + Flatten(grid[i + 1..]) by {
      assert grid[i..][1..] == grid[i + 1..];
    }
  }

  /**
    `format_output(data)`: the lines the loop below emits, joined by
    newlines. The text is the grid, row by row.
   */
  function FormatOutput(data: seq<int>): (text: string)
    ensures |data| == 0 ==> text == NoData
    ensures |data| > 0 ==> text == Join(Rows(Grid(data)), "\n")
  {
    if |data| == 0 then NoData
    else
      FormatLoopIsGrid(data);
      Join(FormatLoop(Cells(data, MaxWidth(data)), 0, [], []), "\n")
  }

  /**
    The loop of `format_output` as written: each cell is appended to the
    current line, and the line is emitted once it holds nine cells or the
    last cell has been added.
   */
  function FormatLoop(cells: seq<string>, i: nat, current: seq<string>, output: seq<string>): seq<string>
    requires i <= |cells|
    decreases |cells| - i
  {
    if i == |cells| then output
    else
      var line := current + [cells[i]];
      if |line| >= PerLine || i == |cells| - 1 then FormatLoop(cells, i + 1, [], output + [Row(line)])
      else FormatLoop(cells, i + 1, line, output)
  }

  lemma ChunksFront(a: seq<string>, rest: seq<string>, k: nat)
    requires k > 0 && |a| == k
    ensures Chunks(a + rest, k) == [a] + Chunks(rest, k)
  {
    if |rest| == 0 {
      assert a + rest == a;
    } else {
      assert (a + rest)[..k] == a && (a + rest)[k..] == rest;
    }
  }

  /**
    From any point of the loop, the lines still to come are the rows of the
    chunks of the current line followed by the cells not yet visited.
   */
  lemma {:induction false} FormatLoopRows(cells: seq<string>, i: nat, current: seq<string>, output: seq<string>)
    requires i <= |cells| && |current| < PerLine
    requires i == |cells| ==> |current| == 0
    ensures FormatLoop(cells, i, current, output) == output + Rows(Chunks(current + cells[i..], PerLine))
    decreases |cells| - i
  {
    if i == |cells| {
      assert current + cells[i..] == [];
    } else {
      var line := current + [cells[i]];
      assert current + cells[i..] == line + cells[i + 1..];
      if |line| >= PerLine || i == |cells| - 1 {
        FormatLoopRows(cells, i + 1, [], output + [Row(line)]);
        assert [] + cells[i + 1..] == cells[i + 1..];
        EmitRow(line, cells[i + 1..], output);
      } else {
        FormatLoopRows(cells, i + 1, line, output);
      }
    }
  }

  /** Emitting a full line, or the last one, is emitting the first chunk. */
  lemma EmitRow(line: seq<string>, rest: seq<string>, output: seq<string>)
    requires 0 < |line| <= PerLine
    requires |line| == PerLine || |rest| == 0
    ensures output + [Row(line)] + Rows(Chunks(rest, PerLine)) == output + Rows(Chunks(line + rest, PerLine))
  {
    if |line| == PerLine {
      ChunksFront(line, rest, PerLine);
    } else {
      assert line + rest == line;
    }
    assert Chunks(line + rest, PerLine) == [line] + Chunks(rest, PerLine);
    assert Rows([line] + Chunks(rest, PerLine)) == [Row(line)] + Rows(Chunks(rest, PerLine));
  }

  /** The loop as written emits exactly the rows of the grid. */
  lemma FormatLoopIsGrid(data: seq<int>)
    requires |data| > 0
    ensures FormatLoop(Cells(data, MaxWidth(data)), 0, [], []) == Rows(Grid(data))
  {
    var cells := Cells(data, MaxWidth(data));
    FormatLoopRows(cells, 0, [], []);
    assert [] + cells[0..] == cells;
  }

  lemma {:induction false} JoinNoChar(xs: seq<string>, sep: string, c: char)
    requires c !in sep && forall i :: 0 <= i < |xs| ==> c !in xs[i]
    ensures c !in Join(xs, sep)
  {
    if |xs| > 1 {
      JoinNoChar(xs[1..], sep, c);
    }
  }

  lemma {:induction false} JoinCount(xs: seq<string>, c: char)
    requires |xs| > 0 && forall i :: 0 <= i < |xs| ==> c !in xs[i]
    ensures Count(Join(xs, [c]), c) == |xs| - 1
  {
    if |xs| == 1 {
      CountAbsent(xs[0], c);
    } else {
      JoinCount(xs[1..], c);
      CountAbsent(xs[0], c);
      CountAppend(xs[0] + [c], Join(xs[1..], [c]), c);
      CountAppend(xs[0], [c], c);
    }
  }

  lemma RowHasNoNewline(cells: seq<string>, data: seq<int>, w: nat)
    requires forall j :: 0 <= j < |cells| ==> cells[j] in Cells(data, w)
    ensures '\n' !in Row(cells)
  {
    forall j | 0 <= j < |cells|
      ensures '\n' !in cells[j]
    {
      var k :| 0 <= k < |data| && Cells(data, w)[k] == cells[j];
      ShowHasNoNewline(data[k]);
    }
    JoinNoChar(cells, Separator, '\n');
  }

  /**
    The text has one line per row of the grid: ceil(n / 9) lines, so one
    newline fewer than that.
   */
  lemma NewlineCount(data: seq<int>)
    requires |data| > 0
    ensures Count(FormatOutput(data), '\n') == (|data| + PerLine - 1) / PerLine - 1
  {
    var w := MaxWidth(data);
    var grid := Grid(data);
    var lines := Rows(grid);
    forall i | 0 <= i < |lines|
      ensures '\n' !in lines[i]
    {
      forall j | 0 <= j < |grid[i]|
        ensures grid[i][j] in Cells(data, w)
      {
        ChunkMember(grid, i, j);
      }
      RowHasNoNewline(grid[i], data, w);
    }
    JoinCount(lines, '\n');
  }
}
