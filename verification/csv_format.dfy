/**
  The text `writeCsvFile` produces from an adjacency matrix: one line per
  y < maxHeight, listing `str(matrix[x][y])` for x < maxWidth with the
  delimiter between cells, each line ending in a newline. Opening and
  writing the file is outside the model; the lines are returned instead.
*/
module CsvFormat {
  import opened MatrixModel
  import opened Text

  /** The cell texts of line y, for the first n columns. */
  function Cells(g: Matrix, y: int, n: nat): (cs: seq<string>)
    requires n <= |g| && 0 <= y && forall x | 0 <= x < n :: y < |g[x]|
    ensures |cs| == n
    ensures forall x | 0 <= x < n :: cs[x] == IntToString(g[x][y])
  {
    if n == 0 then [] else Cells(g, y, n - 1) + [IntToString(g[n - 1][y])]
  }

  /** The matrix fits the requested width and height (nothing is read when either is 0). */
  predicate Fits(g: Matrix, width: nat, height: nat)
  {
    width == 0 || height == 0 ||
    (width <= |g| && forall x | 0 <= x < width :: height <= |g[x]|)
  }

  /** Line y of the file: the cells joined with the delimiter, then a newline. */
  function CsvLine(g: Matrix, width: nat, y: int, delim: char): (line: string)
    requires width <= |g| && 0 <= y && forall x | 0 <= x < width :: y < |g[x]|
  {
    Join(Cells(g, y, width), delim) + "\n"
  }

  /** All lines of the file; a zero width writes nothing at all. */
  function CsvLines(g: Matrix, width: nat, height: nat, delim: char): (lines: seq<string>)
    requires Fits(g, width, height)
    ensures |lines| == if width == 0 then 0 else height
  {
    if width == 0 || height == 0 then []
    else seq(height, y requires 0 <= y < height => CsvLine(g, width, y, delim))
  }

  /** The cells of one more column: the previous text, a delimiter if there was one, and the new cell. */
  lemma JoinCellsStep(g: Matrix, y: int, x: nat, delim: char)
    requires x < |g| && 0 <= y && forall i | 0 <= i <= x :: y < |g[i]|
    ensures Join(Cells(g, y, x + 1), delim) ==
      (if x == 0 then "" else Join(Cells(g, y, x), delim) + [delim]) + IntToString(g[x][y])
  {
    if x > 0 {
      JoinSnoc(Cells(g, y, x), IntToString(g[x][y]), delim);
    }
  }

  /** The text of line y before cell x: the first x cells, each followed by the delimiter. */
  ghost function LinePrefix(g: Matrix, y: int, x: nat, delim: char): (prefix: string)
    requires x <= |g| && 0 <= y && forall i | 0 <= i < x :: y < |g[i]|
  {
    if x == 0 then "" else Join(Cells(g, y, x), delim) + [delim]
  }

  /**
    One step of the inner loop: cell x and a delimiter extend the prefix,
    and the last cell and a newline complete the line.
  */
  lemma LineStep(g: Matrix, y: int, x: nat, width: nat, delim: char)
    requires x < width <= |g| && 0 <= y && forall i | 0 <= i < width :: y < |g[i]|
    ensures x < width - 1 ==>
      LinePrefix(g, y, x, delim) + IntToString(g[x][y]) + [delim] == LinePrefix(g, y, x + 1, delim)
    ensures x == width - 1 ==>
      LinePrefix(g, y, x, delim) + IntToString(g[x][y]) + "\n" == CsvLine(g, width, y, delim)
  {
    JoinCellsStep(g, y, x, delim);
  }

  /**
    The inner loop of writeCsvFile for one y: it appends cell after cell,
    a delimiter after every cell but the last, and emits the line with its
    newline once the last cell is in; a zero width emits nothing.
  */
  method WriteCsvLine(delim: char, width: nat, y: nat, m: array2<int>) returns (emitted: seq<string>)
    requires width == 0 || (width <= m.Length0 && y < m.Length1)
    ensures width == 0 ==> emitted == []
    ensures width > 0 ==> emitted == [CsvLine(Grid(m), width, y, delim)]
  {
    ghost var g := Grid(m);
    emitted := [];
    var line := "";
    for x := 0 to width
      invariant x < width ==> line == LinePrefix(g, y, x, delim)
      invariant emitted == if x == width && width > 0 then [CsvLine(g, width, y, delim)] else []
    {
      LineStep(g, y, x, width, delim);
      line := line + IntToString(m[x, y]);
      if x < width - 1 {
        line := line + [delim];
      }
      if x >= width - 1 {
        emitted := emitted + [line + "\n"];
      }
    }
  }

  /** The loop of writeCsvFile: one line per y < height. */
  method WriteCsvLines(delim: char, width: nat, height: nat, m: array2<int>) returns (lines: seq<string>)
    requires width == 0 || height == 0 || (width <= m.Length0 && height <= m.Length1)
    ensures Fits(Grid(m), width, height)
    ensures lines == CsvLines(Grid(m), width, height, delim)
  {
    ghost var g := Grid(m);
    lines := [];
    for y := 0 to height
      invariant |lines| == if width == 0 then 0 else y
      invariant forall j | 0 <= j < |lines| :: lines[j] == CsvLine(g, width, j, delim)
    {
      var emitted := WriteCsvLine(delim, width, y, m);
      assert Grid(m) == g;
      ghost var before := lines;
      lines := lines + emitted;
      forall j | 0 <= j < |lines|
        ensures lines[j] == CsvLine(g, width, j, delim)
      {
        if j < |before| {
          assert lines[j] == before[j];
        }
      }
    }
    SameElements(lines, CsvLines(g, width, height, delim));
  }

  /** Two sequences of the same length with the same elements are equal. */
  lemma SameElements<T>(a: seq<T>, b: seq<T>)
    requires |a| == |b| && forall i | 0 <= i < |a| :: a[i] == b[i]
    ensures a == b
  {
  }

  /** No cell text contains a delimiter that is neither a digit nor a minus sign. */
  lemma CellsWithoutDelim(g: Matrix, y: int, n: nat, delim: char)
    requires n <= |g| && 0 <= y && forall x | 0 <= x < n :: y < |g[x]|
    requires !IsDigit(delim) && delim != '-'
    ensures forall x | 0 <= x < n :: delim !in Cells(g, y, n)[x]
  {
    forall x, i | 0 <= x < n && 0 <= i < |Cells(g, y, n)[x]|
      ensures Cells(g, y, n)[x][i] != delim
    {
    }
  }

  /** Every line ends in a newline and holds width - 1 delimiters, one between each pair of cells. */
  lemma CsvLineShape(g: Matrix, width: nat, height: nat, delim: char, y: int)
    requires Fits(g, width, height) && width > 0 && 0 <= y < height
    requires !IsDigit(delim) && delim != '-'
    ensures var line := CsvLines(g, width, height, delim)[y];
      |line| > 0 && line[|line| - 1] == '\n' && CountChar(line[..|line| - 1], delim) == width - 1
  {
    var cs := Cells(g, y, width);
    CellsWithoutDelim(g, y, width, delim);
    JoinDelimiterCount(cs, delim);
    var line := CsvLines(g, width, height, delim)[y];
    assert line[..|line| - 1] == Join(cs, delim);
  }

  /** Reading one line back: drop the newline, split at the delimiter, parse each field. */
  function ReadCsvLine(line: string, delim: char): (row: seq<int>)
  {
    var body := if |line| > 0 && line[|line| - 1] == '\n' then line[..|line| - 1] else line;
    var fields := Split(body, delim);
    seq(|fields|, i requires 0 <= i < |fields| => ParseInt(fields[i]))
  }

  /** Reading back the text of one line's cells gives the cells' values. */
  lemma ReadCells(g: Matrix, y: int, width: nat, delim: char)
    requires width > 0 && width <= |g| && 0 <= y && forall x | 0 <= x < width :: y < |g[x]|
    requires !IsDigit(delim) && delim != '-'
    ensures |ReadCsvLine(CsvLine(g, width, y, delim), delim)| == width
    ensures forall x | 0 <= x < width :: ReadCsvLine(CsvLine(g, width, y, delim), delim)[x] == g[x][y]
  {
    var cs := Cells(g, y, width);
    CellsWithoutDelim(g, y, width, delim);
    var line := Join(cs, delim) + "\n";
    assert line[..|line| - 1] == Join(cs, delim);
    SplitJoin(cs, delim);
    var row := ReadCsvLine(line, delim);
    forall x | 0 <= x < width
      ensures row[x] == g[x][y]
    {
      ParseIntToString(g[x][y]);
    }
  }

  /**
    Round trip: reading line y back gives the cells (0,y), (1,y), ...,
    (width-1,y), so a symmetric matrix is written row by row.
  */
  lemma CsvRoundTrip(g: Matrix, width: nat, height: nat, delim: char, y: int)
    requires Fits(g, width, height) && width > 0 && 0 <= y < height
    requires !IsDigit(delim) && delim != '-'
    ensures |ReadCsvLine(CsvLines(g, width, height, delim)[y], delim)| == width
    ensures forall x | 0 <= x < width ::
      ReadCsvLine(CsvLines(g, width, height, delim)[y], delim)[x] == g[x][y]
    ensures Symmetric(g) ==> ReadCsvLine(CsvLines(g, width, height, delim)[y], delim) == g[y][..width]
  {
    var line := CsvLines(g, width, height, delim)[y];
    ReadCells(g, y, width, delim);
    var row := ReadCsvLine(line, delim);
    if Symmetric(g) {
      assert y < |g| && |g[y]| == |g|;
      var written := g[y][..width];
      forall x | 0 <= x < width
        ensures row[x] == written[x]
      {
        assert g[x][y] == g[y][x];
      }
      assert row == written;
    }
  }
}
