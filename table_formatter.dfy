/** Renders a rectangular table as column-aligned text: every column is as
    wide as its widest cell, each cell is padded with spaces on the right
    (left-aligned columns) or on the left (right-aligned columns), the cells
    of a row are joined by one space, and the rows are joined by the line
    separator, which also opens and closes the text. The line separator is
    `System.lineSeparator()` in Java and a parameter here. */
module TableFormatter {
  import opened Strings
  import opened Tables

  function Max(a: nat, b: nat): nat
  {
    if a < b then b else a
  }

  /** The length of the longest cell in column `j` (0 for no rows). */
  function ColumnWidth(rows: seq<seq<string>>, j: nat): (w: nat)
    requires forall i :: 0 <= i < |rows| ==> j < |rows[i]|
    ensures forall i :: 0 <= i < |rows| ==> |rows[i][j]| <= w
    ensures (|rows| == 0 && w == 0) || exists i :: 0 <= i < |rows| && |rows[i][j]| == w
  {
    if |rows| == 0 then 0
    else Max(ColumnWidth(rows[..|rows| - 1], j), |rows[|rows| - 1][j]|)
  }

  /** The width of each of the first `width` columns. */
  function ColumnWidths(rows: seq<seq<string>>, width: nat): (ws: seq<nat>)
    requires Rectangular(rows, width)
    ensures |ws| == width
    ensures forall j :: 0 <= j < width ==> ws[j] == ColumnWidth(rows, j)
  {
    seq(width, j requires 0 <= j < width => ColumnWidth(rows, j))
  }

  /** A cell padded with spaces to `width`: the cell then the spaces when
      left-aligned, the spaces then the cell otherwise. A cell longer than
      `width` is kept whole. */
  function PadCell(width: int, cell: string, leftAlign: bool): (r: string)
    ensures |r| == if |cell| < width then width else |cell|
    ensures leftAlign ==> r[..|cell|] == cell && forall i :: |cell| <= i < |r| ==> r[i] == ' '
    ensures !leftAlign ==> r[|r| - |cell|..] == cell && forall i :: 0 <= i < |r| - |cell| ==> r[i] == ' '
  {
    if leftAlign then cell + Spaces(width - |cell|) else Spaces(width - |cell|) + cell
  }

  /** The padded cells of a row. */
  function PaddedCells(widths: seq<nat>, row: seq<string>, align: seq<bool>): (r: seq<string>)
    requires |row| <= |widths| && |row| <= |align|
    ensures |r| == |row|
    ensures forall j :: 0 <= j < |row| ==> r[j] == PadCell(widths[j], row[j], align[j])
  {
    seq(|row|, j requires 0 <= j < |row| => PadCell(widths[j], row[j], align[j]))
  }

  /** A row as one line: its padded cells joined by a single space. */
  function RenderRow(widths: seq<nat>, row: seq<string>, align: seq<bool>): string
    requires |row| <= |widths| && |row| <= |align|
  {
    Join(PaddedCells(widths, row, align), " ")
  }

  /** Every row as one line, in order. */
  function RenderedRows(rows: seq<seq<string>>, widths: seq<nat>, align: seq<bool>): (r: seq<string>)
    requires Rectangular(rows, |widths|) && |widths| <= |align|
    ensures |r| == |rows|
    ensures forall i :: 0 <= i < |rows| ==> r[i] == RenderRow(widths, rows[i], align)
  {
    seq(|rows|, i requires 0 <= i < |rows| => RenderRow(widths, rows[i], align))
  }

  /** What `format` produces for a table whose first row fixes its width. */
  function Render(rows: seq<seq<string>>, align: seq<bool>, lineSep: string): string
    requires |rows| >= 1 && Rectangular(rows, |rows[0]|) && |rows[0]| <= |align|
  {
    var widths := ColumnWidths(rows, |rows[0]|);
    lineSep + Join(RenderedRows(rows, widths, align), lineSep) + lineSep
  }

  /** `findLongestCellLengthInColumn`: one pass over the rows, keeping for
      each column the longest cell seen so far. */
  method FindLongestCellLengthInColumn(rows: seq<seq<string>>) returns (longest: array<int>)
    requires |rows| >= 1 && Rectangular(rows, |rows[0]|)
    ensures longest.Length == |rows[0]|
    ensures longest[..] == ColumnWidths(rows, |rows[0]|)
  {
    var width := |rows[0]|;
    longest := new int[width](_ => 0);
    var i := 0;
    while i < |rows|
      invariant 0 <= i <= |rows|
      invariant longest.Length == width
      invariant forall j :: 0 <= j < width ==> longest[j] == ColumnWidth(rows[..i], j)
    {
      KeepLongest(longest, rows[i]);
      forall j | 0 <= j < width
        ensures longest[j] == ColumnWidth(rows[..i + 1], j)
      {
        ColumnWidthSnoc(rows, i, j);
      }
      i := i + 1;
    }
    assert rows[..i] == rows;
  }

  /** The inner loop of `findLongestCellLengthInColumn`: each column keeps
      the longer of its current length and the row's cell. */
  method KeepLongest(longest: array<int>, row: seq<string>)
    requires longest.Length == |row|
    modifies longest
    ensures forall j :: 0 <= j < |row| ==>
      longest[j] == if old(longest[j]) < |row[j]| then |row[j]| else old(longest[j])
  {
    var col := 0;
    while col < |row|
      invariant 0 <= col <= |row|
      invariant forall j :: 0 <= j < col ==>
        longest[j] == if old(longest[j]) < |row[j]| then |row[j]| else old(longest[j])
      invariant forall j :: col <= j < |row| ==> longest[j] == old(longest[j])
    {
      var current := longest[col];
      var candidate := |row[col]|;
      longest[col] := if current < candidate then candidate else current;
      col := col + 1;
    }
  }

  /** One more row widens a column to that row's cell when it is longer. */
  lemma ColumnWidthSnoc(rows: seq<seq<string>>, i: nat, j: nat)
    requires i < |rows| && forall k :: 0 <= k < |rows| ==> j < |rows[k]|
    ensures ColumnWidth(rows[..i + 1], j) == Max(ColumnWidth(rows[..i], j), |rows[i][j]|)
  {
    assert rows[..i + 1][..i] == rows[..i];
  }

  /** `padSpace`: appends `padding` spaces, or none when it is not positive. */
  method PadSpace(result: string, padding: int) returns (r: string)
    ensures |r| == |result| + (if padding < 0 then 0 else padding)
    ensures r[..|result|] == result
    ensures forall i :: |result| <= i < |r| ==> r[i] == ' '
  {
    r := result;
    var i := 0;
    while i < padding
      invariant 0 <= i && (i <= padding || i == 0)
      invariant |r| == |result| + i
      invariant r[..|result|] == result
      invariant forall k :: |result| <= k < |r| ==> r[k] == ' '
    {
      r := r + " ";
      i := i + 1;
    }
  }

  /** `renderCellWithPadding`. */
  method RenderCellWithPadding(width: int, cell: string, leftAlign: bool) returns (r: string)
    ensures r == PadCell(width, cell, leftAlign)
  {
    if leftAlign {
      r := PadSpace(cell, width - |cell|);
      assert r == cell + r[|cell|..];
    } else {
      r := PadSpace("", width - |cell|);
      r := r + cell;
    }
  }

  /** The body of `format` over the rows themselves (the two plain-text
      serializers repeat it over a `List<String[]>`): a `StringJoiner` of
      lines framed by the line separator. */
  method FormatRows(rows: seq<seq<string>>, align: seq<bool>, lineSep: string) returns (text: string)
    requires |rows| >= 1 && Rectangular(rows, |rows[0]|) && |rows[0]| <= |align|
    ensures text == Render(rows, align, lineSep)
  {
    var longest := FindLongestCellLengthInColumn(rows);
    ghost var widths := ColumnWidths(rows, |rows[0]|);
    ghost var lines := RenderedRows(rows, widths, align);
    var joined := "";
    var i := 0;
    while i < |rows|
      invariant 0 <= i <= |rows|
      invariant longest[..] == widths
      invariant joined == Join(lines[..i], lineSep)
    {
      var line := FormatRow(longest, widths, rows[i], align);
      JoinStep(lines, i, lineSep);
      joined := if i == 0 then line else joined + lineSep + line;
      i := i + 1;
    }
    assert lines[..i] == lines;
    text := lineSep + joined + lineSep;
  }

  /** The inner loop of `format`: a `StringJoiner` with a single-space
      delimiter over the padded cells of one row. */
  method FormatRow(longest: array<int>, ghost widths: seq<nat>, row: seq<string>, align: seq<bool>) returns (line: string)
    requires longest[..] == widths && |widths| == |row| <= |align|
    ensures line == RenderRow(widths, row, align)
  {
    ghost var cells := PaddedCells(widths, row, align);
    line := "";
    var j := 0;
    while j < |row|
      invariant 0 <= j <= |row|
      invariant line == Join(cells[..j], " ")
    {
      var cell := RenderCellWithPadding(longest[j], row[j], align[j]);
      JoinStep(cells, j, " ");
      line := if j == 0 then cell else line + " " + cell;
      j := j + 1;
    }
    assert cells[..j] == cells;
  }

  /** One `StringJoiner.add`: the first part is taken as it is, every later
      one after the separator. */
  lemma JoinStep(parts: seq<string>, j: nat, sep: string)
    requires j < |parts|
    ensures Join(parts[..j + 1], sep) == if j == 0 then parts[0] else Join(parts[..j], sep) + sep + parts[j]
  {
    assert parts[..j + 1] == parts[..j] + [parts[j]];
    if j > 0 {
      JoinSnoc(parts[..j], parts[j], sep);
    }
  }

  /** `format(table, leftAlignColumn)`. */
  method Format(table: Table, align: seq<bool>, lineSep: string) returns (text: string)
    requires |table.rows| >= 1 && Rectangular(table.rows, |table.rows[0]|) && |table.rows[0]| <= |align|
    ensures text == Render(table.rows, align, lineSep)
  {
    text := FormatRows(table.rows, align, lineSep);
  }

  /** The sum of the column widths. */
  function SumWidths(widths: seq<nat>): nat
  {
    if |widths| == 0 then 0 else SumWidths(widths[..|widths| - 1]) + widths[|widths| - 1]
  }

  /** Cells that fit their columns pad to exactly the column widths. */
  lemma {:induction false} PaddedLength(widths: seq<nat>, row: seq<string>, align: seq<bool>)
    requires |row| == |widths| <= |align|
    requires forall j :: 0 <= j < |row| ==> |row[j]| <= widths[j]
    ensures TotalLength(PaddedCells(widths, row, align)) == SumWidths(widths)
  {
    if |row| > 0 {
      var n := |row| - 1;
      PaddedLength(widths[..n], row[..n], align);
      assert PaddedCells(widths, row, align)[..n] == PaddedCells(widths[..n], row[..n], align);
    }
  }

  /** Every rendered cell is exactly as wide as its column. */
  lemma CellsFillColumns(rows: seq<seq<string>>, align: seq<bool>, i: nat, j: nat)
    requires |rows| >= 1 && Rectangular(rows, |rows[0]|) && |rows[0]| <= |align|
    requires i < |rows| && j < |rows[0]|
    ensures var widths := ColumnWidths(rows, |rows[0]|);
      |PaddedCells(widths, rows[i], align)[j]| == widths[j]
  {
  }

  /** All lines of a rendered table have the same length: the sum of the
      column widths plus one separating space between each two columns. */
  lemma RowsEqualLength(rows: seq<seq<string>>, align: seq<bool>, i: nat)
    requires |rows| >= 1 && Rectangular(rows, |rows[0]|) && 1 <= |rows[0]| <= |align|
    requires i < |rows|
    ensures var widths := ColumnWidths(rows, |rows[0]|);
      |RenderRow(widths, rows[i], align)| == SumWidths(widths) + |rows[0]| - 1
  {
    var widths := ColumnWidths(rows, |rows[0]|);
    PaddedLength(widths, rows[i], align);
    JoinLength(PaddedCells(widths, rows[i], align), " ");
  }

  /** The rendered text is framed by the line separator and holds one line
      per row. */
  lemma RenderFramed(rows: seq<seq<string>>, align: seq<bool>, lineSep: string)
    requires |rows| >= 1 && Rectangular(rows, |rows[0]|) && |rows[0]| <= |align|
    ensures var text := Render(rows, align, lineSep);
      var lines := RenderedRows(rows, ColumnWidths(rows, |rows[0]|), align);
      && lineSep <= text
      && text[|text| - |lineSep|..] == lineSep
      && |text| == TotalLength(lines) + (|rows| + 1) * |lineSep|
  {
    var lines := RenderedRows(rows, ColumnWidths(rows, |rows[0]|), align);
    var body := Join(lines, lineSep);
    var text := lineSep + body + lineSep;
    assert text == Render(rows, align, lineSep);
    JoinLength(lines, lineSep);
    assert text[..|lineSep|] == lineSep;
    assert text[|text| - |lineSep|..] == lineSep;
    assert |text| == |body| + 2 * |lineSep|;
    Distribute(|rows|, |lineSep|);
  }

  lemma Distribute(n: int, k: int)
    ensures (n - 1) * k + 2 * k == (n + 1) * k
  {
  }

  /** The text opens with the line separator and the first cell of the first
      row, when that column is left-aligned: the header is on top. */
  lemma RenderShowsFirstCell(rows: seq<seq<string>>, align: seq<bool>, lineSep: string)
    requires |rows| >= 1 && Rectangular(rows, |rows[0]|) && 1 <= |rows[0]| <= |align| && align[0]
    ensures lineSep + rows[0][0] <= Render(rows, align, lineSep)
  {
    var widths := ColumnWidths(rows, |rows[0]|);
    var lines := RenderedRows(rows, widths, align);
    var cells := PaddedCells(widths, rows[0], align);
    JoinFirst(cells, " ");
    JoinFirst(lines, lineSep);
    assert rows[0][0] <= cells[0] <= lines[0] <= Join(lines, lineSep);
    assert Render(rows, align, lineSep) == lineSep + Join(lines, lineSep) + lineSep;
  }
}
