/** The preview of an extracted grid (components/TablePreview.tsx): a ragged list of rows
    is shown as a rectangular table as wide as its longest row, missing cells shown
    empty, with lettered column headers and numbered rows. */
module Preview {
  import opened Types

  /** A UTF-16 code unit, the unit of a JavaScript string. */
  newtype CodeUnit = x: int | 0 <= x < 0x1_0000

  /** One table row as displayed: its 1-based number and exactly one cell per column. */
  datatype RenderedRow = RenderedRow(number: nat, cells: seq<string>)

  /** What the component displays: the "No data found" placeholder, or a table with a
      "<rowCount> rows • <columnCount> columns" summary, column headers and rows. */
  datatype View =
    | NoData
    | Table(rowCount: nat, columnCount: nat, headers: seq<seq<CodeUnit>>, rows: seq<RenderedRow>)

  /** `Math.max(...data.map(row => row.length))` on a non-empty grid: the length of the
      longest row. */
  function MaxCols(data: TableData): (m: nat)
    requires data != []
    ensures forall i :: 0 <= i < |data| ==> |data[i]| <= m
    ensures exists i :: 0 <= i < |data| && |data[i]| == m
  {
    if |data| == 1 then |data[0]|
    else
      var rest := MaxCols(data[1..]);
      assert forall i :: 1 <= i < |data| ==> data[i] == data[1..][i - 1];
      if |data[0]| < rest then rest else |data[0]|
  }

  /** The cells displayed for `row` in a table `width` columns wide: `row[c] || ''`
      for every column `c`. */
  function PadRow(row: TableRow, width: nat): (cells: seq<string>)
    ensures |cells| == width
    ensures |row| <= width ==> cells[..|row|] == row
    ensures forall c :: |row| <= c < width ==> cells[c] == ""
    ensures width <= |row| ==> cells == row[..width]
  {
    seq(width, c requires 0 <= c < width => if c < |row| then row[c] else "")
  }

  /** "Col " as UTF-16 code units. */
  const ColPrefix: seq<CodeUnit> := [67, 111, 108, 32]

  /** The header of column `i`: "Col " and `String.fromCharCode(65 + i)`, which keeps
      the low 16 bits of the code. */
  function ColumnHeader(i: nat): (h: seq<CodeUnit>)
    ensures |h| == 5 && h[..4] == ColPrefix
    ensures h[4] as int == (65 + i) % 0x1_0000
    ensures i < 0x1_0000 - 65 ==> h[4] as int == 65 + i
  {
    ColPrefix + [((65 + i) % 0x1_0000) as CodeUnit]
  }

  /** The UTF-16 encoding of a string of Basic Multilingual Plane characters. */
  function Utf16(s: string): seq<CodeUnit>
    requires forall k :: 0 <= k < |s| ==> s[k] as int < 0x1_0000
  {
    seq(|s|, k requires 0 <= k < |s| => s[k] as int as CodeUnit)
  }

  /** The component's output for `data`. */
  function Render(data: TableData): (v: View)
    ensures v == NoData <==> data == []
    ensures v.Table? ==>
      && v.rowCount == |data| == |v.rows|
      && v.columnCount == |v.headers|
      && (forall i :: 0 <= i < |data| ==> |data[i]| <= v.columnCount)
      && (exists i :: 0 <= i < |data| && |data[i]| == v.columnCount)
  {
    if data == [] then NoData
    else
      var width := MaxCols(data);
      Table(|data|, width,
            seq(width, i requires 0 <= i < width => ColumnHeader(i)),
            seq(|data|, r requires 0 <= r < |data| => RenderedRow(r + 1, PadRow(data[r], width))))
  }

  /** Every displayed row has exactly one cell per column, so the table is rectangular;
      it starts with the extracted row unchanged and is filled with empty cells after
      it; rows keep their order and are numbered from 1. */
  lemma RenderIsRectangularPadding(data: TableData, r: nat)
    requires r < |data|
    ensures Render(data).Table?
    ensures |Render(data).rows[r].cells| == Render(data).columnCount
    ensures Render(data).rows[r].cells[..|data[r]|] == data[r]
    ensures forall c :: |data[r]| <= c < Render(data).columnCount ==> Render(data).rows[r].cells[c] == ""
    ensures Render(data).rows[r].number == r + 1
  {
  }

  /** Column `i` is headed "Col A", "Col B", ... while the letters last. */
  lemma HeadersAreLettered(data: TableData, i: nat)
    requires data != [] && i < Render(data).columnCount
    ensures Render(data).headers[i] == ColumnHeader(i)
    ensures i < 26 ==>
      var letter := (65 + i) as char;
      'A' <= letter <= 'Z' && Render(data).headers[i] == Utf16("Col " + [letter])
  {
    if i < 26 {
      var letter := (65 + i) as char;
      assert Utf16("Col " + [letter]) == ColPrefix + [(65 + i) as CodeUnit];
    }
  }

  /** The displayed width is the narrowest that fits every row. */
  lemma ColumnCountIsLeastFit(data: TableData, width: nat)
    requires data != []
    requires forall i :: 0 <= i < |data| ==> |data[i]| <= width
    ensures Render(data).columnCount <= width
  {
  }

  /** The grid [["a","b"],["c"]] is shown two columns wide, the second row as
      ["c", ""]. */
  lemma RaggedExample()
    ensures Render([["a", "b"], ["c"]]).columnCount == 2
    ensures Render([["a", "b"], ["c"]]).rows[1].cells == ["c", ""]
  {
    var data: TableData := [["a", "b"], ["c"]];
    assert |data[0]| == 2;
    var v := Render(data);
    assert v.rows[1].cells[..1] == ["c"];
  }
}
