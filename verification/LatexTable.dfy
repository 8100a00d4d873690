/** The body of a `tabular` environment as a table of rows and cells. */
module LatexTable {
  import opened Wrappers
  import opened Utf8
  import opened Document
  import opened LatexText

  /** The loop variables. `cur` counts the octets consumed. */
  datatype TableState = TableState(
    rows: seq<DocNode>, cells: seq<DocNode>, buf: Text, cur: int, rowStart: int, cellStart: int)

  function Start(byteStart: int): TableState {
    TableState([], [], [], byteStart, byteStart, byteStart)
  }

  function CellText(raw: Text): Option<Text> {
    var text := CollapseWhitespace(raw);
    if text == [] then None else Some(text)
  }

  /** How a table is read: whether its first row is a header, and what becomes of a cell's raw text. */
  datatype Style = Style(header: bool, read: Text -> Option<Text>)

  function Cell(raw: Text, row: nat, col: nat, style: Style, start: int, end: int): DocNode {
    DocNode(TableCell, style.read(raw), [],
            Span(start, end).(tableRow := Some(row), tableCol := Some(col), isHeader := row == 0 && style.header))
  }

  function Row(cells: seq<DocNode>, row: nat, style: Style, start: int, end: int): DocNode {
    DocNode(TableRow, None, cells, Span(start, end).(tableRow := Some(row), isHeader := row == 0 && style.header))
  }

  predicate EndsRow(buf: Text) {
    |buf| >= 2 && buf[|buf| - 2] == '\\' && buf[|buf| - 1] == '\\'
  }

  /** Rust's `trim_end_matches("\\\\")`. */
  function StripRowEnd(buf: Text): Text
    decreases |buf|
  {
    if EndsRow(buf) then StripRowEnd(buf[..|buf| - 2]) else buf
  }

  /** One octet. The octets of a longer character never are `&` or a backslash, so reading octets
      or characters comes to the same. */
  function TableStep(s: TableState, ch: char, style: Style): TableState {
    var t :=
      if ch == '&' then
        s.(cells := s.cells + [Cell(s.buf, |s.rows|, |s.cells|, style, s.cellStart, s.cur)],
           buf := [], cur := s.cur + 1, cellStart := s.cur + 1)
      else
        s.(buf := s.buf + [ch], cur := s.cur + 1);
    if EndsRow(t.buf) then
      var cells := t.cells + [Cell(StripRowEnd(t.buf), |t.rows|, |t.cells|, style, t.cellStart, t.cur)];
      TableState(t.rows + [Row(cells, |t.rows|, style, t.rowStart, t.cur)], [], [], t.cur, t.cur, t.cur)
    else t
  }

  function TableRun(s: TableState, body: Text, style: Style): TableState
    decreases |body|
  {
    if body == [] then s else TableRun(TableStep(s, body[0], style), body[1..], style)
  }

  predicate HasHeader(body: Text) {
    StartsWithAt(TrimStart(body), 0, "\\hline")
  }

  function StyleOf(body: Text): Style {
    Style(HasHeader(body), CellText)
  }

  function Tabular(body: Text, byteStart: int, byteEnd: int): DocNode {
    DocNode(Table, None, TableRun(Start(byteStart), body, StyleOf(body)).rows, Span(byteStart, byteEnd))
  }

  method ParseTabular(body: Text, byteStart: int, byteEnd: int) returns (table: DocNode)
    ensures table == Tabular(body, byteStart, byteEnd)
  {
    var style := StyleOf(body);
    var rowNodes: seq<DocNode> := [];
    var rowIdx, colIdx := 0, 0;
    var cellBuf: Text := [];
    var cellNodes: seq<DocNode> := [];
    var cur, rowBs, cellBs := byteStart, byteStart, byteStart;
    assert body[0..] == body;
    for i := 0 to |body|
      invariant rowIdx == |rowNodes| && colIdx == |cellNodes|
      invariant TableRun(TableState(rowNodes, cellNodes, cellBuf, cur, rowBs, cellBs), body[i..], style)
             == TableRun(Start(byteStart), body, style)
    {
      var ch := body[i];
      assert body[i..][0] == ch && body[i..][1..] == body[i + 1..];
      ghost var before := TableState(rowNodes, cellNodes, cellBuf, cur, rowBs, cellBs);
      if ch == '&' {
        cellNodes := cellNodes + [Cell(cellBuf, rowIdx, colIdx, style, cellBs, cur)];
        cellBuf := [];
        colIdx := colIdx + 1;
        cellBs := cur + 1;
        cur := cur + 1;
      } else {
        cur := cur + 1;
        cellBuf := cellBuf + [ch];
      }
      if EndsRow(cellBuf) {
        var raw := StripRowEnd(cellBuf);
        cellBuf := [];
        cellNodes := cellNodes + [Cell(raw, rowIdx, colIdx, style, cellBs, cur)];
        rowNodes := rowNodes + [Row(cellNodes, rowIdx, style, rowBs, cur)];
        cellNodes := [];
        rowIdx := rowIdx + 1;
        colIdx := 0;
        rowBs := cur;
        cellBs := cur;
      }
      assert TableState(rowNodes, cellNodes, cellBuf, cur, rowBs, cellBs) == TableStep(before, ch, style);
    }
    assert body[|body|..] == [];
    table := DocNode(Table, None, rowNodes, Span(byteStart, byteEnd));
  }

  // ---- Tiling ----

  /** The cell's span, without the given terminator, is the source of its text. */
  ghost predicate CellHolds(cell: DocNode, body: Text, base: int, style: Style, terminator: Text) {
    var from, to := cell.attrs.byteStart - base, cell.attrs.byteEnd - base;
    && 0 <= from <= to - |terminator| && to <= |body|
    && body[to - |terminator|..to] == terminator
    && cell.text == style.read(body[from..to - |terminator|])
  }

  /** Cell `c` of row `row`: numbered, and one octet behind the previous cell, or at the row's start. */
  ghost predicate CellFits(cells: seq<DocNode>, c: nat, row: nat, start: int)
    requires c < |cells|
  {
    && cells[c].nodeType == TableCell && cells[c].children == []
    && cells[c].attrs.tableRow == Some(row)
    && cells[c].attrs.tableCol == Some(c)
    && cells[c].attrs.byteStart == (if c == 0 then start else cells[c - 1].attrs.byteEnd + 1)
  }

  ghost predicate CellsTile(cells: seq<DocNode>, row: nat, start: int) {
    forall c: nat | c < |cells| :: CellFits(cells, c, row, start)
  }

  /** Right behind the cell's span is a separator. */
  ghost predicate Separated(cell: DocNode, body: Text, base: int) {
    var to := cell.attrs.byteEnd - base;
    0 <= to < |body| && body[to] == '&'
  }

  ghost predicate CellsHold(cells: seq<DocNode>, body: Text, base: int, style: Style) {
    forall cell | cell in cells :: CellHolds(cell, body, base, style, []) && Separated(cell, body, base)
  }

  /** The cells run from the row's start to its end, the last one over the row terminator. */
  ghost predicate RowTiles(row: DocNode, index: nat, start: int, body: Text, base: int, style: Style) {
    var cells := row.children;
    && row.nodeType == TableRow
    && row.attrs.tableRow == Some(index)
    && row.attrs.byteStart == start
    && cells != []
    && CellsTile(cells, index, start)
    && CellsHold(cells[..|cells| - 1], body, base, style)
    && CellHolds(cells[|cells| - 1], body, base, style, "\\\\")
    && cells[|cells| - 1].attrs.byteEnd == row.attrs.byteEnd
  }

  function RowsEnd(rows: seq<DocNode>, base: int): int {
    if rows == [] then base else rows[|rows| - 1].attrs.byteEnd
  }

  /** Rows numbered from 0, each starting where the previous one ended. */
  ghost predicate RowsTile(rows: seq<DocNode>, body: Text, base: int, style: Style) {
    rows == []
    || (var last := |rows| - 1;
        RowsTile(rows[..last], body, base, style)
        && RowTiles(rows[last], last, RowsEnd(rows[..last], base), body, base, style))
  }

  ghost predicate Open(s: TableState, n: nat, body: Text, base: int) {
    && n <= |body|
    && s.cur == base + n
    && s.rowStart == RowsEnd(s.rows, base)
    && s.cellStart == (if s.cells == [] then s.rowStart else s.cells[|s.cells| - 1].attrs.byteEnd + 1)
    && base <= s.cellStart <= s.cur
    && s.buf == body[s.cellStart - base..n]
    && !EndsRow(s.buf)
  }

  ghost predicate Tiling(s: TableState, n: nat, body: Text, base: int, style: Style) {
    && Open(s, n, body, base)
    && RowsTile(s.rows, body, base, style)
    && CellsTile(s.cells, |s.rows|, s.rowStart)
    && CellsHold(s.cells, body, base, style)
  }

  /** Only one row end can be at the end of the buffer, because it is emptied at once. */
  lemma StripsOnce(buf: Text, ch: char)
    requires !EndsRow(buf) && EndsRow(buf + [ch])
    ensures |buf| >= 1 && StripRowEnd(buf + [ch]) == buf[..|buf| - 1]
  {
    assert (buf + [ch])[..|buf| - 1] == buf[..|buf| - 1];
  }

  lemma CellJoins(s: TableState, cell: DocNode)
    requires CellsTile(s.cells, |s.rows|, s.rowStart)
    requires cell.nodeType == TableCell && cell.children == []
    requires cell.attrs.tableRow == Some(|s.rows|) && cell.attrs.tableCol == Some(|s.cells|)
    requires cell.attrs.byteStart == if s.cells == [] then s.rowStart else s.cells[|s.cells| - 1].attrs.byteEnd + 1
    ensures CellsTile(s.cells + [cell], |s.rows|, s.rowStart)
  {
    var cells := s.cells + [cell];
    forall c: nat | c < |cells| ensures CellFits(cells, c, |s.rows|, s.rowStart) {
      if c < |s.cells| {
        assert CellFits(s.cells, c, |s.rows|, s.rowStart);
      }
    }
  }

  lemma CellKeepsTiling(s: TableState, n: nat, body: Text, base: int, style: Style)
    requires Tiling(s, n, body, base, style) && n < |body| && body[n] == '&'
    ensures Tiling(TableStep(s, body[n], style), n + 1, body, base, style)
  {
    var cell := Cell(s.buf, |s.rows|, |s.cells|, style, s.cellStart, s.cur);
    CellJoins(s, cell);
    assert body[n..n] == [];
    assert CellHolds(cell, body, base, style, []);
  }

  /** The buffer with the terminator's second backslash, cut from the body. */
  lemma RowEndCut(s: TableState, n: nat, body: Text, base: int)
    requires Open(s, n, body, base) && n < |body| && EndsRow(s.buf + [body[n]])
    ensures n >= 1 && s.cellStart - base <= n - 1 && body[n - 1..n + 1] == "\\\\"
    ensures StripRowEnd(s.buf + [body[n]]) == body[s.cellStart - base..n - 1]
  {
    StripsOnce(s.buf, body[n]);
    var buf := s.buf + [body[n]];
    assert buf[|buf| - 2..] == body[n - 1..n + 1];
  }

  function LastCell(s: TableState, ch: char, style: Style): DocNode {
    Cell(StripRowEnd(s.buf + [ch]), |s.rows|, |s.cells|, style, s.cellStart, s.cur + 1)
  }

  lemma LastCellHolds(s: TableState, n: nat, body: Text, base: int, style: Style)
    requires Open(s, n, body, base) && n < |body| && EndsRow(s.buf + [body[n]])
    ensures CellHolds(LastCell(s, body[n], style), body, base, style, "\\\\")
  {
    RowEndCut(s, n, body, base);
  }

  lemma RowKeepsTiling(s: TableState, n: nat, body: Text, base: int, style: Style, cell: DocNode)
    requires Tiling(s, n, body, base, style) && n < |body| && body[n] != '&' && EndsRow(s.buf + [body[n]])
    requires cell == LastCell(s, body[n], style)
    ensures Tiling(TableStep(s, body[n], style), n + 1, body, base, style)
  {
    LastCellHolds(s, n, body, base, style);
    CellJoins(s, cell);
  }

  lemma OctetKeepsTiling(s: TableState, n: nat, body: Text, base: int, style: Style)
    requires Tiling(s, n, body, base, style) && n < |body| && body[n] != '&' && !EndsRow(s.buf + [body[n]])
    ensures Tiling(TableStep(s, body[n], style), n + 1, body, base, style)
  {
    assert s.buf + [body[n]] == body[s.cellStart - base..n + 1];
  }

  lemma StepKeepsOpen(s: TableState, n: nat, body: Text, base: int, style: Style)
    requires Open(s, n, body, base) && n < |body|
    ensures Open(TableStep(s, body[n], style), n + 1, body, base)
  {
    assert s.buf + [body[n]] == body[s.cellStart - base..n + 1];
    assert body[n + 1..n + 1] == [];
  }

  lemma StepKeepsTiling(s: TableState, n: nat, body: Text, base: int, style: Style)
    requires Tiling(s, n, body, base, style) && n < |body|
    ensures Tiling(TableStep(s, body[n], style), n + 1, body, base, style)
  {
    if body[n] == '&' {
      CellKeepsTiling(s, n, body, base, style);
    } else if EndsRow(s.buf + [body[n]]) {
      RowKeepsTiling(s, n, body, base, style, LastCell(s, body[n], style));
    } else {
      OctetKeepsTiling(s, n, body, base, style);
    }
  }

  lemma RunSteps(s: TableState, n: nat, body: Text, style: Style)
    requires n < |body|
    ensures TableRun(s, body[n..], style) == TableRun(TableStep(s, body[n], style), body[n + 1..], style)
  {
    assert body[n..][0] == body[n] && body[n..][1..] == body[n + 1..];
  }

  lemma {:induction false} RunTiles(s: TableState, n: nat, body: Text, base: int, style: Style)
    requires Tiling(s, n, body, base, style)
    ensures Tiling(TableRun(s, body[n..], style), |body|, body, base, style)
    decreases |body| - n
  {
    if n < |body| {
      StepKeepsTiling(s, n, body, base, style);
      RunSteps(s, n, body, style);
      RunTiles(TableStep(s, body[n], style), n + 1, body, base, style);
    } else {
      assert body[n..] == [];
    }
  }

  /** The cells of a tiled row lie between the row's start and the end of the last one. */
  lemma {:induction false} CellsWithin(cells: seq<DocNode>, row: nat, start: int)
    requires cells != [] && CellsTile(cells, row, start)
    requires forall cell | cell in cells :: cell.attrs.byteStart <= cell.attrs.byteEnd
    ensures forall cell | cell in cells ::
      start <= cell.attrs.byteStart <= cell.attrs.byteEnd <= cells[|cells| - 1].attrs.byteEnd
  {
    var last := |cells| - 1;
    assert CellFits(cells, last, row, start);
    if last > 0 {
      var before := cells[..last];
      assert forall cell | cell in before :: cell in cells;
      forall c: nat | c < last ensures CellFits(before, c, row, start) {
        assert CellFits(cells, c, row, start);
      }
      CellsWithin(before, row, start);
      assert cells == before + [cells[last]];
    }
  }

  /** A tiled row nests its cells. */
  lemma RowNestsCells(row: DocNode, index: nat, start: int, body: Text, base: int, style: Style)
    requires RowTiles(row, index, start, body, base, style)
    ensures forall cell | cell in row.children ::
      row.attrs.byteStart <= cell.attrs.byteStart <= cell.attrs.byteEnd <= row.attrs.byteEnd
    ensures row.attrs.byteStart <= row.attrs.byteEnd <= base + |body|
  {
    var cells := row.children;
    var last := |cells| - 1;
    assert cells == cells[..last] + [cells[last]] && cells[last] in cells;
    CellsWithin(cells, index, start);
  }

  lemma {:induction false} RowsWithin(rows: seq<DocNode>, body: Text, base: int, style: Style)
    requires RowsTile(rows, body, base, style)
    ensures base <= RowsEnd(rows, base) <= base + |body|
    ensures forall row | row in rows :: base <= row.attrs.byteStart <= row.attrs.byteEnd <= base + |body|
  {
    if rows != [] {
      var last := |rows| - 1;
      RowsWithin(rows[..last], body, base, style);
      RowNestsCells(rows[last], last, RowsEnd(rows[..last], base), body, base, style);
      assert rows == rows[..last] + [rows[last]];
    }
  }

  lemma RunRowsTile(body: Text, base: int, style: Style)
    ensures RowsTile(TableRun(Start(base), body, style).rows, body, base, style)
  {
    RunTiles(Start(base), 0, body, base, style);
    assert body[0..] == body;
  }

  /** Table tiling: numbered rows one behind the other from `byteStart`, their cells separated by
      exactly one `&`, every cell holding the source of its span, everything within the body. */
  lemma TableTiles(body: Text, byteStart: int, byteEnd: int)
    ensures RowsTile(Tabular(body, byteStart, byteEnd).children, body, byteStart, StyleOf(body))
    ensures forall row | row in Tabular(body, byteStart, byteEnd).children ::
      byteStart <= row.attrs.byteStart <= row.attrs.byteEnd <= byteStart + |body|
  {
    RunRowsTile(body, byteStart, StyleOf(body));
    RowsWithin(Tabular(body, byteStart, byteEnd).children, body, byteStart, StyleOf(body));
  }

  // ---- Headers ----

  ghost predicate RowHeads(row: DocNode, header: bool) {
    row.attrs.isHeader == header && forall cell | cell in row.children :: cell.attrs.isHeader == header
  }

  ghost predicate RowsHead(rows: seq<DocNode>, header: bool) {
    forall k | 0 <= k < |rows| :: RowHeads(rows[k], k == 0 && header)
  }

  ghost predicate StateHeads(s: TableState, header: bool) {
    RowsHead(s.rows, header) && forall cell | cell in s.cells :: cell.attrs.isHeader == (|s.rows| == 0 && header)
  }

  lemma {:induction false} RunHeads(s: TableState, body: Text, style: Style)
    requires StateHeads(s, style.header)
    ensures RowsHead(TableRun(s, body, style).rows, style.header)
    decreases |body|
  {
    if body != [] {
      RunHeads(TableStep(s, body[0], style), body[1..], style);
    }
  }

  /** The first row and its cells are headers exactly if the body starts, behind whitespace, with `\hline`; no other
      row or cell is. */
  lemma FirstRowHeads(body: Text, byteStart: int, byteEnd: int)
    ensures RowsHead(Tabular(body, byteStart, byteEnd).children, "\\hline" <= TrimStart(body))
  {
    RunHeads(Start(byteStart), body, StyleOf(body));
    var t := TrimStart(body);
    assert StartsWithAt(t, 0, "\\hline") <==> "\\hline" <= t by {
      if |t| >= 6 {
        assert t[0..0 + 6] == t[..6];
      }
    }
  }
}
