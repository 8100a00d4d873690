/** Tables in a parsed document: where their rows and cells lie, and where the source of the cells lies. */
module LatexTableSpans {
  import opened Wrappers
  import opened Utf8
  import opened Document
  import opened LatexText
  import opened LatexCursor
  import LatexBraces
  import opened LatexDialect
  import opened LatexTable
  import opened LatexParser
  import opened LatexSpans

  predicate Within(outer: DocNode, inner: DocNode) {
    outer.attrs.byteStart <= inner.attrs.byteStart <= inner.attrs.byteEnd <= outer.attrs.byteEnd
  }

  /** A table read from the body `src[from..to]` of its environment, behind the opening command. Its
      rows and cells are laid out as if the body started where the environment does. */
  ghost predicate TableFrom(src: Text, table: DocNode, from: int, to: int) {
    && table.nodeType == Table
    && 0 <= table.attrs.byteStart < from <= to <= table.attrs.byteEnd <= |src|
    && Boundary(src, from) && Boundary(src, to)
    && RowsTile(table.children, src[from..to], table.attrs.byteStart, StyleOf(src[from..to]))
  }

  ghost predicate Built(src: Text, node: DocNode) {
    if node.nodeType == Table then exists from, to :: TableFrom(src, node, from, to)
    else node.children == [] && node.nodeType !in {TableRow, TableCell}
  }

  ghost predicate AllBuilt(src: Text, nodes: seq<DocNode>) {
    forall node | node in nodes :: Built(src, node)
  }

  // ---- Every step builds its nodes so ----

  /** The table of an environment read behind `pos`: its body lies between the opening and the end marker. */
  lemma BeginMakesTable(src: Text, s: ParseState, pos: nat, d: Dialect) returns (from: nat, to: nat, table: DocNode)
    requires At(src, s.pos) && Onward(src, s.pos, pos) && s.pos < pos
    requires d.EnvironmentOf(BracedArg(src, pos, d.letters).0) == Environment.Tabular
    ensures table.attrs.byteStart == s.pos && TableFrom(src, table, from, to)
    ensures table == LatexTable.Tabular(src[from..to], s.pos, table.attrs.byteEnd)
    ensures var env := BracedArg(src, pos, d.letters);
      && from == BracedArg(src, OptionalArg(src, env.1).1, d.letters).1
      && to == FindFrom(src, from, EndMarker(env.0))
      && table.attrs.byteEnd == (if to == |src| then |src| else to + |EndMarker(env.0)|)
      && BeginStep(src, s, pos, d) == Behind(Flush(s, s.pos), [table], table.attrs.byteEnd)
  {
    var (env, p1) := BracedArg(src, pos, d.letters);
    var (opt, p2) := OptionalArg(src, p1);
    from := EnvStart(src, p2, Environment.Tabular, d.letters);
    to := FindFrom(src, from, EndMarker(env));
    EnvBodyIsShortest(src, from, env, []);
    var (body, next) := EnvBody(src, from, env, []);
    assert body == src[from..to];
    table := LatexTable.Tabular(body, s.pos, next);
    TableTiles(body, s.pos, next);
    EndMarkerBoundary(src, from, env);
  }

  lemma EndMarkerBoundary(src: Text, from: nat, env: Text)
    requires At(src, from)
    ensures Boundary(src, FindFrom(src, from, EndMarker(env)))
  {
    var to := FindFrom(src, from, EndMarker(env));
    if to < |src| {
      OtherOctet(src, to, EndMarker(env));
      AfterAscii(src, to);
    }
  }

  lemma BeginBuilds(src: Text, s: ParseState, pos: nat, d: Dialect)
    requires At(src, s.pos) && Onward(src, s.pos, pos) && s.pos < pos && AllBuilt(src, s.children)
    ensures AllBuilt(src, BeginStep(src, s, pos, d).children)
  {
    var nodes := BeginStep(src, s, pos, d).children;
    if d.EnvironmentOf(BracedArg(src, pos, d.letters).0) == Environment.Tabular {
      var from, to, table := BeginMakesTable(src, s, pos, d);
      assert Built(src, table);
      assert nodes == Flush(s, s.pos).children + [table];
    } else {
      var (env, p1) := BracedArg(src, pos, d.letters);
      var (opt, p2) := OptionalArg(src, p1);
      var kind := d.EnvironmentOf(env);
      var (body, next) := EnvBody(src, EnvStart(src, p2, kind, d.letters), env, []);
      OtherEnvironments(src, kind, opt, body, s.pos, next);
      assert nodes == Flush(s, s.pos).children + EnvNode(kind, opt, body, s.pos, next);
    }
  }

  lemma OtherEnvironments(src: Text, kind: Environment, opt: Option<Text>, body: Text, from: int, to: int)
    requires kind != Environment.Tabular
    ensures AllBuilt(src, EnvNode(kind, opt, body, from, to))
  {
  }

  lemma NamedBuilds(src: Text, s: ParseState, pos: nat, command: Command, d: Dialect)
    requires At(src, s.pos) && Onward(src, s.pos, pos) && s.pos < pos && AllBuilt(src, s.children)
    ensures AllBuilt(src, NamedStep(src, s, pos, command, d).children)
  {
    if command.Begin? {
      BeginBuilds(src, s, pos, d);
    }
  }

  lemma {:induction false} StepBuilds(src: Text, s: ParseState, d: Dialect)
    requires At(src, s.pos) && s.pos < |src| && AllBuilt(src, s.children)
    ensures AllBuilt(src, Step(src, s, d).children)
  {
    if src[s.pos] == '\\' {
      var (name, pos) := CommandName(src, Next(src, s.pos), d.letters);
      NamedBuilds(src, s, pos, d.CommandOf(name), d);
    }
  }

  lemma {:induction false} RunBuilds(src: Text, s: ParseState, d: Dialect)
    requires At(src, s.pos) && AllBuilt(src, s.children)
    ensures AllBuilt(src, Run(src, s, d).children)
    decreases |src| - s.pos
  {
    if !Done(src, s.pos) {
      StepBuilds(src, s, d);
      RunBuilds(src, Step(src, s, d), d);
    }
  }

  lemma {:induction false} DocumentBuilt(src: Text, d: Dialect)
    requires Valid(src)
    ensures AllBuilt(src, ParseLatex(src, d).children)
  {
    RunBuilds(src, Initial(src), d);
  }

  // ---- Rows and cells of one table ----

  lemma {:induction false} RowIsTiled(rows: seq<DocNode>, body: Text, base: int, style: Style, row: DocNode)
    returns (index: nat, start: int)
    requires RowsTile(rows, body, base, style) && row in rows
    ensures RowTiles(row, index, start, body, base, style)
  {
    var last := |rows| - 1;
    if row in rows[..last] {
      index, start := RowIsTiled(rows[..last], body, base, style, row);
    } else {
      assert rows == rows[..last] + [rows[last]];
      index, start := last, RowsEnd(rows[..last], base);
    }
  }

  /** Rows nest in their table, cells in their row, although both are placed too low. */
  lemma TableNests(src: Text, table: DocNode, from: int, to: int)
    requires TableFrom(src, table, from, to)
    ensures forall row | row in table.children :: row.nodeType == TableRow && Within(table, row)
    ensures forall row, cell | row in table.children && cell in row.children ::
      cell.nodeType == TableCell && cell.children == [] && Within(row, cell)
  {
    var (body, base) := (src[from..to], table.attrs.byteStart);
    RowsWithin(table.children, body, base, StyleOf(body));
    forall row | row in table.children
      ensures row.nodeType == TableRow
      ensures forall cell | cell in row.children ::
        cell.nodeType == TableCell && cell.children == [] && Within(row, cell)
    {
      var index, start := RowIsTiled(table.children, body, base, StyleOf(body), row);
      RowNestsCells(row, index, start, body, base, StyleOf(body));
      forall cell | cell in row.children
        ensures cell.nodeType == TableCell && cell.children == []
      {
        var c: nat :| c < |row.children| && cell == row.children[c];
        assert CellFits(row.children, c, index, start);
      }
    }
  }

  /** The octets that end cell `c` of a row inside its span, and those right behind it. */
  function Inside(row: DocNode, c: nat): Text {
    if c + 1 == |row.children| then "\\\\" else []
  }

  /** A cell is read from exactly `h` octets behind its span, where `h` is the length of everything before
      the body: from there on is the cell's text, and then the `&` or the backslashes that end it. */
  ghost predicate ReadLater(src: Text, row: DocNode, c: nat, h: int, read: Text -> Option<Text>)
    requires c < |row.children|
  {
    var cell, inside := row.children[c], Inside(row, c);
    var (from, to) := (cell.attrs.byteStart + h, cell.attrs.byteEnd + h);
    && 0 <= from <= to - |inside| && to <= |src|
    && cell.text == read(src[from..to - |inside|])
    && src[to - |inside|..to] == inside
    && (inside == [] ==> to < |src| && src[to] == '&')
  }

  ghost predicate RowReadLater(src: Text, row: DocNode, h: int, read: Text -> Option<Text>) {
    forall c: nat | c < |row.children| :: ReadLater(src, row, c, h, read)
  }

  lemma RowHolds(row: DocNode, index: nat, start: int, body: Text, base: int, style: Style, c: nat)
    requires RowTiles(row, index, start, body, base, style) && c < |row.children|
    ensures CellHolds(row.children[c], body, base, style, Inside(row, c))
    ensures Inside(row, c) == [] ==> Separated(row.children[c], body, base)
  {
    var last := |row.children| - 1;
    assert c < last ==> row.children[c] == row.children[..last][c];
  }

  lemma CellReadLater(src: Text, from: int, to: int, base: int, style: Style, row: DocNode, c: nat)
    requires 0 <= from <= to <= |src| && c < |row.children|
    requires CellHolds(row.children[c], src[from..to], base, style, Inside(row, c))
    requires Inside(row, c) == [] ==> Separated(row.children[c], src[from..to], base)
    ensures ReadLater(src, row, c, from - base, style.read)
  {
    var cell, inside := row.children[c], Inside(row, c);
    var (a, b) := (cell.attrs.byteStart - base, cell.attrs.byteEnd - base);
    SlicesOfSlice(src, from, to, a, b - |inside|);
    SlicesOfSlice(src, from, to, b - |inside|, b);
  }

  lemma SlicesOfSlice(src: Text, from: int, to: int, a: int, b: int)
    requires 0 <= from <= to <= |src| && 0 <= a <= b <= to - from
    ensures src[from..to][a..b] == src[from + a..from + b]
  {
    var whole, part := src[from..to][a..b], src[from + a..from + b];
    assert forall k | 0 <= k < b - a :: whole[k] == src[from..to][a + k] == src[from + (a + k)] == part[k];
  }

  lemma RowReadsLater(src: Text, from: int, to: int, base: int, style: Style, row: DocNode, index: nat, start: int)
    requires 0 <= from <= to <= |src| && RowTiles(row, index, start, src[from..to], base, style)
    ensures RowReadLater(src, row, from - base, style.read)
  {
    var h := from - base;
    forall c: nat | c < |row.children|
      ensures ReadLater(src, row, c, h, style.read)
    {
      RowHolds(row, index, start, src[from..to], base, style, c);
      CellReadLater(src, from, to, base, style, row, c);
    }
  }

  /** The places the cells are read from are on character boundaries, as separators and backslashes are ASCII. */
  ghost predicate BetweenCharacters(src: Text, row: DocNode, h: int) {
    forall cell | cell in row.children ::
      Boundary(src, cell.attrs.byteStart + h) && Boundary(src, cell.attrs.byteEnd + h)
  }

  lemma CellEnds(src: Text, row: DocNode, c: nat, h: int, read: Text -> Option<Text>)
    requires Valid(src) && c < |row.children| && RowReadLater(src, row, h, read)
    ensures var end := row.children[c].attrs.byteEnd + h;
      Boundary(src, end) && (c + 1 < |row.children| ==> Boundary(src, end + 1))
  {
    var end := row.children[c].attrs.byteEnd + h;
    assert ReadLater(src, row, c, h, read);
    if c + 1 < |row.children| {
      AfterAscii(src, end);
    } else {
      assert src[end - 1] == src[end - 2..end][1];
      AfterAscii(src, end - 1);
    }
  }

  lemma RowIsBetween(src: Text, row: DocNode, index: nat, h: int, read: Text -> Option<Text>)
    requires Valid(src) && CellsTile(row.children, index, row.attrs.byteStart) && RowReadLater(src, row, h, read)
    requires Boundary(src, row.attrs.byteStart + h)
    ensures BetweenCharacters(src, row, h)
    ensures row.children != [] ==> Boundary(src, row.children[|row.children| - 1].attrs.byteEnd + h)
  {
    forall c: nat | c < |row.children|
      ensures Boundary(src, row.children[c].attrs.byteStart + h) && Boundary(src, row.children[c].attrs.byteEnd + h)
    {
      CellIsBetween(src, row, index, c, h, read);
    }
  }

  lemma CellIsBetween(src: Text, row: DocNode, index: nat, c: nat, h: int, read: Text -> Option<Text>)
    requires Valid(src) && CellsTile(row.children, index, row.attrs.byteStart) && RowReadLater(src, row, h, read)
    requires Boundary(src, row.attrs.byteStart + h) && c < |row.children|
    ensures Boundary(src, row.children[c].attrs.byteStart + h) && Boundary(src, row.children[c].attrs.byteEnd + h)
  {
    assert CellFits(row.children, c, index, row.attrs.byteStart);
    CellEnds(src, row, c, h, read);
    if c > 0 {
      CellEnds(src, row, c - 1, h, read);
    }
  }

  lemma {:induction false} RowBehind(src: Text, start: int, from: int, to: int, base: int, style: Style, row: DocNode, index: nat)
    requires 0 <= from <= to <= |src| && Valid(src) && Boundary(src, start + (from - base))
    requires RowTiles(row, index, start, src[from..to], base, style)
    ensures RowReadLater(src, row, from - base, style.read) && BetweenCharacters(src, row, from - base)
    ensures Boundary(src, row.attrs.byteEnd + (from - base))
  {
    var h := from - base;
    RowReadsLater(src, from, to, base, style, row, index, start);
    RowOutline(row, index, start, src[from..to], base, style);
    RowIsBetween(src, row, index, h, style.read);
  }

  lemma RowOutline(row: DocNode, index: nat, start: int, body: Text, base: int, style: Style)
    requires RowTiles(row, index, start, body, base, style)
    ensures row.attrs.byteStart == start && CellsTile(row.children, index, start)
    ensures row.children != [] && row.children[|row.children| - 1].attrs.byteEnd == row.attrs.byteEnd
  {
  }

  lemma {:induction false} RowsReadLater(src: Text, rows: seq<DocNode>, from: int, to: int, base: int, style: Style)
    requires 0 <= from <= to <= |src| && Valid(src) && Boundary(src, from)
    requires RowsTile(rows, src[from..to], base, style)
    ensures Boundary(src, RowsEnd(rows, base) + (from - base))
    ensures AllReadLater(src, rows, from - base, style.read)
  {
    if rows != [] {
      RowsTileBut(rows, src[from..to], base, style);
      RowsReadLater(src, rows[..|rows| - 1], from, to, base, style);
      RowsReadLaterStep(src, rows, from, to, base, style);
    }
  }

  lemma RowsTileBut(rows: seq<DocNode>, body: Text, base: int, style: Style)
    requires rows != [] && RowsTile(rows, body, base, style)
    ensures RowsTile(rows[..|rows| - 1], body, base, style)
  {
  }

  lemma RowsReadLaterStep(src: Text, rows: seq<DocNode>, from: int, to: int, base: int, style: Style)
    requires 0 <= from <= to <= |src| && Valid(src) && rows != [] && RowsTile(rows, src[from..to], base, style)
    requires Boundary(src, RowsEnd(rows[..|rows| - 1], base) + (from - base))
    requires AllReadLater(src, rows[..|rows| - 1], from - base, style.read)
    ensures Boundary(src, RowsEnd(rows, base) + (from - base))
    ensures AllReadLater(src, rows, from - base, style.read)
  {
    LastReadLater(src, rows, from, to, base, style);
    OneMoreReadLater(src, rows, from - base, style.read);
  }

  lemma LastReadLater(src: Text, rows: seq<DocNode>, from: int, to: int, base: int, style: Style)
    requires 0 <= from <= to <= |src| && Valid(src) && rows != [] && RowsTile(rows, src[from..to], base, style)
    requires Boundary(src, RowsEnd(rows[..|rows| - 1], base) + (from - base))
    ensures OneReadLater(src, rows[|rows| - 1], from - base, style.read)
    ensures Boundary(src, RowsEnd(rows, base) + (from - base))
  {
    var last := |rows| - 1;
    RowBehind(src, RowsEnd(rows[..last], base), from, to, base, style, rows[last], last);
  }

  ghost predicate OneReadLater(src: Text, row: DocNode, h: int, read: Text -> Option<Text>) {
    RowReadLater(src, row, h, read) && BetweenCharacters(src, row, h)
  }

  ghost predicate AllReadLater(src: Text, rows: seq<DocNode>, h: int, read: Text -> Option<Text>) {
    forall row | row in rows :: OneReadLater(src, row, h, read)
  }

  lemma OneMoreReadLater(src: Text, rows: seq<DocNode>, h: int, read: Text -> Option<Text>)
    requires rows != [] && AllReadLater(src, rows[..|rows| - 1], h, read)
    requires OneReadLater(src, rows[|rows| - 1], h, read)
    ensures AllReadLater(src, rows, h, read)
  {
    assert rows == rows[..|rows| - 1] + [rows[|rows| - 1]];
  }

  /** Every table of a document lies so: rows and cells in its span, and the source of each cell `h` octets
      behind the cell's span, never at it. */
  lemma {:induction false} DocumentTables(src: Text, d: Dialect, table: DocNode) returns (h: int)
    requires Valid(src) && table in ParseLatex(src, d).children && table.nodeType == Table
    ensures h > 0
    ensures forall row | row in table.children :: Within(table, row) && forall cell | cell in row.children :: Within(row, cell)
    ensures AllReadLater(src, table.children, h, CellText)
  {
    DocumentBuilt(src, d);
    assert Built(src, table);
    var from, to :| TableFrom(src, table, from, to);
    h := from - table.attrs.byteStart;
    TableLaidOut(src, table, from, to);
  }

  lemma TableLaidOut(src: Text, table: DocNode, from: int, to: int)
    requires Valid(src) && TableFrom(src, table, from, to)
    ensures from - table.attrs.byteStart > 0
    ensures forall row | row in table.children :: Within(table, row) && forall cell | cell in row.children :: Within(row, cell)
    ensures AllReadLater(src, table.children, from - table.attrs.byteStart, CellText)
  {
    TableNests(src, table, from, to);
    TableReadLater(src, table, from, to, StyleOf(src[from..to]));
  }

  lemma TableReadLater(src: Text, table: DocNode, from: int, to: int, style: Style)
    requires Valid(src) && 0 <= from <= to <= |src| && Boundary(src, from)
    requires RowsTile(table.children, src[from..to], table.attrs.byteStart, style)
    ensures AllReadLater(src, table.children, from - table.attrs.byteStart, style.read)
  {
    RowsReadLater(src, table.children, from, to, table.attrs.byteStart, style);
  }

  // ---- All nodes of the document ----

  /** What holds of a node's span: rows and cells only lie in the source, all others fit. */
  predicate Placed(src: Text, node: DocNode) {
    if node.nodeType in {TableRow, TableCell}
    then 0 <= node.attrs.byteStart <= node.attrs.byteEnd <= |src|
    else NodeFits(src, node)
  }

  ghost predicate PlacedTree(src: Text, node: DocNode) {
    Placed(src, node) && forall child | child in node.children :: Within(node, child)
  }

  lemma CellsPlaced(src: Text, row: DocNode)
    requires Placed(src, row) && row.nodeType == TableRow
    requires forall cell | cell in row.children :: cell.nodeType == TableCell && cell.children == [] && Within(row, cell)
    ensures forall node | node in Preorder(row) :: PlacedTree(src, node)
  {
    forall node | node in Preorder(row)
      ensures PlacedTree(src, node)
    {
      if node != row {
        var i := SubtreeOf(row.children, node);
        assert Preorder(row.children[i]) == [row.children[i]];
      }
    }
  }

  lemma BuiltPlaced(src: Text, top: DocNode)
    requires NodeFits(src, top) && Built(src, top)
    ensures forall node | node in Preorder(top) :: PlacedTree(src, node)
  {
    if top.nodeType == Table {
      var from, to :| TableFrom(src, top, from, to);
      TableNests(src, top, from, to);
      RowsPlaced(src, top);
    } else {
      assert Preorder(top) == [top];
    }
  }

  lemma RowsPlaced(src: Text, table: DocNode)
    requires NodeFits(src, table) && table.nodeType == Table
    requires forall row | row in table.children :: row.nodeType == TableRow && Within(table, row)
    requires forall row, cell | row in table.children && cell in row.children ::
      cell.nodeType == TableCell && cell.children == [] && Within(row, cell)
    ensures forall node | node in Preorder(table) :: PlacedTree(src, node)
  {
    forall node | node in Preorder(table)
      ensures PlacedTree(src, node)
    {
      if node != table {
        var i := SubtreeOf(table.children, node);
        CellsPlaced(src, table.children[i]);
      }
    }
  }

  /** The metadata node and the nodes of the loop, as long as the opening is not the bad one. */
  lemma ChildrenFit(src: Text, d: Dialect, top: DocNode)
    requires Valid(src) && !BadOpening(src) && top in ParseLatex(src, d).children
    ensures NodeFits(src, top)
  {
    GoodOpeningIsSound(src, d);
    var nodes := ParseLatex(src, d).children;
    OrderedMeans(src, nodes, |src|);
    var k :| 0 <= k < |nodes| && nodes[k] == top;
  }

  /** Spans of the whole tree: outside the bad opening every node lies well-ordered in the source and in its
      parent's span, and all but table rows and cells on character boundaries. */
  lemma {:induction false} TreeSpans(src: Text, d: Dialect)
    requires Valid(src) && !BadOpening(src)
    ensures forall node | node in Preorder(ParseLatex(src, d)) :: PlacedTree(src, node)
  {
    var doc := ParseLatex(src, d);
    DocumentBuilt(src, d);
    forall top | top in doc.children
      ensures NodeFits(src, top) && Built(src, top)
    {
      ChildrenFit(src, d, top);
    }
    forall node | node in Preorder(doc)
      ensures PlacedTree(src, node)
    {
      if node != doc {
        var i := SubtreeOf(doc.children, node);
        BuiltPlaced(src, doc.children[i]);
      }
    }
  }

  lemma {:induction false} ChildInPreorder(nodes: seq<DocNode>, node: DocNode)
    requires node in nodes
    ensures node in PreorderAll(nodes)
  {
    if node != nodes[0] {
      assert nodes == [nodes[0]] + nodes[1..];
      ChildInPreorder(nodes[1..], node);
    } else {
      assert Preorder(nodes[0])[0] == node;
    }
  }

  /** The exact condition under which no offset in the tree falls below zero. */
  lemma OffsetsNonNegativeIffGoodOpening(src: Text, d: Dialect)
    requires Valid(src)
    ensures (forall node | node in Preorder(ParseLatex(src, d)) :: node.attrs.byteStart >= 0 && node.attrs.byteEnd >= 0)
       <==> !BadOpening(src)
  {
    if BadOpening(src) {
      BadOpeningUnderflows(src, d);
      var doc := ParseLatex(src, d);
      var node :| node in doc.children && node.nodeType != Metadata && node.attrs.byteStart == -1;
      ChildInPreorder(doc.children, node);
      assert node in Preorder(doc);
    } else {
      TreeSpans(src, d);
      forall node | node in Preorder(ParseLatex(src, d))
        ensures node.attrs.byteStart >= 0 && node.attrs.byteEnd >= 0
      {
        assert PlacedTree(src, node);
      }
    }
  }

  // ---- Why rows and cells are left out of the boundaries ----

  lemma {:induction false} RunCollects(s: TableState, a: Text, rest: Text, style: Style)
    requires '&' !in a && '\\' !in a
    ensures TableRun(s, a + rest, style) == TableRun(s.(buf := s.buf + a, cur := s.cur + |a|), rest, style)
    decreases |a|
  {
    if a == [] {
      assert a + rest == rest && s.buf + a == s.buf;
    } else {
      assert (a + rest)[0] == a[0] && (a + rest)[1..] == a[1..] + rest;
      assert a[0] in a && forall c | c in a[1..] :: c in a;
      assert s.buf + [a[0]] + a[1..] == s.buf + a;
      RunCollects(TableStep(s, a[0], style), a[1..], rest, style);
    }
  }

  lemma StepThenRun(s: TableState, ch: char, rest: Text, style: Style)
    ensures TableRun(s, [ch] + rest, style) == TableRun(TableStep(s, ch, style), rest, style)
  {
    assert ([ch] + rest)[1..] == rest;
  }

  /** The first cell of a row `a & b`. */
  lemma FirstCell(a: Text, b: Text, base: int, style: Style)
    requires '&' !in a + b && '\\' !in a + b
    ensures var rows := TableRun(Start(base), a + ("&" + (b + "\\\\")), style).rows;
      && |rows| == 1 && |rows[0].children| == 2
      && rows[0].children[0].attrs.byteStart == base && rows[0].children[0].attrs.byteEnd == base + |a|
  {
    assert forall c | c in a || c in b :: c in a + b;
    RunCollects(Start(base), a, "&" + (b + "\\\\"), style);
    var s := Start(base).(buf := [] + a, cur := base + |a|);
    StepThenRun(s, '&', b + "\\\\", style);
    var t := TableStep(s, '&', style);
    RunCollects(t, b, "\\\\", style);
    LastTwo(t.(buf := t.buf + b, cur := t.cur + |b|), style);
  }

  lemma LastTwo(s: TableState, style: Style)
    requires s.buf != [] ==> s.buf[|s.buf| - 1] != '\\'
    ensures exists cell, row :: TableRun(s, "\\\\", style).rows == s.rows + [row] && row.children == s.cells + [cell]
  {
    var once := TableStep(s, '\\', style);
    var twice := TableStep(once, '\\', style);
    assert "\\\\" == ['\\'] + "\\" && "\\" == ['\\'] + [];
    StepThenRun(s, '\\', "\\", style);
    StepThenRun(once, '\\', [], style);
    var row := twice.rows[|s.rows|];
    var cell := row.children[|s.cells|];
    assert twice.rows == s.rows + [row] && row.children == s.cells + [cell];
  }

  const OPENING: Text := "\\begin{tabular}{l}"
  const CLOSING: Text := "\\end{tabular}"

  function RowBody(a: Text, b: Text): Text {
    a + ("&" + (b + "\\\\"))
  }

  function OneRow(a: Text, b: Text): Text {
    OPENING + (RowBody(a, b) + CLOSING)
  }

  lemma RowBodyValid(a: Text, b: Text)
    requires Valid(a) && Valid(b)
    ensures Valid(RowBody(a, b))
  {
    AsciiValid("&");
    AsciiValid("\\\\");
    ConcatValid(b, "\\\\");
    ConcatValid("&", b + "\\\\");
    ConcatValid(a, "&" + (b + "\\\\"));
  }

  lemma Wrapped(opening: Text, body: Text, closing: Text)
    requires Valid(body) && forall k | 0 <= k < |opening| :: opening[k] as int < 0x80
    requires forall k | 0 <= k < |closing| :: closing[k] as int < 0x80
    ensures Valid(opening + (body + closing))
  {
    AsciiValid(opening);
    AsciiValid(closing);
    ConcatValid(body, closing);
    ConcatValid(opening, body + closing);
  }

  lemma OneRowValid(a: Text, b: Text)
    requires Valid(a) && Valid(b)
    ensures Valid(OneRow(a, b))
  {
    RowBodyValid(a, b);
    Wrapped(OPENING, RowBody(a, b), CLOSING);
  }

  /** An argument of letters at `p`. */
  lemma ReadsLetters(src: Text, p: nat, name: Text, letters: set<Text>)
    requires Valid(src) && p + |name| + 2 < |src| && src[p..p + |name| + 2] == "{" + name + "}"
    requires forall c | c in name :: InRange(c, 97, 122)
    ensures At(src, p) && At(src, p + |name| + 2)
    ensures BracedArg(src, p, letters) == (name, p + |name| + 2) && OptionalArg(src, p) == (None, p)
  {
    var written := src[p..p + |name| + 2];
    assert written[0] == src[p] && written[|name| + 1] == src[p + |name| + 1];
    SlicesOfSlice(src, p, p + |name| + 2, 1, 1 + |name|);
    assert written[1..1 + |name|] == name;
    AfterAscii(src, p);
    AfterAscii(src, p + |name| + 1);
    LatexBraces.NameBalanced(name);
    InkTrims(name);
    LatexBraces.CursorReadsArgument(src, p, name, letters);
  }

  /** The opening is 18 octets long. */
  lemma ReadsOpening(src: Text, letters: set<Text>)
    requires Valid(src) && |src| > 18 && src[..18] == OPENING
    ensures At(src, 6) && BracedArg(src, 6, letters) == ("tabular", 15)
    ensures At(src, 15) && OptionalArg(src, 15) == (None, 15) && BracedArg(src, 15, letters).1 == 18
  {
    assert src[6..15] == src[..18][6..15] == "{" + "tabular" + "}";
    assert src[15..18] == src[..18][15..18] == "{" + "l" + "}";
    ReadsLetters(src, 6, "tabular", letters);
    ReadsLetters(src, 15, "l", letters);
  }

  lemma SecondOctet(src: Text, k: nat, marker: Text)
    requires k + 1 < |src| && |marker| > 1
    ensures src[k + 1] != marker[1] ==> !StartsWithAt(src, k, marker)
  {
    if StartsWithAt(src, k, marker) {
      assert src[k..k + |marker|][1] == src[k + 1];
    }
  }

  lemma FindsClosing(a: Text, b: Text)
    requires '\\' !in a + b
    ensures FindFrom(OneRow(a, b), 18, CLOSING) == 18 + |RowBody(a, b)|
  {
    var src, end := OneRow(a, b), 18 + |RowBody(a, b)|;
    assert forall c | c in a || c in b :: c in a + b;
    forall k: nat | 18 <= k < end
      ensures !StartsWithAt(src, k, CLOSING)
    {
      assert src[k] == RowBody(a, b)[k - 18];
      OtherOctet(src, k, CLOSING);
      if k >= end - 2 {
        SecondOctet(src, k, CLOSING);
      }
    }
    SameFind(src, 18, end, CLOSING);
    assert src[end..end + |CLOSING|] == CLOSING;
  }

  lemma RowOfTable(a: Text, b: Text, table: DocNode)
    requires '&' !in a + b && '\\' !in a + b
    requires table == LatexTable.Tabular(RowBody(a, b), 0, table.attrs.byteEnd)
    ensures |table.children| == 1 && |table.children[0].children| == 2
    ensures var cell := table.children[0].children[0]; cell.attrs.byteStart == 0 && cell.attrs.byteEnd == |a|
  {
    FirstCell(a, b, 0, StyleOf(RowBody(a, b)));
  }

  lemma {:induction false} OpenedTable(src: Text, body: Text, s: ParseState, d: Dialect) returns (table: DocNode)
    requires Valid(src) && |src| > 18 + |body| && src[..18] == OPENING && src[18..18 + |body|] == body
    requires FindFrom(src, 18, EndMarker("tabular")) == 18 + |body|
    requires s.pos == 0 && d.EnvironmentOf("tabular") == Environment.Tabular
    ensures At(src, 6) && BeginStep(src, s, 6, d) == Behind(Flush(s, 0), [table], 18 + |body| + |EndMarker("tabular")|)
    ensures table == LatexTable.Tabular(body, 0, table.attrs.byteEnd)
  {
    ReadsOpening(src, d.letters);
    var from, to;
    from, to, table := BeginMakesTable(src, s, 6, d);
  }

  /** The table of a source that is one row of two cells: the first cell's span starts at the opening. */
  lemma {:induction false} OneRowTable(a: Text, b: Text, s: ParseState, d: Dialect) returns (table: DocNode)
    requires Valid(a) && Valid(b) && '&' !in a + b && '\\' !in a + b
    requires s.pos == 0 && d.EnvironmentOf("tabular") == Environment.Tabular
    ensures At(OneRow(a, b), 6) && BeginStep(OneRow(a, b), s, 6, d) == Behind(Flush(s, 0), [table], |OneRow(a, b)|)
    ensures |table.children| == 1 && |table.children[0].children| == 2
    ensures var cell := table.children[0].children[0]; cell.attrs.byteStart == 0 && cell.attrs.byteEnd == |a|
  {
    OneRowValid(a, b);
    FindsClosing(a, b);
    OneRowParts(a, b);
    table := OpenedTable(OneRow(a, b), RowBody(a, b), s, d);
    RowOfTable(a, b, table);
  }

  lemma OneRowParts(a: Text, b: Text)
    ensures EndMarker("tabular") == CLOSING
    ensures var (src, body) := (OneRow(a, b), RowBody(a, b));
      && |src| == 18 + |body| + |CLOSING|
      && src[..18] == OPENING && src[18..18 + |body|] == body
  {
  }

  /** A cell's span may end inside a character: here between the two octets of one. */
  lemma CellEndsInsideCharacter(s: ParseState, d: Dialect) returns (src: Text, table: DocNode)
    requires s.pos == 0 && d.EnvironmentOf("tabular") == Environment.Tabular
    ensures At(src, 6) && OPENING <= src && BeginStep(src, s, 6, d) == Behind(Flush(s, 0), [table], |src|)
    ensures |table.children| == 1 && |table.children[0].children| == 2
    ensures !Boundary(src, table.children[0].children[0].attrs.byteEnd)
  {
    var a: Text := AccentedText();
    src := OneRow(a, "b");
    OneRowParts(a, "b");
    AsciiValid("b");
    table := OneRowTable(a, "b", s, d);
    InsideAccent(a, "b");
  }

  lemma InsideAccent(a: Text, b: Text)
    requires |a| == 19 && IsContinuation(a[1])
    ensures !Boundary(OneRow(a, b), 19)
  {
    assert RowBody(a, b)[1] == a[1] && OneRow(a, b)[18 + 1] == RowBody(a, b)[1];
  }

  lemma AccentedText() returns (a: Text)
    ensures Valid(a) && |a| == 19 && IsContinuation(a[1]) && '&' !in a + "b" && '\\' !in a + "b"
  {
    var accented: Text, tail: Text := ['\U{C3}', '\U{A9}'], seq(17, i => 'a');
    assert accented[2..] == [];
    AsciiValid(tail);
    ConcatValid(accented, tail);
    a := accented + tail;
  }
}
