/** What a table's rows hold: the text behind the last row terminator is dropped. */
module LatexRows {
  import opened Wrappers
  import opened Utf8
  import opened Document
  import opened LatexText
  import opened LatexWords
  import opened LatexTable

  // ---- Where the last row ends ----

  function TrailingBackslashes(t: Text): nat {
    if t != [] && t[|t| - 1] == '\\' then 1 + TrailingBackslashes(t[..|t| - 1]) else 0
  }

  /** The body ends right behind a row terminator. */
  predicate EndsBehindRow(body: Text) {
    TrailingBackslashes(body) > 0 && TrailingBackslashes(body) % 2 == 0
  }

  /** Where the last row ends: behind the last row terminator, with the backslashes paired from the left. */
  function LastRowEnd(body: Text): (end: nat)
    ensures end <= |body|
  {
    if body == [] then 0
    else if EndsBehindRow(body) then |body|
    else LastRowEnd(body[..|body| - 1])
  }

  /** How the run of backslashes before position `n` shows in the loop's variables. */
  ghost predicate Parity(s: TableState, n: nat, body: Text) {
    && n <= |body|
    && s.rowStart <= s.cur
    && (s.buf != [] && s.buf[|s.buf| - 1] == '\\' <==> TrailingBackslashes(body[..n]) % 2 == 1)
    && (s.rowStart == s.cur <==> n == 0 || EndsBehindRow(body[..n]))
  }

  lemma TrailingStep(body: Text, n: nat)
    requires n < |body|
    ensures TrailingBackslashes(body[..n + 1])
         == if body[n] == '\\' then 1 + TrailingBackslashes(body[..n]) else 0
  {
    assert body[..n + 1][..n] == body[..n];
  }

  lemma StepKeepsParity(s: TableState, n: nat, body: Text, style: Style)
    requires Parity(s, n, body) && n < |body| && !EndsRow(s.buf)
    ensures Parity(TableStep(s, body[n], style), n + 1, body) && !EndsRow(TableStep(s, body[n], style).buf)
  {
    TrailingStep(body, n);
  }

  lemma {:induction false} RunKeepsOpen(s: TableState, n: nat, body: Text, base: int, style: Style)
    requires Open(s, n, body, base)
    ensures Open(TableRun(s, body[n..], style), |body|, body, base)
    decreases |body| - n
  {
    if n < |body| {
      StepKeepsOpen(s, n, body, base, style);
      RunSteps(s, n, body, style);
      RunKeepsOpen(TableStep(s, body[n], style), n + 1, body, base, style);
    } else {
      assert body[n..] == [];
    }
  }

  lemma AtTheEnd(body: Text, base: int, style: Style)
    ensures var t := TableRun(Start(base), body, style);
      t.cur == base + |body| && t.rowStart == RowsEnd(t.rows, base)
  {
    assert body[0..] == body;
    RunKeepsOpen(Start(base), 0, body, base, style);
  }

  /** The open row starts where the last one of the text read so far ended. */
  ghost predicate RowsSoFar(s: TableState, n: nat, body: Text, base: int) {
    && Parity(s, n, body) && !EndsRow(s.buf)
    && s.cur == base + n
    && s.rowStart == base + LastRowEnd(body[..n])
  }

  lemma StepKeepsRowsSoFar(s: TableState, n: nat, body: Text, base: int, style: Style)
    requires RowsSoFar(s, n, body, base) && n < |body|
    ensures RowsSoFar(TableStep(s, body[n], style), n + 1, body, base)
  {
    StepKeepsParity(s, n, body, style);
    assert body[..n + 1][..n] == body[..n];
  }

  lemma {:induction false} RunKeepsRowsSoFar(s: TableState, n: nat, body: Text, base: int, style: Style)
    requires RowsSoFar(s, n, body, base)
    ensures RowsSoFar(TableRun(s, body[n..], style), |body|, body, base)
    decreases |body| - n
  {
    if n < |body| {
      StepKeepsRowsSoFar(s, n, body, base, style);
      RunSteps(s, n, body, style);
      RunKeepsRowsSoFar(TableStep(s, body[n], style), n + 1, body, base, style);
    } else {
      assert body[n..] == [];
    }
  }

  lemma RowsEndAtLast(body: Text, base: int, style: Style)
    ensures RowsEnd(TableRun(Start(base), body, style).rows, base) == base + LastRowEnd(body)
  {
    assert body[0..] == body && body[..|body|] == body && body[..0] == [];
    AtTheEnd(body, base, style);
    RunKeepsRowsSoFar(Start(base), 0, body, base, style);
  }

  /** The rows end behind the body's last row terminator. */
  lemma RowsEndThere(body: Text, byteStart: int, byteEnd: int)
    ensures RowsEnd(Tabular(body, byteStart, byteEnd).children, byteStart) == byteStart + LastRowEnd(body)
  {
    RowsEndAtLast(body, byteStart, StyleOf(body));
  }

  /** The rows reach the end of the body if and only if the body is empty or the run of backslashes at its
      end is not empty and even. */
  lemma RowsReachEndIff(body: Text, byteStart: int, byteEnd: int)
    ensures RowsEnd(Tabular(body, byteStart, byteEnd).children, byteStart) == byteStart + |body|
       <==> body == [] || EndsBehindRow(body)
  {
    RowsEndThere(body, byteStart, byteEnd);
  }

  // ---- Which words the rows hold ----

  /** The body with cell separators and row terminators, paired from the left, blanked out. */
  function Blanked(t: Text): Text
    decreases |t|
  {
    if t == [] then []
    else if t[0] == '&' then " " + Blanked(t[1..])
    else if |t| >= 2 && t[0] == '\\' && t[1] == '\\' then "  " + Blanked(t[2..])
    else [t[0]] + Blanked(t[1..])
  }

  /** A way to read words off the body and off a cell's text; nothing below depends on which words they are. */
  datatype Reading = Reading(ofBody: Text -> seq<Text>, ofCell: Option<Text> -> seq<Text>)

  function HeldCells(cells: seq<DocNode>, m: Reading): seq<Text> {
    if cells == [] then [] else HeldCells(cells[..|cells| - 1], m) + m.ofCell(cells[|cells| - 1].text)
  }

  /** The words of all cells, row by row. */
  function HeldWords(rows: seq<DocNode>, m: Reading): seq<Text> {
    if rows == [] then [] else HeldWords(rows[..|rows| - 1], m) + HeldCells(rows[|rows| - 1].children, m)
  }

  /** Neither a separator nor a terminator inside. */
  predicate Quiet(t: Text) {
    forall i: nat | i < |t| :: QuietAt(t, i)
  }

  predicate QuietAt(t: Text, i: nat)
    requires i < |t|
  {
    t[i] != '&' && (i > 0 && t[i - 1] == '\\' ==> t[i] != '\\')
  }

  lemma QuietPart(t: Text, from: nat, to: nat)
    requires Quiet(t) && from <= to <= |t|
    ensures Quiet(t[from..to])
  {
    forall i: nat | i < to - from
      ensures QuietAt(t[from..to], i)
    {
      assert QuietAt(t, from + i);
    }
  }

  lemma QuietGrows(t: Text, ch: char)
    requires Quiet(t) && ch != '&' && !EndsRow(t + [ch])
    ensures Quiet(t + [ch])
  {
    forall i: nat | i <= |t|
      ensures QuietAt(t + [ch], i)
    {
      if i < |t| {
        assert QuietAt(t, i);
      }
    }
  }

  lemma {:induction false} BlankedQuiet(a: Text, rest: Text)
    requires Quiet(a)
    requires a != [] && a[|a| - 1] == '\\' && rest != [] ==> rest[0] != '\\'
    ensures Blanked(a + rest) == a + Blanked(rest)
    decreases |a|
  {
    if a == [] {
      assert a + rest == rest;
    } else {
      var t := a + rest;
      assert t[1..] == a[1..] + rest && t[0] == a[0];
      assert QuietAt(a, 0);
      assert |a| > 1 ==> t[1] == a[1] && QuietAt(a, 1);
      QuietPart(a, 1, |a|);
      assert a[1..|a|] == a[1..];
      BlankedQuiet(a[1..], rest);
      assert a == [a[0]] + a[1..];
    }
  }

  /** A separator behind a quiet buffer. */
  lemma BlankedSeparator(buf: Text, rest: Text)
    requires Quiet(buf) && Valid(buf)
    ensures Words(Blanked(buf + ("&" + rest))) == Words(buf) + Words(Blanked(rest))
  {
    var t := "&" + rest;
    BlankedQuiet(buf, t);
    assert t[1..] == rest;
    WordsAroundChar(buf, ' ', Blanked(rest));
  }

  /** A terminator behind a quiet text that does not end in a backslash. */
  lemma {:induction false} BlankedTerminator(raw: Text, rest: Text)
    requires Quiet(raw) && Valid(raw) && (raw != [] ==> raw[|raw| - 1] != '\\')
    ensures Words(Blanked(raw + ("\\\\" + rest))) == Words(raw) + Words(Blanked(rest))
  {
    var t := "\\\\" + rest;
    BlankedQuiet(raw, t);
    assert t[2..] == rest;
    assert "  " + Blanked(rest) == " " + (" " + Blanked(rest));
    WordsAroundChar(raw, ' ', " " + Blanked(rest));
    WordsAroundChar([], ' ', Blanked(rest));
    assert [] + (" " + Blanked(rest)) == " " + Blanked(rest);
  }

  /** What separators and terminators do to the words. */
  ghost predicate Splits(m: Reading, style: Style, raw: Text, rest: Text) {
    && m.ofBody(raw + ("&" + rest)) == m.ofCell(style.read(raw)) + m.ofBody(rest)
    && ((raw != [] ==> raw[|raw| - 1] != '\\') ==>
          m.ofBody(raw + ("\\\\" + rest)) == m.ofCell(style.read(raw)) + m.ofBody(rest))
  }

  ghost predicate Additive(m: Reading, style: Style) {
    forall raw: Text, rest: Text | Quiet(raw) && Valid(raw) :: Splits(m, style, raw, rest)
  }

  /** The open row's cells and buffer, with what is still to be read, hold the words `open`. */
  ghost predicate Balance(s: TableState, m: Reading, rest: Text, open: seq<Text>) {
    HeldCells(s.cells, m) + m.ofBody(s.buf + rest) == open
  }

  lemma SeparatorBalances(s: TableState, style: Style, m: Reading, rest: Text, open: seq<Text>)
    requires Balance(s, m, "&" + rest, open) && Splits(m, style, s.buf, rest)
    ensures Balance(TableStep(s, '&', style), m, rest, open)
  {
    var cell := Cell(s.buf, |s.rows|, |s.cells|, style, s.cellStart, s.cur);
    assert (s.cells + [cell])[..|s.cells|] == s.cells;
    assert [] + rest == rest;
    Regroup(HeldCells(s.cells, m), m.ofCell(cell.text), m.ofBody(rest));
  }

  lemma OctetBalances(s: TableState, ch: char, style: Style, m: Reading, rest: Text, open: seq<Text>)
    requires Balance(s, m, [ch] + rest, open) && ch != '&' && !EndsRow(s.buf + [ch])
    ensures Balance(TableStep(s, ch, style), m, rest, open)
  {
    assert s.buf + ([ch] + rest) == s.buf + [ch] + rest;
  }

  lemma CellWords(cells: seq<DocNode>, cell: DocNode, m: Reading)
    ensures HeldCells(cells + [cell], m) == HeldCells(cells, m) + m.ofCell(cell.text)
  {
    assert (cells + [cell])[..|cells|] == cells;
  }

  lemma RowWords(rows: seq<DocNode>, row: DocNode, m: Reading)
    ensures HeldWords(rows + [row], m) == HeldWords(rows, m) + HeldCells(row.children, m)
  {
    assert (rows + [row])[..|rows|] == rows;
  }

  lemma StripsTerminator(raw: Text)
    requires raw != [] ==> raw[|raw| - 1] != '\\'
    ensures EndsRow(raw + "\\" + "\\") && StripRowEnd(raw + "\\" + "\\") == raw
  {
    var buf := raw + "\\" + "\\";
    assert buf[..|buf| - 2] == raw && !EndsRow(raw);
  }

  /** The row that ends here holds the words of the open row, up to those still to be read. */
  lemma TerminatorBalances(s: TableState, style: Style, m: Reading, raw: Text, rest: Text, open: seq<Text>)
    requires Balance(s, m, "\\" + rest, open) && s.buf == raw + "\\" && Splits(m, style, raw, rest)
    requires raw != [] ==> raw[|raw| - 1] != '\\'
    ensures var t := TableStep(s, '\\', style);
      && t.cells == [] && t.buf == []
      && HeldWords(t.rows, m) + m.ofBody(rest) == HeldWords(s.rows, m) + open
  {
    StripsTerminator(raw);
    var cell := LastCell(s, '\\', style);
    CellWords(s.cells, cell, m);
    assert s.buf + ("\\" + rest) == raw + ("\\\\" + rest);
    Regroup(HeldCells(s.cells, m), m.ofCell(cell.text), m.ofBody(rest));
    var row := Row(s.cells + [cell], |s.rows|, style, s.rowStart, s.cur + 1);
    RowWords(s.rows, row, m);
    Regroup(HeldWords(s.rows, m), HeldCells(s.cells + [cell], m), m.ofBody(rest));
  }

  lemma AsciiSplits(a: Text, c: char, rest: Text)
    requires Valid(a + ([c] + rest)) && c as int < 0x80
    ensures Valid(a) && Valid(rest)
  {
    var t := a + ([c] + rest);
    assert t[|a|] == c;
    AfterAscii(t, |a|);
    SplitValid(t, |a|);
    SplitValid(t, |a| + 1);
    assert t[..|a|] == a && t[|a| + 1..] == rest;
  }

  /** A state of the loop before `rest`, where `behind` is the text from the open row on. */
  ghost predicate Ready(s: TableState, rest: Text, m: Reading, behind: Text) {
    && Valid(s.buf + rest) && Quiet(s.buf)
    && Balance(s, m, rest, m.ofBody(behind))
    && |rest| <= |behind| && rest == behind[|behind| - |rest|..]
    && s.cur - s.rowStart == |behind| - |rest|
  }

  lemma SeparatorReady(s: TableState, style: Style, m: Reading, rest: Text, behind: Text)
    requires Additive(m, style) && Ready(s, "&" + rest, m, behind)
    ensures Ready(TableStep(s, '&', style), rest, m, behind)
  {
    AsciiSplits(s.buf, '&', rest);
    assert Splits(m, style, s.buf, rest);
    SeparatorBalances(s, style, m, rest, m.ofBody(behind));
    assert [] + rest == rest == ("&" + rest)[1..];
  }

  lemma OctetReady(s: TableState, ch: char, style: Style, m: Reading, rest: Text, behind: Text)
    requires Ready(s, [ch] + rest, m, behind) && ch != '&' && !EndsRow(s.buf + [ch])
    ensures Ready(TableStep(s, ch, style), rest, m, behind)
  {
    QuietGrows(s.buf, ch);
    OctetBalances(s, ch, style, m, rest, m.ofBody(behind));
    assert s.buf + ([ch] + rest) == s.buf + [ch] + rest;
    assert ([ch] + rest)[1..] == rest;
  }

  lemma TerminatorReady(s: TableState, style: Style, m: Reading, rest: Text, behind: Text)
    requires Additive(m, style) && Ready(s, "\\" + rest, m, behind) && EndsRow(s.buf + "\\")
    ensures var t := TableStep(s, '\\', style);
      && Ready(t, rest, m, rest)
      && HeldWords(t.rows, m) + m.ofBody(rest) == HeldWords(s.rows, m) + m.ofBody(behind)
      && t.rowStart - s.rowStart == |behind| - |rest|
  {
    var raw := s.buf[..|s.buf| - 1];
    assert s.buf == raw + "\\";
    RawIsFine(s.buf, raw, rest);
    assert Splits(m, style, raw, rest);
    TerminatorBalances(s, style, m, raw, rest, m.ofBody(behind));
    assert [] + rest == rest && rest[0..] == rest;
  }

  /** The loop from any of its states: what is added to the rows' words is what `behind` has before `left`,
      the text behind the last row. */
  lemma {:induction false} RunAccounts(s: TableState, rest: Text, style: Style, m: Reading, behind: Text)
    returns (left: Text)
    requires Additive(m, style) && Ready(s, rest, m, behind)
    ensures var t := TableRun(s, rest, style);
      && HeldWords(t.rows, m) + m.ofBody(left) == HeldWords(s.rows, m) + m.ofBody(behind)
      && |left| <= |behind| && left == behind[|behind| - |left|..]
      && t.rowStart - s.rowStart == |behind| - |left|
    decreases |rest|
  {
    if rest == [] {
      left := behind;
    } else {
      var ch, later := rest[0], rest[1..];
      assert rest == [ch] + later;
      if ch == '&' {
        SeparatorReady(s, style, m, later, behind);
        left := RunAccounts(TableStep(s, ch, style), later, style, m, behind);
      } else if EndsRow(s.buf + [ch]) {
        TerminatorReady(s, style, m, later, behind);
        left := RunAccounts(TableStep(s, ch, style), later, style, m, later);
        EndOfEnd(behind, later, left);
      } else {
        OctetReady(s, ch, style, m, later, behind);
        left := RunAccounts(TableStep(s, ch, style), later, style, m, behind);
      }
    }
  }

  lemma EndOfEnd(t: Text, end: Text, left: Text)
    requires |left| <= |end| <= |t| && end == t[|t| - |end|..] && left == end[|end| - |left|..]
    ensures left == t[|t| - |left|..]
  {
  }

  lemma {:induction false} RawIsFine(buf: Text, raw: Text, later: Text)
    requires buf == raw + "\\" && Quiet(buf) && Valid(buf + ("\\" + later))
    ensures Quiet(raw) && Valid(raw) && Valid(later) && (raw != [] ==> raw[|raw| - 1] != '\\')
  {
    AsciiSplits(buf, '\\', later);
    QuietPart(buf, 0, |raw|);
    assert buf[0..|raw|] == raw;
    assert QuietAt(buf, |raw|);
    assert raw + (['\\'] + []) == buf;
    AsciiSplits(raw, '\\', []);
  }

  // ---- Whitespace-separated words ----

  function BodyWords(body: Text): seq<Text> {
    Words(Blanked(body))
  }

  function TextWords(text: Option<Text>): seq<Text> {
    if text.Some? then Words(text.value) else []
  }

  function WordReading(): Reading {
    Reading(BodyWords, TextWords)
  }

  lemma {:induction false} CellTextKeepsWords(raw: Text)
    requires Valid(raw)
    ensures TextWords(CellText(raw)) == Words(raw)
  {
    CollapseKeepsWords(raw);
  }

  lemma WordsAreAdditive(header: bool)
    ensures Additive(WordReading(), Style(header, CellText))
  {
    forall raw: Text, rest: Text | Quiet(raw) && Valid(raw)
      ensures Splits(WordReading(), Style(header, CellText), raw, rest)
    {
      CellTextKeepsWords(raw);
      BlankedSeparator(raw, rest);
      if raw != [] ==> raw[|raw| - 1] != '\\' {
        BlankedTerminator(raw, rest);
      }
    }
  }

  /** Every word of the body is in some cell, in order, or behind the last row terminator. */
  lemma TableAccountsForWords(body: Text, byteStart: int, byteEnd: int)
    requires Valid(body)
    ensures HeldWords(Tabular(body, byteStart, byteEnd).children, WordReading())
          + BodyWords(body[LastRowEnd(body)..])
         == BodyWords(body)
  {
    WordsAreAdditive(HasHeader(body));
    LeftIsRest(body, byteStart, StyleOf(body), WordReading());
  }

  lemma StartIsReady(body: Text, base: int, m: Reading)
    requires Valid(body)
    ensures Ready(Start(base), body, m, body)
  {
    assert [] + body == body && body[0..] == body;
  }

  lemma LeftIsRest(body: Text, base: int, style: Style, m: Reading)
    requires Valid(body) && Additive(m, style)
    ensures var rows := TableRun(Start(base), body, style).rows;
      HeldWords(rows, m) + m.ofBody(body[LastRowEnd(body)..]) == m.ofBody(body)
  {
    StartIsReady(body, base, m);
    var left := RunAccounts(Start(base), body, style, m, body);
    AtTheEnd(body, base, style);
    RowsEndAtLast(body, base, style);
    assert [] + m.ofBody(body) == m.ofBody(body);
  }

  /** The cells hold all words of the body if and only if no word follows the last row terminator. */
  lemma {:induction false} TableKeepsWordsIff(body: Text, byteStart: int, byteEnd: int)
    requires Valid(body)
    ensures HeldWords(Tabular(body, byteStart, byteEnd).children, WordReading()) == BodyWords(body)
       <==> BodyWords(body[LastRowEnd(body)..]) == []
  {
    TableAccountsForWords(body, byteStart, byteEnd);
    SameUpTo(HeldWords(Tabular(body, byteStart, byteEnd).children, WordReading()),
             BodyWords(body[LastRowEnd(body)..]), BodyWords(body));
  }

  lemma SameUpTo(a: seq<Text>, rest: seq<Text>, all: seq<Text>)
    requires a + rest == all
    ensures a == all <==> rest == []
  {
    if rest == [] {
      assert a + [] == a;
    } else {
      assert |a| < |all|;
    }
  }

  lemma {:induction false} RunWithoutTerminator(s: TableState, body: Text, style: Style)
    requires '\\' !in body && '\\' !in s.buf
    ensures TableRun(s, body, style).rows == s.rows
    decreases |body|
  {
    if body != [] {
      assert body[0] in body && forall c | c in body[1..] :: c in body;
      assert forall c | c in s.buf + [body[0]] :: c in s.buf || c == body[0];
      RunWithoutTerminator(TableStep(s, body[0], style), body[1..], style);
    }
  }

  /** A one-row table without its terminator is dropped whole, with both its words. */
  lemma UnterminatedRowIsLost(byteStart: int, byteEnd: int)
    ensures Tabular("a & b", byteStart, byteEnd).children == []
    ensures BodyWords("a & b") == ["a", "b"]
  {
    RunWithoutTerminator(Start(byteStart), "a & b", StyleOf("a & b"));
    WordsOfExample();
  }

  lemma WordsOfExample()
    ensures BodyWords("a & b") == ["a", "b"]
  {
    EndsAreQuiet();
    SeparatedWords("a ", " b");
    WordsOfEnds();
    assert "a & b" == "a " + ("&" + " b");
  }

  lemma SeparatedWords(left: Text, right: Text)
    requires Quiet(left) && Valid(left) && Quiet(right)
    ensures BodyWords(left + ("&" + right)) == Words(left) + Words(right)
  {
    BlankedSeparator(left, right);
    NothingBlanked(right);
  }

  lemma EndsAreQuiet()
    ensures Quiet("a ") && Valid("a ") && Quiet(" b")
  {
    AsciiValid("a ");
  }

  lemma NothingBlanked(t: Text)
    requires Quiet(t)
    ensures Blanked(t) == t
  {
    BlankedQuiet(t, []);
    assert t + [] == t;
  }

  lemma WordsOfEnds()
    ensures Words("a ") == ["a"] && Words(" b") == ["b"]
  {
    assert "a " == "a" + ([' '] + []) && " b" == [] + ([' '] + "b");
    AsciiValid("a");
    AsciiValid("b");
    SolidIsOneWord("a");
    SolidIsOneWord("b");
    WordsAroundChar("a", ' ', []);
    WordsAroundChar([], ' ', "b");
  }
}
