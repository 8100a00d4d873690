/** The TOON table printer, and a reader that shows nothing is lost in print. */
module Toon {
  import opened Strings
  import opened Joining

  /** Quote doubling, the rule of section 2 of RFC 4180. */
  function DoubleQuotes(s: string): string {
    if s == [] then [] else (if s[0] == '"' then "\"\"" else [s[0]]) + DoubleQuotes(s[1..])
  }

  /** `parsesAsNumber` stands for the float parser's verdict; nothing is assumed of it. */
  predicate NeedsQuoting(value: string, parsesAsNumber: string -> bool) {
    || value == []
    || ',' in value
    || '"' in value
    || '\n' in value
    || IsWhitespace(value[0])
    || IsWhitespace(value[|value| - 1])
    || value in {"true", "false", "null"}
    || parsesAsNumber(value)
  }

  function ToonEscape(value: string, parsesAsNumber: string -> bool): string {
    if NeedsQuoting(value, parsesAsNumber) then "\"" + DoubleQuotes(value) + "\"" else value
  }

  function EscapeAll(row: seq<string>, parsesAsNumber: string -> bool): (cells: seq<string>)
    ensures |cells| == |row|
  {
    seq(|row|, i requires 0 <= i < |row| => ToonEscape(row[i], parsesAsNumber))
  }

  function PrintRow(row: seq<string>, parsesAsNumber: string -> bool): string {
    "  " + Join(EscapeAll(row, parsesAsNumber), ",") + "\n"
  }

  function PrintRows(rows: seq<seq<string>>, parsesAsNumber: string -> bool): string {
    if rows == [] then [] else PrintRow(rows[0], parsesAsNumber) + PrintRows(rows[1..], parsesAsNumber)
  }

  function Decimal(n: nat): (digits: string)
    ensures forall d | d in digits :: '0' <= d <= '9'
  {
    (if n < 10 then [] else Decimal(n / 10)) + ['0' + (n % 10) as char]
  }

  function Header(name: string, fields: seq<string>, count: nat): string {
    name + "[" + Decimal(count) + "]" + FieldList(fields)
  }

  function FieldList(fields: seq<string>): string {
    "{" + Join(fields, ",") + "}:\n"
  }

  method ToonEncode(name: string, fields: seq<string>, rows: seq<seq<string>>, parsesAsNumber: string -> bool)
    returns (out: string)
    ensures out == Encoded(name, fields, rows, parsesAsNumber)
  {
    out := Header(name, fields, |rows|);
    for i := 0 to |rows|
      invariant out + PrintRows(rows[i..], parsesAsNumber) == Encoded(name, fields, rows, parsesAsNumber)
    {
      out := out + "  ";
      out := out + Join(EscapeAll(rows[i], parsesAsNumber), ",");
      out := out + "\n";
    }
  }

  function Encoded(name: string, fields: seq<string>, rows: seq<seq<string>>, parsesAsNumber: string -> bool): string {
    Header(name, fields, |rows|) + PrintRows(rows, parsesAsNumber)
  }

  // ---- The reader ----

  /** The content of a quoted cell and what follows its closing quote. */
  function ReadQuoted(s: string): (r: (string, string))
    ensures |r.1| <= |s|
    decreases |s|
  {
    if s == [] then ([], [])
    else if s[0] == '"' then
      if |s| > 1 && s[1] == '"' then
        var (cell, rest) := ReadQuoted(s[2..]);
        (['"'] + cell, rest)
      else ([], s[1..])
    else
      var (cell, rest) := ReadQuoted(s[1..]);
      ([s[0]] + cell, rest)
  }

  function ReadBare(s: string): (r: (string, string))
    ensures |r.1| <= |s|
  {
    if s == [] || s[0] == ',' || s[0] == '\n' then ([], s)
    else
      var (cell, rest) := ReadBare(s[1..]);
      ([s[0]] + cell, rest)
  }

  function ReadCell(s: string): (r: (string, string))
    ensures |r.1| <= |s|
  {
    if s != [] && s[0] == '"' then ReadQuoted(s[1..]) else ReadBare(s)
  }

  /** The cells up to the end of the line, and what follows the newline. */
  function ReadCells(s: string): (r: (seq<string>, string))
    ensures |r.1| <= |s|
    decreases |s|
  {
    var (cell, rest) := ReadCell(s);
    if rest != [] && rest[0] == ',' then
      var (cells, after) := ReadCells(rest[1..]);
      ([cell] + cells, after)
    else if rest != [] then ([cell], rest[1..])
    else ([cell], [])
  }

  function ReadRows(s: string): seq<seq<string>>
    decreases |s|
  {
    if |s| < 2 then []
    else
      var line := s[2..];
      if line != [] && line[0] == '\n' then [[]] + ReadRows(line[1..])
      else
        var (cells, after) := ReadCells(line);
        [cells] + ReadRows(after)
  }

  function AfterBracket(s: string): (r: string) {
    if s == [] then [] else if s[0] == ']' then s[1..] else AfterBracket(s[1..])
  }

  /** Drops the header, whose name and fields the reader knows, and reads the rows. */
  function Decode(name: string, fields: seq<string>, out: string): seq<seq<string>> {
    if |out| <= |name| then []
    else
      var tail := AfterBracket(out[|name| + 1..]);
      var skip := |FieldList(fields)|;
      if |tail| < skip then [] else ReadRows(tail[skip..])
  }

  // ---- Reading undoes printing ----

  lemma {:induction false} ReadQuotedPrinted(value: string, rest: string)
    requires rest != [] && rest[0] != '"'
    ensures ReadQuoted(DoubleQuotes(value) + "\"" + rest) == (value, rest)
  {
    var s := DoubleQuotes(value) + "\"" + rest;
    if value == [] {
      assert s == "\"" + rest;
      assert s[1..] == rest;
    } else {
      ReadQuotedPrinted(value[1..], rest);
      assert value == [value[0]] + value[1..];
      if value[0] == '"' {
        PrefixDrops("\"\"", DoubleQuotes(value[1..]), rest);
      } else {
        PrefixDrops([value[0]], DoubleQuotes(value[1..]), rest);
      }
    }
  }

  lemma PrefixDrops(prefix: string, quoted: string, rest: string)
    ensures var s := prefix + quoted + "\"" + rest;
      s == prefix + (quoted + "\"" + rest) && s[|prefix|..] == quoted + "\"" + rest
  {
    assert prefix + quoted + "\"" + rest == prefix + (quoted + "\"" + rest);
  }

  lemma {:induction false} ReadBarePrinted(value: string, rest: string)
    requires ',' !in value && '\n' !in value
    requires rest != [] && (rest[0] == ',' || rest[0] == '\n')
    ensures ReadBare(value + rest) == (value, rest)
  {
    if value == [] {
      assert value + rest == rest;
    } else {
      assert (value + rest)[1..] == value[1..] + rest;
      assert value == [value[0]] + value[1..];
      ReadBarePrinted(value[1..], rest);
    }
  }

  lemma ReadCellPrinted(value: string, parsesAsNumber: string -> bool, rest: string)
    requires rest != [] && (rest[0] == ',' || rest[0] == '\n')
    ensures ReadCell(ToonEscape(value, parsesAsNumber) + rest) == (value, rest)
  {
    var s := ToonEscape(value, parsesAsNumber) + rest;
    if NeedsQuoting(value, parsesAsNumber) {
      InsideQuotes(DoubleQuotes(value), rest);
      ReadQuotedPrinted(value, rest);
    } else {
      assert s[0] == value[0];
      ReadBarePrinted(value, rest);
    }
  }

  lemma InsideQuotes(quoted: string, rest: string)
    ensures var s := "\"" + quoted + "\"" + rest; s[0] == '"' && s[1..] == quoted + "\"" + rest
  {
  }

  lemma JoinSplits(cells: seq<string>, rest: string)
    requires |cells| > 1
    ensures Join(cells, ",") + "\n" + rest == cells[0] + ("," + (Join(cells[1..], ",") + "\n" + rest))
  {
  }

  lemma {:induction false} ReadCellsPrinted(row: seq<string>, parsesAsNumber: string -> bool, rest: string)
    requires row != []
    ensures ReadCells(Join(EscapeAll(row, parsesAsNumber), ",") + "\n" + rest) == (row, rest)
  {
    var cells := EscapeAll(row, parsesAsNumber);
    var s := Join(cells, ",") + "\n" + rest;
    if |row| == 1 {
      assert s == cells[0] + ("\n" + rest);
      ReadCellPrinted(row[0], parsesAsNumber, "\n" + rest);
      assert row == [row[0]];
    } else {
      assert cells[1..] == EscapeAll(row[1..], parsesAsNumber);
      var later := Join(cells[1..], ",") + "\n" + rest;
      JoinSplits(cells, rest);
      ReadCellPrinted(row[0], parsesAsNumber, "," + later);
      ReadCellsPrinted(row[1..], parsesAsNumber, rest);
      assert row == [row[0]] + row[1..];
    }
  }

  lemma {:induction false} ReadRowsPrinted(rows: seq<seq<string>>, parsesAsNumber: string -> bool)
    ensures ReadRows(PrintRows(rows, parsesAsNumber)) == rows
  {
    if rows != [] {
      ReadRowsPrinted(rows[1..], parsesAsNumber);
      ReadRowPrinted(rows[0], parsesAsNumber, PrintRows(rows[1..], parsesAsNumber));
      assert rows == [rows[0]] + rows[1..];
    }
  }

  lemma ReadRowPrinted(row: seq<string>, parsesAsNumber: string -> bool, rest: string)
    ensures ReadRows(PrintRow(row, parsesAsNumber) + rest) == [row] + ReadRows(rest)
  {
    var s := PrintRow(row, parsesAsNumber) + rest;
    var line := Join(EscapeAll(row, parsesAsNumber), ",") + "\n" + rest;
    assert s[2..] == line;
    if row == [] {
      assert line == "\n" + rest;
      assert line[1..] == rest;
    } else {
      ReadCellsPrinted(row, parsesAsNumber, rest);
    }
  }

  lemma {:induction false} AfterBracketFound(digits: string, rest: string)
    requires ']' !in digits
    ensures AfterBracket(digits + "]" + rest) == rest
  {
    var s := digits + "]" + rest;
    if digits == [] {
      assert s[1..] == rest;
    } else {
      assert s[1..] == digits[1..] + "]" + rest;
      AfterBracketFound(digits[1..], rest);
    }
  }

  /** Round trip: the rows are recovered from the printed table, whatever the cells hold and whatever
      further cells the number test quotes. */
  lemma DecodeUndoesEncode(name: string, fields: seq<string>, rows: seq<seq<string>>, parsesAsNumber: string -> bool)
    ensures Decode(name, fields, Encoded(name, fields, rows, parsesAsNumber)) == rows
  {
    HeaderSkipped(name, fields, |rows|, PrintRows(rows, parsesAsNumber));
    ReadRowsPrinted(rows, parsesAsNumber);
  }

  lemma HeaderSkipped(name: string, fields: seq<string>, count: nat, body: string)
    ensures Decode(name, fields, Header(name, fields, count) + body) == ReadRows(body)
  {
    var list, digits := FieldList(fields), Decimal(count);
    var out := Header(name, fields, count) + body;
    HeaderParts(name, digits, list, body, out);
    AfterBracketFound(digits, list + body);
  }

  lemma HeaderParts(name: string, digits: string, list: string, body: string, out: string)
    requires out == name + "[" + digits + "]" + list + body
    ensures |out| > |name| && out[|name| + 1..] == digits + "]" + (list + body)
    ensures (list + body)[|list|..] == body
  {
    assert out == name + "[" + (digits + "]" + (list + body));
  }

  /** Hence printing is injective in the rows. */
  lemma EncodeInjective(name: string, fields: seq<string>, a: seq<seq<string>>, b: seq<seq<string>>,
                        parsesAsNumber: string -> bool)
    requires Encoded(name, fields, a, parsesAsNumber) == Encoded(name, fields, b, parsesAsNumber)
    ensures a == b
  {
    DecodeUndoesEncode(name, fields, a, parsesAsNumber);
    DecodeUndoesEncode(name, fields, b, parsesAsNumber);
  }

  /** The header is not injective in the field names: they are printed unescaped. */
  lemma FieldNamesAreNotEscaped(name: string, parsesAsNumber: string -> bool)
    ensures Encoded(name, ["a,b"], [], parsesAsNumber) == Encoded(name, ["a", "b"], [], parsesAsNumber)
  {
    assert Join(["a", "b"], ",") == "a" + "," + Join(["b"], ",") by {
      assert ["a", "b"][1..] == ["b"];
    }
    assert Join(["a,b"], ",") == "a,b";
  }

  /** No separator inside, as in the field names the callers pass. */
  predicate PlainNames(fields: seq<string>) {
    forall f | f in fields :: ',' !in f && '\n' !in f
  }

  /** Both print the empty list. */
  predicate Blank(fields: seq<string>) {
    fields == [] || fields == [""]
  }

  lemma SameUpTo(x: string, r: string, y: string, s: string, end: char)
    requires end !in x && end !in y && x + [end] + r == y + [end] + s
    ensures x == y && r == s
  {
    var left, right := x + [end] + r, y + [end] + s;
    assert left[|x|] == end && right[|y|] == end;
    assert x == left[..|x|] && y == right[..|y|] && r == left[|x| + 1..] && s == right[|y| + 1..];
  }

  lemma {:induction false} NoNewlineJoined(fields: seq<string>)
    requires PlainNames(fields)
    ensures '\n' !in Join(fields, ",")
  {
    if |fields| > 1 {
      assert forall f | f in fields[1..] :: f in fields;
      NoNewlineJoined(fields[1..]);
    }
  }

  lemma {:induction false} JoinInjective(f: seq<string>, g: seq<string>)
    requires PlainNames(f) && PlainNames(g) && f != [] && g != [] && Join(f, ",") == Join(g, ",")
    ensures f == g
  {
    CommaInside(f);
    CommaInside(g);
    assert ',' !in f[0] && ',' !in g[0];
    assert f == [f[0]] + f[1..] && g == [g[0]] + g[1..];
    if |f| > 1 && |g| > 1 {
      SameUpTo(f[0], Join(f[1..], ","), g[0], Join(g[1..], ","), ',');
      assert PlainNames(f[1..]) && PlainNames(g[1..]);
      JoinInjective(f[1..], g[1..]);
    }
  }

  lemma CommaInside(fields: seq<string>)
    ensures |fields| > 1 ==> ',' in Join(fields, ",")
  {
    if |fields| > 1 {
      assert Join(fields, ",")[|fields[0]|] == ',';
    }
  }

  lemma FieldListsDiffer(f: seq<string>, g: seq<string>, r: string, s: string)
    requires PlainNames(f) && PlainNames(g) && FieldList(f) + r == FieldList(g) + s
    ensures (f == g || (Blank(f) && Blank(g))) && r == s
  {
    var x, y := "{" + Join(f, ",") + "}:", "{" + Join(g, ",") + "}:";
    NoNewlineJoined(f);
    NoNewlineJoined(g);
    assert FieldList(f) == x + ['\n'] && FieldList(g) == y + ['\n'];
    SameUpTo(x, r, y, s, '\n');
    assert Join(f, ",") == x[1..|x| - 2] && Join(g, ",") == y[1..|y| - 2];
    if f != [] && g != [] {
      JoinInjective(f, g);
    } else {
      BlankJoined(f);
      BlankJoined(g);
    }
  }

  lemma BlankJoined(fields: seq<string>)
    ensures Join(fields, ",") == "" <==> Blank(fields)
  {
    if |fields| == 1 && fields[0] == "" {
      assert fields == [""];
    }
  }

  /** For field names without commas and newlines two tables print the same exactly if they have the same
      rows and the same fields, up to the empty list and the list of one empty name. */
  lemma EncodeInjectiveJointly(name: string, f: seq<string>, g: seq<string>, a: seq<seq<string>>, b: seq<seq<string>>,
                               parsesAsNumber: string -> bool)
    requires PlainNames(f) && PlainNames(g)
    ensures Encoded(name, f, a, parsesAsNumber) == Encoded(name, g, b, parsesAsNumber)
       <==> a == b && (f == g || (Blank(f) && Blank(g)))
  {
    var (ra, rb) := (PrintRows(a, parsesAsNumber), PrintRows(b, parsesAsNumber));
    if Encoded(name, f, a, parsesAsNumber) == Encoded(name, g, b, parsesAsNumber) {
      ListBehindBracket(name, f, |a|, ra);
      ListBehindBracket(name, g, |b|, rb);
      FieldListsDiffer(f, g, ra, rb);
      ReadRowsPrinted(a, parsesAsNumber);
      ReadRowsPrinted(b, parsesAsNumber);
    } else {
      BlankJoined(f);
      BlankJoined(g);
    }
  }

  lemma ListBehindBracket(name: string, fields: seq<string>, count: nat, body: string)
    ensures var out := Header(name, fields, count) + body;
      |out| > |name| && AfterBracket(out[|name| + 1..]) == FieldList(fields) + body
  {
    HeaderParts(name, Decimal(count), FieldList(fields), body, Header(name, fields, count) + body);
    AfterBracketFound(Decimal(count), FieldList(fields) + body);
  }

  // ---- A reader that tells strings from other values ----

  /** What a cell may be taken for. */
  datatype Value = Str(text: string) | Literal(name: string) | Number(text: string) | Absent

  /** Such a reader takes the blanks off a bare cell, and the rest for a literal or a number if it looks like one. */
  function ReadValue(s: string, parsesAsNumber: string -> bool): Value {
    if s != [] && s[0] == '"' then Str(ReadQuoted(s[1..]).0)
    else
      var bare := Trim(ReadBare(s).0);
      if bare == [] then Absent
      else if bare in {"true", "false", "null"} then Literal(bare)
      else if parsesAsNumber(bare) then Number(bare)
      else Str(bare)
  }

  /** No cell is ever taken for anything but the string it is: literals, numbers, blanks and the empty string are
      quoted. */
  lemma CellsStayStrings(value: string, parsesAsNumber: string -> bool, rest: string)
    requires rest != [] && (rest[0] == ',' || rest[0] == '\n')
    ensures ReadValue(ToonEscape(value, parsesAsNumber) + rest, parsesAsNumber) == Str(value)
  {
    var s := ToonEscape(value, parsesAsNumber) + rest;
    if NeedsQuoting(value, parsesAsNumber) {
      InsideQuotes(DoubleQuotes(value), rest);
      ReadQuotedPrinted(value, rest);
    } else {
      assert s[0] == value[0];
      ReadBarePrinted(value, rest);
      assert TrimEnd(value) == value && TrimStart(value) == value;
    }
  }
}
