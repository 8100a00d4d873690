/** Writing a document as LaTeX and parsing it gives the document back: every block as a node of its kind with its
    text, in order. */
module LatexRoundTrip {
  import opened Wrappers
  import opened Utf8
  import opened Document
  import opened Joining
  import opened LatexText
  import opened LatexCursor
  import LatexBraces
  import opened LatexDialect
  import opened LatexParser
  import opened LatexSteps

  // ---- Documents ----

  /** A piece of a paragraph: plain text, the argument of a formatting command, an escaped character, short math, or
      a footnote. */
  datatype Inline =
    | Plain(text: Text)
    | Styled(command: Text, text: Text)
    | Escaped(c: char)
    | Math(body: Text)
    | Note(command: Text, text: Text)

  datatype Block =
    | Para(inlines: seq<Inline>)
    | Head(command: Text, title: Text)
    | Display(body: Text)
    | Env(name: Text, body: Text)

  function WriteInline(x: Inline): Text {
    match x
    case Plain(text) => text
    case Styled(command, text) => "\\" + command + ("{" + text + "}")
    case Escaped(c) => ['\\', c]
    case Math(body) => "$" + body + "$"
    case Note(command, text) => "\\" + command + ("{" + text + "}")
  }

  function WriteInlines(xs: seq<Inline>): Text {
    if xs == [] then [] else WriteInline(xs[0]) + WriteInlines(xs[1..])
  }

  function WriteBlock(b: Block): Text {
    match b
    case Para(inlines) => WriteInlines(inlines) + "\n\n"
    case Head(command, title) => "\\" + command + ("{" + title + "}")
    case Display(body) => "$$" + (body + "$$")
    case Env(name, body) => WriteEnv(name, body)
  }

  function WriteEnv(name: Text, body: Text): Text {
    "\\begin" + ("{" + name + "}") + ("\n" + body + Closing(name))
  }

  function Write(blocks: seq<Block>): Text {
    if blocks == [] then [] else WriteBlock(blocks[0]) + Write(blocks[1..])
  }

  // ---- What can be written ----

  predicate IsLetterOf(c: char) {
    InRange(c, 65, 90) || InRange(c, 97, 122)
  }

  predicate IsName(name: Text) {
    name != [] && forall i | 0 <= i < |name| :: IsLetterOf(name[i])
  }

  predicate IsArgument(text: Text) {
    LatexBraces.Balanced(text) && LatexBraces.Plain(text)
  }

  const RESERVED: set<char> := {'%', '$', '\\', '{', '}', '&', '\n'}

  predicate GoodInline(x: Inline, d: Dialect) {
    match x
    case Plain(text) => Valid(text) && text != [] && forall i | 0 <= i < |text| :: text[i] !in RESERVED
    case Styled(command, text) =>
      IsName(command) && command != "end" && d.CommandOf(command) == InlineText && IsArgument(text)
    case Escaped(c) => c as int < 0x80 && !IsLetterOf(c) && d.CommandOf([c]) == Literal(c)
    case Math(body) => body != [] && '$' !in body && |body| < 60
    case Note(command, text) =>
      IsName(command) && command != "end" && d.CommandOf(command) == FootnoteText && IsArgument(text) && Trim(text) != []
  }

  /** From position `k` on, the needle does not occur before position `end`. */
  predicate NotBefore(t: Text, k: nat, needle: Text, end: nat)
    decreases end - k
  {
    k >= end || (!StartsWithAt(t, k, needle) && NotBefore(t, k + 1, needle, end))
  }

  lemma {:induction false} NotBeforeMeans(t: Text, k: nat, needle: Text, end: nat)
    requires NotBefore(t, k, needle, end)
    ensures forall i: nat | k <= i < end :: !StartsWithAt(t, i, needle)
    decreases end - k
  {
    if k < end {
      NotBeforeMeans(t, k + 1, needle, end);
    }
  }

  predicate GoodInlines(xs: seq<Inline>, d: Dialect) {
    xs == [] || (GoodInline(xs[0], d) && GoodInlines(xs[1..], d))
  }

  predicate GoodBlock(b: Block, d: Dialect) {
    match b
    case Para(inlines) => inlines != [] && GoodInlines(inlines, d)
    case Head(command, title) =>
      IsName(command) && command != "end" && d.CommandOf(command).Sectioning? && IsArgument(title)
    case Display(body) => '$' !in body
    case Env(name, body) => GoodEnv(name, body, d)
  }

  predicate GoodEnv(name: Text, body: Text, d: Dialect) {
    && IsEnvName(name) && d.CommandOf("begin") == Begin && !d.EnvironmentOf(name).Tabular?
    && NotBefore(body + Closing(name), 0, Closing(name), |body|)
  }

  predicate IsEnvName(name: Text) {
    name != [] && forall i | 0 <= i < |name| :: IsLetterOf(name[i]) || name[i] == '*'
  }

  // ---- What is expected back ----

  /** What is compared of a node. */
  datatype Seen = Seen(kind: DocNodeType, text: Option<Text>, level: Option<nat>, language: Option<Text>)

  function See(node: DocNode): Seen {
    Seen(node.nodeType, node.text, node.attrs.headingLevel, node.attrs.codeLanguage)
  }

  function SeeAll(nodes: seq<DocNode>): (seen: seq<Seen>)
    ensures |seen| == |nodes|
  {
    seq(|nodes|, i requires 0 <= i < |nodes| => See(nodes[i]))
  }

  /** What a piece contributes to its paragraph, and the nodes it adds beside it. */
  function TextOf(x: Inline): Text {
    match x
    case Plain(text) => text
    case Styled(_, text) => Trim(text)
    case Escaped(c) => [c]
    case Math(body) => "$" + body + "$"
    case Note(_, _) => []
  }

  function TextOfAll(xs: seq<Inline>): Text {
    if xs == [] then [] else TextOf(xs[0]) + TextOfAll(xs[1..])
  }

  function NotesOf(x: Inline): seq<Seen> {
    if x.Note? then [Seen(Footnote, Some(Trim(x.text)), None, None)] else []
  }

  function NotesOfAll(xs: seq<Inline>): seq<Seen> {
    if xs == [] then [] else NotesOf(xs[0]) + NotesOfAll(xs[1..])
  }

  function ParagraphSeen(text: Text): seq<Seen> {
    var joined := Join(Words(text), " ");
    if joined == [] then [] else [Seen(Paragraph, Some(joined), None, None)]
  }

  function Expected(b: Block, d: Dialect): seq<Seen> {
    match b
    case Para(inlines) => NotesOfAll(inlines) + ParagraphSeen(TextOfAll(inlines))
    case Head(command, title) =>
      [Seen(Heading, Some(Trim(title)), if d.CommandOf(command).Sectioning? then Some(d.CommandOf(command).level) else None, None)]
    case Display(body) => [Seen(Formula, Some(Trim(body)), None, None)]
    case Env(name, body) => EnvSeen(d.EnvironmentOf(name), body)
  }

  function EnvSeen(kind: Environment, body: Text): seq<Seen> {
    match kind
    case Verbatim => [Seen(Code, Some(TrimEndNewlines(body)), None, None)]
    case Listing => [Seen(Code, Some(TrimEndNewlines(body)), None, None)]
    case Math => [Seen(Formula, Some(Trim("\n" + body)), None, None)]
    case Abstract =>
      var joined := Join(Words("\n" + body), " ");
      if joined == [] then [] else [Seen(DocNodeType.Abstract, Some(joined), None, None)]
    case Float =>
      var caption := LatexBraces.CommandArg("\n" + body, "caption");
      if caption.None? then [] else [Seen(Caption, caption, None, None)]
    case Tabular => []
    case Skipped => []
  }

  function ExpectedAll(blocks: seq<Block>, d: Dialect): seq<Seen> {
    if blocks == [] then [] else Expected(blocks[0], d) + ExpectedAll(blocks[1..], d)
  }

  // ---- Reading a written text ----

  lemma SplitWritten(src: Text, pos: nat, a: Text, b: Text)
    ensures StartsWithAt(src, pos, a + b) <==> StartsWithAt(src, pos, a) && StartsWithAt(src, pos + |a|, b)
  {
    if pos + |a| + |b| <= |src| {
      var whole := src[pos..pos + |a| + |b|];
      assert whole == src[pos..pos + |a|] + src[pos + |a|..pos + |a| + |b|];
      assert whole[..|a|] == src[pos..pos + |a|] && whole[|a|..] == src[pos + |a|..pos + |a| + |b|];
      assert (a + b)[..|a|] == a && (a + b)[|a|..] == b;
    }
  }

  lemma WrittenAt(src: Text, pos: nat, a: Text, k: nat)
    requires StartsWithAt(src, pos, a) && k < |a|
    ensures src[pos + k] == a[k]
  {
    assert src[pos..pos + |a|][k] == a[k];
  }

  /** A name that is written out up to a brace is read as it is. */
  lemma NameRead(src: Text, pos: nat, name: Text, letters: set<Text>)
    requires At(src, pos) && IsName(name) && StartsWithAt(src, pos, name) && Looking(src, pos + |name|, '{')
    ensures At(src, pos + |name|) && CommandName(src, pos, letters) == (name, pos + |name|)
  {
    forall k: nat | pos <= k < pos + |name|
      ensures IsLetterOf(src[k])
    {
      WrittenAt(src, pos, name, k - pos);
    }
    LettersRead(src, pos, pos + |name|, letters);
    AfterAscii(src, pos + |name|);
    assert CharAt(src, pos) == [src[pos]];
  }

  lemma {:induction false} LettersRead(src: Text, pos: nat, end: nat, letters: set<Text>)
    requires At(src, pos) && pos <= end && Looking(src, end, '{')
    requires forall k: nat | pos <= k < end :: IsLetterOf(src[k])
    ensures LettersEnd(src, pos, letters) == end
    decreases end - pos
  {
    assert CharAt(src, pos) == [src[pos]];
    if pos < end {
      LettersRead(src, Next(src, pos), end, letters);
    }
  }

  /** The parts of a command written with its argument. */
  lemma CommandParts(src: Text, pos: nat, name: Text, text: Text)
    requires At(src, pos) && StartsWithAt(src, pos, "\\" + name + ("{" + text + "}"))
    ensures Looking(src, pos, '\\') && At(src, pos + 1) && Next(src, pos) == pos + 1
    ensures StartsWithAt(src, pos + 1, name)
    ensures Looking(src, pos + 1 + |name|, '{') && StartsWithAt(src, pos + 1 + |name|, "{" + text + "}")
  {
    var arg := "{" + text + "}";
    SplitWritten(src, pos, "\\" + name, arg);
    SplitWritten(src, pos, "\\", name);
    WrittenAt(src, pos, "\\", 0);
    WrittenAt(src, pos + 1 + |name|, arg, 0);
    AfterAscii(src, pos);
  }

  lemma ArgumentRead(src: Text, p: nat, text: Text)
    requires At(src, p) && Looking(src, p, '{') && IsArgument(text) && StartsWithAt(src, p, "{" + text + "}")
    ensures OptionalArg(src, p) == (None, p) && HasArgument(src, p, text) && ArgumentEnd(src, p, text) == p + |text| + 2
  {
  }

  /** A command with its argument, as written. */
  lemma CommandRead(src: Text, pos: nat, name: Text, text: Text, d: Dialect)
    requires At(src, pos) && IsName(name) && IsArgument(text)
    requires StartsWithAt(src, pos, "\\" + name + ("{" + text + "}"))
    ensures Looking(src, pos, '\\') && CommandAt(src, pos, d) == (d.CommandOf(name), pos + 1 + |name|)
    ensures var p := pos + 1 + |name|;
      && At(src, p) && OptionalArg(src, p) == (None, p) && HasArgument(src, p, text)
      && ArgumentEnd(src, p, text) == p + |text| + 2
    ensures name != "end" ==> !StartsWithAt(src, pos, END_DOCUMENT)
  {
    CommandParts(src, pos, name, text);
    NameRead(src, pos + 1, name, d.letters);
    ArgumentRead(src, pos + 1 + |name|, text);
    if StartsWithAt(src, pos, END_DOCUMENT) {
      OnlyEndEnds(src, pos, name);
    }
  }

  lemma OnlyEndEnds(src: Text, pos: nat, name: Text)
    requires IsName(name) && StartsWithAt(src, pos + 1, name) && Looking(src, pos + 1 + |name|, '{')
    requires StartsWithAt(src, pos, END_DOCUMENT)
    ensures name == "end"
  {
    assert END_DOCUMENT[..5] == "\\end{";
    WrittenAt(src, pos, END_DOCUMENT, 4);
    if |name| > 3 {
      WrittenAt(src, pos + 1, name, 3);
      assert false;
    }
    WrittenAt(src, pos, END_DOCUMENT, 1 + |name|);
    forall k: nat | k < |name| ensures name[k] == END_DOCUMENT[k + 1] {
      WrittenAt(src, pos + 1, name, k);
      WrittenAt(src, pos, END_DOCUMENT, k + 1);
    }
    assert END_DOCUMENT[1] == 'e' && END_DOCUMENT[2] == 'n' && END_DOCUMENT[3] == 'd';
  }

  // ---- Going on ----

  /** Whatever the rest of the parse comes to, a turn of the loop does not change it. */
  ghost predicate Settled(run: ParseState -> ParseState, src: Text, d: Dialect) {
    forall s: ParseState {:trigger Step(src, s, d)} | At(src, s.pos) && !Done(src, s.pos) ::
      run(s) == run(Step(src, s, d))
  }

  /** One turn of the loop at a place that is not the document's end. */
  lemma Turn(src: Text, s: ParseState, d: Dialect, run: ParseState -> ParseState)
    requires Settled(run, src, d)
    requires At(src, s.pos) && s.pos < |src| && !StartsWithAt(src, s.pos, END_DOCUMENT)
    ensures run(s) == run(Step(src, s, d))
  {
  }

  /** The loop itself. */
  ghost function Rest(src: Text, d: Dialect): ParseState -> ParseState {
    (s: ParseState) => if At(src, s.pos) then Run(src, s, d) else s
  }

  lemma RestIsSettled(src: Text, d: Dialect)
    ensures Settled(Rest(src, d), src, d)
  {
  }

  // ---- Pieces of a paragraph ----

  /** The parse goes on from `s` to `t`, over the text in between, which adds this to the open paragraph and these nodes. */
  ghost predicate Reads(src: Text, s: ParseState, t: ParseState, run: ParseState -> ParseState, length: nat, text: Text, notes: seq<Seen>)
    requires At(src, s.pos)
  {
    && At(src, t.pos) && t.pos == s.pos + length
    && run(s) == run(t)
    && t.para == s.para + text
    && SeeAll(t.children) == SeeAll(s.children) + notes
  }

  lemma ReadsNothing(src: Text, s: ParseState, run: ParseState -> ParseState)
    requires At(src, s.pos)
    ensures Reads(src, s, s, run, 0, [], [])
  {
    assert s.para + [] == s.para && SeeAll(s.children) + [] == SeeAll(s.children);
  }

  lemma ReadsThen(src: Text, s: ParseState, mid: ParseState, t: ParseState, run: ParseState -> ParseState,
                  n: nat, a: Text, x: seq<Seen>, m: nat, b: Text, y: seq<Seen>)
    requires At(src, s.pos) && Reads(src, s, mid, run, n, a, x) && Reads(src, mid, t, run, m, b, y)
    ensures Reads(src, s, t, run, n + m, a + b, x + y)
  {
    assert s.para + a + b == s.para + (a + b);
    assert SeeAll(s.children) + x + y == SeeAll(s.children) + (x + y);
  }

  /** A turn that only adds to the paragraph. */
  lemma TurnReads(src: Text, s: ParseState, d: Dialect, run: ParseState -> ParseState, length: nat, text: Text)
    requires Settled(run, src, d)
    requires At(src, s.pos) && s.pos < |src| && !StartsWithAt(src, s.pos, END_DOCUMENT)
    requires Continues(s, Step(src, s, d), s.para + text, s.pos + length)
    ensures Reads(src, s, Step(src, s, d), run, length, text, [])
  {
    Turn(src, s, d, run);
    assert SeeAll(s.children) + [] == SeeAll(s.children);
  }

  lemma PlainChar(src: Text, s: ParseState, d: Dialect, run: ParseState -> ParseState)
    requires Settled(run, src, d)
    requires At(src, s.pos) && s.pos < |src| && src[s.pos] !in RESERVED
    ensures Reads(src, s, Step(src, s, d), run, CharLen(src[s.pos]), CharAt(src, s.pos), [])
  {
    OtherOctet(src, s.pos, END_DOCUMENT);
    TurnReads(src, s, d, run, CharLen(src[s.pos]), CharAt(src, s.pos));
  }

  lemma {:induction false} PlainRead(src: Text, s: ParseState, d: Dialect, run: ParseState -> ParseState, text: Text) returns (t: ParseState)
    requires Settled(run, src, d)
    requires At(src, s.pos) && StartsWithAt(src, s.pos, text) && Valid(text)
    requires forall i | 0 <= i < |text| :: text[i] !in RESERVED
    ensures Reads(src, s, t, run, |text|, text, [])
    decreases |text|
  {
    if text == [] {
      t := s;
      ReadsNothing(src, s, run);
    } else {
      WrittenAt(src, s.pos, text, 0);
      var n := CharLen(text[0]);
      var head, rest := text[..n], text[n..];
      assert text == head + rest;
      SplitWritten(src, s.pos, head, rest);
      PlainChar(src, s, d, run);
      assert CharAt(src, s.pos) == head;
      var next := Step(src, s, d);
      t := PlainRead(src, next, d, run, rest);
      ReadsThen(src, s, next, t, run, n, head, [], |rest|, rest, []);
    }
  }

  lemma StyledRead(src: Text, s: ParseState, d: Dialect, run: ParseState -> ParseState, command: Text, text: Text) returns (t: ParseState)
    requires Settled(run, src, d)
    requires At(src, s.pos) && GoodInline(Styled(command, text), d)
    requires StartsWithAt(src, s.pos, WriteInline(Styled(command, text)))
    ensures Reads(src, s, t, run, |WriteInline(Styled(command, text))|, Trim(text), [])
  {
    CommandRead(src, s.pos, command, text, d);
    InlineTextJoins(src, s, d, text);
    t := Step(src, s, d);
    TurnReads(src, s, d, run, |WriteInline(Styled(command, text))|, Trim(text));
  }

  lemma NoteRead(src: Text, s: ParseState, d: Dialect, run: ParseState -> ParseState, command: Text, text: Text) returns (t: ParseState)
    requires Settled(run, src, d)
    requires At(src, s.pos) && GoodInline(Note(command, text), d)
    requires StartsWithAt(src, s.pos, WriteInline(Note(command, text)))
    ensures Reads(src, s, t, run, |WriteInline(Note(command, text))|, [], NotesOf(Note(command, text)))
  {
    CommandRead(src, s.pos, command, text, d);
    FootnoteCarriesText(src, s, d, text);
    Turn(src, s, d, run);
    t := Step(src, s, d);
    assert s.para + [] == s.para;
    SeenSnoc(s.children, t.children);
  }

  lemma SeenSnoc(before: seq<DocNode>, after: seq<DocNode>)
    requires |after| == |before| + 1 && after[..|before|] == before
    ensures SeeAll(after) == SeeAll(before) + [See(after[|before|])]
  {
    assert after == before + [after[|before|]];
  }

  lemma EscapedTurn(src: Text, s: ParseState, d: Dialect, c: char)
    requires At(src, s.pos) && GoodInline(Escaped(c), d) && Looking(src, s.pos, '\\') && Looking(src, s.pos + 1, c)
    ensures Continues(s, Step(src, s, d), s.para + [c], s.pos + 2)
  {
    SignRead(src, s.pos, d, c);
    BareCommands(src, s, d);
  }

  lemma SignRead(src: Text, pos: nat, d: Dialect, c: char)
    requires At(src, pos) && c as int < 0x80 && !IsLetterOf(c) && Looking(src, pos, '\\') && Looking(src, pos + 1, c)
    ensures CommandAt(src, pos, d) == (d.CommandOf([c]), pos + 2)
  {
    AfterAscii(src, pos);
    AfterAscii(src, pos + 1);
    assert CharAt(src, pos + 1) == [c];
  }

  lemma EscapedRead(src: Text, s: ParseState, d: Dialect, run: ParseState -> ParseState, c: char) returns (t: ParseState)
    requires Settled(run, src, d)
    requires At(src, s.pos) && GoodInline(Escaped(c), d) && StartsWithAt(src, s.pos, ['\\', c])
    ensures Reads(src, s, t, run, 2, [c], [])
  {
    WrittenAt(src, s.pos, ['\\', c], 0);
    WrittenAt(src, s.pos, ['\\', c], 1);
    if StartsWithAt(src, s.pos, END_DOCUMENT) {
      WrittenAt(src, s.pos, END_DOCUMENT, 1);
      assert false;
    }
    EscapedTurn(src, s, d, c);
    TurnReads(src, s, d, run, 2, [c]);
    t := Step(src, s, d);
  }

  /** Text without dollars up to the next one. */
  lemma DollarFree(src: Text, pos: nat, body: Text, needle: Text)
    requires StartsWithAt(src, pos, body) && StartsWithAt(src, pos + |body|, needle) && needle != [] && needle[0] == '$'
    requires '$' !in body
    ensures ReadsTo(src, pos, needle, pos + |body|, pos + |body| + |needle|)
  {
    forall k: nat | pos <= k < pos + |body|
      ensures !StartsWithAt(src, k, needle)
    {
      WrittenAt(src, pos, body, k - pos);
      OtherOctet(src, k, needle);
    }
  }

  lemma MathParts(src: Text, pos: nat, body: Text)
    requires body != [] && '$' !in body && StartsWithAt(src, pos, "$" + body + "$")
    ensures Looking(src, pos, '$') && !Looking(src, pos + 1, '$')
    ensures StartsWithAt(src, pos + 1, body) && ReadsTo(src, pos + 1, "$", pos + 1 + |body|, pos + 2 + |body|)
  {
    SplitWritten(src, pos, "$" + body, "$");
    SplitWritten(src, pos, "$", body);
    WrittenAt(src, pos, "$", 0);
    WrittenAt(src, pos + 1, body, 0);
    DollarFree(src, pos + 1, body, "$");
  }

  lemma MathTurn(src: Text, s: ParseState, d: Dialect, body: Text)
    requires At(src, s.pos) && body != [] && '$' !in body && |body| < 60 && StartsWithAt(src, s.pos, "$" + body + "$")
    ensures Looking(src, s.pos, '$')
    ensures Continues(s, Step(src, s, d), s.para + ("$" + body + "$"), s.pos + |body| + 2)
  {
    MathParts(src, s.pos, body);
    var end := s.pos + 1 + |body|;
    InlineMathCarriesText(src, s, d, end, end + 1);
    assert s.para + "$" + body + "$" == s.para + ("$" + body + "$");
  }

  lemma MathRead(src: Text, s: ParseState, d: Dialect, run: ParseState -> ParseState, body: Text) returns (t: ParseState)
    requires Settled(run, src, d)
    requires At(src, s.pos) && GoodInline(Inline.Math(body), d) && StartsWithAt(src, s.pos, "$" + body + "$")
    ensures Reads(src, s, t, run, |body| + 2, "$" + body + "$", [])
  {
    MathTurn(src, s, d, body);
    OtherOctet(src, s.pos, END_DOCUMENT);
    TurnReads(src, s, d, run, |body| + 2, "$" + body + "$");
    t := Step(src, s, d);
  }

  lemma InlineRead(src: Text, s: ParseState, d: Dialect, run: ParseState -> ParseState, x: Inline) returns (t: ParseState)
    requires Settled(run, src, d)
    requires At(src, s.pos) && GoodInline(x, d) && StartsWithAt(src, s.pos, WriteInline(x))
    ensures Reads(src, s, t, run, |WriteInline(x)|, TextOf(x), NotesOf(x))
  {
    match x
    case Plain(text) => t := PlainRead(src, s, d, run, text);
    case Styled(command, text) => t := StyledRead(src, s, d, run, command, text);
    case Escaped(c) => t := EscapedRead(src, s, d, run, c);
    case Math(body) => t := MathRead(src, s, d, run, body);
    case Note(command, text) => t := NoteRead(src, s, d, run, command, text);
  }

  /** A piece of source inside a paragraph, what it adds to the paragraph and beside it. */
  datatype Piece = Piece(text: Text, adds: Text, notes: seq<Seen>)

  function PieceTexts(pieces: seq<Piece>): Text {
    if pieces == [] then [] else pieces[0].text + PieceTexts(pieces[1..])
  }

  function PiecesAdd(pieces: seq<Piece>): Text {
    if pieces == [] then [] else pieces[0].adds + PiecesAdd(pieces[1..])
  }

  function PieceNotes(pieces: seq<Piece>): seq<Seen> {
    if pieces == [] then [] else pieces[0].notes + PieceNotes(pieces[1..])
  }

  function PiecesOf(xs: seq<Inline>): seq<Piece> {
    if xs == [] then [] else [Piece(WriteInline(xs[0]), TextOf(xs[0]), NotesOf(xs[0]))] + PiecesOf(xs[1..])
  }

  lemma {:induction false} PiecesAre(xs: seq<Inline>)
    ensures PieceTexts(PiecesOf(xs)) == WriteInlines(xs)
    ensures PiecesAdd(PiecesOf(xs)) == TextOfAll(xs) && PieceNotes(PiecesOf(xs)) == NotesOfAll(xs)
  {
    if xs != [] {
      PiecesAre(xs[1..]);
      assert PiecesOf(xs)[1..] == PiecesOf(xs[1..]);
    }
  }

  predicate Faces(src: Text, s: ParseState, text: Text) {
    At(src, s.pos) && StartsWithAt(src, s.pos, text)
  }

  /** Wherever the piece is met, it is read so. */
  ghost predicate PieceIsRead(src: Text, run: ParseState -> ParseState, piece: Piece) {
    forall s: ParseState | Faces(src, s, piece.text) ::
      exists t :: Reads(src, s, t, run, |piece.text|, piece.adds, piece.notes)
  }

  ghost predicate PiecesAreRead(src: Text, run: ParseState -> ParseState, pieces: seq<Piece>) {
    pieces == [] || (PieceIsRead(src, run, pieces[0]) && PiecesAreRead(src, run, pieces[1..]))
  }

  lemma InlineIsRead(src: Text, d: Dialect, run: ParseState -> ParseState, x: Inline, piece: Piece)
    requires Settled(run, src, d) && GoodInline(x, d) && piece == Piece(WriteInline(x), TextOf(x), NotesOf(x))
    ensures PieceIsRead(src, run, piece)
  {
    forall s: ParseState | Faces(src, s, piece.text)
      ensures exists t :: Reads(src, s, t, run, |piece.text|, piece.adds, piece.notes)
    {
      var t := InlineRead(src, s, d, run, x);
    }
  }

  lemma {:induction false} InlinesAreRead(src: Text, d: Dialect, run: ParseState -> ParseState, xs: seq<Inline>)
    requires Settled(run, src, d) && GoodInlines(xs, d)
    ensures PiecesAreRead(src, run, PiecesOf(xs))
  {
    if xs != [] {
      InlineIsRead(src, d, run, xs[0], PiecesOf(xs)[0]);
      InlinesAreRead(src, d, run, xs[1..]);
      assert PiecesOf(xs)[1..] == PiecesOf(xs[1..]);
    }
  }

  lemma {:induction false} PiecesRead(src: Text, s: ParseState, run: ParseState -> ParseState, pieces: seq<Piece>)
    returns (t: ParseState)
    requires Faces(src, s, PieceTexts(pieces)) && PiecesAreRead(src, run, pieces)
    ensures Reads(src, s, t, run, |PieceTexts(pieces)|, PiecesAdd(pieces), PieceNotes(pieces))
    decreases |pieces|
  {
    if pieces == [] {
      t := s;
      ReadsNothing(src, s, run);
    } else {
      var first, rest := pieces[0], pieces[1..];
      SplitWritten(src, s.pos, first.text, PieceTexts(rest));
      assert Faces(src, s, first.text);
      var mid :| Reads(src, s, mid, run, |first.text|, first.adds, first.notes);
      t := PiecesRead(src, mid, run, rest);
      ReadsThen(src, s, mid, t, run, |first.text|, first.adds, first.notes,
                |PieceTexts(rest)|, PiecesAdd(rest), PieceNotes(rest));
    }
  }

  lemma InlinesRead(src: Text, s: ParseState, d: Dialect, run: ParseState -> ParseState, xs: seq<Inline>)
    returns (t: ParseState)
    requires Settled(run, src, d)
    requires At(src, s.pos) && GoodInlines(xs, d) && StartsWithAt(src, s.pos, WriteInlines(xs))
    ensures Reads(src, s, t, run, |WriteInlines(xs)|, TextOfAll(xs), NotesOfAll(xs))
  {
    InlinesAreRead(src, d, run, xs);
    PiecesAre(xs);
    t := PiecesRead(src, s, run, PiecesOf(xs));
  }

  // ---- Blocks ----

  /** The parse goes on from `s` to `t`, both between blocks, over the text in between, which adds these nodes. */
  ghost predicate Makes(src: Text, s: ParseState, t: ParseState, run: ParseState -> ParseState, length: nat, nodes: seq<Seen>) {
    && At(src, t.pos) && t.pos == s.pos + length
    && run(s) == run(t)
    && t.para == []
    && SeeAll(t.children) == SeeAll(s.children) + nodes
  }

  lemma MakesNothing(src: Text, s: ParseState, run: ParseState -> ParseState)
    requires At(src, s.pos) && s.para == []
    ensures Makes(src, s, s, run, 0, [])
  {
    assert SeeAll(s.children) + [] == SeeAll(s.children);
  }

  lemma MakesThen(src: Text, s: ParseState, mid: ParseState, t: ParseState, run: ParseState -> ParseState,
                  n: nat, x: seq<Seen>, m: nat, y: seq<Seen>)
    requires Makes(src, s, mid, run, n, x) && Makes(src, mid, t, run, m, y)
    ensures Makes(src, s, t, run, n + m, x + y)
  {
    assert SeeAll(s.children) + x + y == SeeAll(s.children) + (x + y);
  }

  lemma ClosedSees(s: ParseState, at: nat)
    ensures SeeAll(Closed(s, at)) == SeeAll(s.children) + ParagraphSeen(s.para)
  {
    if Join(Words(s.para), " ") == [] {
      assert SeeAll(s.children) + [] == SeeAll(s.children);
    } else {
      SeenSnoc(s.children, Closed(s, at));
    }
  }

  /** Between blocks nothing is open. */
  lemma NothingToClose(s: ParseState, at: nat)
    requires s.para == []
    ensures Closed(s, at) == s.children
  {
    assert Words([]) == [];
  }

  /** The blank line behind a paragraph closes it. */
  lemma BlankLineRead(src: Text, s: ParseState, d: Dialect, run: ParseState -> ParseState) returns (t: ParseState)
    requires Settled(run, src, d)
    requires At(src, s.pos) && StartsWithAt(src, s.pos, "\n\n") && !Looking(src, s.pos + 2, '\n')
    ensures Makes(src, s, t, run, 2, ParagraphSeen(s.para))
  {
    WrittenAt(src, s.pos, "\n\n", 0);
    WrittenAt(src, s.pos, "\n\n", 1);
    BlankLineTurn(src, s, d);
    OtherOctet(src, s.pos, END_DOCUMENT);
    Turn(src, s, d, run);
    t := Step(src, s, d);
    ClosedSees(s, s.pos + 2);
  }

  lemma BlankLineTurn(src: Text, s: ParseState, d: Dialect)
    requires At(src, s.pos) && Looking(src, s.pos, '\n') && Looking(src, s.pos + 1, '\n') && !Looking(src, s.pos + 2, '\n')
    ensures At(src, s.pos + 2)
    ensures Step(src, s, d) == ParseState(s.pos + 2, [], s.pos + 2, Closed(s, s.pos + 2))
  {
    AfterAscii(src, s.pos);
    AfterAscii(src, s.pos + 1);
    assert SkipNewlines(src, s.pos + 2) == s.pos + 2;
    assert SkipNewlines(src, s.pos + 1) == s.pos + 2;
    FlushCloses(s, s.pos + 2);
  }

  lemma ReadThenMade(src: Text, s: ParseState, mid: ParseState, t: ParseState, run: ParseState -> ParseState,
                     n: nat, text: Text, x: seq<Seen>, m: nat, y: seq<Seen>)
    requires At(src, s.pos) && Reads(src, s, mid, run, n, text, x) && Makes(src, mid, t, run, m, y)
    ensures Makes(src, s, t, run, n + m, x + y)
  {
    assert SeeAll(s.children) + x + y == SeeAll(s.children) + (x + y);
  }

  lemma ParaRead(src: Text, s: ParseState, d: Dialect, run: ParseState -> ParseState, inlines: seq<Inline>) returns (t: ParseState)
    requires Settled(run, src, d)
    requires At(src, s.pos) && s.para == [] && GoodInlines(inlines, d)
    requires StartsWithAt(src, s.pos, WriteInlines(inlines)) && StartsWithAt(src, s.pos + |WriteInlines(inlines)|, "\n\n")
    requires !Looking(src, s.pos + |WriteInlines(inlines)| + 2, '\n')
    ensures Makes(src, s, t, run, |WriteInlines(inlines)| + 2, NotesOfAll(inlines) + ParagraphSeen(TextOfAll(inlines)))
  {
    var mid := InlinesRead(src, s, d, run, inlines);
    t := BlankLineRead(src, mid, d, run);
    ParaMade(src, s, mid, t, run, inlines);
  }

  lemma ParaMade(src: Text, s: ParseState, mid: ParseState, t: ParseState, run: ParseState -> ParseState,
                 inlines: seq<Inline>)
    requires At(src, s.pos) && s.para == []
    requires Reads(src, s, mid, run, |WriteInlines(inlines)|, TextOfAll(inlines), NotesOfAll(inlines))
    requires Makes(src, mid, t, run, 2, ParagraphSeen(mid.para))
    ensures Makes(src, s, t, run, |WriteInlines(inlines)| + 2, NotesOfAll(inlines) + ParagraphSeen(TextOfAll(inlines)))
  {
    assert [] + TextOfAll(inlines) == TextOfAll(inlines);
    ReadThenMade(src, s, mid, t, run, |WriteInlines(inlines)|, TextOfAll(inlines), NotesOfAll(inlines),
                 2, ParagraphSeen(mid.para));
  }

  lemma HeadRead(src: Text, s: ParseState, d: Dialect, run: ParseState -> ParseState, command: Text, title: Text) returns (t: ParseState)
    requires Settled(run, src, d)
    requires At(src, s.pos) && s.para == [] && GoodBlock(Head(command, title), d)
    requires StartsWithAt(src, s.pos, WriteBlock(Head(command, title)))
    ensures Makes(src, s, t, run, |WriteBlock(Head(command, title))|, Expected(Head(command, title), d))
  {
    CommandRead(src, s.pos, command, title, d);
    HeadingCarriesTitle(src, s, d, title);
    Turn(src, s, d, run);
    t := Step(src, s, d);
    NothingToClose(s, s.pos);
    SeenSnoc(s.children, t.children);
  }

  lemma DisplayRead(src: Text, s: ParseState, d: Dialect, run: ParseState -> ParseState, body: Text) returns (t: ParseState)
    requires Settled(run, src, d)
    requires At(src, s.pos) && s.para == [] && GoodBlock(Display(body), d)
    requires StartsWithAt(src, s.pos, WriteBlock(Display(body)))
    ensures Makes(src, s, t, run, |WriteBlock(Display(body))|, Expected(Display(body), d))
  {
    SplitWritten(src, s.pos, "$$", body + "$$");
    SplitWritten(src, s.pos + 2, body, "$$");
    WrittenAt(src, s.pos, "$$", 0);
    DollarFree(src, s.pos + 2, body, "$$");
    var end := s.pos + 2 + |body|;
    assert src[s.pos + 2..end] == body;
    DisplayMathCarriesText(src, s, d, end, end + 2);
    OtherOctet(src, s.pos, END_DOCUMENT);
    Turn(src, s, d, run);
    t := Step(src, s, d);
    NothingToClose(s, s.pos);
    SeenSnoc(s.children, t.children);
  }

  // ---- Environments ----

  lemma InkIsArgument(name: Text)
    requires IsEnvName(name)
    ensures IsArgument(name) && Trim(name) == name
  {
    forall c | c in name ensures 32 < c as int < 123 && c !in {'{', '}', '\\', '%'} {
      var i :| 0 <= i < |name| && name[i] == c;
    }
    LatexBraces.NameBalanced(name);
    InkTrims(name);
  }

  /** The parts of a written environment: its name, the line break, the body and the first closing command. */
  lemma EnvParts(src: Text, pos: nat, name: Text, body: Text)
    requires StartsWithAt(src, pos, WriteEnv(name, body))
    ensures StartsWithAt(src, pos, "\\begin" + ("{" + name + "}"))
    ensures var q := pos + 6 + |name| + 2;
      && Looking(src, q, '\n') && StartsWithAt(src, q + 1, body + Closing(name))
      && pos + |WriteEnv(name, body)| == q + 1 + |body| + |Closing(name)|
  {
    var opening, inside := "\\begin" + ("{" + name + "}"), body + Closing(name);
    assert "\n" + body + Closing(name) == "\n" + inside;
    SplitWritten(src, pos, opening, "\n" + inside);
    SplitWritten(src, pos + |opening|, "\n", inside);
    WrittenAt(src, pos + |opening|, "\n", 0);
  }

  lemma WithinWritten(src: Text, pos: nat, written: Text, k: nat, needle: Text)
    requires StartsWithAt(src, pos, written) && StartsWithAt(src, pos + k, needle) && k + |needle| <= |written|
    ensures StartsWithAt(written, k, needle)
  {
    forall i: nat | i < |needle|
      ensures written[k + i] == needle[i]
    {
      WrittenAt(src, pos, written, k + i);
      WrittenAt(src, pos + k, needle, i);
    }
    assert written[k..k + |needle|] == needle;
  }

  lemma ClosesFirst(src: Text, q: nat, closing: Text, body: Text, from: nat)
    requires Looking(src, q, '\n') && StartsWithAt(src, q + 1, body + closing)
    requires closing != [] && closing[0] != '\n'
    requires forall k: nat | k < |body| :: !StartsWithAt(body + closing, k, closing)
    requires from == q || from == q + 1
    ensures ReadsTo(src, from, closing, q + 1 + |body|, q + 1 + |body| + |closing|)
    ensures src[from..q + 1 + |body|] == if from == q then "\n" + body else body
  {
    var end := q + 1 + |body|;
    SplitWritten(src, q + 1, body, closing);
    forall k: nat | from <= k < end
      ensures !StartsWithAt(src, k, closing)
    {
      if k == q {
        OtherOctet(src, k, closing);
      } else if StartsWithAt(src, k, closing) {
        WithinWritten(src, q + 1, body + closing, k - q - 1, closing);
      }
    }
    assert src[q..end] == [src[q]] + src[q + 1..end];
  }

  /** Where the body starts that the environment's node is read from: verbatim text leaves out the line break. */
  function BodyFrom(q: nat, kind: Environment): nat {
    if kind.Verbatim? || kind.Listing? then q + 1 else q
  }

  lemma EnvNamed(src: Text, pos: nat, d: Dialect, name: Text)
    requires At(src, pos) && IsEnvName(name) && d.CommandOf("begin") == Begin
    requires StartsWithAt(src, pos, "\\begin" + ("{" + name + "}"))
    ensures Looking(src, pos, '\\') && CommandAt(src, pos, d) == (Begin, pos + 6) && Trim(name) == name
    ensures At(src, pos + 6) && HasArgument(src, pos + 6, name) && ArgumentEnd(src, pos + 6, name) == pos + 6 + |name| + 2
    ensures !StartsWithAt(src, pos, END_DOCUMENT)
  {
    InkIsArgument(name);
    CommandRead(src, pos, "begin", name, d);
  }

  lemma OpensThere(src: Text, p: nat, q: nat, name: Text, kind: Environment, from: nat)
    requires At(src, p) && HasArgument(src, p, name) && ArgumentEnd(src, p, name) == q && Looking(src, q, '\n')
    requires !kind.Tabular? && from == BodyFrom(q, kind)
    ensures OpensEnvironment(src, p, name, kind, None, from)
  {
    BreakBehind(src, q);
  }

  lemma BreakBehind(src: Text, q: nat)
    requires Valid(src) && Looking(src, q, '\n')
    ensures At(src, q) && At(src, q + 1) && SkipBlanks(src, q) == q && OptionalArg(src, q) == (None, q)
  {
    AfterAscii(src, q);
  }

  /** What is read of the body. */
  function BodyRead(kind: Environment, body: Text): Text {
    if kind.Verbatim? || kind.Listing? then body else "\n" + body
  }

  /** Where the written environment's body stands. */
  lemma EnvReads(src: Text, q: nat, kind: Environment, closing: Text, body: Text, from: nat, end: nat)
    requires Looking(src, q, '\n') && StartsWithAt(src, q + 1, body + closing)
    requires closing != [] && closing[0] != '\n' && NotBefore(body + closing, 0, closing, |body|)
    requires from == BodyFrom(q, kind) && end == q + 1 + |body|
    ensures ReadsTo(src, from, closing, end, end + |closing|)
    ensures src[from..end] == BodyRead(kind, body)
  {
    NotBeforeMeans(body + closing, 0, closing, |body|);
    ClosesFirst(src, q, closing, body, from);
  }

  lemma EnvStep(src: Text, s: ParseState, d: Dialect, name: Text, from: nat, end: nat, next: nat, body: Text)
    requires At(src, s.pos) && Looking(src, s.pos, '\\') && CommandAt(src, s.pos, d) == (Begin, s.pos + 6)
    requires Trim(name) == name && At(src, s.pos + 6)
    requires OpensEnvironment(src, s.pos + 6, name, d.EnvironmentOf(name), None, from)
    requires ReadsTo(src, from, Closing(name), end, next) && src[from..end] == body
    ensures Step(src, s, d).pos == next && EnvironmentAdds(s, Step(src, s, d), d.EnvironmentOf(name), None, body)
  {
    EnvironmentCarriesBody(src, s, d, name, name, None, from, end, next);
  }

  lemma EnvMade(s: ParseState, t: ParseState, kind: Environment, body: Text)
    requires s.para == [] && !kind.Tabular? && EnvironmentAdds(s, t, kind, None, BodyRead(kind, body))
    ensures t.para == [] && SeeAll(t.children) == SeeAll(s.children) + EnvSeen(kind, body)
  {
    NothingToClose(s, s.pos);
    if |t.children| == |s.children| + 1 {
      SeenSnoc(s.children, t.children);
    } else {
      assert SeeAll(s.children) + [] == SeeAll(s.children);
    }
  }

  lemma EnvFound(src: Text, s: ParseState, d: Dialect, name: Text, body: Text, from: nat, end: nat)
    requires At(src, s.pos) && GoodEnv(name, body, d) && StartsWithAt(src, s.pos, "\\begin" + ("{" + name + "}"))
    requires var q := s.pos + 6 + |name| + 2;
      && Looking(src, q, '\n') && StartsWithAt(src, q + 1, body + Closing(name))
      && from == BodyFrom(q, d.EnvironmentOf(name)) && end == q + 1 + |body|
    ensures !StartsWithAt(src, s.pos, END_DOCUMENT)
    ensures Looking(src, s.pos, '\\') && CommandAt(src, s.pos, d) == (Begin, s.pos + 6)
    ensures Trim(name) == name && At(src, s.pos + 6)
    ensures OpensEnvironment(src, s.pos + 6, name, d.EnvironmentOf(name), None, from)
    ensures ReadsTo(src, from, Closing(name), end, end + |Closing(name)|)
    ensures src[from..end] == BodyRead(d.EnvironmentOf(name), body)
  {
    EnvNamed(src, s.pos, d, name);
    OpensThere(src, s.pos + 6, s.pos + 6 + |name| + 2, name, d.EnvironmentOf(name), from);
    EnvReads(src, s.pos + 6 + |name| + 2, d.EnvironmentOf(name), Closing(name), body, from, end);
  }

  lemma EnvRead(src: Text, s: ParseState, d: Dialect, run: ParseState -> ParseState, name: Text, body: Text)
    returns (t: ParseState)
    requires Settled(run, src, d)
    requires At(src, s.pos) && s.para == [] && GoodEnv(name, body, d)
    requires StartsWithAt(src, s.pos, WriteEnv(name, body))
    ensures Makes(src, s, t, run, |WriteEnv(name, body)|, EnvSeen(d.EnvironmentOf(name), body))
  {
    var q, kind := s.pos + 6 + |name| + 2, d.EnvironmentOf(name);
    var from, end := BodyFrom(q, kind), q + 1 + |body|;
    EnvParts(src, s.pos, name, body);
    EnvFound(src, s, d, name, body, from, end);
    t := EnvTurned(src, s, d, run, name, from, end, end + |Closing(name)|, BodyRead(kind, body));
    EnvMade(s, t, kind, body);
  }

  lemma EnvTurned(src: Text, s: ParseState, d: Dialect, run: ParseState -> ParseState,
                  name: Text, from: nat, end: nat, next: nat, body: Text) returns (t: ParseState)
    requires Settled(run, src, d) && !StartsWithAt(src, s.pos, END_DOCUMENT)
    requires At(src, s.pos) && Looking(src, s.pos, '\\') && CommandAt(src, s.pos, d) == (Begin, s.pos + 6)
    requires Trim(name) == name && At(src, s.pos + 6)
    requires OpensEnvironment(src, s.pos + 6, name, d.EnvironmentOf(name), None, from)
    requires ReadsTo(src, from, Closing(name), end, next) && src[from..end] == body
    ensures At(src, t.pos) && t.pos == next && run(s) == run(t)
    ensures EnvironmentAdds(s, t, d.EnvironmentOf(name), None, body)
  {
    EnvStep(src, s, d, name, from, end, next, body);
    Turn(src, s, d, run);
    t := Step(src, s, d);
  }

  // ---- Documents ----

  lemma ParaBlockRead(src: Text, s: ParseState, d: Dialect, run: ParseState -> ParseState, b: Block) returns (t: ParseState)
    requires Settled(run, src, d) && b.Para?
    requires At(src, s.pos) && s.para == [] && GoodBlock(b, d) && StartsWithAt(src, s.pos, WriteBlock(b))
    requires !Looking(src, s.pos + |WriteBlock(b)|, '\n')
    ensures Makes(src, s, t, run, |WriteBlock(b)|, Expected(b, d))
  {
    SplitWritten(src, s.pos, WriteInlines(b.inlines), "\n\n");
    t := ParaRead(src, s, d, run, b.inlines);
  }

  lemma BlockRead(src: Text, s: ParseState, d: Dialect, run: ParseState -> ParseState, b: Block) returns (t: ParseState)
    requires Settled(run, src, d)
    requires At(src, s.pos) && s.para == [] && GoodBlock(b, d) && StartsWithAt(src, s.pos, WriteBlock(b))
    requires !Looking(src, s.pos + |WriteBlock(b)|, '\n')
    ensures Makes(src, s, t, run, |WriteBlock(b)|, Expected(b, d))
  {
    match b
    case Para(_) => t := ParaBlockRead(src, s, d, run, b);
    case Head(command, title) => t := HeadRead(src, s, d, run, command, title);
    case Display(body) => t := DisplayRead(src, s, d, run, body);
    case Env(name, body) => t := EnvRead(src, s, d, run, name, body);
  }

  predicate GoodBlocks(blocks: seq<Block>, d: Dialect) {
    blocks == [] || (GoodBlock(blocks[0], d) && GoodBlocks(blocks[1..], d))
  }

  /** A block never begins with a line break, so it is never taken for part of a blank line before it. */
  lemma BlockStart(b: Block, d: Dialect)
    requires GoodBlock(b, d)
    ensures WriteBlock(b) != [] && WriteBlock(b)[0] != '\n'
  {
    if b.Para? {
      assert GoodInline(b.inlines[0], d);
      assert WriteInline(b.inlines[0]) != [] && WriteInline(b.inlines[0])[0] != '\n';
    }
  }

  predicate CleanStart(text: Text) {
    text != [] && text[0] != '\n'
  }

  /** A piece of source between blocks, and what it makes. */
  datatype Part = Part(text: Text, seen: seq<Seen>)

  function PartTexts(parts: seq<Part>): Text {
    if parts == [] then [] else parts[0].text + PartTexts(parts[1..])
  }

  function PartsSeen(parts: seq<Part>): seq<Seen> {
    if parts == [] then [] else parts[0].seen + PartsSeen(parts[1..])
  }

  function PartsOf(blocks: seq<Block>, d: Dialect): seq<Part> {
    if blocks == [] then [] else [Part(WriteBlock(blocks[0]), Expected(blocks[0], d))] + PartsOf(blocks[1..], d)
  }

  lemma {:induction false} PartsAre(blocks: seq<Block>, d: Dialect)
    ensures PartTexts(PartsOf(blocks, d)) == Write(blocks) && PartsSeen(PartsOf(blocks, d)) == ExpectedAll(blocks, d)
  {
    if blocks != [] {
      PartsAre(blocks[1..], d);
      assert PartsOf(blocks, d)[1..] == PartsOf(blocks[1..], d);
    }
  }

  /** Wherever the piece is met between blocks, with no line break behind, it makes what it should. */
  ghost predicate IsRead(src: Text, run: ParseState -> ParseState, part: Part) {
    && CleanStart(part.text)
    && forall s: ParseState | Meets(src, s, part.text) :: exists t :: Makes(src, s, t, run, |part.text|, part.seen)
  }

  predicate Meets(src: Text, s: ParseState, text: Text) {
    At(src, s.pos) && s.para == [] && StartsWithAt(src, s.pos, text) && !Looking(src, s.pos + |text|, '\n')
  }

  ghost predicate AreRead(src: Text, run: ParseState -> ParseState, parts: seq<Part>) {
    parts == [] || (IsRead(src, run, parts[0]) && AreRead(src, run, parts[1..]))
  }

  lemma ReadAnywhere(src: Text, s: ParseState, d: Dialect, run: ParseState -> ParseState, b: Block, text: Text, seen: seq<Seen>)
    returns (t: ParseState)
    requires Settled(run, src, d) && text == WriteBlock(b) && seen == Expected(b, d) && GoodBlock(b, d)
    requires Meets(src, s, text)
    ensures Makes(src, s, t, run, |text|, seen)
  {
    t := BlockRead(src, s, d, run, b);
  }

  lemma BlockIsRead(src: Text, d: Dialect, run: ParseState -> ParseState, b: Block, part: Part)
    requires Settled(run, src, d) && GoodBlock(b, d) && part == Part(WriteBlock(b), Expected(b, d))
    ensures IsRead(src, run, part)
  {
    BlockStart(b, d);
    forall s: ParseState | Meets(src, s, part.text)
      ensures exists t :: Makes(src, s, t, run, |part.text|, part.seen)
    {
      var t := ReadAnywhere(src, s, d, run, b, part.text, part.seen);
    }
  }

  lemma {:induction false} BlocksAreRead(src: Text, d: Dialect, run: ParseState -> ParseState, blocks: seq<Block>)
    requires Settled(run, src, d) && GoodBlocks(blocks, d)
    ensures AreRead(src, run, PartsOf(blocks, d))
  {
    if blocks != [] {
      BlockIsRead(src, d, run, blocks[0], PartsOf(blocks, d)[0]);
      BlocksAreRead(src, d, run, blocks[1..]);
      assert PartsOf(blocks, d)[1..] == PartsOf(blocks[1..], d);
    }
  }

  lemma PartsSplit(src: Text, run: ParseState -> ParseState, pos: nat, parts: seq<Part>)
    requires parts != [] && AreRead(src, run, parts) && StartsWithAt(src, pos, PartTexts(parts))
    requires !Looking(src, pos + |PartTexts(parts)|, '\n')
    ensures StartsWithAt(src, pos, parts[0].text) && !Looking(src, pos + |parts[0].text|, '\n')
    ensures StartsWithAt(src, pos + |parts[0].text|, PartTexts(parts[1..]))
  {
    var first, rest := parts[0].text, parts[1..];
    SplitWritten(src, pos, first, PartTexts(rest));
    if rest != [] {
      StartOf(rest[0].text, PartTexts(rest[1..]));
      WrittenAt(src, pos + |first|, PartTexts(rest), 0);
    }
  }

  lemma StartOf(a: Text, b: Text)
    requires CleanStart(a)
    ensures CleanStart(a + b)
  {
  }

  lemma {:induction false} PartsRead(src: Text, s: ParseState, run: ParseState -> ParseState, parts: seq<Part>) returns (t: ParseState)
    requires At(src, s.pos) && s.para == [] && AreRead(src, run, parts) && StartsWithAt(src, s.pos, PartTexts(parts))
    requires !Looking(src, s.pos + |PartTexts(parts)|, '\n')
    ensures Makes(src, s, t, run, |PartTexts(parts)|, PartsSeen(parts))
    decreases |parts|
  {
    if parts == [] {
      t := s;
      MakesNothing(src, s, run);
    } else {
      PartsSplit(src, run, s.pos, parts);
      assert Meets(src, s, parts[0].text);
      var mid :| Makes(src, s, mid, run, |parts[0].text|, parts[0].seen);
      t := PartsRead(src, mid, run, parts[1..]);
      MakesThen(src, s, mid, t, run, |parts[0].text|, parts[0].seen, |PartTexts(parts[1..])|, PartsSeen(parts[1..]));
    }
  }

  /** A document: a preamble, the blocks between the two commands, and whatever follows. */
  function WriteDocument(preamble: Text, blocks: seq<Block>, rest: Text): Text {
    preamble + BEGIN_DOCUMENT + ("\n" + (Write(blocks) + (END_DOCUMENT + rest)))
  }

  predicate GoodPreamble(preamble: Text) {
    NotBefore(preamble + BEGIN_DOCUMENT, 0, BEGIN_DOCUMENT, |preamble|)
  }

  /** The title and the author, as far as the preamble gives them. */
  function MetadataSeen(preamble: Text): seq<Seen> {
    var title := LatexBraces.CommandArg(preamble, "title");
    var author := LatexBraces.CommandArg(preamble, "author");
    match (title, author)
    case (None, None) => []
    case (Some(t), None) => [Seen(Metadata, Some("title: " + t), None, None)]
    case (None, Some(a)) => [Seen(Metadata, Some("author: " + a), None, None)]
    case (Some(t), Some(a)) => [Seen(Metadata, Some("title: " + t + "\n" + ("author: " + a)), None, None)]
  }

  lemma DocumentParts(preamble: Text, blocks: seq<Block>, rest: Text)
    ensures var src := WriteDocument(preamble, blocks, rest);
      var body := |preamble| + |BEGIN_DOCUMENT| + 1;
      && StartsWithAt(src, 0, preamble + BEGIN_DOCUMENT) && Looking(src, body - 1, '\n')
      && StartsWithAt(src, body, Write(blocks)) && StartsWithAt(src, body + |Write(blocks)|, END_DOCUMENT)
  {
    FourParts(preamble + BEGIN_DOCUMENT, Write(blocks), END_DOCUMENT, rest);
  }

  lemma FourParts(begun: Text, body: Text, end: Text, rest: Text)
    ensures var src := begun + ("\n" + (body + (end + rest)));
      && StartsWithAt(src, 0, begun) && Looking(src, |begun|, '\n')
      && StartsWithAt(src, |begun| + 1, body) && StartsWithAt(src, |begun| + 1 + |body|, end)
  {
    var src := begun + ("\n" + (body + (end + rest)));
    assert src[0..|src|] == src;
    SplitWritten(src, 0, begun, "\n" + (body + (end + rest)));
    SplitWritten(src, |begun|, "\n", body + (end + rest));
    SplitWritten(src, |begun| + 1, body, end + rest);
    SplitWritten(src, |begun| + 1 + |body|, end, rest);
    WrittenAt(src, |begun|, "\n", 0);
  }

  lemma PreambleEnds(src: Text, preamble: Text, marker: Text)
    requires marker != [] && NotBefore(preamble + marker, 0, marker, |preamble|)
    requires StartsWithAt(src, 0, preamble + marker)
    ensures FindFrom(src, 0, marker) == |preamble| < |src| && src[..|preamble|] == preamble
    ensures StartsWithAt(src, |preamble|, marker)
  {
    SplitWritten(src, 0, preamble, marker);
    NotBeforeMeans(preamble + marker, 0, marker, |preamble|);
    assert src[0..|preamble|] == src[..|preamble|];
    forall k: nat | k < |preamble|
      ensures !StartsWithAt(src, k, marker)
    {
      if StartsWithAt(src, k, marker) {
        WithinWritten(src, 0, preamble + marker, k, marker);
      }
    }
    FirstIsThere(src, 0, marker, |preamble|);
  }

  lemma DocumentStart(src: Text, preamble: Text)
    requires GoodPreamble(preamble) && Valid(src) && StartsWithAt(src, 0, preamble + BEGIN_DOCUMENT)
    requires Looking(src, |preamble| + |BEGIN_DOCUMENT|, '\n')
    ensures var body := |preamble| + |BEGIN_DOCUMENT| + 1;
      && At(src, body)
      && Initial(src).pos == body && Initial(src).para == []
      && SeeAll(Initial(src).children) == MetadataSeen(preamble)
  {
    PreambleEnds(src, preamble, BEGIN_DOCUMENT);
    AfterAscii(src, |preamble| + |BEGIN_DOCUMENT|);
    MetadataIs(src, preamble);
  }

  lemma MetadataIs(src: Text, preamble: Text)
    requires FindFrom(src, 0, BEGIN_DOCUMENT) == |preamble| && src[..|preamble|] == preamble
    ensures SeeAll(MetadataNode(src)) == MetadataSeen(preamble)
  {
    var nodes := MetadataNode(src);
    if nodes == [] {
      assert SeeAll(nodes) == [];
    } else {
      assert SeeAll(nodes) == [See(nodes[0])];
      var title, author := LatexBraces.CommandArg(preamble, "title"), LatexBraces.CommandArg(preamble, "author");
      if title.Some? && author.None? {
        assert MetadataParts(title, author) == "title: " + title.value;
      } else if title.None? {
        assert MetadataParts(title, author) == "author: " + author.value;
      }
    }
  }

  /** What the blocks are made of, each piece read as it should be by the loop. */
  lemma PartsOfBlocks(src: Text, d: Dialect, blocks: seq<Block>) returns (parts: seq<Part>)
    requires GoodBlocks(blocks, d)
    ensures AreRead(src, Rest(src, d), parts)
    ensures PartTexts(parts) == Write(blocks) && PartsSeen(parts) == ExpectedAll(blocks, d)
  {
    parts := PartsOf(blocks, d);
    PartsAre(blocks, d);
    RestIsSettled(src, d);
    BlocksAreRead(src, d, Rest(src, d), blocks);
  }

  lemma PartsReadToEnd(src: Text, s: ParseState, run: ParseState -> ParseState, parts: seq<Part>) returns (t: ParseState)
    requires At(src, s.pos) && s.para == [] && AreRead(src, run, parts) && StartsWithAt(src, s.pos, PartTexts(parts))
    requires StartsWithAt(src, s.pos + |PartTexts(parts)|, END_DOCUMENT)
    ensures Makes(src, s, t, run, |PartTexts(parts)|, PartsSeen(parts))
  {
    WrittenAt(src, s.pos + |PartTexts(parts)|, END_DOCUMENT, 0);
    t := PartsRead(src, s, run, parts);
  }

  /** From a place between blocks on, the loop makes the nodes of the pieces that are written there up to the end. */
  lemma BodyRoundTrip(src: Text, s: ParseState, d: Dialect, parts: seq<Part>)
    requires At(src, s.pos) && s.para == [] && AreRead(src, Rest(src, d), parts)
    requires StartsWithAt(src, s.pos, PartTexts(parts))
    requires StartsWithAt(src, s.pos + |PartTexts(parts)|, END_DOCUMENT)
    ensures SeeAll(ChildrenAtEnd(src, s, d)) == SeeAll(s.children) + PartsSeen(parts)
  {
    var run := Rest(src, d);
    var t := PartsReadToEnd(src, s, run, parts);
    assert run(s) == run(t);
    EndsThere(src, s, t, d);
  }

  function ChildrenAtEnd(src: Text, s: ParseState, d: Dialect): seq<DocNode>
    requires At(src, s.pos)
  {
    var end := Run(src, s, d);
    Flush(end, end.pos).children
  }

  lemma EndsThere(src: Text, s: ParseState, t: ParseState, d: Dialect)
    requires At(src, s.pos) && At(src, t.pos) && Run(src, s, d) == Run(src, t, d)
    requires StartsWithAt(src, t.pos, END_DOCUMENT) && t.para == []
    ensures ChildrenAtEnd(src, s, d) == t.children
  {
    FlushCloses(t, t.pos);
    NothingToClose(t, t.pos);
  }

  lemma FromTheStart(src: Text, d: Dialect, body: nat, parts: seq<Part>)
    requires Valid(src) && At(src, body) && Initial(src).pos == body && Initial(src).para == []
    requires AreRead(src, Rest(src, d), parts) && StartsWithAt(src, body, PartTexts(parts))
    requires StartsWithAt(src, body + |PartTexts(parts)|, END_DOCUMENT)
    ensures SeeAll(ParseLatex(src, d).children) == SeeAll(Initial(src).children) + PartsSeen(parts)
  {
    var s := Initial(src);
    BodyRoundTrip(src, s, d, parts);
    assert ParseLatex(src, d).children == ChildrenAtEnd(src, s, d);
  }

  lemma BlocksFromTheStart(src: Text, d: Dialect, body: nat, blocks: seq<Block>)
    requires Valid(src) && At(src, body) && Initial(src).pos == body && Initial(src).para == [] && GoodBlocks(blocks, d)
    requires StartsWithAt(src, body, Write(blocks)) && StartsWithAt(src, body + |Write(blocks)|, END_DOCUMENT)
    ensures SeeAll(ParseLatex(src, d).children) == SeeAll(Initial(src).children) + ExpectedAll(blocks, d)
  {
    var parts := PartsOfBlocks(src, d, blocks);
    FromTheStart(src, d, body, parts);
  }

  /** The round trip: parsing a written document gives its metadata and then, block by block, the nodes it is made of,
      with their kinds, texts, levels and languages, and nothing else. What follows the end is not looked at. */
  lemma DocumentRoundTrip(preamble: Text, blocks: seq<Block>, rest: Text, d: Dialect)
    requires GoodPreamble(preamble) && GoodBlocks(blocks, d) && Valid(WriteDocument(preamble, blocks, rest))
    ensures SeeAll(ParseLatex(WriteDocument(preamble, blocks, rest), d).children)
         == MetadataSeen(preamble) + ExpectedAll(blocks, d)
  {
    var src := WriteDocument(preamble, blocks, rest);
    DocumentParts(preamble, blocks, rest);
    DocumentStart(src, preamble);
    BlocksFromTheStart(src, d, |preamble| + |BEGIN_DOCUMENT| + 1, blocks);
  }

  // ---- An example ----

  lemma HeadValid(command: Text, title: Text)
    requires IsName(command) && Valid(title)
    ensures Valid(WriteBlock(Head(command, title)))
  {
    AsciiValid("\\" + command);
    AsciiValid("{");
    AsciiValid("}");
    ConcatValid("{", title);
    ConcatValid("{" + title, "}");
    ConcatValid("\\" + command, "{" + title + "}");
  }

  lemma DocumentValid(body: Text)
    requires Valid(body)
    ensures Valid([] + BEGIN_DOCUMENT + ("\n" + (body + (END_DOCUMENT + []))))
  {
    AsciiValid(BEGIN_DOCUMENT);
    AsciiValid(END_DOCUMENT);
    AroundValid(BEGIN_DOCUMENT, body, END_DOCUMENT);
  }

  lemma AroundValid(begin: Text, body: Text, end: Text)
    requires Valid(begin) && Valid(body) && Valid(end)
    ensures Valid([] + begin + ("\n" + (body + (end + []))))
  {
    assert end + [] == end && [] + begin == begin;
    ConcatValid(body, end);
    AsciiValid("\n");
    ConcatValid("\n", body + end);
    ConcatValid(begin, "\n" + (body + end));
  }

  /** A document of one heading, as `\section{Intro}` between the two commands: its title and level come back. */
  lemma OneHeading(d: Dialect, command: Text, title: Text)
    requires GoodBlock(Head(command, title), d) && Valid(title)
    ensures var src := WriteDocument([], [Head(command, title)], []);
      && Valid(src)
      && SeeAll(ParseLatex(src, d).children)
      == [Seen(Heading, Some(Trim(title)), Some(d.CommandOf(command).level), None)]
  {
    var b := Head(command, title);
    var blocks := [b];
    assert blocks[1..] == [] && Write(blocks) == WriteBlock(b) + Write([]);
    assert Write([]) == [] && WriteBlock(b) + [] == WriteBlock(b);
    HeadValid(command, title);
    DocumentValid(WriteBlock(b));
    DocumentRoundTrip([], blocks, [], d);
    NothingInEmpty();
    OneExpected(b, d);
  }

  lemma OneExpected(b: Block, d: Dialect)
    ensures ExpectedAll([b], d) == Expected(b, d)
  {
    assert [b][1..] == [] && Expected(b, d) + [] == Expected(b, d);
  }

  lemma NothingInEmpty()
    ensures MetadataSeen([]) == []
  {
    assert FindFrom([], 0, "\\title") == 0 && FindFrom([], 0, "\\author") == 0;
  }
}
