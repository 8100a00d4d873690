/** The main loop of the LaTeX parser: one function per branch of its character dispatch, and the
    methods that carry the branches out on a cursor and the loop's variables. */
module LatexParser {
  import opened Wrappers
  import opened Utf8
  import opened Document
  import opened LatexText
  import opened LatexCursor
  import opened LatexBraces
  import opened LatexTable
  import opened LatexDialect

  /** The loop's variables: the cursor, the paragraph collected so far and where it started, and the nodes. */
  datatype ParseState = ParseState(pos: nat, para: Text, paraStart: int, children: seq<DocNode>)

  const SHORT_MATH := 60
  const BEGIN_DOCUMENT: Text := "\\begin{document}"
  const END_DOCUMENT: Text := "\\end{document}"

  function Leaf(kind: DocNodeType, text: Option<Text>, from: int, to: int): DocNode {
    DocNode(kind, text, [], Span(from, to))
  }

  /** The paragraph node for the collected text, if it is not blank. */
  function ParagraphOf(para: Text, from: int, to: int): seq<DocNode> {
    var text := CollapseWhitespace(para);
    if text == [] then [] else [Leaf(Paragraph, Some(text), from, to)]
  }

  function Flush(s: ParseState, at: int): ParseState {
    s.(para := [], paraStart := at, children := s.children + ParagraphOf(s.para, s.paraStart, at))
  }

  /** The state behind a finished node. */
  function Behind(s: ParseState, nodes: seq<DocNode>, pos: nat): ParseState {
    s.(pos := pos, paraStart := pos, children := s.children + nodes)
  }

  predicate EndsInBlank(para: Text) {
    para != [] && para[|para| - 1] == ' '
  }

  // ---- Comments, math, newlines, plain characters ----

  function CommentStep(src: Text, s: ParseState): ParseState
    requires At(src, s.pos) && s.pos < |src|
  {
    s.(pos := SkipComment(src, Next(src, s.pos)))
  }

  function DisplayMathStep(src: Text, s: ParseState): (t: ParseState)
    requires At(src, s.pos) && StartsWithAt(src, s.pos, "$$")
    ensures At(src, t.pos) && t.pos > s.pos
  {
    TwoDollars(src, s.pos);
    var (body, next) := Until(src, s.pos + 2, "$$");
    Behind(Flush(s, s.pos), [Leaf(Formula, Some(Trim(body)), s.pos, next)], next)
  }

  lemma TwoDollars(src: Text, pos: nat)
    requires At(src, pos) && StartsWithAt(src, pos, "$$")
    ensures At(src, pos + 2)
  {
    assert src[pos + 1] == src[pos..pos + 2][1];
    AfterAscii(src, pos + 1);
  }

  /** Short inline math joins the paragraph; longer math is a node of its own behind the paragraph. */
  function InlineMathStep(src: Text, s: ParseState): (t: ParseState)
    requires At(src, s.pos) && s.pos < |src|
    ensures At(src, t.pos) && t.pos > s.pos
  {
    var (body, next) := Until(src, Next(src, s.pos), "$");
    if |body| < SHORT_MATH then s.(pos := next, para := s.para + "$" + body + "$")
    else Behind(Flush(s, next), [Leaf(Formula, Some(Trim(body)), next - |body| - 2, next)], next)
  }

  function SkipNewlines(src: Text, pos: nat): (next: nat)
    requires At(src, pos)
    ensures Onward(src, pos, next)
    decreases |src| - pos
  {
    if Looking(src, pos, '\n') then SkipNewlines(src, Next(src, pos)) else pos
  }

  /** A blank line ends the paragraph; a single line break is a space. */
  function NewlineStep(src: Text, s: ParseState): ParseState
    requires At(src, s.pos) && s.pos < |src|
  {
    var next := Next(src, s.pos);
    if Looking(src, next, '\n') then
      var behind := SkipNewlines(src, next);
      Flush(s, behind).(pos := behind)
    else s.(pos := next, para := if EndsInBlank(s.para) || s.para == [] then s.para else s.para + " ")
  }

  function PlainStep(src: Text, s: ParseState): ParseState
    requires At(src, s.pos) && s.pos < |src|
  {
    s.(pos := Next(src, s.pos),
       para := if src[s.pos] in {'{', '}', '&'} then s.para else s.para + CharAt(src, s.pos))
  }

  // ---- Environments ----

  /** The language named in the option of a listing. */
  function ListingLanguage(opt: Text): Option<Text> {
    var named := NamedLanguage(opt);
    if named.Some? then named
    else
      var trimmed := Trim(opt);
      if trimmed != [] && '=' !in trimmed then Some(trimmed) else None
  }

  function NamedLanguage(opt: Text): Option<Text> {
    var i := FindFrom(opt, 0, "language=");
    if i == |opt| then None
    else
      var behind := opt[i + 9..];
      NonEmpty(Trim(behind[..Min(FindFrom(behind, 0, ","), FindFrom(behind, 0, "]"))]))
  }

  function CodeNode(body: Text, language: Option<Text>, from: int, to: int): DocNode {
    DocNode(Code, Some(TrimEndNewlines(body)), [], Span(from, to).(codeLanguage := language))
  }

  function SkipNewline(src: Text, pos: nat): (next: nat)
    requires At(src, pos)
    ensures Onward(src, pos, next)
  {
    if Looking(src, pos, '\n') then Next(src, pos) else pos
  }

  /** Where the raw body of an environment starts, behind its other arguments. */
  function EnvStart(src: Text, pos: nat, kind: Environment, letters: set<Text>): (next: nat)
    requires At(src, pos)
    ensures Onward(src, pos, next)
  {
    match kind
    case Verbatim => SkipNewline(src, pos)
    case Listing => SkipNewline(src, pos)
    case Tabular => BracedArg(src, pos, letters).1
    case _ => pos
  }

  /** The node an environment becomes, if any. */
  function EnvNode(kind: Environment, opt: Option<Text>, body: Text, from: int, to: int): seq<DocNode> {
    match kind
    case Verbatim => [CodeNode(body, None, from, to)]
    case Listing => [CodeNode(body, if opt.Some? then ListingLanguage(opt.value) else None, from, to)]
    case Math => [Leaf(Formula, Some(Trim(body)), from, to)]
    case Tabular => [LatexTable.Tabular(body, from, to)]
    case Abstract => AbstractNode(CollapseWhitespace(body), from, to)
    case Float => CaptionNode(CommandArg(body, "caption"), from, to)
    case Skipped => []
  }

  function AbstractNode(text: Text, from: int, to: int): seq<DocNode> {
    if text == [] then [] else [Leaf(DocNodeType.Abstract, Some(text), from, to)]
  }

  function CaptionNode(caption: Option<Text>, from: int, to: int): seq<DocNode> {
    if caption.None? then [] else [Leaf(Caption, caption, from, to)]
  }

  function BeginStep(src: Text, s: ParseState, pos: nat, d: Dialect): (t: ParseState)
    requires At(src, pos)
    ensures Onward(src, pos, t.pos)
  {
    var (env, p1) := BracedArg(src, pos, d.letters);
    var (opt, p2) := OptionalArg(src, p1);
    var kind := d.EnvironmentOf(env);
    var (body, next) := EnvBody(src, EnvStart(src, p2, kind, d.letters), env, []);
    Behind(Flush(s, s.pos), EnvNode(kind, opt, body, s.pos, next), next)
  }

  // ---- Commands ----

  function HeadingNode(title: Text, level: nat, from: int, to: int): DocNode {
    DocNode(Heading, Some(title), [], Span(from, to).(headingLevel := Some(level)))
  }

  function HeadingStep(src: Text, s: ParseState, pos: nat, level: nat, letters: set<Text>): (t: ParseState)
    requires At(src, pos)
    ensures Onward(src, pos, t.pos)
  {
    var (title, next) := BracedArg(src, OptionalArg(src, pos).1, letters);
    Behind(Flush(s, s.pos), [HeadingNode(title, level, s.pos, next)], next)
  }

  function FootnoteStep(src: Text, s: ParseState, pos: nat, letters: set<Text>): (t: ParseState)
    requires At(src, pos)
    ensures Onward(src, pos, t.pos)
  {
    var (text, next) := BracedArg(src, pos, letters);
    s.(pos := next,
       children := if text == [] then s.children else s.children + [Leaf(Footnote, Some(text), s.pos, next)])
  }

  function GraphicsStep(src: Text, s: ParseState, pos: nat, letters: set<Text>): (t: ParseState)
    requires At(src, pos)
    ensures Onward(src, pos, t.pos)
  {
    var (path, next) := BracedArg(src, OptionalArg(src, pos).1, letters);
    s.(pos := next, children := s.children + [Leaf(Image, NonEmpty(path), s.pos, next)])
  }

  /** No control character but tabs and newlines; the two-octet ones are U+0080 to U+009F. */
  predicate NoControls(t: Text) {
    forall i | 0 <= i < |t| ::
      && (t[i] as int < 32 ==> t[i] in {'\n', '\t'})
      && t[i] as int != 127
      && (t[i] as int == 0xC2 && i + 1 < |t| ==> !InRange(t[i + 1], 0x80, 0x9F))
  }

  /** The braced text behind an unknown command joins the paragraph. */
  function UnknownStep(src: Text, s: ParseState, pos: nat, letters: set<Text>): (t: ParseState)
    requires At(src, pos)
    ensures Onward(src, pos, t.pos)
  {
    if Looking(src, pos, '{') then
      var (content, next) := BracedArg(src, pos, letters);
      s.(pos := next, para := if NoControls(content) then s.para + content else s.para)
    else s.(pos := pos)
  }

  /** A command whose name has been read up to `pos`; `s.pos` is still at its backslash. */
  function NamedStep(src: Text, s: ParseState, pos: nat, command: Command, d: Dialect): (t: ParseState)
    requires At(src, pos)
    ensures Onward(src, pos, t.pos)
  {
    match command
    case LineBreak => s.(pos := pos, para := if EndsInBlank(s.para) then s.para else s.para + " ")
    case Sectioning(level) => HeadingStep(src, s, pos, level, d.letters)
    case Begin => BeginStep(src, s, pos, d)
    case SkipArg => s.(pos := BracedArg(src, pos, d.letters).1)
    case SkipOptAndArg => s.(pos := BracedArg(src, OptionalArg(src, pos).1, d.letters).1)
    case FootnoteText => FootnoteStep(src, s, pos, d.letters)
    case NoEffect => s.(pos := pos)
    case Graphics => GraphicsStep(src, s, pos, d.letters)
    case InlineText =>
      var (content, next) := BracedArg(src, pos, d.letters);
      s.(pos := next, para := s.para + content)
    case Literal(c) => s.(pos := pos, para := s.para + [c])
    case Unknown => UnknownStep(src, s, pos, d.letters)
  }

  function CommandStep(src: Text, s: ParseState, d: Dialect): (t: ParseState)
    requires At(src, s.pos) && s.pos < |src|
    ensures At(src, t.pos) && t.pos > s.pos
  {
    var (name, pos) := CommandName(src, Next(src, s.pos), d.letters);
    NamedStep(src, s, pos, d.CommandOf(name), d)
  }

  // ---- The loop ----

  /** One turn of the loop: the cursor always moves on, to a character boundary. */
  function Step(src: Text, s: ParseState, d: Dialect): (t: ParseState)
    requires At(src, s.pos) && s.pos < |src|
    ensures At(src, t.pos) && t.pos > s.pos
  {
    if src[s.pos] == '%' then CommentStep(src, s)
    else if src[s.pos] == '$' then
      if StartsWithAt(src, s.pos, "$$") then DisplayMathStep(src, s) else InlineMathStep(src, s)
    else if src[s.pos] == '\\' then CommandStep(src, s, d)
    else if src[s.pos] == '\n' then NewlineStep(src, s)
    else PlainStep(src, s)
  }

  predicate Done(src: Text, pos: nat) {
    pos == |src| || StartsWithAt(src, pos, END_DOCUMENT)
  }

  function Run(src: Text, s: ParseState, d: Dialect): (t: ParseState)
    requires At(src, s.pos)
    ensures Onward(src, s.pos, t.pos) && Done(src, t.pos)
    decreases |src| - s.pos
  {
    if Done(src, s.pos) then s else Run(src, Step(src, s, d), d)
  }

  function BodyStart(src: Text): (pos: nat)
    requires Valid(src)
    ensures At(src, pos)
  {
    var i := FindFrom(src, 0, BEGIN_DOCUMENT);
    if i == |src| then 0
    else
      var behind := i + |BEGIN_DOCUMENT|;
      assert src[i..behind][|BEGIN_DOCUMENT| - 1] == src[behind - 1];
      AfterAscii(src, behind - 1);
      SkipNewline(src, behind)
  }

  function MetadataParts(title: Option<Text>, author: Option<Text>): Text {
    var t: Text := if title.Some? then "title: " + title.value else [];
    var a: Text := if author.Some? then "author: " + author.value else [];
    if title.Some? && author.Some? then t + "\n" + a else t + a
  }

  function MetadataNode(src: Text): seq<DocNode> {
    var preamble := src[..FindFrom(src, 0, BEGIN_DOCUMENT)];
    var title, author := CommandArg(preamble, "title"), CommandArg(preamble, "author");
    if title.None? && author.None? then []
    else [Leaf(Metadata, Some(MetadataParts(title, author)), 0, |src|)]
  }

  function Initial(src: Text): ParseState
    requires Valid(src)
  {
    ParseState(BodyStart(src), [], BodyStart(src), MetadataNode(src))
  }

  function ParseLatex(src: Text, d: Dialect): DocNode
    requires Valid(src)
  {
    var end := Run(src, Initial(src), d);
    DocNode(DocNodeType.Document, None, Flush(end, end.pos).children, Span(0, |src|))
  }

  // ---- The parser object ----

  /** The parser with its cursor and the variables of its loop. */
  class Parser {
    const src: Text
    const dialect: Dialect
    const cursor: Cursor
    var para: Text
    var paraStart: int
    var children: seq<DocNode>

    constructor (src: Text, dialect: Dialect)
      requires Valid(src)
      ensures this.src == src && this.dialect == dialect && Ready() && fresh(cursor)
      ensures State() == ParseState(0, [], 0, [])
    {
      this.src, this.dialect := src, dialect;
      cursor := new Cursor(src, dialect.letters);
      para, paraStart, children := [], 0, [];
    }

    predicate Ready()
      reads this, cursor
    {
      cursor.src == src && cursor.letters == dialect.letters && At(src, cursor.pos)
    }

    function State(): ParseState
      reads this, cursor
    {
      ParseState(cursor.pos, para, paraStart, children)
    }

    /** The state with the cursor still at `from`. */
    function StateFrom(from: nat): ParseState
      reads this
    {
      ParseState(from, para, paraStart, children)
    }

    method FlushPara(at: int)
      requires Ready()
      modifies this
      ensures Ready() && State() == Flush(old(State()), at)
    {
      var text := CollapseWhitespace(para);
      if text != [] {
        children := children + [Leaf(Paragraph, Some(text), paraStart, at)];
      }
      para := [];
      paraStart := at;
    }

    method Push(node: DocNode)
      modifies this
      ensures para == old(para) && paraStart == old(paraStart) && children == old(children) + [node]
    {
      children := children + [node];
    }

    method ParseDisplayMath()
      requires Ready() && StartsWithAt(src, cursor.pos, "$$")
      modifies this, cursor
      ensures Ready() && State() == DisplayMathStep(src, old(State()))
    {
      FlushPara(cursor.pos);
      var bs := cursor.pos;
      TwoDollars(src, bs);
      cursor.pos := cursor.pos + 2;
      var body := cursor.ReadUntilStr("$$");
      Push(Leaf(Formula, Some(Trim(body)), bs, cursor.pos));
      paraStart := cursor.pos;
    }

    method ParseInlineMath()
      requires Ready() && cursor.pos < |src|
      modifies this, cursor
      ensures Ready() && State() == InlineMathStep(src, old(State()))
    {
      cursor.AdvanceChar();
      var body := cursor.ReadUntilStr("$");
      if |body| < SHORT_MATH {
        para := para + "$" + body + "$";
      } else {
        FlushPara(cursor.pos);
        Push(Leaf(Formula, Some(Trim(body)), cursor.pos - |body| - 2, cursor.pos));
        paraStart := cursor.pos;
      }
    }

    method ParseNewline()
      requires Ready() && cursor.pos < |src|
      modifies this, cursor
      ensures Ready() && State() == NewlineStep(src, old(State()))
    {
      cursor.AdvanceChar();
      if Looking(src, cursor.pos, '\n') {
        ghost var from := cursor.pos;
        while Looking(src, cursor.pos, '\n')
          invariant Ready() && SkipNewlines(src, cursor.pos) == SkipNewlines(src, from)
          invariant para == old(para) && paraStart == old(paraStart) && children == old(children)
          decreases |src| - cursor.pos
        {
          cursor.AdvanceChar();
        }
        FlushPara(cursor.pos);
      } else if !EndsInBlank(para) && para != [] {
        para := para + " ";
      }
    }

    method ParseHeading(cmdStart: nat, level: nat)
      requires Ready()
      modifies this, cursor
      ensures Ready() && State() == HeadingStep(src, old(StateFrom(cmdStart)), old(cursor.pos), level, dialect.letters)
    {
      var _ := cursor.ReadOptionalArg();
      FlushPara(cmdStart);
      var title := cursor.ReadBracedArg();
      Push(HeadingNode(title, level, cmdStart, cursor.pos));
      paraStart := cursor.pos;
    }

    method ParseEnvironment(cmdStart: nat)
      requires Ready()
      modifies this, cursor
      ensures Ready() && State() == BeginStep(src, old(StateFrom(cmdStart)), old(cursor.pos), dialect)
    {
      FlushPara(cmdStart);
      var env := cursor.ReadBracedArg();
      var opt := cursor.ReadOptionalArg();
      var kind := dialect.EnvironmentOf(env);
      match kind {
        case Verbatim | Listing =>
          if Looking(src, cursor.pos, '\n') {
            cursor.AdvanceChar();
          }
        case Tabular =>
          var _ := cursor.ReadBracedArg();
        case _ =>
      }
      var body := cursor.ReadEnvBodyVerbatim(env);
      var be := cursor.pos;
      match kind {
        case Verbatim =>
          Push(CodeNode(body, None, cmdStart, be));
        case Listing =>
          Push(CodeNode(body, if opt.Some? then ListingLanguage(opt.value) else None, cmdStart, be));
        case Math =>
          Push(Leaf(Formula, Some(Trim(body)), cmdStart, be));
        case Tabular =>
          var table := ParseTabular(body, cmdStart, be);
          Push(table);
        case Abstract =>
          var text := CollapseWhitespace(body);
          if text != [] {
            Push(Leaf(DocNodeType.Abstract, Some(text), cmdStart, be));
          }
        case Float =>
          var caption := ExtractCommandArg(body, "caption");
          if caption.Some? {
            Push(Leaf(Caption, caption, cmdStart, be));
          }
        case Skipped =>
      }
      paraStart := be;
    }

    method ParseCommand()
      requires Ready() && cursor.pos < |src|
      modifies this, cursor
      ensures Ready() && State() == CommandStep(src, old(State()), dialect)
    {
      var cmdStart := cursor.pos;
      cursor.AdvanceChar();
      var name := cursor.ReadCommandName();
      match dialect.CommandOf(name) {
        case LineBreak =>
          if !EndsInBlank(para) {
            para := para + " ";
          }
        case Sectioning(level) =>
          ParseHeading(cmdStart, level);
        case Begin =>
          ParseEnvironment(cmdStart);
        case SkipArg =>
          var _ := cursor.ReadBracedArg();
        case SkipOptAndArg =>
          var _ := cursor.ReadOptionalArg();
          var _ := cursor.ReadBracedArg();
        case FootnoteText =>
          var text := cursor.ReadBracedArg();
          if text != [] {
            Push(Leaf(Footnote, Some(text), cmdStart, cursor.pos));
          }
        case NoEffect =>
        case Graphics =>
          var _ := cursor.ReadOptionalArg();
          var path := cursor.ReadBracedArg();
          Push(Leaf(Image, NonEmpty(path), cmdStart, cursor.pos));
        case InlineText =>
          var content := cursor.ReadBracedArg();
          para := para + content;
        case Literal(c) =>
          para := para + [c];
        case Unknown =>
          if Looking(src, cursor.pos, '{') {
            var content := cursor.ReadBracedArg();
            if NoControls(content) {
              para := para + content;
            }
          }
      }
    }

    method ParseNext()
      requires Ready() && cursor.pos < |src|
      modifies this, cursor
      ensures Ready() && State() == Step(src, old(State()), dialect)
    {
      var c := src[cursor.pos];
      if c == '%' {
        cursor.AdvanceChar();
        cursor.SkipCommentBody();
      } else if c == '$' {
        if StartsWithAt(src, cursor.pos, "$$") {
          ParseDisplayMath();
        } else {
          ParseInlineMath();
        }
      } else if c == '\\' {
        ParseCommand();
      } else if c == '\n' {
        ParseNewline();
      } else {
        if c !in {'{', '}', '&'} {
          para := para + CharAt(src, cursor.pos);
        }
        cursor.AdvanceChar();
      }
    }

    method PrescanMetadata() returns (title: Option<Text>, author: Option<Text>)
      ensures (title, author)
           == var preamble := src[..FindFrom(src, 0, BEGIN_DOCUMENT)];
              (CommandArg(preamble, "title"), CommandArg(preamble, "author"))
    {
      var preamble := src[..FindFrom(src, 0, BEGIN_DOCUMENT)];
      title := ExtractCommandArg(preamble, "title");
      author := ExtractCommandArg(preamble, "author");
    }

    method Prepare()
      requires Valid(src) && Ready() && State() == ParseState(0, [], 0, [])
      modifies this, cursor
      ensures Ready() && State() == Initial(src)
    {
      var title, author := PrescanMetadata();
      cursor.pos := BodyStart(src);
      if title.Some? || author.Some? {
        Push(Leaf(Metadata, Some(MetadataParts(title, author)), 0, |src|));
      }
      paraStart := cursor.pos;
    }

    method Parse() returns (doc: DocNode)
      requires Valid(src) && Ready() && State() == ParseState(0, [], 0, [])
      modifies this, cursor
      ensures doc == ParseLatex(src, dialect)
    {
      Prepare();
      while !Done(src, cursor.pos)
        invariant Ready() && Run(src, State(), dialect) == Run(src, Initial(src), dialect)
        decreases |src| - cursor.pos
      {
        ParseNext();
      }
      FlushPara(cursor.pos);
      doc := DocNode(DocNodeType.Document, None, children, Span(0, |src|));
    }
  }

  datatype ParseResult = Parsed(tree: DocNode) | NotUtf8(path: string)

  /** The whole chunker front end: bytes that are not UTF-8 are refused, all others give a document. */
  method ParseBytes(path: string, bytes: Text, dialect: Dialect) returns (result: ParseResult)
    ensures result == if Valid(bytes) then Parsed(ParseLatex(bytes, dialect)) else NotUtf8(path)
  {
    if !Valid(bytes) {
      return NotUtf8(path);
    }
    var parser := new Parser(bytes, dialect);
    var tree := parser.Parse();
    result := Parsed(tree);
  }
}
