/** What each kind of source text adds to a parse, spelled out: the node with its text, or the text that joins the
    paragraph. */
module LatexSteps {
  import opened Wrappers
  import opened Utf8
  import opened Document
  import opened Joining
  import opened LatexText
  import opened LatexCursor
  import opened LatexBraces
  import opened LatexDialect
  import opened LatexParser
  import opened LatexSpans

  /** The nodes with the open paragraph closed at `at`: its words with single spaces, if it has any. */
  function Closed(s: ParseState, at: nat): seq<DocNode> {
    var words := Words(s.para);
    if Join(words, " ") == [] then s.children
    else s.children + [DocNode(Paragraph, Some(Join(words, " ")), [], Span(s.paraStart, at))]
  }

  /** The paragraph is closed at `at`, a node of this kind and text is added, and the parse goes on behind it. */
  predicate Adds(s: ParseState, t: ParseState, at: nat, kind: DocNodeType, text: Option<Text>, from: int,
                 level: Option<nat>, language: Option<Text>) {
    && |t.children| == |Closed(s, at)| + 1 && t.children[..|t.children| - 1] == Closed(s, at)
    && t.para == [] && t.paraStart == t.pos
    && (var node := t.children[|t.children| - 1];
        && node.nodeType == kind && node.text == text && node.children == []
        && node.attrs == Span(from, t.pos).(headingLevel := level, codeLanguage := language))
  }

  /** A node is added beside the open paragraph, which goes on. */
  predicate AddsBeside(s: ParseState, t: ParseState, kind: DocNodeType, text: Option<Text>) {
    && |t.children| == |s.children| + 1 && t.children[..|s.children|] == s.children
    && t.para == s.para && t.paraStart == s.paraStart
    && (var node := t.children[|s.children|];
        && node.nodeType == kind && node.text == text && node.children == [] && node.attrs == Span(s.pos, t.pos))
  }

  /** Nothing but the open paragraph and the position changes. */
  predicate Continues(s: ParseState, t: ParseState, para: Text, pos: nat) {
    t == ParseState(pos, para, s.paraStart, s.children)
  }

  // ---- Commands ----

  /** A command whose argument, behind `p`, is written `{arg}`: balanced, without backslashes and comments. */
  predicate HasArgument(src: Text, p: nat, arg: Text)
    requires At(src, p)
  {
    ArgumentAt(src, SkipBlanks(src, p), arg) && Balanced(arg) && LatexBraces.Plain(arg)
  }

  /** Where the argument behind `p` ends. */
  function ArgumentEnd(src: Text, p: nat, arg: Text): nat
    requires At(src, p)
  {
    SkipBlanks(src, p) + |arg| + 2
  }

  /** The meaning of the name at the backslash, and where the name ends. */
  function CommandAt(src: Text, pos: nat, d: Dialect): (r: (Command, nat))
    requires At(src, pos) && Looking(src, pos, '\\')
    ensures Onward(src, pos, r.1)
  {
    var (name, next) := CommandName(src, Next(src, pos), d.letters);
    (d.CommandOf(name), next)
  }

  lemma CommandTurn(src: Text, s: ParseState, d: Dialect)
    requires At(src, s.pos) && Looking(src, s.pos, '\\')
    ensures var (command, p) := CommandAt(src, s.pos, d); Step(src, s, d) == NamedStep(src, s, p, command, d)
  {
  }

  /** A heading carries its title and level. */
  lemma HeadingCarriesTitle(src: Text, s: ParseState, d: Dialect, arg: Text)
    requires At(src, s.pos) && Looking(src, s.pos, '\\')
    requires var (command, p) := CommandAt(src, s.pos, d);
      command.Sectioning? && HasArgument(src, OptionalArg(src, p).1, arg)
    ensures var (command, p) := CommandAt(src, s.pos, d);
      var t := Step(src, s, d);
      && Adds(s, t, s.pos, Heading, Some(Trim(arg)), s.pos, Some(command.level), None)
      && t.pos == ArgumentEnd(src, OptionalArg(src, p).1, arg)
  {
    var (command, p) := CommandAt(src, s.pos, d);
    var q := OptionalArg(src, p).1;
    CursorReadsBlanks(src, q, SkipBlanks(src, q), arg, d.letters);
    CommandTurn(src, s, d);
  }

  /** A footnote with text is a node of its own; one without is nothing. The paragraph around it goes on. */
  lemma FootnoteCarriesText(src: Text, s: ParseState, d: Dialect, arg: Text)
    requires At(src, s.pos) && Looking(src, s.pos, '\\')
    requires var (command, p) := CommandAt(src, s.pos, d); command == FootnoteText && HasArgument(src, p, arg)
    ensures var (_, p) := CommandAt(src, s.pos, d);
      var t := Step(src, s, d);
      && t.pos == ArgumentEnd(src, p, arg)
      && (if |Trim(arg)| > 0 then AddsBeside(s, t, Footnote, Some(Trim(arg))) else Continues(s, t, s.para, t.pos))
  {
    var (_, p) := CommandAt(src, s.pos, d);
    CursorReadsBlanks(src, p, SkipBlanks(src, p), arg, d.letters);
    CommandTurn(src, s, d);
  }

  /** The argument of a formatting command joins the paragraph; so does that of an unknown command if it has no
      control characters and the brace follows at once. */
  lemma InlineTextJoins(src: Text, s: ParseState, d: Dialect, arg: Text)
    requires At(src, s.pos) && Looking(src, s.pos, '\\')
    requires var (command, p) := CommandAt(src, s.pos, d);
      HasArgument(src, p, arg) && (command == InlineText || (command == Unknown && Looking(src, p, '{') && NoControls(Trim(arg))))
    ensures var (_, p) := CommandAt(src, s.pos, d);
      Continues(s, Step(src, s, d), s.para + Trim(arg), ArgumentEnd(src, p, arg))
  {
    var (_, p) := CommandAt(src, s.pos, d);
    CursorReadsBlanks(src, p, SkipBlanks(src, p), arg, d.letters);
    CommandTurn(src, s, d);
  }

  /** The argument of a reference, citation or layout command is skipped. */
  lemma SkippedArgument(src: Text, s: ParseState, d: Dialect, arg: Text)
    requires At(src, s.pos) && Looking(src, s.pos, '\\')
    requires var (command, p) := CommandAt(src, s.pos, d);
      || (command == SkipArg && HasArgument(src, p, arg))
      || (command == SkipOptAndArg && HasArgument(src, OptionalArg(src, p).1, arg))
    ensures var (command, p) := CommandAt(src, s.pos, d);
      Continues(s, Step(src, s, d), s.para, ArgumentEnd(src, if command == SkipArg then p else OptionalArg(src, p).1, arg))
  {
    var (command, p) := CommandAt(src, s.pos, d);
    var q := if command == SkipArg then p else OptionalArg(src, p).1;
    CursorReadsBlanks(src, q, SkipBlanks(src, q), arg, d.letters);
    CommandTurn(src, s, d);
  }

  /** An image carries its path. */
  lemma ImageCarriesPath(src: Text, s: ParseState, d: Dialect, arg: Text)
    requires At(src, s.pos) && Looking(src, s.pos, '\\')
    requires var (command, p) := CommandAt(src, s.pos, d);
      command == Graphics && HasArgument(src, OptionalArg(src, p).1, arg)
    ensures AddsBeside(s, Step(src, s, d), Image, if |Trim(arg)| > 0 then Some(Trim(arg)) else None)
  {
    var (_, p) := CommandAt(src, s.pos, d);
    var q := OptionalArg(src, p).1;
    CursorReadsBlanks(src, q, SkipBlanks(src, q), arg, d.letters);
    CommandTurn(src, s, d);
  }

  /** Commands without argument: a line break is one space, an escaped character is itself, a mark is nothing. */
  lemma BareCommands(src: Text, s: ParseState, d: Dialect)
    requires At(src, s.pos) && Looking(src, s.pos, '\\')
    ensures var (command, p) := CommandAt(src, s.pos, d);
      var t := Step(src, s, d);
      && (command == LineBreak ==>
            Continues(s, t, if |s.para| > 0 && s.para[|s.para| - 1] == ' ' then s.para else s.para + " ", p))
      && (command.Literal? ==> Continues(s, t, s.para + [command.c], p))
      && (command == NoEffect ==> Continues(s, t, s.para, p))
      && (command == Unknown && !Looking(src, p, '{') ==> Continues(s, t, s.para, p))
  {
    CommandTurn(src, s, d);
  }

  // ---- Comments, math ----

  /** A comment is left out up to the end of its line. */
  lemma {:induction false} CommentEnds(src: Text, pos: nat)
    requires At(src, pos)
    ensures var end := FindFrom(src, pos, "\n"); SkipComment(src, pos) == if end == |src| then |src| else end + 1
    decreases |src| - pos
  {
    if pos < |src| {
      if src[pos] == '\n' {
        AfterAscii(src, pos);
        assert StartsWithAt(src, pos, "\n") by {
          assert src[pos..pos + 1] == [src[pos]];
        }
      } else {
        OtherOctet(src, pos, "\n");
        FindSkipsChar(src, pos, "\n");
        CommentEnds(src, Next(src, pos));
      }
    } else {
      assert FindFrom(src, pos, "\n") == |src|;
    }
  }

  lemma CommentIsLeftOut(src: Text, s: ParseState, d: Dialect)
    requires At(src, s.pos) && Looking(src, s.pos, '%')
    ensures var end := FindFrom(src, s.pos, "\n");
      Continues(s, Step(src, s, d), s.para, if end == |src| then |src| else end + 1)
  {
    CommentBehind(src, s.pos);
  }

  /** Where the text up to a needle ends, and the position behind the needle. */
  predicate ReadsTo(src: Text, pos: nat, needle: Text, end: nat, next: nat) {
    && pos <= end <= |src|
    && (forall k: nat | pos <= k < end :: !StartsWithAt(src, k, needle))
    && (if end < |src| then StartsWithAt(src, end, needle) && next == end + |needle| else next == |src|)
  }

  /** Display math is a formula of the text between the double dollars. */
  lemma DisplayMathCarriesText(src: Text, s: ParseState, d: Dialect, end: nat, next: nat)
    requires At(src, s.pos) && StartsWithAt(src, s.pos, "$$") && ReadsTo(src, s.pos + 2, "$$", end, next)
    ensures Adds(s, Step(src, s, d), s.pos, Formula, Some(Trim(src[s.pos + 2..end])), s.pos, None, None)
    ensures Step(src, s, d).pos == next
  {
    TwoDollars(src, s.pos);
    assert src[s.pos..s.pos + 2][0] == src[s.pos];
    UntilReads(src, s.pos + 2, "$$", end, next);
    BehindAdds(s, s.pos, Leaf(Formula, Some(Trim(src[s.pos + 2..end])), s.pos, next), next);
  }

  lemma FirstIsThere(src: Text, pos: nat, needle: Text, end: nat)
    requires pos <= end <= |src| && forall k: nat | pos <= k < end :: !StartsWithAt(src, k, needle)
    requires end < |src| ==> StartsWithAt(src, end, needle)
    ensures FindFrom(src, pos, needle) == end
  {
    SameFind(src, pos, end, needle);
  }

  /** Inline math of fewer than 60 octets joins the paragraph with its dollars; longer math is a formula behind it. */
  lemma InlineMathCarriesText(src: Text, s: ParseState, d: Dialect, end: nat, next: nat)
    requires At(src, s.pos) && Looking(src, s.pos, '$') && !Looking(src, s.pos + 1, '$')
    requires ReadsTo(src, s.pos + 1, "$", end, next)
    ensures var body, t := src[s.pos + 1..end], Step(src, s, d);
      && t.pos == next
      && (|body| < 60 ==> Continues(s, t, s.para + "$" + body + "$", next))
      && (|body| >= 60 ==> Adds(s, t, next, Formula, Some(Trim(body)), if end < |src| then s.pos else s.pos - 1, None, None))
  {
    AfterAscii(src, s.pos);
    NotTwoDollars(src, s.pos);
    assert Next(src, s.pos) == s.pos + 1;
    UntilReads(src, s.pos + 1, "$", end, next);
    var body := src[s.pos + 1..end];
    if |body| >= 60 {
      BehindAdds(s, next, Leaf(Formula, Some(Trim(body)), next - |body| - 2, next), next);
    }
  }

  lemma UntilReads(src: Text, pos: nat, needle: Text, end: nat, next: nat)
    requires At(src, pos) && needle != [] && needle[|needle| - 1] as int < 0x80 && ReadsTo(src, pos, needle, end, next)
    ensures Until(src, pos, needle) == (src[pos..end], next)
  {
    FirstIsThere(src, pos, needle, end);
    assert src[pos..|src|] == src[pos..];
  }

  // ---- Environments ----

  /** The environment's name is written behind `p`; `opt` is its option, and the body starts at `from`. */
  predicate OpensEnvironment(src: Text, p: nat, name: Text, kind: Environment, opt: Option<Text>, from: nat)
    requires At(src, p)
  {
    && HasArgument(src, p, name)
    && (var q := ArgumentEnd(src, p, name);
        && At(src, q)
        && OptionalArg(src, q).0 == opt
        && var r := OptionalArg(src, q).1;
           match kind
           case Verbatim => from == if Looking(src, r, '\n') then r + 1 else r
           case Listing => from == if Looking(src, r, '\n') then r + 1 else r
           case Tabular => false
           case _ => from == r)
  }

  /** The closing command of an environment. */
  function Closing(env: Text): Text {
    "\\end{" + env + "}"
  }

  /** The new node of an environment with this body, if it has one. */
  predicate EnvironmentAdds(s: ParseState, t: ParseState, kind: Environment, opt: Option<Text>, body: Text) {
    match kind
    case Verbatim =>
      Adds(s, t, s.pos, Code, Some(TrimEndNewlines(body)), s.pos, None, None)
    case Listing =>
      Adds(s, t, s.pos, Code, Some(TrimEndNewlines(body)), s.pos,
           None, if opt.None? then None else ListingLanguage(opt.value))
    case Math => Adds(s, t, s.pos, Formula, Some(Trim(body)), s.pos, None, None)
    case Abstract =>
      if Join(Words(body), " ") != [] then
        Adds(s, t, s.pos, DocNodeType.Abstract, Some(Join(Words(body), " ")), s.pos, None, None)
      else t == ParseState(t.pos, [], t.pos, Closed(s, s.pos))
    case Float =>
      if CommandArg(body, "caption").Some? then Adds(s, t, s.pos, Caption, CommandArg(body, "caption"), s.pos, None, None)
      else t == ParseState(t.pos, [], t.pos, Closed(s, s.pos))
    case Tabular => true
    case Skipped => t == ParseState(t.pos, [], t.pos, Closed(s, s.pos))
  }

  lemma EnvironmentRead(src: Text, p: nat, name: Text, env: Text, d: Dialect, opt: Option<Text>, from: nat)
    requires At(src, p) && env == Trim(name)
    requires OpensEnvironment(src, p, name, d.EnvironmentOf(env), opt, from)
    ensures At(src, from)
    ensures var (read, p1) := BracedArg(src, p, d.letters);
      read == env && OptionalArg(src, p1).0 == opt
      && EnvStart(src, OptionalArg(src, p1).1, d.EnvironmentOf(env), d.letters) == from
  {
    CursorReadsBlanks(src, p, SkipBlanks(src, p), name, d.letters);
    var r := OptionalArg(src, ArgumentEnd(src, p, name)).1;
    if Looking(src, r, '\n') {
      AfterAscii(src, r);
    }
  }

  lemma BodyRead(src: Text, from: nat, env: Text, end: nat, next: nat)
    requires At(src, from) && ReadsTo(src, from, Closing(env), end, next)
    ensures EnvBody(src, from, env, []) == (src[from..end], next)
  {
    assert Closing(env) == EndMarker(env);
    FirstIsThere(src, from, Closing(env), end);
    EnvBodyIsShortest(src, from, env, []);
    assert [] + src[from..end] == src[from..end];
  }

  lemma BeginCarriesBody(
    src: Text, s: ParseState, p: nat, d: Dialect, name: Text, env: Text, opt: Option<Text>,
    from: nat, end: nat, next: nat)
    requires At(src, p) && env == Trim(name) && OpensEnvironment(src, p, name, d.EnvironmentOf(env), opt, from)
    requires ReadsTo(src, from, Closing(env), end, next)
    ensures BeginStep(src, s, p, d).pos == next
    ensures EnvironmentAdds(s, BeginStep(src, s, p, d), d.EnvironmentOf(env), opt, src[from..end])
  {
    EnvironmentRead(src, p, name, env, d, opt, from);
    BodyRead(src, from, env, end, next);
    BegunIs(src, s, p, d, opt, src[from..end], next);
  }

  /** An environment's node holds the text from its body's start to the first closing command anywhere behind. */
  lemma EnvironmentCarriesBody(
    src: Text, s: ParseState, d: Dialect, name: Text, env: Text, opt: Option<Text>, from: nat, end: nat, next: nat)
    requires env == Trim(name) && At(src, s.pos) && Looking(src, s.pos, '\\') && CommandAt(src, s.pos, d).0 == Begin
    requires OpensEnvironment(src, CommandAt(src, s.pos, d).1, name, d.EnvironmentOf(env), opt, from)
    requires ReadsTo(src, from, Closing(env), end, next)
    ensures Step(src, s, d).pos == next
    ensures EnvironmentAdds(s, Step(src, s, d), d.EnvironmentOf(env), opt, src[from..end])
  {
    var p := CommandAt(src, s.pos, d).1;
    CommandTurn(src, s, d);
    BeginCarriesBody(src, s, p, d, name, env, opt, from, end, next);
  }

  lemma BegunIs(src: Text, s: ParseState, p: nat, d: Dialect, opt: Option<Text>, body: Text, next: nat)
    requires At(src, p)
    requires var (env, p1) := BracedArg(src, p, d.letters);
      && OptionalArg(src, p1).0 == opt
      && EnvBody(src, EnvStart(src, OptionalArg(src, p1).1, d.EnvironmentOf(env), d.letters), env, []) == (body, next)
    ensures var kind := d.EnvironmentOf(BracedArg(src, p, d.letters).0);
      BeginStep(src, s, p, d).pos == next && EnvironmentAdds(s, BeginStep(src, s, p, d), kind, opt, body)
  {
    EnvironmentMade(s, d.EnvironmentOf(BracedArg(src, p, d.letters).0), opt, body, next);
  }

  lemma FlushCloses(s: ParseState, at: nat)
    ensures Flush(s, at) == ParseState(s.pos, [], at, Closed(s, at))
  {
    assert s.children + [] == s.children;
  }

  lemma BehindAdds(s: ParseState, at: nat, node: DocNode, next: nat)
    requires node.children == []
    requires var a := node.attrs;
      a == Span(a.byteStart, next).(headingLevel := a.headingLevel, codeLanguage := a.codeLanguage)
    ensures var t := Behind(Flush(s, at), [node], next);
      && t.pos == next
      && Adds(s, t, at, node.nodeType, node.text, node.attrs.byteStart, node.attrs.headingLevel, node.attrs.codeLanguage)
  {
    FlushCloses(s, at);
  }

  lemma BehindNothing(s: ParseState, at: nat, next: nat)
    ensures Behind(Flush(s, at), [], next) == ParseState(next, [], next, Closed(s, at))
  {
    FlushCloses(s, at);
    assert Closed(s, at) + [] == Closed(s, at);
  }

  lemma EnvironmentMade(s: ParseState, kind: Environment, opt: Option<Text>, body: Text, next: nat)
    ensures EnvironmentAdds(s, Behind(Flush(s, s.pos), EnvNode(kind, opt, body, s.pos, next), next), kind, opt, body)
  {
    var nodes := EnvNode(kind, opt, body, s.pos, next);
    if kind.Tabular? {
    } else if nodes == [] {
      BehindNothing(s, s.pos, next);
    } else {
      assert nodes == [nodes[0]];
      BehindAdds(s, s.pos, nodes[0], next);
    }
  }

  // ---- From a step to the document ----

  /** The parse passes through this state. */
  predicate OnTheWay(src: Text, s: ParseState, d: Dialect)
    requires Valid(src) && At(src, s.pos)
  {
    !Done(src, s.pos) && Run(src, s, d) == Run(src, Initial(src), d)
  }

  lemma BehindKeepsNodes(s: ParseState, at: nat, nodes: seq<DocNode>, pos: nat)
    ensures s.children <= Behind(Flush(s, at), nodes, pos).children
  {
    FlushCloses(s, at);
  }

  lemma NamedKeepsNodes(src: Text, s: ParseState, pos: nat, command: Command, d: Dialect)
    requires At(src, pos)
    ensures s.children <= NamedStep(src, s, pos, command, d).children
  {
    match command
    case Sectioning(level) =>
      var (title, next) := BracedArg(src, OptionalArg(src, pos).1, d.letters);
      BehindKeepsNodes(s, s.pos, [HeadingNode(title, level, s.pos, next)], next);
    case Begin =>
      var (env, p1) := BracedArg(src, pos, d.letters);
      var (opt, p2) := OptionalArg(src, p1);
      var kind := d.EnvironmentOf(env);
      var (body, next) := EnvBody(src, EnvStart(src, p2, kind, d.letters), env, []);
      BehindKeepsNodes(s, s.pos, EnvNode(kind, opt, body, s.pos, next), next);
    case _ =>
  }

  lemma StepKeepsNodes(src: Text, s: ParseState, d: Dialect)
    requires At(src, s.pos) && s.pos < |src|
    ensures s.children <= Step(src, s, d).children
  {
    if src[s.pos] == '\\' {
      var (name, pos) := CommandName(src, Next(src, s.pos), d.letters);
      NamedKeepsNodes(src, s, pos, d.CommandOf(name), d);
    }
  }

  lemma {:induction false} RunKeepsNodes(src: Text, s: ParseState, d: Dialect)
    requires At(src, s.pos)
    ensures s.children <= Run(src, s, d).children
    decreases |src| - s.pos
  {
    if !Done(src, s.pos) {
      StepKeepsNodes(src, s, d);
      RunKeepsNodes(src, Step(src, s, d), d);
    }
  }

  /** Whatever nodes a step of the parse has made stay, at their places, among the document's nodes. */
  lemma NodesStay(src: Text, s: ParseState, d: Dialect)
    requires Valid(src) && At(src, s.pos) && OnTheWay(src, s, d)
    ensures Step(src, s, d).children <= ParseLatex(src, d).children
  {
    RunKeepsNodes(src, Step(src, s, d), d);
    assert Run(src, s, d) == Run(src, Step(src, s, d), d);
  }

  /** In particular every heading the parse meets is a node of the document, with its title and level. */
  lemma DocumentHasHeading(src: Text, s: ParseState, d: Dialect, arg: Text)
    requires Valid(src) && At(src, s.pos) && OnTheWay(src, s, d) && Looking(src, s.pos, '\\')
    requires var (command, p) := CommandAt(src, s.pos, d);
      command.Sectioning? && HasArgument(src, OptionalArg(src, p).1, arg)
    ensures var (command, p) := CommandAt(src, s.pos, d);
      exists node :: node in ParseLatex(src, d).children
        && node.nodeType == Heading && node.text == Some(Trim(arg)) && node.attrs.headingLevel == Some(command.level)
        && node.attrs.byteStart == s.pos && node.attrs.byteEnd == ArgumentEnd(src, OptionalArg(src, p).1, arg)
  {
    HeadingCarriesTitle(src, s, d, arg);
    NodesStay(src, s, d);
    var t := Step(src, s, d);
    var k := |t.children| - 1;
    assert ParseLatex(src, d).children[k] == t.children[k];
  }

  // ---- Inside arguments ----

  /** The name of the command at the backslash inside an argument, and where the name ends. */
  function NameAt(src: Text, pos: nat, letters: set<Text>): (r: (Text, nat))
    requires At(src, pos) && Looking(src, pos, '\\')
    ensures Onward(src, pos, r.1)
  {
    CommandName(src, Next(src, pos), letters)
  }

  lemma InnerTurn(src: Text, pos: nat, depth: nat, content: Text, letters: set<Text>)
    requires At(src, pos) && Looking(src, pos, '\\') && depth > 0
    ensures var (inner, next) := BracedCommand(src, Next(src, pos), letters);
      BracedBody(src, pos, depth, content, letters) == BracedBody(src, next, depth, content + inner, letters)
  {
  }

  /** A formatting command inside an argument adds its own argument. */
  lemma FormattingInsideArgument(src: Text, pos: nat, depth: nat, content: Text, letters: set<Text>, arg: Text)
    requires At(src, pos) && Looking(src, pos, '\\') && depth > 0
    requires var (name, p) := NameAt(src, pos, letters);
      name in {"textbf", "textit", "texttt", "emph", "text"} && HasArgument(src, p, arg)
    ensures var end := ArgumentEnd(src, NameAt(src, pos, letters).1, arg);
      && At(src, end)
      && BracedBody(src, pos, depth, content, letters) == BracedBody(src, end, depth, content + Trim(arg), letters)
  {
    FormattingRead(src, pos, letters, arg);
    InnerTurn(src, pos, depth, content, letters);
  }

  lemma FormattingRead(src: Text, pos: nat, letters: set<Text>, arg: Text)
    requires At(src, pos) && Looking(src, pos, '\\')
    requires var (name, p) := NameAt(src, pos, letters);
      name in {"textbf", "textit", "texttt", "emph", "text"} && HasArgument(src, p, arg)
    ensures var end := ArgumentEnd(src, NameAt(src, pos, letters).1, arg);
      BracedCommand(src, Next(src, pos), letters) == (Trim(arg), end)
  {
    var (name, p) := NameAt(src, pos, letters);
    CursorReadsBlanks(src, p, SkipBlanks(src, p), arg, letters);
    assert name in FORMATTING;
  }

  /** An escaped brace or percent sign adds itself, every other command nothing, so that what stands in braces behind it
      is read as part of the argument. */
  lemma OthersInsideArgument(src: Text, pos: nat, depth: nat, content: Text, letters: set<Text>)
    requires At(src, pos) && Looking(src, pos, '\\') && depth > 0
    requires NameAt(src, pos, letters).0 !in {"textbf", "textit", "texttt", "emph", "text"}
    ensures var (name, p) := NameAt(src, pos, letters);
      BracedBody(src, pos, depth, content, letters)
      == BracedBody(src, p, depth, if name in {"{", "}", "%"} then content + name else content, letters)
  {
    InnerTurn(src, pos, depth, content, letters);
    assert content + [] == content;
  }

  /** A comment inside an argument is left out up to the end of its line. */
  lemma CommentInsideArgument(src: Text, pos: nat, depth: nat, content: Text, letters: set<Text>, next: nat)
    requires At(src, pos) && Looking(src, pos, '%') && depth > 0
    requires var end := FindFrom(src, pos, "\n"); next == if end == |src| then |src| else end + 1
    ensures At(src, next) && BracedBody(src, pos, depth, content, letters) == BracedBody(src, next, depth, content, letters)
  {
    CommentBehind(src, pos);
  }

  lemma CommentBehind(src: Text, pos: nat)
    requires At(src, pos) && Looking(src, pos, '%')
    ensures var end := FindFrom(src, pos, "\n");
      SkipComment(src, Next(src, pos)) == if end == |src| then |src| else end + 1
  {
    AfterAscii(src, pos);
    OtherOctet(src, pos, "\n");
    FindSkipsChar(src, pos, "\n");
    CommentEnds(src, Next(src, pos));
  }

  /** Text in brackets without brackets inside is an option. */
  lemma OptionRead(src: Text, p: nat, text: Text)
    requires At(src, p) && p + |text| + 1 < |src| && src[p] == '[' && src[p + 1..p + 1 + |text|] == text
    requires src[p + 1 + |text|] == ']' && '[' !in text && ']' !in text
    ensures OptionalArg(src, p) == (Some(text), p + |text| + 2)
  {
    AfterAscii(src, p);
    forall k | p + 1 <= k < p + 1 + |text| ensures src[k] != '[' && src[k] != ']' {
      assert src[p + 1..p + 1 + |text|][k - p - 1] in text;
    }
    BracketRead(src, p + 1, p + 1 + |text|, []);
    assert [] + text == text;
  }

  lemma {:induction false} BracketRead(src: Text, pos: nat, end: nat, content: Text)
    requires At(src, pos) && pos <= end < |src| && src[end] == ']'
    requires forall k | pos <= k < end :: src[k] != '[' && src[k] != ']'
    ensures BracketBody(src, pos, 1, content) == (content + src[pos..end], end + 1)
    decreases end - pos
  {
    if pos == end {
      AfterAscii(src, end);
      assert content + src[pos..end] == content;
    } else {
      PeelChar(src, pos, end);
      BracketRead(src, Next(src, pos), end, content + CharAt(src, pos));
      assert content + CharAt(src, pos) + src[Next(src, pos)..end] == content + src[pos..end];
    }
  }

  /** A listing's language is what `language=` names, up to a comma or bracket, or the whole option if it has no `=`. */
  lemma LanguageNamed(opt: Text, language: Text, rest: Text)
    requires opt == "language=" + (language + rest) && ',' !in language && ']' !in language && Trim(language) != []
    requires rest == [] || rest[0] == ',' || rest[0] == ']'
    ensures ListingLanguage(opt) == Some(Trim(language))
  {
    var named := language + rest;
    assert opt[0..9] == "language=" && opt[9..] == named;
    assert FindFrom(opt, 0, "language=") == 0;
    EndOfName(named, language, ",");
    EndOfName(named, language, "]");
    assert named[..|language|] == language;
    if rest != [] {
      assert named[|language|..|language| + 1] == [rest[0]];
    }
  }

  lemma EndOfName(named: Text, language: Text, mark: Text)
    requires |language| <= |named| && named[..|language|] == language && |mark| == 1 && mark[0] !in language
    ensures FindFrom(named, 0, mark) >= |language|
    ensures |named| > |language| && named[|language|] == mark[0] ==> FindFrom(named, 0, mark) == |language|
  {
    forall k: nat | k < |language| ensures !StartsWithAt(named, k, mark) {
      assert named[k] == language[k];
      OtherOctet(named, k, mark);
    }
    SameFind(named, 0, |language|, mark);
    if |named| > |language| && named[|language|] == mark[0] {
      assert named[|language|..|language| + 1] == mark;
    }
  }

  lemma NeedleInside(t: Text, k: nat, needle: Text, i: nat)
    requires i < |needle|
    ensures StartsWithAt(t, k, needle) ==> needle[i] in t
  {
    if StartsWithAt(t, k, needle) {
      assert t[k..k + |needle|][i] == t[k + i];
    }
  }

  lemma BareLanguage(opt: Text)
    requires '=' !in opt && '=' !in Trim(opt) && Trim(opt) != []
    ensures ListingLanguage(opt) == Some(Trim(opt))
  {
    forall k: nat | k < |opt| ensures !StartsWithAt(opt, k, "language=") {
      NeedleInside(opt, k, "language=", 8);
    }
    SameFind(opt, 0, |opt|, "language=");
  }

  /** The argument of an unknown command is dropped if it has an ASCII control character other than tab and line break. */
  lemma ControlsAreDropped(src: Text, s: ParseState, d: Dialect, arg: Text, k: nat)
    requires At(src, s.pos) && Looking(src, s.pos, '\\')
    requires var (command, p) := CommandAt(src, s.pos, d);
      command == Unknown && Looking(src, p, '{') && HasArgument(src, p, arg)
    requires k < |Trim(arg)|
    requires var c := Trim(arg)[k] as int; c == 127 || (c < 32 && c != 9 && c != 10)
    ensures var (_, p) := CommandAt(src, s.pos, d);
      Continues(s, Step(src, s, d), s.para, ArgumentEnd(src, p, arg))
  {
    var (_, p) := CommandAt(src, s.pos, d);
    CursorReadsBlanks(src, p, SkipBlanks(src, p), arg, d.letters);
    CommandTurn(src, s, d);
    assert !NoControls(Trim(arg));
  }

  /** Visible ASCII text, tabs and line breaks have none. */
  lemma NoControlsInText(t: Text)
    requires forall i | 0 <= i < |t| :: 32 <= t[i] as int < 127 || t[i] == '\t' || t[i] == '\n'
    ensures NoControls(t)
  {
  }
}
