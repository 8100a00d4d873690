/** The byte spans of a parsed LaTeX document. */
module LatexSpans {
  import opened Wrappers
  import opened Utf8
  import opened Document
  import opened LatexText
  import opened LatexCursor
  import opened LatexBraces
  import opened LatexDialect
  import opened LatexParser

  /** A node's span is well-ordered inside the source, from boundary to boundary. Only a formula up to
      the end of the source, that is one whose `$` is never closed, may start off a boundary. */
  predicate NodeFits(src: Text, node: DocNode) {
    var (from, to) := (node.attrs.byteStart, node.attrs.byteEnd);
    && 0 <= from <= to <= |src|
    && Boundary(src, to)
    && (Boundary(src, from) || (node.nodeType == Formula && to == |src|))
  }

  /** All nodes fit and end by `limit`, no node ends before the previous one. The metadata node, which
      spans the whole source, can only come first. */
  predicate Ordered(src: Text, nodes: seq<DocNode>, limit: int) {
    nodes == []
    || (var last, rest := nodes[|nodes| - 1], nodes[..|nodes| - 1];
        if last.nodeType == Metadata then rest == [] && last.attrs == Span(0, |src|)
        else NodeFits(src, last) && last.attrs.byteEnd <= limit && Ordered(src, rest, last.attrs.byteEnd))
  }

  predicate Sound(src: Text, s: ParseState) {
    && At(src, s.pos)
    && 0 <= s.paraStart <= s.pos && Boundary(src, s.paraStart)
    && Ordered(src, s.children, s.pos)
  }

  lemma OrderedJoins(src: Text, nodes: seq<DocNode>, limit: int, node: DocNode)
    requires Ordered(src, nodes, limit) && limit <= node.attrs.byteEnd
    requires NodeFits(src, node) && node.nodeType != Metadata
    ensures Ordered(src, nodes + [node], node.attrs.byteEnd)
  {
    var joined := nodes + [node];
    assert joined[..|joined| - 1] == nodes;
    OrderedWeakens(src, nodes, limit, node.attrs.byteEnd);
  }

  lemma OrderedWeakens(src: Text, nodes: seq<DocNode>, limit: int, later: int)
    requires Ordered(src, nodes, limit) && limit <= later
    ensures Ordered(src, nodes, later)
  {
  }

  // ---- What the steps do to the spans ----

  lemma FlushIsOrdered(src: Text, s: ParseState, at: nat)
    requires Valid(src) && 0 <= s.paraStart <= at <= |src| && Boundary(src, s.paraStart) && Boundary(src, at)
    requires s.pos <= at && Ordered(src, s.children, s.pos)
    ensures Ordered(src, Flush(s, at).children, at)
  {
    var text := CollapseWhitespace(s.para);
    FlushNode(src, s.children, s.pos, text, s.paraStart, at);
  }

  lemma FlushNode(src: Text, nodes: seq<DocNode>, limit: int, text: Text, from: int, at: int)
    requires 0 <= from <= at <= |src| && Boundary(src, from) && Boundary(src, at)
    requires limit <= at && Ordered(src, nodes, limit)
    ensures Ordered(src, nodes + (if text == [] then [] else [Leaf(Paragraph, Some(text), from, at)]), at)
  {
    if text == [] {
      assert nodes + [] == nodes;
      OrderedWeakens(src, nodes, limit, at);
    } else {
      OrderedJoins(src, nodes, limit, Leaf(Paragraph, Some(text), from, at));
    }
  }

  /** A node behind the flushed paragraph, both ending at or after the cursor. */
  lemma BehindIsSound(src: Text, s: ParseState, at: nat, node: DocNode, pos: nat)
    requires Sound(src, s) && s.pos <= at <= pos && At(src, at) && At(src, pos)
    requires node.attrs.byteEnd == pos && NodeFits(src, node) && node.nodeType != Metadata
    ensures Sound(src, Behind(Flush(s, at), [node], pos))
  {
    FlushIsOrdered(src, s, at);
    OrderedJoins(src, Flush(s, at).children, at, node);
  }

  lemma NothingBehindIsSound(src: Text, s: ParseState, at: nat, pos: nat)
    requires Sound(src, s) && s.pos <= at <= pos && At(src, at) && At(src, pos)
    ensures Sound(src, Behind(Flush(s, at), [], pos))
  {
    FlushIsOrdered(src, s, at);
    OrderedWeakens(src, Flush(s, at).children, at, pos);
    assert Flush(s, at).children + [] == Flush(s, at).children;
  }

  /** A node beside the paragraph, which goes on. */
  lemma BesideIsSound(src: Text, s: ParseState, node: DocNode, pos: nat, para: Text)
    requires Sound(src, s) && Onward(src, s.pos, pos)
    requires node.attrs.byteEnd == pos && NodeFits(src, node) && node.nodeType != Metadata
    ensures Sound(src, s.(pos := pos, para := para, children := s.children + [node]))
  {
    OrderedJoins(src, s.children, s.pos, node);
  }

  lemma MovesOnSoundly(src: Text, s: ParseState, pos: nat, para: Text)
    requires Sound(src, s) && Onward(src, s.pos, pos)
    ensures Sound(src, s.(pos := pos, para := para))
  {
    OrderedWeakens(src, s.children, s.pos, pos);
  }

  // ---- Inline math ----

  /** The `$` at `pos` opens inline math that is never closed and too long for the paragraph. */
  predicate UnclosedLongMath(src: Text, pos: nat) {
    && Looking(src, pos, '$') && !Looking(src, pos + 1, '$')
    && (forall k | pos < k < |src| :: src[k] != '$')
    && |src| - pos - 1 >= SHORT_MATH
  }

  lemma DollarAt(src: Text, k: nat)
    requires k < |src|
    ensures StartsWithAt(src, k, "$") <==> src[k] == '$'
  {
    assert src[k..k + 1] == [src[k]];
  }

  /** Where a long inline formula starts: at its `$` when that is closed, one too low when it is not. */
  lemma InlineStart(src: Text, pos: nat, body: Text, next: nat)
    requires At(src, pos) && Looking(src, pos, '$') && (body, next) == Until(src, Next(src, pos), "$")
    ensures next - |body| - 2 == pos <==> exists k :: pos < k < |src| && src[k] == '$'
    ensures next - |body| - 2 == pos - 1 <==> forall k | pos < k < |src| :: src[k] != '$'
    ensures (forall k | pos < k < |src| :: src[k] != '$') ==> next == |src|
  {
    var i := FindFrom(src, pos + 1, "$");
    if i < |src| {
      DollarAt(src, i);
    }
    forall k: nat | pos < k < i ensures src[k] != '$' {
      DollarAt(src, k);
    }
  }

  lemma InlineMathIsSound(src: Text, s: ParseState)
    requires Sound(src, s) && Looking(src, s.pos, '$') && !StartsWithAt(src, s.pos, "$$")
    requires s.pos == 0 ==> !UnclosedLongMath(src, 0)
    ensures Sound(src, InlineMathStep(src, s))
  {
    var (body, next) := Until(src, Next(src, s.pos), "$");
    InlineStart(src, s.pos, body, next);
    if |body| < SHORT_MATH {
      MovesOnSoundly(src, s, next, s.para + "$" + body + "$");
    } else {
      NotTwoDollars(src, s.pos);
      BehindIsSound(src, s, next, Leaf(Formula, Some(Trim(body)), next - |body| - 2, next), next);
    }
  }

  lemma NotTwoDollars(src: Text, pos: nat)
    requires Looking(src, pos, '$')
    ensures StartsWithAt(src, pos, "$$") <==> Looking(src, pos + 1, '$')
  {
    if pos + 2 <= |src| {
      assert src[pos..pos + 2] == [src[pos], src[pos + 1]];
    }
  }

  // ---- The other steps ----

  lemma DisplayMathIsSound(src: Text, s: ParseState)
    requires Sound(src, s) && StartsWithAt(src, s.pos, "$$")
    ensures Sound(src, DisplayMathStep(src, s))
  {
    TwoDollars(src, s.pos);
    var (body, next) := Until(src, s.pos + 2, "$$");
    BehindIsSound(src, s, s.pos, Leaf(Formula, Some(Trim(body)), s.pos, next), next);
  }

  lemma NewlineIsSound(src: Text, s: ParseState)
    requires Sound(src, s) && s.pos < |src|
    ensures Sound(src, NewlineStep(src, s))
  {
    var next := Next(src, s.pos);
    if Looking(src, next, '\n') {
      FlushIsOrdered(src, s, SkipNewlines(src, next));
    } else {
      MovesOnSoundly(src, s, next, NewlineStep(src, s).para);
    }
  }

  lemma BeginIsSound(src: Text, s: ParseState, pos: nat, d: Dialect)
    requires Sound(src, s) && Onward(src, s.pos, pos)
    ensures Sound(src, BeginStep(src, s, pos, d))
  {
    var (env, p1) := BracedArg(src, pos, d.letters);
    var (opt, p2) := OptionalArg(src, p1);
    var kind := d.EnvironmentOf(env);
    var (body, next) := EnvBody(src, EnvStart(src, p2, kind, d.letters), env, []);
    var nodes := EnvNode(kind, opt, body, s.pos, next);
    if nodes == [] {
      NothingBehindIsSound(src, s, s.pos, next);
    } else {
      assert nodes == [nodes[0]];
      BehindIsSound(src, s, s.pos, nodes[0], next);
    }
  }

  lemma NamedIsSound(src: Text, s: ParseState, pos: nat, command: Command, d: Dialect)
    requires Sound(src, s) && Onward(src, s.pos, pos)
    ensures Sound(src, NamedStep(src, s, pos, command, d))
  {
    var t := NamedStep(src, s, pos, command, d);
    match command
    case Sectioning(level) =>
      var (title, next) := BracedArg(src, OptionalArg(src, pos).1, d.letters);
      BehindIsSound(src, s, s.pos, HeadingNode(title, level, s.pos, next), next);
    case Begin => BeginIsSound(src, s, pos, d);
    case FootnoteText =>
      var (text, next) := BracedArg(src, pos, d.letters);
      if text == [] {
        MovesOnSoundly(src, s, next, s.para);
      } else {
        BesideIsSound(src, s, Leaf(Footnote, Some(text), s.pos, next), next, s.para);
      }
    case Graphics =>
      var (path, next) := BracedArg(src, OptionalArg(src, pos).1, d.letters);
      BesideIsSound(src, s, Leaf(Image, NonEmpty(path), s.pos, next), next, s.para);
    case _ => MovesOnSoundly(src, s, t.pos, t.para);
  }

  /** Every step keeps the spans sound, but for unclosed long inline math at the very start. */
  lemma {:induction false} StepIsSound(src: Text, s: ParseState, d: Dialect)
    requires Sound(src, s) && s.pos < |src|
    requires s.pos == 0 ==> !UnclosedLongMath(src, 0)
    ensures Sound(src, Step(src, s, d))
  {
    if src[s.pos] == '$' {
      if StartsWithAt(src, s.pos, "$$") {
        DisplayMathIsSound(src, s);
      } else {
        InlineMathIsSound(src, s);
      }
    } else if src[s.pos] == '\\' {
      var (name, pos) := CommandName(src, Next(src, s.pos), d.letters);
      NamedIsSound(src, s, pos, d.CommandOf(name), d);
    } else if src[s.pos] == '\n' {
      NewlineIsSound(src, s);
    } else {
      var t := Step(src, s, d);
      MovesOnSoundly(src, s, t.pos, t.para);
    }
  }

  lemma {:induction false} RunIsSound(src: Text, s: ParseState, d: Dialect)
    requires Sound(src, s)
    requires s.pos == 0 ==> !UnclosedLongMath(src, 0)
    ensures Sound(src, Run(src, s, d))
    decreases |src| - s.pos
  {
    if !Done(src, s.pos) {
      StepIsSound(src, s, d);
      RunIsSound(src, Step(src, s, d), d);
    }
  }

  // ---- The document ----

  lemma {:induction false} OrderedMeans(src: Text, nodes: seq<DocNode>, limit: int)
    requires Ordered(src, nodes, limit)
    ensures forall k | 0 <= k < |nodes| && nodes[k].nodeType != Metadata :: NodeFits(src, nodes[k])
    ensures forall k | 0 <= k < |nodes| && nodes[k].nodeType != Metadata :: nodes[k].attrs.byteEnd <= limit
    ensures forall i, k | 0 <= i < k < |nodes| && nodes[i].nodeType != Metadata && nodes[k].nodeType != Metadata ::
      nodes[i].attrs.byteEnd <= nodes[k].attrs.byteEnd
    ensures forall k | 0 <= k < |nodes| && nodes[k].nodeType == Metadata :: k == 0 && nodes[k].attrs == Span(0, |src|)
  {
    if nodes != [] {
      var last, rest := nodes[|nodes| - 1], nodes[..|nodes| - 1];
      if last.nodeType != Metadata {
        OrderedMeans(src, rest, last.attrs.byteEnd);
        assert nodes == rest + [last];
      }
    }
  }

  /** The one bad opening: no preamble, and the first byte is a `$` that nothing closes in a long source. */
  predicate BadOpening(src: Text) {
    FindFrom(src, 0, BEGIN_DOCUMENT) == |src| && UnclosedLongMath(src, 0)
  }

  lemma {:induction false} GoodOpeningIsSound(src: Text, d: Dialect)
    requires Valid(src) && !BadOpening(src)
    ensures Ordered(src, ParseLatex(src, d).children, |src|)
  {
    RunIsSound(src, Initial(src), d);
    var end := Run(src, Initial(src), d);
    FlushIsOrdered(src, end, end.pos);
    OrderedWeakens(src, Flush(end, end.pos).children, end.pos, |src|);
  }

  lemma UnclosedFormula(src: Text, s: ParseState) returns (node: DocNode)
    requires At(src, s.pos) && UnclosedLongMath(src, s.pos)
    ensures node.nodeType == Formula && node.attrs.byteStart == s.pos - 1
    ensures InlineMathStep(src, s) == Behind(Flush(s, |src|), [node], |src|)
  {
    var (body, next) := Until(src, Next(src, s.pos), "$");
    InlineStart(src, s.pos, body, next);
    node := Leaf(Formula, Some(Trim(body)), next - |body| - 2, next);
  }

  /** With the bad opening the first formula would start at minus one, which the source's unsigned
      offset cannot hold. */
  lemma BadOpeningUnderflows(src: Text, d: Dialect)
    requires Valid(src) && BadOpening(src)
    ensures exists node :: node in ParseLatex(src, d).children && node.nodeType != Metadata && node.attrs.byteStart == -1
  {
    var s := Initial(src);
    NotTwoDollars(src, 0);
    OtherOctet(src, 0, END_DOCUMENT);
    var node := UnclosedFormula(src, s);
    var t := Step(src, s, d);
    assert t == InlineMathStep(src, s) && Run(src, s, d) == Run(src, t, d) == t;
    assert node in t.children;
  }

  /** Spans of a parsed document: outside the bad opening, every node but the metadata lies well-ordered
      in the source, on character boundaries, and node ends never decrease along the children. */
  lemma {:induction false} DocumentSpans(src: Text, d: Dialect)
    requires Valid(src) && !BadOpening(src)
    ensures var nodes := ParseLatex(src, d).children;
      && (forall k | 0 <= k < |nodes| && nodes[k].nodeType != Metadata :: NodeFits(src, nodes[k]))
      && (forall i, k | 0 <= i < k < |nodes| && nodes[i].nodeType != Metadata && nodes[k].nodeType != Metadata ::
            nodes[i].attrs.byteEnd <= nodes[k].attrs.byteEnd)
  {
    GoodOpeningIsSound(src, d);
    OrderedMeans(src, ParseLatex(src, d).children, |src|);
  }

  // ---- Readers ----

  /** The raw body of an environment is the text up to the first end marker, wherever that is found. */
  lemma {:induction false} EnvBodyIsShortest(src: Text, pos: nat, env: Text, body: Text)
    requires At(src, pos)
    ensures var end := FindFrom(src, pos, EndMarker(env));
      EnvBody(src, pos, env, body)
      == (body + src[pos..end], if end == |src| then |src| else end + |EndMarker(env)|)
    decreases |src| - pos
  {
    var end := FindFrom(src, pos, EndMarker(env));
    if pos == |src| || StartsWithAt(src, pos, EndMarker(env)) {
      assert body + src[pos..pos] == body;
    } else {
      var next := Next(src, pos);
      FindSkipsChar(src, pos, EndMarker(env));
      EnvBodyIsShortest(src, next, env, body + CharAt(src, pos));
      Stitch(src, pos, next, end, body);
    }
  }

  lemma Stitch(src: Text, from: nat, mid: nat, to: nat, body: Text)
    requires from <= mid <= to <= |src|
    ensures body + src[from..mid] + src[mid..to] == body + src[from..to]
  {
    assert src[from..mid] + src[mid..to] == src[from..to];
  }

  /** A name of more than one character is all letters, so the starred entries of the command table are never met. */
  lemma {:induction false} NamesAreLetters(src: Text, pos: nat, letters: set<Text>)
    requires At(src, pos) && LetterAt(src, pos, letters)
    requires forall c | c in letters :: '*' !in c
    ensures '*' !in src[pos..LettersEnd(src, pos, letters)]
    decreases |src| - pos
  {
    var next := Next(src, pos);
    assert '*' !in CharAt(src, pos);
    if LetterAt(src, next, letters) {
      NamesAreLetters(src, next, letters);
    }
    assert src[pos..LettersEnd(src, pos, letters)] == CharAt(src, pos) + src[next..LettersEnd(src, pos, letters)];
  }

  lemma StarredNeverRead(src: Text, pos: nat, letters: set<Text>, stem: Text)
    requires At(src, pos) && stem != []
    requires forall c | c in letters :: '*' !in c
    ensures CommandName(src, pos, letters).0 != stem + "*"
  {
    if pos < |src| {
      if LetterAt(src, pos, letters) {
        NamesAreLetters(src, pos, letters);
        assert (stem + "*")[|stem|] == '*';
      } else {
        NextBoundary(src, pos);
        var c := CharAt(src, pos);
        assert |c| > 1 ==> IsContinuation(src[pos..][|c| - 1]) && c[|c| - 1] == src[pos..][|c| - 1];
      }
    }
  }

  /** So a starred heading loses its title: the star is taken for the missing brace, and the title's
      text is left to the paragraph behind. */
  lemma StarredHeadingHasNoTitle(src: Text, s: ParseState, d: Dialect)
    requires At(src, s.pos) && Looking(src, s.pos, '\\')
    requires var (name, pos) := CommandName(src, Next(src, s.pos), d.letters);
      d.CommandOf(name).Sectioning? && Looking(src, pos, '*')
    ensures var (name, pos) := CommandName(src, Next(src, s.pos), d.letters);
      Step(src, s, d) == Behind(Flush(s, s.pos), [HeadingNode([], d.CommandOf(name).level, s.pos, pos)], pos)
  {
    var (name, pos) := CommandName(src, Next(src, s.pos), d.letters);
    assert OptionalArg(src, pos) == (None, pos);
    assert BracedArg(src, pos, d.letters) == ([], pos);
  }

  /** In the source's own table every sectioning command has a starred entry of the same level. No name
      read ever meets it; a star behind the plain name costs the heading its title. */
  lemma {:induction false} StarredSections(src: Text, s: ParseState, letters: set<Text>, stem: Text)
    requires At(src, s.pos) && Looking(src, s.pos, '\\')
    requires stem in {"chapter", "section", "subsection", "subsubsection", "paragraph", "subparagraph"} && stem in HEADINGS
    requires forall c | c in letters :: '*' !in c
    ensures Latex(letters).CommandOf(stem + "*") == Latex(letters).CommandOf(stem) == Sectioning(HEADINGS[stem])
    ensures var (name, pos) := CommandName(src, Next(src, s.pos), letters);
      && name != stem + "*"
      && (name == stem && Looking(src, pos, '*') ==>
            Step(src, s, Latex(letters))
            == Behind(Flush(s, s.pos), [HeadingNode([], HEADINGS[stem], s.pos, pos)], pos))
  {
    StarredEntry(stem);
    HeadingEntry(OTHER_COMMANDS, ENVIRONMENTS, letters, HEADINGS, stem);
    HeadingEntry(OTHER_COMMANDS, ENVIRONMENTS, letters, HEADINGS, stem + "*");
    StarLosesTitle(src, s, Latex(letters), stem, HEADINGS[stem]);
  }

  lemma StarLosesTitle(src: Text, s: ParseState, d: Dialect, stem: Text, level: nat)
    requires At(src, s.pos) && Looking(src, s.pos, '\\') && stem != [] && d.CommandOf(stem) == Sectioning(level)
    requires forall c | c in d.letters :: '*' !in c
    ensures var (name, pos) := CommandName(src, Next(src, s.pos), d.letters);
      && name != stem + "*"
      && (name == stem && Looking(src, pos, '*') ==>
            Step(src, s, d) == Behind(Flush(s, s.pos), [HeadingNode([], level, s.pos, pos)], pos))
  {
    StarredNeverRead(src, Next(src, s.pos), d.letters, stem);
    var (name, pos) := CommandName(src, Next(src, s.pos), d.letters);
    if name == stem && Looking(src, pos, '*') {
      StarredHeadingHasNoTitle(src, s, d);
    }
  }

  /** Every ASCII source that opens with `\section*` gets a heading without title that ends before the star. */
  lemma OpensWithStarred(src: Text, s: ParseState, d: Dialect)
    requires s.pos == 0 && d.CommandOf("section") == Sectioning(2)
    requires |src| > 8 && src[0] == '\\' && src[1..8] == "section" && src[8] == '*'
    requires forall k | 0 <= k < |src| :: src[k] as int < 0x80
    ensures Valid(src) && Step(src, s, d) == Behind(Flush(s, 0), [HeadingNode([], 2, 0, 8)], 8)
  {
    AsciiValid(src);
    assert forall k | 1 <= k < 8 :: src[k] == "section"[k - 1];
    AsciiName(src, 1, 8, d.letters);
    assert Next(src, 0) == 1;
    StarredHeadingHasNoTitle(src, s, d);
  }

  /** So does `\section*{A}`. */
  lemma StarredSectionExample(src: Text, s: ParseState, d: Dialect)
    requires src == "\\section*{A}" && s.pos == 0 && d.CommandOf("section") == Sectioning(2)
    ensures Valid(src) && Step(src, s, d) == Behind(Flush(s, 0), [HeadingNode([], 2, 0, 8)], 8)
  {
    OpensWithStarred(src, s, d);
  }

  /** A name of ASCII letters up to `end`, with neither a letter nor a blank behind it. */
  lemma AsciiName(src: Text, pos: nat, end: nat, letters: set<Text>)
    requires pos < end < |src| && forall k | 0 <= k < |src| :: src[k] as int < 0x80
    requires forall k | pos <= k < end :: InRange(src[k], 97, 122)
    requires src[end] == '*'
    ensures At(src, pos) && CommandName(src, pos, letters) == (src[pos..end], end)
  {
    AsciiValid(src);
    AfterAscii(src, pos);
    AsciiLettersEnd(src, pos, end, letters);
    assert CharAt(src, pos) == [src[pos]];
  }

  lemma {:induction false} AsciiLettersEnd(src: Text, pos: nat, end: nat, letters: set<Text>)
    requires pos <= end < |src| && At(src, pos) && forall k | 0 <= k < |src| :: src[k] as int < 0x80
    requires forall k | pos <= k < end :: InRange(src[k], 97, 122)
    requires src[end] == '*'
    ensures LettersEnd(src, pos, letters) == end
    decreases end - pos
  {
    assert CharAt(src, pos) == [src[pos]];
    if pos < end {
      AsciiLettersEnd(src, Next(src, pos), end, letters);
    }
  }

  /** The smallest bad opening: a `$` and sixty letters. */
  lemma BadOpeningExample(src: Text)
    requires src == "$" + seq(60, _ => 'a')
    ensures Valid(src) && BadOpening(src)
  {
    assert src[0] == '$' && forall k | 1 <= k < 61 :: src[k] == 'a';
    AsciiValid(src);
    forall k: nat | k < |src|
      ensures !StartsWithAt(src, k, BEGIN_DOCUMENT)
    {
      OtherOctet(src, k, BEGIN_DOCUMENT);
    }
    SameFind(src, 0, |src|, BEGIN_DOCUMENT);
  }
}
