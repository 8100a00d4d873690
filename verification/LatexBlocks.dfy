/** The block nodes of a parsed LaTeX document never overlap, whatever the source. */
module LatexBlocks {
  import opened Wrappers
  import opened Utf8
  import opened Document
  import opened LatexText
  import opened LatexCursor
  import LatexBraces
  import opened LatexDialect
  import opened LatexParser

  /** The nodes a paragraph ends before. Formulas, footnotes and images may lie inside one. */
  predicate IsBlock(node: DocNode) {
    node.nodeType in {Paragraph, Heading, Code, Table, DocNodeType.Abstract, Caption}
  }

  /** The blocks lie one behind the other and end by `limit`. */
  predicate BlocksBy(nodes: seq<DocNode>, limit: int) {
    nodes == []
    || (var last, rest := nodes[|nodes| - 1], nodes[..|nodes| - 1];
        if IsBlock(last) then
          last.attrs.byteStart <= last.attrs.byteEnd <= limit && BlocksBy(rest, last.attrs.byteStart)
        else BlocksBy(rest, limit))
  }

  /** Every block so far ends before the paragraph being collected. */
  predicate InPlace(s: ParseState) {
    s.paraStart <= s.pos && BlocksBy(s.children, s.paraStart)
  }

  lemma {:induction false} BlocksWeaken(nodes: seq<DocNode>, limit: int, later: int)
    requires BlocksBy(nodes, limit) && limit <= later
    ensures BlocksBy(nodes, later)
  {
    if nodes != [] && !IsBlock(nodes[|nodes| - 1]) {
      BlocksWeaken(nodes[..|nodes| - 1], limit, later);
    }
  }

  lemma BlockJoins(nodes: seq<DocNode>, limit: int, node: DocNode, later: int)
    requires BlocksBy(nodes, limit) && limit <= later
    requires IsBlock(node) ==> limit <= node.attrs.byteStart <= node.attrs.byteEnd <= later
    ensures BlocksBy(nodes + [node], later)
  {
    assert (nodes + [node])[..|nodes|] == nodes;
    BlocksWeaken(nodes, limit, if IsBlock(node) then node.attrs.byteStart else later);
  }

  lemma FlushKeepsBlocks(s: ParseState, at: nat)
    requires s.paraStart <= at && BlocksBy(s.children, s.paraStart)
    ensures BlocksBy(Flush(s, at).children, at)
  {
    var nodes := ParagraphOf(s.para, s.paraStart, at);
    if nodes == [] {
      assert s.children + nodes == s.children;
      BlocksWeaken(s.children, s.paraStart, at);
    } else {
      assert nodes == [nodes[0]];
      BlockJoins(s.children, s.paraStart, nodes[0], at);
    }
  }

  lemma BehindInPlace(s: ParseState, at: nat, nodes: seq<DocNode>, pos: nat)
    requires InPlace(s) && s.pos <= at <= pos
    requires |nodes| <= 1
    requires forall node | node in nodes && IsBlock(node) :: at <= node.attrs.byteStart <= node.attrs.byteEnd <= pos
    ensures InPlace(Behind(Flush(s, at), nodes, pos))
  {
    FlushKeepsBlocks(s, at);
    var flushed := Flush(s, at).children;
    if nodes == [] {
      assert flushed + nodes == flushed;
      BlocksWeaken(flushed, at, pos);
    } else {
      assert nodes == [nodes[0]];
      BlockJoins(flushed, at, nodes[0], pos);
    }
  }

  /** The paragraph goes on beside a node that is no block. */
  lemma BesideInPlace(s: ParseState, node: DocNode, pos: nat, para: Text)
    requires InPlace(s) && s.pos <= pos && !IsBlock(node)
    ensures InPlace(s.(pos := pos, para := para, children := s.children + [node]))
  {
    BlockJoins(s.children, s.paraStart, node, s.paraStart);
  }

  lemma EnvNodeInside(kind: Environment, opt: Option<Text>, body: Text, from: int, to: int)
    ensures |EnvNode(kind, opt, body, from, to)| <= 1
    ensures forall node | node in EnvNode(kind, opt, body, from, to) ::
      node.attrs.byteStart == from && node.attrs.byteEnd == to
  {
  }

  lemma BeginInPlace(src: Text, s: ParseState, pos: nat, d: Dialect)
    requires At(src, s.pos) && Onward(src, s.pos, pos) && InPlace(s)
    ensures InPlace(BeginStep(src, s, pos, d))
  {
    var (env, p1) := BracedArg(src, pos, d.letters);
    var (opt, p2) := OptionalArg(src, p1);
    var kind := d.EnvironmentOf(env);
    var (body, next) := EnvBody(src, EnvStart(src, p2, kind, d.letters), env, []);
    EnvNodeInside(kind, opt, body, s.pos, next);
    BehindInPlace(s, s.pos, EnvNode(kind, opt, body, s.pos, next), next);
  }

  lemma NamedInPlace(src: Text, s: ParseState, pos: nat, command: Command, d: Dialect)
    requires At(src, s.pos) && Onward(src, s.pos, pos) && InPlace(s)
    ensures InPlace(NamedStep(src, s, pos, command, d))
  {
    match command
    case Sectioning(level) =>
      var (title, next) := BracedArg(src, OptionalArg(src, pos).1, d.letters);
      BehindInPlace(s, s.pos, [HeadingNode(title, level, s.pos, next)], next);
    case Begin => BeginInPlace(src, s, pos, d);
    case FootnoteText =>
      var (text, next) := BracedArg(src, pos, d.letters);
      if text != [] {
        BesideInPlace(s, Leaf(Footnote, Some(text), s.pos, next), next, s.para);
      }
    case Graphics =>
      var (path, next) := BracedArg(src, OptionalArg(src, pos).1, d.letters);
      BesideInPlace(s, Leaf(Image, LatexBraces.NonEmpty(path), s.pos, next), next, s.para);
    case _ =>
  }

  lemma MathInPlace(src: Text, s: ParseState)
    requires At(src, s.pos) && Looking(src, s.pos, '$') && InPlace(s)
    ensures StartsWithAt(src, s.pos, "$$") ==> InPlace(DisplayMathStep(src, s))
    ensures InPlace(InlineMathStep(src, s))
  {
    if StartsWithAt(src, s.pos, "$$") {
      TwoDollars(src, s.pos);
      var (body, next) := Until(src, s.pos + 2, "$$");
      BehindInPlace(s, s.pos, [Leaf(Formula, Some(Trim(body)), s.pos, next)], next);
    }
    var (body, next) := Until(src, Next(src, s.pos), "$");
    if |body| >= SHORT_MATH {
      BehindInPlace(s, next, [Leaf(Formula, Some(Trim(body)), next - |body| - 2, next)], next);
    }
  }

  lemma StepInPlace(src: Text, s: ParseState, d: Dialect)
    requires At(src, s.pos) && s.pos < |src| && InPlace(s)
    ensures InPlace(Step(src, s, d))
  {
    if src[s.pos] == '$' {
      MathInPlace(src, s);
    } else if src[s.pos] == '\\' {
      var (name, pos) := CommandName(src, Next(src, s.pos), d.letters);
      NamedInPlace(src, s, pos, d.CommandOf(name), d);
    } else if src[s.pos] == '\n' {
      var next := Next(src, s.pos);
      if Looking(src, next, '\n') {
        FlushKeepsBlocks(s, SkipNewlines(src, next));
      }
    }
  }

  lemma {:induction false} RunInPlace(src: Text, s: ParseState, d: Dialect)
    requires At(src, s.pos) && InPlace(s)
    ensures InPlace(Run(src, s, d))
    decreases |src| - s.pos
  {
    if !Done(src, s.pos) {
      StepInPlace(src, s, d);
      RunInPlace(src, Step(src, s, d), d);
    }
  }

  lemma {:induction false} BlocksByMeans(nodes: seq<DocNode>, limit: int)
    requires BlocksBy(nodes, limit)
    ensures forall k | 0 <= k < |nodes| && IsBlock(nodes[k]) ::
      nodes[k].attrs.byteStart <= nodes[k].attrs.byteEnd <= limit
    ensures forall i, k | 0 <= i < k < |nodes| && IsBlock(nodes[i]) && IsBlock(nodes[k]) ::
      nodes[i].attrs.byteEnd <= nodes[k].attrs.byteStart
  {
    if nodes != [] {
      var last, rest := nodes[|nodes| - 1], nodes[..|nodes| - 1];
      BlocksByMeans(rest, if IsBlock(last) then last.attrs.byteStart else limit);
      assert nodes == rest + [last];
    }
  }

  /** Paragraphs, headings, code, tables, abstracts and captions are pairwise disjoint and in source order,
      for every source, the one with the bad opening included. */
  lemma BlocksDisjoint(src: Text, d: Dialect)
    requires Valid(src)
    ensures var nodes := ParseLatex(src, d).children;
      forall i, k | 0 <= i < k < |nodes| && IsBlock(nodes[i]) && IsBlock(nodes[k]) ::
        && nodes[i].attrs.byteStart <= nodes[i].attrs.byteEnd
        && nodes[i].attrs.byteEnd <= nodes[k].attrs.byteStart <= nodes[k].attrs.byteEnd
  {
    RunInPlace(src, Initial(src), d);
    var end := Run(src, Initial(src), d);
    FlushKeepsBlocks(end, end.pos);
    BlocksByMeans(Flush(end, end.pos).children, end.pos);
  }
}
