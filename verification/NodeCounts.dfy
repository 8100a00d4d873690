/** What the in-bounds node counts of all chunks add up to, and when they never exceed the number of nodes. */
module NodeCounts {
  import opened Wrappers
  import opened Utf8
  import opened Document
  import opened Segments
  import opened Windows
  import opened Packing
  import opened Chunks
  import opened ChunkGuarantees
  import opened Lookup
  import opened SyntaxWalker

  predicate InRange(node: DocNode, win: Window) {
    Within(node, win.byteStart, win.byteEnd)
  }

  predicate InSome(node: DocNode, windows: seq<Window>) {
    windows != [] && (InRange(node, windows[0]) || InSome(node, windows[1..]))
  }

  predicate InTwo(node: DocNode, windows: seq<Window>) {
    windows != []
    && ((InRange(node, windows[0]) && InSome(node, windows[1..])) || InTwo(node, windows[1..]))
  }

  /** The definitions above in terms of positions. */
  lemma {:induction false} InSomeMeans(node: DocNode, windows: seq<Window>)
    ensures InSome(node, windows) <==> exists i :: 0 <= i < |windows| && InRange(node, windows[i])
  {
    if windows != [] {
      InSomeMeans(node, windows[1..]);
      assert forall i | 1 <= i < |windows| :: windows[i] == windows[1..][i - 1];
    }
  }

  lemma {:induction false} InTwoMeans(node: DocNode, windows: seq<Window>)
    ensures InTwo(node, windows)
       <==> exists i, j :: 0 <= i < j < |windows| && InRange(node, windows[i]) && InRange(node, windows[j])
  {
    if windows != [] {
      InTwoMeans(node, windows[1..]);
      InSomeMeans(node, windows[1..]);
      assert forall i | 1 <= i < |windows| :: windows[i] == windows[1..][i - 1];
    }
  }

  /** The nodes that lie in some final range. */
  function Reached(nodes: seq<DocNode>, windows: seq<Window>): (n: nat)
    ensures n <= |nodes|
  {
    if nodes == [] then 0 else (if InSome(nodes[0], windows) then 1 else 0) + Reached(nodes[1..], windows)
  }

  function SumInBounds(chunks: seq<Chunk>): nat {
    if chunks == [] then 0 else SumInBounds(chunks[..|chunks| - 1]) + chunks[|chunks| - 1].nodesInBounds
  }

  function CountAll(windows: seq<Window>, nodes: seq<DocNode>): nat {
    if windows == [] then 0
    else CountWithin(nodes, windows[0].byteStart, windows[0].byteEnd) + CountAll(windows[1..], nodes)
  }

  lemma CountOne(node: DocNode, win: Window)
    ensures CountWithin([node], win.byteStart, win.byteEnd) == if InRange(node, win) then 1 else 0
  {
    assert [node][1..] == [];
  }

  lemma {:induction false} CountAllSplits(windows: seq<Window>, nodes: seq<DocNode>)
    requires nodes != []
    ensures CountAll(windows, nodes) == CountAll(windows, [nodes[0]]) + CountAll(windows, nodes[1..])
  {
    if windows != [] {
      CountAllSplits(windows[1..], nodes);
      CountOne(nodes[0], windows[0]);
    }
  }

  lemma {:induction false} CountNothing(windows: seq<Window>)
    ensures CountAll(windows, []) == 0
  {
    if windows != [] {
      CountNothing(windows[1..]);
    }
  }

  lemma {:induction false} CountOfNode(windows: seq<Window>, node: DocNode)
    ensures CountAll(windows, [node]) >= 1 <==> InSome(node, windows)
    ensures CountAll(windows, [node]) >= 2 <==> InTwo(node, windows)
  {
    if windows != [] {
      CountOfNode(windows[1..], node);
      CountOne(node, windows[0]);
    }
  }

  /** The counts add up to the nodes reached exactly when no node is counted twice. */
  lemma {:induction false} CountAllIs(windows: seq<Window>, nodes: seq<DocNode>)
    ensures CountAll(windows, nodes) >= Reached(nodes, windows)
    ensures CountAll(windows, nodes) == Reached(nodes, windows) <==> forall n | n in nodes :: !InTwo(n, windows)
  {
    if nodes == [] {
      CountNothing(windows);
    } else {
      CountAllIs(windows, nodes[1..]);
      CountAllSplits(windows, nodes);
      CountOfNode(windows, nodes[0]);
      assert nodes == [nodes[0]] + nodes[1..];
    }
  }

  lemma {:induction false} CountAllSnoc(windows: seq<Window>, last: Window, nodes: seq<DocNode>)
    ensures CountAll(windows + [last], nodes)
         == CountAll(windows, nodes) + CountWithin(nodes, last.byteStart, last.byteEnd)
  {
    if windows == [] {
      assert (windows + [last])[1..] == [];
    } else {
      assert (windows + [last])[1..] == windows[1..] + [last];
      CountAllSnoc(windows[1..], last, nodes);
    }
  }

  lemma {:induction false} SumInBoundsIsCountAll(root: DocNode, windows: seq<Window>, n: nat)
    requires n <= |windows|
    ensures SumInBounds(Numbered(root, windows)[..n]) == CountAll(windows[..n], Preorder(root))
  {
    if n > 0 {
      SumInBoundsIsCountAll(root, windows, n - 1);
      assert Numbered(root, windows)[..n][..n - 1] == Numbered(root, windows)[..n - 1];
      assert windows[..n] == windows[..n - 1] + [windows[n - 1]];
      CountAllSnoc(windows[..n - 1], windows[n - 1], Preorder(root));
    }
  }

  lemma SumIsCountAll(cfg: Config, root: DocNode)
    ensures SumInBounds(ChunksOf(cfg, root)) == CountAll(FinalWindows(cfg, root), Preorder(root))
  {
    var windows := FinalWindows(cfg, root);
    SumInBoundsIsCountAll(root, windows, |windows|);
    assert windows[..|windows|] == windows;
    assert ChunksOf(cfg, root)[..|windows|] == ChunksOf(cfg, root);
  }

  /** For every document and configuration: the in-bounds counts of all chunks add up to the number of nodes
      that lie in some chunk, if and only if no node lies in two. */
  lemma CountsAddUpIffNoneTwice(cfg: Config, root: DocNode)
    ensures var nodes, windows := Preorder(root), FinalWindows(cfg, root);
      SumInBounds(ChunksOf(cfg, root)) == Reached(nodes, windows) <==> forall n | n in nodes :: !InTwo(n, windows)
  {
    SumIsCountAll(cfg, root);
    CountAllIs(FinalWindows(cfg, root), Preorder(root));
  }

  /** Conservation: then they do not exceed the number of nodes. */
  lemma NodeCountsConserved(cfg: Config, root: DocNode)
    requires forall n | n in Preorder(root) :: !InTwo(n, FinalWindows(cfg, root))
    ensures SumInBounds(ChunksOf(cfg, root)) <= |Preorder(root)|
  {
    CountsAddUpIffNoneTwice(cfg, root);
  }

  // ---- Segments in source order ----

  /** Segment spans are well-formed and in source order. */
  ghost predicate InOrder(segs: seq<TextSegment>) {
    && (forall i | 0 <= i < |segs| :: segs[i].byteStart <= segs[i].byteEnd)
    && (forall i, j | 0 <= i < j < |segs| :: segs[i].byteEnd <= segs[j].byteStart)
  }

  ghost predicate InOrderWithin(segs: seq<TextSegment>, from: int, to: int) {
    && InOrder(segs)
    && (forall i | 0 <= i < |segs| :: from <= segs[i].byteStart && segs[i].byteEnd <= to)
  }

  lemma {:induction false} PiecesInOrder(seg: TextSegment, pos: nat, maxBytes: nat)
    requires pos <= |seg.text| && Boundary(seg.text, pos)
    ensures InOrderWithin(PiecesFrom(seg, pos, maxBytes), seg.byteStart + pos, seg.byteStart + |seg.text|)
    decreases |seg.text| - pos
  {
    if pos < |seg.text| {
      var end := Cut(seg.text, pos, maxBytes);
      if end > pos {
        PiecesInOrder(seg, end, maxBytes);
      }
    }
  }

  /** Pre-splitting keeps spans in order when no text is longer than its span. */
  lemma {:induction false} SplitKeepsOrder(segs: seq<TextSegment>, maxTokens: nat, from: int)
    requires InOrder(segs) && forall i | 0 <= i < |segs| :: |segs[i].text| <= segs[i].byteEnd - segs[i].byteStart
    requires segs != [] ==> from <= segs[0].byteStart
    ensures InOrder(SplitAll(segs, maxTokens))
    ensures forall s | s in SplitAll(segs, maxTokens) :: from <= s.byteStart
  {
    if segs != [] {
      SplitKeepsOrder(segs[1..], maxTokens, segs[0].byteEnd);
      var head, tail := SplitPieces(segs[0], maxTokens), SplitAll(segs[1..], maxTokens);
      PiecesInOrder(segs[0], 0, maxTokens * CHARS_PER_TOKEN);
      assert forall i | 0 <= i < |tail| :: tail[i] in tail;
      OrderJoins(head, tail, segs[0].byteStart, segs[0].byteEnd);
    }
  }

  lemma OrderJoins(head: seq<TextSegment>, tail: seq<TextSegment>, from: int, mid: int)
    requires from <= mid && InOrderWithin(head, from, mid)
    requires InOrder(tail) && forall i | 0 <= i < |tail| :: mid <= tail[i].byteStart
    ensures InOrder(head + tail) && forall s | s in head + tail :: from <= s.byteStart
  {
  }

  ghost predicate RangesDisjoint(windows: seq<Window>) {
    && (forall i | 0 <= i < |windows| :: windows[i].byteStart <= windows[i].byteEnd)
    && (forall i, j | 0 <= i < j < |windows| :: windows[i].byteEnd <= windows[j].byteStart)
  }

  lemma PlannedRangesDisjoint(cfg: Config, segs: seq<TextSegment>)
    requires InOrder(segs) && !cfg.overlapping
    ensures RangesDisjoint(PlannedWindows(cfg, segs))
  {
    var plan, windows := Plan(cfg, segs, 0), PlannedWindows(cfg, segs);
    PlanInRange(cfg, segs, 0);
    forall i | 0 <= i < |windows|
      ensures windows[i].byteStart <= windows[i].byteEnd
    {
      assert plan[i].from <= plan[i].to - 1;
    }
    forall i, j | 0 <= i < j < |windows|
      ensures windows[i].byteEnd <= windows[j].byteStart
    {
      WithoutOverlapDisjoint(cfg, segs, 0, i, j);
      assert plan[i].to - 1 < plan[j].from;
    }
  }

  /** Without overlap the byte ranges of the final windows are disjoint and in order. */
  lemma FinalRangesDisjoint(cfg: Config, root: DocNode)
    requires InOrder(SegmentsOf(cfg, root)) && !cfg.overlapping
    ensures RangesDisjoint(FinalWindows(cfg, root))
  {
    PlannedRangesDisjoint(cfg, SegmentsOf(cfg, root));
    MergeKeepsDisjoint(cfg, PlannedWindows(cfg, SegmentsOf(cfg, root)));
  }

  lemma MergeKeepsDisjoint(cfg: Config, windows: seq<Window>)
    requires RangesDisjoint(windows)
    ensures RangesDisjoint(MergeTail(cfg, windows))
  {
  }

  lemma DisjointMeansNotTwice(windows: seq<Window>, node: DocNode)
    requires RangesDisjoint(windows) && node.attrs.byteStart < node.attrs.byteEnd
    ensures !InTwo(node, windows)
  {
    InTwoMeans(node, windows);
  }

  /** So counts are conserved without overlap when the segments packed are in source order and no node is empty. */
  lemma OrderedCountsConserved(cfg: Config, root: DocNode)
    requires InOrder(SegmentsOf(cfg, root)) && !cfg.overlapping
    requires forall n | n in Preorder(root) :: n.attrs.byteStart < n.attrs.byteEnd
    ensures SumInBounds(ChunksOf(cfg, root)) == Reached(Preorder(root), FinalWindows(cfg, root)) <= |Preorder(root)|
  {
    FinalRangesDisjoint(cfg, root);
    forall n | n in Preorder(root)
      ensures !InTwo(n, FinalWindows(cfg, root))
    {
      DisjointMeansNotTwice(FinalWindows(cfg, root), n);
    }
    CountsAddUpIffNoneTwice(cfg, root);
  }

  // ---- Segments inside segments ----

  /** A definition whose signature is a segment of its own spans the segments of its body. */
  lemma NestedBreaksOrder(segs: seq<TextSegment>, i: nat, j: nat)
    requires i < j < |segs| && segs[j].byteStart < segs[j].byteEnd
    requires segs[i].byteStart <= segs[j].byteStart && segs[j].byteEnd <= segs[i].byteEnd
    ensures !InOrder(segs)
  {
    assert segs[j].byteStart < segs[i].byteEnd;
  }

  const SIGNATURE: Text := "class A:"
  const STATEMENT: Text := "x = 123;"

  function ClassWithStatement(): Syntax {
    var statement := Syntax(Other, 10, 40, STATEMENT, [], [], None, false, []);
    var definition := Syntax(Definition, 0, 100, [], SIGNATURE, "A", Some("A"), false, [statement]);
    Syntax(Other, 0, 100, [], [], [], None, false, [definition])
  }

  /** There the statement is counted in its own chunk and in its class's, whose range spans it: four
      in-bounds nodes in a document of three. */
  lemma DefinitionsCountTwice(cfg: Config)
    requires cfg.maxTokens == 2 && cfg.minTokens == 0 && !cfg.recursive && !cfg.adaptiveSize && !cfg.overlapping
    ensures WellNested(ClassWithStatement())
    ensures var root := DocumentOf(ClassWithStatement(), 100);
      && |Preorder(root)| == 3
      && SumInBounds(ChunksOf(cfg, root)) == 4
      && !InOrder(SegmentsOf(cfg, root))
  {
    var root := DocumentOf(ClassWithStatement(), 100);
    var section := DocumentOfClass();
    var code := section.children[0];
    SegmentsOfClass(root, section, code);
    NestedBreaksOrder(SegmentsOf(cfg, root), 0, 1);
    ClassWindows(cfg, SegmentsOf(cfg, root));
    SumIsCountAll(cfg, root);
    TwoRangesCount(root, section, code, FinalWindows(cfg, root));
  }

  lemma DocumentOfClass() returns (section: DocNode)
    ensures WellNested(ClassWithStatement())
    ensures section.nodeType == Section && section.text == Some(SIGNATURE)
    ensures section.attrs.byteStart == 0 && section.attrs.byteEnd == 100
    ensures section.children == [DocNode(Code, Some(STATEMENT), [], Span(10, 40))]
    ensures var root := DocumentOf(ClassWithStatement(), 100);
      && root == DocNode(DocNodeType.Document, None, [section], Span(0, 100))
      && Preorder(root) == [root, section, section.children[0]]
  {
    var tree := ClassWithStatement();
    var definition := tree.children[0];
    var statement := definition.children[0];
    var code := DocNode(Code, Some(STATEMENT), [], Span(10, 40));
    assert definition.children == [statement] && tree.children == [definition];
    assert [statement][1..] == [] && [definition][1..] == [];
    assert Inside(definition, []) == ["A"];
    assert WalkOne(statement, ["A"]) == [code];
    assert WalkAll(definition.children, ["A"]) == [code];
    assert WalkBodies(definition.children, ["A"]) == [];
    assert [code] + [] == [code];
    section := SectionFor(definition, [], [code]);
    assert WalkOne(definition, []) == [section];
    assert WalkAll(tree.children, []) == [section];
    PreorderOfThree(section, code);
    assert WellNested(statement) && WellNested(definition);
  }

  lemma PreorderOfThree(section: DocNode, code: DocNode)
    requires section.children == [code] && code.children == []
    ensures var root := DocNode(DocNodeType.Document, None, [section], Span(0, 100));
      Preorder(root) == [root, section, code]
  {
    assert [code][1..] == [] && [section][1..] == [];
    assert Preorder(code) == [code] && PreorderAll([code]) == [code];
    assert Preorder(section) == [section, code] && PreorderAll([section]) == [section, code];
  }

  lemma SegmentsOfClass(root: DocNode, section: DocNode, code: DocNode)
    requires Preorder(root) == [root, section, code]
    requires root.nodeType == DocNodeType.Document && root.text == None
    requires section.nodeType == Section && section.text == Some(SIGNATURE)
    requires code.nodeType == Code && code.text == Some(STATEMENT)
    ensures WalkDocNode(root)
         == [TextSegment(SIGNATURE, Section, section.attrs.byteStart, section.attrs.byteEnd, []),
             TextSegment(STATEMENT, Code, code.attrs.byteStart, code.attrs.byteEnd, [])]
  {
    var nodes := [root, section, code];
    assert nodes[1..] == [section, code] && nodes[1..][1..] == [code] && [code][1..] == [];
    assert FoldSegments([code], []) == SegmentOf(code, []);
    assert FoldSegments([section, code], []) == SegmentOf(section, []) + FoldSegments([code], []);
  }

  lemma ClassWindows(cfg: Config, segs: seq<TextSegment>)
    requires cfg.maxTokens == 2 && cfg.minTokens == 0 && !cfg.adaptiveSize
    requires segs == [TextSegment(SIGNATURE, Section, 0, 100, []), TextSegment(STATEMENT, Code, 10, 40, [])]
    ensures var windows := MergeTail(cfg, PlannedWindows(cfg, segs));
      && |windows| == 2
      && windows[0].byteStart == 0 && windows[0].byteEnd == 100
      && windows[1].byteStart == 10 && windows[1].byteEnd == 40
  {
    assert Sum(segs, 0, 1) == Sum(segs, 0, 0) + EstimateTokens(SIGNATURE);
    TwoAlone(cfg, segs);
  }

  lemma TwoRangesCount(root: DocNode, section: DocNode, code: DocNode, windows: seq<Window>)
    requires Preorder(root) == [root, section, code]
    requires root.attrs.byteStart == 0 == section.attrs.byteStart && root.attrs.byteEnd == 100 == section.attrs.byteEnd
    requires code.attrs.byteStart == 10 && code.attrs.byteEnd == 40
    requires |windows| == 2
    requires windows[0].byteStart == 0 && windows[0].byteEnd == 100
    requires windows[1].byteStart == 10 && windows[1].byteEnd == 40
    ensures CountAll(windows, Preorder(root)) == 4
  {
    CountThree(root, section, code, 0, 100);
    CountThree(root, section, code, 10, 40);
    CountAllOfTwo(windows, Preorder(root));
  }

  lemma CountAllOfTwo(windows: seq<Window>, nodes: seq<DocNode>)
    requires |windows| == 2
    ensures CountAll(windows, nodes)
         == CountWithin(nodes, windows[0].byteStart, windows[0].byteEnd)
          + CountWithin(nodes, windows[1].byteStart, windows[1].byteEnd)
  {
    assert windows == [windows[0]] + [windows[1]];
    CountAllSnoc([windows[0]], windows[1], nodes);
    CountAllSnoc([], windows[0], nodes);
    assert [] + [windows[0]] == [windows[0]];
  }

  lemma CountThree(a: DocNode, b: DocNode, c: DocNode, start: int, end: int)
    ensures CountWithin([a, b, c], start, end)
         == (if Within(a, start, end) then 1 else 0) + (if Within(b, start, end) then 1 else 0)
          + (if Within(c, start, end) then 1 else 0)
  {
    assert [a, b, c] == [a] + ([b] + [c]);
    CountConcat([a], [b] + [c], start, end);
    CountConcat([b], [c], start, end);
    assert [a][1..] == [] && [b][1..] == [] && [c][1..] == [];
  }
}
