/** What stands in a chunk: its span, its texts as they are written out, its numbers and its citation, each
    spelled out against the segments and the tree. */
module ChunkFacts {
  import opened Wrappers
  import opened Utf8
  import opened Document
  import opened Segments
  import opened Windows
  import opened Chunks
  import opened ChunkGuarantees
  import opened PlanLaws
  import opened Lookup
  import opened Joining

  // ---- Which windows become which chunks ----

  /** The last window is short and continues the breadcrumb of the one before. */
  predicate ShortTail(cfg: Config, windows: seq<Window>) {
    && |windows| >= 2
    && (|Windows.Join(windows[|windows| - 1].texts)| + 3) / 4 < cfg.minTokens
    && windows[|windows| - 1].breadcrumb == windows[|windows| - 2].breadcrumb
  }

  /** Span and breadcrumb are those of the segments from `first.from` to `last.to`, the texts those of `first` and,
      if it is another window, those of `last` behind. */
  predicate SpansAs(cfg: Config, segs: seq<TextSegment>, byteStart: int, byteEnd: int, breadcrumb: seq<Text>,
                    texts: seq<Text>, first: Extent, last: Extent) {
    && first.from < first.to <= |segs| && last.from < last.to <= |segs|
    && byteStart == segs[first.from].byteStart
    && byteEnd == segs[last.to - 1].byteEnd
    && breadcrumb == segs[first.from].breadcrumb
    && texts == Clipped(cfg, segs[first.from..first.to])
              + (if first == last then [] else Clipped(cfg, segs[last.from..last.to]))
  }

  predicate SpansWindow(cfg: Config, segs: seq<TextSegment>, win: Window, first: Extent, last: Extent) {
    SpansAs(cfg, segs, win.byteStart, win.byteEnd, win.breadcrumb, win.texts, first, last)
  }

  predicate Spans(cfg: Config, segs: seq<TextSegment>, chunk: Chunk, first: Extent, last: Extent) {
    SpansAs(cfg, segs, chunk.byteStart, chunk.byteEnd, chunk.breadcrumb, chunk.texts, first, last)
  }

  /** Each window has the span, breadcrumb and texts of the segments of its extent. */
  predicate Renders(cfg: Config, segs: seq<TextSegment>, windows: seq<Window>, plan: seq<Extent>) {
    && |windows| == |plan|
    && forall k: nat | k < |plan| :: RendersOne(cfg, segs, windows[k], plan[k])
  }

  predicate RendersOne(cfg: Config, segs: seq<TextSegment>, win: Window, e: Extent) {
    && e.from < e.to <= |segs|
    && win.byteStart == segs[e.from].byteStart && win.byteEnd == segs[e.to - 1].byteEnd
    && win.breadcrumb == segs[e.from].breadcrumb
    && win.texts == Clipped(cfg, segs[e.from..e.to])
  }

  lemma PlanRenders(cfg: Config, segs: seq<TextSegment>)
    ensures Renders(cfg, segs, PlannedWindows(cfg, segs), Plan(cfg, segs, 0))
  {
    PlanInRange(cfg, segs, 0);
    forall k: nat | k < |Plan(cfg, segs, 0)|
      ensures RendersOne(cfg, segs, PlannedWindows(cfg, segs)[k], Plan(cfg, segs, 0)[k])
    {
      PlannedExtent(cfg, segs, 0, k);
    }
  }

  lemma TailDiffers(cfg: Config, segs: seq<TextSegment>)
    ensures var plan := Plan(cfg, segs, 0); |plan| >= 2 ==> plan[|plan| - 2] != plan[|plan| - 1]
  {
    var plan := Plan(cfg, segs, 0);
    if |plan| >= 2 {
      PlanTakesUp(cfg, segs, 0, |plan| - 2);
    }
  }

  /** The windows after the merge, one by one. */
  ghost predicate MergedRight(cfg: Config, segs: seq<TextSegment>, windows: seq<Window>, plan: seq<Extent>)
    requires Renders(cfg, segs, windows, plan)
  {
    var final := MergeTail(cfg, windows);
    && |final| == (if ShortTail(cfg, windows) then |plan| - 1 else |plan|)
    && forall k: nat | k < |final| :: SpansWindow(cfg, segs, final[k], plan[k], plan[if k == |final| - 1 then |plan| - 1 else k])
  }

  lemma MergeIsRight(cfg: Config, segs: seq<TextSegment>, windows: seq<Window>, plan: seq<Extent>)
    requires Renders(cfg, segs, windows, plan) && (|plan| >= 2 ==> plan[|plan| - 2] != plan[|plan| - 1])
    ensures MergedRight(cfg, segs, windows, plan)
  {
    var final := MergeTail(cfg, windows);
    forall k: nat | k < |final|
      ensures SpansWindow(cfg, segs, final[k], plan[k], plan[if k == |final| - 1 then |plan| - 1 else k])
    {
      assert RendersOne(cfg, segs, windows[k], plan[k]);
      assert RendersOne(cfg, segs, windows[|plan| - 1], plan[|plan| - 1]);
      if k < |final| - 1 || !Merges(cfg, windows) {
        assert final[k] == windows[k];
        assert windows[k].texts + [] == windows[k].texts;
      }
    }
  }

  ghost predicate ChunksFollow(
    cfg: Config, segs: seq<TextSegment>, windows: seq<Window>, plan: seq<Extent>, chunks: seq<Chunk>) {
    && |windows| == |plan|
    && |chunks| == (if ShortTail(cfg, windows) then |plan| - 1 else |plan|)
    && forall k: nat | k < |chunks| :: Spans(cfg, segs, chunks[k], plan[k], plan[if k == |chunks| - 1 then |plan| - 1 else k])
  }

  /** One chunk for each window of the plan, but for a short tail, which joins the chunk before; nothing else is
      merged, and each chunk has the span, breadcrumb and texts of its segments. */
  lemma ChunksAreWindows(cfg: Config, root: DocNode)
    ensures var segs := SegmentsOf(cfg, root);
      ChunksFollow(cfg, segs, PlannedWindows(cfg, segs), Plan(cfg, segs, 0), ChunksOf(cfg, root))
  {
    var segs := SegmentsOf(cfg, root);
    PlanRenders(cfg, segs);
    TailDiffers(cfg, segs);
    MergeIsRight(cfg, segs, PlannedWindows(cfg, segs), Plan(cfg, segs, 0));
    NumberedSpans(cfg, root, segs, PlannedWindows(cfg, segs), Plan(cfg, segs, 0));
  }

  lemma NumberedSpans(cfg: Config, root: DocNode, segs: seq<TextSegment>, windows: seq<Window>, plan: seq<Extent>)
    requires Renders(cfg, segs, windows, plan) && MergedRight(cfg, segs, windows, plan)
    ensures ChunksFollow(cfg, segs, windows, plan, Numbered(root, MergeTail(cfg, windows)))
  {
    var final := MergeTail(cfg, windows);
    var chunks := Numbered(root, final);
    forall k: nat | k < |chunks|
      ensures Spans(cfg, segs, chunks[k], plan[k], plan[if k == |chunks| - 1 then |plan| - 1 else k])
    {
      assert SpansWindow(cfg, segs, final[k], plan[k], plan[if k == |final| - 1 then |plan| - 1 else k]);
    }
  }

  // ---- What stands in a chunk ----

  /** The breadcrumb with ` \U{203A} ` between its entries, then a period and a space, then the texts; or the texts alone
      when there is no breadcrumb. */
  ghost predicate DenseIs(dense: Text, breadcrumb: seq<Text>, sparse: Text) {
    if breadcrumb == [] then dense == sparse
    else
      var n := |dense| - |sparse| - 2;
      && n >= 0
      && LaidOut(dense[..n], breadcrumb, [' ', '\U{E2}', '\U{80}', '\U{BA}', ' '])
      && dense[n..n + 2] == ". "
      && dense[n + 2..] == sparse
  }

  /** The positions, in source order, of the nodes that lie in the range. */
  function Inside(nodes: seq<DocNode>, from: int, to: int, n: nat): set<nat>
    requires n <= |nodes|
  {
    set i: nat | i < n && from <= nodes[i].attrs.byteStart && nodes[i].attrs.byteEnd <= to
  }

  /** Node `i` is a section with a citation that shares an octet with the range. */
  predicate Cites(node: DocNode, from: int, to: int) {
    node.nodeType == Section && node.attrs.citation.Some? && from < node.attrs.byteEnd && node.attrs.byteStart < to
  }

  /** The citation is that of the last such section in source order, and none if there is none. */
  ghost predicate NamedByLast(fqn: Option<Text>, nodes: seq<DocNode>, from: int, to: int) {
    if fqn.None? then forall node | node in nodes :: !Cites(node, from, to)
    else exists i :: 0 <= i < |nodes| && NamesFrom(fqn, nodes, from, to, i)
  }

  ghost predicate NamesFrom(fqn: Option<Text>, nodes: seq<DocNode>, from: int, to: int, i: nat)
    requires i < |nodes|
  {
    Cites(nodes[i], from, to) && nodes[i].attrs.citation == fqn && forall j | i < j < |nodes| :: !Cites(nodes[j], from, to)
  }

  /** Everything about chunk `k` that does not depend on how it was made. */
  ghost predicate WrittenRight(root: DocNode, chunks: seq<Chunk>, k: nat)
    requires k < |chunks|
  {
    var chunk := chunks[k];
    && chunk.chunkIndex == k && chunk.totalChunks == |chunks|
    && LaidOut(chunk.sparseText, chunk.texts, "\n\n")
    && DenseIs(chunk.denseText, chunk.breadcrumb, chunk.sparseText)
    && 4 * chunk.estimatedTokens - 4 < |chunk.sparseText| <= 4 * chunk.estimatedTokens
    && chunk.nodesTotal == |Preorder(root)|
    && chunk.nodesInBounds == |Inside(Preorder(root), chunk.byteStart, chunk.byteEnd, |Preorder(root)|)|
    && NamedByLast(chunk.fqn, Preorder(root), chunk.byteStart, chunk.byteEnd)
  }

  lemma {:induction false} CountIsSize(nodes: seq<DocNode>, from: int, to: int, n: nat)
    requires n <= |nodes|
    ensures CountWithin(nodes[..n], from, to) == |Inside(nodes, from, to, n)|
  {
    if n > 0 {
      CountIsSize(nodes, from, to, n - 1);
      CountConcat(nodes[..n - 1], [nodes[n - 1]], from, to);
      assert nodes[..n] == nodes[..n - 1] + [nodes[n - 1]] && [nodes[n - 1]][1..] == [];
      var before := Inside(nodes, from, to, n - 1);
      if Within(nodes[n - 1], from, to) {
        assert Inside(nodes, from, to, n) == before + {n - 1};
      } else {
        assert Inside(nodes, from, to, n) == before;
      }
    } else {
      assert Inside(nodes, from, to, 0) == {};
    }
  }

  lemma LastCitationNames(nodes: seq<DocNode>, from: int, to: int)
    ensures NamedByLast(LastCitation(Rust, nodes, from, to), nodes, from, to)
  {
    var n := LastHit(Rust, nodes, from, to);
    if n > 0 {
      assert NamesFrom(LastCitation(Rust, nodes, from, to), nodes, from, to, n - 1);
    }
  }

  lemma DenseTextIs(breadcrumb: seq<Text>, sparse: Text)
    ensures DenseIs(MakeDenseText(breadcrumb, sparse), breadcrumb, sparse)
  {
    if breadcrumb != [] {
      var crumbs, dense := JoinCrumbs(breadcrumb), MakeDenseText(breadcrumb, sparse);
      JoinIsLaidOut(breadcrumb, CRUMB_SEPARATOR);
      assert dense[..|crumbs|] == crumbs;
      assert dense[|crumbs|..|crumbs| + 2] == ". " && dense[|crumbs| + 2..] == sparse;
    }
  }

  lemma WindowWrittenRight(root: DocNode, windows: seq<Window>, k: nat)
    requires k < |windows|
    ensures WrittenRight(root, Numbered(root, windows), k)
  {
    var win, nodes := windows[k], Preorder(root);
    JoinIsLaidOut(win.texts, "\n\n");
    DenseTextIs(win.breadcrumb, Windows.Join(win.texts));
    assert nodes[..|nodes|] == nodes;
    CountIsSize(nodes, win.byteStart, win.byteEnd, |nodes|);
    LastCitationNames(nodes, win.byteStart, win.byteEnd);
  }

  /** Every chunk of every document is written out right. */
  lemma ChunksAreWrittenRight(cfg: Config, root: DocNode)
    ensures forall k: nat | k < |ChunksOf(cfg, root)| :: WrittenRight(root, ChunksOf(cfg, root), k)
  {
    forall k: nat | k < |ChunksOf(cfg, root)|
      ensures WrittenRight(root, ChunksOf(cfg, root), k)
    {
      WindowWrittenRight(root, FinalWindows(cfg, root), k);
    }
  }

  // ---- How a text is cut ----

  /** A text over the budget is cut to its longest prefix of whole characters within the budget's octets; all others
      stay whole. */
  lemma CutIsLongest(cfg: Config, seg: TextSegment)
    requires Valid(seg.text)
    ensures var kept, budget := |Clip(cfg, seg)|, 4 * cfg.maxTokens;
      && Clip(cfg, seg) <= seg.text
      && (|seg.text| <= budget <==> kept == |seg.text|)
      && (|seg.text| > budget ==>
            && budget - 3 <= kept <= budget && Boundary(seg.text, kept)
            && forall j | kept < j <= budget :: !Boundary(seg.text, j))
  {
    FloorLosesAtMostThree(seg.text, Min(cfg.maxTokens * CHARS_PER_TOKEN, |seg.text|));
  }
}
