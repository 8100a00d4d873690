/** What the chunks of a document guarantee, from the tree to the final windows. */
module ChunkGuarantees {
  import opened Utf8
  import opened Document
  import opened Segments
  import opened Windows
  import opened Packing
  import opened Chunks

  ghost predicate ValidTexts(segs: seq<TextSegment>) {
    forall k | 0 <= k < |segs| :: Valid(segs[k].text)
  }

  /** A positive budget, or no pre-splitting: otherwise splitting turns every segment into "". */
  predicate Sensible(cfg: Config) {
    cfg.recursive ==> cfg.maxTokens >= 1
  }

  // ---- The prepared segments ----

  lemma {:induction false} SplitAllIsLossless(segs: seq<TextSegment>, maxTokens: nat)
    requires ValidTexts(segs) && NoEmptyText(segs) && maxTokens >= 1
    ensures Concat(Texts(SplitAll(segs, maxTokens))) == Concat(Texts(segs))
  {
    if segs != [] {
      SplitAllIsLossless(segs[1..], maxTokens);
      SplitIsLossless(segs[0], maxTokens);
      var head, tail := SplitPieces(segs[0], maxTokens), SplitAll(segs[1..], maxTokens);
      TextsAppend(head, tail);
      ConcatAppend(Texts(head), Texts(tail));
      assert Texts(segs)[1..] == Texts(segs[1..]);
    }
  }

  lemma TextsAppend(a: seq<TextSegment>, b: seq<TextSegment>)
    ensures Texts(a + b) == Texts(a) + Texts(b)
  {
  }

  lemma {:induction false} SplitAllFits(segs: seq<TextSegment>, maxTokens: nat)
    requires ValidTexts(segs) && NoEmptyText(segs) && maxTokens >= 1
    ensures NoEmptyText(SplitAll(segs, maxTokens)) && ValidTexts(SplitAll(segs, maxTokens))
    ensures forall s | s in SplitAll(segs, maxTokens) :: EstimateTokens(s.text) <= maxTokens
  {
    if segs != [] {
      SplitAllFits(segs[1..], maxTokens);
      SplitIsLossless(segs[0], maxTokens);
    }
  }

  lemma {:induction false} ZeroBudgetErases(segs: seq<TextSegment>)
    requires NoEmptyText(segs)
    ensures Concat(Texts(SplitAll(segs, 0))) == []
  {
    if segs != [] {
      ZeroBudgetErases(segs[1..]);
      var piece := Piece(segs[0], 0, 0);
      assert SplitPieces(segs[0], 0) == [piece];
      assert Texts(SplitAll(segs, 0)) == [piece.text] + Texts(SplitAll(segs[1..], 0));
    }
  }

  lemma PreparedSegments(cfg: Config, root: DocNode)
    requires ValidTexts(WalkDocNode(root)) && Sensible(cfg)
    ensures NoEmptyText(SegmentsOf(cfg, root)) && ValidTexts(SegmentsOf(cfg, root))
    ensures Concat(Texts(SegmentsOf(cfg, root))) == Concat(LeafTexts(Preorder(root)))
    ensures cfg.recursive ==> forall s | s in SegmentsOf(cfg, root) :: !Oversized(cfg, s)
  {
    WalkKeepsLeaves(Preorder(root), []);
    if cfg.recursive {
      SplitAllIsLossless(WalkDocNode(root), cfg.maxTokens);
      SplitAllFits(WalkDocNode(root), cfg.maxTokens);
    }
  }

  lemma {:induction false} ZeroBudgetEmpties(segs: seq<TextSegment>)
    requires NoEmptyText(segs)
    ensures forall s | s in SplitAll(segs, 0) :: s.text == []
  {
    if segs != [] {
      ZeroBudgetEmpties(segs[1..]);
      assert SplitPieces(segs[0], 0) == [Piece(segs[0], 0, 0)];
    }
  }

  /** The segments of a document are uniform under every configuration. */
  lemma PreparedUniform(cfg: Config, root: DocNode)
    requires ValidTexts(WalkDocNode(root))
    ensures Uniform(SegmentsOf(cfg, root))
  {
    if Sensible(cfg) {
      PreparedSegments(cfg, root);
    } else {
      WalkKeepsLeaves(Preorder(root), []);
      ZeroBudgetEmpties(WalkDocNode(root));
    }
  }

  // ---- Which texts a window holds ----

  function Clipped(cfg: Config, segs: seq<TextSegment>): (texts: seq<Text>)
    ensures |texts| == |segs|
  {
    seq(|segs|, i requires 0 <= i < |segs| => Clip(cfg, segs[i]))
  }

  lemma {:induction false} OnlyLastOversized(cfg: Config, segs: seq<TextSegment>, start: nat, idx: nat)
    requires start <= idx <= |segs|
    ensures forall k | idx <= k < FillEnd(cfg, segs, start, idx) - 1 :: !Oversized(cfg, segs[k])
    decreases |segs| - idx
  {
    if idx < |segs| && !Flushes(cfg, segs, start, idx) && !Oversized(cfg, segs[idx]) {
      OnlyLastOversized(cfg, segs, start, idx + 1);
    }
  }

  lemma WindowTexts(cfg: Config, segs: seq<TextSegment>, start: nat)
    requires start < |segs|
    ensures var end := FillEnd(cfg, segs, start, start);
      WindowOf(cfg, segs, start, end).texts == Clipped(cfg, segs[start..end])
  {
    OnlyLastOversized(cfg, segs, start, start);
  }

  lemma {:induction false} PlannedExtent(cfg: Config, segs: seq<TextSegment>, start: nat, k: nat)
    requires start <= |segs| && k < |Plan(cfg, segs, start)|
    ensures var e := Plan(cfg, segs, start)[k];
      && e.from < e.to <= |segs|
      && e.to == FillEnd(cfg, segs, e.from, e.from)
      && WindowOf(cfg, segs, e.from, e.to).texts == Clipped(cfg, segs[e.from..e.to])
    decreases k
  {
    var end := FillEnd(cfg, segs, start, start);
    WindowTexts(cfg, segs, start);
    if k > 0 {
      PlannedExtent(cfg, segs, NextStart(cfg, segs, start, end), k - 1);
    }
  }

  /** Everything the plan says about its `k`-th window. */
  lemma PlannedWindow(cfg: Config, segs: seq<TextSegment>, k: nat) returns (e: Extent)
    requires NoEmptyText(segs) && k < |PlannedWindows(cfg, segs)|
    ensures Feasible(cfg, segs, e.from, e.to)
    ensures PlannedWindows(cfg, segs)[k] == WindowOf(cfg, segs, e.from, e.to)
    ensures PlannedWindows(cfg, segs)[k].texts == Clipped(cfg, segs[e.from..e.to])
  {
    PlanInRange(cfg, segs, 0);
    PlannedExtent(cfg, segs, 0, k);
    e := Plan(cfg, segs, 0)[k];
    FillEndIsMaximal(cfg, segs, e.from, e.from);
  }

  // ---- Lossless chunking ----

  function AllTexts(windows: seq<Window>): seq<Text> {
    if windows == [] then [] else windows[0].texts + AllTexts(windows[1..])
  }

  lemma {:induction false} AllTextsAppend(a: seq<Window>, b: seq<Window>)
    ensures AllTexts(a + b) == AllTexts(a) + AllTexts(b)
  {
    if a == [] {
      assert a + b == b;
    } else {
      assert (a + b)[1..] == a[1..] + b;
      AllTextsAppend(a[1..], b);
    }
  }

  lemma MergeKeepsTexts(cfg: Config, windows: seq<Window>)
    ensures AllTexts(MergeTail(cfg, windows)) == AllTexts(windows)
  {
    if Merges(cfg, windows) {
      var n := |windows|;
      var prev, last := windows[n - 2], windows[n - 1];
      assert windows == windows[..n - 2] + [prev, last];
      AllTextsAppend(windows[..n - 2], [prev, last]);
      AllTextsAppend(windows[..n - 2], [Merged(prev, last)]);
      assert [prev, last][1..] == [last];
      assert AllTexts([last]) == last.texts;
    }
  }

  lemma {:induction false} WithoutOverlapAllTexts(cfg: Config, segs: seq<TextSegment>, start: nat)
    requires start <= |segs| && !cfg.overlapping
    ensures InRangeOf(segs, Plan(cfg, segs, start))
    ensures AllTexts(Render(cfg, segs, Plan(cfg, segs, start))) == Clipped(cfg, segs[start..])
    decreases |segs| - start
  {
    PlanInRange(cfg, segs, start);
    if start < |segs| {
      var end := FillEnd(cfg, segs, start, start);
      WithoutOverlapAllTexts(cfg, segs, end);
      WindowTexts(cfg, segs, start);
      assert Plan(cfg, segs, start)[1..] == Plan(cfg, segs, end);
      ClippedSplits(cfg, segs, start, end);
    }
  }

  lemma ClippedSplits(cfg: Config, segs: seq<TextSegment>, start: nat, end: nat)
    requires start <= end <= |segs|
    ensures Clipped(cfg, segs[start..]) == Clipped(cfg, segs[start..end]) + Clipped(cfg, segs[end..])
  {
    assert segs[start..] == segs[start..end] + segs[end..];
  }

  /** Clipping an oversized segment always loses bytes. */
  lemma {:induction false} ClippingLoses(cfg: Config, segs: seq<TextSegment>)
    ensures |Concat(Clipped(cfg, segs))| <= |Concat(Texts(segs))|
    ensures (forall s | s in segs :: !Oversized(cfg, s)) ==> Clipped(cfg, segs) == Texts(segs)
    ensures |Concat(Clipped(cfg, segs))| == |Concat(Texts(segs))| ==> forall s | s in segs :: !Oversized(cfg, s)
  {
    if segs != [] {
      ClippingLoses(cfg, segs[1..]);
      assert Clipped(cfg, segs)[1..] == Clipped(cfg, segs[1..]);
      assert Texts(segs)[1..] == Texts(segs[1..]);
      assert segs == [segs[0]] + segs[1..];
    }
  }

  lemma FinalTexts(cfg: Config, root: DocNode)
    requires !cfg.overlapping
    ensures AllTexts(FinalWindows(cfg, root)) == Clipped(cfg, SegmentsOf(cfg, root))
  {
    var segs := SegmentsOf(cfg, root);
    WithoutOverlapAllTexts(cfg, segs, 0);
    MergeKeepsTexts(cfg, PlannedWindows(cfg, segs));
    assert segs[0..] == segs;
  }

  /** When chunking loses nothing: the texts are pre-split with a positive budget, or none of them
      needs splitting. */
  ghost predicate Fits(cfg: Config, root: DocNode) {
    || (cfg.recursive && cfg.maxTokens >= 1)
    || forall t | t in LeafTexts(Preorder(root)) :: |t| <= CHARS_PER_TOKEN * cfg.maxTokens
  }

  /** Lossless chunking, with its exact condition: without overlap, the texts of the final windows
      concatenate to the tree's leaf texts if and only if `Fits`. */
  lemma LosslessIffFits(cfg: Config, root: DocNode)
    requires ValidTexts(WalkDocNode(root)) && !cfg.overlapping
    ensures Concat(AllTexts(FinalWindows(cfg, root))) == Concat(LeafTexts(Preorder(root))) <==> Fits(cfg, root)
  {
    FinalTexts(cfg, root);
    WalkKeepsLeaves(Preorder(root), []);
    if Sensible(cfg) {
      SensibleLossless(cfg, root);
    } else {
      ZeroBudgetLoses(cfg, WalkDocNode(root));
    }
  }

  lemma SensibleLossless(cfg: Config, root: DocNode)
    requires ValidTexts(WalkDocNode(root)) && Sensible(cfg)
    ensures Concat(Clipped(cfg, SegmentsOf(cfg, root))) == Concat(LeafTexts(Preorder(root))) <==> Fits(cfg, root)
  {
    PreparedSegments(cfg, root);
    ClippingLoses(cfg, SegmentsOf(cfg, root));
    if !cfg.recursive {
      WalkKeepsLeaves(Preorder(root), []);
      FitsMeansNotOversized(cfg, WalkDocNode(root));
    }
  }

  lemma ZeroBudgetLoses(cfg: Config, raw: seq<TextSegment>)
    requires NoEmptyText(raw) && !Sensible(cfg)
    ensures Concat(Clipped(cfg, Prepared(cfg, raw))) == Concat(Texts(raw)) <==> forall t | t in Texts(raw) :: |t| <= 0
  {
    ZeroBudgetErases(raw);
    ClippingLoses(cfg, Prepared(cfg, raw));
    if raw != [] {
      assert Texts(raw)[0] == raw[0].text && Texts(raw)[0] in Texts(raw);
    }
  }

  lemma FitsMeansNotOversized(cfg: Config, segs: seq<TextSegment>)
    ensures (forall t | t in Texts(segs) :: |t| <= CHARS_PER_TOKEN * cfg.maxTokens)
       <==> (forall s | s in segs :: !Oversized(cfg, s))
  {
    if forall t | t in Texts(segs) :: |t| <= CHARS_PER_TOKEN * cfg.maxTokens {
      forall s | s in segs
        ensures !Oversized(cfg, s)
      {
        var k :| 0 <= k < |segs| && segs[k] == s;
        assert Texts(segs)[k] in Texts(segs);
      }
    }
    if forall s | s in segs :: !Oversized(cfg, s) {
      forall t | t in Texts(segs)
        ensures |t| <= CHARS_PER_TOKEN * cfg.maxTokens
      {
        var k :| 0 <= k < |segs| && Texts(segs)[k] == t;
        assert segs[k] in segs;
      }
    }
  }

  // ---- Truncation ----

  lemma CutWindow(cfg: Config, segs: seq<TextSegment>, k: nat) returns (s: nat)
    requires NoEmptyText(segs) && ValidTexts(segs) && k < |PlannedWindows(cfg, segs)|
    ensures s < |segs| && segs[s] in segs
    ensures PlannedWindows(cfg, segs)[k].truncated ==>
      && Oversized(cfg, segs[s])
      && PlannedWindows(cfg, segs)[k].texts == [Clip(cfg, segs[s])]
      && Clip(cfg, segs[s]) < segs[s].text
  {
    var e := PlannedWindow(cfg, segs, k);
    s := e.to - 1;
    assert segs[s] in segs;
  }

  /** A truncated window holds exactly one text, cut from one segment; pre-splitting leaves none. */
  lemma TruncationStandsAlone(cfg: Config, root: DocNode, k: nat) returns (s: nat)
    requires ValidTexts(WalkDocNode(root)) && Sensible(cfg)
    requires k < |PlannedWindows(cfg, SegmentsOf(cfg, root))|
    ensures var segs, win := SegmentsOf(cfg, root), PlannedWindows(cfg, SegmentsOf(cfg, root))[k];
      && s < |segs|
      && (cfg.recursive ==> !win.truncated)
      && (win.truncated ==>
            && Oversized(cfg, segs[s])
            && win.texts == [Clip(cfg, segs[s])]
            && Clip(cfg, segs[s]) < segs[s].text)
  {
    PreparedSegments(cfg, root);
    s := CutWindow(cfg, SegmentsOf(cfg, root), k);
  }

  // ---- One breadcrumb per chunk ----

  /** Every text comes, clipped, from the named segment, and all these have the given breadcrumb. */
  ghost predicate SourcedFrom(
    cfg: Config, segs: seq<TextSegment>, texts: seq<Text>, breadcrumb: seq<Text>, source: seq<nat>) {
    && |source| == |texts|
    && forall i | 0 <= i < |source| ::
         && source[i] < |segs|
         && texts[i] == Clip(cfg, segs[source[i]])
         && breadcrumb == segs[source[i]].breadcrumb
  }

  /** A final chunk mixes only segments of its own breadcrumb. */
  lemma ChunkHasOneBreadcrumb(cfg: Config, root: DocNode, k: nat) returns (source: seq<nat>)
    requires ValidTexts(WalkDocNode(root)) && Sensible(cfg) && k < |ChunksOf(cfg, root)|
    ensures var segs, chunk := SegmentsOf(cfg, root), ChunksOf(cfg, root)[k];
      source != [] && SourcedFrom(cfg, segs, chunk.texts, chunk.breadcrumb, source)
  {
    var segs := SegmentsOf(cfg, root);
    var windows := PlannedWindows(cfg, segs);
    source := WindowSource(cfg, root, k);
    if Merges(cfg, windows) && k == |windows| - 2 {
      var more := WindowSource(cfg, root, k + 1);
      SourcesJoin(cfg, segs, windows[k], windows[k + 1], source, more);
      source := source + more;
    }
  }

  lemma SourcesJoin(cfg: Config, segs: seq<TextSegment>, prev: Window, last: Window, a: seq<nat>, b: seq<nat>)
    requires SourcedFrom(cfg, segs, prev.texts, prev.breadcrumb, a)
    requires SourcedFrom(cfg, segs, last.texts, last.breadcrumb, b) && prev.breadcrumb == last.breadcrumb
    ensures SourcedFrom(cfg, segs, Merged(prev, last).texts, prev.breadcrumb, a + b)
  {
  }

  lemma WindowSource(cfg: Config, root: DocNode, k: nat) returns (source: seq<nat>)
    requires ValidTexts(WalkDocNode(root)) && Sensible(cfg)
    requires k < |PlannedWindows(cfg, SegmentsOf(cfg, root))|
    ensures var segs, win := SegmentsOf(cfg, root), PlannedWindows(cfg, SegmentsOf(cfg, root))[k];
      source != [] && SourcedFrom(cfg, segs, win.texts, win.breadcrumb, source)
  {
    PreparedSegments(cfg, root);
    var segs := SegmentsOf(cfg, root);
    var e := PlannedWindow(cfg, segs, k);
    source := ExtentSource(cfg, segs, e.from, e.to);
  }

  lemma ExtentSource(cfg: Config, segs: seq<TextSegment>, from: nat, to: nat) returns (source: seq<nat>)
    requires Feasible(cfg, segs, from, to)
    ensures SourcedFrom(cfg, segs, Clipped(cfg, segs[from..to]), segs[from].breadcrumb, source)
  {
    source := seq(to - from, i => from + i);
    forall i | 0 <= i < to - from
      ensures segs[from..to][i] == segs[source[i]] && segs[from].breadcrumb == segs[source[i]].breadcrumb
    {
    }
  }

  // ---- Chunk size ----

  lemma {:induction false} JoinLength(texts: seq<Text>)
    ensures |Join(texts)| == |Concat(texts)| + (if texts == [] then 0 else 2 * (|texts| - 1))
  {
    if |texts| == 1 {
      assert texts[1..] == [];
    } else if |texts| > 1 {
      JoinLength(texts[1..]);
    }
  }

  lemma {:induction false} ClippedLength(cfg: Config, segs: seq<TextSegment>, from: nat, to: nat)
    requires from <= to <= |segs|
    ensures |Concat(Clipped(cfg, segs[from..to]))| <= CHARS_PER_TOKEN * Sum(segs, from, to)
  {
    if from < to {
      ClippedLength(cfg, segs, from, to - 1);
      var before, last := Clipped(cfg, segs[from..to - 1]), [Clip(cfg, segs[to - 1])];
      assert Clipped(cfg, segs[from..to]) == before + last;
      ConcatAppend(before, last);
      assert Concat(last) == last[0];
    }
  }

  lemma WindowTokens(cfg: Config, segs: seq<TextSegment>, from: nat, to: nat)
    requires NoEmptyText(segs) && Feasible(cfg, segs, from, to)
    ensures EstimateTokens(Join(Clipped(cfg, segs[from..to]))) <= cfg.maxTokens + cfg.maxTokens / 2
  {
    var texts := Clipped(cfg, segs[from..to]);
    JoinLength(texts);
    if to == from + 1 {
      assert texts == [Clip(cfg, segs[from])];
    } else {
      ClippedLength(cfg, segs, from, to);
      SumPositive(segs, from, to);
      assert Sum(segs, from, to) <= EffectiveMax(cfg, segs[to - 1]);
    }
  }

  lemma PlannedWindowTokens(cfg: Config, root: DocNode, k: nat)
    requires ValidTexts(WalkDocNode(root)) && Sensible(cfg)
    requires k < |PlannedWindows(cfg, SegmentsOf(cfg, root))|
    ensures EstimateTokens(Join(PlannedWindows(cfg, SegmentsOf(cfg, root))[k].texts)) <= cfg.maxTokens + cfg.maxTokens / 2
  {
    PreparedSegments(cfg, root);
    var segs := SegmentsOf(cfg, root);
    var e := PlannedWindow(cfg, segs, k);
    WindowTokens(cfg, segs, e.from, e.to);
  }

  /** The size bound on every final chunk, whatever the overlap. */
  lemma ChunkSizeBound(cfg: Config, root: DocNode, k: nat)
    requires ValidTexts(WalkDocNode(root)) && Sensible(cfg) && k < |ChunksOf(cfg, root)|
    ensures ChunksOf(cfg, root)[k].estimatedTokens <= cfg.maxTokens + cfg.maxTokens / 2 + cfg.minTokens
  {
    var windows := PlannedWindows(cfg, SegmentsOf(cfg, root));
    PlannedWindowTokens(cfg, root, k);
    if Merges(cfg, windows) && k == |windows| - 2 {
      var prev, last := windows[k], windows[k + 1];
      JoinAppend(prev.texts, last.texts);
    }
  }

  lemma JoinAppend(a: seq<Text>, b: seq<Text>)
    ensures |Join(a + b)| <= |Join(a)| + 2 + |Join(b)|
  {
    JoinLength(a);
    JoinLength(b);
    JoinLength(a + b);
    ConcatAppend(a, b);
  }

  // ---- Counting windows ----

  /** At document level: no feasible partition of the segments needs fewer windows than the plan, and
      merging the tail saves at most one more. */
  lemma FewestChunks(cfg: Config, root: DocNode, other: seq<Extent>)
    requires ValidTexts(WalkDocNode(root)) && Sensible(cfg) && !cfg.overlapping
    requires IsPartition(cfg, SegmentsOf(cfg, root), 0, other)
    ensures |ChunksOf(cfg, root)| <= |PlannedWindows(cfg, SegmentsOf(cfg, root))| <= |other|
    ensures |ChunksOf(cfg, root)| >= |PlannedWindows(cfg, SegmentsOf(cfg, root))| - 1
  {
    PreparedSegments(cfg, root);
    GreedyIsOptimal(cfg, SegmentsOf(cfg, root));
    MergeDropsAtMostOne(cfg, PlannedWindows(cfg, SegmentsOf(cfg, root)));
  }

  lemma MergeDropsAtMostOne(cfg: Config, windows: seq<Window>)
    ensures |windows| - 1 <= |MergeTail(cfg, windows)| <= |windows|
  {
  }

  /** Whatever the overlap, there are never more chunks than segments. */
  lemma NoMoreChunksThanSegments(cfg: Config, root: DocNode)
    requires ValidTexts(WalkDocNode(root))
    ensures |ChunksOf(cfg, root)| <= |SegmentsOf(cfg, root)|
  {
    PreparedUniform(cfg, root);
    PlanProgresses(cfg, SegmentsOf(cfg, root), 0);
    MergeDropsAtMostOne(cfg, PlannedWindows(cfg, SegmentsOf(cfg, root)));
  }
}
