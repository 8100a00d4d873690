/** Which chunks are marked as truncated: when a cut text keeps its mark through the merge of the tail. */
module ChunkMarks {
  import opened Wrappers
  import opened Utf8
  import opened Document
  import opened Segments
  import opened Windows
  import opened Packing
  import opened Chunks
  import opened ChunkGuarantees

  /** The final window that receives the texts of the planned window `k`. */
  function FinalIndex(cfg: Config, windows: seq<Window>, k: nat): (f: nat)
    requires k < |windows|
    ensures f < |MergeTail(cfg, windows)|
  {
    if Merges(cfg, windows) && k == |windows| - 1 then k - 1 else k
  }

  /** Every final window that receives a cut text is marked. */
  ghost predicate KeepsMarks(cfg: Config, root: DocNode) {
    var windows := PlannedWindows(cfg, SegmentsOf(cfg, root));
    forall k | 0 <= k < |windows| && windows[k].truncated ::
      FinalWindows(cfg, root)[FinalIndex(cfg, windows, k)].truncated
  }

  /** The mark of a planned window is right: it is set exactly when the window holds a cut text. */
  lemma MarkIsRight(cfg: Config, segs: seq<TextSegment>, k: nat) returns (e: Extent)
    requires k < |PlannedWindows(cfg, segs)|
    ensures e.from < e.to <= |segs|
    ensures PlannedWindows(cfg, segs)[k].texts == Clipped(cfg, segs[e.from..e.to])
    ensures PlannedWindows(cfg, segs)[k].truncated <==> exists s :: e.from <= s < e.to && Oversized(cfg, segs[s])
  {
    PlanInRange(cfg, segs, 0);
    PlannedExtent(cfg, segs, 0, k);
    e := Plan(cfg, segs, 0)[k];
    OnlyLastOversized(cfg, segs, e.from, e.from);
    assert PlannedWindows(cfg, segs)[k] == WindowOf(cfg, segs, e.from, e.to);
  }

  lemma MergeKeepsMarks(cfg: Config, windows: seq<Window>, k: nat)
    requires Merges(cfg, windows) && windows[|windows| - 1].truncated ==> windows[|windows| - 2].truncated
    requires k < |windows| && windows[k].truncated
    ensures MergeTail(cfg, windows)[FinalIndex(cfg, windows, k)].truncated
  {
  }

  lemma MergeKeepsMarksUnless(cfg: Config, root: DocNode)
    requires var windows := PlannedWindows(cfg, SegmentsOf(cfg, root));
      Merges(cfg, windows) && windows[|windows| - 1].truncated ==> windows[|windows| - 2].truncated
    ensures KeepsMarks(cfg, root)
  {
    var windows := PlannedWindows(cfg, SegmentsOf(cfg, root));
    forall k | 0 <= k < |windows| && windows[k].truncated
      ensures FinalWindows(cfg, root)[FinalIndex(cfg, windows, k)].truncated
    {
      MergeKeepsMarks(cfg, windows, k);
    }
  }

  /** With a minimum up to the maximum, a cut tail is never short enough to be merged. */
  lemma CutTailStays(cfg: Config, root: DocNode)
    requires ValidTexts(WalkDocNode(root)) && Sensible(cfg) && cfg.minTokens <= cfg.maxTokens
    ensures var windows := PlannedWindows(cfg, SegmentsOf(cfg, root));
      Merges(cfg, windows) ==> !windows[|windows| - 1].truncated
  {
    var windows := PlannedWindows(cfg, SegmentsOf(cfg, root));
    if Merges(cfg, windows) {
      PreparedSegments(cfg, root);
      var s := TruncationStandsAlone(cfg, root, |windows| - 1);
      if windows[|windows| - 1].truncated {
        FloorLosesAtMostThree(SegmentsOf(cfg, root)[s].text, cfg.maxTokens * CHARS_PER_TOKEN);
      }
    }
  }

  lemma SegmentsDecide(cfg: Config, segs: seq<TextSegment>, k: nat)
    requires k < |PlannedWindows(cfg, segs)|
    ensures (forall s | s in segs :: !Oversized(cfg, s)) ==> !PlannedWindows(cfg, segs)[k].truncated
    ensures (forall s | s in segs :: Oversized(cfg, s)) ==> PlannedWindows(cfg, segs)[k].truncated
  {
    PlanInRange(cfg, segs, 0);
    var last := Plan(cfg, segs, 0)[k].to - 1;
    assert segs[last] in segs;
    assert PlannedWindows(cfg, segs)[k].truncated == Oversized(cfg, segs[last]);
  }

  /** Pre-splitting leaves nothing to cut; with a budget of 0 and no pre-splitting everything is cut. */
  lemma AllOrNothingCut(cfg: Config, root: DocNode)
    requires ValidTexts(WalkDocNode(root))
    ensures cfg.recursive ==> forall s | s in SegmentsOf(cfg, root) :: !Oversized(cfg, s)
    ensures !cfg.recursive && cfg.maxTokens == 0 ==> forall s | s in SegmentsOf(cfg, root) :: Oversized(cfg, s)
  {
    WalkKeepsLeaves(Preorder(root), []);
    if Sensible(cfg) {
      PreparedSegments(cfg, root);
    } else {
      ZeroBudgetEmpties(WalkDocNode(root));
    }
  }

  // ---- How a mark is lost ----

  function Letters(n: nat): (t: Text)
    ensures |t| == n
  {
    seq(n, _ => 'a')
  }

  function TwoParagraphs(a: Text, b: Text): DocNode {
    DocNode(DocNodeType.Document, None,
            [DocNode(Paragraph, Some(a), [], Span(0, |a|)), DocNode(Paragraph, Some(b), [], Span(|a|, |a| + |b|))],
            Span(0, |a| + |b|))
  }

  lemma SegmentsOfTwo(a: Text, b: Text)
    requires a != [] && b != []
    ensures WalkDocNode(TwoParagraphs(a, b))
         == [TextSegment(a, Paragraph, 0, |a|, []), TextSegment(b, Paragraph, |a|, |a| + |b|, [])]
  {
    var root := TwoParagraphs(a, b);
    var p, q := root.children[0], root.children[1];
    assert root.children[1..] == [q] && [q][1..] == [];
    assert PreorderAll(p.children) == [] && PreorderAll(q.children) == [];
    assert Preorder(p) == [p] && Preorder(q) == [q];
    assert PreorderAll([q]) == [q] && PreorderAll(root.children) == [p, q];
    var nodes := Preorder(root);
    assert nodes == [root, p, q] && nodes[1..] == [p, q] && nodes[1..][1..] == [q] && [q][1..] == [];
    assert FoldSegments([q], []) == [TextSegment(b, Paragraph, |a|, |a| + |b|, [])];
    assert FoldSegments([p, q], []) == [TextSegment(a, Paragraph, 0, |a|, [])] + FoldSegments([q], []);
  }

  /** Outside the condition: one letter, then a paragraph one octet over the budget. The second is cut,
      merged for being short, and nothing marks the one chunk that is left. */
  lemma MarkIsLost(cfg: Config, n: nat, root: DocNode)
    requires !cfg.recursive && 0 < cfg.maxTokens < cfg.minTokens && n == CHARS_PER_TOKEN * cfg.maxTokens
    requires root == TwoParagraphs(Letters(1), Letters(n + 1))
    ensures ValidTexts(WalkDocNode(root)) && !KeepsMarks(cfg, root)
    ensures |ChunksOf(cfg, root)| == 1 && !ChunksOf(cfg, root)[0].truncated
    ensures ChunksOf(cfg, root)[0].texts == [Letters(1), Letters(n)]
  {
    LetterSegments(n, root);
    LettersMerge(cfg, root, n);
  }

  lemma {:induction false} LettersMerge(cfg: Config, root: DocNode, n: nat)
    requires !cfg.recursive && 0 < cfg.maxTokens < cfg.minTokens && n == CHARS_PER_TOKEN * cfg.maxTokens
    requires WalkDocNode(root)
          == [TextSegment(Letters(1), Paragraph, 0, 1, []), TextSegment(Letters(n + 1), Paragraph, 1, n + 2, [])]
    ensures !KeepsMarks(cfg, root) && |ChunksOf(cfg, root)| == 1
    ensures ChunksOf(cfg, root)[0].texts == [Letters(1), Letters(n)] && !ChunksOf(cfg, root)[0].truncated
  {
    LetterWindows(cfg, WalkDocNode(root));
    TailIsMerged(cfg, root, Letters(1), Letters(n));
  }

  lemma LetterSegments(n: nat, root: DocNode)
    requires root == TwoParagraphs(Letters(1), Letters(n + 1))
    ensures WalkDocNode(root)
         == [TextSegment(Letters(1), Paragraph, 0, 1, []), TextSegment(Letters(n + 1), Paragraph, 1, n + 2, [])]
    ensures ValidTexts(WalkDocNode(root))
  {
    SegmentsOfTwo(Letters(1), Letters(n + 1));
    AsciiValid(Letters(1));
    AsciiValid(Letters(n + 1));
  }

  lemma LetterWindows(cfg: Config, segs: seq<TextSegment>)
    requires cfg.maxTokens > 0
    requires var n := CHARS_PER_TOKEN * cfg.maxTokens;
      segs == [TextSegment(Letters(1), Paragraph, 0, 1, []), TextSegment(Letters(n + 1), Paragraph, 1, n + 2, [])]
    ensures var n := CHARS_PER_TOKEN * cfg.maxTokens;
      PlannedWindows(cfg, segs) == [Window([Letters(1)], 0, 1, [], false), Window([Letters(n)], 1, n + 2, [], true)]
  {
    CutIsShort(cfg, segs[1]);
    assert Sum(segs, 0, 1) == Sum(segs, 0, 0) + EstimateTokens(segs[0].text);
    TwoAlone(cfg, segs);
  }

  lemma TailIsMerged(cfg: Config, root: DocNode, a: Text, b: Text)
    requires EstimateTokens(b) < cfg.minTokens
    requires PlannedWindows(cfg, SegmentsOf(cfg, root))
          == [Window([a], 0, 1, [], false), Window([b], 1, |b| + 2, [], true)]
    ensures !KeepsMarks(cfg, root) && |ChunksOf(cfg, root)| == 1
    ensures ChunksOf(cfg, root)[0].texts == [a, b] && !ChunksOf(cfg, root)[0].truncated
  {
    var windows := PlannedWindows(cfg, SegmentsOf(cfg, root));
    assert Join([b]) == b;
    assert Merges(cfg, windows) && windows[1].truncated;
    assert FinalWindows(cfg, root) == [Merged(windows[0], windows[1])];
  }

  lemma CutIsShort(cfg: Config, seg: TextSegment)
    requires seg.text == Letters(CHARS_PER_TOKEN * cfg.maxTokens + 1)
    ensures Oversized(cfg, seg) && Clip(cfg, seg) == Letters(CHARS_PER_TOKEN * cfg.maxTokens)
  {
    var n := CHARS_PER_TOKEN * cfg.maxTokens;
    assert seg.text[n] == 'a';
    assert seg.text[..n] == Letters(n);
  }

  /** The exact condition on the configuration: under it, and only under it, every chunk of every document
      that holds a cut text says so. */
  lemma {:induction false} MarksKeptIff(cfg: Config)
    ensures (forall root | ValidTexts(WalkDocNode(root)) :: KeepsMarks(cfg, root))
       <==> cfg.recursive || cfg.minTokens <= cfg.maxTokens || cfg.maxTokens == 0
  {
    if cfg.recursive || cfg.minTokens <= cfg.maxTokens || cfg.maxTokens == 0 {
      forall root | ValidTexts(WalkDocNode(root))
        ensures KeepsMarks(cfg, root)
      {
        ConditionKeepsMarks(cfg, root);
      }
    } else {
      var n := CHARS_PER_TOKEN * cfg.maxTokens;
      MarkIsLost(cfg, n, TwoParagraphs(Letters(1), Letters(n + 1)));
    }
  }

  /** When all segments are cut or none is, the last two windows have the same mark. */
  lemma SameMark(cfg: Config, segs: seq<TextSegment>)
    requires |PlannedWindows(cfg, segs)| > 1
    requires (forall s | s in segs :: !Oversized(cfg, s)) || (forall s | s in segs :: Oversized(cfg, s))
    ensures var windows := PlannedWindows(cfg, segs);
      windows[|windows| - 1].truncated == windows[|windows| - 2].truncated
  {
    var windows := PlannedWindows(cfg, segs);
    SegmentsDecide(cfg, segs, |windows| - 1);
    SegmentsDecide(cfg, segs, |windows| - 2);
  }

  lemma {:induction false} ConditionKeepsMarks(cfg: Config, root: DocNode)
    requires ValidTexts(WalkDocNode(root))
    requires cfg.recursive || cfg.minTokens <= cfg.maxTokens || cfg.maxTokens == 0
    ensures KeepsMarks(cfg, root)
  {
    if Merges(cfg, PlannedWindows(cfg, SegmentsOf(cfg, root))) {
      if cfg.recursive || cfg.maxTokens == 0 {
        AllOrNothingCut(cfg, root);
        SameMark(cfg, SegmentsOf(cfg, root));
      } else {
        CutTailStays(cfg, root);
      }
    }
    MergeKeepsMarksUnless(cfg, root);
  }
}
