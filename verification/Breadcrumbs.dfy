/** What the segments of a document are: one for each leaf, in source order, under the headings above it. */
module Breadcrumbs {
  import opened Wrappers
  import opened Utf8
  import opened Document
  import opened Segments
  import opened Windows
  import opened Chunks
  import opened ChunkFacts

  // ---- Headings before a position ----

  predicate HeadingAt(nodes: seq<DocNode>, h: nat)
    requires h < |nodes|
  {
    nodes[h].nodeType == Heading && nodes[h].text.Some?
  }

  /** A heading without a level counts as level 1. */
  function LevelAt(nodes: seq<DocNode>, h: nat): nat
    requires h < |nodes|
  {
    match nodes[h].attrs.headingLevel
    case Some(level) => level
    case None => 1
  }

  /** `h` is the nearest heading before position `n`. */
  predicate Nearest(nodes: seq<DocNode>, n: nat, h: nat)
    requires n <= |nodes|
  {
    h < n && HeadingAt(nodes, h) && forall g | h < g < n :: !HeadingAt(nodes, g)
  }

  predicate NoHeading(nodes: seq<DocNode>, n: nat)
    requires n <= |nodes|
  {
    forall h | 0 <= h < n :: !HeadingAt(nodes, h)
  }

  /** The breadcrumb before position `n`: empty without a heading; otherwise it ends in the nearest one and is no
      longer than that one's level (or 1). */
  ghost predicate EndsInNearest(nodes: seq<DocNode>, n: nat, breadcrumb: seq<Text>)
    requires n <= |nodes|
  {
    if NoHeading(nodes, n) then breadcrumb == []
    else exists h: nat | h < n :: EndsInHeading(nodes, n, h, breadcrumb)
  }

  predicate EndsInHeading(nodes: seq<DocNode>, n: nat, h: nat, breadcrumb: seq<Text>)
    requires h < n <= |nodes|
  {
    && Nearest(nodes, n, h)
    && 1 <= |breadcrumb| <= Max(1, LevelAt(nodes, h))
    && breadcrumb[|breadcrumb| - 1] == nodes[h].text.value
  }

  /** Levels start at 1 and rise by at most one from heading to heading. */
  ghost predicate Stepwise(nodes: seq<DocNode>) {
    forall h: nat {:trigger FollowsOn(nodes, h)} | h < |nodes| && HeadingAt(nodes, h) :: FollowsOn(nodes, h)
  }

  ghost predicate FollowsOn(nodes: seq<DocNode>, h: nat)
    requires h < |nodes|
  {
    LevelAt(nodes, h) == 1 || (LevelAt(nodes, h) > 1 && exists g: nat | g < h :: RisesByOne(nodes, g, h))
  }

  predicate RisesByOne(nodes: seq<DocNode>, g: nat, h: nat)
    requires g < h < |nodes|
  {
    Nearest(nodes, h, g) && LevelAt(nodes, h) <= LevelAt(nodes, g) + 1
  }

  /** `g` is the latest heading of its level before position `n`. */
  predicate LatestOfLevel(nodes: seq<DocNode>, n: nat, g: nat)
    requires g < n <= |nodes|
  {
    HeadingAt(nodes, g) && forall h | g < h < n && HeadingAt(nodes, h) :: LevelAt(nodes, h) != LevelAt(nodes, g)
  }

  /** Entry `j` is that of heading `g`, of level `j + 1`. */
  predicate EntryIs(nodes: seq<DocNode>, n: nat, g: nat, j: nat, entry: Text)
    requires g < n <= |nodes|
  {
    LatestOfLevel(nodes, n, g) && LevelAt(nodes, g) == j + 1 && nodes[g].text.value == entry
  }

  /** The exact breadcrumb under stepwise levels: as long as the nearest heading's level, with the latest heading of
      each level up to it. */
  ghost predicate OnePerLevel(nodes: seq<DocNode>, n: nat, breadcrumb: seq<Text>)
    requires n <= |nodes|
  {
    && (forall h: nat | h < n && Nearest(nodes, n, h) :: |breadcrumb| == LevelAt(nodes, h))
    && forall j: nat | j < |breadcrumb| :: HasEntry(nodes, n, breadcrumb, j)
  }

  ghost predicate HasEntry(nodes: seq<DocNode>, n: nat, breadcrumb: seq<Text>, j: nat)
    requires n <= |nodes| && j < |breadcrumb|
  {
    exists g: nat | g < n :: EntryIs(nodes, n, g, j, breadcrumb[j])
  }

  // ---- The walk keeps the breadcrumb so ----

  function CrumbAt(nodes: seq<DocNode>, n: nat): seq<Text>
    requires n <= |nodes|
  {
    FoldBreadcrumb(nodes[..n], [])
  }

  lemma CrumbSteps(nodes: seq<DocNode>, n: nat)
    requires n < |nodes|
    ensures CrumbAt(nodes, n + 1) == Enter(CrumbAt(nodes, n), nodes[n])
  {
    assert nodes[..n + 1] == nodes[..n] + [nodes[n]] && [nodes[n]][1..] == [];
    FoldConcat(nodes[..n], [nodes[n]], []);
    assert FoldBreadcrumb([nodes[n]], CrumbAt(nodes, n)) == Enter(CrumbAt(nodes, n), nodes[n]);
  }

  lemma {:induction false} CrumbEndsInNearest(nodes: seq<DocNode>, n: nat)
    requires n <= |nodes|
    ensures EndsInNearest(nodes, n, CrumbAt(nodes, n))
  {
    if n > 0 {
      CrumbEndsInNearest(nodes, n - 1);
      CrumbSteps(nodes, n - 1);
      if HeadingAt(nodes, n - 1) {
        assert EndsInHeading(nodes, n, n - 1, CrumbAt(nodes, n));
      } else if !NoHeading(nodes, n - 1) {
        var h: nat :| h < n - 1 && EndsInHeading(nodes, n - 1, h, CrumbAt(nodes, n - 1));
        assert EndsInHeading(nodes, n, h, CrumbAt(nodes, n));
      }
    } else {
      assert nodes[..0] == [];
    }
  }

  lemma {:induction false} CrumbHasOnePerLevel(nodes: seq<DocNode>, n: nat)
    requires n <= |nodes| && Stepwise(nodes)
    ensures OnePerLevel(nodes, n, CrumbAt(nodes, n))
  {
    if n == 0 {
      assert nodes[..0] == [];
    } else {
      CrumbHasOnePerLevel(nodes, n - 1);
      CrumbSteps(nodes, n - 1);
      var before := CrumbAt(nodes, n - 1);
      if HeadingAt(nodes, n - 1) {
        HeadingKeepsLevels(nodes, n - 1, before);
      } else {
        OtherKeepsLevels(nodes, n - 1, before);
      }
    }
  }

  lemma OtherKeepsLevels(nodes: seq<DocNode>, n: nat, breadcrumb: seq<Text>)
    requires n < |nodes| && !HeadingAt(nodes, n) && OnePerLevel(nodes, n, breadcrumb)
    ensures OnePerLevel(nodes, n + 1, breadcrumb)
  {
    var m := n + 1;
    forall h: nat | h < m && Nearest(nodes, m, h)
      ensures |breadcrumb| == LevelAt(nodes, h)
    {
      assert Nearest(nodes, n, h);
    }
    forall j: nat | j < |breadcrumb|
      ensures HasEntry(nodes, m, breadcrumb, j)
    {
      assert HasEntry(nodes, n, breadcrumb, j);
      var g: nat :| g < n && EntryIs(nodes, n, g, j, breadcrumb[j]);
      assert EntryIs(nodes, n + 1, g, j, breadcrumb[j]);
    }
  }

  lemma HeadingKeepsLevels(nodes: seq<DocNode>, n: nat, before: seq<Text>)
    requires n < |nodes| && HeadingAt(nodes, n) && Stepwise(nodes) && OnePerLevel(nodes, n, before)
    ensures OnePerLevel(nodes, n + 1, Enter(before, nodes[n]))
  {
    var level := HeadingCuts(nodes, n, before);
    var m := n + 1;
    var after := Enter(before, nodes[n]);
    forall h: nat | h < m && Nearest(nodes, m, h)
      ensures |after| == LevelAt(nodes, h)
    {
      assert h == n;
    }
    forall j: nat | j < |after|
      ensures HasEntry(nodes, m, after, j)
    {
      EntryAfterHeading(nodes, n, before, after, j);
    }
  }

  lemma HeadingCuts(nodes: seq<DocNode>, n: nat, before: seq<Text>) returns (level: nat)
    requires n < |nodes| && HeadingAt(nodes, n) && Stepwise(nodes) && OnePerLevel(nodes, n, before)
    ensures level == LevelAt(nodes, n) && 1 <= level <= |before| + 1
    ensures Enter(before, nodes[n]) == before[..level - 1] + [nodes[n].text.value]
  {
    level := LevelAt(nodes, n);
    assert FollowsOn(nodes, n);
    if level > 1 {
      var g: nat :| g < n && RisesByOne(nodes, g, n);
      assert |before| == LevelAt(nodes, g);
    }
    assert before[..|before|] == before;
  }

  lemma EntryAfterHeading(nodes: seq<DocNode>, n: nat, before: seq<Text>, after: seq<Text>, j: nat)
    requires n < |nodes| && HeadingAt(nodes, n) && OnePerLevel(nodes, n, before)
    requires 1 <= LevelAt(nodes, n) <= |before| + 1 && j < |after|
    requires after == before[..LevelAt(nodes, n) - 1] + [nodes[n].text.value]
    ensures HasEntry(nodes, n + 1, after, j)
  {
    if j < LevelAt(nodes, n) - 1 {
      assert HasEntry(nodes, n, before, j);
      var g: nat :| g < n && EntryIs(nodes, n, g, j, before[j]);
      assert EntryIs(nodes, n + 1, g, j, after[j]);
    } else {
      assert EntryIs(nodes, n + 1, n, j, after[j]);
    }
  }

  // ---- Segments and leaves ----

  /** A node whose own text is to be searched: not empty, and no heading, image or link. */
  predicate LeafAt(nodes: seq<DocNode>, i: nat)
    requires i < |nodes|
  {
    match nodes[i].text
    case None => false
    case Some(text) => |text| > 0 && nodes[i].nodeType != Heading && nodes[i].nodeType != Image && nodes[i].nodeType != Link
  }

  /** The segment of leaf `i`: its text, kind and span, under the headings before it. */
  ghost predicate SegmentFor(nodes: seq<DocNode>, i: nat, seg: TextSegment)
    requires i < |nodes|
  {
    && LeafAt(nodes, i)
    && nodes[i].text == Some(seg.text) && seg.nodeType == nodes[i].nodeType
    && seg.byteStart == nodes[i].attrs.byteStart && seg.byteEnd == nodes[i].attrs.byteEnd
    && EndsInNearest(nodes, i, seg.breadcrumb)
    && (Stepwise(nodes) ==> OnePerLevel(nodes, i, seg.breadcrumb))
  }

  /** The segments are those of the leaves before position `n`, one for each and no other, in order. */
  ghost predicate AreLeaves(nodes: seq<DocNode>, n: nat, segs: seq<TextSegment>)
    requires n <= |nodes|
  {
    if n == 0 then segs == []
    else if LeafAt(nodes, n - 1) then
      segs != [] && SegmentFor(nodes, n - 1, segs[|segs| - 1]) && AreLeaves(nodes, n - 1, segs[..|segs| - 1])
    else AreLeaves(nodes, n - 1, segs)
  }

  lemma LeafTaken(nodes: seq<DocNode>, n: nat)
    requires n < |nodes|
    ensures var segs := SegmentOf(nodes[n], CrumbAt(nodes, n + 1));
      if LeafAt(nodes, n) then |segs| == 1 && SegmentFor(nodes, n, segs[0]) else segs == []
  {
    if LeafAt(nodes, n) {
      CrumbSteps(nodes, n);
      CrumbEndsInNearest(nodes, n);
      if Stepwise(nodes) {
        CrumbHasOnePerLevel(nodes, n);
      }
    }
  }

  lemma SegmentsStep(nodes: seq<DocNode>, n: nat)
    requires n < |nodes|
    ensures FoldSegments(nodes[..n + 1], []) == FoldSegments(nodes[..n], []) + SegmentOf(nodes[n], CrumbAt(nodes, n + 1))
  {
    CrumbSteps(nodes, n);
    var one := [nodes[n]];
    assert nodes[..n + 1] == nodes[..n] + one && one[1..] == [];
    FoldConcat(nodes[..n], one, []);
    assert FoldSegments(one, CrumbAt(nodes, n)) == SegmentOf(nodes[n], CrumbAt(nodes, n + 1)) + [];
  }

  lemma {:induction false} SegmentsUpTo(nodes: seq<DocNode>, n: nat)
    requires n <= |nodes|
    ensures AreLeaves(nodes, n, FoldSegments(nodes[..n], []))
  {
    if n == 0 {
      assert nodes[..0] == [];
    } else {
      SegmentsUpTo(nodes, n - 1);
      SegmentsStep(nodes, n - 1);
      WalkTakesNode(nodes, n - 1, FoldSegments(nodes[..n - 1], []));
    }
  }

  lemma LeafJoins(nodes: seq<DocNode>, n: nat, segs: seq<TextSegment>, more: seq<TextSegment>)
    requires n < |nodes| && AreLeaves(nodes, n, segs)
    requires if LeafAt(nodes, n) then |more| == 1 && SegmentFor(nodes, n, more[0]) else more == []
    ensures AreLeaves(nodes, n + 1, segs + more)
  {
    if LeafAt(nodes, n) {
      assert (segs + more)[..|segs|] == segs;
    } else {
      assert segs + more == segs;
    }
  }

  lemma WalkTakesNode(nodes: seq<DocNode>, n: nat, segs: seq<TextSegment>)
    requires n < |nodes| && AreLeaves(nodes, n, segs)
    ensures AreLeaves(nodes, n + 1, segs + SegmentOf(nodes[n], CrumbAt(nodes, n + 1)))
  {
    LeafTaken(nodes, n);
    LeafJoins(nodes, n, segs, SegmentOf(nodes[n], CrumbAt(nodes, n + 1)));
  }

  /** The walk of every document: one segment for each leaf and no other, in source order, each with its leaf's text,
      kind and span and with the breadcrumb of the headings before it. */
  lemma SegmentsAreLeaves(root: DocNode)
    ensures AreLeaves(Preorder(root), |Preorder(root)|, WalkDocNode(root))
  {
    var nodes := Preorder(root);
    assert nodes[..|nodes|] == nodes;
    SegmentsUpTo(nodes, |nodes|);
  }

  lemma {:induction false} LeafOfSegment(nodes: seq<DocNode>, n: nat, segs: seq<TextSegment>, k: nat) returns (i: nat)
    requires n <= |nodes| && AreLeaves(nodes, n, segs) && k < |segs|
    ensures i < |nodes| && SegmentFor(nodes, i, segs[k])
  {
    if LeafAt(nodes, n - 1) {
      if k == |segs| - 1 {
        i := n - 1;
      } else {
        i := LeafOfSegment(nodes, n - 1, segs[..|segs| - 1], k);
      }
    } else {
      i := LeafOfSegment(nodes, n - 1, segs, k);
    }
  }

  // ---- The breadcrumb of a chunk ----

  lemma {:induction false} PiecesKeepCrumb(seg: TextSegment, pos: nat, maxBytes: nat)
    requires pos <= |seg.text| && Boundary(seg.text, pos)
    ensures forall s | s in PiecesFrom(seg, pos, maxBytes) :: s.breadcrumb == seg.breadcrumb
    decreases |seg.text| - pos
  {
    if pos < |seg.text| {
      var end := Cut(seg.text, pos, maxBytes);
      if end > pos {
        PiecesKeepCrumb(seg, end, maxBytes);
      }
    }
  }

  lemma {:induction false} SplitKeepsCrumbs(segs: seq<TextSegment>, maxTokens: nat, s: TextSegment) returns (k: nat)
    requires s in SplitAll(segs, maxTokens)
    ensures k < |segs| && s.breadcrumb == segs[k].breadcrumb
  {
    if s in SplitPieces(segs[0], maxTokens) {
      k := 0;
      PiecesKeepCrumb(segs[0], 0, maxTokens * CHARS_PER_TOKEN);
    } else {
      k := SplitKeepsCrumbs(segs[1..], maxTokens, s);
      k := k + 1;
    }
  }

  /** Every chunk stands under the headings before one of the document's leaves. */
  lemma ChunkStandsUnderHeadings(cfg: Config, root: DocNode, k: nat) returns (i: nat)
    requires k < |ChunksOf(cfg, root)|
    ensures i < |Preorder(root)| && LeafAt(Preorder(root), i)
    ensures EndsInNearest(Preorder(root), i, ChunksOf(cfg, root)[k].breadcrumb)
    ensures Stepwise(Preorder(root)) ==> OnePerLevel(Preorder(root), i, ChunksOf(cfg, root)[k].breadcrumb)
  {
    SegmentsAreLeaves(root);
    ChunksAreWindows(cfg, root);
    var segs, plan := SegmentsOf(cfg, root), Plan(cfg, SegmentsOf(cfg, root), 0);
    var seg := segs[plan[k].from];
    assert seg in segs;
    var raw: nat;
    if cfg.recursive {
      raw := SplitKeepsCrumbs(WalkDocNode(root), cfg.maxTokens, seg);
    } else {
      raw := plan[k].from;
    }
    i := LeafOfSegment(Preorder(root), |Preorder(root)|, WalkDocNode(root), raw);
  }
}
