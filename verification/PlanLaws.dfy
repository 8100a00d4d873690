/** What the windows of a plan look like, spelled out segment by segment: where one stops, how far the next one
    reaches back, and which tail is merged. */
module PlanLaws {
  import opened Utf8
  import opened Document
  import opened Segments
  import opened Windows
  import opened Packing
  import opened Chunks
  import opened ChunkGuarantees

  // ---- The overlap ----

  /** The tokens a window counts: those of its segments, but for one that is cut. */
  function Counted(cfg: Config, segs: seq<TextSegment>, e: Extent): nat
    requires e.from < e.to <= |segs|
  {
    if EstimateTokens(segs[e.to - 1].text) > cfg.maxTokens then Sum(segs, e.from, e.to - 1)
    else Sum(segs, e.from, e.to)
  }

  /** The next window starts as late as the overlap allows: it takes up the fewest trailing segments that hold the
      asked-for tokens, or all but the first when those are too few. A window of one segment is never taken up. */
  predicate TakesUp(cfg: Config, segs: seq<TextSegment>, e: Extent, next: nat)
    requires e.from < e.to <= |segs|
  {
    if !cfg.overlapping || e.to == e.from + 1 then next == e.to
    else
      var target := cfg.overlapTarget(Counted(cfg, segs, e));
      && e.from < next <= e.to
      && (next == e.from + 1 || Sum(segs, next, e.to) >= target)
      && (next < e.to ==> Sum(segs, next + 1, e.to) < target)
  }

  lemma {:induction false} SumAddsFirst(segs: seq<TextSegment>, i: nat, j: nat)
    requires i < j <= |segs|
    ensures Sum(segs, i, j) == EstimateTokens(segs[i].text) + Sum(segs, i + 1, j)
  {
    SumSplits(segs, i, i + 1, j);
    assert Sum(segs, i, i + 1) == Sum(segs, i, i) + EstimateTokens(segs[i].text);
  }

  lemma {:induction false} BackUpTakesUp(segs: seq<TextSegment>, start: nat, back: nat, to: nat, target: nat)
    requires start <= back < to <= |segs|
    requires back + 1 < to ==> Sum(segs, back + 2, to) < target
    ensures var next := BackUp(segs, start, back, Sum(segs, back + 1, to), target) + 1;
      && start < next <= to
      && (next == start + 1 || Sum(segs, next, to) >= target)
      && (next < to ==> Sum(segs, next + 1, to) < target)
    decreases back
  {
    if back > start && Sum(segs, back + 1, to) < target {
      SumAddsFirst(segs, back, to);
      BackUpTakesUp(segs, start, back - 1, to, target);
    }
  }

  lemma NextTakesUp(cfg: Config, segs: seq<TextSegment>, from: nat, to: nat)
    requires from < to <= |segs|
    ensures TakesUp(cfg, segs, Extent(from, to), NextStart(cfg, segs, from, to))
  {
    if cfg.overlapping && to > from + 1 {
      var target := cfg.overlapTarget(Counted(cfg, segs, Extent(from, to)));
      assert Sum(segs, to, to) == 0;
      BackUpTakesUp(segs, from, to - 1, to, target);
    }
  }

  /** Where the window behind the `k`-th one starts; behind the last one nothing is left. */
  function StartBehind(segs: seq<TextSegment>, plan: seq<Extent>, k: nat): nat
    requires k < |plan|
  {
    if k + 1 < |plan| then plan[k + 1].from else |segs|
  }

  lemma {:induction false} PlanTakesUp(cfg: Config, segs: seq<TextSegment>, start: nat, k: nat)
    requires start <= |segs| && k < |Plan(cfg, segs, start)|
    ensures var plan := Plan(cfg, segs, start);
      plan[k].from < plan[k].to <= |segs| && TakesUp(cfg, segs, plan[k], StartBehind(segs, plan, k))
    decreases k
  {
    var end := FillEnd(cfg, segs, start, start);
    var next := NextStart(cfg, segs, start, end);
    var plan, rest := Plan(cfg, segs, start), Plan(cfg, segs, next);
    assert plan == [Extent(start, end)] + rest;
    if k == 0 {
      NextTakesUp(cfg, segs, start, end);
    } else {
      PlanTakesUp(cfg, segs, next, k - 1);
      assert plan[k] == rest[k - 1] && StartBehind(segs, plan, k) == StartBehind(segs, rest, k - 1);
    }
  }

  /** Over every plan of every document: consecutive windows share exactly the segments the overlap asks for. */
  lemma OverlapIsExact(cfg: Config, segs: seq<TextSegment>)
    ensures var plan := Plan(cfg, segs, 0);
      forall k | 0 <= k < |plan| ::
        plan[k].from < plan[k].to <= |segs| && TakesUp(cfg, segs, plan[k], StartBehind(segs, plan, k))
  {
    forall k | 0 <= k < |Plan(cfg, segs, 0)|
      ensures var plan := Plan(cfg, segs, 0);
        plan[k].from < plan[k].to <= |segs| && TakesUp(cfg, segs, plan[k], StartBehind(segs, plan, k))
    {
      PlanTakesUp(cfg, segs, 0, k);
    }
  }

  /** The start so described is the only one, unless segments are empty. */
  lemma OneStartTakesUp(cfg: Config, segs: seq<TextSegment>, e: Extent, a: nat, b: nat)
    requires NoEmptyText(segs) && e.from < e.to <= |segs|
    requires TakesUp(cfg, segs, e, a) && TakesUp(cfg, segs, e, b)
    ensures a == b
  {
    var early, late := if a <= b then a else b, if a <= b then b else a;
    if early < late {
      SumSplits(segs, early + 1, late, e.to);
    }
  }

  // ---- Where a window stops ----

  /** Half of the budget for code and table cells under adaptive sizing, all of it otherwise. */
  function LimitOf(cfg: Config, seg: TextSegment): nat {
    if !cfg.adaptiveSize then cfg.maxTokens
    else match seg.nodeType
      case Code => (cfg.maxTokens + 1) / 2
      case TableCell => (cfg.maxTokens + 1) / 2
      case _ => cfg.maxTokens
  }

  /** Segment `k` may follow `from .. k` in one window: same breadcrumb, and within its own limit. */
  predicate GoesWith(cfg: Config, segs: seq<TextSegment>, from: nat, k: nat)
    requires from <= k < |segs|
  {
    segs[k].breadcrumb == segs[from].breadcrumb && Sum(segs, from, k) + EstimateTokens(segs[k].text) <= LimitOf(cfg, segs[k])
  }

  /** All but the first segment of a window go with those before, and the one behind does not, or comes behind
      one that has been cut. */
  predicate StopsRight(cfg: Config, segs: seq<TextSegment>, e: Extent) {
    && e.from < e.to <= |segs|
    && (forall k | e.from < k < e.to :: GoesWith(cfg, segs, e.from, k))
    && (e.to < |segs| ==>
          EstimateTokens(segs[e.to - 1].text) > cfg.maxTokens || !GoesWith(cfg, segs, e.from, e.to))
  }

  lemma WindowStopsRight(cfg: Config, segs: seq<TextSegment>, from: nat)
    requires NoEmptyText(segs) && from < |segs|
    ensures StopsRight(cfg, segs, Extent(from, FillEnd(cfg, segs, from, from)))
  {
    var to := FillEnd(cfg, segs, from, from);
    FillEndIsMaximal(cfg, segs, from, from);
    forall k | from < k < to
      ensures GoesWith(cfg, segs, from, k)
    {
      assert Sum(segs, from, k + 1) <= EffectiveMax(cfg, segs[k]);
    }
    if to < |segs| && GoesWith(cfg, segs, from, to) {
      assert Sum(segs, from, to + 1) <= EffectiveMax(cfg, segs[to]);
      assert Feasible(cfg, segs, from, to + 1);
      assert false;
    }
  }

  /** Every window of every plan stops where it should, whatever the overlap. */
  lemma WindowsStopRight(cfg: Config, segs: seq<TextSegment>)
    requires NoEmptyText(segs)
    ensures forall e | e in Plan(cfg, segs, 0) :: StopsRight(cfg, segs, e)
  {
    var plan := Plan(cfg, segs, 0);
    forall e | e in plan
      ensures StopsRight(cfg, segs, e)
    {
      var k :| 0 <= k < |plan| && plan[k] == e;
      PlannedExtent(cfg, segs, 0, k);
      WindowStopsRight(cfg, segs, e.from);
    }
  }
}
