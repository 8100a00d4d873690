/** What the greedy packing achieves: the fewest windows without overlap, and full, ordered
    coverage whatever the overlap. */
module Packing {
  import opened Segments
  import opened Windows

  ghost predicate NoEmptyText(segs: seq<TextSegment>) {
    forall k | 0 <= k < |segs| :: segs[k].text != []
  }

  /** What the segments of a document look like: none is empty, or, pre-split with a budget of 0, all are. */
  ghost predicate Uniform(segs: seq<TextSegment>) {
    NoEmptyText(segs) || forall k | 0 <= k < |segs| :: segs[k].text == []
  }

  /** A window may hold `from .. to` when it is a single segment, or has one breadcrumb and every
      added segment fits within that segment's own limit. */
  ghost predicate Feasible(cfg: Config, segs: seq<TextSegment>, from: nat, to: nat) {
    && from < to <= |segs|
    && forall k | from < k < to ::
         && segs[k].breadcrumb == segs[from].breadcrumb
         && Sum(segs, from, k + 1) <= EffectiveMax(cfg, segs[k])
  }

  /** `plan` cuts the segments from `from` to the end into consecutive feasible windows. */
  ghost predicate IsPartition(cfg: Config, segs: seq<TextSegment>, from: nat, plan: seq<Extent>)
    decreases |plan|
  {
    if plan == [] then from == |segs|
    else
      && plan[0].from == from
      && Feasible(cfg, segs, from, plan[0].to)
      && IsPartition(cfg, segs, plan[0].to, plan[1..])
  }

  lemma {:induction false} SumSplits(segs: seq<TextSegment>, i: nat, m: nat, j: nat)
    requires i <= m <= j <= |segs|
    ensures Sum(segs, i, j) == Sum(segs, i, m) + Sum(segs, m, j)
  {
    if m < j {
      SumSplits(segs, i, m, j - 1);
    }
  }

  lemma {:induction false} SumPositive(segs: seq<TextSegment>, i: nat, j: nat)
    requires NoEmptyText(segs) && i <= j <= |segs|
    ensures Sum(segs, i, j) >= j - i
  {
    if i < j {
      SumPositive(segs, i, j - 1);
    }
  }

  /** Dropping leading segments keeps a window feasible. */
  lemma SuffixFeasible(cfg: Config, segs: seq<TextSegment>, from: nat, mid: nat, to: nat)
    requires Feasible(cfg, segs, from, to) && from <= mid < to
    ensures Feasible(cfg, segs, mid, to)
  {
    forall k | mid < k < to
      ensures segs[k].breadcrumb == segs[mid].breadcrumb && Sum(segs, mid, k + 1) <= EffectiveMax(cfg, segs[k])
    {
      SumSplits(segs, from, mid, k + 1);
    }
  }

  /** The greedy end is feasible, and no feasible window from the same start is longer. */
  lemma {:induction false} FillEndIsMaximal(cfg: Config, segs: seq<TextSegment>, start: nat, idx: nat)
    requires NoEmptyText(segs) && start <= idx <= |segs| && start < |segs|
    requires idx > start ==> Feasible(cfg, segs, start, idx) && !Oversized(cfg, segs[start])
    ensures Feasible(cfg, segs, start, FillEnd(cfg, segs, start, idx))
    ensures forall to: nat | Feasible(cfg, segs, start, to) :: to <= FillEnd(cfg, segs, start, idx)
    decreases |segs| - idx
  {
    if idx < |segs| {
      SumPositive(segs, start, idx);
      if Flushes(cfg, segs, start, idx) {
        assert Sum(segs, start, start) == 0;
      } else if Oversized(cfg, segs[idx]) {
        OversizedStandsAlone(cfg, segs, start);
      } else {
        assert idx == start || Sum(segs, start, idx + 1) <= EffectiveMax(cfg, segs[idx]);
        FillEndIsMaximal(cfg, segs, start, idx + 1);
      }
    }
  }

  lemma OversizedStandsAlone(cfg: Config, segs: seq<TextSegment>, start: nat)
    requires NoEmptyText(segs) && start < |segs| && Oversized(cfg, segs[start])
    ensures forall to: nat | Feasible(cfg, segs, start, to) :: to == start + 1
  {
    assert Sum(segs, start, start + 1) == Sum(segs, start, start) + EstimateTokens(segs[start].text);
    forall to: nat | Feasible(cfg, segs, start, to)
      ensures to == start + 1
    {
      if to > start + 1 {
        SumSplits(segs, start, start + 1, start + 2);
      }
    }
  }

  lemma {:induction false} PlanIsPartition(cfg: Config, segs: seq<TextSegment>, start: nat)
    requires NoEmptyText(segs) && start <= |segs| && !cfg.overlapping
    ensures IsPartition(cfg, segs, start, Plan(cfg, segs, start))
    decreases |segs| - start
  {
    if start < |segs| {
      FillEndIsMaximal(cfg, segs, start, start);
      PlanIsPartition(cfg, segs, FillEnd(cfg, segs, start, start));
    }
  }

  /** Greedy stays ahead: started no earlier than any partition, the plan needs no more windows. */
  lemma {:induction false} StaysAhead(cfg: Config, segs: seq<TextSegment>, start: nat, from: nat, other: seq<Extent>)
    requires NoEmptyText(segs) && from <= start <= |segs| && !cfg.overlapping
    requires IsPartition(cfg, segs, from, other)
    ensures |Plan(cfg, segs, start)| <= |other|
    decreases |other|
  {
    if start < |segs| {
      var to := other[0].to;
      if to <= start {
        StaysAhead(cfg, segs, start, to, other[1..]);
      } else {
        SuffixFeasible(cfg, segs, from, start, to);
        FillEndIsMaximal(cfg, segs, start, start);
        StaysAhead(cfg, segs, FillEnd(cfg, segs, start, start), to, other[1..]);
      }
    }
  }

  /** Greedy optimality: without overlap the plan is itself a feasible partition and no feasible
      partition has fewer windows. */
  lemma GreedyIsOptimal(cfg: Config, segs: seq<TextSegment>)
    requires NoEmptyText(segs) && !cfg.overlapping
    ensures IsPartition(cfg, segs, 0, Plan(cfg, segs, 0))
    ensures forall other | IsPartition(cfg, segs, 0, other) :: |Plan(cfg, segs, 0)| <= |other|
  {
    PlanIsPartition(cfg, segs, 0);
    forall other | IsPartition(cfg, segs, 0, other)
      ensures |Plan(cfg, segs, 0)| <= |other|
    {
      StaysAhead(cfg, segs, 0, 0, other);
    }
  }

  lemma {:induction false} EmptySum(segs: seq<TextSegment>, i: nat, j: nat)
    requires i <= j <= |segs| && forall k | 0 <= k < |segs| :: segs[k].text == []
    ensures Sum(segs, i, j) == 0
  {
    if i < j {
      EmptySum(segs, i, j - 1);
    }
  }

  /** Empty segments never fill a window. */
  lemma {:induction false} EmptyFillsUp(cfg: Config, segs: seq<TextSegment>, start: nat, idx: nat)
    requires start <= idx <= |segs| && forall k | 0 <= k < |segs| :: segs[k].text == []
    ensures FillEnd(cfg, segs, start, idx) == |segs|
    decreases |segs| - idx
  {
    if idx < |segs| {
      EmptySum(segs, start, idx);
      EmptyFillsUp(cfg, segs, start, idx + 1);
    }
  }

  /** A window that starts within another one does not end before it. */
  lemma EndsNeverDecrease(cfg: Config, segs: seq<TextSegment>, start: nat, next: nat)
    requires Uniform(segs) && start <= next < |segs|
    ensures FillEnd(cfg, segs, start, start) <= FillEnd(cfg, segs, next, next)
  {
    var end := FillEnd(cfg, segs, start, start);
    if NoEmptyText(segs) {
      FillEndIsMaximal(cfg, segs, start, start);
      FillEndIsMaximal(cfg, segs, next, next);
      if next < end {
        SuffixFeasible(cfg, segs, start, next, end);
      }
    } else {
      EmptyFillsUp(cfg, segs, next, next);
    }
  }

  /** The whole plan at once: it starts at `start`, reaches the end, and each window starts after the
      previous start but not beyond the previous end, and never ends before the previous one. */
  ghost predicate Progresses(segs: seq<TextSegment>, start: nat, plan: seq<Extent>) {
    && (plan == [] <==> start == |segs|)
    && (plan != [] ==> plan[0].from == start && plan[|plan| - 1].to == |segs|)
    && InRangeOf(segs, plan)
    && forall k | 0 < k < |plan| ::
         && plan[k - 1].from < plan[k].from <= plan[k - 1].to <= plan[k].to
  }

  /** Overlap safety, for every overlap target. */
  lemma {:induction false} PlanProgresses(cfg: Config, segs: seq<TextSegment>, start: nat)
    requires Uniform(segs) && start <= |segs|
    ensures Progresses(segs, start, Plan(cfg, segs, start))
    ensures |Plan(cfg, segs, start)| <= |segs| - start
    decreases |segs| - start
  {
    if start < |segs| {
      var end := FillEnd(cfg, segs, start, start);
      var next := NextStart(cfg, segs, start, end);
      PlanProgresses(cfg, segs, next);
      if next < |segs| {
        EndsNeverDecrease(cfg, segs, start, next);
      }
      PrependProgresses(segs, start, end, next, Plan(cfg, segs, next));
    }
  }

  lemma PrependProgresses(segs: seq<TextSegment>, start: nat, end: nat, next: nat, rest: seq<Extent>)
    requires start < next <= end <= |segs| && Progresses(segs, next, rest)
    requires rest != [] ==> end <= rest[0].to
    ensures Progresses(segs, start, [Extent(start, end)] + rest)
  {
    var plan := [Extent(start, end)] + rest;
    forall k | 0 < k < |plan|
      ensures plan[k - 1].from < plan[k].from <= plan[k - 1].to <= plan[k].to
    {
      assert plan[k] == rest[k - 1];
      if k > 1 {
        assert plan[k - 1] == rest[k - 2];
      }
    }
  }

  /** Every segment falls into at least one window, and without overlap into exactly one. */
  lemma PlanCovers(cfg: Config, segs: seq<TextSegment>, s: nat)
    requires Uniform(segs) && s < |segs|
    ensures exists k :: 0 <= k < |Plan(cfg, segs, 0)| && Plan(cfg, segs, 0)[k].from <= s < Plan(cfg, segs, 0)[k].to
    ensures !cfg.overlapping ==>
      forall k, l | 0 <= k < |Plan(cfg, segs, 0)| && 0 <= l < |Plan(cfg, segs, 0)|
        && Plan(cfg, segs, 0)[k].from <= s < Plan(cfg, segs, 0)[k].to
        && Plan(cfg, segs, 0)[l].from <= s < Plan(cfg, segs, 0)[l].to :: k == l
  {
    var plan := Plan(cfg, segs, 0);
    PlanProgresses(cfg, segs, 0);
    var k := FindCover(segs, plan, s, |plan| - 1);
    if !cfg.overlapping {
      forall i, j | 0 <= i < j < |plan|
        ensures plan[i].to <= plan[j].from
      {
        WithoutOverlapDisjoint(cfg, segs, 0, i, j);
      }
    }
  }

  lemma {:induction false} FindCover(segs: seq<TextSegment>, plan: seq<Extent>, s: nat, last: nat) returns (k: nat)
    requires Progresses(segs, 0, plan) && last < |plan| && s < plan[last].to
    ensures k <= last && plan[k].from <= s < plan[k].to
    decreases last
  {
    if plan[last].from <= s {
      k := last;
    } else {
      k := FindCover(segs, plan, s, last - 1);
    }
  }

  lemma {:induction false} WithoutOverlapDisjoint(cfg: Config, segs: seq<TextSegment>, start: nat, i: nat, j: nat)
    requires !cfg.overlapping && start <= |segs| && i < j < |Plan(cfg, segs, start)|
    ensures Plan(cfg, segs, start)[i].to <= Plan(cfg, segs, start)[j].from
    decreases i
  {
    var end := FillEnd(cfg, segs, start, start);
    if i == 0 {
      StartsAfter(cfg, segs, end, j - 1);
    } else {
      WithoutOverlapDisjoint(cfg, segs, end, i - 1, j - 1);
    }
  }

  lemma {:induction false} StartsAfter(cfg: Config, segs: seq<TextSegment>, start: nat, k: nat)
    requires start <= |segs| && k < |Plan(cfg, segs, start)|
    ensures start <= Plan(cfg, segs, start)[k].from
    decreases k
  {
    if k > 0 {
      StartsAfter(cfg, segs, NextStart(cfg, segs, start, FillEnd(cfg, segs, start, start)), k - 1);
    }
  }

  function Alone(cfg: Config, seg: TextSegment): Window {
    Window([Clip(cfg, seg)], seg.byteStart, seg.byteEnd, seg.breadcrumb, Oversized(cfg, seg))
  }

  lemma AloneIs(cfg: Config, segs: seq<TextSegment>, k: nat)
    requires k < |segs|
    ensures WindowOf(cfg, segs, k, k + 1) == Alone(cfg, segs[k])
  {
    assert segs[k..k] == [];
    assert Texts(segs[k..k]) + [Clip(cfg, segs[k])] == [Clip(cfg, segs[k])];
  }

  lemma TwoAlone(cfg: Config, segs: seq<TextSegment>)
    requires |segs| == 2 && Flushes(cfg, segs, 0, 1)
    ensures PlannedWindows(cfg, segs) == [Alone(cfg, segs[0]), Alone(cfg, segs[1])]
  {
    TwoWindows(cfg, segs);
    PlanInRange(cfg, segs, 0);
    AloneIs(cfg, segs, 0);
    AloneIs(cfg, segs, 1);
  }

  /** Two segments that do not go together. */
  lemma TwoWindows(cfg: Config, segs: seq<TextSegment>)
    requires |segs| == 2 && Flushes(cfg, segs, 0, 1)
    ensures Plan(cfg, segs, 0) == [Extent(0, 1), Extent(1, 2)]
  {
    assert Sum(segs, 0, 0) == 0 == Sum(segs, 1, 1);
    assert FillEnd(cfg, segs, 0, 0) == 1 && FillEnd(cfg, segs, 1, 1) == 2;
    assert Plan(cfg, segs, 2) == [];
    assert Plan(cfg, segs, 1) == [Extent(1, 2)] + Plan(cfg, segs, 2);
    assert Plan(cfg, segs, 0) == [Extent(0, 1)] + Plan(cfg, segs, 1);
  }
}
