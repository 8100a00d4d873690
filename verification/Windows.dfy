/** Packing segments into token-bounded windows: the greedy loop, the backward overlap and the
    merge of a short trailing window. Every method is specified by a function on segment indices. */
module Windows {
  import opened Wrappers
  import opened Utf8
  import opened Document
  import opened Segments
  import Joining

  /** `overlapping` stands for `overlap > 0.0`; `overlapTarget` is the rounded float product of the
      window's tokens and the overlap fraction, of which nothing is assumed. */
  datatype Config = Config(
    maxTokens: nat,
    minTokens: nat,
    recursive: bool,
    adaptiveSize: bool,
    overlapping: bool,
    overlapTarget: nat -> nat)

  datatype Window = Window(texts: seq<Text>, byteStart: int, byteEnd: int, breadcrumb: seq<Text>, truncated: bool)

  /** The segments `from .. to` of one window. */
  datatype Extent = Extent(from: nat, to: nat)

  function EffectiveMax(cfg: Config, seg: TextSegment): nat {
    if cfg.adaptiveSize && seg.nodeType in {Code, TableCell} then (cfg.maxTokens + 1) / 2 else cfg.maxTokens
  }

  predicate Oversized(cfg: Config, seg: TextSegment) {
    EstimateTokens(seg.text) > cfg.maxTokens
  }

  function Sum(segs: seq<TextSegment>, i: nat, j: nat): nat
    requires i <= j <= |segs|
  {
    if i == j then 0 else Sum(segs, i, j - 1) + EstimateTokens(segs[j - 1].text)
  }

  // ---- One window ----

  predicate Flushes(cfg: Config, segs: seq<TextSegment>, start: nat, idx: nat)
    requires start <= idx < |segs|
  {
    var current := Sum(segs, start, idx);
    && current > 0
    && (|| segs[idx].breadcrumb != segs[start].breadcrumb
        || current + EstimateTokens(segs[idx].text) > EffectiveMax(cfg, segs[idx]))
  }

  function FillEnd(cfg: Config, segs: seq<TextSegment>, start: nat, idx: nat): (end: nat)
    requires start <= idx <= |segs|
    ensures idx <= end <= |segs|
    ensures idx == start < |segs| ==> start < end
    decreases |segs| - idx
  {
    if idx == |segs| || Flushes(cfg, segs, start, idx) then idx
    else if Oversized(cfg, segs[idx]) then idx + 1
    else FillEnd(cfg, segs, start, idx + 1)
  }

  function Clip(cfg: Config, seg: TextSegment): Text {
    if Oversized(cfg, seg) then seg.text[..FloorBoundary(seg.text, cfg.maxTokens * CHARS_PER_TOKEN)] else seg.text
  }

  function WindowOf(cfg: Config, segs: seq<TextSegment>, from: nat, to: nat): Window
    requires from < to <= |segs|
  {
    var last := segs[to - 1];
    Window(Texts(segs[from..to - 1]) + [Clip(cfg, last)],
           segs[from].byteStart, last.byteEnd, segs[from].breadcrumb, Oversized(cfg, last))
  }

  /** What the loop variable `current_tokens` holds when the window is closed. */
  function ClosedTokens(cfg: Config, segs: seq<TextSegment>, from: nat, to: nat): nat
    requires from < to <= |segs|
  {
    Sum(segs, from, if Oversized(cfg, segs[to - 1]) then to - 1 else to)
  }

  /** The window while it is being filled: nothing in it is truncated yet. */
  function OpenWindow(segs: seq<TextSegment>, from: nat, idx: nat): Window
    requires from <= idx <= |segs| && from < |segs|
  {
    Window(Texts(segs[from..idx]), segs[from].byteStart, segs[if idx == from then from else idx - 1].byteEnd,
           segs[from].breadcrumb, false)
  }

  lemma OpenTakes(segs: seq<TextSegment>, from: nat, idx: nat)
    requires from <= idx < |segs|
    ensures var open := OpenWindow(segs, from, idx);
      OpenWindow(segs, from, idx + 1) == open.(texts := open.texts + [segs[idx].text], byteEnd := segs[idx].byteEnd)
  {
  }

  lemma OpenCloses(cfg: Config, segs: seq<TextSegment>, from: nat, idx: nat)
    requires from < idx <= |segs| && !Oversized(cfg, segs[idx - 1])
    ensures OpenWindow(segs, from, idx) == WindowOf(cfg, segs, from, idx)
    ensures Sum(segs, from, idx) == ClosedTokens(cfg, segs, from, idx)
  {
    OpenTakes(segs, from, idx - 1);
  }

  lemma OpenTruncates(cfg: Config, segs: seq<TextSegment>, from: nat, idx: nat)
    requires from <= idx < |segs| && Oversized(cfg, segs[idx])
    ensures var open := OpenWindow(segs, from, idx);
      WindowOf(cfg, segs, from, idx + 1)
      == open.(texts := open.texts + [Clip(cfg, segs[idx])], byteEnd := segs[idx].byteEnd, truncated := true)
    ensures Sum(segs, from, idx) == ClosedTokens(cfg, segs, from, idx + 1)
  {
  }

  method FillWindow(cfg: Config, segs: seq<TextSegment>, start: nat)
    returns (win: Window, currentTokens: nat, idx: nat)
    requires start < |segs|
    ensures start < idx == FillEnd(cfg, segs, start, start) <= |segs|
    ensures win == WindowOf(cfg, segs, start, idx)
    ensures currentTokens == ClosedTokens(cfg, segs, start, idx)
  {
    var first := segs[start];
    win := Window([], first.byteStart, first.byteEnd, first.breadcrumb, false);
    currentTokens := 0;
    idx := start;
    ghost var goal := FillEnd(cfg, segs, start, start);
    while idx < |segs|
      invariant start <= idx <= |segs|
      invariant FillEnd(cfg, segs, start, idx) == goal
      invariant currentTokens == Sum(segs, start, idx)
      invariant idx > start ==> !Oversized(cfg, segs[idx - 1])
      invariant win == OpenWindow(segs, start, idx)
    {
      var seg := segs[idx];
      var isCompact := cfg.adaptiveSize && seg.nodeType in {Code, TableCell};
      var effectiveMax := if isCompact then (cfg.maxTokens + 1) / 2 else cfg.maxTokens;
      var segTokens := EstimateTokens(seg.text);
      if currentTokens > 0 && seg.breadcrumb != win.breadcrumb {
        break;
      }
      if currentTokens > 0 && currentTokens + segTokens > effectiveMax {
        break;
      }
      if segTokens > cfg.maxTokens {
        var end := FloorCharBoundary(seg.text, cfg.maxTokens * CHARS_PER_TOKEN);
        OpenTruncates(cfg, segs, start, idx);
        win := win.(texts := win.texts + [seg.text[..end]], byteEnd := seg.byteEnd, truncated := true);
        idx := idx + 1;
        return;
      }
      OpenTakes(segs, start, idx);
      assert FillEnd(cfg, segs, start, idx + 1) == goal && Sum(segs, start, idx + 1) == currentTokens + segTokens;
      win := win.(texts := win.texts + [seg.text], byteEnd := seg.byteEnd);
      currentTokens := currentTokens + segTokens;
      idx := idx + 1;
    }
    OpenCloses(cfg, segs, start, idx);
  }

  // ---- The next start ----

  function BackUp(segs: seq<TextSegment>, start: nat, back: nat, accumulated: nat, target: nat): (b: nat)
    requires start <= back < |segs|
    ensures start <= b <= back
    decreases back
  {
    if back > start && accumulated < target then
      BackUp(segs, start, back - 1, accumulated + EstimateTokens(segs[back].text), target)
    else back
  }

  function NextStart(cfg: Config, segs: seq<TextSegment>, from: nat, to: nat): (next: nat)
    requires from < to <= |segs|
    ensures from + 1 <= next <= to
  {
    if cfg.overlapping && to > from + 1 then
      var target := cfg.overlapTarget(ClosedTokens(cfg, segs, from, to));
      Max(from + 1, BackUp(segs, from, to - 1, 0, target) + 1)
    else to
  }

  method AdvanceStart(cfg: Config, segs: seq<TextSegment>, start: nat, idx: nat, currentTokens: nat) returns (next: nat)
    requires start < idx <= |segs|
    requires currentTokens == ClosedTokens(cfg, segs, start, idx)
    ensures next == NextStart(cfg, segs, start, idx)
  {
    if cfg.overlapping && idx > start + 1 {
      var target := cfg.overlapTarget(currentTokens);
      var accumulated: nat := 0;
      var back := idx - 1;
      while back > start && accumulated < target
        invariant start <= back < |segs| && start < idx
        invariant BackUp(segs, start, back, accumulated, target) == BackUp(segs, start, idx - 1, 0, target)
      {
        accumulated := accumulated + EstimateTokens(segs[back].text);
        back := back - 1;
      }
      next := Max(start + 1, back + 1);
    } else {
      next := idx;
    }
  }

  // ---- All windows ----

  function Plan(cfg: Config, segs: seq<TextSegment>, start: nat): seq<Extent>
    requires start <= |segs|
    decreases |segs| - start
  {
    if start == |segs| then []
    else
      var end := FillEnd(cfg, segs, start, start);
      [Extent(start, end)] + Plan(cfg, segs, NextStart(cfg, segs, start, end))
  }

  ghost predicate InRangeOf(segs: seq<TextSegment>, plan: seq<Extent>) {
    forall k | 0 <= k < |plan| :: plan[k].from < plan[k].to <= |segs|
  }

  lemma {:induction false} PlanInRange(cfg: Config, segs: seq<TextSegment>, start: nat)
    requires start <= |segs|
    ensures InRangeOf(segs, Plan(cfg, segs, start))
    decreases |segs| - start
  {
    if start < |segs| {
      PlanInRange(cfg, segs, NextStart(cfg, segs, start, FillEnd(cfg, segs, start, start)));
    }
  }

  function Render(cfg: Config, segs: seq<TextSegment>, plan: seq<Extent>): (windows: seq<Window>)
    requires InRangeOf(segs, plan)
    ensures |windows| == |plan|
    ensures forall k | 0 <= k < |plan| :: windows[k] == WindowOf(cfg, segs, plan[k].from, plan[k].to)
  {
    if plan == [] then [] else [WindowOf(cfg, segs, plan[0].from, plan[0].to)] + Render(cfg, segs, plan[1..])
  }

  function PlannedWindows(cfg: Config, segs: seq<TextSegment>): seq<Window> {
    PlanInRange(cfg, segs, 0);
    Render(cfg, segs, Plan(cfg, segs, 0))
  }

  method BuildWindows(cfg: Config, segs: seq<TextSegment>) returns (windows: seq<Window>)
    ensures windows == PlannedWindows(cfg, segs)
  {
    windows := [];
    var start := 0;
    PlanInRange(cfg, segs, 0);
    ghost var plan := [];
    ghost var goal := Plan(cfg, segs, 0);
    while start < |segs|
      invariant start <= |segs|
      invariant InRangeOf(segs, plan)
      invariant plan + Plan(cfg, segs, start) == goal
      invariant |windows| == |plan|
      invariant forall k | 0 <= k < |plan| :: windows[k] == WindowOf(cfg, segs, plan[k].from, plan[k].to)
    {
      var win, currentTokens, idx := FillWindow(cfg, segs, start);
      if |win.texts| > 0 {
        windows := windows + [win];
        PlanStep(cfg, segs, start, plan);
        plan := plan + [Extent(start, idx)];
        start := AdvanceStart(cfg, segs, start, idx, currentTokens);
      } else {
        assert false;
      }
    }
    assert plan == goal;
  }

  lemma PlanStep(cfg: Config, segs: seq<TextSegment>, start: nat, done: seq<Extent>)
    requires start < |segs|
    ensures var end := FillEnd(cfg, segs, start, start);
      done + Plan(cfg, segs, start) == done + [Extent(start, end)] + Plan(cfg, segs, NextStart(cfg, segs, start, end))
  {
  }

  // ---- The trailing merge ----

  function Join(texts: seq<Text>): Text {
    Joining.Join(texts, "\n\n")
  }

  predicate Merges(cfg: Config, windows: seq<Window>) {
    && |windows| > 1
    && EstimateTokens(Join(windows[|windows| - 1].texts)) < cfg.minTokens
    && windows[|windows| - 1].breadcrumb == windows[|windows| - 2].breadcrumb
  }

  function Merged(prev: Window, last: Window): Window {
    prev.(texts := prev.texts + last.texts, byteEnd := last.byteEnd)
  }

  function MergeTail(cfg: Config, windows: seq<Window>): seq<Window> {
    if Merges(cfg, windows) then
      windows[..|windows| - 2] + [Merged(windows[|windows| - 2], windows[|windows| - 1])]
    else windows
  }

  method MergeTrailing(cfg: Config, windows0: seq<Window>) returns (windows: seq<Window>)
    ensures windows == MergeTail(cfg, windows0)
  {
    windows := windows0;
    if |windows| > 1 {
      var lastTokens := EstimateTokens(Join(windows[|windows| - 1].texts));
      var sameBreadcrumb := windows[|windows| - 1].breadcrumb == windows[|windows| - 2].breadcrumb;
      if lastTokens < cfg.minTokens && sameBreadcrumb {
        var last := windows[|windows| - 1];
        windows := windows[..|windows| - 1];
        var prev := windows[|windows| - 1];
        windows := windows[|windows| - 1 := prev.(texts := prev.texts + last.texts, byteEnd := last.byteEnd)];
      }
    }
  }
}
