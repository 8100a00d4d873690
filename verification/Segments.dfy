/** Flattening a document tree into text segments, and pre-splitting oversized segments. */
module Segments {
  import opened Wrappers
  import opened Utf8
  import opened Document

  datatype TextSegment = TextSegment(
    text: Text,
    nodeType: DocNodeType,
    byteStart: int,
    byteEnd: int,
    breadcrumb: seq<Text>)

  const CHARS_PER_TOKEN := 4

  function EstimateTokens(text: Text): (t: nat)
    ensures CHARS_PER_TOKEN * t - 3 <= |text| <= CHARS_PER_TOKEN * t
  {
    (|text| + CHARS_PER_TOKEN - 1) / CHARS_PER_TOKEN
  }

  // ---- The walk, as a fold over the tree's nodes in pre-order ----

  /** A heading cuts the breadcrumb at its own level and appends itself. */
  function Enter(breadcrumb: seq<Text>, node: DocNode): seq<Text> {
    if node.nodeType == Heading && node.text.Some? then
      var level := if node.attrs.headingLevel.Some? then node.attrs.headingLevel.value else 1;
      var keep := if level == 0 then 0 else level - 1;
      (if keep < |breadcrumb| then breadcrumb[..keep] else breadcrumb) + [node.text.value]
    else
      breadcrumb
  }

  predicate IsLeaf(node: DocNode) {
    node.text.Some? && node.nodeType !in {Heading, Image, Link} && node.text.value != []
  }

  /** The texts that chunking is supposed to preserve. */
  function LeafTexts(nodes: seq<DocNode>): seq<Text> {
    if nodes == [] then []
    else (if IsLeaf(nodes[0]) then [nodes[0].text.value] else []) + LeafTexts(nodes[1..])
  }

  function SegmentOf(node: DocNode, breadcrumb: seq<Text>): seq<TextSegment> {
    if IsLeaf(node) then
      [TextSegment(node.text.value, node.nodeType, node.attrs.byteStart, node.attrs.byteEnd, breadcrumb)]
    else
      []
  }

  function FoldBreadcrumb(nodes: seq<DocNode>, breadcrumb: seq<Text>): seq<Text> {
    if nodes == [] then breadcrumb else FoldBreadcrumb(nodes[1..], Enter(breadcrumb, nodes[0]))
  }

  function FoldSegments(nodes: seq<DocNode>, breadcrumb: seq<Text>): seq<TextSegment> {
    if nodes == [] then []
    else
      var inner := Enter(breadcrumb, nodes[0]);
      SegmentOf(nodes[0], inner) + FoldSegments(nodes[1..], inner)
  }

  lemma {:induction false} FoldConcat(a: seq<DocNode>, b: seq<DocNode>, breadcrumb: seq<Text>)
    ensures FoldBreadcrumb(a + b, breadcrumb) == FoldBreadcrumb(b, FoldBreadcrumb(a, breadcrumb))
    ensures FoldSegments(a + b, breadcrumb)
         == FoldSegments(a, breadcrumb) + FoldSegments(b, FoldBreadcrumb(a, breadcrumb))
  {
    if a == [] {
      assert a + b == b;
    } else {
      assert (a + b)[1..] == a[1..] + b;
      FoldConcat(a[1..], b, Enter(breadcrumb, a[0]));
    }
  }

  /** The walk of `walk_doc_node`: one depth-first pass that shares one breadcrumb. */
  class SegmentWalker {
    var breadcrumb: seq<Text>
    var segments: seq<TextSegment>

    constructor ()
      ensures breadcrumb == [] && segments == []
    {
      breadcrumb, segments := [], [];
    }

    method Visit(node: DocNode)
      modifies this
      ensures breadcrumb == FoldBreadcrumb(Preorder(node), old(breadcrumb))
      ensures segments == old(segments) + FoldSegments(Preorder(node), old(breadcrumb))
      decreases node
    {
      if node.nodeType == Heading && node.text.Some? {
        var level := if node.attrs.headingLevel.Some? then node.attrs.headingLevel.value else 1;
        var keep := if level == 0 then 0 else level - 1;
        if keep < |breadcrumb| {
          breadcrumb := breadcrumb[..keep];
        }
        breadcrumb := breadcrumb + [node.text.value];
      }
      ghost var inner := breadcrumb;
      assert inner == Enter(old(breadcrumb), node);
      if node.text.Some? && node.nodeType !in {Heading, Image, Link} {
        if node.text.value != [] {
          segments := segments + [TextSegment(node.text.value, node.nodeType,
                                              node.attrs.byteStart, node.attrs.byteEnd, breadcrumb)];
        }
      }
      assert segments == old(segments) + SegmentOf(node, inner);
      ghost var goal := segments + FoldSegments(PreorderAll(node.children), inner);
      FoldNode(node, old(breadcrumb), old(segments));
      for i := 0 to |node.children|
        invariant FoldBreadcrumb(PreorderAll(node.children[i..]), breadcrumb)
               == FoldBreadcrumb(PreorderAll(node.children), inner)
        invariant segments + FoldSegments(PreorderAll(node.children[i..]), breadcrumb) == goal
      {
        FoldChild(node.children, i, breadcrumb, segments);
        Visit(node.children[i]);
      }
    }
  }

  lemma FoldNode(node: DocNode, breadcrumb: seq<Text>, before: seq<TextSegment>)
    ensures var inner := Enter(breadcrumb, node);
      && FoldBreadcrumb(Preorder(node), breadcrumb) == FoldBreadcrumb(PreorderAll(node.children), inner)
      && before + FoldSegments(Preorder(node), breadcrumb)
      == before + SegmentOf(node, inner) + FoldSegments(PreorderAll(node.children), inner)
  {
    assert Preorder(node)[1..] == PreorderAll(node.children);
  }

  lemma FoldChild(nodes: seq<DocNode>, i: nat, breadcrumb: seq<Text>, before: seq<TextSegment>)
    requires i < |nodes|
    ensures var inner := FoldBreadcrumb(Preorder(nodes[i]), breadcrumb);
      && FoldBreadcrumb(PreorderAll(nodes[i..]), breadcrumb) == FoldBreadcrumb(PreorderAll(nodes[i + 1..]), inner)
      && before + FoldSegments(PreorderAll(nodes[i..]), breadcrumb)
      == before + FoldSegments(Preorder(nodes[i]), breadcrumb) + FoldSegments(PreorderAll(nodes[i + 1..]), inner)
  {
    assert nodes[i..][0] == nodes[i] && nodes[i..][1..] == nodes[i + 1..];
    FoldConcat(Preorder(nodes[i]), PreorderAll(nodes[i + 1..]), breadcrumb);
  }

  function WalkDocNode(root: DocNode): seq<TextSegment> {
    FoldSegments(Preorder(root), [])
  }

  method WalkDocument(root: DocNode) returns (segments: seq<TextSegment>)
    ensures segments == WalkDocNode(root)
  {
    var walker := new SegmentWalker();
    walker.Visit(root);
    segments := walker.segments;
  }

  function Texts(segments: seq<TextSegment>): (texts: seq<Text>)
    ensures |texts| == |segments|
  {
    seq(|segments|, i requires 0 <= i < |segments| => segments[i].text)
  }

  /** Nothing is lost, repeated or reordered by the walk, and no empty segment is emitted. */
  lemma {:induction false} WalkKeepsLeaves(nodes: seq<DocNode>, breadcrumb: seq<Text>)
    ensures Texts(FoldSegments(nodes, breadcrumb)) == LeafTexts(nodes)
    ensures forall s | s in FoldSegments(nodes, breadcrumb) :: s.text != []
  {
    if nodes != [] {
      var inner := Enter(breadcrumb, nodes[0]);
      WalkKeepsLeaves(nodes[1..], inner);
      var rest := FoldSegments(nodes[1..], inner);
      assert Texts(SegmentOf(nodes[0], inner) + rest) == Texts(SegmentOf(nodes[0], inner)) + Texts(rest);
    }
  }

  // ---- Pre-splitting ----

  function Piece(seg: TextSegment, from: nat, to: nat): TextSegment
    requires from <= to <= |seg.text|
  {
    seg.(text := seg.text[from..to], byteStart := seg.byteStart + from, byteEnd := seg.byteStart + to)
  }

  function Cut(text: Text, pos: nat, maxBytes: nat): (end: nat)
    requires pos <= |text| && Boundary(text, pos)
    ensures pos <= end <= |text| && end <= pos + maxBytes && Boundary(text, end)
  {
    FloorBoundary(text, Min(pos + maxBytes, |text|))
  }

  function PiecesFrom(seg: TextSegment, pos: nat, maxBytes: nat): seq<TextSegment>
    requires pos <= |seg.text| && Boundary(seg.text, pos)
    decreases |seg.text| - pos
  {
    if pos == |seg.text| then []
    else
      var end := Cut(seg.text, pos, maxBytes);
      if end == pos then [Piece(seg, pos, pos)]
      else [Piece(seg, pos, end)] + PiecesFrom(seg, end, maxBytes)
  }

  function SplitPieces(seg: TextSegment, maxTokens: nat): seq<TextSegment> {
    if |seg.text| <= maxTokens * CHARS_PER_TOKEN then [seg]
    else PiecesFrom(seg, 0, maxTokens * CHARS_PER_TOKEN)
  }

  method SplitOversized(seg: TextSegment, maxTokens: nat) returns (parts: seq<TextSegment>)
    ensures parts == SplitPieces(seg, maxTokens)
  {
    var maxBytes := maxTokens * CHARS_PER_TOKEN;
    if |seg.text| <= maxBytes {
      return [seg];
    }
    parts := [];
    var pos := 0;
    ghost var goal := PiecesFrom(seg, 0, maxBytes);
    while pos < |seg.text|
      invariant pos <= |seg.text| && Boundary(seg.text, pos)
      invariant parts + PiecesFrom(seg, pos, maxBytes) == goal
    {
      var rawEnd := Min(pos + maxBytes, |seg.text|);
      var end := FloorCharBoundary(seg.text, rawEnd);
      assert end == Cut(seg.text, pos, maxBytes);
      PiecesStep(seg, pos, end, maxBytes, parts);
      parts := parts + [Piece(seg, pos, end)];
      var len := end - pos;
      if len == 0 {
        return;
      }
      assert parts + PiecesFrom(seg, end, maxBytes) == goal;
      pos := pos + len;
      assert pos == end;
    }
  }

  lemma PiecesStep(seg: TextSegment, pos: nat, end: nat, maxBytes: nat, done: seq<TextSegment>)
    requires pos < |seg.text| && Boundary(seg.text, pos) && end == Cut(seg.text, pos, maxBytes)
    ensures end == pos ==> done + PiecesFrom(seg, pos, maxBytes) == done + [Piece(seg, pos, end)]
    ensures end > pos ==>
      done + PiecesFrom(seg, pos, maxBytes) == done + [Piece(seg, pos, end)] + PiecesFrom(seg, end, maxBytes)
  {
    if end > pos {
      assert PiecesFrom(seg, pos, maxBytes) == [Piece(seg, pos, end)] + PiecesFrom(seg, end, maxBytes);
    }
  }

  function Concat(texts: seq<Text>): Text {
    if texts == [] then [] else texts[0] + Concat(texts[1..])
  }

  lemma {:induction false} ConcatAppend(a: seq<Text>, b: seq<Text>)
    ensures Concat(a + b) == Concat(a) + Concat(b)
  {
    if a == [] {
      assert a + b == b;
    } else {
      assert (a + b)[1..] == a[1..] + b;
      ConcatAppend(a[1..], b);
    }
  }

  /** The pieces continue each other without gap or overlap from `from` to `to`. */
  predicate Tiles(pieces: seq<TextSegment>, from: int, to: int) {
    if pieces == [] then from == to
    else
      && pieces[0].byteStart == from
      && pieces[0].byteEnd == from + |pieces[0].text|
      && Tiles(pieces[1..], pieces[0].byteEnd, to)
  }

  /** What a good split is: every piece is a non-empty character-aligned text of at most `maxBytes`
      bytes, and only the last may be more than three bytes short of that. */
  predicate GoodPieces(seg: TextSegment, pieces: seq<TextSegment>, maxBytes: nat) {
    forall k | 0 <= k < |pieces| ::
      && 0 < |pieces[k].text| <= maxBytes
      && Valid(pieces[k].text)
      && (k < |pieces| - 1 ==> maxBytes - 3 <= |pieces[k].text|)
      && pieces[k].breadcrumb == seg.breadcrumb
      && pieces[k].nodeType == seg.nodeType
  }

  /** Each step advances, so the zero-length safety break never fires. */
  lemma {:induction false} CutAdvances(text: Text, pos: nat, maxBytes: nat)
    requires Valid(text) && pos < |text| && Boundary(text, pos) && maxBytes >= 4
    ensures var end := Cut(text, pos, maxBytes);
      && pos < end
      && Valid(text[pos..end])
      && (end < |text| ==> pos + maxBytes - 3 <= end)
  {
    var end := Cut(text, pos, maxBytes);
    FloorLosesAtMostThree(text, Min(pos + maxBytes, |text|));
    assert pos < end;
    SplitValid(text, end);
    assert Boundary(text[..end], pos);
    SplitValid(text[..end], pos);
    assert text[..end][pos..] == text[pos..end];
  }

  lemma {:induction false} PiecesFromGood(seg: TextSegment, pos: nat, maxBytes: nat)
    requires Valid(seg.text) && pos <= |seg.text| && Boundary(seg.text, pos) && maxBytes >= 4
    ensures var pieces := PiecesFrom(seg, pos, maxBytes);
      && Concat(Texts(pieces)) == seg.text[pos..]
      && GoodPieces(seg, pieces, maxBytes)
      && Tiles(pieces, seg.byteStart + pos, seg.byteStart + |seg.text|)
    decreases |seg.text| - pos
  {
    if pos < |seg.text| {
      CutAdvances(seg.text, pos, maxBytes);
      var end := Cut(seg.text, pos, maxBytes);
      PiecesFromGood(seg, end, maxBytes);
      var rest := PiecesFrom(seg, end, maxBytes);
      PrependPiece(seg, pos, end, rest, maxBytes);
    }
  }

  lemma PrependPiece(seg: TextSegment, pos: nat, end: nat, rest: seq<TextSegment>, maxBytes: nat)
    requires pos < end <= |seg.text| && end - pos <= maxBytes && Valid(seg.text[pos..end])
    requires rest != [] ==> end < |seg.text|
    requires end < |seg.text| ==> pos + maxBytes - 3 <= end
    requires Concat(Texts(rest)) == seg.text[end..]
    requires GoodPieces(seg, rest, maxBytes)
    requires Tiles(rest, seg.byteStart + end, seg.byteStart + |seg.text|)
    ensures var pieces := [Piece(seg, pos, end)] + rest;
      && Concat(Texts(pieces)) == seg.text[pos..]
      && GoodPieces(seg, pieces, maxBytes)
      && Tiles(pieces, seg.byteStart + pos, seg.byteStart + |seg.text|)
  {
    var pieces := [Piece(seg, pos, end)] + rest;
    assert pieces[1..] == rest;
    assert Texts(pieces)[1..] == Texts(rest);
    assert seg.text[pos..] == seg.text[pos..end] + seg.text[end..];
    forall k | 0 <= k < |pieces|
      ensures 0 < |pieces[k].text| <= maxBytes && Valid(pieces[k].text)
      ensures k < |pieces| - 1 ==> maxBytes - 3 <= |pieces[k].text|
      ensures pieces[k].breadcrumb == seg.breadcrumb && pieces[k].nodeType == seg.nodeType
    {
      if k > 0 {
        assert pieces[k] == rest[k - 1];
      }
    }
  }

  /** With a positive budget, splitting preserves the text, tiles the byte range and keeps
      every piece within the budget. */
  lemma SplitIsLossless(seg: TextSegment, maxTokens: nat)
    requires Valid(seg.text) && seg.text != [] && maxTokens >= 1
    ensures var pieces := SplitPieces(seg, maxTokens);
      && Concat(Texts(pieces)) == seg.text
      && GoodPieces(seg, pieces, CHARS_PER_TOKEN * maxTokens)
      && (|pieces| > 1 ==> Tiles(pieces, seg.byteStart, seg.byteStart + |seg.text|))
  {
    if |seg.text| <= maxTokens * CHARS_PER_TOKEN {
      assert Texts([seg]) == [seg.text];
      assert Concat([seg.text]) == seg.text;
    } else {
      PiecesFromGood(seg, 0, maxTokens * CHARS_PER_TOKEN);
    }
  }
}
