/** The whole engine: document tree in, numbered chunks out. */
module Chunks {
  import opened Wrappers
  import opened Utf8
  import opened Document
  import opened Segments
  import opened Windows
  import Joining
  import Lookup

  datatype Chunk = Chunk(
    texts: seq<Text>,
    sparseText: Text,
    denseText: Text,
    byteStart: int,
    byteEnd: int,
    breadcrumb: seq<Text>,
    truncated: bool,
    estimatedTokens: nat,
    chunkIndex: nat,
    totalChunks: nat,
    fqn: Option<Text>,
    nodesInBounds: nat,
    nodesTotal: nat)

  /** Oversized segments are split beforehand when `recursive` is set. */
  function SplitAll(segs: seq<TextSegment>, maxTokens: nat): seq<TextSegment> {
    if segs == [] then [] else SplitPieces(segs[0], maxTokens) + SplitAll(segs[1..], maxTokens)
  }

  function Prepared(cfg: Config, raw: seq<TextSegment>): seq<TextSegment> {
    if cfg.recursive then SplitAll(raw, cfg.maxTokens) else raw
  }

  method Prepare(cfg: Config, raw: seq<TextSegment>) returns (segs: seq<TextSegment>)
    ensures segs == Prepared(cfg, raw)
  {
    if !cfg.recursive {
      return raw;
    }
    segs := [];
    for i := 0 to |raw|
      invariant segs + SplitAll(raw[i..], cfg.maxTokens) == SplitAll(raw, cfg.maxTokens)
    {
      assert raw[i..][0] == raw[i] && raw[i..][1..] == raw[i + 1..];
      var parts := SplitOversized(raw[i], cfg.maxTokens);
      segs := segs + parts;
    }
    assert raw[|raw|..] == [];
  }

  function SegmentsOf(cfg: Config, root: DocNode): seq<TextSegment> {
    Prepared(cfg, WalkDocNode(root))
  }

  function FinalWindows(cfg: Config, root: DocNode): seq<Window> {
    MergeTail(cfg, PlannedWindows(cfg, SegmentsOf(cfg, root)))
  }

  // The separator U+203A between breadcrumb entries, with its surrounding spaces.
  const CRUMB_SEPARATOR: Text := [' ', 0xE2 as char, 0x80 as char, 0xBA as char, ' ']

  function JoinCrumbs(breadcrumb: seq<Text>): Text {
    Joining.Join(breadcrumb, CRUMB_SEPARATOR)
  }

  function MakeDenseText(breadcrumb: seq<Text>, raw: Text): Text {
    if breadcrumb == [] then raw else JoinCrumbs(breadcrumb) + ". " + raw
  }

  function ChunkOf(root: DocNode, windows: seq<Window>, i: nat): Chunk
    requires i < |windows|
  {
    var win := windows[i];
    var raw := Join(win.texts);
    Chunk(win.texts, raw, MakeDenseText(win.breadcrumb, raw), win.byteStart, win.byteEnd, win.breadcrumb,
          win.truncated, EstimateTokens(raw), i, |windows|,
          Lookup.LastCitation(Lookup.Rust, Preorder(root), win.byteStart, win.byteEnd),
          Lookup.CountWithin(Preorder(root), win.byteStart, win.byteEnd),
          |Preorder(root)|)
  }

  function Numbered(root: DocNode, windows: seq<Window>): (chunks: seq<Chunk>)
    ensures |chunks| == |windows|
  {
    seq(|windows|, i requires 0 <= i < |windows| => ChunkOf(root, windows, i))
  }

  function ChunksOf(cfg: Config, root: DocNode): (chunks: seq<Chunk>) {
    Numbered(root, FinalWindows(cfg, root))
  }

  method BuildChunks(root: DocNode, windows: seq<Window>) returns (chunks: seq<Chunk>)
    ensures chunks == Numbered(root, windows)
  {
    chunks := [];
    for i := 0 to |windows|
      invariant |chunks| == i
      invariant forall k | 0 <= k < i :: chunks[k] == ChunkOf(root, windows, k)
    {
      var win := windows[i];
      var raw := Join(win.texts);
      var fqn := Lookup.ExtractFqnForChunk(Lookup.Rust, root, win.byteStart, win.byteEnd);
      var inBounds := Lookup.CountAstNodesInBounds(root, win.byteStart, win.byteEnd);
      var total := Lookup.CountAstNodes(root);
      chunks := chunks + [Chunk(win.texts, raw, MakeDenseText(win.breadcrumb, raw), win.byteStart, win.byteEnd,
                                win.breadcrumb, win.truncated, EstimateTokens(raw), i, |windows|,
                                fqn, inBounds, total)];
    }
  }

  method WalkToChunks(root: DocNode, cfg: Config) returns (chunks: seq<Chunk>)
    ensures chunks == ChunksOf(cfg, root)
  {
    var rawSegs := WalkDocument(root);
    if |rawSegs| == 0 {
      assert PlannedWindows(cfg, []) == [];
      return [];
    }
    var segments := Prepare(cfg, rawSegs);
    var windows := BuildWindows(cfg, segments);
    windows := MergeTrailing(cfg, windows);
    chunks := BuildChunks(root, windows);
  }
}
