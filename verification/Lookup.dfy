/** Node counts and the enclosing-definition lookup, in the Rust and the TypeScript form. */
module Lookup {
  import opened Wrappers
  import opened Utf8
  import opened Document

  predicate Within(node: DocNode, start: int, end: int) {
    node.attrs.byteStart >= start && node.attrs.byteEnd <= end
  }

  function CountWithin(nodes: seq<DocNode>, start: int, end: int): nat {
    if nodes == [] then 0
    else (if Within(nodes[0], start, end) then 1 else 0) + CountWithin(nodes[1..], start, end)
  }

  lemma {:induction false} CountConcat(a: seq<DocNode>, b: seq<DocNode>, start: int, end: int)
    ensures CountWithin(a + b, start, end) == CountWithin(a, start, end) + CountWithin(b, start, end)
  {
    if a == [] {
      assert a + b == b;
    } else {
      assert (a + b)[1..] == a[1..] + b;
      CountConcat(a[1..], b, start, end);
    }
  }

  lemma ChildSplits(nodes: seq<DocNode>, i: nat)
    requires i < |nodes|
    ensures PreorderAll(nodes[i..]) == Preorder(nodes[i]) + PreorderAll(nodes[i + 1..])
  {
    assert nodes[i..][0] == nodes[i] && nodes[i..][1..] == nodes[i + 1..];
  }

  method CountAstNodes(node: DocNode) returns (count: nat)
    ensures count == |Preorder(node)|
    decreases node
  {
    count := 1;
    for i := 0 to |node.children|
      invariant count + |PreorderAll(node.children[i..])| == |Preorder(node)|
    {
      ChildSplits(node.children, i);
      var c := CountAstNodes(node.children[i]);
      count := count + c;
    }
  }

  method CountAstNodesInBounds(node: DocNode, start: int, end: int) returns (count: nat)
    ensures count == CountWithin(Preorder(node), start, end)
    decreases node
  {
    count := 0;
    if node.attrs.byteStart >= start && node.attrs.byteEnd <= end {
      count := count + 1;
    }
    assert Preorder(node)[1..] == PreorderAll(node.children);
    for i := 0 to |node.children|
      invariant count + CountWithin(PreorderAll(node.children[i..]), start, end)
             == CountWithin(Preorder(node), start, end)
    {
      ChildSplits(node.children, i);
      CountConcat(Preorder(node.children[i]), PreorderAll(node.children[i + 1..]), start, end);
      var c := CountAstNodesInBounds(node.children[i], start, end);
      count := count + c;
    }
  }

  // ---- Enclosing definition ----

  /** Rust asks for a cited section that overlaps the chunk, TypeScript for one that contains it
      (and takes an empty citation for a missing one). */
  datatype Engine = Rust | TypeScript

  predicate Hit(engine: Engine, node: DocNode, start: int, end: int) {
    && node.nodeType == Section
    && node.attrs.citation.Some?
    && match engine
       case Rust => node.attrs.byteStart < end && node.attrs.byteEnd > start
       case TypeScript =>
         node.attrs.citation.value != [] && node.attrs.byteStart <= start && node.attrs.byteEnd >= end
  }

  /** The index after the last hit, 0 when there is none. */
  function LastHit(engine: Engine, nodes: seq<DocNode>, start: int, end: int): (n: nat)
    ensures n <= |nodes|
    ensures n > 0 ==> Hit(engine, nodes[n - 1], start, end)
    ensures forall k | n <= k < |nodes| :: !Hit(engine, nodes[k], start, end)
  {
    if nodes == [] then 0
    else if Hit(engine, nodes[|nodes| - 1], start, end) then |nodes|
    else LastHit(engine, nodes[..|nodes| - 1], start, end)
  }

  function LastCitation(engine: Engine, nodes: seq<DocNode>, start: int, end: int): Option<Text> {
    var n := LastHit(engine, nodes, start, end);
    if n == 0 then None else nodes[n - 1].attrs.citation
  }

  lemma LastHitUnique(engine: Engine, nodes: seq<DocNode>, start: int, end: int, n: nat)
    requires n <= |nodes|
    requires n > 0 ==> Hit(engine, nodes[n - 1], start, end)
    requires forall k | n <= k < |nodes| :: !Hit(engine, nodes[k], start, end)
    ensures LastHit(engine, nodes, start, end) == n
  {
  }

  lemma LastCitationConcat(engine: Engine, a: seq<DocNode>, b: seq<DocNode>, start: int, end: int)
    ensures var right := LastCitation(engine, b, start, end);
      LastCitation(engine, a + b, start, end) == if right.Some? then right else LastCitation(engine, a, start, end)
  {
    var n, m := LastHit(engine, a, start, end), LastHit(engine, b, start, end);
    LastHitUnique(engine, a + b, start, end, if m > 0 then |a| + m else n);
  }

  /** Both lookups return the citation of the last hit in pre-order. */
  method ExtractFqnForChunk(engine: Engine, node: DocNode, start: int, end: int) returns (result: Option<Text>)
    ensures result == LastCitation(engine, Preorder(node), start, end)
    decreases node
  {
    result := None;
    if node.nodeType == Section && node.attrs.citation.Some? {
      if engine == Rust {
        if node.attrs.byteStart < end && node.attrs.byteEnd > start {
          result := node.attrs.citation;
        }
      } else if node.attrs.citation.value != [] {
        if node.attrs.byteStart <= start && node.attrs.byteEnd >= end {
          result := node.attrs.citation;
        }
      }
    }
    assert result == LastCitation(engine, [node], start, end) by {
      assert [node][..0] == [];
    }
    ghost var done := [node];
    for i := 0 to |node.children|
      invariant result == LastCitation(engine, done, start, end)
      invariant done + PreorderAll(node.children[i..]) == Preorder(node)
    {
      LastCitationConcat(engine, done, Preorder(node.children[i]), start, end);
      done := done + Preorder(node.children[i]);
      var childFqn := ExtractFqnForChunk(engine, node.children[i], start, end);
      if childFqn.Some? {
        result := childFqn;
      }
    }
    assert done + [] == done;
  }

  // ---- Laminar trees ----

  predicate NestedIn(inner: DocNode, outer: DocNode) {
    outer.attrs.byteStart <= inner.attrs.byteStart && inner.attrs.byteEnd <= outer.attrs.byteEnd
  }

  predicate Disjoint(a: DocNode, b: DocNode) {
    a.attrs.byteEnd <= b.attrs.byteStart || b.attrs.byteEnd <= a.attrs.byteStart
  }

  /** Children nest in their parents and siblings are disjoint, all the way down. */
  ghost predicate Laminar(node: DocNode)
    decreases node
  {
    && (forall i | 0 <= i < |node.children| :: NestedIn(node.children[i], node) && Laminar(node.children[i]))
    && (forall i, j | 0 <= i < j < |node.children| :: Disjoint(node.children[i], node.children[j]))
  }

  /** The depth of each node of `Preorder`. */
  function Depths(node: DocNode, depth: nat): (d: seq<nat>)
    ensures |d| == |Preorder(node)|
    decreases node
  {
    [depth] + DepthsAll(node.children, depth + 1)
  }

  function DepthsAll(nodes: seq<DocNode>, depth: nat): (d: seq<nat>)
    ensures |d| == |PreorderAll(nodes)|
    decreases nodes
  {
    if nodes == [] then [] else Depths(nodes[0], depth) + DepthsAll(nodes[1..], depth)
  }

  lemma {:induction false} DepthsAtLeast(nodes: seq<DocNode>, depth: nat)
    ensures forall k | 0 <= k < |DepthsAll(nodes, depth)| :: DepthsAll(nodes, depth)[k] >= depth
    decreases nodes
  {
    if nodes != [] {
      DepthsAtLeast(nodes[0].children, depth + 1);
      DepthsAtLeast(nodes[1..], depth);
      assert DepthsAll(nodes, depth)
          == [depth] + DepthsAll(nodes[0].children, depth + 1) + DepthsAll(nodes[1..], depth);
    }
  }

  lemma {:induction false} DescendantsNest(node: DocNode)
    requires Laminar(node)
    ensures forall n | n in Preorder(node) :: NestedIn(n, node)
    decreases node, 1
  {
    DescendantsNestAll(node.children, node);
  }

  lemma {:induction false} DescendantsNestAll(nodes: seq<DocNode>, outer: DocNode)
    requires forall i | 0 <= i < |nodes| :: Laminar(nodes[i]) && NestedIn(nodes[i], outer)
    ensures forall n | n in PreorderAll(nodes) :: NestedIn(n, outer)
    decreases nodes, 0
  {
    if nodes != [] {
      DescendantsNest(nodes[0]);
      DescendantsNestAll(nodes[1..], outer);
    }
  }

  /** Of two nodes that are not disjoint the later one in pre-order is strictly deeper. */
  ghost predicate Deepens(nodes: seq<DocNode>, depths: seq<nat>)
    requires |nodes| == |depths|
  {
    forall i, j | 0 <= i < j < |nodes| && !Disjoint(nodes[i], nodes[j]) :: depths[i] < depths[j]
  }

  lemma {:induction false} LaminarDeepens(node: DocNode, depth: nat)
    requires Laminar(node)
    ensures Deepens(Preorder(node), Depths(node, depth))
    decreases node, 1
  {
    LaminarDeepensAll(node.children, depth + 1);
    DepthsAtLeast(node.children, depth + 1);
    var nodes, depths := Preorder(node), Depths(node, depth);
    forall i, j | 0 <= i < j < |nodes| && !Disjoint(nodes[i], nodes[j])
      ensures depths[i] < depths[j]
    {
      assert nodes[j] == PreorderAll(node.children)[j - 1];
      if i > 0 {
        assert nodes[i] == PreorderAll(node.children)[i - 1];
      }
    }
  }

  lemma {:induction false} LaminarDeepensAll(nodes: seq<DocNode>, depth: nat)
    requires forall i | 0 <= i < |nodes| :: Laminar(nodes[i])
    requires forall i, j | 0 <= i < j < |nodes| :: Disjoint(nodes[i], nodes[j])
    ensures Deepens(PreorderAll(nodes), DepthsAll(nodes, depth))
    decreases nodes, 0
  {
    if nodes != [] {
      LaminarDeepens(nodes[0], depth);
      LaminarDeepensAll(nodes[1..], depth);
      var head, tail := Preorder(nodes[0]), PreorderAll(nodes[1..]);
      var all, depths := PreorderAll(nodes), DepthsAll(nodes, depth);
      forall i, j | 0 <= i < j < |all| && !Disjoint(all[i], all[j])
        ensures depths[i] < depths[j]
      {
        if j < |head| {
        } else if i >= |head| {
          assert all[i] == tail[i - |head|] && all[j] == tail[j - |head|];
        } else {
          assert all[i] == head[i] && all[j] == tail[j - |head|];
          SubtreesDisjoint(nodes, all[i], all[j]);
        }
      }
    }
  }

  lemma SubtreesDisjoint(nodes: seq<DocNode>, a: DocNode, b: DocNode)
    requires nodes != []
    requires forall i | 0 <= i < |nodes| :: Laminar(nodes[i])
    requires forall i, j | 0 <= i < j < |nodes| :: Disjoint(nodes[i], nodes[j])
    requires a in Preorder(nodes[0]) && b in PreorderAll(nodes[1..])
    ensures Disjoint(a, b)
  {
    DescendantsNest(nodes[0]);
    var i := SubtreeOf(nodes[1..], b);
    DescendantsNest(nodes[1..][i]);
    assert Disjoint(nodes[0], nodes[i + 1]);
  }

  /** How a depth compares with that of a deepest section: below it if that is to be the only deepest one,
      and otherwise not above it. */
  predicate UpTo(only: bool, depth: nat, deepest: nat) {
    if only then depth < deepest else depth <= deepest
  }

  /** All other hits are up to node `last` in depth. */
  ghost predicate NoneDeeper(
    only: bool, engine: Engine, nodes: seq<DocNode>, depths: seq<nat>, start: int, end: int, last: nat)
    requires last < |nodes| == |depths|
  {
    forall k | 0 <= k < |nodes| && k != last && Hit(engine, nodes[k], start, end) :: UpTo(only, depths[k], depths[last])
  }

  /** No hit is deeper than the last one (or, if that is to be the only deepest one, as deep), and the lookup
      returns its citation; without a hit there is nothing to return. */
  ghost predicate LastIsDeepest(
    only: bool, engine: Engine, nodes: seq<DocNode>, depths: seq<nat>, start: int, end: int)
    requires |nodes| == |depths|
  {
    var n := LastHit(engine, nodes, start, end);
    if n == 0 then
      && LastCitation(engine, nodes, start, end) == None
      && forall k | 0 <= k < |nodes| :: !Hit(engine, nodes[k], start, end)
    else
      && LastCitation(engine, nodes, start, end) == nodes[n - 1].attrs.citation
      && Hit(engine, nodes[n - 1], start, end)
      && NoneDeeper(only, engine, nodes, depths, start, end, n - 1)
  }

  /** The lookup returns the citation of a deepest section found: none found is deeper. */
  ghost predicate ReturnsDeepest(engine: Engine, root: DocNode, start: int, end: int) {
    LastIsDeepest(false, engine, Preorder(root), Depths(root, 0), start, end)
  }

  /** The lookup returns the citation of the deepest section found: all others found are less deep. */
  ghost predicate ReturnsOnlyDeepest(engine: Engine, root: DocNode, start: int, end: int) {
    LastIsDeepest(true, engine, Preorder(root), Depths(root, 0), start, end)
  }

  /** Some section found at or after position `j` is deeper than node `i`, or at least as deep. */
  ghost predicate DeepFrom(
    only: bool, engine: Engine, nodes: seq<DocNode>, depths: seq<nat>, start: int, end: int, i: nat, j: nat)
    requires i < |nodes| == |depths|
  {
    exists k :: j <= k < |nodes| && Hit(engine, nodes[k], start, end) && UpTo(only, depths[i], depths[k])
  }

  /** Of two found sections that lie apart, the later one or a section found behind it is deeper than the
      earlier one, or at least as deep. */
  ghost predicate ApartGoesDeep(
    only: bool, engine: Engine, nodes: seq<DocNode>, depths: seq<nat>, start: int, end: int)
    requires |nodes| == |depths|
  {
    forall i, j | 0 <= i < j < |nodes| && Hit(engine, nodes[i], start, end) && Hit(engine, nodes[j], start, end)
      && Disjoint(nodes[i], nodes[j]) :: DeepFrom(only, engine, nodes, depths, start, end, i, j)
  }

  lemma DeepestGoesDeep(only: bool, engine: Engine, nodes: seq<DocNode>, depths: seq<nat>, start: int, end: int)
    requires |nodes| == |depths| && LastIsDeepest(only, engine, nodes, depths, start, end)
    ensures ApartGoesDeep(only, engine, nodes, depths, start, end)
  {
    var n := LastHit(engine, nodes, start, end);
    forall i, j | 0 <= i < j < |nodes| && Hit(engine, nodes[i], start, end) && Hit(engine, nodes[j], start, end)
      ensures DeepFrom(only, engine, nodes, depths, start, end, i, j)
    {
      assert j <= n - 1 && Hit(engine, nodes[n - 1], start, end);
    }
  }

  lemma ApartLeavesNoneDeeper(
    only: bool, engine: Engine, nodes: seq<DocNode>, depths: seq<nat>, start: int, end: int, last: nat)
    requires |nodes| == |depths| && Deepens(nodes, depths) && ApartGoesDeep(only, engine, nodes, depths, start, end)
    requires last < |nodes| && Hit(engine, nodes[last], start, end)
    requires forall k | last < k < |nodes| :: !Hit(engine, nodes[k], start, end)
    ensures NoneDeeper(only, engine, nodes, depths, start, end, last)
  {
    forall i | 0 <= i < |nodes| && i != last && Hit(engine, nodes[i], start, end)
      ensures UpTo(only, depths[i], depths[last])
    {
      if Disjoint(nodes[i], nodes[last]) {
        assert DeepFrom(only, engine, nodes, depths, start, end, i, last);
      }
    }
  }

  lemma {:induction false} ApartMakesDeepest(
    only: bool, engine: Engine, nodes: seq<DocNode>, depths: seq<nat>, start: int, end: int)
    requires |nodes| == |depths| && Deepens(nodes, depths) && ApartGoesDeep(only, engine, nodes, depths, start, end)
    ensures LastIsDeepest(only, engine, nodes, depths, start, end)
  {
    var n := LastHit(engine, nodes, start, end);
    if n > 0 {
      ApartLeavesNoneDeeper(only, engine, nodes, depths, start, end, n - 1);
    }
  }

  lemma DeepestIffApart(only: bool, engine: Engine, root: DocNode, start: int, end: int)
    requires Laminar(root)
    ensures LastIsDeepest(only, engine, Preorder(root), Depths(root, 0), start, end)
       <==> ApartGoesDeep(only, engine, Preorder(root), Depths(root, 0), start, end)
  {
    LaminarDeepens(root, 0);
    if LastIsDeepest(only, engine, Preorder(root), Depths(root, 0), start, end) {
      DeepestGoesDeep(only, engine, Preorder(root), Depths(root, 0), start, end);
    }
    if ApartGoesDeep(only, engine, Preorder(root), Depths(root, 0), start, end) {
      ApartMakesDeepest(only, engine, Preorder(root), Depths(root, 0), start, end);
    }
  }

  /** The exact condition on a laminar tree: no section found is deeper than the one returned if and only if,
      of two found sections that lie apart, the later one or one found behind it is at least as deep. */
  lemma DeepestIffApartGoesDeep(engine: Engine, root: DocNode, start: int, end: int)
    requires Laminar(root)
    ensures ReturnsDeepest(engine, root, start, end)
       <==> ApartGoesDeep(false, engine, Preorder(root), Depths(root, 0), start, end)
  {
    DeepestIffApart(false, engine, root, start, end);
  }

  /** The section returned is the only deepest one if and only if that later one is always deeper. */
  lemma OnlyDeepestIffApartGoesDeeper(engine: Engine, root: DocNode, start: int, end: int)
    requires Laminar(root)
    ensures ReturnsOnlyDeepest(engine, root, start, end)
       <==> ApartGoesDeep(true, engine, Preorder(root), Depths(root, 0), start, end)
  {
    DeepestIffApart(true, engine, root, start, end);
  }

  /** The TypeScript lookup returns the citation of the deepest cited section containing the chunk:
      sections that contain a common non-empty range never lie apart. */
  lemma {:induction false} TypeScriptFindsDeepest(root: DocNode, start: int, end: int)
    requires Laminar(root) && start < end
    ensures ReturnsOnlyDeepest(TypeScript, root, start, end)
  {
    OnlyDeepestIffApartGoesDeeper(TypeScript, root, start, end);
  }

  /** No two of the sections found lie apart from each other. */
  ghost predicate NoStraddling(engine: Engine, nodes: seq<DocNode>, start: int, end: int) {
    forall i, j | 0 <= i < j < |nodes| && Hit(engine, nodes[i], start, end) && Hit(engine, nodes[j], start, end) ::
      !Disjoint(nodes[i], nodes[j])
  }

  /** In particular when the chunk does not touch two cited sections that lie apart. */
  lemma RustFindsDeepestUnlessStraddling(root: DocNode, start: int, end: int)
    requires Laminar(root) && NoStraddling(Rust, Preorder(root), start, end)
    ensures ReturnsOnlyDeepest(Rust, root, start, end)
  {
    OnlyDeepestIffApartGoesDeeper(Rust, root, start, end);
  }

  function CitedSection(name: Text, start: int, end: int, children: seq<DocNode>): DocNode {
    DocNode(Section, None, children, Span(start, end).(citation := Some(name)))
  }

  /** A document of `a`, with `inner` inside, and its later sibling `b`. */
  function Siblings(inner: seq<DocNode>): DocNode {
    DocNode(Document, None, [CitedSection("a", 0, 10, inner), CitedSection("b", 10, 20, [])], Span(0, 20))
  }

  lemma SiblingsListed(inner: seq<DocNode>)
    requires inner == [] || inner == [CitedSection("a::m", 2, 8, [])]
    ensures var root := Siblings(inner);
      && Laminar(root)
      && Preorder(root) == [root, root.children[0]] + inner + [root.children[1]]
      && Depths(root, 0) == [0, 1] + (if inner == [] then [] else [2]) + [1]
  {
    var m := CitedSection("a::m", 2, 8, []);
    var a, b, root := CitedSection("a", 0, 10, inner), CitedSection("b", 10, 20, []), Siblings(inner);
    assert m.children == [] && a.children == inner && b.children == [] && root.children == [a, b];
    LeafListed(m, 2);
    LeafListed(b, 1);
    assert PreorderAll(inner) == inner && DepthsAll(inner, 2) == (if inner == [] then [] else [2]);
    PairListed(a, b);
    assert Laminar(a);
  }

  lemma LeafListed(leaf: DocNode, depth: nat)
    requires leaf.children == []
    ensures Laminar(leaf) && Preorder(leaf) == [leaf] && Depths(leaf, depth) == [depth]
    ensures PreorderAll([leaf]) == [leaf] && DepthsAll([leaf], depth) == [depth]
  {
    assert [leaf][1..] == [];
  }

  lemma PairListed(a: DocNode, b: DocNode)
    requires b.children == []
    ensures PreorderAll([a, b]) == Preorder(a) + [b] && DepthsAll([a, b], 1) == Depths(a, 1) + [1]
  {
    LeafListed(b, 1);
    assert [a, b][1..] == [b];
  }

  lemma MissesDeeper(
    engine: Engine, nodes: seq<DocNode>, depths: seq<nat>, start: int, end: int, n: nat, deeper: nat)
    requires |nodes| == |depths| && 0 < n == LastHit(engine, nodes, start, end) && deeper < n
    requires Hit(engine, nodes[deeper], start, end) && depths[deeper] > depths[n - 1]
    ensures !LastIsDeepest(false, engine, nodes, depths, start, end)
  {
    assert !UpTo(false, depths[deeper], depths[n - 1]);
  }

  /** The Rust lookup need not find the deepest overlapping section: a chunk that also touches a
      later, shallower sibling is given that sibling. */
  lemma RustMayMissDeepest() returns (root: DocNode, start: int, end: int, deepest: nat)
    ensures Laminar(root) && start < end && !ReturnsDeepest(Rust, root, start, end)
    ensures LastCitation(Rust, Preorder(root), start, end) == Some("b")
    ensures deepest < |Preorder(root)| && Hit(Rust, Preorder(root)[deepest], start, end)
    ensures Preorder(root)[deepest].attrs.citation == Some("a::m")
    ensures forall j | 0 <= j < |Preorder(root)| && j != deepest :: Depths(root, 0)[j] < Depths(root, 0)[deepest]
  {
    var inner := [CitedSection("a::m", 2, 8, [])];
    root, start, end, deepest := Siblings(inner), 5, 15, 2;
    SiblingsListed(inner);
    var nodes := Preorder(root);
    assert nodes[2] == inner[0] && nodes[3] == CitedSection("b", 10, 20, []);
    ShallowerIsLast(nodes, Depths(root, 0));
  }

  lemma ShallowerIsLast(nodes: seq<DocNode>, depths: seq<nat>)
    requires |nodes| == 4 && depths == [0, 1, 2, 1]
    requires nodes[2] == CitedSection("a::m", 2, 8, []) && nodes[3] == CitedSection("b", 10, 20, [])
    ensures Hit(Rust, nodes[2], 5, 15) && LastCitation(Rust, nodes, 5, 15) == Some("b")
    ensures !LastIsDeepest(false, Rust, nodes, depths, 5, 15)
  {
    LastHitUnique(Rust, nodes, 5, 15, 4);
    MissesDeeper(Rust, nodes, depths, 5, 15, 4, 2);
  }

  /** A chunk across two siblings is given the later one: one of the two deepest, but not the only one. */
  lemma RustTakesLaterSibling()
    ensures var root := Siblings([]);
      && LastCitation(Rust, Preorder(root), 5, 15) == Some("b")
      && ReturnsDeepest(Rust, root, 5, 15) && !ReturnsOnlyDeepest(Rust, root, 5, 15)
  {
    SiblingsListed([]);
    LastHitUnique(Rust, Preorder(Siblings([])), 5, 15, 3);
    assert Hit(Rust, Preorder(Siblings([]))[1], 5, 15);
  }

  // ---- What a hit is ----

  predicate Holds(from: int, to: int, x: int) {
    from <= x < to
  }

  /** The Rust lookup looks for sections that share an octet with the chunk. */
  lemma HitSharesOctet(node: DocNode, start: int, end: int)
    requires start < end && node.attrs.byteStart < node.attrs.byteEnd
    ensures Hit(Rust, node, start, end)
       <==> && node.nodeType == Section && node.attrs.citation.Some?
            && exists x :: Holds(start, end, x) && Holds(node.attrs.byteStart, node.attrs.byteEnd, x)
  {
    var x := if start < node.attrs.byteStart then node.attrs.byteStart else start;
    if Hit(Rust, node, start, end) {
      assert Holds(start, end, x) && Holds(node.attrs.byteStart, node.attrs.byteEnd, x);
    }
  }

  /** The TypeScript lookup looks for named sections that hold every octet of the chunk. */
  lemma HitHoldsChunk(node: DocNode, start: int, end: int)
    requires start < end
    ensures Hit(TypeScript, node, start, end)
       <==> && node.nodeType == Section && node.attrs.citation.Some? && |node.attrs.citation.value| > 0
            && forall x | Holds(start, end, x) :: Holds(node.attrs.byteStart, node.attrs.byteEnd, x)
  {
    if !Hit(TypeScript, node, start, end) {
      assert Holds(start, end, start) && Holds(start, end, end - 1);
    }
  }
}
