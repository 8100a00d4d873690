/** From a concrete syntax tree to the document tree of a source file. */
module SyntaxWalker {
  import opened Wrappers
  import opened Utf8
  import opened Document
  import opened Lookup
  import Joining

  /** What the walker asks of a node kind: `Body` are the blocks that hold a definition's content. */
  datatype Kind = Comment | Definition | Body | Other

  /** A named syntax node. `text` is the text the walker would emit for it, `name` the name found in
      its signature and `defined` the name captured by the language's query, if any. */
  datatype Syntax = Syntax(
    kind: Kind, start: int, end: int, text: Text, signature: Text, name: Text, defined: Option<Text>,
    blank: bool, children: seq<Syntax>)

  function JoinScopes(scopes: seq<Text>): Text {
    Joining.Join(scopes, "::")
  }

  function Fqn(node: Syntax, breadcrumb: seq<Text>): Option<Text> {
    if node.defined.None? then None
    else if breadcrumb == [] then node.defined
    else Some(JoinScopes(breadcrumb) + "::" + node.defined.value)
  }

  function Inside(node: Syntax, breadcrumb: seq<Text>): seq<Text> {
    if node.name == [] then breadcrumb else breadcrumb + [node.name]
  }

  // ---- Specification ----

  function SectionFor(node: Syntax, breadcrumb: seq<Text>, nested: seq<DocNode>): DocNode {
    DocNode(Section, if node.signature == [] then None else Some(node.signature), nested,
            Span(node.start, node.end).(headingLevel := Some(|breadcrumb| + 1), citation := Fqn(node, breadcrumb)))
  }

  function WalkOne(node: Syntax, breadcrumb: seq<Text>): (out: seq<DocNode>)
    ensures |out| <= 1
    decreases node, 1
  {
    match node.kind
    case Comment =>
      if node.text == [] then [] else [DocNode(Paragraph, Some(node.text), [], Span(node.start, node.end))]
    case Definition =>
      var inner := Inside(node, breadcrumb);
      [SectionFor(node, breadcrumb, WalkAll(node.children, inner) + WalkBodies(node.children, inner))]
    case Body => []
    case Other =>
      if node.blank then [] else [DocNode(Code, Some(node.text), [], Span(node.start, node.end))]
  }

  function WalkAll(nodes: seq<Syntax>, breadcrumb: seq<Text>): seq<DocNode>
    decreases nodes, 0
  {
    if nodes == [] then [] else WalkOne(nodes[0], breadcrumb) + WalkAll(nodes[1..], breadcrumb)
  }

  function WalkBodies(nodes: seq<Syntax>, breadcrumb: seq<Text>): seq<DocNode>
    decreases nodes, 0
  {
    if nodes == [] then []
    else (if nodes[0].kind.Body? then WalkAll(nodes[0].children, breadcrumb) else []) + WalkBodies(nodes[1..], breadcrumb)
  }

  // ---- The walker ----

  lemma WalkAllStep(nodes: seq<Syntax>, i: nat, breadcrumb: seq<Text>, done: seq<DocNode>)
    requires i < |nodes|
    ensures done + WalkAll(nodes[i..], breadcrumb)
         == done + WalkOne(nodes[i], breadcrumb) + WalkAll(nodes[i + 1..], breadcrumb)
    ensures done + WalkBodies(nodes[i..], breadcrumb)
         == done + (if nodes[i].kind.Body? then WalkAll(nodes[i].children, breadcrumb) else [])
          + WalkBodies(nodes[i + 1..], breadcrumb)
  {
    assert nodes[i..][0] == nodes[i] && nodes[i..][1..] == nodes[i + 1..];
  }

  method WalkChildren(node: Syntax, breadcrumb: seq<Text>) returns (children: seq<DocNode>)
    ensures children == WalkAll(node.children, breadcrumb)
    decreases node, 1
  {
    children := [];
    ghost var goal := WalkAll(node.children, breadcrumb);
    var i := 0;
    while i < |node.children|
      invariant i <= |node.children|
      invariant children + WalkAll(node.children[i..], breadcrumb) == goal
    {
      var child := node.children[i];
      WalkAllStep(node.children, i, breadcrumb, children);
      ghost var done := children;
      if child.kind.Comment? {
        if child.text != [] {
          children := children + [DocNode(Paragraph, Some(child.text), [], Span(child.start, child.end))];
        }
        assert children == done + WalkOne(child, breadcrumb);
        i := i + 1;
        continue;
      }
      if child.kind.Definition? {
        var newBreadcrumb := breadcrumb;
        if child.name != [] {
          newBreadcrumb := newBreadcrumb + [child.name];
        }
        var nested := WalkChildren(child, newBreadcrumb);
        var nestedInBlock := WalkBlockBodies(child, newBreadcrumb);
        children := children + [SectionFor(child, breadcrumb, nested + nestedInBlock)];
        assert children == done + WalkOne(child, breadcrumb);
        i := i + 1;
        continue;
      }
      if !child.kind.Body? {
        if !child.blank {
          children := children + [DocNode(Code, Some(child.text), [], Span(child.start, child.end))];
        }
      }
      assert children == done + WalkOne(child, breadcrumb);
      i := i + 1;
    }
    assert node.children[i..] == [];
  }

  method WalkBlockBodies(node: Syntax, breadcrumb: seq<Text>) returns (children: seq<DocNode>)
    ensures children == WalkBodies(node.children, breadcrumb)
    decreases node, 0
  {
    children := [];
    ghost var goal := WalkBodies(node.children, breadcrumb);
    for i := 0 to |node.children|
      invariant children + WalkBodies(node.children[i..], breadcrumb) == goal
    {
      var child := node.children[i];
      WalkAllStep(node.children, i, breadcrumb, children);
      if child.kind.Body? {
        var blockChildren := WalkChildren(child, breadcrumb);
        children := children + blockChildren;
      }
    }
  }

  method ParseDoc(root: Syntax, length: nat) returns (doc: DocNode)
    ensures doc == DocumentOf(root, length)
  {
    var children := WalkChildren(root, []);
    doc := DocNode(Document, None, children, Span(0, length));
  }

  function DocumentOf(root: Syntax, length: nat): DocNode {
    DocNode(Document, None, WalkAll(root.children, []), Span(0, length))
  }

  // ---- Laminar output ----

  predicate Covers(outer: Syntax, node: DocNode) {
    outer.start <= node.attrs.byteStart && node.attrs.byteEnd <= outer.end
  }

  predicate Apart(a: Syntax, b: Syntax) {
    a.end <= b.start || b.end <= a.start
  }

  ghost predicate PairwiseApart(nodes: seq<Syntax>) {
    forall i, j | 0 <= i < j < |nodes| :: Apart(nodes[i], nodes[j])
  }

  /** The syntax tree itself nests, with disjoint siblings. */
  ghost predicate WellNested(node: Syntax)
    decreases node
  {
    && (forall i | 0 <= i < |node.children| ::
          && node.start <= node.children[i].start && node.children[i].end <= node.end
          && WellNested(node.children[i]))
    && PairwiseApart(node.children)
  }

  ghost predicate AllLaminar(nodes: seq<DocNode>) {
    && (forall i | 0 <= i < |nodes| :: Laminar(nodes[i]))
    && (forall i, j | 0 <= i < j < |nodes| :: Disjoint(nodes[i], nodes[j]))
  }

  /** Every output lies within some syntax node of the wanted sort. */
  ghost predicate From(out: seq<DocNode>, nodes: seq<Syntax>, bodies: bool) {
    forall k | 0 <= k < |out| :: Stems(out[k], nodes, bodies)
  }

  ghost predicate Stems(node: DocNode, nodes: seq<Syntax>, bodies: bool) {
    exists i :: 0 <= i < |nodes| && nodes[i].kind.Body? == bodies && Covers(nodes[i], node)
  }

  lemma {:induction false} WalkOneLaminar(node: Syntax, breadcrumb: seq<Text>)
    requires WellNested(node)
    ensures forall n | n in WalkOne(node, breadcrumb) :: Laminar(n) && Covers(node, n)
    ensures WalkOne(node, breadcrumb) != [] ==> !node.kind.Body?
    decreases node, 1
  {
    if node.kind.Definition? {
      var inner := Inside(node, breadcrumb);
      var nested, bodies := WalkAll(node.children, inner), WalkBodies(node.children, inner);
      WalkAllLaminar(node.children, inner);
      WalkBodiesLaminar(node.children, inner);
      var section := WalkOne(node, breadcrumb)[0];
      assert section.children == nested + bodies;
      forall k | 0 <= k < |nested + bodies|
        ensures NestedIn((nested + bodies)[k], section)
      {
        if k < |nested| {
          assert (nested + bodies)[k] == nested[k];
        } else {
          assert (nested + bodies)[k] == bodies[k - |nested|];
        }
      }
    }
  }

  /** Putting the output of one node in front of the output of its later siblings. */
  lemma PrependLaminar(nodes: seq<Syntax>, head: seq<DocNode>, tail: seq<DocNode>, bodies: bool)
    requires nodes != [] && PairwiseApart(nodes)
    requires AllLaminar(head) && AllLaminar(tail)
    requires head != [] ==> nodes[0].kind.Body? == bodies
    requires forall n | n in head :: Covers(nodes[0], n)
    requires From(tail, nodes[1..], bodies)
    ensures AllLaminar(head + tail) && From(head + tail, nodes, bodies)
  {
    var all, later := head + tail, nodes[1..];
    forall k | 0 <= k < |tail|
      ensures exists i :: 1 <= i < |nodes| && nodes[i].kind.Body? == bodies && Covers(nodes[i], tail[k])
    {
      assert Stems(tail[k], later, bodies);
      var i :| 0 <= i < |later| && later[i].kind.Body? == bodies && Covers(later[i], tail[k]);
      assert nodes[i + 1] == later[i];
    }
    forall i, j | 0 <= i < j < |all|
      ensures Disjoint(all[i], all[j])
    {
      if i < |head| <= j {
        var b :| 1 <= b < |nodes| && nodes[b].kind.Body? == bodies && Covers(nodes[b], tail[j - |head|]);
        assert Apart(nodes[0], nodes[b]);
        assert all[i] in head;
      }
    }
    forall k | 0 <= k < |all|
      ensures Stems(all[k], nodes, bodies)
    {
      if k < |head| {
        assert all[k] in head;
      } else {
        assert all[k] == tail[k - |head|];
      }
    }
  }

  lemma {:induction false} WalkAllLaminar(nodes: seq<Syntax>, breadcrumb: seq<Text>)
    requires (forall i | 0 <= i < |nodes| :: WellNested(nodes[i])) && PairwiseApart(nodes)
    ensures AllLaminar(WalkAll(nodes, breadcrumb)) && From(WalkAll(nodes, breadcrumb), nodes, false)
    decreases nodes, 0
  {
    if nodes != [] {
      WalkOneLaminar(nodes[0], breadcrumb);
      WalkAllLaminar(nodes[1..], breadcrumb);
      PrependLaminar(nodes, WalkOne(nodes[0], breadcrumb), WalkAll(nodes[1..], breadcrumb), false);
    }
  }

  lemma {:induction false} WalkBodiesLaminar(nodes: seq<Syntax>, breadcrumb: seq<Text>)
    requires (forall i | 0 <= i < |nodes| :: WellNested(nodes[i])) && PairwiseApart(nodes)
    ensures AllLaminar(WalkBodies(nodes, breadcrumb)) && From(WalkBodies(nodes, breadcrumb), nodes, true)
    decreases nodes, 0
  {
    if nodes != [] {
      WalkBodiesLaminar(nodes[1..], breadcrumb);
      var head := if nodes[0].kind.Body? then WalkAll(nodes[0].children, breadcrumb) else [];
      if nodes[0].kind.Body? {
        WalkAllLaminar(nodes[0].children, breadcrumb);
        forall n | n in head
          ensures Covers(nodes[0], n)
        {
          var k :| 0 <= k < |head| && head[k] == n;
          assert Stems(head[k], nodes[0].children, false);
          var i :| 0 <= i < |nodes[0].children| && nodes[0].children[i].kind.Body? == false
                   && Covers(nodes[0].children[i], head[k]);
        }
      }
      PrependLaminar(nodes, head, WalkBodies(nodes[1..], breadcrumb), true);
    }
  }

  /** A well-nested syntax tree within the file gives a laminar document tree. */
  lemma DocumentIsLaminar(root: Syntax, length: nat)
    requires WellNested(root) && 0 <= root.start && root.end <= length
    ensures Laminar(DocumentOf(root, length))
  {
    var out := WalkAll(root.children, []);
    WalkAllLaminar(root.children, []);
    forall k | 0 <= k < |out|
      ensures 0 <= out[k].attrs.byteStart && out[k].attrs.byteEnd <= length
    {
    }
  }

  /** End to end: for every chunk of a parsed file the TypeScript lookup names the innermost
      definition around it. */
  lemma InnermostDefinition(root: Syntax, length: nat, start: int, end: int)
    requires WellNested(root) && 0 <= root.start && root.end <= length && start < end
    ensures ReturnsOnlyDeepest(TypeScript, DocumentOf(root, length), start, end)
  {
    DocumentIsLaminar(root, length);
    TypeScriptFindsDeepest(DocumentOf(root, length), start, end);
  }
}
