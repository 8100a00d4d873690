/** What the syntax walker emits: one document node for each syntax node that is reached and shown, and no other,
    each named by the definitions around it. */
module SyntaxCoverage {
  import opened Wrappers
  import opened Utf8
  import opened Document
  import opened Joining
  import opened Lookup
  import opened SyntaxWalker

  // ---- Places in a syntax tree ----

  /** The positions from child to child that lead to a node below the given siblings. */
  type Path = seq<nat>

  predicate Leads(nodes: seq<Syntax>, path: Path)
    decreases |path|
  {
    path != [] && path[0] < |nodes| && (|path| > 1 ==> Leads(nodes[path[0]].children, path[1..]))
  }

  function At(nodes: seq<Syntax>, path: Path): Syntax
    requires Leads(nodes, path)
    decreases |path|
  {
    if |path| == 1 then nodes[path[0]] else At(nodes[path[0]].children, path[1..])
  }

  /** A definition always shows, a comment if text is left of it, any other node but a body if it is not blank. */
  predicate Shows(node: Syntax) {
    match node.kind
    case Definition => true
    case Comment => |node.text| > 0
    case Body => false
    case Other => !node.blank
  }

  /** The node above the last one lets it be reached: a definition does, and a body right inside a definition. */
  predicate Opens(nodes: seq<Syntax>, path: Path, j: nat)
    requires Leads(nodes, path) && 0 < j < |path|
  {
    LeadsUpTo(nodes, path, j);
    || At(nodes, path[..j]).kind.Definition?
    || (At(nodes, path[..j]).kind.Body? && j > 1
        && (LeadsUpTo(nodes, path, j - 1); At(nodes, path[..j - 1]).kind.Definition?))
  }

  /** A node is reached if everything above it opens. */
  predicate Reached(nodes: seq<Syntax>, path: Path) {
    Leads(nodes, path) && forall j | 0 < j < |path| :: Opens(nodes, path, j)
  }

  lemma {:induction false} LeadsUpTo(nodes: seq<Syntax>, path: Path, j: nat)
    requires Leads(nodes, path) && 0 < j <= |path|
    ensures Leads(nodes, path[..j])
    decreases |path|
  {
    if |path| > 1 && j > 1 {
      LeadsUpTo(nodes[path[0]].children, path[1..], j - 1);
      assert path[..j][1..] == path[1..][..j - 1];
    }
  }

  /** The names of the definitions around a node, outermost first; a definition without a name has none. */
  function Scopes(nodes: seq<Syntax>, path: Path): seq<Text>
    requires Leads(nodes, path)
    decreases |path|
  {
    if |path| == 1 then []
    else
      var outer := nodes[path[0]];
      (if outer.kind.Definition? && |outer.name| > 0 then [outer.name] else []) + Scopes(outer.children, path[1..])
  }

  /** How many definitions are around a node. */
  function Around(nodes: seq<Syntax>, path: Path): nat
    requires Leads(nodes, path)
    decreases |path|
  {
    if |path| == 1 then 0
    else (if nodes[path[0]].kind.Definition? then 1 else 0) + Around(nodes[path[0]].children, path[1..])
  }

  // ---- What stands for a node ----

  /** The citation is that name in its scopes: all of them, then the name itself, with `::` between. */
  ghost predicate CitedAs(citation: Option<Text>, scopes: seq<Text>, defined: Option<Text>) {
    match defined
    case None => citation == None
    case Some(name) => citation.Some? && LaidOut(citation.value, scopes + [name], "::")
  }

  ghost predicate StandsFor(doc: DocNode, node: Syntax, scopes: seq<Text>) {
    && doc.attrs.byteStart == node.start && doc.attrs.byteEnd == node.end
    && match node.kind
       case Definition =>
         && doc.nodeType == Section
         && doc.text == (if |node.signature| == 0 then None else Some(node.signature))
         && doc.attrs.headingLevel == Some(|scopes| + 1)
         && CitedAs(doc.attrs.citation, scopes, node.defined)
       case Comment => doc.nodeType == Paragraph && doc.text == Some(node.text) && doc.children == []
       case Other => doc.nodeType == Code && doc.text == Some(node.text) && doc.children == []
       case Body => false
  }

  lemma FqnIsCited(node: Syntax, scopes: seq<Text>)
    ensures CitedAs(Fqn(node, scopes), scopes, node.defined)
  {
    if node.defined.Some? {
      var name := node.defined.value;
      JoinIsLaidOut(scopes + [name], "::");
      JoinGrows(scopes, name, "::");
    }
  }

  lemma {:induction false} JoinGrows(parts: seq<string>, last: string, separator: string)
    ensures Join(parts + [last], separator) == if parts == [] then last else Join(parts, separator) + separator + last
  {
    if |parts| > 0 {
      assert (parts + [last])[1..] == parts[1..] + [last];
      JoinGrows(parts[1..], last, separator);
    } else {
      assert parts + [last] == [last];
    }
  }

  // ---- Reaching step by step from the top ----

  /** Reached and shown, below siblings that are walked themselves or, with `bodies`, whose bodies are. */
  predicate Emitted(nodes: seq<Syntax>, bodies: bool, path: Path)
    decreases |path|
  {
    && path != [] && path[0] < |nodes|
    && (var first := nodes[path[0]];
        if bodies then |path| > 1 && first.kind.Body? && Emitted(first.children, false, path[1..])
        else if |path| == 1 then Shows(first)
        else first.kind.Definition? && (Emitted(first.children, false, path[1..]) || Emitted(first.children, true, path[1..])))
  }

  lemma OpensBelow(nodes: seq<Syntax>, path: Path, j: nat)
    requires Leads(nodes, path) && 1 < j < |path|
    ensures var below, rest := nodes[path[0]].children, path[1..];
      Opens(nodes, path, j)
      <==> Opens(below, rest, j - 1) || (j == 2 && below[rest[0]].kind.Body? && nodes[path[0]].kind.Definition?)
  {
    LeadsUpTo(nodes, path, j);
    LeadsUpTo(nodes, path, j - 1);
    assert path[..j][1..] == path[1..][..j - 1] && path[..j - 1][1..] == path[1..][..j - 2];
  }

  /** What is reached through a body. */
  predicate ThroughBody(nodes: seq<Syntax>, path: Path) {
    |path| > 1 && path[0] < |nodes| && nodes[path[0]].kind.Body? && Reached(nodes[path[0]].children, path[1..])
  }

  /** Below a node that opens everything from position 2 on opens as it does seen from its children. */
  lemma ReachedBelow(nodes: seq<Syntax>, path: Path)
    requires Leads(nodes, path) && |path| > 1
    ensures var first := nodes[path[0]];
      Reached(nodes, path)
      <==> first.kind.Definition? && (Reached(first.children, path[1..]) || ThroughBody(first.children, path[1..]))
  {
    var first, rest := nodes[path[0]], path[1..];
    FirstOpens(nodes, path);
    if first.kind.Definition? {
      if first.children[rest[0]].kind.Body? {
        ReachedBelowBody(nodes, path);
      } else {
        ReachedBelowDefinition(nodes, path);
      }
    } else {
      assert !Opens(nodes, path, 1);
    }
  }

  lemma FirstOpens(nodes: seq<Syntax>, path: Path)
    requires Leads(nodes, path) && |path| > 1
    ensures Opens(nodes, path, 1) <==> nodes[path[0]].kind.Definition?
  {
    LeadsUpTo(nodes, path, 1);
  }

  lemma ReachedBelowDefinition(nodes: seq<Syntax>, path: Path)
    requires Leads(nodes, path) && |path| > 1 && nodes[path[0]].kind.Definition?
    requires Leads(nodes[path[0]].children, path[1..]) && !nodes[path[0]].children[path[1..][0]].kind.Body?
    ensures Reached(nodes, path) <==> Reached(nodes[path[0]].children, path[1..])
  {
    var below, rest := nodes[path[0]].children, path[1..];
    FirstOpens(nodes, path);
    forall j | 1 < j < |path|
      ensures Opens(nodes, path, j) <==> Opens(below, rest, j - 1)
    {
      OpensBelow(nodes, path, j);
    }
    if Reached(nodes, path) {
      forall k | 0 < k < |rest| ensures Opens(below, rest, k) {
        assert Opens(nodes, path, k + 1);
      }
    }
  }

  lemma ReachedBelowBody(nodes: seq<Syntax>, path: Path)
    requires Leads(nodes, path) && |path| > 1 && nodes[path[0]].kind.Definition?
    requires Leads(nodes[path[0]].children, path[1..]) && nodes[path[0]].children[path[1..][0]].kind.Body?
    ensures var below, rest := nodes[path[0]].children, path[1..];
      Reached(nodes, path) <==> Reached(below, rest) || ThroughBody(below, rest)
  {
    var below, rest := nodes[path[0]].children, path[1..];
    FirstOpens(nodes, path);
    if |rest| > 1 {
      var inside, last := below[rest[0]].children, rest[1..];
      FirstOpens(below, rest);
      forall j | 1 < j < |path|
        ensures Opens(nodes, path, j) <==> j == 2 || Opens(inside, last, j - 2)
      {
        OpensBelow(nodes, path, j);
        if j > 2 {
          OpensBelow(below, rest, j - 1);
        }
      }
      if Reached(nodes, path) {
        forall k | 0 < k < |last| ensures Opens(inside, last, k) {
          assert Opens(nodes, path, k + 2);
        }
      }
      assert !Reached(below, rest);
    }
  }

  /** What is emitted is what is reached and shown. */
  lemma {:induction false} EmittedIff(nodes: seq<Syntax>, path: Path)
    ensures Emitted(nodes, false, path) <==> Reached(nodes, path) && Shows(At(nodes, path))
    ensures Emitted(nodes, true, path) <==> ThroughBody(nodes, path) && Shows(At(nodes, path))
    decreases |path|
  {
    if |path| > 1 && path[0] < |nodes| {
      var below, rest := nodes[path[0]].children, path[1..];
      EmittedIff(below, rest);
      if Leads(below, rest) {
        assert Leads(nodes, path) && At(nodes, path) == At(below, rest);
        ReachedBelow(nodes, path);
      }
    }
  }

  // ---- Lists of places ----

  /** The order of the walk: a node comes before what is inside it, what is inside bodies behind what stands beside
      them, and otherwise the earlier sibling first. */
  predicate Before(nodes: seq<Syntax>, p: Path, q: Path)
    decreases |p|
  {
    if p == [] || q == [] then p == [] && q != []
    else if p[0] == q[0] then p[0] < |nodes| && Before(nodes[p[0]].children, p[1..], q[1..])
    else
      var late := p[0] < |nodes| && nodes[p[0]].kind.Body?;
      var later := q[0] < |nodes| && nodes[q[0]].kind.Body?;
      if late == later then p[0] < q[0] else later
  }

  lemma {:induction false} NotBeforeItself(nodes: seq<Syntax>, p: Path)
    ensures !Before(nodes, p, p)
    decreases |p|
  {
    if p != [] && p[0] < |nodes| {
      NotBeforeItself(nodes[p[0]].children, p[1..]);
    }
  }

  ghost function Order(nodes: seq<Syntax>): (Path, Path) -> bool {
    (p, q) => Before(nodes, p, q)
  }

  /** The nodes stand, one by one, for the places that are covered, in this order. */
  ghost predicate Lists(
    paths: seq<Path>, docs: seq<DocNode>, depths: seq<nat>, covers: Path -> bool, fits: (Path, DocNode, nat) -> bool,
    before: (Path, Path) -> bool) {
    && |paths| == |docs| == |depths|
    && (forall k: nat | k < |paths| :: covers(paths[k]) && fits(paths[k], docs[k], depths[k]))
    && (forall k, l | 0 <= k < l < |paths| :: before(paths[k], paths[l]))
    && (forall p | covers(p) :: p in paths)
  }

  lemma ListedInOrder(pa: seq<Path>, pb: seq<Path>, ca: Path -> bool, cb: Path -> bool, before: (Path, Path) -> bool)
    requires forall k, l | 0 <= k < l < |pa| :: before(pa[k], pa[l])
    requires forall k, l | 0 <= k < l < |pb| :: before(pb[k], pb[l])
    requires (forall k | 0 <= k < |pa| :: ca(pa[k])) && (forall k | 0 <= k < |pb| :: cb(pb[k]))
    requires forall p, q | ca(p) && cb(q) :: before(p, q)
    ensures forall k, l | 0 <= k < l < |pa + pb| :: before((pa + pb)[k], (pa + pb)[l])
  {
    var paths := pa + pb;
    forall k, l | 0 <= k < l < |paths|
      ensures before(paths[k], paths[l])
    {
      if k < |pa| <= l {
        assert paths[k] == pa[k] && paths[l] == pb[l - |pa|];
      }
    }
  }

  lemma ListsJoin(
    pa: seq<Path>, da: seq<DocNode>, ha: seq<nat>, ca: Path -> bool,
    pb: seq<Path>, db: seq<DocNode>, hb: seq<nat>, cb: Path -> bool,
    covers: Path -> bool, fits: (Path, DocNode, nat) -> bool, before: (Path, Path) -> bool)
    requires Lists(pa, da, ha, ca, fits, before) && Lists(pb, db, hb, cb, fits, before)
    requires forall p, q | ca(p) && cb(q) :: before(p, q)
    requires forall p :: covers(p) <==> ca(p) || cb(p)
    ensures Lists(pa + pb, da + db, ha + hb, covers, fits, before)
  {
    var paths, docs, depths := pa + pb, da + db, ha + hb;
    forall k: nat | k < |paths|
      ensures covers(paths[k]) && fits(paths[k], docs[k], depths[k])
    {
      if k < |pa| {
        assert paths[k] == pa[k] && docs[k] == da[k] && depths[k] == ha[k];
      } else {
        var l := k - |pa|;
        assert paths[k] == pb[l] && docs[k] == db[l] && depths[k] == hb[l];
      }
    }
    ListedInOrder(pa, pb, ca, cb, before);
    forall p | covers(p)
      ensures p in paths
    {
      if ca(p) {
        assert p in pa;
      } else {
        assert p in pb;
      }
    }
  }

  function Below(i: nat, paths: seq<Path>): (below: seq<Path>)
    ensures |below| == |paths|
  {
    seq(|paths|, k requires 0 <= k < |paths| => [i] + paths[k])
  }

  lemma ListsBelow(
    i: nat, paths: seq<Path>, docs: seq<DocNode>, depths: seq<nat>,
    covers: Path -> bool, fits: (Path, DocNode, nat) -> bool, before: (Path, Path) -> bool,
    outer: Path -> bool, fitsOuter: (Path, DocNode, nat) -> bool, beforeOuter: (Path, Path) -> bool)
    requires Lists(paths, docs, depths, covers, fits, before)
    requires forall p :: outer(p) <==> p != [] && p[0] == i && covers(p[1..])
    requires forall p, doc, h | covers(p) && fits(p, doc, h) :: fitsOuter([i] + p, doc, h)
    requires forall p, q | before(p, q) :: beforeOuter([i] + p, [i] + q)
    ensures Lists(Below(i, paths), docs, depths, outer, fitsOuter, beforeOuter)
  {
    var below := Below(i, paths);
    forall k: nat | k < |below|
      ensures outer(below[k]) && fitsOuter(below[k], docs[k], depths[k])
    {
      assert below[k][1..] == paths[k];
      assert covers(paths[k]) && fits(paths[k], docs[k], depths[k]);
    }
    forall k, l | 0 <= k < l < |below|
      ensures beforeOuter(below[k], below[l])
    {
      assert before(paths[k], paths[l]);
    }
    forall p | outer(p)
      ensures p in below
    {
      var k: nat :| k < |paths| && paths[k] == p[1..];
      assert below[k] == p;
    }
  }

  lemma OrderBelow(nodes: seq<Syntax>, i: nat)
    requires i < |nodes|
    ensures forall p, q | Order(nodes[i].children)(p, q) :: Order(nodes)([i] + p, [i] + q)
  {
    forall p: Path, q: Path | Order(nodes[i].children)(p, q)
      ensures Order(nodes)([i] + p, [i] + q)
    {
      assert ([i] + p)[1..] == p && ([i] + q)[1..] == q;
    }
  }

  // ---- What the walker lists ----

  /** The places emitted from child `i` on. */
  ghost function EmittedFrom(nodes: seq<Syntax>, bodies: bool, i: nat): Path -> bool {
    p => p != [] && p[0] >= i && Emitted(nodes, bodies, p)
  }

  ghost function EmittedAt(nodes: seq<Syntax>, bodies: bool, i: nat): Path -> bool {
    p => p != [] && p[0] == i && Emitted(nodes, bodies, p)
  }

  ghost function EmittedBelow(node: Syntax): Path -> bool {
    p => Emitted(node.children, false, p) || Emitted(node.children, true, p)
  }

  /** The document node stands for the place's node, in the scopes around it, and so deep. */
  ghost function Fits(nodes: seq<Syntax>, scopes: seq<Text>, depth: nat): (Path, DocNode, nat) -> bool {
    (p, doc, h) =>
      Leads(nodes, p) && StandsFor(doc, At(nodes, p), scopes + Scopes(nodes, p)) && h == depth + Around(nodes, p)
  }

  ghost predicate ListsOut(
    paths: seq<Path>, out: seq<DocNode>, depth: nat, covers: Path -> bool, fits: (Path, DocNode, nat) -> bool,
    before: (Path, Path) -> bool) {
    Lists(paths, PreorderAll(out), DepthsAll(out, depth), covers, fits, before)
  }

  lemma OutCons(head: DocNode, tail: seq<DocNode>, depth: nat)
    ensures PreorderAll([head] + tail) == Preorder(head) + PreorderAll(tail)
    ensures DepthsAll([head] + tail, depth) == Depths(head, depth) + DepthsAll(tail, depth)
  {
    assert ([head] + tail)[1..] == tail;
  }

  lemma {:induction false} OutAppends(a: seq<DocNode>, b: seq<DocNode>, depth: nat)
    ensures PreorderAll(a + b) == PreorderAll(a) + PreorderAll(b)
    ensures DepthsAll(a + b, depth) == DepthsAll(a, depth) + DepthsAll(b, depth)
    decreases |a|, 0
  {
    if a == [] {
      assert a + b == b;
    } else {
      assert a == [a[0]] + a[1..] && a + b == [a[0]] + (a[1..] + b);
      OutAppendsTail(a[0], a[1..], b, depth);
    }
  }

  lemma {:induction false} OutAppendsTail(head: DocNode, tail: seq<DocNode>, b: seq<DocNode>, depth: nat)
    ensures PreorderAll([head] + (tail + b)) == PreorderAll([head] + tail) + PreorderAll(b)
    ensures DepthsAll([head] + (tail + b), depth) == DepthsAll([head] + tail, depth) + DepthsAll(b, depth)
    decreases |tail|, 1
  {
    OutCons(head, tail + b, depth);
    OutCons(head, tail, depth);
    OutAppends(tail, b, depth);
  }

  lemma ListsOutJoin(
    pa: seq<Path>, a: seq<DocNode>, ca: Path -> bool, pb: seq<Path>, b: seq<DocNode>, cb: Path -> bool,
    depth: nat, covers: Path -> bool, fits: (Path, DocNode, nat) -> bool, before: (Path, Path) -> bool)
    requires ListsOut(pa, a, depth, ca, fits, before) && ListsOut(pb, b, depth, cb, fits, before)
    requires forall p, q | ca(p) && cb(q) :: before(p, q)
    requires forall p :: covers(p) <==> ca(p) || cb(p)
    ensures ListsOut(pa + pb, a + b, depth, covers, fits, before)
  {
    OutAppends(a, b, depth);
    ListsJoin(pa, PreorderAll(a), DepthsAll(a, depth), ca, pb, PreorderAll(b), DepthsAll(b, depth), cb,
              covers, fits, before);
  }

  lemma ListsNothing(depth: nat, covers: Path -> bool, fits: (Path, DocNode, nat) -> bool, before: (Path, Path) -> bool)
    requires forall p :: !covers(p)
    ensures ListsOut([], [], depth, covers, fits, before)
  {
  }

  lemma {:induction false} WalkAllLists(nodes: seq<Syntax>, i: nat, scopes: seq<Text>, depth: nat) returns (paths: seq<Path>)
    requires i <= |nodes|
    ensures ListsOut(paths, WalkAll(nodes[i..], scopes), depth, EmittedFrom(nodes, false, i), Fits(nodes, scopes, depth), Order(nodes))
    decreases nodes, |nodes| - i, 1
  {
    if i == |nodes| {
      paths := [];
      ListsNothing(depth, EmittedFrom(nodes, false, i), Fits(nodes, scopes, depth), Order(nodes));
    } else {
      var first := WalkOneLists(nodes, i, scopes, depth);
      var rest := WalkAllLists(nodes, i + 1, scopes, depth);
      paths := first + rest;
      WalkAllStep(nodes, i, scopes, []);
      assert WalkAll(nodes[i..], scopes) == WalkOne(nodes[i], scopes) + WalkAll(nodes[i + 1..], scopes);
      ListsOutJoin(first, WalkOne(nodes[i], scopes), EmittedAt(nodes, false, i),
                   rest, WalkAll(nodes[i + 1..], scopes), EmittedFrom(nodes, false, i + 1),
                   depth, EmittedFrom(nodes, false, i), Fits(nodes, scopes, depth), Order(nodes));
    }
  }

  lemma {:induction false} WalkBodiesLists(nodes: seq<Syntax>, i: nat, scopes: seq<Text>, depth: nat)
    returns (paths: seq<Path>)
    requires i <= |nodes|
    ensures ListsOut(paths, WalkBodies(nodes[i..], scopes), depth, EmittedFrom(nodes, true, i), Fits(nodes, scopes, depth), Order(nodes))
    decreases nodes, |nodes| - i, 1
  {
    if i == |nodes| {
      paths := [];
      ListsNothing(depth, EmittedFrom(nodes, true, i), Fits(nodes, scopes, depth), Order(nodes));
    } else {
      var out := if nodes[i].kind.Body? then WalkAll(nodes[i].children, scopes) else [];
      var first: seq<Path> := [];
      if nodes[i].kind.Body? {
        first := BodyLists(nodes, i, scopes, depth);
      } else {
        ListsNothing(depth, EmittedAt(nodes, true, i), Fits(nodes, scopes, depth), Order(nodes));
      }
      var rest := WalkBodiesLists(nodes, i + 1, scopes, depth);
      paths := first + rest;
      WalkAllStep(nodes, i, scopes, []);
      assert WalkBodies(nodes[i..], scopes) == out + WalkBodies(nodes[i + 1..], scopes);
      ListsOutJoin(first, out, EmittedAt(nodes, true, i),
                   rest, WalkBodies(nodes[i + 1..], scopes), EmittedFrom(nodes, true, i + 1),
                   depth, EmittedFrom(nodes, true, i), Fits(nodes, scopes, depth), Order(nodes));
    }
  }

  lemma {:induction false} BodyLists(nodes: seq<Syntax>, i: nat, scopes: seq<Text>, depth: nat) returns (paths: seq<Path>)
    requires i < |nodes| && nodes[i].kind.Body?
    ensures ListsOut(paths, WalkAll(nodes[i].children, scopes), depth, EmittedAt(nodes, true, i), Fits(nodes, scopes, depth), Order(nodes))
    decreases nodes, |nodes| - i, 0
  {
    var below := nodes[i].children;
    OrderBelow(nodes, i);
    var inside := WalkAllLists(below, 0, scopes, depth);
    assert below[0..] == below;
    forall p, doc, h | EmittedFrom(below, false, 0)(p) && Fits(below, scopes, depth)(p, doc, h)
      ensures Fits(nodes, scopes, depth)([i] + p, doc, h)
    {
      PlaceBelow(nodes, i, p);
      assert [] + Scopes(below, p) == Scopes(below, p);
    }
    ListsBelow(i, inside, PreorderAll(WalkAll(below, scopes)), DepthsAll(WalkAll(below, scopes), depth),
               EmittedFrom(below, false, 0), Fits(below, scopes, depth), Order(below),
               EmittedAt(nodes, true, i), Fits(nodes, scopes, depth), Order(nodes));
    paths := Below(i, inside);
  }

  lemma PlaceBelow(nodes: seq<Syntax>, i: nat, p: Path)
    requires i < |nodes| && Leads(nodes[i].children, p)
    ensures var path, outer := [i] + p, nodes[i];
      && Leads(nodes, path) && At(nodes, path) == At(outer.children, p)
      && Scopes(nodes, path)
      == (if outer.kind.Definition? && |outer.name| > 0 then [outer.name] else []) + Scopes(outer.children, p)
      && Around(nodes, path) == (if outer.kind.Definition? then 1 else 0) + Around(outer.children, p)
  {
    assert ([i] + p)[1..] == p;
  }

  lemma {:induction false} WalkOneLists(nodes: seq<Syntax>, i: nat, scopes: seq<Text>, depth: nat)
    returns (paths: seq<Path>)
    requires i < |nodes|
    ensures ListsOut(paths, WalkOne(nodes[i], scopes), depth, EmittedAt(nodes, false, i), Fits(nodes, scopes, depth), Order(nodes))
    decreases nodes, |nodes| - i, 0
  {
    var node := nodes[i];
    if node.kind.Definition? {
      var inner := Inside(node, scopes);
      var below := node.children;
      var all := WalkAllLists(below, 0, inner, depth + 1);
      var bodies := WalkBodiesLists(below, 0, inner, depth + 1);
      assert below[0..] == below;
      var out := WalkAll(below, inner) + WalkBodies(below, inner);
      ListsOutJoin(all, WalkAll(below, inner), EmittedFrom(below, false, 0),
                   bodies, WalkBodies(below, inner), EmittedFrom(below, true, 0),
                   depth + 1, EmittedBelow(node), Fits(below, inner, depth + 1), Order(below));
      paths := DefinitionLists(nodes, i, scopes, depth, all + bodies, out);
    } else if Shows(node) {
      paths := [[i]];
      ShownAlone(nodes, i, scopes, depth);
    } else {
      paths := [];
      ListsNothing(depth, EmittedAt(nodes, false, i), Fits(nodes, scopes, depth), Order(nodes));
    }
  }

  lemma ListsSingle(path: Path, doc: DocNode, depth: nat, covers: Path -> bool, fits: (Path, DocNode, nat) -> bool,
                    before: (Path, Path) -> bool)
    requires forall p :: covers(p) <==> p == path
    requires fits(path, doc, depth)
    ensures Lists([path], [doc], [depth], covers, fits, before)
  {
  }

  lemma ShownAlone(nodes: seq<Syntax>, i: nat, scopes: seq<Text>, depth: nat)
    requires i < |nodes| && Shows(nodes[i]) && !nodes[i].kind.Definition?
    ensures ListsOut([[i]], WalkOne(nodes[i], scopes), depth, EmittedAt(nodes, false, i), Fits(nodes, scopes, depth), Order(nodes))
  {
    var out := WalkOne(nodes[i], scopes);
    assert out == [out[0]] && out[1..] == [] && out[0].children == [];
    assert PreorderAll(out) == [out[0]] && DepthsAll(out, depth) == [depth];
    forall p
      ensures EmittedAt(nodes, false, i)(p) <==> p == [i]
    {
      if |p| == 1 && p[0] == i {
        assert p == [i];
      }
    }
    FitsItself(nodes, i, scopes, depth, out[0]);
    ListsSingle([i], out[0], depth, EmittedAt(nodes, false, i), Fits(nodes, scopes, depth), Order(nodes));
  }

  lemma FitsItself(nodes: seq<Syntax>, i: nat, scopes: seq<Text>, depth: nat, doc: DocNode)
    requires i < |nodes| && StandsFor(doc, nodes[i], scopes)
    ensures Fits(nodes, scopes, depth)([i], doc, depth)
  {
    var path: Path := [i];
    assert Leads(nodes, path) && At(nodes, path) == nodes[i] && Around(nodes, path) == 0;
    assert scopes + Scopes(nodes, path) == scopes;
  }

  /** The places inside a definition. */
  ghost function InsideAt(nodes: seq<Syntax>, i: nat): Path -> bool
    requires i < |nodes|
  {
    var below := EmittedBelow(nodes[i]);
    p => p != [] && p[0] == i && below(p[1..])
  }

  lemma PlacesOfDefinition(nodes: seq<Syntax>, i: nat, p: Path)
    requires i < |nodes| && nodes[i].kind.Definition?
    ensures EmittedAt(nodes, false, i)(p) <==> p == [i] || InsideAt(nodes, i)(p)
    ensures InsideAt(nodes, i)(p) ==> Order(nodes)([i], p)
  {
    if p != [] && p[0] == i {
      if |p| == 1 {
        assert p == [i] && p[1..] == [];
        assert !Emitted(nodes[i].children, false, []) && !Emitted(nodes[i].children, true, []);
      }
      var rest: Path, self: Path := p[1..], [i];
      assert self[1..] == [] && (rest != [] ==> Before(nodes[i].children, self[1..], rest));
      assert EmittedBelow(nodes[i])(rest) <==> Emitted(nodes[i].children, false, rest) || Emitted(nodes[i].children, true, rest);
    }
  }

  lemma InsideFits(nodes: seq<Syntax>, i: nat, scopes: seq<Text>, depth: nat, inside: seq<Path>, out: seq<DocNode>)
    requires i < |nodes| && nodes[i].kind.Definition?
    requires ListsOut(inside, out, depth + 1, EmittedBelow(nodes[i]),
                      Fits(nodes[i].children, Inside(nodes[i], scopes), depth + 1), Order(nodes[i].children))
    ensures Lists(Below(i, inside), PreorderAll(out), DepthsAll(out, depth + 1), InsideAt(nodes, i), Fits(nodes, scopes, depth), Order(nodes))
  {
    var node, inner := nodes[i], Inside(nodes[i], scopes);
    OrderBelow(nodes, i);
    forall p, doc, h | EmittedBelow(node)(p) && Fits(node.children, inner, depth + 1)(p, doc, h)
      ensures Fits(nodes, scopes, depth)([i] + p, doc, h)
    {
      PlaceBelow(nodes, i, p);
      InnerScopes(node, scopes, Scopes(node.children, p));
    }
    ListsBelow(i, inside, PreorderAll(out), DepthsAll(out, depth + 1),
               EmittedBelow(node), Fits(node.children, inner, depth + 1), Order(node.children),
               InsideAt(nodes, i), Fits(nodes, scopes, depth), Order(nodes));
  }

  /** A definition's own place, and those of everything inside. */
  lemma DefinitionLists(
    nodes: seq<Syntax>, i: nat, scopes: seq<Text>, depth: nat, inside: seq<Path>, out: seq<DocNode>)
    returns (paths: seq<Path>)
    requires i < |nodes| && nodes[i].kind.Definition?
    requires ListsOut(inside, out, depth + 1, EmittedBelow(nodes[i]),
                      Fits(nodes[i].children, Inside(nodes[i], scopes), depth + 1), Order(nodes[i].children))
    ensures ListsOut(paths, [SectionFor(nodes[i], scopes, out)], depth,
                     EmittedAt(nodes, false, i), Fits(nodes, scopes, depth), Order(nodes))
  {
    var section := SectionFor(nodes[i], scopes, out);
    var self: Path -> bool := p => p == [i];
    InsideFits(nodes, i, scopes, depth, inside, out);
    FqnIsCited(nodes[i], scopes);
    FitsItself(nodes, i, scopes, depth, section);
    ListsSingle([i], section, depth, self, Fits(nodes, scopes, depth), Order(nodes));
    forall p
      ensures EmittedAt(nodes, false, i)(p) <==> self(p) || InsideAt(nodes, i)(p)
      ensures InsideAt(nodes, i)(p) ==> Order(nodes)([i], p)
    {
      PlacesOfDefinition(nodes, i, p);
    }
    paths := [[i]] + Below(i, inside);
    ListsJoin([[i]], [section], [depth], self, Below(i, inside), PreorderAll(out), DepthsAll(out, depth + 1),
              InsideAt(nodes, i), EmittedAt(nodes, false, i), Fits(nodes, scopes, depth), Order(nodes));
    SectionListed(section, depth);
  }

  lemma SectionListed(section: DocNode, depth: nat)
    ensures PreorderAll([section]) == [section] + PreorderAll(section.children)
    ensures DepthsAll([section], depth) == [depth] + DepthsAll(section.children, depth + 1)
  {
    assert [section][1..] == [];
  }

  lemma InnerScopes(node: Syntax, scopes: seq<Text>, more: seq<Text>)
    ensures Inside(node, scopes) + more == scopes + ((if |node.name| > 0 then [node.name] else []) + more)
  {
  }

  ghost predicate ShownAt(root: Syntax, path: Path, doc: DocNode, depth: nat) {
    && Reached(root.children, path) && Shows(At(root.children, path))
    && StandsFor(doc, At(root.children, path), Scopes(root.children, path))
    && depth == 1 + Around(root.children, path)
  }

  /** One node for each place that is reached and shown, in the order of the walk. */
  ghost predicate OneEach(root: Syntax, paths: seq<Path>, docs: seq<DocNode>, depths: seq<nat>) {
    && |docs| == |depths| == |paths|
    && (forall k: nat | k < |paths| :: ShownAt(root, paths[k], docs[k], depths[k]))
    && (forall k, l | 0 <= k < l < |paths| :: paths[k] != paths[l] && Before(root.children, paths[k], paths[l]))
    && (forall p | Reached(root.children, p) && Shows(At(root.children, p)) :: p in paths)
  }

  lemma ListsOneEach(root: Syntax, paths: seq<Path>, docs: seq<DocNode>, depths: seq<nat>)
    requires Lists(paths, docs, depths, EmittedFrom(root.children, false, 0), Fits(root.children, [], 1), Order(root.children))
    ensures OneEach(root, paths, docs, depths)
  {
    var covers, fits := EmittedFrom(root.children, false, 0), Fits(root.children, [], 1);
    forall k: nat | k < |paths|
      ensures ShownAt(root, paths[k], docs[k], depths[k])
    {
      assert covers(paths[k]) && fits(paths[k], docs[k], depths[k]);
      EmittedIff(root.children, paths[k]);
      assert [] + Scopes(root.children, paths[k]) == Scopes(root.children, paths[k]);
    }
    forall k, l | 0 <= k < l < |paths|
      ensures paths[k] != paths[l] && Before(root.children, paths[k], paths[l])
    {
      assert Order(root.children)(paths[k], paths[l]);
      NotBeforeItself(root.children, paths[k]);
    }
    forall p | Reached(root.children, p) && Shows(At(root.children, p))
      ensures p in paths
    {
      EmittedIff(root.children, p);
      assert covers(p);
    }
  }

  /** The document has one node for each place of the syntax tree that is reached and shown, and no other but itself:
      it stands for the node there, named by the definitions around it and as deep as there are such. */
  lemma DocumentShowsReached(root: Syntax, length: nat) returns (paths: seq<Path>)
    ensures var doc := DocumentOf(root, length);
      OneEach(root, paths, Preorder(doc)[1..], Depths(doc, 0)[1..])
  {
    paths := WalkAllLists(root.children, 0, [], 1);
    assert root.children[0..] == root.children;
    var out := WalkAll(root.children, []);
    ListsOneEach(root, paths, PreorderAll(out), DepthsAll(out, 1));
    var doc := DocumentOf(root, length);
    assert Preorder(doc)[1..] == PreorderAll(out) && Depths(doc, 0)[1..] == DepthsAll(out, 1);
  }
}
