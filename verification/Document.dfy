/** The ViDoc document tree. */
module Document {
  import opened Wrappers
  import opened Utf8

  datatype DocNodeType =
    | Document | Section | Heading | Paragraph | Table | TableRow | TableCell | List | ListItem
    | Code | Formula | Image | Link | Footnote | Caption | Abstract | Metadata

  datatype Attrs = Attrs(
    byteStart: int,
    byteEnd: int,
    headingLevel: Option<nat>,
    citation: Option<Text>,
    codeLanguage: Option<Text>,
    tableRow: Option<nat>,
    tableCol: Option<nat>,
    isHeader: bool)

  datatype DocNode = DocNode(nodeType: DocNodeType, text: Option<Text>, children: seq<DocNode>, attrs: Attrs)

  /** Attributes that carry nothing but a span. */
  function Span(byteStart: int, byteEnd: int): Attrs {
    Attrs(byteStart, byteEnd, None, None, None, None, None, false)
  }

  /** The nodes of a tree in source (depth-first, parent before children) order. */
  function Preorder(node: DocNode): (nodes: seq<DocNode>)
    ensures |nodes| >= 1 && nodes[0] == node
    decreases node
  {
    [node] + PreorderAll(node.children)
  }

  function PreorderAll(nodes: seq<DocNode>): seq<DocNode>
    decreases nodes
  {
    if nodes == [] then [] else Preorder(nodes[0]) + PreorderAll(nodes[1..])
  }

  lemma {:induction false} SubtreeOf(nodes: seq<DocNode>, n: DocNode) returns (i: nat)
    requires n in PreorderAll(nodes)
    ensures i < |nodes| && n in Preorder(nodes[i])
  {
    if n in Preorder(nodes[0]) {
      i := 0;
    } else {
      var j := SubtreeOf(nodes[1..], n);
      i := j + 1;
    }
  }
}
