/** The part of the Markdown syntax tree (mdast) the pipeline looks at.
    The tree is produced by an external Markdown/GFM parser; here it is
    simply given. */
module Mdast {
  import opened Options

  /** The node types the pipeline distinguishes; a `text` node carries its
      literal value, every other type is `Other`. */
  datatype Kind =
    | Paragraph
    | Table
    | TableRow
    | TableCell
    | Text(value: string)
    | Other(name: string)

  /** A node, its children in document order and the line its source
      position starts on, when the parser attached one. */
  datatype Node = Node(kind: Kind, children: seq<Node>, line: Option<int>)

  /** Every table in the tree has a first (header) row. The GFM parser
      never builds a table without one. */
  predicate TablesHaveHeaderRows(n: Node)
  {
    && (n.kind.Table? ==> |n.children| > 0)
    && forall i :: 0 <= i < |n.children| ==> TablesHaveHeaderRows(n.children[i])
  }

  /** The number of nodes in the tree. */
  function Size(n: Node): nat
    decreases n, 1
  {
    1 + SizeFrom(n, 0)
  }

  /** The number of nodes in the subtrees of `p.children[i..]`. */
  function SizeFrom(p: Node, i: nat): nat
    decreases p, 0, |p.children| - i
  {
    if i >= |p.children| then 0 else Size(p.children[i]) + SizeFrom(p, i + 1)
  }

  /** The number of paragraph nodes in the tree. */
  function ParagraphCount(n: Node): nat
    decreases n, 1
  {
    (if n.kind.Paragraph? then 1 else 0) + ParagraphCountFrom(n, 0)
  }

  /** The number of paragraph nodes in the subtrees of `p.children[i..]`. */
  function ParagraphCountFrom(p: Node, i: nat): nat
    decreases p, 0, |p.children| - i
  {
    if i >= |p.children| then 0 else ParagraphCount(p.children[i]) + ParagraphCountFrom(p, i + 1)
  }
}
