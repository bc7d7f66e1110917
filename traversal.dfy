/** The depth-first walk of `unist-util-visit`: the visitor is called on
    every node of the tree, parent before children, children left to
    right, with the node's position among its parent's children and the
    parent itself (both absent for the root). */
module Traversal {
  import opened Options
  import opened Mdast
  import Seqs

  /** One call of the visitor: `(node, index, parent)`. */
  datatype Visit = Visit(node: Node, index: Option<nat>, parent: Option<Node>)

  /** The visit reached `node` through its parent: `parent.children[index]`
      is `node`. */
  predicate Linked(v: Visit)
  {
    && v.parent.Some? && v.index.Some?
    && v.index.value < |v.parent.value.children|
    && v.parent.value.children[v.index.value] == v.node
  }

  /** The visits, in order, of the walk of the subtree rooted at `n`, which
      the walk reached with position `index` under `parent`. The walk
      starts with `n` itself; every later visit reached its node through
      that node's parent; there is one visit per node; and the parent of
      every visit is `parent` or a node of the subtree. */
  function PreOrder(n: Node, index: Option<nat>, parent: Option<Node>): (r: seq<Visit>)
    ensures |r| == Size(n)
    ensures r[0] == Visit(n, index, parent)
    ensures forall k :: 1 <= k < |r| ==> Linked(r[k])
    ensures TablesHaveHeaderRows(n) && (parent.Some? ==> TablesHaveHeaderRows(parent.value)) ==>
      forall k :: 0 <= k < |r| && r[k].parent.Some? ==> TablesHaveHeaderRows(r[k].parent.value)
    decreases n, 1
  {
    [Visit(n, index, parent)] + ChildVisits(n, 0)
  }

  /** The visits of the walks of the subtrees of `p.children[i..]`, in
      order. */
  function ChildVisits(p: Node, i: nat): (r: seq<Visit>)
    ensures |r| == SizeFrom(p, i)
    ensures forall k :: 0 <= k < |r| ==> Linked(r[k])
    ensures TablesHaveHeaderRows(p) ==>
      forall k :: 0 <= k < |r| ==> Linked(r[k]) && TablesHaveHeaderRows(r[k].parent.value)
    decreases p, 0, |p.children| - i
  {
    if i >= |p.children| then []
    else PreOrder(p.children[i], Some(i), Some(p)) + ChildVisits(p, i + 1)
  }

  predicate IsParagraphVisit(v: Visit)
  {
    v.node.kind.Paragraph?
  }

  /** The walk visits exactly as many paragraphs as the tree has. */
  lemma {:induction false} ParagraphVisits(n: Node, index: Option<nat>, parent: Option<Node>)
    ensures |Seqs.Filter(PreOrder(n, index, parent), IsParagraphVisit)| == ParagraphCount(n)
    decreases n, 1
  {
    Seqs.FilterAppend([Visit(n, index, parent)], ChildVisits(n, 0), IsParagraphVisit);
    ChildParagraphVisits(n, 0);
  }

  lemma {:induction false} ChildParagraphVisits(p: Node, i: nat)
    ensures |Seqs.Filter(ChildVisits(p, i), IsParagraphVisit)| == ParagraphCountFrom(p, i)
    decreases p, 0, |p.children| - i
  {
    if i < |p.children| {
      Seqs.FilterAppend(PreOrder(p.children[i], Some(i), Some(p)), ChildVisits(p, i + 1), IsParagraphVisit);
      ParagraphVisits(p.children[i], Some(i), Some(p));
      ChildParagraphVisits(p, i + 1);
    }
  }
}
