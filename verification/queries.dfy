/** The read-only recursive walks of BinaryTree.c: depth and the three
    traversals. A traversal's visitor is recorded as the sequence of payloads
    it is called with; the visitor's context and its return value play no
    part, since the walks never inspect them. */
module TreeQueries {
  import opened TreeTypes
  import opened TreeShape

  /** `Tree_DepthGet`: 0 for NULL, else one more than the deeper child. */
  function DepthGet<D>(h: Heap<D>, p: Option<Ptr>, ghost t: Tree<D>): (d: nat)
    requires Shape(h, p, t)
    decreases t
    ensures d == Height(t)
    ensures d == 0 <==> p.None?
  {
    if p.None? then 0
    else
      var l := DepthGet(h, h[p.value].left, t.left);
      var r := DepthGet(h, h[p.value].right, t.right);
      if l >= r then l + 1 else r + 1
  }

  /** The result of a traversal: its code and the payloads passed to the
      visitor, in call order. */
  datatype Walk<D> = Walk(code: TreeError, visits: seq<Option<D>>)

  /** The visitor was called once for each node of `order`, in that order,
      with that node's payload. */
  ghost predicate VisitsIn<D>(h: Heap<D>, visits: seq<Option<D>>, order: seq<Ptr>) {
    && |visits| == |order|
    && forall i :: 0 <= i < |order| ==> order[i] in h && visits[i] == h[order[i]].data
  }

  lemma VisitsJoin<D>(h: Heap<D>, a: Ptr, v1: seq<Option<D>>, o1: seq<Ptr>, v2: seq<Option<D>>, o2: seq<Ptr>)
    requires a in h && VisitsIn(h, v1, o1) && VisitsIn(h, v2, o2)
    ensures VisitsIn(h, [h[a].data] + v1 + v2, [a] + o1 + o2)
    ensures VisitsIn(h, v1 + [h[a].data] + v2, o1 + [a] + o2)
    ensures VisitsIn(h, v1 + v2 + [h[a].data], o1 + o2 + [a])
  {
  }

  /** `Tree_TravesePreOrder(p, visitor)`: visit `p`, then walk its left and
      right subtrees. NULL `p` or a missing visitor gives `InvalidPointer`
      without any visit; the codes of the inner walks are ignored. */
  function TraversePreOrder<D>(h: Heap<D>, p: Option<Ptr>, hasVisitor: bool, ghost t: Tree<D>): (w: Walk<D>)
    requires Shape(h, p, t)
    decreases t
    ensures w.code == Success || w.code == InvalidPointer
    ensures w.code == InvalidPointer <==> p.None? || !hasVisitor
    ensures !hasVisitor ==> w.visits == []
    ensures hasVisitor ==> VisitsIn(h, w.visits, PreOrder(t))
  {
    if p.None? || !hasVisitor then
      Walk(InvalidPointer, [])
    else
      var a := p.value;
      var l := TraversePreOrder(h, h[a].left, hasVisitor, t.left);
      var r := TraversePreOrder(h, h[a].right, hasVisitor, t.right);
      VisitsJoin(h, a, l.visits, PreOrder(t.left), r.visits, PreOrder(t.right));
      Walk(Success, [h[a].data] + l.visits + r.visits)
  }

  /** `Tree_TraveseInOrder(p, visitor)`: walk the left subtree, visit `p`,
      walk the right subtree; error handling as for pre-order. */
  function TraverseInOrder<D>(h: Heap<D>, p: Option<Ptr>, hasVisitor: bool, ghost t: Tree<D>): (w: Walk<D>)
    requires Shape(h, p, t)
    decreases t
    ensures w.code == Success || w.code == InvalidPointer
    ensures w.code == InvalidPointer <==> p.None? || !hasVisitor
    ensures !hasVisitor ==> w.visits == []
    ensures hasVisitor ==> VisitsIn(h, w.visits, InOrder(t))
  {
    if p.None? || !hasVisitor then
      Walk(InvalidPointer, [])
    else
      var a := p.value;
      var l := TraverseInOrder(h, h[a].left, hasVisitor, t.left);
      var r := TraverseInOrder(h, h[a].right, hasVisitor, t.right);
      VisitsJoin(h, a, l.visits, InOrder(t.left), r.visits, InOrder(t.right));
      Walk(Success, l.visits + [h[a].data] + r.visits)
  }

  /** `Tree_TravesePostOrder(p, visitor)`: walk the left subtree, walk the
      right subtree, visit `p`; error handling as for pre-order. */
  function TraversePostOrder<D>(h: Heap<D>, p: Option<Ptr>, hasVisitor: bool, ghost t: Tree<D>): (w: Walk<D>)
    requires Shape(h, p, t)
    decreases t
    ensures w.code == Success || w.code == InvalidPointer
    ensures w.code == InvalidPointer <==> p.None? || !hasVisitor
    ensures !hasVisitor ==> w.visits == []
    ensures hasVisitor ==> VisitsIn(h, w.visits, PostOrder(t))
  {
    if p.None? || !hasVisitor then
      Walk(InvalidPointer, [])
    else
      var a := p.value;
      var l := TraversePostOrder(h, h[a].left, hasVisitor, t.left);
      var r := TraversePostOrder(h, h[a].right, hasVisitor, t.right);
      VisitsJoin(h, a, l.visits, PostOrder(t.left), r.visits, PostOrder(t.right));
      Walk(Success, l.visits + r.visits + [h[a].data])
  }

  /** On a well-formed tree each traversal calls the visitor exactly once per
      node: the visit order is a duplicate-free listing of all its nodes. */
  lemma TraversalsVisitEachNodeOnce<D>(h: Heap<D>, p: Option<Ptr>, t: Tree<D>)
    requires ValidTree(h, p, t)
    ensures |TraversePreOrder(h, p, true, t).visits| == Size(t)
    ensures |TraverseInOrder(h, p, true, t).visits| == Size(t)
    ensures |TraversePostOrder(h, p, true, t).visits| == Size(t)
    ensures NoDup(PreOrder(t)) && Elems(PreOrder(t)) == Ptrs(t)
    ensures NoDup(InOrder(t)) && Elems(InOrder(t)) == Ptrs(t)
    ensures NoDup(PostOrder(t)) && Elems(PostOrder(t)) == Ptrs(t)
  {
    PreOrderExactlyOnce(t);
    InOrderExactlyOnce(t);
    PostOrderExactlyOnce(t);
  }

  /** A leaf has depth 1; any real node has depth at least 1 and at most the
      number of nodes below and including it. */
  lemma DepthBounds<D>(h: Heap<D>, p: Option<Ptr>, t: Tree<D>)
    requires Shape(h, p, t)
    ensures p.Some? ==> 1 <= DepthGet(h, p, t) <= Size(t)
    ensures p.Some? && h[p.value].IsLeaf() ==> DepthGet(h, p, t) == 1
  {
    HeightBounds(t);
    if p.Some? && h[p.value].IsLeaf() {
      assert t.left.Nil? && t.right.Nil?;
    }
  }

  /** A NULL root or a missing visitor yields `InvalidPointer` and no visit. */
  lemma NullWalks<D>(h: Heap<D>, p: Option<Ptr>, hasVisitor: bool, t: Tree<D>)
    requires Shape(h, p, t) && (p.None? || !hasVisitor)
    ensures TraversePreOrder(h, p, hasVisitor, t) == Walk(InvalidPointer, [])
    ensures TraverseInOrder(h, p, hasVisitor, t) == Walk(InvalidPointer, [])
    ensures TraversePostOrder(h, p, hasVisitor, t) == Walk(InvalidPointer, [])
  {
  }
}
