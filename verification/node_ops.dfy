/** Node lifecycle and linkage (BinaryTree.c): initialise, set and get the
    payload, append a child, delete a leaf. Each operation maps the heap before
    the call to the heap after it together with its result code. */
module NodeOps {
  import opened TreeTypes

  // ---------------------------------------------------------------------
  // Heap-wide invariants the operations keep

  /** Every link of every node is NULL or the address of an existing node. */
  ghost predicate Closed<D>(h: Heap<D>) {
    forall a :: a in h ==>
      Derefable(h, h[a].parent) && Derefable(h, h[a].left) && Derefable(h, h[a].right)
  }

  /** Parent and child links agree in both directions: a child's `parent`
      names the node holding it, and a node's `parent` holds it in a slot. */
  ghost predicate Consistent<D>(h: Heap<D>) {
    && Closed(h)
    && (forall a :: a in h && h[a].left.Some? ==> h[h[a].left.value].parent == Some(a))
    && (forall a :: a in h && h[a].right.Some? ==> h[h[a].right.value].parent == Some(a))
    && (forall a :: a in h && h[a].parent.Some? ==>
          h[h[a].parent.value].left == Some(a) || h[h[a].parent.value].right == Some(a))
  }

  // ---------------------------------------------------------------------
  // Tree_NodeInit

  /** Resets the caller-provided node `p` to the empty state; `p` need not
      exist before (initialising fresh storage brings it into the heap). */
  function NodeInit<D>(h: Heap<D>, p: Ptr): (h': Heap<D>)
    ensures p in h' && h'[p].IsEmpty()
    ensures h'.Keys == h.Keys + {p}
    ensures forall a :: a in h && a != p ==> h'[a] == h[a]
  {
    h[p := EmptyNode()]
  }

  /** Initialising twice leaves the same state as initialising once. */
  lemma InitIdempotent<D>(h: Heap<D>, p: Ptr)
    ensures NodeInit(NodeInit(h, p), p) == NodeInit(h, p)
  {
  }

  // ---------------------------------------------------------------------
  // Tree_NodeValueSet / Tree_NodeValueGet

  /** Stores `v` in the payload slot of `p`; NULL `p` is refused. */
  function NodeValueSet<D>(h: Heap<D>, p: Option<Ptr>, v: Option<D>): (r: Step<D>)
    requires Derefable(h, p)
    ensures r.code == Success || r.code == InvalidPointer
    ensures r.code == InvalidPointer <==> p.None?
    ensures r.code == InvalidPointer ==> r.heap == h
    ensures r.code == Success ==>
      && r.heap.Keys == h.Keys
      && r.heap[p.value].data == v
      && r.heap[p.value].parent == h[p.value].parent
      && r.heap[p.value].left == h[p.value].left
      && r.heap[p.value].right == h[p.value].right
      && (forall a :: a in h && a != p.value ==> r.heap[a] == h[a])
  {
    if p.None? then Step(h, InvalidPointer)
    else Step(h[p.value := h[p.value].(data := v)], Success)
  }

  /** The payload of `p`, or NULL for a NULL `p`. */
  function NodeValueGet<D>(h: Heap<D>, p: Option<Ptr>): (v: Option<D>)
    requires Derefable(h, p)
    ensures p.None? ==> v.None?
  {
    if p.None? then None else h[p.value].data
  }

  /** Reading a node after storing a value returns that value; reading through
      NULL gives NULL whatever was attempted. */
  lemma GetAfterSet<D>(h: Heap<D>, p: Option<Ptr>, v: Option<D>)
    requires Derefable(h, p)
    ensures Derefable(NodeValueSet(h, p, v).heap, p)
    ensures NodeValueGet(NodeValueSet(h, p, v).heap, p) == (if p.Some? then v else None)
  {
  }

  /** Storing a value leaves the payload of every other node readable as before. */
  lemma SetLeavesOthers<D>(h: Heap<D>, p: Option<Ptr>, v: Option<D>, q: Ptr)
    requires Derefable(h, p) && q in h && p != Some(q)
    ensures NodeValueGet(NodeValueSet(h, p, v).heap, Some(q)) == NodeValueGet(h, Some(q))
  {
  }

  /** A freshly initialised node carries a NULL payload. */
  lemma GetAfterInit<D>(h: Heap<D>, p: Ptr)
    ensures NodeValueGet(NodeInit(h, p), Some(p)).None?
  {
  }

  /** Setting a payload changes no link anywhere, so it keeps both invariants. */
  lemma SetKeepsInvariants<D>(h: Heap<D>, p: Option<Ptr>, v: Option<D>)
    requires Derefable(h, p)
    ensures Closed(h) ==> Closed(NodeValueSet(h, p, v).heap)
    ensures Consistent(h) ==> Consistent(NodeValueSet(h, p, v).heap)
  {
  }

  // ---------------------------------------------------------------------
  // Tree_NodeAppend

  /** The child slot a valid mode selects: left for `InsertPosLeft`, else right. */
  function ChildAt<D>(n: TreeNode<D>, mode: Mode): Option<Ptr> {
    if mode == InsertPosLeft then n.left else n.right
  }

  /** The two stores of a successful append: the chosen slot of `a` := `b`,
      then `b.parent` := `a` (in that order, which matters when `a == b`). */
  function Link<D>(h: Heap<D>, a: Ptr, b: Ptr, toLeft: bool): (n: Heap<D>)
    requires a in h && b in h
    ensures n.Keys == h.Keys
    ensures (if toLeft then n[a].left else n[a].right) == Some(b)
    ensures n[b].parent == Some(a)
    ensures toLeft ==> n[a].right == h[a].right
    ensures !toLeft ==> n[a].left == h[a].left
    ensures n[a].data == h[a].data
    ensures a != b ==> n[a].parent == h[a].parent
    ensures a != b ==> n[b].left == h[b].left && n[b].right == h[b].right && n[b].data == h[b].data
    ensures forall c :: c in h && c != a && c != b ==> n[c] == h[c]
  {
    var h1 := if toLeft then h[a := h[a].(left := Some(b))] else h[a := h[a].(right := Some(b))];
    h1[b := h1[b].(parent := Some(a))]
  }

  /** Attaches `q` below `p` in the slot `mode` selects. The mode is checked
      by mask, an occupied slot is never overwritten, and `q`'s own links are
      not inspected: a `q` that already has a parent keeps that parent's slot
      pointing at it (see `AppendLinkedNodeBreaksConsistency`). */
  function NodeAppend<D>(h: Heap<D>, p: Option<Ptr>, q: Option<Ptr>, mode: Mode): (r: Step<D>)
    requires Derefable(h, p) && Derefable(h, q)
    ensures r.code in {Success, InvalidPointer, NodeExist, WrongParam}
    ensures r.code == InvalidPointer <==> p.None? || q.None?
    ensures p.Some? && q.Some? ==>
      (r.code == WrongParam <==> mode != InsertPosLeft && mode != InsertPosRight)
    ensures r.code == NodeExist <==>
      && p.Some? && q.Some?
      && (mode == InsertPosLeft || mode == InsertPosRight)
      && ChildAt(h[p.value], mode).Some?
    ensures r.code != Success ==> r.heap == h
    ensures r.code == Success ==>
      var a, b, n := p.value, q.value, r.heap;
      && n.Keys == h.Keys
      && ChildAt(n[a], mode) == Some(b)
      && n[b].parent == Some(a)
      && (mode == InsertPosLeft ==> n[a].right == h[a].right)
      && (mode == InsertPosRight ==> n[a].left == h[a].left)
      && n[a].data == h[a].data
      && (a != b ==> n[a].parent == h[a].parent)
      && (a != b ==> n[b].left == h[b].left && n[b].right == h[b].right && n[b].data == h[b].data)
      && (forall c :: c in h && c != a && c != b ==> n[c] == h[c])
  {
    if p.None? || q.None? then
      Step(h, InvalidPointer)
    else if mode & !InsertModeMask != 0 then
      Step(h, WrongParam)
    else
      MaskAcceptsExactlyPositions(mode);
      var a, b := p.value, q.value;
      if mode & InsertModeMask == InsertPosLeft then
        if h[a].left.None? then Step(Link(h, a, b, true), Success)
        else Step(h, NodeExist)
      else if mode & InsertModeMask == InsertPosRight then
        if h[a].right.None? then Step(Link(h, a, b, false), Success)
        else Step(h, NodeExist)
      else
        // The closing `return ERR_WRONG_PARAM` of the original, which the mask
        // check above makes unreachable (`AppendFallThroughUnreachable`).
        Step(h, WrongParam)
  }

  /** Once a mode has passed the mask check it is one of the two positions,
      so the last return of the append is never reached. */
  lemma AppendFallThroughUnreachable(mode: Mode)
    requires mode & !InsertModeMask == 0
    ensures mode & InsertModeMask == InsertPosLeft || mode & InsertModeMask == InsertPosRight
  {
    MaskAcceptsExactlyPositions(mode);
  }

  /** Appending existing nodes keeps every link pointing at an existing node. */
  lemma AppendKeepsClosed<D>(h: Heap<D>, p: Option<Ptr>, q: Option<Ptr>, mode: Mode)
    requires Derefable(h, p) && Derefable(h, q)
    requires Closed(h)
    ensures Closed(NodeAppend(h, p, q, mode).heap)
  {
  }

  /** Linking a parentless node into a free slot keeps parent and child
      links in agreement everywhere. */
  lemma LinkKeepsConsistent<D>(h: Heap<D>, a: Ptr, b: Ptr, toLeft: bool)
    requires a in h && b in h && Consistent(h)
    requires h[b].parent.None?
    requires toLeft ==> h[a].left.None?
    requires !toLeft ==> h[a].right.None?
    ensures Consistent(Link(h, a, b, toLeft))
  {
    var n := Link(h, a, b, toLeft);
    // Nothing holds `b` yet: its parent would have to be set.
    assert forall c :: c in h ==> h[c].left != Some(b) && h[c].right != Some(b);
    assert Closed(n);
    forall c | c in n && n[c].left.Some?
      ensures n[n[c].left.value].parent == Some(c)
    {
      if c != a { assert n[c].left == h[c].left; }
    }
    forall c | c in n && n[c].right.Some?
      ensures n[n[c].right.value].parent == Some(c)
    {
      if c != a { assert n[c].right == h[c].right; }
    }
    forall c | c in n && n[c].parent.Some?
      ensures n[n[c].parent.value].left == Some(c) || n[n[c].parent.value].right == Some(c)
    {
      if c != b {
        assert n[c].parent == h[c].parent;
        var o := h[c].parent.value;
        assert h[o].left == Some(c) || h[o].right == Some(c);
      }
    }
  }

  /** Appending a node that has no parent keeps parent and child links in
      agreement everywhere. */
  lemma AppendKeepsConsistent<D>(h: Heap<D>, p: Option<Ptr>, q: Option<Ptr>, mode: Mode)
    requires Derefable(h, p) && Derefable(h, q)
    requires Consistent(h)
    requires q.Some? ==> h[q.value].parent.None?
    ensures Consistent(NodeAppend(h, p, q, mode).heap)
  {
    if p.Some? && q.Some? && mode & !InsertModeMask == 0 {
      AppendFallThroughUnreachable(mode);
      if mode & InsertModeMask == InsertPosLeft && h[p.value].left.None? {
        LinkKeepsConsistent(h, p.value, q.value, true);
      } else if mode & InsertModeMask == InsertPosRight && h[p.value].right.None? {
        LinkKeepsConsistent(h, p.value, q.value, false);
      }
    }
  }

  /** Appending a node that is still held by another parent leaves that
      parent's slot pointing at a node whose `parent` no longer names it:
      an unchecked caller error, since the append overwrites the new node's
      `parent` without reading it first (BinaryTree.c:413-414, 428-429). */
  lemma AppendLinkedNodeBreaksConsistency<D>(h: Heap<D>, a: Ptr, b: Ptr, o: Ptr, mode: Mode)
    requires a in h && b in h && o in h
    requires o != a
    requires h[b].parent == Some(o) && h[o].left == Some(b)
    requires NodeAppend(h, Some(a), Some(b), mode).code == Success
    ensures !Consistent(NodeAppend(h, Some(a), Some(b), mode).heap)
  {
    var n := NodeAppend(h, Some(a), Some(b), mode).heap;
    if o != b {
      assert n[o].left == Some(b) && n[b].parent == Some(a);
    } else {
      assert n[b].parent == Some(a);
      assert n[o].left == Some(o);
    }
  }

  // ---------------------------------------------------------------------
  // Tree_NodeDelete

  /** The node `n` with every child slot that holds `p` set to NULL. */
  function Unlink<D>(n: TreeNode<D>, p: Ptr): (m: TreeNode<D>)
    ensures m.left == (if n.left == Some(p) then None else n.left)
    ensures m.right == (if n.right == Some(p) then None else n.right)
    ensures m.parent == n.parent && m.data == n.data
  {
    var n1 := if n.left == Some(p) then n.(left := None) else n;
    if n1.right == Some(p) then n1.(right := None) else n1
  }

  /** Deletes the leaf `p`: clears every slot of its parent that holds it and
      resets `p` to empty. A node with any child is refused with `Failure`. */
  function NodeDelete<D>(h: Heap<D>, p: Ptr): (r: Step<D>)
    requires p in h
    requires h[p].IsLeaf() ==> Derefable(h, h[p].parent)
    ensures r.code == Success || r.code == Failure
    ensures r.code == Failure <==> !h[p].IsLeaf()
    ensures r.code == Failure ==> r.heap == h
    ensures r.code == Success ==>
      && r.heap.Keys == h.Keys
      && r.heap[p].IsEmpty()
      && (h[p].parent.Some? && h[p].parent.value != p ==>
            r.heap[h[p].parent.value] == Unlink(h[h[p].parent.value], p))
      && (forall a :: a in h && a != p && Some(a) != h[p].parent ==> r.heap[a] == h[a])
  {
    if !h[p].IsLeaf() then
      Step(h, Failure)
    else
      var h1 := if h[p].parent.Some? then
                  var o := h[p].parent.value; h[o := Unlink(h[o], p)]
                else h;
      Step(NodeInit(h1, p), Success)
  }

  /** After deleting a leaf of a consistent heap, no node links to it any
      more and the heap stays consistent. */
  lemma DeleteKeepsConsistent<D>(h: Heap<D>, p: Ptr)
    requires p in h && Consistent(h)
    requires h[p].IsLeaf()
    ensures Consistent(NodeDelete(h, p).heap)
    ensures forall a :: a in NodeDelete(h, p).heap ==>
      var n := NodeDelete(h, p).heap[a];
      n.parent != Some(p) && n.left != Some(p) && n.right != Some(p)
  {
    var n := NodeDelete(h, p).heap;
    forall a | a in h
      ensures n[a].left != Some(p) && n[a].right != Some(p) && n[a].parent != Some(p)
    {
    }
    forall c | c in n && n[c].parent.Some?
      ensures n[n[c].parent.value].left == Some(c) || n[n[c].parent.value].right == Some(c)
    {
      assert c != p;
      assert n[c].parent == h[c].parent;
    }
  }
}
