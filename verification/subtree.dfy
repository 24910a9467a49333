/** Post-order teardown of a whole subtree through a handle
    (`Tree_SubTreeDelete_Static` in BinaryTree.c). */
module SubtreeDelete {
  import opened TreeTypes
  import opened TreeShape
  import opened NodeOps

  /** A `TreeNode_t**`: the address of a pointer variable. It is either a
      variable of the caller (holding `content`) or the `left`/`right` field
      of an existing node. */
  datatype Handle = Var(content: Option<Ptr>) | LeftOf(owner: Ptr) | RightOf(owner: Ptr)

  /** The pointer a handle designates can be read and written. */
  predicate HandleOk<D>(h: Heap<D>, hd: Handle) {
    hd.Var? || hd.owner in h
  }

  /** `*hd`. */
  function Read<D>(h: Heap<D>, hd: Handle): Option<Ptr>
    requires HandleOk(h, hd)
  {
    match hd
    case Var(c) => c
    case LeftOf(o) => h[o].left
    case RightOf(o) => h[o].right
  }

  /** The node at address `a` after `*hd = NULL`, when `a` held `n`. */
  function ClearedField<D>(n: TreeNode<D>, hd: Handle, a: Ptr): (m: TreeNode<D>)
    ensures m.parent == n.parent && m.data == n.data
    ensures hd == LeftOf(a) ==> m.left.None? && m.right == n.right
    ensures hd == RightOf(a) ==> m.right.None? && m.left == n.left
    ensures hd != LeftOf(a) && hd != RightOf(a) ==> m == n
  {
    if hd == LeftOf(a) then n.(left := None)
    else if hd == RightOf(a) then n.(right := None)
    else n
  }

  /** The heap after `*hd = NULL` (a caller variable is not part of the heap). */
  function ClearHandle<D>(h: Heap<D>, hd: Handle): (h': Heap<D>)
    requires HandleOk(h, hd)
    ensures h'.Keys == h.Keys
    ensures forall a :: a in h ==> h'[a] == ClearedField(h[a], hd, a)
  {
    match hd
    case Var(_) => h
    case LeftOf(o) => h[o := ClearedField(h[o], hd, o)]
    case RightOf(o) => h[o := ClearedField(h[o], hd, o)]
  }

  /** The outcome of a teardown: memory, the value left in `*hd`, and the code. */
  datatype Teardown<D> = Teardown(heap: Heap<D>, handle: Option<Ptr>, code: TreeError)

  /** What a node outside the torn-down subtree rooted at `root` looks like
      afterwards: the old parent of `root` no longer holds it, and the handle's
      own slot is NULL. */
  function Outside<D>(h: Heap<D>, hd: Handle, root: Ptr, a: Ptr): TreeNode<D>
    requires a in h && root in h
  {
    ClearedField(if Some(a) == h[root].parent then Unlink(h[a], root) else h[a], hd, a)
  }

  /** What the teardown may assume: the handle is usable, it designates a
      well-formed tree `t`, and the root's parent (which the leaf deletion
      dereferences) exists. */
  ghost predicate TeardownReady<D>(h: Heap<D>, hd: Handle, t: Tree<D>) {
    && HandleOk(h, hd)
    && ValidTree(h, Read(h, hd), t)
    && (t.Node? ==> t.ptr in h && Derefable(h, h[t.ptr].parent))
  }

  /** The memory effect of tearing down the subtree `t` designated by `hd`:
      same addresses, `*hd` is NULL, every node of `t` is empty, and every
      other node is as `Outside` describes (nothing changes for an empty `t`). */
  ghost predicate TornDown<D>(h: Heap<D>, h': Heap<D>, hd: Handle, t: Tree<D>)
    requires TeardownReady(h, hd, t)
  {
    && h'.Keys == h.Keys
    && (!hd.Var? ==> Read(h', hd).None?)
    && (forall a :: a in Ptrs(t) ==> a in h' && h'[a].IsEmpty())
    && (t.Nil? ==> h' == h)
    && (t.Node? ==> forall a :: a in h && a !in Ptrs(t) ==> h'[a] == Outside(h, hd, t.ptr, a))
  }

  /** `Tree_SubTreeDelete_Static(hd)`: tear down the left subtree through the
      root's `left` field, the right subtree through its `right` field, delete
      the now childless root, then set `*hd` to NULL. A NULL `*hd` gives
      `Failure` and changes nothing. Results of the inner calls are ignored,
      as in the original. */
  function SubTreeDeleteStatic<D>(h: Heap<D>, hd: Handle, ghost t: Tree<D>): (r: Teardown<D>)
    requires TeardownReady(h, hd, t)
    decreases t
    ensures r.handle.None?
    ensures r.code == Success || r.code == Failure
    ensures r.code == Failure <==> Read(h, hd).None?
    ensures r.code == Failure ==> r.heap == h
    ensures TornDown(h, r.heap, hd, t)
  {
    var p := Read(h, hd);
    if p.None? then
      Teardown(h, None, Failure)
    else
      var a := p.value;
      ChildrenReady(h, hd, t);
      var r1 := SubTreeDeleteStatic(h, LeftOf(a), t.left);
      LeftTornDown(h, hd, t, r1.heap);
      var r2 := SubTreeDeleteStatic(r1.heap, RightOf(a), t.right);
      RightTornDown(h, hd, t, r1.heap, r2.heap);
      var r3 := NodeDelete(r2.heap, a);
      var h4 := ClearHandle(r3.heap, hd);
      RootTornDown(h, hd, t, r2.heap, r3.heap, h4);
      Teardown(h4, None, Success)
  }

  /** The left subtree of a tree ready for teardown is itself ready. */
  lemma ChildrenReady<D>(h: Heap<D>, hd: Handle, t: Tree<D>)
    requires TeardownReady(h, hd, t) && t.Node?
    ensures TeardownReady(h, LeftOf(t.ptr), t.left)
    ensures Ptrs(t) <= h.Keys
  {
    ShapeInHeap(h, Some(t.ptr), t);
  }

  /** Facts about the memory after the left subtree is gone: the right
      subtree is untouched and ready to be torn down, and the root has lost
      its left child only. */
  lemma LeftTornDown<D>(h: Heap<D>, hd: Handle, t: Tree<D>, h1: Heap<D>)
    requires TeardownReady(h, hd, t) && t.Node?
    requires TeardownReady(h, LeftOf(t.ptr), t.left)
    requires TornDown(h, h1, LeftOf(t.ptr), t.left)
    ensures TeardownReady(h1, RightOf(t.ptr), t.right)
    ensures h1.Keys == h.Keys
    ensures h1[t.ptr] == h[t.ptr].(left := None)
    ensures forall a :: a in h && a !in Ptrs(t.left) && a != t.ptr ==> h1[a] == h[a]
    ensures forall a :: a in Ptrs(t.left) ==> a in h1 && h1[a].IsEmpty()
  {
    var a := t.ptr;
    ShapeInHeap(h, Some(a), t);
    if t.left.Node? {
      assert h[t.left.ptr].parent == Some(a);
      if t.right.Node? {
        assert t.right.ptr in Ptrs(t.right);
      }
      assert h1[a] == Outside(h, LeftOf(a), t.left.ptr, a);
    }
    ValidTreeFrame(h, h1, h[a].right, t.right);
  }

  /** Facts about the memory after both subtrees are gone: the root is a leaf
      whose other fields are as before, so deleting it succeeds. */
  lemma RightTornDown<D>(h: Heap<D>, hd: Handle, t: Tree<D>, h1: Heap<D>, h2: Heap<D>)
    requires TeardownReady(h, hd, t) && t.Node?
    requires Ptrs(t) <= h.Keys
    requires h1.Keys == h.Keys
    requires h1[t.ptr] == h[t.ptr].(left := None)
    requires forall a :: a in h && a !in Ptrs(t.left) && a != t.ptr ==> h1[a] == h[a]
    requires forall a :: a in Ptrs(t.left) ==> a in h1 && h1[a].IsEmpty()
    requires TeardownReady(h1, RightOf(t.ptr), t.right)
    requires TornDown(h1, h2, RightOf(t.ptr), t.right)
    ensures h2.Keys == h.Keys
    ensures h2[t.ptr] == h[t.ptr].(left := None, right := None)
    ensures forall a :: a in h && a !in Ptrs(t) ==> h2[a] == h[a]
    ensures forall a :: a in Ptrs(t) && a != t.ptr ==> h2[a].IsEmpty()
  {
    var a := t.ptr;
    if t.right.Node? {
      var rp := t.right.ptr;
      assert h1[rp].parent == Some(a);
      assert h2[a] == Outside(h1, RightOf(a), rp, a);
      forall x | x in h && x !in Ptrs(t)
        ensures h2[x] == h[x]
      {
        assert h2[x] == Outside(h1, RightOf(a), rp, x);
      }
      forall x | x in Ptrs(t.left)
        ensures h2[x].IsEmpty()
      {
        assert x !in Ptrs(t.right);
        assert h2[x] == Outside(h1, RightOf(a), rp, x);
      }
    }
  }

  /** Deleting the childless root and clearing the handle completes the
      teardown's memory effect. */
  lemma RootTornDown<D>(h: Heap<D>, hd: Handle, t: Tree<D>, h2: Heap<D>, h3: Heap<D>, h4: Heap<D>)
    requires TeardownReady(h, hd, t) && t.Node?
    requires Ptrs(t) <= h.Keys
    requires h2.Keys == h.Keys
    requires h2[t.ptr] == h[t.ptr].(left := None, right := None)
    requires forall a :: a in h && a !in Ptrs(t) ==> h2[a] == h[a]
    requires forall a :: a in Ptrs(t) && a != t.ptr ==> h2[a].IsEmpty()
    requires h3 == NodeDelete(h2, t.ptr).heap
    requires HandleOk(h3, hd)
    requires h4 == ClearHandle(h3, hd)
    ensures TornDown(h, h4, hd, t)
  {
    var a := t.ptr;
    assert h2[a].IsLeaf();
    forall x | x in Ptrs(t)
      ensures h4[x].IsEmpty()
    {
      assert h4[x] == ClearedField(h3[x], hd, x);
    }
    forall x | x in h && x !in Ptrs(t)
      ensures h4[x] == Outside(h, hd, a, x)
    {
      assert h4[x] == ClearedField(h3[x], hd, x);
    }
    if !hd.Var? {
      var o := hd.owner;
      if o in Ptrs(t) {
        assert h4[o].IsEmpty();
      } else {
        assert h4[o] == Outside(h, hd, a, o);
      }
    }
  }

  /** In the post-order teardown the root is a leaf by the time it is deleted,
      so the inner leaf deletion always succeeds. */
  lemma InnerDeleteSucceeds<D>(h: Heap<D>, hd: Handle, t: Tree<D>)
    requires TeardownReady(h, hd, t) && t.Node?
    ensures TeardownReady(h, LeftOf(t.ptr), t.left)
    ensures
      var r1 := SubTreeDeleteStatic(h, LeftOf(t.ptr), t.left);
      && TeardownReady(r1.heap, RightOf(t.ptr), t.right)
      && var r2 := SubTreeDeleteStatic(r1.heap, RightOf(t.ptr), t.right);
      && r2.heap[t.ptr].IsLeaf()
      && Derefable(r2.heap, r2.heap[t.ptr].parent)
      && NodeDelete(r2.heap, t.ptr).code == Success
  {
    ChildrenReady(h, hd, t);
    var r1 := SubTreeDeleteStatic(h, LeftOf(t.ptr), t.left);
    LeftTornDown(h, hd, t, r1.heap);
    var r2 := SubTreeDeleteStatic(r1.heap, RightOf(t.ptr), t.right);
    RightTornDown(h, hd, t, r1.heap, r2.heap);
  }

  /** Inside a tree, a child link of one of its nodes leads to another of its nodes. */
  lemma {:induction false} ChildrenInside<D>(h: Heap<D>, p: Option<Ptr>, t: Tree<D>, o: Ptr)
    requires Shape(h, p, t) && o in Ptrs(t)
    ensures o in h
    ensures h[o].left.Some? ==> h[o].left.value in Ptrs(t)
    ensures h[o].right.Some? ==> h[o].right.value in Ptrs(t)
    decreases t
  {
    var a := t.ptr;
    if o == a {
      if h[a].left.Some? { assert h[a].left.value in Ptrs(t.left); }
      if h[a].right.Some? { assert h[a].right.value in Ptrs(t.right); }
    } else if o in Ptrs(t.left) {
      ChildrenInside(h, h[a].left, t.left, o);
    } else {
      ChildrenInside(h, h[a].right, t.right, o);
    }
  }

  /** Inside a well-formed tree, every node but the root has its parent inside. */
  lemma {:induction false} ParentInside<D>(h: Heap<D>, p: Option<Ptr>, t: Tree<D>, c: Ptr)
    requires ValidTree(h, p, t) && c in Ptrs(t) && c != t.ptr
    ensures c in h && h[c].parent.Some? && h[c].parent.value in Ptrs(t)
    decreases t
  {
    var a := t.ptr;
    if c in Ptrs(t.left) {
      if c != t.left.ptr { ParentInside(h, h[a].left, t.left, c); }
    } else {
      if c != t.right.ptr { ParentInside(h, h[a].right, t.right, c); }
    }
  }

  /** In a consistent heap, the only link from outside the well-formed tree
      `t` into it is the root's parent holding the root. */
  ghost predicate Sealed<D>(h: Heap<D>, t: Tree<D>)
    requires t.Node? && t.ptr in h
  {
    && (forall x :: x in h && x !in Ptrs(t) && h[x].parent.Some? ==> h[x].parent.value !in Ptrs(t))
    && (forall x :: x in h && x !in Ptrs(t) && h[x].left.Some? && h[x].left.value in Ptrs(t) ==>
          h[x].left.value == t.ptr && h[t.ptr].parent == Some(x))
    && (forall x :: x in h && x !in Ptrs(t) && h[x].right.Some? && h[x].right.value in Ptrs(t) ==>
          h[x].right.value == t.ptr && h[t.ptr].parent == Some(x))
  }

  lemma SealedWhenConsistent<D>(h: Heap<D>, p: Option<Ptr>, t: Tree<D>)
    requires ValidTree(h, p, t) && t.Node? && Consistent(h)
    ensures t.ptr in h && Sealed(h, t)
  {
    var root := t.ptr;
    forall x | x in h && x !in Ptrs(t) && h[x].parent.Some?
      ensures h[x].parent.value !in Ptrs(t)
    {
      var o := h[x].parent.value;
      if o in Ptrs(t) {
        ChildrenInside(h, p, t, o);
      }
    }
    forall x | x in h && x !in Ptrs(t) && h[x].left.Some? && h[x].left.value in Ptrs(t)
      ensures h[x].left.value == root
    {
      if h[x].left.value != root {
        ParentInside(h, p, t, h[x].left.value);
      }
    }
    forall x | x in h && x !in Ptrs(t) && h[x].right.Some? && h[x].right.value in Ptrs(t)
      ensures h[x].right.value == root
    {
      if h[x].right.value != root {
        ParentInside(h, p, t, h[x].right.value);
      }
    }
  }

  /** The links of an outside node after the teardown: its parent is as
      before and outside, and each remaining child link is as before and
      leads outside. */
  lemma OutsideLinks<D>(h: Heap<D>, n: Heap<D>, hd: Handle, t: Tree<D>, x: Ptr)
    requires TeardownReady(h, hd, t) && t.Node? && t.ptr in h && Sealed(h, t)
    requires TornDown(h, n, hd, t)
    requires x in h && x !in Ptrs(t)
    ensures n[x].parent == h[x].parent
    ensures n[x].parent.Some? ==> n[x].parent.value !in Ptrs(t)
    ensures n[x].left.Some? ==> n[x].left == h[x].left && n[x].left.value !in Ptrs(t)
    ensures n[x].right.Some? ==> n[x].right == h[x].right && n[x].right.value !in Ptrs(t)
  {
    assert n[x] == Outside(h, hd, t.ptr, x);
  }

  /** Tearing down a subtree of a consistent heap leaves it consistent, and no
      node outside the former subtree links into it any more. */
  lemma TeardownKeepsConsistent<D>(h: Heap<D>, hd: Handle, t: Tree<D>)
    requires TeardownReady(h, hd, t) && Consistent(h)
    ensures Consistent(SubTreeDeleteStatic(h, hd, t).heap)
    ensures var n := SubTreeDeleteStatic(h, hd, t).heap;
      forall x :: x in n && x !in Ptrs(t) ==>
        && (n[x].parent.Some? ==> n[x].parent.value !in Ptrs(t))
        && (n[x].left.Some? ==> n[x].left.value !in Ptrs(t))
        && (n[x].right.Some? ==> n[x].right.value !in Ptrs(t))
  {
    var n := SubTreeDeleteStatic(h, hd, t).heap;
    if t.Node? {
      ShapeInHeap(h, Read(h, hd), t);
      SealedWhenConsistent(h, Read(h, hd), t);
      TornDownConsistent(h, n, hd, t);
    }
  }

  lemma TornDownConsistent<D>(h: Heap<D>, n: Heap<D>, hd: Handle, t: Tree<D>)
    requires TeardownReady(h, hd, t) && t.Node? && t.ptr in h && Sealed(h, t)
    requires Consistent(h) && Ptrs(t) <= h.Keys
    requires TornDown(h, n, hd, t)
    ensures Consistent(n)
    ensures forall x :: x in n && x !in Ptrs(t) ==>
        && (n[x].parent.Some? ==> n[x].parent.value !in Ptrs(t))
        && (n[x].left.Some? ==> n[x].left.value !in Ptrs(t))
        && (n[x].right.Some? ==> n[x].right.value !in Ptrs(t))
  {
    forall x | x in n && x !in Ptrs(t)
      ensures && (n[x].parent.Some? ==> n[x].parent.value !in Ptrs(t))
              && (n[x].left.Some? ==> n[x].left.value !in Ptrs(t))
              && (n[x].right.Some? ==> n[x].right.value !in Ptrs(t))
    {
      OutsideLinks(h, n, hd, t, x);
    }
    forall x | x in n && n[x].left.Some?
      ensures n[x].left.value in n && n[n[x].left.value].parent == Some(x)
    {
      OutsideLinks(h, n, hd, t, x);
      OutsideLinks(h, n, hd, t, n[x].left.value);
    }
    forall x | x in n && n[x].right.Some?
      ensures n[x].right.value in n && n[n[x].right.value].parent == Some(x)
    {
      OutsideLinks(h, n, hd, t, x);
      OutsideLinks(h, n, hd, t, n[x].right.value);
    }
    forall x | x in n && n[x].parent.Some?
      ensures n[x].parent.value in n
      ensures n[n[x].parent.value].left == Some(x) || n[n[x].parent.value].right == Some(x)
    {
      OutsideLinks(h, n, hd, t, x);
      var o := h[x].parent.value;
      assert n[o] == Outside(h, hd, t.ptr, o);
      if hd == LeftOf(o) {
        assert h[o].left == Some(t.ptr);
      } else if hd == RightOf(o) {
        assert h[o].right == Some(t.ptr);
      }
    }
  }
}
