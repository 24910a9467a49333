/** The abstract tree that a linked structure of nodes stands for, and the
    predicates that tie the two together. The recursive pointer walks of the
    library (depth, traversals, subtree teardown) take such a tree as a ghost
    witness: it is what makes their termination, their visit order and their
    effect on memory statable. */
module TreeShape {
  import opened TreeTypes

  /** An abstract binary tree whose nodes remember their address and payload. */
  datatype Tree<D> = Nil | Node(ptr: Ptr, data: Option<D>, left: Tree<D>, right: Tree<D>)

  /** The addresses of all nodes of a tree. */
  function Ptrs<D>(t: Tree<D>): set<Ptr> {
    match t
    case Nil => {}
    case Node(a, _, l, r) => {a} + Ptrs(l) + Ptrs(r)
  }

  /** The number of nodes of a tree. */
  function Size<D>(t: Tree<D>): nat {
    match t
    case Nil => 0
    case Node(_, _, l, r) => 1 + Size(l) + Size(r)
  }

  /** The number of nodes on a longest root-to-leaf path. */
  function Height<D>(t: Tree<D>): nat {
    match t
    case Nil => 0
    case Node(_, _, l, r) => 1 + (if Height(l) >= Height(r) then Height(l) else Height(r))
  }

  /** Following `p` and then the `left`/`right` links through `h` yields
      exactly the nodes, payloads and links of `t`; every node reached exists. */
  ghost predicate Shape<D>(h: Heap<D>, p: Option<Ptr>, t: Tree<D>)
    decreases t
  {
    match t
    case Nil => p.None?
    case Node(a, d, l, r) =>
      && p == Some(a)
      && a in h
      && h[a].data == d
      && Shape(h, h[a].left, l)
      && Shape(h, h[a].right, r)
  }

  /** No address occurs twice in the tree: it is acyclic and children are disjoint. */
  ghost predicate Distinct<D>(t: Tree<D>) {
    match t
    case Nil => true
    case Node(a, _, l, r) =>
      && Distinct(l)
      && Distinct(r)
      && Ptrs(l) !! Ptrs(r)
      && a !in Ptrs(l)
      && a !in Ptrs(r)
  }

  /** Every child's `parent` field points back at the node holding it. */
  ghost predicate BackLinked<D>(h: Heap<D>, t: Tree<D>) {
    match t
    case Nil => true
    case Node(a, _, l, r) =>
      && (l.Node? ==> l.ptr in h && h[l.ptr].parent == Some(a))
      && (r.Node? ==> r.ptr in h && h[r.ptr].parent == Some(a))
      && BackLinked(h, l)
      && BackLinked(h, r)
  }

  /** `p` is the root of a well-formed binary tree in `h` whose shape is `t`. */
  ghost predicate ValidTree<D>(h: Heap<D>, p: Option<Ptr>, t: Tree<D>) {
    Shape(h, p, t) && Distinct(t) && BackLinked(h, t)
  }

  /** Two heaps that agree on the nodes of `t` see the same shape there. */
  lemma {:induction false} ShapeFrame<D>(h: Heap<D>, h': Heap<D>, p: Option<Ptr>, t: Tree<D>)
    requires Shape(h, p, t)
    requires forall a :: a in Ptrs(t) ==> a in h && a in h' && h'[a] == h[a]
    ensures Shape(h', p, t)
    decreases t
  {
    match t
    case Nil =>
    case Node(a, _, l, r) =>
      ShapeFrame(h, h', h[a].left, l);
      ShapeFrame(h, h', h[a].right, r);
  }

  /** Two heaps that agree on the nodes of `t` see the same back-links there. */
  lemma {:induction false} BackLinkedFrame<D>(h: Heap<D>, h': Heap<D>, t: Tree<D>)
    requires BackLinked(h, t)
    requires forall a :: a in Ptrs(t) ==> a in h && a in h' && h'[a] == h[a]
    ensures BackLinked(h', t)
  {
    match t
    case Nil =>
    case Node(a, _, l, r) =>
      BackLinkedFrame(h, h', l);
      BackLinkedFrame(h, h', r);
  }

  /** A well-formed tree stays well-formed under any change outside its nodes. */
  lemma ValidTreeFrame<D>(h: Heap<D>, h': Heap<D>, p: Option<Ptr>, t: Tree<D>)
    requires ValidTree(h, p, t)
    requires forall a :: a in Ptrs(t) ==> a in h && a in h' && h'[a] == h[a]
    ensures ValidTree(h', p, t)
  {
    ShapeFrame(h, h', p, t);
    BackLinkedFrame(h, h', t);
  }

  /** The addresses of the nodes reached by a shape are all in the heap. */
  lemma {:induction false} ShapeInHeap<D>(h: Heap<D>, p: Option<Ptr>, t: Tree<D>)
    requires Shape(h, p, t)
    ensures Ptrs(t) <= h.Keys
    decreases t
  {
    match t
    case Nil =>
    case Node(a, _, l, r) =>
      ShapeInHeap(h, h[a].left, l);
      ShapeInHeap(h, h[a].right, r);
  }

  // ---------------------------------------------------------------------
  // Visit orders

  /** Root, then the left subtree, then the right subtree. */
  function PreOrder<D>(t: Tree<D>): seq<Ptr> {
    match t
    case Nil => []
    case Node(a, _, l, r) => [a] + PreOrder(l) + PreOrder(r)
  }

  /** The left subtree, then the root, then the right subtree. */
  function InOrder<D>(t: Tree<D>): seq<Ptr> {
    match t
    case Nil => []
    case Node(a, _, l, r) => InOrder(l) + [a] + InOrder(r)
  }

  /** The left subtree, then the right subtree, then the root. */
  function PostOrder<D>(t: Tree<D>): seq<Ptr> {
    match t
    case Nil => []
    case Node(a, _, l, r) => PostOrder(l) + PostOrder(r) + [a]
  }

  /** The elements of a sequence of addresses. */
  function Elems(s: seq<Ptr>): set<Ptr> {
    set x | x in s
  }

  /** No address occurs twice in `s`. */
  predicate NoDup(s: seq<Ptr>) {
    forall i, j :: 0 <= i < j < |s| ==> s[i] != s[j]
  }

  lemma ElemsConcat(a: seq<Ptr>, b: seq<Ptr>)
    ensures Elems(a + b) == Elems(a) + Elems(b)
  {
  }

  /** Concatenating two duplicate-free sequences with no address in common
      gives a duplicate-free sequence. */
  lemma NoDupConcat(a: seq<Ptr>, b: seq<Ptr>)
    requires NoDup(a) && NoDup(b)
    requires Elems(a) !! Elems(b)
    ensures NoDup(a + b)
  {
    var ab := a + b;
    forall i, j | 0 <= i < j < |ab| ensures ab[i] != ab[j] {
      if j < |a| {
        assert ab[i] == a[i] && ab[j] == a[j];
      } else if i >= |a| {
        assert ab[i] == b[i - |a|] && ab[j] == b[j - |a|];
      } else {
        assert ab[i] == a[i] && a[i] in Elems(a);
        assert ab[j] == b[j - |a|] && b[j - |a|] in Elems(b);
      }
    }
  }

  /** Joining three duplicate-free, pairwise disjoint pieces. */
  lemma Join3(a: seq<Ptr>, b: seq<Ptr>, c: seq<Ptr>)
    requires NoDup(a) && NoDup(b) && NoDup(c)
    requires Elems(a) !! Elems(b) && Elems(a) !! Elems(c) && Elems(b) !! Elems(c)
    ensures NoDup(a + b + c)
    ensures Elems(a + b + c) == Elems(a) + Elems(b) + Elems(c)
  {
    ElemsConcat(a, b);
    NoDupConcat(a, b);
    ElemsConcat(a + b, c);
    NoDupConcat(a + b, c);
  }

  /** Pre-order lists every node of a well-formed tree, and each exactly once. */
  lemma {:induction false} PreOrderExactlyOnce<D>(t: Tree<D>)
    requires Distinct(t)
    ensures Elems(PreOrder(t)) == Ptrs(t)
    ensures NoDup(PreOrder(t))
    ensures |PreOrder(t)| == Size(t)
  {
    match t
    case Nil =>
    case Node(a, _, l, r) =>
      PreOrderExactlyOnce(l);
      PreOrderExactlyOnce(r);
      Join3([a], PreOrder(l), PreOrder(r));
  }

  /** In-order lists every node of a well-formed tree, and each exactly once. */
  lemma {:induction false} InOrderExactlyOnce<D>(t: Tree<D>)
    requires Distinct(t)
    ensures Elems(InOrder(t)) == Ptrs(t)
    ensures NoDup(InOrder(t))
    ensures |InOrder(t)| == Size(t)
  {
    match t
    case Nil =>
    case Node(a, _, l, r) =>
      InOrderExactlyOnce(l);
      InOrderExactlyOnce(r);
      Join3(InOrder(l), [a], InOrder(r));
  }

  /** Post-order lists every node of a well-formed tree, and each exactly once. */
  lemma {:induction false} PostOrderExactlyOnce<D>(t: Tree<D>)
    requires Distinct(t)
    ensures Elems(PostOrder(t)) == Ptrs(t)
    ensures NoDup(PostOrder(t))
    ensures |PostOrder(t)| == Size(t)
  {
    match t
    case Nil =>
    case Node(a, _, l, r) =>
      PostOrderExactlyOnce(l);
      PostOrderExactlyOnce(r);
      Join3(PostOrder(l), PostOrder(r), [a]);
  }

  /** The three orders visit the same nodes the same number of times; they
      differ only in where the root of each subtree is placed. */
  lemma {:induction false} OrdersArePermutations<D>(t: Tree<D>)
    ensures multiset(PreOrder(t)) == multiset(InOrder(t))
    ensures multiset(InOrder(t)) == multiset(PostOrder(t))
  {
    match t
    case Nil =>
    case Node(a, _, l, r) =>
      OrdersArePermutations(l);
      OrdersArePermutations(r);
  }

  /** The height of a tree never exceeds its number of nodes, and is positive
      exactly when the tree is not empty. */
  lemma {:induction false} HeightBounds<D>(t: Tree<D>)
    ensures Height(t) <= Size(t)
    ensures Height(t) == 0 <==> t.Nil?
  {
    match t
    case Nil =>
    case Node(_, _, l, r) =>
      HeightBounds(l);
      HeightBounds(r);
  }
}
