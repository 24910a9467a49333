/** Concrete scenarios proved about the model: a three-node tree (2 at the
    root, 1 left, 3 right), a three-node chain, appends with stray modes, and
    deletions. */
module TreeScenarios {
  import opened TreeTypes
  import opened TreeShape
  import opened NodeOps
  import opened SubtreeDelete
  import opened TreeQueries

  /** Root 10 holding 2, with left child 11 holding 1 and right child 12 holding 3. */
  function SmallHeap(): Heap<int> {
    map[10 := TreeNode(None, Some(11), Some(12), Some(2)),
        11 := TreeNode(Some(10), None, None, Some(1)),
        12 := TreeNode(Some(10), None, None, Some(3))]
  }

  function SmallTree(): Tree<int> {
    Node(10, Some(2), Node(11, Some(1), Nil, Nil), Node(12, Some(3), Nil, Nil))
  }

  /** The three orders on the three-node tree: [2,1,3], [1,2,3], [1,3,2]. */
  lemma SmallTreeOrders()
    ensures ValidTree(SmallHeap(), Some(10), SmallTree())
    ensures TraversePreOrder(SmallHeap(), Some(10), true, SmallTree()).visits == [Some(2), Some(1), Some(3)]
    ensures TraverseInOrder(SmallHeap(), Some(10), true, SmallTree()).visits == [Some(1), Some(2), Some(3)]
    ensures TraversePostOrder(SmallHeap(), Some(10), true, SmallTree()).visits == [Some(1), Some(3), Some(2)]
    ensures DepthGet(SmallHeap(), Some(10), SmallTree()) == 2
  {
    var h, t := SmallHeap(), SmallTree();
    assert PreOrder(t) == [10, 11, 12];
    assert InOrder(t) == [11, 10, 12];
    assert PostOrder(t) == [11, 12, 10];
  }

  /** Node 1 with left child 2 with left child 3. */
  function ChainHeap(): Heap<int> {
    map[1 := TreeNode(None, Some(2), None, None),
        2 := TreeNode(Some(1), Some(3), None, None),
        3 := TreeNode(Some(2), None, None, None)]
  }

  function ChainTree(): Tree<int> {
    Node(1, None, Node(2, None, Node(3, None, Nil, Nil), Nil), Nil)
  }

  /** A three-node chain root -> left -> left has depth 3. */
  lemma ChainDepth()
    ensures ValidTree(ChainHeap(), Some(1), ChainTree())
    ensures DepthGet(ChainHeap(), Some(1), ChainTree()) == 3
  {
    var h, t := ChainHeap(), ChainTree();
    assert h[1].left == Some(2) && h[2].left == Some(3) && h[3].left.None?;
    assert Shape(h, Some(3), t.left.left);
    assert DepthGet(h, Some(3), t.left.left) == 1;
    assert DepthGet(h, Some(2), t.left) == 2;
  }

  /** Appending with a mode outside the two positions (here 2 and -1) is
      refused with `WrongParam`; appending into the occupied left slot of the
      root is refused with `NodeExist`; both leave memory unchanged. */
  lemma AppendRefusals(q: Ptr)
    requires q in SmallHeap()
    ensures NodeAppend(SmallHeap(), Some(10), Some(q), 2) == Step(SmallHeap(), WrongParam)
    ensures NodeAppend(SmallHeap(), Some(10), Some(q), 0xFFFF_FFFF) == Step(SmallHeap(), WrongParam)
    ensures NodeAppend(SmallHeap(), Some(10), Some(q), InsertPosLeft) == Step(SmallHeap(), NodeExist)
    ensures NodeAppend(SmallHeap(), None, Some(q), InsertPosLeft) == Step(SmallHeap(), InvalidPointer)
  {
  }

  /** Deleting the left leaf 11 clears the root's left slot, keeps its right
      slot, and empties 11; deleting the root, which has children, fails. */
  lemma DeleteLeafExample()
    ensures NodeDelete(SmallHeap(), 11).code == Success
    ensures NodeDelete(SmallHeap(), 11).heap[10] == TreeNode(None, None, Some(12), Some(2))
    ensures NodeDelete(SmallHeap(), 11).heap[11].IsEmpty()
    ensures NodeDelete(SmallHeap(), 10) == Step(SmallHeap(), Failure)
  {
    var n := NodeDelete(SmallHeap(), 11).heap;
    assert n[10] == Unlink(SmallHeap()[10], 11);
  }

  /** Tearing down the whole three-node tree through a caller variable
      empties all three nodes and leaves the variable NULL; through a NULL
      variable it reports `Failure`. */
  lemma TeardownExample()
    ensures TeardownReady(SmallHeap(), Var(Some(10)), SmallTree())
    ensures var r := SubTreeDeleteStatic(SmallHeap(), Var(Some(10)), SmallTree());
      && r.code == Success && r.handle.None?
      && r.heap[10].IsEmpty() && r.heap[11].IsEmpty() && r.heap[12].IsEmpty()
    ensures SubTreeDeleteStatic(SmallHeap(), Var(None), Nil) == Teardown(SmallHeap(), None, Failure)
  {
    SmallTreeOrders();
  }
}
