/** The data definitions of the binary tree library: node record, error codes,
    append positions, and the memory the operations act on.

    Memory is modelled explicitly. A pointer is an address (`Ptr`), a nullable
    pointer is an `Option<Ptr>` whose `None` is NULL, and the nodes that exist
    are a finite map from address to node record. Every operation of the
    library is then a pure function from one such heap to the next, which
    models aliasing (a node that is its own parent, a parent whose two slots
    hold the same child) exactly as the pointer code behaves. */
module TreeTypes {

  /** A nullable value: `None` plays the role of NULL. */
  datatype Option<+T> = None | Some(value: T)

  /** The address of a node. */
  type Ptr = nat

  /** One node: three links and an opaque, caller-owned payload `data`
      (a `void*` in the original, hence itself nullable). */
  datatype TreeNode<D> = TreeNode(parent: Option<Ptr>, left: Option<Ptr>, right: Option<Ptr>, data: Option<D>)
  {
    /** A node with no child on either side. */
    predicate IsLeaf() {
      left.None? && right.None?
    }

    /** The freshly initialised state: every field NULL. */
    predicate IsEmpty() {
      parent.None? && left.None? && right.None? && data.None?
    }
  }

  /** The node every field of which is NULL. */
  function EmptyNode<D>(): (n: TreeNode<D>)
    ensures n.IsEmpty() && n.IsLeaf()
  {
    TreeNode(None, None, None, None)
  }

  /** The nodes that exist, by address. */
  type Heap<D> = map<Ptr, TreeNode<D>>

  /** A nullable pointer the code may dereference: NULL, or a node that exists. */
  predicate Derefable<D>(h: Heap<D>, p: Option<Ptr>) {
    p.Some? ==> p.value in h
  }

  /** The result code of every fallible operation, in declaration order. */
  datatype TreeError = Success | Failure | InvalidPointer | Mem | WrongParam | NodeExist

  /** The integer value C gives each enumerator (declaration order from 0). */
  function Ordinal(e: TreeError): (c: int)
    ensures 0 <= c < 6
  {
    match e
    case Success => 0
    case Failure => 1
    case InvalidPointer => 2
    case Mem => 3
    case WrongParam => 4
    case NodeExist => 5
  }

  /** The enumerator with a given integer value, if any. */
  function FromOrdinal(c: int): (e: Option<TreeError>)
    ensures e.Some? <==> 0 <= c < 6
  {
    if c == 0 then Some(Success)
    else if c == 1 then Some(Failure)
    else if c == 2 then Some(InvalidPointer)
    else if c == 3 then Some(Mem)
    else if c == 4 then Some(WrongParam)
    else if c == 5 then Some(NodeExist)
    else None
  }

  /** The six codes are distinct integers 0..5, and every such integer is a code. */
  lemma OrdinalRoundTrip(e: TreeError, c: int)
    ensures FromOrdinal(Ordinal(e)) == Some(e)
    ensures FromOrdinal(c).Some? ==> Ordinal(FromOrdinal(c).value) == c
  {
  }

  /** The append position `Mode` is a C `int`; its bits are modelled as a bv32. */
  type Mode = bv32

  const InsertPosLeft: Mode := 0x01
  const InsertPosRight: Mode := 0x00

  /** The bits a valid mode may have set. */
  const InsertModeMask: Mode := InsertPosLeft | InsertPosRight

  /** A mode passes the library's mask check exactly when it is one of the two
      positions, and the two positions are distinct values inside the mask. */
  lemma MaskAcceptsExactlyPositions(m: Mode)
    ensures m & !InsertModeMask == 0 <==> m == InsertPosLeft || m == InsertPosRight
    ensures InsertPosLeft & !InsertModeMask == 0 && InsertPosRight & !InsertModeMask == 0
    ensures InsertPosLeft != InsertPosRight
  {
    MaskClearsAllButBitZero(m);
    MaskClearsAllButBitZero(InsertPosLeft);
    MaskClearsAllButBitZero(InsertPosRight);
  }

  /** The complement of the mask is every bit except bit 0, so the check
      passes exactly for the two patterns 0 and 1. */
  lemma MaskClearsAllButBitZero(m: Mode)
    ensures m & !InsertModeMask == 0 <==> m == 0 || m == 1
  {
    var notMask: Mode := !InsertModeMask;
    assert notMask == 0xFFFF_FFFE;
  }

  /** The result of an operation that may change memory: the new heap and the code. */
  datatype Step<D> = Step(heap: Heap<D>, code: TreeError)
}
