# Generic binary tree nodes, modelled in Dafny

This project models the C library `BinaryTree` (files `BinaryTree.c` and
`BinaryTree.h`). The library provides intrusive binary-tree nodes that the
caller links together by hand. Each node has a `parent`, a `left` and a
`right` pointer and an opaque `void* data` payload. The library is not a
search tree and never compares payloads. Its operations are:

- initialise a node;
- set and get the payload;
- append a node as the left or right child;
- delete a leaf;
- tear down a whole subtree through a handle (`TreeNode_t**`);
- compute the depth;
- walk the tree in pre-order, in-order or post-order, calling a visitor on
  each node.

## How memory is modelled

- A pointer is an address, `Ptr`. A nullable pointer is `Option<Ptr>`, where
  `None` is `NULL`.
- The nodes that exist form a finite map, `Heap<D> = map<Ptr, TreeNode<D>>`.
  `D` stands for whatever the payload points at.
- Every operation is a pure function from the heap before the call to the
  heap after it and the result code (`Step`). So aliasing behaves as the
  pointer code does: a node may be its own parent, or a parent may hold the
  same child in both slots.
- A node may be dereferenced only if its address exists in the heap
  (`Derefable`).
- A handle is either a caller variable or the `left`/`right` field of an
  existing node (`Handle`).
- The recursive walks (depth, traversals, teardown) take an abstract tree `t`
  as a ghost witness. `Shape(h, p, t)` says that following `p` through `h`
  yields `t`. This witness proves termination and gives visit orders and
  depth a reference definition. `ValidTree` adds two conditions: no address
  repeats, and every child's `parent` points back at its parent.
- The `ASSERT(NULL != …)` checks of the original are expressed by types:
  `NodeInit` and `NodeDelete` take a `Ptr`, which cannot be NULL, and a
  `Handle` is never NULL.
- `Mode`, a C `int` that the library tests with bit masks, is a `bv32`. A
  negative mode is its two's-complement bit pattern.
- A visitor is recorded as the sequence of payloads it receives (`Walk.visits`).
  Whether the callback pointer is NULL is the flag `hasVisitor`.

## Model

| member | source | states |
|---|---|---|
| TreeTypes.Ordinal | BinaryTree.h:92-100 | each of the six error codes has its C enumerator value, in the range 0..5 |
| TreeTypes.OrdinalRoundTrip | BinaryTree.h:92-100 | the six codes are distinct integers and every integer 0..5 is one of them (both directions of the enum mapping) |
| TreeTypes.MaskAcceptsExactlyPositions | BinaryTree.h:108-114 | a mode passes the `Mode & ~INSERT_MODE_MASK` check exactly when it is `INSERT_POS_LEFT` (1) or `INSERT_POS_RIGHT` (0); both lie inside the mask and are distinct |
| NodeOps.NodeInit | BinaryTree.c:180-189 | afterwards the node's parent, left, right and data are all NULL, and every other node is unchanged |
| NodeOps.InitIdempotent | BinaryTree.c:180-189 | initialising twice gives the same memory as initialising once |
| NodeOps.NodeValueSet | BinaryTree.c:322-334 | NULL node gives `ERR_INVALID_POINTER` and no change; otherwise `ERR_SUCCESS` with only the payload replaced, links and other nodes untouched; no other code is possible |
| NodeOps.NodeValueGet | BinaryTree.c:363-373 | reading through NULL yields NULL |
| NodeOps.GetAfterSet | BinaryTree.c:322-373 | a get after a set on the same node returns the stored value; through NULL it returns NULL |
| NodeOps.SetLeavesOthers | BinaryTree.c:330-331 | setting one node's payload leaves every other node's payload as it was |
| NodeOps.GetAfterInit | BinaryTree.c:185-188 | an initialised node's payload reads as NULL |
| NodeOps.SetKeepsInvariants | BinaryTree.c:322-334 | setting a payload keeps every link valid and keeps parent/child links consistent |
| NodeOps.Link | BinaryTree.c:411-415 | the two stores of a successful append: the chosen slot holds the new node, its parent is the old node, and nothing else changes |
| NodeOps.NodeAppend | BinaryTree.c:393-441 | the result is one of the four documented codes. NULL node or new node gives `ERR_INVALID_POINTER`. A mode other than the two positions gives `ERR_WRONG_PARAM`. An occupied chosen slot gives `ERR_NODE_EXIST`. On any failure nothing changes. On success the chosen slot holds the new node, the new node's parent is the old node, and the other slot, the payloads and every other node are unchanged |
| NodeOps.AppendFallThroughUnreachable | BinaryTree.c:403-439 | a mode that passes the mask check selects left or right, so the final `return ERR_WRONG_PARAM` is dead |
| NodeOps.AppendKeepsClosed | BinaryTree.c:408-436 | appending existing nodes keeps every link pointing at an existing node |
| NodeOps.LinkKeepsConsistent | BinaryTree.c:411-430 | linking a parentless node into a free slot keeps child→parent and parent→child links in agreement |
| NodeOps.AppendKeepsConsistent | BinaryTree.c:393-441 | an append of a node without a parent preserves link consistency of the whole heap |
| NodeOps.AppendLinkedNodeBreaksConsistency | BinaryTree.c:411-415 | appending a node that another parent still holds leaves that parent's slot pointing at a node whose parent is now someone else |
| NodeOps.Unlink | BinaryTree.c:218-227 | every slot of the parent equal to the deleted node becomes NULL, and the parent's other fields are kept |
| NodeOps.NodeDelete | BinaryTree.c:202-234 | a node with any child gives `ERR_FAILURE` and no change. A leaf gives `ERR_SUCCESS`: the leaf ends fully empty, each slot of its parent that held it is cleared while the parent's other slot stays, and every other node is untouched |
| NodeOps.DeleteKeepsConsistent | BinaryTree.c:202-234 | deleting a leaf of a consistent heap keeps it consistent, and afterwards no node links to the deleted node |
| SubtreeDelete.ClearHandle | BinaryTree.c:266-267 | writing NULL through a handle clears exactly the designated field (nothing, for a caller variable) |
| SubtreeDelete.SubTreeDeleteStatic | BinaryTree.c:247-270 | a NULL `*ppNode` gives `ERR_FAILURE` and no change. Otherwise `ERR_SUCCESS`: every node of the former subtree is empty, `*ppNode` is NULL, the root's old parent no longer holds the root, and every other node is unchanged |
| SubtreeDelete.LeftTornDown | BinaryTree.c:261 | after the left recursion the root has lost its left child only, and the right subtree is untouched and still well-formed |
| SubtreeDelete.RightTornDown | BinaryTree.c:262 | after both recursions the root has no children and its other fields are as before |
| SubtreeDelete.RootTornDown | BinaryTree.c:264-267 | deleting the childless root and nulling the handle completes the teardown effect |
| SubtreeDelete.InnerDeleteSucceeds | BinaryTree.c:261-264 | by the time the post-order teardown deletes the root, the root is a leaf, so that inner `Tree_NodeDelete` always succeeds |
| SubtreeDelete.TeardownKeepsConsistent | BinaryTree.c:247-270 | tearing down a subtree of a consistent heap keeps it consistent, and no outside node links into the emptied nodes |
| TreeShape.HeightBounds | BinaryTree.c:280-291 | the reference depth is 0 exactly for the empty tree and never exceeds the node count |
| TreeShape.PreOrderExactlyOnce | BinaryTree.c:455-467 | pre-order lists every node of a well-formed tree exactly once |
| TreeShape.InOrderExactlyOnce | BinaryTree.c:481-493 | in-order lists every node of a well-formed tree exactly once |
| TreeShape.PostOrderExactlyOnce | BinaryTree.c:507-519 | post-order lists every node of a well-formed tree exactly once |
| TreeShape.OrdersArePermutations | BinaryTree.c:455-519 | the three orders are permutations of one another |
| TreeQueries.DepthGet | BinaryTree.c:280-291 | the depth is the height of the reference tree (0 for NULL, otherwise 1 + the larger child height), and it is 0 exactly for NULL |
| TreeQueries.DepthBounds | BinaryTree.h:205-212 | a real node has depth ≥ 1 and at most its subtree size; a leaf has depth 1 |
| TreeQueries.TraversePreOrder | BinaryTree.c:455-467 | NULL node or NULL callback gives `ERR_INVALID_POINTER` with no visit. Otherwise `ERR_SUCCESS`, and the visitor receives the payloads of the nodes in reference pre-order (root, left, right). No other code is possible |
| TreeQueries.TraverseInOrder | BinaryTree.c:481-493 | as for pre-order, with the nodes visited in reference in-order (left, root, right) |
| TreeQueries.TraversePostOrder | BinaryTree.c:507-519 | as for pre-order, with the nodes visited in reference post-order (left, right, root) |
| TreeQueries.TraversalsVisitEachNodeOnce | BinaryTree.c:455-519 | on a well-formed tree each traversal calls the visitor once per node, with no node repeated or missed |
| TreeQueries.NullWalks | BinaryTree.c:457-460 | a NULL root or NULL callback yields `ERR_INVALID_POINTER` and zero visits in all three traversals |
| TreeScenarios.SmallTreeOrders | BinaryTree.c:455-519 | root 2 with left 1 and right 3: pre-order [2,1,3], in-order [1,2,3], post-order [1,3,2], depth 2 |
| TreeScenarios.ChainDepth | BinaryTree.c:280-291 | a root→left→left chain of three nodes has depth 3 |
| TreeScenarios.AppendRefusals | BinaryTree.c:396-420 | modes 2 and -1 are refused with `ERR_WRONG_PARAM`, an occupied left slot with `ERR_NODE_EXIST`, a NULL node with `ERR_INVALID_POINTER`; memory is unchanged |
| TreeScenarios.DeleteLeafExample | BinaryTree.c:202-234 | deleting the left leaf clears only the root's left slot and empties the leaf; deleting the root with children fails |
| TreeScenarios.TeardownExample | BinaryTree.c:247-270 | tearing down the three-node tree through a variable empties all three nodes and nulls the variable; a NULL variable gives `ERR_FAILURE` |

## Left out

- `Tree_NodeCreate`, `Tree_NodeDestory` and `Tree_SubTreeDelete_Dynamic` (BinaryTree.c:68-166) are left out. They exist only when `USE_DYNAMIC_MEMORY` is defined, which it is not by default. They depend on `malloc`/`free`, and their linking logic reuses `Tree_NodeDelete`.
- The `ASSERT` spin-loop macro is not modelled as a function. The non-NULL arguments it demands are expressed by the parameter types `Ptr` and `Handle`.
- The `USE_RECURSIVE_ALGORITHM`/`USE_STACK_ALGORITHM` switch is left out, because no stack variant exists in the code.
- The visitor's context pointer, its return value and its side effects on user data are left out. The traversals never inspect them.
- The payload is an opaque `Option<D>`. The library stores it and never dereferences it.
- Pointers to memory that holds no node are left out. Every operation requires that the pointers it dereferences exist in the heap (`Derefable`, `HandleOk`).
- SubTreeDeleteStatic: requires the designated subtree to be a well-formed tree (`ValidTree`: acyclic, disjoint children, correct back-links) whose root's parent exists. On a cyclic structure the C recursion does not terminate. Its effect on shared or mis-linked structures is not modelled.
- DepthGet: requires the structure below the root to be finite and acyclic (`Shape`). On a cyclic structure the C recursion does not terminate. Sharing is allowed.
- TraversePreOrder: requires the structure below the root to be finite and acyclic (`Shape`). On a cyclic structure the C recursion does not terminate. Sharing is allowed, and a shared node is then visited once per path.
- TraverseInOrder: requires the structure below the root to be finite and acyclic (`Shape`). On a cyclic structure the C recursion does not terminate. Sharing is allowed, and a shared node is then visited once per path.
- TraversePostOrder: requires the structure below the root to be finite and acyclic (`Shape`). On a cyclic structure the C recursion does not terminate. Sharing is allowed, and a shared node is then visited once per path.
- DepthGet: returns an unbounded `nat`, not a 32-bit `int`. Only a tree deeper than 2^31 - 1 nodes could overflow, and the recursion would exhaust the call stack long before that.
- Appending a node that already has a parent is modelled as the code behaves: the link is not checked. `AppendLinkedNodeBreaksConsistency` states the result. `AppendKeepsConsistent` requires a parentless node.
- The header comments say some operations return `ERR_FAILURE` on success (BinaryTree.c:100, 136, 196, 241). That is the reverse of the code, and the model follows the code.
