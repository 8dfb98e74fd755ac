# AVL tree (BSTvAVL/AVLTree.h)

This project is a Dafny model of the generic AVL tree `AVLTree<E>`, together with proofs about it. An AVL tree is a binary search tree that keeps itself balanced. Each node stores an element, two children and a balance factor `bal` with the values `LH = -1`, `EH = 0` and `RH = +1`. The tree object holds the `root` and a `count` of the nodes. It offers these operations:
- `insert` adds an element, or updates the node with an equal key;
- `remove` deletes an element;
- `inTree`, `retrieve` (which throws `AVLTreeException` when the key is missing), `depth`, `height`, `size` and `isEmpty` read the tree;
- `traverse` walks the tree in order, and `levelTraverse` walks it level by level with a FIFO queue.

`insert` and `remove` call recursive helpers:
- `insert` and `remove` report whether the subtree grew `taller` or became `shorter`, and `remove` also reports `success`;
- the helpers repair balance with `leftBalance`, `rightBalance`, `deleteLeftBalance` and `deleteRightBalance`, which in turn use `rotateLeft` and `rotateRight`.

The header declares these members and documents them, but it contains no bodies. So the model implements the classic AVL algorithms that these signatures and flags belong to, and it proves that they keep every documented promise, except the helpers' return values listed under "## Left out".

## Structure

- `avl_nodes.dfy` (`AvlNodes`) defines the node structure as a value tree `Tree<V>`. Each node holds an `Entry<V>(key, value)`: `E` is compared by its key, so the helper `insert`, which "updates a node if the data is already in the tree", has a meaning. The module also defines:
  - the balance factor `Balance`, whose value is height(right) − height(left);
  - height, with an empty tree at −1;
  - size, in-order sequence, key set and key-to-payload map;
  - the search-tree predicate `IsBst` and the AVL predicate `IsAvl`. `IsAvl` says every `bal` equals the height difference of the node's children.
- `avl_rebalance.dfy` (`AvlRebalance`) holds the rotations, the two double rotations, `leftBalance`/`rightBalance` after an insertion, and `deleteRightBalance`/`deleteLeftBalance` after a deletion.
- `avl_update.dfy` (`AvlUpdate`) holds the recursive helpers:
  - `insert` returns the new subtree and `taller`;
  - `remove` returns the new subtree, `shorter` and `success`. A node with two children is replaced by its in-order predecessor.
- `avl_queries.dfy` (`AvlQueries`) holds `inTree`, `retrieve` (with a `NotFound` error for the exception) and the signed `depth`.
- `avl_traversal.dfy` (`AvlTraversal`) holds:
  - `LevelOrder`, the reference level-by-level sequence;
  - `Bfs`, the order a FIFO queue of subtrees produces;
  - the proofs that the two coincide, and that level order is a permutation of in-order.
- `avl_bounds.dfy` (`AvlBounds`) proves that a balanced tree of height h has at least 2^((h+2)/2) − 1 nodes, so the height is logarithmic in the size.
- `avl_tree.dfy` (`AvlTrees`) holds the class `AvlTree<V>`:
  - its fields are `root` and `count`, plus a ghost map `Contents`;
  - `Valid()` is the object invariant;
  - `Insert` and `Remove` update the fields in place;
  - the const queries are functions;
  - `LevelTraverse` drains a queue in a loop.
- `avl_scenarios.dfy` (`AvlScenarios`) holds worked examples: it states the exact trees that a sequence of insertions, or one removal, produces.

## Model

| member | source | states |
|---|---|---|
| AvlNodes.HeightRange | BSTvAVL/AVLTree.h:157-163 | a subtree's height is at least −1, and non-negative exactly when the subtree has a node |
| AvlNodes.InOrderKeys | BSTvAVL/AVLTree.h:126-131 | the in-order sequence has one entry per node, and its keys are exactly the tree's keys |
| AvlNodes.BstIffAscending | BSTvAVL/AVLTree.h:126-131 | a tree is a search tree if and only if its in-order keys are strictly ascending |
| AvlNodes.ElementsFromInOrder | BSTvAVL/AVLTree.h:126-131 | the stored key-to-payload map is determined by the in-order sequence |
| AvlNodes.SameInOrderSameContents | BSTvAVL/AVLTree.h:112-124 | two trees with the same in-order sequence hold the same keys and payloads, and one is a search tree iff the other is |
| AvlNodes.SizeIsKeyCount | BSTvAVL/AVLTree.h:167-171 | in a search tree the node count equals the number of distinct keys |
| AvlNodes.SizeIsElementCount | BSTvAVL/AVLTree.h:223-227 | in a search tree the node count equals the number of stored elements |
| AvlRebalance.RotateLeft | BSTvAVL/AVLTree.h:112-117 | the left rotation returns the former right child as the new subtree root, with the old root as its left child, and keeps the in-order sequence |
| AvlRebalance.RotateRight | BSTvAVL/AVLTree.h:119-124 | the right rotation returns the former left child as the new subtree root, with the old root as its right child, and keeps the in-order sequence |
| AvlRebalance.RotationsAreInverse | BSTvAVL/AVLTree.h:112-124 | rotating left and then right, or right and then left, restores the subtree |
| AvlRebalance.SingleRotateLeft | BSTvAVL/AVLTree.h:112-117 | a left rotation with re-tagged balance factors yields an AVL subtree with the same in-order sequence and a known height |
| AvlRebalance.SingleRotateRight | BSTvAVL/AVLTree.h:119-124 | the mirror of the left rotation |
| AvlRebalance.DoubleRotationTags | BSTvAVL/AVLTree.h:97-111 | after a double rotation the new left child leans left by as much as the old grandchild leaned right, and the new right child leans right by as much as the grandchild leaned left |
| AvlRebalance.DoubleRotationChildren | BSTvAVL/AVLTree.h:97-111 | with those tags, the two nodes rebuilt around a balanced grandchild and two outer subtrees one level lower are balanced and as high as the grandchild, and the even node over them is balanced |
| AvlRebalance.RotateLeftRight | BSTvAVL/AVLTree.h:97-103 | a left-right double rotation of a subtree whose left side is two higher and leans right gives an AVL subtree with the same in-order sequence and height of the right side + 2 |
| AvlRebalance.RotateRightLeft | BSTvAVL/AVLTree.h:105-111 | the mirror double rotation |
| AvlRebalance.LeftBalance | BSTvAVL/AVLTree.h:97-103 | left-balancing a node whose left subtree is two higher restores the AVL property, keeps the in-order sequence, and the result is not taller than before the insertion (`taller` becomes false) |
| AvlRebalance.RightBalance | BSTvAVL/AVLTree.h:105-111 | the mirror of left-balancing |
| AvlRebalance.DeleteRightBalance | BSTvAVL/AVLTree.h:142-148 | after the left subtree shrank, rebalancing gives an AVL subtree with the same in-order sequence, and `shorter` reports exactly whether its height dropped |
| AvlRebalance.DeleteLeftBalance | BSTvAVL/AVLTree.h:149-155 | the mirror, after the right subtree shrank |
| AvlUpdate.GrowLeft | BSTvAVL/AVLTree.h:86-103 | after the left subtree grew, updating `bal` (or left-balancing) keeps the AVL property and the in-order sequence, and the returned `taller` is exactly the height increase |
| AvlUpdate.GrowRight | BSTvAVL/AVLTree.h:86-111 | the mirror, after the right subtree grew |
| AvlUpdate.Insert | BSTvAVL/AVLTree.h:86-95 | insertion keeps the AVL and search-tree properties; the keys become old keys + {key}, and the element map is updated at the key, which inserts a new node or updates the existing one; `taller` is exactly the height increase; when the key was present, `taller` is false and every node keeps its position and balance factor (`AvlNodes.SameShape`), so only the entry is updated |
| AvlUpdate.MaxEntry | BSTvAVL/AVLTree.h:133-141 | the rightmost entry is stored in the subtree and, in a search tree, has its largest key (the in-order predecessor used by removal) |
| AvlUpdate.ShrinkLeft | BSTvAVL/AVLTree.h:142-148 | after the left subtree shrank, rebalancing keeps the AVL property and the in-order sequence, `shorter` is exactly the height decrease, and nothing changes when the left subtree did not shrink |
| AvlUpdate.ShrinkRight | BSTvAVL/AVLTree.h:149-155 | the mirror, after the right subtree shrank |
| AvlUpdate.PredecessorNode | BSTvAVL/AVLTree.h:133-141 | replacing a node's entry by its in-order predecessor, and removing the predecessor from the left subtree, removes exactly the node's key from a search tree |
| AvlUpdate.Remove | BSTvAVL/AVLTree.h:133-141 | removal keeps the AVL and search-tree properties; `success` holds iff the key was present; the keys and elements lose exactly that key; `shorter` is exactly the height decrease; an absent key leaves the tree unchanged |
| AvlQueries.Lookup | BSTvAVL/AVLTree.h:195-214 | a search by comparison finds an entry with the key; in a search tree it finds one iff the key is stored, and the entry it finds is the stored one |
| AvlQueries.InTree | BSTvAVL/AVLTree.h:195-200 | in a search tree the answer is true iff the key is stored |
| AvlQueries.Retrieve | BSTvAVL/AVLTree.h:208-214 | in a search tree the result is the stored element with the key, or a NotFound failure (the exception) iff no element has that key |
| AvlQueries.Depth | BSTvAVL/AVLTree.h:229-236 | a non-negative depth means the key is stored and is at most the height; in a search tree the depth is non-negative iff the key is stored; a negative result −1 − d has d at most the height + 1 |
| AvlQueries.BstAttach | BSTvAVL/AVLTree.h:229-236 | attaching a key where its search falls off the tree adds exactly that key |
| AvlQueries.DepthOfAbsentKey | BSTvAVL/AVLTree.h:229-236 | for an absent key the depth is −1 − d, where d is the depth the key has once it is attached where the search ended |
| AvlQueries.FoundAtItsDepth | BSTvAVL/AVLTree.h:229-236 | a found key's entry lies on the level numbered by its depth |
| AvlTraversal.LevelBeyondHeight | BSTvAVL/AVLTree.h:243-248 | no level below the height holds a node |
| AvlTraversal.StepWeight | BSTvAVL/AVLTree.h:243-248 | taking the front subtree off the queue and queueing its children shrinks the queue's weight, so the loop terminates |
| AvlTraversal.BfsSplit | BSTvAVL/AVLTree.h:243-248 | a queue walk visits the roots of the front subtrees, then walks the rest followed by their children |
| AvlTraversal.BfsIsForestLevels | BSTvAVL/AVLTree.h:243-248 | the queue walk of a forest visits it level by level |
| AvlTraversal.BfsIsLevelOrder | BSTvAVL/AVLTree.h:243-248 | the FIFO walk from the root equals the level-order sequence |
| AvlTraversal.BfsBag | BSTvAVL/AVLTree.h:243-248 | the queue walk visits every entry of the queued subtrees exactly once |
| AvlTraversal.LevelOrderPermutesInOrder | BSTvAVL/AVLTree.h:216-248 | level order is a permutation of in-order, so both walks visit each node once and visit size-many items |
| AvlBounds.AvlMinSize | BSTvAVL/AVLTree.h:157-163 | a balanced tree of height h has at least MinNodes(h) nodes (the Fibonacci-like minimum) |
| AvlBounds.MinNodesExponential | BSTvAVL/AVLTree.h:157-163 | MinNodes(h) + 1 is at least 2^((h+2)/2) |
| AvlBounds.AvlHeightLogarithmic | BSTvAVL/AVLTree.h:1-2 | a balanced tree of height h holds at least 2^((h+2)/2) − 1 nodes |
| AvlTrees.AvlTree.constructor | BSTvAVL/AVLTree.h:173-176 | a new tree is valid and empty with count 0 |
| AvlTrees.AvlTree.IsEmpty | BSTvAVL/AVLTree.h:183-187 | true iff no element is stored |
| AvlTrees.AvlTree.Insert | BSTvAVL/AVLTree.h:189-193 | the new `root` is what the insertion helper returns for the old root, the tree stays valid, the contents gain (or update) the element, and `count` grows by one exactly when the key was new |
| AvlTrees.AvlTree.InTree | BSTvAVL/AVLTree.h:195-200 | true iff an element with the key is stored |
| AvlTrees.AvlTree.Remove | BSTvAVL/AVLTree.h:202-206 | the new `root` is what the removal helper returns for the old root (the old root itself when the key is absent), the tree stays valid, the contents lose exactly that key, and `count` drops by one exactly when it was present |
| AvlTrees.AvlTree.Retrieve | BSTvAVL/AVLTree.h:208-214 | the stored element with the key, and NotFound (the `AVLTreeException` of lines 20-43) exactly when there is none |
| AvlTrees.AvlTree.Size | BSTvAVL/AVLTree.h:223-227 | the number of stored elements |
| AvlTrees.AvlTree.Depth | BSTvAVL/AVLTree.h:229-236 | non-negative iff the key is stored, and bounded by the height |
| AvlTrees.AvlTree.Height | BSTvAVL/AVLTree.h:237-241 | −1 exactly for the empty tree, and logarithmic in the number of elements |
| AvlTrees.AvlTree.Traverse | BSTvAVL/AVLTree.h:216-221 | the in-order visit sequence has strictly ascending keys, one entry per element, each with its stored payload |
| AvlTrees.AvlTree.LevelTraverse | BSTvAVL/AVLTree.h:243-248 | the queue loop visits the nodes in level order, each once, `count` items in all |
| AvlTrees.SizeAfterInsert | BSTvAVL/AVLTree.h:189-193 | after an insertion the node count grows by one exactly when the key was new |
| AvlTrees.SizeAfterRemove | BSTvAVL/AVLTree.h:202-206 | after a removal the node count drops by one exactly when the key was present |
| AvlTrees.HeightOfContents | BSTvAVL/AVLTree.h:237-241 | a balanced search tree's height is −1 iff it is empty and fits its element count logarithmically |
| AvlTrees.InOrderPayloads | BSTvAVL/AVLTree.h:216-221 | each entry visited in order carries the payload stored under its key |
| AvlScenarios.AscendingStep3 | BSTvAVL/AVLTree.h:86-117 | inserting 3 into the tree of 1 and 2 rotates left at the root and gives root 2 with leaves 1 and 3 |
| AvlScenarios.DepthBeforeRebalancing | BSTvAVL/AVLTree.h:229-236 | in the tree of 1 and 2 the absent key 3 has depth −3 (it would be attached at depth 2), while after the insertion and its rotation 3 sits at depth 1 |
| AvlScenarios.AscendingStep6 | BSTvAVL/AVLTree.h:86-117 | inserting 6 after 1..5 rotates left at the root and makes 4 the root |
| AvlScenarios.RotationUnderFive | BSTvAVL/AVLTree.h:105-117 | inserting 7 below node 5 with right child 6 rotates left there, giving 6 over 5 and 7, not taller |
| AvlScenarios.AscendingStep7 | BSTvAVL/AVLTree.h:86-117 | inserting 7 after 1..6 rotates left at node 5, giving a perfect tree of height 2 |
| AvlScenarios.AscendingResult | BSTvAVL/AVLTree.h:229-241 | after inserting 1..7 in ascending order the root is 4, the height is 2, and key 1 is at depth 2 |
| AvlScenarios.AscendingAbsentKey | BSTvAVL/AVLTree.h:229-236 | in that tree the absent key 8 has depth −4, since it would be attached at depth 3 |
| AvlScenarios.MixedStep5 | BSTvAVL/AVLTree.h:86-95 | inserting 10, 20, 5, 4 and then 15 only updates balance factors, with no rotation |
| AvlScenarios.MixedResult | BSTvAVL/AVLTree.h:126-131 | that tree's in-order walk is 4, 5, 10, 15, 20 and its height is 2 |
| AvlScenarios.RemoveRootOfThree | BSTvAVL/AVLTree.h:133-141 | removing the root of the tree holding 5, 3 and 8 moves the predecessor 3 up; the result leans right and is not shorter |

## Left out

- Nodes are values (`Tree<V>`), not heap objects. The recursive helpers return the new subtree root and their `taller`, `shorter` or `success` flag as one result value. They do not rewire `left`/`right` pointers and `bal` fields in place through `Node*` and `bool&` parameters. So the model does not capture aliasing between nodes, or a helper that changes a node the caller still holds.
- The header has no function bodies. The operations follow the classic AVL algorithms that its helpers and flags describe, for example:
  - removal replaces a node that has two children by its in-order predecessor;
  - a double rotation fixes a zig-zag imbalance.
- AvlUpdate.Insert: the helper `insert` is documented as returning "a reference to the new node". The model returns the root of the rebalanced subtree together with `taller`, which is what its callers need to relink the tree. The new node itself is not returned.
- AvlUpdate.Remove: the helper `remove` is documented as returning "a reference to the deleted node". The model returns the root of the rebalanced subtree, which is what its callers need to relink the tree.
- AvlTrees.AvlTree.Insert: the header's helper `insert` reports only `taller`, not whether the key was new. To keep `count` exact, the model's public `Insert` first searches for the key with `AvlQueries.InTree` and increments `count` only when it was absent. How the original keeps `count` right on an update is not visible in the header.
- `recDestroy` and the destructor release node memory, which has no counterpart for values. Dropping the tree is the whole effect.
- The exception's message string and `what()` are left out. A missing key is the error outcome `NotFound`.
- `FuncType` callbacks are left out. `traverse` and `levelTraverse` return the sequence of visited elements, in the order the callback would see them.
- The element type `E` is an `Entry<V>` compared by an integer key. Any other total order on `E` is not modelled.
- AvlTrees.AvlTree.Insert: the `int` counter `count` is unbounded, so overflow past 2^31 − 1 elements is not modelled.
- `std::queue` in `levelTraverse` is a sequence used first in, first out.
- The `<iostream>`, `<string>` and `<cstdlib>` includes are library plumbing and are left out.

## Notes

- The balance factor follows the enum (`LH = -1`, `RH = +1`): `bal` is height(right) − height(left). A left-high node is negative.
- Deletion rebalancing: when the subtree on the other side of the shrunk one is balanced (`EH`), a single rotation fixes the imbalance. The rotated subtree is then NOT shorter. It is shorter when that sibling leans the same way as the imbalance, or, after a double rotation, when it leans the other way. `DeleteRightBalance` and `DeleteLeftBalance` prove that `shorter` holds exactly when the height dropped.
- The depth query's d for an absent key ("the depth at which it would have been found if inserted") is read as the depth where the search falls off the tree, before any rebalancing. Rotations can move the inserted key afterwards. For example, in the tree holding 1 with right child 2, `Depth` of the absent key 3 is −3 (d = 2), but after the insertion rotates, 3 sits at depth 1 (`AvlScenarios.DepthBeforeRebalancing`).
- Inserting 1..7 in ascending order gives a perfect tree rooted at 4, with key 1 at depth 2.
- Inserting 10, 20, 5, 4, 15 in that order triggers no rotation.
