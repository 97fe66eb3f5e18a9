# Balanced search trees of TreesED2, modelled in Dafny

TreesED2 is a small Java library with three ordered containers of keys:
- an AVL tree (`AVLTree` over `AVLNode`);
- a red-black tree with subtree counters (`RedBlackTree` over `RedBlackNode`);
- a B-tree of configurable order (`BTree` over `BNode`).

This project models each one and proves what its operations promise:
- the keys kept, added or removed;
- the search order;
- the balance or colour invariant;
- the counters, the node occupancy and the validation results;
- the visit orders.

Keys are mathematical integers. Each structure follows its own Java form.

- **AVL tree** (`avl_node.dfy`, `avl_tree.dfy`).
  - Java's `insert`, `remove`, `adjustTree` and the rotations are recursive and return the new subtree root. They become functions on a `Tree` datatype.
  - `AVLNode`, whose setters mutate fields, is the class `AvlNode`, and `AvlTree` holds the root.
  - `AvlNode` and `AvlNodes.Swap` model the node object and `swap` on the heap. The algorithms run on the `Tree` value that `AvlTree` holds, where the effect of remove's `swap` of a node with the minimum of its right subtree (`AVLTree.java:47`) is `AvlTrees.WithLeftmostKey`: the node takes the right subtree's smallest key and that subtree's leftmost node takes the removed key.
  - Duplicates go right, as in the source.
  - The proofs cover:
    - the multiset of keys;
    - the non-decreasing in-order sequence;
    - insertion at the right position;
    - the AVL balance bound and the height change of every insert and remove.
- **Red-black tree** (`rb_*.dfy`).
  - The linked nodes and the shared `nil` sentinel form an arena: `nodes: seq<RedBlackNode>`.
    - Index 0 is the sentinel. Links are indices, and `-1` stands for Java's `null`.
    - The mutable class `RedBlackTree` updates the arena field by field, in the same order as the Java statements.
  - A ghost `tree` gives the shape that the links describe. `Sound` ties the arena to that picture: every link, parent pointer, colour and `numLeft`/`numRight` counter.
  - Every walk over the nodes is a `while` loop proved against a function of that picture. These are the descent of insert, `treeMinimum`, the climb of `treeSuccessor`, `search`, `fixNodeData`, `insertFixup` and `removeFixup`.
  - The red-black invariant is: no red node has a red child, every path has the same black height, and the root is black.
- **B-tree** (`bnode.dfy`, `btree*.dfy`).
  - `BNode` is a class over two arrays, each with the overflow slot that Java allocates. Its loops are proved against sequence functions.
  - The tree algorithms in `BTree.java` (insert with split, remove with `combined`, search, validate, visit) are modelled on a value tree `Node(keys, children)`. The class `BTree` holds that value as its root.
  - The proofs cover: keys kept in order, the occupancy bounds between `minKeySize` and `maxKeySize`, and all leaves at one depth. `validate()` returns `true` on every tree built by the positional insert and, on trees with distinct keys, by remove. Java's own insert can build a tree on which `validate()` is false when keys repeat (see Findings); on distinct keys it builds the same tree as the positional insert.

## Model

| member | source | states |
|---|---|---|
| AvlNodes.AvlNode.constructor | src/avlTree/AVLNode.java:8-12 | a new node holds the key and has no children |
| AvlNodes.AvlNode.GetLeft | src/avlTree/AVLNode.java:14-16 | returns the left link |
| AvlNodes.AvlNode.SetLeft | src/avlTree/AVLNode.java:18-20 | replaces the left link; the key and the right link stay |
| AvlNodes.AvlNode.GetRight | src/avlTree/AVLNode.java:22-24 | returns the right link |
| AvlNodes.AvlNode.SetRight | src/avlTree/AVLNode.java:26-28 | replaces the right link; the key and the left link stay |
| AvlNodes.AvlNode.GetKey | src/avlTree/AVLNode.java:30-32 | returns the key |
| AvlNodes.AvlNode.SetKey | src/avlTree/AVLNode.java:34-36 | replaces the key; both links stay |
| AvlNodes.Swap | src/avlTree/AVLTree.java:102-109 | exchanges the keys of two non-null nodes and leaves every link alone; with a null argument no key changes |
| AvlTrees.Max | src/avlTree/AVLTree.java:131-134 | the result is an upper bound of both arguments and equals one of them |
| AvlTrees.Height | src/avlTree/AVLTree.java:126-129 | the height is zero exactly for the empty tree |
| AvlTrees.BalancingFactor | src/avlTree/AVLTree.java:122-124 | the balancing factor is the right subtree's height less the left one's; `Balanced` keeps it within [-1, 1] at every node, the bound that AdjustTreeBalances, InsertBalanced and RemoveBalanced establish |
| AvlTrees.LeftRotation | src/avlTree/AVLTree.java:76-81 | keeps the in-order key sequence; the right child becomes the root with the old root on its left |
| AvlTrees.RightRotation | src/avlTree/AVLTree.java:89-94 | keeps the in-order key sequence; the left child becomes the root with the old root on its right |
| AvlTrees.DoubleLeftRotation | src/avlTree/AVLTree.java:83-87 | keeps the in-order key sequence; the right child's left child becomes the root |
| AvlTrees.DoubleRightRotation | src/avlTree/AVLTree.java:96-100 | keeps the in-order key sequence; the left child's right child becomes the root |
| AvlTrees.AdjustTree | src/avlTree/AVLTree.java:56-71 | rebalancing never changes the in-order key sequence |
| AvlTrees.LeftRotationBalances | src/avlTree/AVLTree.java:56-62 | a right-heavy node by two whose right child leans right or not at all is balanced by one left rotation; the height ends within one of the right subtree's |
| AvlTrees.DoubleLeftRotationBalances | src/avlTree/AVLTree.java:56-60 | a right-heavy node by two whose right child leans left is balanced by the double left rotation, with the right subtree's height |
| AvlTrees.RightRotationBalances | src/avlTree/AVLTree.java:63-69 | mirror image: one right rotation balances a left-heavy node whose left child does not lean right |
| AvlTrees.DoubleRightRotationBalances | src/avlTree/AVLTree.java:63-67 | mirror image: the double right rotation balances a left-heavy node whose left child leans right |
| AvlTrees.AdjustTreeBalances | src/avlTree/AVLTree.java:56-71 | for balanced subtrees whose heights differ by at most two, adjustTree yields a balanced tree of height max or max+1, exactly max+1 when no rotation is needed |
| AvlTrees.InsertInOrder | src/avlTree/AVLTree.java:16-28 | inserting k puts it into the in-order sequence at the position returned by InsertPosition, everything else in the same order |
| AvlTrees.InsertPositionSplits | src/avlTree/AVLTree.java:16-28 | in an ordered tree that position has every key before it at most k and every key after it greater than k (duplicates go right) |
| AvlTrees.InsertKeys | src/avlTree/AVLTree.java:16-28 | insertion adds exactly one copy of the key to the multiset of keys |
| AvlTrees.InsertOrdered | src/avlTree/AVLTree.java:16-28 | insertion keeps the in-order sequence non-decreasing |
| AvlTrees.InsertBalanced | src/avlTree/AVLTree.java:16-28 | insertion into an AVL-balanced tree gives an AVL-balanced tree whose height grows by at most one |
| AvlTrees.InsertInto | src/avlTree/AVLTree.java:16-28 | insert(key, node) never returns null; InsertKeys, InsertInOrder, InsertOrdered and InsertBalanced prove that it adds one copy of the key at its in-order position and keeps the tree ordered and balanced, at most one level higher |
| AvlTrees.LeftmostKey | src/avlTree/AVLTree.java:111-120 | the key of the node minNode stops at is the first key in in-order |
| AvlTrees.WithLeftmostKey | src/avlTree/AVLTree.java:102-109 | writing a key into the leftmost node (the swap's effect on the right subtree) changes only the first in-order key and keeps size, height and balance |
| AvlTrees.DescentReachesNullIffAbsent | src/avlTree/AVLTree.java:34-40 | in an ordered tree, remove's descent reaches a null link (where Java throws) exactly when the key is absent |
| AvlTrees.RemoveKeys | src/avlTree/AVLTree.java:34-53 | removing a present key takes exactly one copy out of the multiset of keys |
| AvlTrees.RemoveOrdered | src/avlTree/AVLTree.java:34-53 | removal keeps the in-order sequence non-decreasing |
| AvlTrees.RemoveBalanced | src/avlTree/AVLTree.java:34-53 | removal from an AVL-balanced tree keeps it balanced and lowers its height by at most one |
| AvlTrees.RemoveFrom | src/avlTree/AVLTree.java:34-53 | remove(key, node) of a present key, the two-child case writing the right subtree's minimum into the node (WithLeftmostKey); RemoveKeys, RemoveOrdered and RemoveBalanced prove that one copy leaves and the tree stays ordered and balanced, at most one level lower |
| AvlTrees.TraversalIsPermutation | src/avlTree/AVLTree.java:145-161 | the pre-, post- and in-order visits each list every key exactly once |
| AvlTrees.Visit | src/avlTree/AVLTree.java:145-161 | the visit appends the traversal selected by the tag ("PRE", "POS", otherwise in-order) to the list |
| AvlTrees.LeftmostNodeIsMinimum | src/avlTree/AVLTree.java:111-120 | the node minNode returns holds the smallest key of an ordered tree |
| AvlTrees.LeftmostNode | src/avlTree/AVLTree.java:111-120 | the node minNode stops at has no left child; LeftmostNodeIsMinimum proves it holds the smallest key of an ordered tree |
| AvlTrees.MinNode | src/avlTree/AVLTree.java:111-120 | the loop follows left links to the leftmost node, or returns null for an empty tree |
| AvlTrees.AvlTree.constructor | src/avlTree/AVLTree.java:8-10 | a new tree is empty |
| AvlTrees.AvlTree.Insert | src/avlTree/AVLTree.java:12-14 | the root becomes the recursive insert's result; the keys gain one copy of the key; the tree stays ordered and balanced |
| AvlTrees.AvlTree.Remove | src/avlTree/AVLTree.java:30-32 | for a present key the root becomes the recursive remove's result; one copy of the key leaves; the tree stays ordered and balanced |
| AvlTrees.AvlTree.ToArrayList | src/avlTree/AVLTree.java:163-171 | an empty tree gives null; otherwise the traversal named by the tag |
| RedBlackNodes.NewNode | src/redBlackTree/RedBlackNode.java:26-33 | a new node is black, with zero counters and null links |
| RedBlackNodes.NewKeyNode | src/redBlackTree/RedBlackNode.java:36-39 | the keyed constructor is the plain one with the key set |
| RedBlackTrees.RedBlackTree.constructor | src/redBlackTree/RedBlackTree.java:10-17 | a new tree is the lone sentinel, linked to itself on all three sides, which is also the root |
| RedBlackTrees.RedBlackTree.LeftRotateFixup | src/redBlackTree/RedBlackTree.java:53-85 | the rotated node's counters become the sizes of its new subtrees, and its right child's left counter becomes the new size of its left side; nothing else changes |
| RedBlackTrees.RedBlackTree.RightRotateFixup | src/redBlackTree/RedBlackTree.java:117-148 | mirror image of the left fixup |
| RedBlackTrees.RedBlackTree.LeftRotateLinks | src/redBlackTree/RedBlackTree.java:25-47 | the six pointer writes of a left rotation, stated node by node; root moves when x was the root |
| RedBlackTrees.RedBlackTree.RightRotateLinks | src/redBlackTree/RedBlackTree.java:94-111 | the pointer writes of a right rotation, stated node by node |
| RedBlackTrees.RedBlackTree.LeftRotate | src/redBlackTree/RedBlackTree.java:20-48 | the arena now stores the left-rotated subtree in the same place, with correct links and counters; keys in order unchanged |
| RedBlackTrees.RedBlackTree.RightRotate | src/redBlackTree/RedBlackTree.java:89-112 | the arena now stores the right-rotated subtree in place; keys in order unchanged |
| RedBlackRotations.RotateLeftKeeps | src/redBlackTree/RedBlackTree.java:20-85 | a left rotation keeps the in-order keys, the set of nodes, the size, distinctness and correct counters |
| RedBlackRotations.RotateRightKeeps | src/redBlackTree/RedBlackTree.java:89-148 | the same for a right rotation |
| RedBlackTrees.RedBlackTree.Insert | src/redBlackTree/RedBlackTree.java:151-153 | insertion of a new keyed node keeps a sound red-black tree with sorted keys and adds exactly one copy of the key |
| RedBlackTrees.RedBlackTree.InsertNode | src/redBlackTree/RedBlackTree.java:156-195 | linking node z in and fixing up keeps the tree sound, sorted and red-black and adds z's key to the keys |
| RedBlackTrees.RedBlackTree.InsertDescent | src/redBlackTree/RedBlackTree.java:159-175 | the descent stops at the null link where the key belongs in order, with every counter on the way already raised by one |
| RedBlackTrees.RedBlackTree.AttachNew | src/redBlackTree/RedBlackTree.java:177-190 | z, red with nil children, hangs where the descent stopped (or becomes the root); the keys are those before plus z's key, still in order, and only a red-red edge at z may be left for insertFixup |
| RedBlackTrees.RedBlackTree.InsertLinks | src/redBlackTree/RedBlackTree.java:177-190 | z becomes the left or right child of y by key comparison, or the root, and is made red with nil children |
| RedBlackInsertion.DescentAttach | src/redBlackTree/RedBlackTree.java:156-190 | a node attached at the end of the descent gives a sound tree whose keys are the old keys with the new one inserted in order |
| RedBlackTrees.RedBlackTree.InsertFixup | src/redBlackTree/RedBlackTree.java:199-262 | after the fixup the tree is red-black, with the same keys in the same order and the same nodes |
| RedBlackColors.InsertFixupStarts | src/redBlackTree/RedBlackTree.java:188-193 | a red leaf attached to a red-black tree satisfies the fixup loop invariant (at most one red-red violation at z) |
| RedBlackTrees.RedBlackTree.RecolorCase | src/redBlackTree/RedBlackTree.java:211-217 | case 1 (red uncle): recolouring moves the violation two levels up and keeps the invariant |
| RedBlackTrees.RedBlackTree.InnerCaseLeft | src/redBlackTree/RedBlackTree.java:219-224 | case 2: a left rotation at the parent turns the inner grandchild into the outer one, keeping the invariant |
| RedBlackTrees.RedBlackTree.OuterCaseLeft | src/redBlackTree/RedBlackTree.java:227-232 | case 3: recolour and right-rotate the grandparent; the parent of z is now black so the loop ends |
| RedBlackTrees.RedBlackTree.InnerCaseRight | src/redBlackTree/RedBlackTree.java:248-251 | mirror of case 2 |
| RedBlackTrees.RedBlackTree.OuterCaseRight | src/redBlackTree/RedBlackTree.java:252-256 | mirror of case 3 |
| RedBlackColors.InsertFixupDone | src/redBlackTree/RedBlackTree.java:203-260 | when z is the root or its parent is black, no red node has a red child and all black heights agree |
| RedBlackColors.BlackenRoot | src/redBlackTree/RedBlackTree.java:260 | painting the root black turns a well-coloured tree into a red-black one |
| RedBlackTrees.RedBlackTree.SetColor | src/redBlackTree/RedBlackTree.java:213-215 | a colour write changes exactly that node's colour in the arena and in the picture |
| RedBlackTrees.RedBlackTree.TreeMinimum | src/redBlackTree/RedBlackTree.java:265-270 | returns the leftmost node: the one with the first key of the subtree in order and no left child |
| RedBlackQueries.LeftmostIsFirst | src/redBlackTree/RedBlackTree.java:265-270 | the leftmost node holds the first in-order key, the minimum of a sorted subtree |
| RedBlackQueries.Leftmost | src/redBlackTree/RedBlackTree.java:265-270 | treeMinimum's stopping point: a node without a left child for a non-empty subtree; LeftmostIsFirst proves it holds the first, smallest key |
| RedBlackTrees.RedBlackTree.TreeSuccessor | src/redBlackTree/RedBlackTree.java:272-285 | corrected successor: nil exactly when no key follows, otherwise the node holding the next key in order |
| RedBlackTrees.RedBlackTree.TreeSuccessorAsWritten | src/redBlackTree/RedBlackTree.java:272-285 | the successor walk as written, which tests the left child |
| RedBlackTrees.RedBlackTree.ClimbLeft | src/redBlackTree/RedBlackTree.java:278-285 | the climb stops at the nearest ancestor that has the node in its left subtree; nil exactly when no key follows the subtree |
| RedBlackQueries.Climb | src/redBlackTree/RedBlackTree.java:278-285 | the climb stops at the first ancestor reached from its left side, or nil at the top; ClimbLeft proves the loop reaches it, nil exactly when no key follows the subtree |
| RedBlackQueries.Successor | src/redBlackTree/RedBlackTree.java:272-285 | the intended successor: the leftmost node of a non-empty right subtree, else the climb; TreeSuccessor proves it nil exactly when no key follows, else the node with the next key |
| RedBlackQueries.SuccessorAsWritten | src/redBlackTree/RedBlackTree.java:272-285 | the successor as written, testing the left child; SuccessorsAgree proves it right for a node with two children, and the two counterexample lemmas wrong otherwise |
| RedBlackQueries.SuccessorsAgree | src/redBlackTree/RedBlackTree.java:272-285 | for a node with two children, as on remove's path, the as-written and corrected successors coincide |
| RedBlackQueries.SuccessorAsWrittenMissesRightChild | src/redBlackTree/RedBlackTree.java:275-285 | tree 2 with right child 3: as written the successor of 2 is nil although 3 follows |
| RedBlackQueries.SuccessorAsWrittenMissesAncestor | src/redBlackTree/RedBlackTree.java:275-276 | tree 4, left child 2, its left child 1: as written the successor of 2 is nil although 4 follows |
| RedBlackTrees.RedBlackTree.Search | src/redBlackTree/RedBlackTree.java:483-501 | returns null exactly when the key is absent, otherwise a node holding the key |
| RedBlackTrees.RedBlackTree.Remove | src/redBlackTree/RedBlackTree.java:289-337 | removing a present key from a red-black tree with distinct keys keeps it sound, sorted and red-black and takes exactly that key out |
| RedBlackTrees.RedBlackTree.ChooseSpliced | src/redBlackTree/RedBlackTree.java:297-302 | the node to splice out is z itself when a child of z is nil and z's successor, the leftmost node of its right subtree, otherwise; splicing it out there leaves the keys less z's key, still increasing |
| RedBlackTrees.RedBlackTree.SpliceOut | src/redBlackTree/RedBlackTree.java:298-328 | after y is spliced out and, for a two-child z, z takes y's key, the arena holds the tree with y replaced by its only child x |
| RedBlackTrees.RedBlackTree.Splice | src/redBlackTree/RedBlackTree.java:305-323 | x is y's non-nil child (else the right one), x's parent becomes y's parent, and the parent's (or root's) link to y now points to x |
| RedBlackRemoval.DetachSuccessor | src/redBlackTree/RedBlackTree.java:298-328 | moving the successor's key into z and splicing the successor out leaves exactly the keys without z's key, still in order |
| RedBlackRemoval.DetachSelf | src/redBlackTree/RedBlackTree.java:298-323 | splicing out a node with at most one child leaves exactly the keys without its key, in order |
| RedBlackTrees.RedBlackTree.FixNodeData | src/redBlackTree/RedBlackTree.java:342-395 | after the climb every counter on the path from x to the root again equals the size of its subtree |
| RedBlackRemoval.FixNodeDecides | src/redBlackTree/RedBlackTree.java:364-387 | at each ancestor fixNodeData lowers exactly the counter of the side the removed node was on |
| RedBlackRemoval.FixNode | src/redBlackTree/RedBlackTree.java:364-387 | one loop pass of fixNodeData at a node; FixNodeDecides proves it lowers exactly the counter on the side the removed node was on |
| RedBlackTrees.RedBlackTree.RemoveFinish | src/redBlackTree/RedBlackTree.java:332-336 | with the counters fixed and, when y was black, removeFixup run, the tree is sound and red-black with the spliced key sequence |
| RedBlackRemoval.RemoveFixupStarts | src/redBlackTree/RedBlackTree.java:334-336 | splicing out a black node leaves the fixup loop invariant at x (one black owed); splicing out a red node leaves the tree red-black |
| RedBlackTrees.RedBlackTree.RemoveFixup | src/redBlackTree/RedBlackTree.java:400-480 | the loop ends and the tree is red-black again, with the same keys and nodes |
| RedBlackTrees.RedBlackTree.FixupLeft | src/redBlackTree/RedBlackTree.java:408-443 | one pass for x a left child keeps the invariant and either moves x up or ends the loop |
| RedBlackTrees.RedBlackTree.FixupRight | src/redBlackTree/RedBlackTree.java:445-476 | mirror pass for x a right child |
| RedBlackTrees.RedBlackTree.RedSiblingLeft | src/redBlackTree/RedBlackTree.java:414-419 | case 1: recolour and rotate so that x's new sibling is black, under a red parent |
| RedBlackTrees.RedBlackTree.RedSiblingRight | src/redBlackTree/RedBlackTree.java:449-454 | mirror of case 1 |
| RedBlackTrees.RedBlackTree.BlackNephews | src/redBlackTree/RedBlackTree.java:422-426 | case 2: painting the sibling red moves the extra black to the parent |
| RedBlackTrees.RedBlackTree.InnerNephewLeft | src/redBlackTree/RedBlackTree.java:430-435 | case 3: a right rotation at the sibling gives it a red outer child |
| RedBlackTrees.RedBlackTree.InnerNephewRight | src/redBlackTree/RedBlackTree.java:463-468 | mirror of case 3 |
| RedBlackTrees.RedBlackTree.OuterNephewLeft | src/redBlackTree/RedBlackTree.java:437-441 | case 4: recolour and rotate the parent; the whole tree is well coloured and x becomes the root |
| RedBlackTrees.RedBlackTree.OuterNephewRight | src/redBlackTree/RedBlackTree.java:470-474 | mirror of case 4 |
| RedBlackRemoval.RemoveFixupEnds | src/redBlackTree/RedBlackTree.java:405-479 | when x is red or the root, blackening it leaves a red-black tree |
| RedBlackTrees.RedBlackTree.TreeSizeAsWritten | src/redBlackTree/RedBlackTree.java:509-511 | as written size() is numLeft + numRight + 1 of the root, one too many for the empty tree |
| RedBlackTrees.RedBlackTree.TreeSize | src/redBlackTree/RedBlackTree.java:509-511 | corrected size: the number of keys |
| RedBlackQueries.TraversalIsPermutation | src/redBlackTree/RedBlackTree.java:514-530 | each visit order lists every key once |
| RedBlackTrees.RedBlackTree.Visit | src/redBlackTree/RedBlackTree.java:514-530 | appends the traversal named by the tag to the list |
| RedBlackTrees.RedBlackTree.ToArrayList | src/redBlackTree/RedBlackTree.java:532-541 | an empty tree gives null; otherwise the traversal named by the tag |
| BNodes.BNode.constructor | src/btree/BNode.java:68-74 | a new node is empty, with arrays one slot larger than the maximum sizes |
| BNodes.BNode.GetKey | src/btree/BNode.java:76-78 | a key inside the used part, or null past it |
| BNodes.BNode.IndexOf | src/btree/BNode.java:80-85 | index of the first occurrence of the value among the keys, -1 when absent |
| BNodes.BNode.AddKey | src/btree/BNode.java:87-90 | the keys become the old keys with the value inserted in sorted position (after equal keys) |
| BNodes.InsertSortedProperties | src/btree/BNode.java:87-90 | that insertion keeps the keys sorted and adds exactly one copy |
| BNodes.InsertSorted | src/btree/BNode.java:87-90 | the keys with the value placed in its stable-sort slot; InsertSortedProperties proves the keys stay sorted and gain exactly one copy, InsertSortedIncreasing that distinct keys stay distinct |
| BNodes.SortingIsInsertion | src/btree/BNode.java:87-90 | appending and sorting the keys, as Java does, gives the same sequence as sorted insertion |
| BNodes.BNode.RemoveKey | src/btree/BNode.java:93-111 | an absent value changes nothing and gives null; a present one removes its first occurrence and is returned |
| BNodes.ShiftOutRemovesFirst | src/btree/BNode.java:93-111 | the shifting loop removes exactly the first occurrence whenever the copies of the value are contiguous |
| BNodes.ShiftOut | src/btree/BNode.java:93-111 | what the shifting loop leaves in the used slots, one fewer than before; ShiftOutRemovesFirst proves it removes exactly the first occurrence when the copies are contiguous |
| BNodes.BNode.RemoveKeyAt | src/btree/BNode.java:113-123 | an index past the used part changes nothing and gives null; otherwise that key is removed and returned |
| BNodes.BNode.NumberOfKeys | src/btree/BNode.java:125-127 | the number of keys in use |
| BNodes.BNode.NumberOfChildren | src/btree/BNode.java:129-131 | the number of children in use |
| BNodes.BNode.GetChild | src/btree/BNode.java:133-137 | a non-null child inside the used part, or null past it |
| BNodes.BNode.IndexOfChild | src/btree/BNode.java:139-145 | index of the first occurrence of the child, -1 when absent |
| BNodes.BNode.AddChild | src/btree/BNode.java:147-152 | the child's parent becomes this node, and the child is inserted at the stable sorted position by first key |
| BNodes.BNode.RemoveChild | src/btree/BNode.java:154-171 | reports whether the child was present; when present its first occurrence is removed (the shifting loop's result, exact removal when children are distinct) |
| BNodes.BNode.RemoveChildAt | src/btree/BNode.java:173-184 | an index past the used part gives null; otherwise that child is removed and returned |
| BTrees.BTree.constructor | src/btree/BTree.java:16-25 | the default tree is empty, with minKeySize 1, maxKeySize 2, minChildrenSize 2 and maxChildrenSize 3 |
| BTrees.BTree.WithOrder | src/btree/BTree.java:27-32 | a tree of order m is empty, with keys between m and 2m per node and children between m+1 and 2m+1 |
| BTrees.BTree.Insert | src/btree/BTree.java:34-81 | the tree stays valid, its keys become the old ones with the value inserted in order, size grows by one, and true is returned |
| BTreeInsertion.InsertTreeSpec | src/btree/BTree.java:34-81 | insertion with the split cascade keeps every node within bounds and every leaf at one depth, and inserts the key into the in-order keys |
| BTreeInsertion.InsertTree | src/btree/BTree.java:34-81 | insert(value) on the root: an empty tree gets a one-key root and a root that splits gets a new root above its halves (lines 143-151); InsertTreeSpec proves the result a valid tree holding the old keys with the value inserted in order |
| BTreeInsertion.InsertInto | src/btree/BTree.java:39-75 | the descent to a leaf and the split cascade back up (lines 152-161); InsertTreeSpec proves every node in bounds, every leaf at one depth and the keys inserted in order |
| BTreeInsertion.ChildFor | src/btree/BTree.java:52-74 | the child insert descends into is bracketed by the keys: every key before it is below the value and the key after it is at least the value |
| BTreeInsertion.SplitElements | src/btree/BTree.java:115-141 | splitting at the median keeps the keys in order: left half, median, right half |
| BTreeInsertion.SplitShaped | src/btree/BTree.java:115-141 | both halves of an overfull node have between m and 2m keys |
| BTreeInsertion.Split | src/btree/BTree.java:115-141 | the result is always a split into two halves and a median; SplitElements and SplitShaped prove the keys stay in order and both halves within bounds |
| BTreeInsertion.SettleSpec | src/btree/BTree.java:143-161 | a node that fits stays; an overfull one is split and its median passed up; keys are kept |
| BTreeInsertion.Settle | src/btree/BTree.java:43-48 | a node that gained a key is kept with at most maxKeySize keys and split otherwise, as line 160 does for a parent; SettleSpec proves keys kept and bounds met |
| BTrees.InsertedIsFound | src/btree/BTree.java:34-81 | after inserting a value, search finds it |
| BTreeSearch.SearchTreeFinds | src/btree/BTree.java:228-271 | search returns a node exactly when the value is in the tree, and the node returned holds it |
| BTreeSearch.SearchStep | src/btree/BTree.java:230-268 | one pass of getBNode's loop: it stops here only when the node holds the value, and goes down only to an existing child whose neighbouring keys bracket the value |
| BTreeSearch.Search | src/btree/BTree.java:228-271 | getBNode below a node; SearchTreeFinds proves it returns a node exactly when the value is present, and a node holding it |
| BTrees.BTree.GetBNode | src/btree/BTree.java:228-271 | the loop computes the same answer as the recursive search |
| BTrees.BTree.Contains | src/btree/BTree.java:219-222 | true exactly when the value is in the tree |
| BTrees.BTree.Search | src/btree/BTree.java:224-226 | a node exactly when the value is in the tree, and that node holds it |
| BTrees.BTree.Remove | src/btree/BTree.java:164-203 | returns the value exactly when present; with distinct keys the tree stays valid and its keys lose exactly that value |
| BTreeRemoval.RemoveTreeSpec | src/btree/BTree.java:164-203 | removal keeps the tree valid with distinct keys, removes the value when present, and leaves the keys unchanged when it is absent |
| BTreeRemoval.RemoveTree | src/btree/BTree.java:164-203 | remove(value): no change when getBNode finds nothing, and a root left without keys is replaced by its only child or by the empty tree; RemoveTreeSpec proves, for distinct keys, validity kept and exactly the value removed |
| BTreeRemoval.RemoveFrom | src/btree/BTree.java:172-203 | the removal below a node: from a leaf directly, from an internal node by putting the greatest key of the child before it in its place, each changed child repaired by combined; RemoveTreeSpec proves its effect on the keys and the shape |
| BTrees.RemovedIsGone | src/btree/BTree.java:164-203 | after removing a value from a tree with distinct keys, search no longer finds it |
| BTreeRemoval.RemoveGreatestSpec | src/btree/BTree.java:189-194 | taking the greatest key out of a subtree, with the combines that follow, leaves a well-formed subtree whose keys followed by that key are the old keys |
| BTreeRemoval.RemoveGreatest | src/btree/BTree.java:188-194 | getGreatestBNode, removeGreatestValue and the combined calls after them; RemoveGreatestSpec proves the subtree stays well formed and its keys followed by the key taken are the old keys |
| BTrees.RightmostLeafHoldsGreatest | src/btree/BTree.java:205-211 | the last key of the rightmost leaf is the greatest key of the subtree, the one removeGreatestValue takes |
| BTrees.BTree.GreatestLeaf | src/btree/BTree.java:274-280 | the loop reaches the rightmost leaf |
| BTreeRemoval.FixSpec | src/btree/BTree.java:283-378 | combining a child with one key too few, by borrowing from a neighbour or merging, keeps the keys in order and the node shape |
| BTreeRemoval.Combined | src/btree/BTree.java:283-378 | combined on a child: borrow from the right neighbour, else the left, else merge with the right, else the left; FixSpec proves keys and node shape kept |
| BTreeRemoval.BorrowRightElements | src/btree/BTree.java:297-307 | borrowing through the parent from the right neighbour keeps the in-order keys |
| BTreeRemoval.BorrowRight | src/btree/BTree.java:297-307 | the separator comes down into the child and the right neighbour's first key goes up; BorrowRightElements proves the in-order keys unchanged |
| BTreeRemoval.BorrowLeftElements | src/btree/BTree.java:316-326 | borrowing from the left neighbour keeps the in-order keys |
| BTreeRemoval.BorrowLeft | src/btree/BTree.java:316-326 | the separator comes down into the child and the left neighbour's last key goes up; BorrowLeftElements proves the in-order keys unchanged |
| BTreeRemoval.MergeRightElements | src/btree/BTree.java:327-341 | merging with the right neighbour and the separator keeps the in-order keys |
| BTreeRemoval.MergeRight | src/btree/BTree.java:327-341 | the child takes the separator and the right neighbour's keys and children, and the parent drops the neighbour; MergeRightElements proves the in-order keys unchanged |
| BTreeRemoval.MergeLeftElements | src/btree/BTree.java:351-365 | merging with the left neighbour and the separator keeps the in-order keys |
| BTreeRemoval.MergeLeft | src/btree/BTree.java:351-365 | the child takes the separator and the left neighbour's keys and children, and the parent drops the neighbour; MergeLeftElements proves the in-order keys unchanged |
| BTreeRemoval.RootEmptied | src/btree/BTree.java:346-350 | when a merge empties the root, its only child becomes the root with the same keys |
| BTrees.BTree.PreviousValueIndex | src/btree/BTree.java:380-388 | the loop computes the index the scan defines, stated by PreviousIndexIs |
| BTreeRemoval.PreviousIndexIs | src/btree/BTree.java:380-388 | in sorted keys, when the value lies above key i and at most key i+1, the index returned is i: the separator before the value |
| BTreeRemoval.PreviousIndex | src/btree/BTree.java:380-388 | an index of the node's keys whenever it has one; PreviousIndexIs proves it the separator before the value |
| BTrees.BTree.NextValueIndex | src/btree/BTree.java:390-398 | the loop computes the index the scan defines, stated by NextIndexIs |
| BTreeRemoval.NextIndexIs | src/btree/BTree.java:390-398 | in sorted keys, the index returned is that of the first key at or above the value |
| BTreeRemoval.NextIndex | src/btree/BTree.java:390-398 | an index of the node's keys whenever it has one; NextIndexIs proves it the first key at or above the value |
| BTrees.BTree.Clear | src/btree/BTree.java:214-217 | the tree is empty with size zero |
| BTrees.BTree.Size | src/btree/BTree.java:400-402 | the stored size equals the number of keys |
| BTreeValidation.ValidTreeValidates | src/btree/BTree.java:404-482 | validate() returns true on every well-formed tree |
| BTreeValidation.Validate | src/btree/BTree.java:404-408 | validate(): true for the empty tree, otherwise validateBNode on the root; ValidTreeValidates proves it true on every well-formed tree |
| BTreeValidation.ValidateNode | src/btree/BTree.java:410-482 | validateBNode: keys in order (lines 411-420), the root and non-root size bounds (421-452), then the child checks; ValidTreeValidates proves it true on every node of a well-formed tree |
| BTreeValidation.ValidateChildren | src/btree/BTree.java:454-479 | the first child ends at most at key 0, the last child starts at least at the last key, each middle child lies within its keys, and every child is valid as a non-root node |
| BTrees.BTree.Validate | src/btree/BTree.java:404-408 | returns true on every tree the operations keep |
| BTrees.VisitInOrder | src/btree/BTree.java:96-101 | the in-order visit appends the keys of the node in order |
| BTrees.BTree.ToArrayList | src/btree/BTree.java:105-113 | an empty tree gives null; otherwise in-order keys for any tag other than "PRE" or "POS", and an empty list for those |
| BTreeAsWrittenInsertion.InsertTreeAgrees | src/btree/BNode.java:147-152 | on a valid tree of distinct keys, inserting a new key as written (split halves placed through `removeChild` and `addChild`'s sort by first key) builds exactly the tree the positional insert builds |
| BTreeAsWrittenInsertion.AddChild | src/btree/BNode.java:147-152 | the child is appended and the children stably re-sorted by first key; AddChildBetween proves a child whose first key lies strictly between its neighbours' lands in that slot |
| BTreeAsWrittenInsertion.AsWrittenInsertTree | src/btree/BTree.java:34-81 | insert as written, whose split places the halves through removeChild and addChild (lines 150-158); InsertTreeAgrees proves it equal to InsertTree on distinct keys, DuplicateInsertMisplaces not with repeated keys |
| BTreeAsWrittenInsertion.DuplicateInsertMisplaces | src/btree/BNode.java:147-152 | as written, with order 1 and keys 5,5,5,6,5 a further insertion of 5 turns a valid tree into the misordered one |
| BTreeAsWrittenInsertion.BrokenTreeLosesKey | src/btree/BTree.java:219-222 | in that tree validate() is false and contains(6) is false although 6 is present |

## Left out

- Keys are unbounded integers. Java's generic `Comparable` keys are not modelled, and neither are `Integer` boxing or overflow.
- All console output, `App.java` (the menu program) and `Teste.java` (a sample run) are not part of this model.
- The `System.err` message of the B-tree visit for "PRE" and "POS" is left out; the model keeps only its effect, which adds nothing to the list.
- `AVLTree.getRoot`/`setRoot` and the raw getters and setters of `BNode` (`getKeys`, `setKeys`, `getKeysSize` and the rest) are plain field access, absorbed into the class fields.
- AvlTrees.AvlTree.Remove: requires the key to be present. Java dereferences a null link on an absent key, which `DescentReachesNullIffAbsent` characterises.
- AvlTrees.AdjustTree: its balancing property is stated by `AdjustTreeBalances` for the heights insert and remove produce, not for arbitrary subtrees.
- RedBlackTrees.RedBlackTree.Remove: takes the key instead of a node and requires it to be present; Java passes `null` on to a `NullPointerException` when `search` misses.
- RedBlackTrees.RedBlackTree.Remove: proved for trees with distinct keys. With duplicates, `fixNodeData` cannot tell which equal key was removed.
- RedBlackTrees.RedBlackTree.FixNodeData: line 364 compares keys by reference (`!=` on boxed values). The model compares key values.
- RedBlackTrees.RedBlackTree.Splice: the arena holds a node per index. Java's aliasing through the shared `nil` object (whose parent is written on line 311) is modelled by the sentinel's own parent field.
- RedBlackNodes.NewNode: Java's `null` links of a fresh node are represented by `-1`.
- BTrees.BTree.WithOrder: requires order at least 1. With order 0 the key array has a single slot (`BNode.java:69`), so the root takes the first key and the second insert overruns the array in `addKey` (`BNode.java:88`); a negative order makes the first insert allocate an array of negative size. Both end in a Java exception, which the model does not represent.
- BTrees.BTree.Insert: its contract follows the positional insert, which puts split halves where the split child was. Java's `addChild` re-sorts the children by first key instead; that differs on repeated keys (see Findings), and on distinct keys both build the same tree (`InsertTreeAgrees`).
- BTreeRemoval.RemoveFrom: remove, `removeGreatestValue` and `combined` place moved children by position. `addChild` appends and re-sorts by first key, which puts them in the same slots only when no key repeats; unlike insert (`InsertTreeAgrees`), this agreement is not proved for remove.
- BTrees.BTree.Remove: the validity and key-set promise holds for distinct keys only. With duplicates `getIndexOfPreviousValue` can pick the wrong separator.
- BTree.java:195-197 (`split(greatest)` after a remove) is unreachable, because `greatest` is always a leaf. The model omits it.
- BNodes.BNode.RemoveChild: for a child occurring twice, only the shifting loop's literal result is stated.
- The B-tree's parent links and in-place node updates are modelled on the value tree `Node(keys, children)`. Parent pointers and sharing between nodes are not captured at the tree level; `BNode` keeps them.

## Findings

| source | as written | input that shows it | evidently intended | confidence | as-written member | corrected member |
|---|---|---|---|---|---|---|
| src/btree/BNode.java:147-152 | `addChild` appends the child and re-sorts all children by first key, so with equal first keys a split's halves land after a sibling with the same first key | order 1, insert 5, 5, 5, 6, 5, 5: `validate()` returns false and `contains(6)` returns false | the two halves take the place of the split child | not executed | BTreeAsWrittenInsertion.DuplicateInsertMisplaces | BTreeInsertion.InsertTreeSpec |
| src/redBlackTree/RedBlackTree.java:275-276 | `treeSuccessor` tests `x.left` before taking the minimum of `x.right` | tree 2 with right child 3: the successor of 2 is nil; tree 4 with left child 2 and its left child 1: the successor of 2 is nil | test `x.right` | not executed | RedBlackQueries.SuccessorAsWrittenMissesRightChild | RedBlackTrees.RedBlackTree.TreeSuccessor |
| src/redBlackTree/RedBlackTree.java:509-511 | `size()` returns `root.numLeft + root.numRight + 1` even when the root is `nil` | the empty tree: size() returns 1 | 0 for the empty tree | not executed | RedBlackTrees.RedBlackTree.TreeSizeAsWritten | RedBlackTrees.RedBlackTree.TreeSize |
