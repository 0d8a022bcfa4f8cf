# Red-black tree of GraphvizDemo, modelled and verified in Dafny

GraphvizDemo keeps integer keys in a red-black tree and draws the tree with
Graphviz. This project models the tree itself: the `Node` class with its
parent, left and right pointers, and the `RBTree` class with its rotations,
red-red repair after insertion, double-black repair after deletion, search,
successor, replacement choice, deletion and the two traversals. The model is
imperative, like the C++ code:

- `Nodes.Node` has the five fields of the C++ node: `val`, `color`, `left`,
  `right` and `parent`.
- `RedBlackTree.RBTree` has the `root` pointer, plus two ghost fields. `tree`
  is the abstract tree the pointer graph stores and `Repr` is the set of
  its nodes.
- Every C++ member function is a method or a function of the same name,
  in Dafny's capitalised style, except `inorder`, whose key list is the
  function `InorderOf`, and the single colour stores (`x->color = ...`):
  every colour store on a node already in the tree goes through the method
  `Paint`, while `Insert` paints its new root directly. A branch that was too costly to prove inside
  one body is a helper method named after that case of the source.

Modules:

- `TreeModel` (tree_model.dfy) holds the abstract trees (`Tree`). It also holds
  a zipper (`Path`) that names a position together with its surroundings,
  symmetric order (`Inorder`), key sets, the search-tree order, rotations on
  values, and the bookkeeping for key changes.
- `RedBlackRules` (rb_rules.dfy) holds the red-black rules: a black root, no red
  node with a red child, and equal black height on every path. It also
  holds their path-local forms and one lemma per case of the red-red repair.
- `DoubleBlack` (double_black.dfy) has one lemma per case of the double-black
  repair and the facts about the node a deletion removes.
- `Nodes` (nodes.dfy) holds the `Node` class. `Expected` gives the field
  values that an abstract tree prescribes for each node. The layout lemmas
  state which fields a rotation, an attachment or an unlinking changes.
- `Traversals` (traversals.dfy) holds the breadth-first order of a queue of
  subtrees, which specifies `levelOrder`, and an independent level-by-level
  order (`ByLevels`, one row of depth at a time) that it is proved equal to.
- `RedBlackTree` (rbtree.dfy) holds the `RBTree` class.

The class invariant has three parts:

- `Linked()`: the fields of every node in `Repr` are exactly the fields that
  `tree` prescribes, including the parent back-links, and `root` is the root
  of `tree`.
- The keys are ascending in symmetric order.
- `tree` obeys the red-black rules.

`Insert` and `DeleteByVal` keep all three. `Keys()` is the set of stored keys.

Methods that work on one position take ghost arguments `p` and `s`: the tree
is `Plug(p, s)`, where `s` is the subtree at the position and `p` is its
surroundings. The red-red repair receives a red subtree that would be valid
if its root were black (`RedFault`). The double-black repair receives a
position whose subtree has one black node too few (`Short`). It returns the
new surroundings, which fit (`Fits`). Both repairs recurse at most up to the
root: the `decreases` clauses use the depth of the position.

## Model

| member | source | states |
|---|---|---|
| Nodes.Node.constructor | GraphvizDemo/GraphvizDemo.cpp:21-27 | a new node holds the given key, is red and has no parent and no children |
| Nodes.Node.IsOnLeft | GraphvizDemo/GraphvizDemo.cpp:44 | true exactly when the node hangs as the left child of its parent |
| Nodes.Node.Sibling | GraphvizDemo/GraphvizDemo.cpp:47-56 | null at the root, otherwise the root of the other subtree of the parent |
| Nodes.Node.Uncle | GraphvizDemo/GraphvizDemo.cpp:30-41 | null without a parent, and at the root's children; otherwise the sibling of the parent |
| Nodes.Node.HasRedChild | GraphvizDemo/GraphvizDemo.cpp:72-75 | true exactly when the left or the right child exists and is red |
| Nodes.Node.MoveDown | GraphvizDemo/GraphvizDemo.cpp:59-70 | the old parent (if any) now points to `nParent` on the same side; `nParent` gets the old parent; the node's parent becomes `nParent`; no other field changes |
| Nodes.RotateLeftLayout | GraphvizDemo/GraphvizDemo.cpp:82-101 | after a left rotation at `x` only four nodes change: `x` (right child and parent), its right child (left child and parent), that child's former left child (parent) and the old parent of `x` (one child pointer) |
| Nodes.RotateRightLayout | GraphvizDemo/GraphvizDemo.cpp:103-122 | the mirror image of the left rotation: the same four nodes change, with left and right exchanged |
| Nodes.RotateLeftShape | GraphvizDemo/GraphvizDemo.cpp:82-101 | a left rotation keeps the node set; the root changes to the right child exactly when the rotated node was the root |
| Nodes.RotateRightShape | GraphvizDemo/GraphvizDemo.cpp:103-122 | a right rotation keeps the node set; the root changes to the left child exactly when the rotated node was the root |
| TreeModel.RotateLeft | GraphvizDemo/GraphvizDemo.cpp:82-101 | a left rotation keeps the symmetric order of the keys |
| TreeModel.RotateRight | GraphvizDemo/GraphvizDemo.cpp:103-122 | a right rotation keeps the symmetric order of the keys |
| RedBlackTree.RBTree.constructor | GraphvizDemo/GraphvizDemo.cpp:404 | the new tree is empty and satisfies the invariant |
| RedBlackTree.RBTree.GetRoot | GraphvizDemo/GraphvizDemo.cpp:406 | null exactly when the tree holds no key; otherwise a node of the tree with no parent, holding the root key |
| RedBlackTree.RBTree.LeftRotate | GraphvizDemo/GraphvizDemo.cpp:82-101 | the tree becomes the left rotation at `x`, with all back-links correct and the same nodes; `root` moves to the right child exactly when `x` was the root |
| RedBlackTree.RBTree.RightRotate | GraphvizDemo/GraphvizDemo.cpp:103-122 | the tree becomes the right rotation at `x`, with all back-links correct and the same nodes; `root` moves to the left child exactly when `x` was the root |
| RedBlackTree.RBTree.LinkLeftRotation | GraphvizDemo/GraphvizDemo.cpp:90-100 | the pointer updates of a left rotation, field by field, for the four nodes involved |
| RedBlackTree.RBTree.LinkRightRotation | GraphvizDemo/GraphvizDemo.cpp:111-121 | the pointer updates of a right rotation, field by field, for the four nodes involved |
| RedBlackTree.RBTree.Paint | GraphvizDemo/GraphvizDemo.cpp:153-155 | one colour store: the tree is the old one with that node's colour replaced, and every other field is unchanged |
| RedBlackTree.RBTree.SwapColors | GraphvizDemo/GraphvizDemo.cpp:124-129 | the two nodes exchange colours; nothing else changes |
| RedBlackTree.RBTree.SwapValues | GraphvizDemo/GraphvizDemo.cpp:131-136 | the two nodes exchange keys; nothing else changes |
| RedBlackTree.RBTree.FixRedRed | GraphvizDemo/GraphvizDemo.cpp:139-187 | starting from a single red-red fault at `x`, the tree afterwards obeys all red-black rules with the same keys in the same order and the same nodes; it terminates because each recursion moves two levels up |
| RedBlackTree.RBTree.RecolorRedUncle | GraphvizDemo/GraphvizDemo.cpp:151-156 | red uncle: parent and uncle become black and the grandparent red, and the grandparent's subtree is otherwise the old one (`g` is given exactly); the only remaining fault is at the grandparent, two levels up |
| RedBlackTree.RBTree.RestructureRedRed | GraphvizDemo/GraphvizDemo.cpp:158-185 | non-red uncle: for each of the four cases the new tree is given exactly (left-left: colour swap of parent and grandparent, right rotation at the grandparent; left-right: left rotation at the parent first, swap of `x` and grandparent; and the mirrors), and it is a valid red-black tree with the same key order |
| RedBlackRules.RedParent | GraphvizDemo/GraphvizDemo.cpp:147-150 | a red parent of the fault is never the root, so the grandparent exists and is black |
| RedBlackRules.RedUncle | GraphvizDemo/GraphvizDemo.cpp:151-156 | the recolouring leaves one red-red fault at the grandparent and keeps the key order |
| RedBlackRules.LeftLeft | GraphvizDemo/GraphvizDemo.cpp:160-170 | parent and child both on the left: swapping the parent's and grandparent's colours and rotating right at the grandparent gives a valid red-black tree with the same key order |
| RedBlackRules.LeftRight | GraphvizDemo/GraphvizDemo.cpp:165-170 | parent left, child right: a left rotation at the parent, a colour swap with the grandparent and a right rotation at the grandparent give a valid tree with the same key order |
| RedBlackRules.RightLeft | GraphvizDemo/GraphvizDemo.cpp:173-183 | parent right, child left: the mirror image of the left-right case |
| RedBlackRules.RightRight | GraphvizDemo/GraphvizDemo.cpp:178-183 | parent and child both on the right: the mirror image of the left-left case |
| RedBlackRules.AttachRedFault | GraphvizDemo/GraphvizDemo.cpp:455-463 | a new red leaf hung in an empty child of a red-black tree is the only fault that the red-red repair must fix |
| RedBlackRules.RedFaultDone | GraphvizDemo/GraphvizDemo.cpp:141-150 | at the root, painting the fault black finishes the repair; below a black parent there is nothing to repair |
| RedBlackTree.RBTree.Successor | GraphvizDemo/GraphvizDemo.cpp:191-198 | returns the leftmost node below `x`: it has no left child, it holds the smallest key of the subtree, and the keys of the subtree are its key followed by the rest in order |
| RedBlackTree.RBTree.BSTReplace | GraphvizDemo/GraphvizDemo.cpp:201-215 | null exactly for a leaf; the only child when there is one; with two children, the successor in the right subtree (its smallest key, no left child) |
| TreeModel.Leftmost | GraphvizDemo/GraphvizDemo.cpp:194-195 | a walk down left children only reaches the minimum node, and no key lies before it |
| RedBlackTree.RBTree.Search | GraphvizDemo/GraphvizDemo.cpp:411-432 | null exactly for the empty tree; otherwise either the node that holds `n`, or a node whose empty child is on the side where `n` belongs; in an ordered tree the result holds `n` exactly when `n` is stored |
| TreeModel.SearchStep | GraphvizDemo/GraphvizDemo.cpp:413-428 | stepping towards `n` keeps `n` between the keys to the left and to the right of the search's position |
| TreeModel.SearchMiss | GraphvizDemo/GraphvizDemo.cpp:414-425 | when the search stops at an empty child on `n`'s side, `n` is not in the tree |
| TreeModel.AscendingIffSearchTree | GraphvizDemo/GraphvizDemo.cpp:411-432 | the keys are ascending in symmetric order exactly when every key is greater than the keys of its left subtree and less than those of its right subtree, which is the order the search relies on |
| RedBlackTree.RBTree.Insert | GraphvizDemo/GraphvizDemo.cpp:435-465 | keeps the invariant and adds exactly `n`; a present key changes nothing; in an empty tree `n` becomes the black root; the old nodes stay in the footprint and the added ones are new |
| RedBlackTree.RBTree.Hang | GraphvizDemo/GraphvizDemo.cpp:454-460 | the new red node becomes the child of `temp` on the side where its key belongs, with its parent link set |
| TreeModel.AttachKeys | GraphvizDemo/GraphvizDemo.cpp:454-460 | hanging `n` where the search stopped keeps the keys ascending and adds exactly `n` |
| RedBlackTree.RBTree.DeleteByVal | GraphvizDemo/GraphvizDemo.cpp:468-481 | keeps the invariant and removes exactly `n`; an empty tree or an absent key changes nothing; otherwise exactly one in-order position and one node of the footprint disappear |
| TreeModel.DeleteKeys | GraphvizDemo/GraphvizDemo.cpp:473-480 | removing the key at one position from an ordered tree keeps the order and removes exactly that key |
| RedBlackTree.RBTree.DeleteNode | GraphvizDemo/GraphvizDemo.cpp:218-289 | the tree afterwards obeys the red-black rules, its keys are the old keys without the key at `v`'s position, and exactly one node leaves the tree |
| RedBlackTree.RBTree.DeleteSuccessor | GraphvizDemo/GraphvizDemo.cpp:286-288 | two children: exchanging keys with the successor and deleting the successor removes exactly the key at `v`'s position |
| TreeModel.SwapDown | GraphvizDemo/GraphvizDemo.cpp:287 | after the key exchange the successor's position holds the deleted key, and `v` holds the successor's key |
| TreeModel.SwapDownKeys | GraphvizDemo/GraphvizDemo.cpp:286-288 | removing the successor's position after the exchange leaves the same key sequence as removing `v`'s key |
| RedBlackRules.RekeyRules | GraphvizDemo/GraphvizDemo.cpp:131-136 | changing keys does not affect colours or black heights, so the red-black rules are unaffected |
| RedBlackTree.RBTree.RemoveLeaf | GraphvizDemo/GraphvizDemo.cpp:225-254 | removing a leaf leaves a valid red-black tree without its key and without its node |
| RedBlackTree.RBTree.ClearRoot | GraphvizDemo/GraphvizDemo.cpp:227-230 | a leaf root leaves an empty tree |
| RedBlackTree.RBTree.RemoveBlackLeaf | GraphvizDemo/GraphvizDemo.cpp:232-236 | a black leaf: the double-black repair, then unlinking, gives a valid tree without the leaf |
| RedBlackTree.RBTree.RemoveRedLeaf | GraphvizDemo/GraphvizDemo.cpp:237-250 | a red leaf: painting its sibling red and unlinking gives a valid tree without the leaf |
| RedBlackTree.RBTree.RedSibling | GraphvizDemo/GraphvizDemo.cpp:239-241 | the sibling of a red leaf is missing or already red, so painting it red changes nothing |
| RedBlackTree.RBTree.Unlink | GraphvizDemo/GraphvizDemo.cpp:245-250 | the parent drops its link to the leaf; the leaf's key and node leave the tree |
| DoubleBlack.RedLeaf | GraphvizDemo/GraphvizDemo.cpp:237-241 | a red leaf is not the root, its sibling is missing or red, and unlinking it keeps the rules |
| DoubleBlack.BlackLeafShort | GraphvizDemo/GraphvizDemo.cpp:232-236 | a black leaf that is not the root leaves its position one black node short once it is gone |
| DoubleBlack.FitsLeaf | GraphvizDemo/GraphvizDemo.cpp:244-250 | once the repair is done, the leaf's position may be emptied and the tree is valid |
| RedBlackTree.RBTree.RemoveWithChild | GraphvizDemo/GraphvizDemo.cpp:256-284 | one child: the tree stays valid and loses exactly the key at `v`'s position and one node |
| RedBlackTree.RBTree.PullUpChild | GraphvizDemo/GraphvizDemo.cpp:258-263 | a root with one child takes the child's key and drops it; `v` stays in the tree as the root |
| RedBlackTree.RBTree.ReplaceByChild | GraphvizDemo/GraphvizDemo.cpp:264-282 | a non-root node with one child is replaced by that child, which turns black: the new tree is the old one with the child's subtree, painted black, in the node's place |
| RedBlackTree.RBTree.Splice | GraphvizDemo/GraphvizDemo.cpp:266-273 | the parent's pointer and the child's back-link skip `v`; `v` leaves the tree |
| DoubleBlack.OneChild | GraphvizDemo/GraphvizDemo.cpp:256-282 | the only child of a node is a red leaf and the node is black, so both-black cannot happen; either result of the removal obeys the rules |
| DoubleBlack.ChildInorder | GraphvizDemo/GraphvizDemo.cpp:264-282 | replacing a node by its only child removes just the node's key from the symmetric order |
| RedBlackTree.RBTree.FixDoubleBlack | GraphvizDemo/GraphvizDemo.cpp:291-360 | from a position one black node short, the repair ends with surroundings that fit its subtree, without touching that subtree or the key order; it terminates |
| DoubleBlack.ShortSibling | GraphvizDemo/GraphvizDemo.cpp:296-300 | a short position that is not the root has a sibling, so the no-sibling branch cannot happen; a red sibling has a black parent |
| RedBlackTree.RBTree.RedSiblingStep | GraphvizDemo/GraphvizDemo.cpp:302-315 | red sibling: after the recolouring and rotation, `x` is still short, but now one level deeper under a red parent |
| DoubleBlack.RedSiblingLeft | GraphvizDemo/GraphvizDemo.cpp:302-309 | sibling on the left: the right rotation leaves `x` short below a red parent with a black sibling |
| DoubleBlack.RedSiblingRight | GraphvizDemo/GraphvizDemo.cpp:304-313 | sibling on the right: the mirror image |
| RedBlackTree.RBTree.RedNephewStep | GraphvizDemo/GraphvizDemo.cpp:318-348 | black sibling with a red child: the repair finishes with fitting surroundings |
| DoubleBlack.RedNephew | GraphvizDemo/GraphvizDemo.cpp:318-348 | each of the four red-nephew cases yields surroundings that fit and keep the key order |
| RedBlackTree.RBTree.LeftLeftStep | GraphvizDemo/GraphvizDemo.cpp:321-326 | the pointer and colour updates of the left-left case produce the surroundings that `DoubleBlack.RedNephewLeftLeft` names |
| RedBlackTree.RBTree.RightLeftStep | GraphvizDemo/GraphvizDemo.cpp:327-332 | the pointer and colour updates of the right-left case produce the surroundings that `DoubleBlack.RedNephewRightLeft` names |
| RedBlackTree.RBTree.LeftRightStep | GraphvizDemo/GraphvizDemo.cpp:335-340 | the pointer and colour updates of the left-right case produce the surroundings that `DoubleBlack.RedNephewLeftRight` names |
| RedBlackTree.RBTree.RightRightStep | GraphvizDemo/GraphvizDemo.cpp:341-346 | the pointer and colour updates of the right-right case produce the surroundings that `DoubleBlack.RedNephewRightRight` names |
| DoubleBlack.RedNephewLeftLeft | GraphvizDemo/GraphvizDemo.cpp:321-326 | sibling left with a red left child: after the recolouring and right rotation the surroundings fit |
| DoubleBlack.RedNephewRightLeft | GraphvizDemo/GraphvizDemo.cpp:327-332 | sibling right with a red left child: after the double rotation the surroundings fit |
| DoubleBlack.RedNephewLeftRight | GraphvizDemo/GraphvizDemo.cpp:335-340 | sibling left with a red right child: after the double rotation the surroundings fit |
| DoubleBlack.RedNephewRightRight | GraphvizDemo/GraphvizDemo.cpp:341-346 | sibling right with a red right child: after the recolouring and left rotation the surroundings fit |
| RedBlackTree.RBTree.BlackNephewsStep | GraphvizDemo/GraphvizDemo.cpp:350-357 | black sibling with black children: the sibling turns red (the new position's sibling is the old one painted red); a black parent is repaired in turn, a red parent turns black; either way the surroundings fit |
| DoubleBlack.BlackNephews | GraphvizDemo/GraphvizDemo.cpp:350-357 | after the sibling turns red, a black parent is one black node short, while a red parent painted black fits |
| DoubleBlack.BlackNephewsAfter | GraphvizDemo/GraphvizDemo.cpp:353-354 | once the parent's repair fits, so does `x`'s position |
| RedBlackTree.RBTree.InorderOf | GraphvizDemo/GraphvizDemo.cpp:393-399 | the keys that the recursive walk visits are the symmetric order of the subtree |
| RedBlackTree.RBTree.LevelOrder | GraphvizDemo/GraphvizDemo.cpp:363-390 | the queue walk visits the keys in breadth-first order (`LevelKeys`) |
| Traversals.Visit | GraphvizDemo/GraphvizDemo.cpp:378-388 | one visit outputs the front key and queues the non-null children, left first, in step with the subtrees; the queue shrinks |
| Traversals.LevelKeysPermutes | GraphvizDemo/GraphvizDemo.cpp:375-389 | the breadth-first walk of a queue visits every key of every queued subtree exactly once |
| Traversals.LevelOrderOfTree | GraphvizDemo/GraphvizDemo.cpp:363-390 | level order starts at the root and is a permutation of the symmetric order |
| Traversals.LevelKeysRow | GraphvizDemo/GraphvizDemo.cpp:375-389 | walking a queue that starts with a whole row of subtrees visits that row's roots, left to right, and then walks the rest of the queue followed by the row below |
| Traversals.LevelKeysByLevels | GraphvizDemo/GraphvizDemo.cpp:363-390 | the queue walk equals the level-by-level order `ByLevels`: the keys of one row, left to right, then those of the row below |
| Traversals.LowerByLevel | GraphvizDemo/GraphvizDemo.cpp:363-390 | the `d`-th row of that order holds exactly the keys at depth `d`, left to right |

## Left out

- The Graphviz drawing (`get_node_name`, `graphviz`) and the program entry
  points are not part of this model.
- Console output is left out. `levelOrder` and `inorder` return the sequence
  of keys they would print. `printInOrder` and `printLevelOrder` only add
  headings, so they are left out. The "No node found" message of
  `deleteByVal` is left out, but the early return that follows it is kept.
- Freeing memory (`delete`) is not modelled. Unreachable nodes simply leave
  `Repr`. `Insert` allocates its node before the search, like the source,
  and drops it when the key is present, which is the source's leak.
- `std::queue` is a sequence of nodes.
- The no-sibling branch of `fixDoubleBlack` cannot happen: a short position
  always has a sibling (`DoubleBlack.ShortSibling`). The model proves the
  branch dead (`assert false`) instead of recursing to the parent.
- The branch of the one-child deletion where both the node and its child are
  black cannot happen either (`DoubleBlack.OneChild`). It too is `assert
  false`, so the call to `fixDoubleBlack` in it is not modelled.
- RedBlackTree.RBTree.Search: the results "the node holding `n`" and "where
  `n` would hang" depend on the keys being ordered. These clauses are stated
  only under `Ascending`, which the class invariant provides. Without that
  order the search's answer means nothing, and the model does not say what
  it is.
- Deletion and both repairs (`DeleteNode`, `FixDoubleBlack`, `FixRedRed`)
  require only `Linked()` and the red-black rules, not the key order, because
  the swap of values in the two-child case breaks the order for a while.
  Their contracts give the exact symmetric order afterwards, and
  `DeleteByVal` and `Insert` derive the full invariant from it.
- `RedBlackTree.RBTree.InorderOf` is a function, and `LevelOrder` returns
  the keys rather than printing them.
- Keys are unbounded integers. The comparisons in the source never overflow,
  so `int`'s width does not matter.
