# AVL tree with rank-rule insertion, modelled in Dafny

This project models the AVL tree of `src/AVLTree.java` and the counting
insertion sort of `src/Tests.java`.

The tree holds distinct integer keys, each with a String info value. Each
node stores a height (its rank). Every missing child is a link to a shared
virtual node of key -1 and height -1. `insert` descends to the place of the
new key, hangs a new leaf of height 0 there, and climbs. While the parent
breaks the rank rule (children one or two below, not both two), it either
promotes the parent or does a single or double rotation. It returns the
number of rebalancing steps: a promotion or single rotation counts one, a
double rotation two. `search`, `min`, `max`, `keysToArray`, `infoToArray`,
`empty` and `size` read the tree.

Files:

- `tree_shape.dfy` (module `TreeShape`) is the pure part:
  - the tree a set of child links holds, as a datatype `Tree`, and a zipper context `Ctx` for the path from the root to a subtree;
  - the rank rule, and the four rotations as functions on `Tree`;
  - the lemmas that each rebalancing step keeps the nodes, their symmetric order and the rank rule;
  - `ClimbFixes` and `InsertFixes`, the steps the climb of `insert` takes, read off the tree and its ranks, and so the count `insert` returns; `ClimbRanks`, the heights a climb without rotation leaves;
  - the five inserts of `TreePrinter.main`, followed step by step on the tree and its heights (`PrinterStep`);
  - `Listed`, the nodes `infoToArrayRec` visits.
- `avl_tree.dfy` (module `AVL`) is the imperative part:
  - class `AVLTree<V>` holds the node store as parallel sequences `key`, `val`, `left`, `right`, `parent` and `height`, indexed by node number;
  - node 0 is the virtual node and `Null` (-1) is Java's null;
  - a ghost field `shape` names the tree the child links hold;
  - the operations that change the tree (`insert` with its descent, climb, `promote` and the four rotations) are methods that update these fields in place;
  - the operations that only read it (`search`, `min`, `max`, `empty`, `size`, `isFixNeeded`, `isPromotionNeeded`, `isRealNode`, `keysToArray`, `infoToArray`) are functions or methods that change nothing;
  - `insert` is split into several methods, and the walk of `infoToArrayRec` tests its flag once (see "Left out");
  - `PrinterMain` runs the five inserts of `TreePrinter.main` on a new tree and reads the root and the size.
- `in_order.dfy` (module `InOrder`) holds the recursive walk of `infoToArrayRec` over an output array.
- `insertion_sort.dfy` (module `Tests`) holds the in-place insertion sort on an `array<int>`.

The model keeps four behaviours of the code as written:

- **Stale parent links.** `rightRotation` and `leftRotation` move a subtree from one node to the other but never reset that subtree's parent link (lines 157 and 171). The rotation methods, up to `Rotate`, state their new `parent` sequence exactly. `RightRotationStale` and `LeftRotationStale` prove that when the moved subtree is not empty these links no longer describe the rotated tree. `Insert` promises `ParentsOk()` only when no rotation happened.
- **Parent cycle.** A left rotation at the root leaves the rotated node and the old root naming each other as parent (`updateRootForRotation` sets only the root, lines 184-186). `LeftRotation` states this, and `LeftRotationCycle` proves that the new root then has a parent.
- **A stored key -1 reads as virtual.** `isRealNode` compares the key with -1 (line 420), so a stored key -1 is taken for the virtual node:
  - `Insert` lets the key -1 in, and states that afterwards no key is -1 exactly when `k != -1`;
  - `search` and the walk of `infoToArrayRec` stop at such a node;
  - the contents of `KeysToArray` are stated over `Listed` (the walk as the code makes it) and, when no key is -1, over every node.
- **Null pointer on an empty tree.** The comments on `search`, `min`, `max`, `keysToArray` and `infoToArray` promise null or an empty array for an empty tree. The code, however, dereferences the null `root`, `min` or `max`. The model follows the code: such a call returns the `NullPointer` outcome, and each method states exactly when.

The code keeps no subtree sizes and no rank differences in the nodes (the `rD` array is never allocated), so neither is modelled.

## Model

| member | source | states |
|---|---|---|
| AVL.AVLTree.constructor | src/AVLTree.java:18-20 | the new tree is valid, empty, with size 0 and no keys; its shape is empty and its store holds only the virtual node, of key -1 and height -1 |
| AVL.AVLTree.Empty | src/AVLTree.java:27-29 | true exactly when the key set is empty |
| AVL.AVLTree.Size | src/AVLTree.java:268-270 | the number of distinct keys stored |
| AVL.AVLTree.KeyCount | src/AVLTree.java:268-270 | the size field equals the number of distinct keys, as the keys of the nodes are pairwise distinct |
| AVL.AVLTree.EmptyIff | src/AVLTree.java:27-29 | the tree shape is empty exactly when no key is stored, exactly when the store holds only the virtual node |
| AVL.AVLTree.IsRealNode | src/AVLTree.java:419-421 | with no stored key -1, true for every node but the virtual one |
| AVL.AVLTree.Search | src/AVLTree.java:37-49 | fails exactly on an empty tree; otherwise the info of the node with key `k`, or null when `k` is not stored; changes nothing |
| AVL.AVLTree.Min | src/AVLTree.java:207-209 | fails exactly when no key is stored; otherwise the info of the node whose key is at most every key |
| AVL.AVLTree.Max | src/AVLTree.java:217-219 | fails exactly when no key is stored; otherwise the info of the node whose key is at least every key |
| AVL.AVLTree.MinMaxExtreme | src/AVLTree.java:86-89 | the cached `min` and `max` nodes hold the least and greatest key |
| AVL.AVLTree.NewNode | src/AVLTree.java:361-368 | a new node at the next index: the given key and info, both children virtual, height 0, no parent |
| AVL.AVLTree.IsFixNeeded | src/AVLTree.java:103-110 | false for null; otherwise true exactly when the rank differences are not (1,1), (1,2) or (2,1) |
| AVL.AVLTree.IsPromotionNeeded | src/AVLTree.java:112-114 | for non-negative rank differences, true exactly for a (0,1) or (1,0) node |
| AVL.AVLTree.Promote | src/AVLTree.java:116-119 | the node's height goes up by one, nothing else changes, and the step counts 1 |
| AVL.AVLTree.UpdateRootForRotation | src/AVLTree.java:176-187 | the rotated node replaces the old top below its parent, on the same side, or becomes the root; the parent link changes only in the first case |
| AVL.AVLTree.RightRotation | src/AVLTree.java:164-174 | the child links now hold `RotR` of the subtree; the top is one lower; the new parent links are given exactly, the moved subtree's link left stale |
| AVL.AVLTree.LeftRotation | src/AVLTree.java:151-162 | the child links now hold `RotL`; the top is one lower and the pivot gains `doubleAddition`; at the root the two nodes name each other as parent |
| AVL.AVLTree.LeftRightRotation | src/AVLTree.java:141-144 | the child links hold `RotLR`; the pivot is one higher, the two nodes above it one lower, with the parent links of all three given |
| AVL.AVLTree.RightLeftRotation | src/AVLTree.java:146-149 | the mirror image: the child links hold `RotRL`, with the same rank changes |
| AVL.AVLTree.RebalanceLeftRaised | src/AVLTree.java:122-129 | count 1 exactly when the raised left child is (1,2); the resulting subtree is `RotR` or `RotLR`, has the same nodes in the same order, keeps the rank rule and the old rank of the top, and its top is (1,1); the whole new parent sequence is given: for `RotR` the old one with the pivot and the top updated, for `RotLR` the old one outside the three rotated nodes with those three given |
| AVL.AVLTree.RebalanceRightRaised | src/AVLTree.java:130-138 | the mirror image, with `RotL` or `RotRL`; at the root the pivot of the single rotation keeps the old top as parent, and the cycle this leaves is stated in the parent sequence |
| AVL.AVLTree.Rotate | src/AVLTree.java:121-139 | takes the single or the double rotation on the raised side as the two parts above state, with the same parent sequences, and restores the rank rule with a (1,1) top |
| AVL.AVLTree.FindParent | src/AVLTree.java:68-79 | finds `k` exactly when it is stored; otherwise the last real node, whose empty side in key order is where `k` belongs, and the hole reached is `SearchHole` of the tree |
| AVL.AVLTree.LinkLeaf | src/AVLTree.java:80-90 | the new node hangs on the side the key comparison picks, names its parent, and becomes `min` or `max` exactly when its key is beyond theirs; size goes up by one |
| AVL.AVLTree.AttachLeaf | src/AVLTree.java:80-90 | after linking, the state is one from which the climb starts at the new leaf, whose height 0 is appended |
| AVL.LeafShape | src/AVLTree.java:80-90 | the tree with the new leaf holds every node once, the new one included, in key order, and the new `min` and `max` are its first and last nodes |
| AVL.LeafClimb | src/AVLTree.java:85 | the new leaf's parent link is right, and the rest of the tree keeps the rank rule around it |
| AVL.AVLTree.ClimbStep | src/AVLTree.java:92-98 | one turn of the climb: after a promotion (count 1) the climb goes on one level up, and `ClimbFixes` from there is one promotion less; after a rotation the tree is valid again, the loop test fails at once, and the count is the rotation `ClimbFixes` predicts; a promotion leaves shape and root as they were, and the ranks `ClimbRanks` predicts from there are those it predicted before |
| AVL.AVLTree.ClimbPromote | src/AVLTree.java:94-95 | promoting a (0,1) parent keeps the rank rule in the subtree, which has grown in turn; `ClimbFixes` below is one promotion more than from the parent up, and `ClimbRanks` below, on the old heights, equals `ClimbRanks` from the parent up on the new ones |
| AVL.AVLTree.ClimbRotate | src/AVLTree.java:96-97 | rotating at a (0,2) parent makes the whole tree valid, the node it then tests is (1,1), and the returned 1 or 2 is the rotation `ClimbFixes` predicts |
| AVL.AVLTree.Promoted | src/AVLTree.java:94-95 | after the promotion, the climb invariant holds one level up |
| AVL.AVLTree.RotatedOk | src/AVLTree.java:97 | after the rotation, the whole tree keeps the shape and the rank rule, and the rotated-up node is (1,1) |
| AVL.AVLTree.RotatedTopOk | src/AVLTree.java:92 | a (1,1) node makes isFixNeeded false |
| AVL.AVLTree.ClimbDone | src/AVLTree.java:92 | when the parent keeps the rule, or is null, the tree is valid, `ClimbFixes` predicts no further step, and `ClimbRanks` leaves every height as it is |
| AVL.AVLTree.Rebalance | src/AVLTree.java:91-100 | the climb ends with a valid tree; the count is exactly the `Count` of `ClimbFixes` for the starting state (promotions plus 1 or 2 for the one rotation); when `ClimbFixes` predicts no rotation, the parent links are all right, shape and root are unchanged, and the heights are `ClimbRanks` of the starting state |
| AVL.AVLTree.InsertFirst | src/AVLTree.java:61-66 | into an empty tree: a single root that is also `min` and `max`; the key set becomes `{k}`; the tree was empty, so `InsertFixes` predicts no step; the root is the new node at the next index, the shape is the new leaf in the hole `SearchHole` reaches, and the heights are the old ones with 0 appended, as `ClimbRanks` gives them |
| AVL.AVLTree.InsertBelow | src/AVLTree.java:80-100 | the leaf and the climb below the node the descent ended at: size + 1, keys ∪ {k}, info `i` at `k`, a valid tree, and the count is the `Count` of `InsertFixes` of the state before; when that predicts no rotation, the parent links are right, the root is unchanged, the shape is the old one with the new leaf in the hole `SearchHole` reaches, and the heights are the old ones with 0 appended and the promoted parents raised (`ClimbRanks`) |
| AVL.AVLTree.Insert | src/AVLTree.java:60-101 | returns -1, changing nothing, exactly when `k` is stored; returns 0 on an empty tree; otherwise size + 1, keys ∪ {k}, info `i` at key `k`, a valid tree (order, rank rule, `min`/`max`); every count other than -1 is the `Count` of `InsertFixes` of the state before; when it predicts no rotation, the parent links are all right, the root is the old root (the new node for an empty tree), the shape is the old one with the new leaf in the hole `SearchHole` reaches, and the heights are `ClimbRanks` of the old ones with 0 appended |
| AVL.AVLTree.InfoToArrayRec | src/AVLTree.java:246-258 | the array the flag selects gets the walk's keys or infos written from `index` on, its other cells and the other array unchanged; returns the cell after them |
| InOrder.FillInOrder | src/AVLTree.java:246-258 | the symmetric-order walk below `node` writes the entry of each visited node into consecutive cells from `index`, and returns the cell after the last |
| InOrder.FillChild | src/AVLTree.java:247-249 | a child whose key is -1 is skipped and writes nothing; any other child is walked |
| InOrder.FillStep | src/AVLTree.java:247-257 | the left child's entries, then the node's own in the next cell, then the right child's entries, together are the whole walk's entries |
| InOrder.WalkParts | src/AVLTree.java:247-257 | the walk of a node splits into its left child's walk (when that child's key is not -1), the node, and its right child's walk likewise |
| TreeShape.ListedSplit | src/AVLTree.java:247-257 | the same split, stated on the child links of the node store |
| TreeShape.ListedAll | src/AVLTree.java:247-257 | when no stored key is -1, the walk visits every node of the subtree in symmetric order |
| TreeShape.ListedLength | src/AVLTree.java:246-258 | the walk visits at most the nodes of the subtree |
| AVL.AVLTree.ListedFits | src/AVLTree.java:228-229 | the walk from the root fits the array of `size` cells, and with no stored key -1 it covers all of it |
| AVL.AVLTree.KeysToArray | src/AVLTree.java:227-231 | fails exactly on an empty tree; otherwise a new array of `size` cells with the walk's keys, then zeros; with no stored key -1 it holds every key, ascending |
| AVL.AVLTree.InfoToArray | src/AVLTree.java:240-244 | fails exactly on an empty tree; otherwise a new array of `size` cells with the walk's infos, in the order keysToArray lists their keys, then nulls |
| AVL.AVLTree.KeysFilled | src/AVLTree.java:227-231 | with no stored key -1, the keys the walk writes from the start fill the array of `size` cells with every key, ascending |
| AVL.AVLTree.KeysInOrder | src/AVLTree.java:222-231 | the keys in symmetric order number `size`, ascend and are exactly the stored keys |
| TreeShape.RotR | src/AVLTree.java:164-174 | the right rotation keeps the subtree's nodes and their symmetric order |
| TreeShape.RotL | src/AVLTree.java:151-162 | the left rotation keeps the nodes and their symmetric order |
| TreeShape.RotLR | src/AVLTree.java:141-144 | the left-right rotation keeps the nodes and their symmetric order |
| TreeShape.RotRL | src/AVLTree.java:146-149 | the right-left rotation keeps the nodes and their symmetric order |
| TreeShape.RightRotationLinked | src/AVLTree.java:168-172 | the link updates of rightRotation make the child links hold the rotated tree in place of the old subtree |
| TreeShape.LeftRotationLinked | src/AVLTree.java:155-158 | the link updates of leftRotation make the child links hold the rotated tree |
| TreeShape.SingleRightBalanced | src/AVLTree.java:123-125 | a right rotation at a top whose raised left child is (1,2), with the top lowered by one, gives a subtree that keeps the rank rule, has the old rank, and has a (1,1) top |
| TreeShape.DoubleRightBalanced | src/AVLTree.java:126-129 | a left-right rotation with the pivot raised by one and the two nodes above it lowered by one gives the same |
| TreeShape.SingleLeftBalanced | src/AVLTree.java:131-133 | the mirror image of the single right case |
| TreeShape.DoubleLeftBalanced | src/AVLTree.java:134-137 | the mirror image of the double right case |
| TreeShape.ClimbCases | src/AVLTree.java:92-97 | a parent that fails the rule above a grown subtree has that subtree's rank, and its other child is one or two below it: promotion or rotation |
| TreeShape.PromoteStep | src/AVLTree.java:94-95 | promoting the parent keeps the rank rule below it and leaves its subtree grown by one rank |
| TreeShape.RotateStep | src/AVLTree.java:97 | a rebalanced subtree of the same rank puts the rank rule back in the whole tree |
| TreeShape.ClimbStop | src/AVLTree.java:92 | a climb that stops at a parent keeping the rule, or at the root, leaves the whole tree keeping it |
| TreeShape.ClimbFixes | src/AVLTree.java:91-138 | the reference for the climb, read off the tree and ranks along the path: no step at the root or below a parent keeping the rule; a promotion and the climb one rank higher; or one rotation, 1 single or 2 double, that ends it; the rotation is at most 2 and the root takes no step |
| TreeShape.ClimbRanks | src/AVLTree.java:91-100 | the reference for the heights a climb without rotation leaves: one rank more for each parent it promotes; the sequence keeps its length, and with no promotion it is the old one |
| TreeShape.ClimbRanksRaise | src/AVLTree.java:94-95 | the climb only raises heights, and only at nodes of the path from the new leaf's hole to the root |
| TreeShape.SearchHole | src/AVLTree.java:68-79 | the hole the descent reaches, right past smaller keys and left past larger ones; an empty subtree is the hole itself, and a hole found below has as parent a node of the subtree, with a key larger than `k` when the hole is its left child and smaller when it is its right child |
| TreeShape.InsertFixes | src/AVLTree.java:60-101 | the steps of an insert: the climb from a new leaf of rank 0 at the next index in the hole `SearchHole` reaches; none for an empty tree |
| TreeShape.PromoteFixes | src/AVLTree.java:94-95 | at a parent with the grown child's rank and its other child one below, the climb is one promotion and then the climb one level up, with the parent one rank higher, and the ranks it leaves are those the climb from there leaves |
| TreeShape.RotateFixes | src/AVLTree.java:96-97 | at a parent with its other child two below, the climb is exactly the rotation `rotate` returns: 1 when the raised child leans outward, otherwise 2 |
| TreeShape.StopFixes | src/AVLTree.java:92 | at the root, or below a parent keeping the rule, the climb takes no step and changes no rank |
| TreeShape.SecondInsertFixes | src/AVLTree.java:60-101 | inserting 2 into the tree holding only 1 takes one promotion: insert returns 1 |
| TreeShape.ThirdInsertFixes | src/AVLTree.java:60-101 | inserting 3 into the tree of 1 with right child 2 takes one promotion and a single rotation: insert returns 2 |
| TreeShape.PrinterStep | src/TreePrinter.java:92-97 | each of the five inserts of `main` (18, 19, 17, 20, 16) goes from the tree and heights the one before left to the next, with no rotation and the counts 0, 1, 0, 2, 1 |
| TreeShape.PrinterFresh | src/TreePrinter.java:92-97 | each of the five keys is not -1 and not yet stored when it is inserted, and it takes the next node |
| TreeShape.PrinterFirst | src/TreePrinter.java:92-93 | 18 into the empty tree takes no step and becomes the root of height 0 |
| TreeShape.PrinterSecond | src/TreePrinter.java:94 | 19 goes right of 18, which is promoted to height 1 |
| TreeShape.PrinterThird | src/TreePrinter.java:95 | 17 goes left of 18, which keeps the rank rule: no step |
| TreeShape.PrinterFourth | src/TreePrinter.java:96 | 20 goes right of 19; 19 and then 18 are promoted, to heights 1 and 2 |
| TreeShape.PrinterFifth | src/TreePrinter.java:97 | 16 goes left of 17, which is promoted; 18 then keeps the rank rule |
| TreeShape.RightRotationStale | src/AVLTree.java:164-174 | with a non-empty subtree moving from the pivot to the old top, the parent sequence rightRotation leaves does not match the rotated tree |
| TreeShape.LeftRotationStale | src/AVLTree.java:151-162 | the same for leftRotation, at the root or below it |
| TreeShape.LeftRotationCycle | src/AVLTree.java:151-162 | leftRotation at the root leaves the pivot and the old top naming each other as parent, so the new root has a parent |
| TreeShape.BalancedIsAVL | src/AVLTree.java:103-110 | under the rank rule a node's rank is its height, and the heights of its children differ by at most one |
| TreeShape.InsertAscending | src/AVLTree.java:80-84 | the new key placed among the keys where the descent ended keeps them ascending |
| TreeShape.SameKeySameNode | src/AVLTree.java:76-77 | in an ordered tree, two nodes with the same key are the same node |
| TreeShape.BracketedMiss | src/AVLTree.java:39-48 | a descent that reaches the virtual node has passed every node whose key could be `k`: no node holds `k` |
| TreeShape.KeySetAppend | src/AVLTree.java:80 | the new node adds exactly its key to the key set |
| AVL.PrinterMain | src/TreePrinter.java:91-101 | after inserting 18, 19, 17, 20 and 16 into a new tree, the root has key 18 and height 2, and the size is 5 |
| AVL.PrinterInsert | src/TreePrinter.java:93-97 | the insert number `j + 1` of `main` takes the tree from its state after `j` inserts to its state after `j + 1`, and returns the count `PrinterStep` gives |
| AVL.PrinterRoot | src/TreePrinter.java:99-101 | after the five inserts, the root's key is 18, its height 2, and `size()` is 5 |
| Tests.InsertionSort | src/Tests.java:6-21 | the array ends sorted and a permutation of its old contents; the count is the number of pairs i < j with a[i] >= a[j]; an array of at most one element is unchanged, with count 0 |
| Tests.InsertionPass | src/Tests.java:10-18 | the element at `i` moves left past every earlier element at least as large, one count per exchange, and stops in front of the first smaller one or at index 0 |
| Tests.InversionsCountsPairs | src/Tests.java:6-21 | the count the sort returns equals the number of index pairs p < q with s[p] >= s[q] |
| Tests.InversionsBound | src/Tests.java:6-21 | that count is at most n(n-1)/2 |
| Tests.CountAtLeastPermutation | src/Tests.java:10-18 | how many elements are at least v does not depend on their order |

## Left out

- The `delete`, `split` and `join` stubs, the rank-difference accessors (`rD`), the `IAVLNode` interface and its getters and setters (each is a field read or write here), the printing code of `TreePrinter` and `Tests.main` (random input and printing) are not part of this model. Of `TreePrinter.main`, the model keeps the five inserts into the first tree and the root key, root height and size read after them (`PrinterMain`); the second tree and the `join` call, a stub, are left out.
- AVL.AVLTree.Insert: requires the parent links to be right (`ParentsOk()`) and no stored key -1. The climb follows parent links, and after a rotation some of them are stale. An insert into such a tree is not modelled.
- AVL.AVLTree.Insert: when `InsertFixes` predicts a rotation, the contract gives the count, the key set, the infos and a valid tree, but not the shape, root or heights the rotation leaves. Without a rotation all three are given.
- AVL.PrinterMain: the five `insert` calls of `TreePrinter.main` are one loop over the key list, and it does not return their counts; `PrinterInsert` states each one.
- The double rotations leave stale parent links in the same way, through their two single rotations. `LeftRightRotation` and `RightLeftRotation` state their parent sequences exactly, but no lemma derives the mismatch for them as `RightRotationStale` does for the single ones.
- Tests.InsertionSort: the `Integer[]` array becomes `array<int>`, so a null element and its unboxing exception are not modelled. The returned `long` and the counter are unbounded integers; overflow cannot occur for an array of at most 2^31 elements.
- Keys, heights and the counts returned by `insert` are unbounded integers instead of Java's 32-bit `int`. Keys are only compared, never computed with, and heights and counts stay far below 2^31 for any tree that fits in memory.
- The info values are a type parameter `V`, and a Java String reference is `Option<V>`, with `None` for null.
- The static virtual node, shared by every tree, becomes node 0 of each tree's store. The code never writes its fields, so nothing is lost.
- The one-cell array `index` that `infoToArrayRec` shares down the recursion is the `index` argument and the `next` result.
- `infoToArrayRec` tests `isKeys` at every node. The flag never changes, so the model tests it once in `InfoToArrayRec`, and the recursion itself is `InOrder.FillInOrder`, which works on any entry type. `FillChild` is the test on a child that guards each recursive call.
- The insertion loop of `insert` is split into the methods `FindParent`, `LinkLeaf`, `AttachLeaf`, `InsertBelow`, `Rebalance` and `ClimbStep`. The inner loop of `insertionSort` is the method `InsertionPass`. Each keeps the source's statements in order. After a rotation `Rebalance` returns at once: the loop test of the source fails there, and the model asserts that it does.
- The `tempParent == null` exit of `leftRotation` and `rightRotation` cannot be reached from `rotate`, whose pivot always has a parent. The methods keep the branch, and their contracts cover only the reachable call.
