/**
 * The shape of the linked AVL tree of src/AVLTree.java, as a value.
 *
 * Nodes live in a store indexed by integers (the fields of the class in
 * avl_tree.dfy); a `Tree` names, for every node the child links reach, its
 * index. Index `Virtual` is the one shared virtual node that stands for
 * every missing child, and `Null` is Java's null.
 *
 * The predicates here take the store's fields as plain sequences, so a
 * method that reassigns one field keeps every fact about the others, and
 * each fact about a subtree survives any update outside that subtree.
 */
module TreeShape {

  /** The index of the shared virtual node (key -1, height -1). */
  const Virtual := 0
  /** A missing reference: Java's null. */
  const Null := -1

  /** The real nodes reachable by child links; `Nil` is a link to the virtual node. */
  datatype Tree = Nil | Node(left: Tree, id: int, right: Tree)

  /** A tree with one hole: the path from the root down to a subtree, with the siblings along it. */
  datatype Ctx = Top | InLeft(up: Ctx, id: int, right: Tree) | InRight(left: Tree, id: int, up: Ctx)

  /** Puts `t` into the hole of `c`. */
  function Plug(c: Ctx, t: Tree): Tree
    decreases c
  {
    match c
    case Top => t
    case InLeft(up, n, r) => Plug(up, Node(t, n, r))
    case InRight(l, n, up) => Plug(up, Node(l, n, t))
  }

  /** What a child link to `t` holds. */
  function RefOf(t: Tree): int {
    if t.Nil? then Virtual else t.id
  }

  /** The node whose child the hole is, or `Null` for the root. */
  function HoleParent(c: Ctx): int {
    if c.Top? then Null else c.id
  }

  function Nodes(t: Tree): set<int> {
    match t
    case Nil => {}
    case Node(l, n, r) => Nodes(l) + {n} + Nodes(r)
  }

  function CtxNodes(c: Ctx): set<int> {
    match c
    case Top => {}
    case InLeft(up, n, r) => CtxNodes(up) + {n} + Nodes(r)
    case InRight(l, n, up) => CtxNodes(up) + {n} + Nodes(l)
  }

  /** Node indexes in symmetric (in-) order. */
  function Ids(t: Tree): seq<int> {
    match t
    case Nil => []
    case Node(l, n, r) => Ids(l) + [n] + Ids(r)
  }

  /** The nodes of the context that come before the hole in symmetric order. */
  function Pre(c: Ctx): seq<int> {
    match c
    case Top => []
    case InLeft(up, _, _) => Pre(up)
    case InRight(l, n, up) => Pre(up) + Ids(l) + [n]
  }

  /** The nodes of the context that come after the hole in symmetric order. */
  function Post(c: Ctx): seq<int> {
    match c
    case Top => []
    case InLeft(up, n, r) => [n] + Ids(r) + Post(up)
    case InRight(_, _, up) => Post(up)
  }

  /** No index occurs twice. */
  predicate Distinct(t: Tree) {
    match t
    case Nil => true
    case Node(l, n, r) =>
      Distinct(l) && Distinct(r) && n !in Nodes(l) && n !in Nodes(r) && Nodes(l) !! Nodes(r)
  }

  predicate CtxDistinct(c: Ctx) {
    match c
    case Top => true
    case InLeft(up, n, r) =>
      CtxDistinct(up) && Distinct(r) && n !in Nodes(r) && n !in CtxNodes(up) && Nodes(r) !! CtxNodes(up)
    case InRight(l, n, up) =>
      CtxDistinct(up) && Distinct(l) && n !in Nodes(l) && n !in CtxNodes(up) && Nodes(l) !! CtxNodes(up)
  }

  /** The child links `left` and `right` hold exactly the shape `t`. */
  predicate Linked(t: Tree, left: seq<int>, right: seq<int>) {
    match t
    case Nil => true
    case Node(l, n, r) =>
      && 0 < n < |left| && n < |right|
      && left[n] == RefOf(l) && right[n] == RefOf(r)
      && Linked(l, left, right) && Linked(r, left, right)
  }

  /** The child links hold the context `c`, its hole linked to `hole`. */
  predicate CtxLinked(c: Ctx, hole: int, left: seq<int>, right: seq<int>) {
    match c
    case Top => true
    case InLeft(up, n, r) =>
      && 0 < n < |left| && n < |right|
      && left[n] == hole && right[n] == RefOf(r)
      && Linked(r, left, right) && CtxLinked(up, n, left, right)
    case InRight(l, n, up) =>
      && 0 < n < |left| && n < |right|
      && left[n] == RefOf(l) && right[n] == hole
      && Linked(l, left, right) && CtxLinked(up, n, left, right)
  }

  /** The stored height of the root of `t`; the virtual node's is -1. */
  function Rank(t: Tree, height: seq<int>): int {
    if t.Node? && 0 <= t.id < |height| then height[t.id] else -1
  }

  /**
   * The rank rule the insertion restores: each child is one or two below
   * its parent, and not both two. Its negation is isFixNeeded.
   */
  predicate LocalOk(h: int, hl: int, hr: int) {
    1 <= h - hl <= 2 && 1 <= h - hr <= 2 && (h - hl) + (h - hr) < 4
  }

  /** Every node of `t` keeps the rank rule. */
  predicate Balanced(t: Tree, height: seq<int>) {
    match t
    case Nil => true
    case Node(l, n, r) =>
      0 <= n < |height| && LocalOk(height[n], Rank(l, height), Rank(r, height))
      && Balanced(l, height) && Balanced(r, height)
  }

  /** Every node of `c` keeps the rank rule, the hole having rank `hole`. */
  predicate CtxBalanced(c: Ctx, hole: int, height: seq<int>) {
    match c
    case Top => true
    case InLeft(up, n, r) =>
      0 <= n < |height| && LocalOk(height[n], hole, Rank(r, height))
      && Balanced(r, height) && CtxBalanced(up, height[n], height)
    case InRight(l, n, up) =>
      0 <= n < |height| && LocalOk(height[n], Rank(l, height), hole)
      && Balanced(l, height) && CtxBalanced(up, height[n], height)
  }

  /** Every node of `t` names its parent, the root naming `p`. */
  predicate Parents(t: Tree, p: int, parent: seq<int>) {
    match t
    case Nil => true
    case Node(l, n, r) =>
      0 <= n < |parent| && parent[n] == p && Parents(l, n, parent) && Parents(r, n, parent)
  }

  /** Every node of `c` names its parent, the top one naming `Null`. */
  predicate CtxParents(c: Ctx, parent: seq<int>) {
    match c
    case Top => true
    case InLeft(up, n, r) =>
      0 <= n < |parent| && parent[n] == HoleParent(up) && Parents(r, n, parent) && CtxParents(up, parent)
    case InRight(l, n, up) =>
      0 <= n < |parent| && parent[n] == HoleParent(up) && Parents(l, n, parent) && CtxParents(up, parent)
  }

  /** The height of `t` counted in edges, -1 for the empty tree. */
  function Height(t: Tree): int {
    match t
    case Nil => -1
    case Node(l, _, r) => 1 + (if Height(l) < Height(r) then Height(r) else Height(l))
  }

  /** `a` and `b` hold the same value at every index of `s`. */
  ghost predicate SameOn(a: seq<int>, b: seq<int>, s: set<int>) {
    forall n :: n in s ==> 0 <= n < |a| && 0 <= n < |b| && a[n] == b[n]
  }

  lemma SameOnSubset(a: seq<int>, b: seq<int>, s: set<int>, t: set<int>)
    requires SameOn(a, b, s) && t <= s
    ensures SameOn(a, b, t)
  {
  }

  // ---------------------------------------------------------------
  // Plugging a subtree into a context

  lemma {:induction false} IdsPlug(c: Ctx, t: Tree)
    ensures Ids(Plug(c, t)) == Pre(c) + Ids(t) + Post(c)
    decreases c
  {
    match c
    case Top =>
    case InLeft(up, n, r) =>
      IdsPlug(up, Node(t, n, r));
    case InRight(l, n, up) =>
      IdsPlug(up, Node(l, n, t));
  }

  lemma {:induction false} NodesPlug(c: Ctx, t: Tree)
    ensures Nodes(Plug(c, t)) == CtxNodes(c) + Nodes(t)
    decreases c
  {
    match c
    case Top =>
    case InLeft(up, n, r) =>
      NodesPlug(up, Node(t, n, r));
    case InRight(l, n, up) =>
      NodesPlug(up, Node(l, n, t));
  }

  lemma {:induction false} DistinctPlug(c: Ctx, t: Tree)
    ensures Distinct(Plug(c, t)) <==> CtxDistinct(c) && Distinct(t) && Nodes(t) !! CtxNodes(c)
    decreases c
  {
    match c
    case Top =>
    case InLeft(up, n, r) =>
      DistinctPlug(up, Node(t, n, r));
    case InRight(l, n, up) =>
      DistinctPlug(up, Node(l, n, t));
  }

  lemma {:induction false} LinkedPlug(c: Ctx, t: Tree, left: seq<int>, right: seq<int>)
    ensures Linked(Plug(c, t), left, right) <==> CtxLinked(c, RefOf(t), left, right) && Linked(t, left, right)
    decreases c
  {
    match c
    case Top =>
    case InLeft(up, n, r) =>
      LinkedPlug(up, Node(t, n, r), left, right);
    case InRight(l, n, up) =>
      LinkedPlug(up, Node(l, n, t), left, right);
  }

  lemma {:induction false} BalancedPlug(c: Ctx, t: Tree, height: seq<int>)
    ensures Balanced(Plug(c, t), height) <==> CtxBalanced(c, Rank(t, height), height) && Balanced(t, height)
    decreases c
  {
    match c
    case Top =>
    case InLeft(up, n, r) =>
      BalancedPlug(up, Node(t, n, r), height);
    case InRight(l, n, up) =>
      BalancedPlug(up, Node(l, n, t), height);
  }

  lemma {:induction false} ParentsPlug(c: Ctx, t: Tree, parent: seq<int>)
    ensures Parents(Plug(c, t), Null, parent) <==> CtxParents(c, parent) && Parents(t, HoleParent(c), parent)
    decreases c
  {
    match c
    case Top =>
    case InLeft(up, n, r) =>
      ParentsPlug(up, Node(t, n, r), parent);
    case InRight(l, n, up) =>
      ParentsPlug(up, Node(l, n, t), parent);
  }

  // ---------------------------------------------------------------
  // Facts survive updates outside the nodes they are about

  lemma {:induction false} LinkedFrame(t: Tree, left: seq<int>, right: seq<int>, left': seq<int>, right': seq<int>)
    requires Linked(t, left, right)
    requires SameOn(left, left', Nodes(t)) && SameOn(right, right', Nodes(t))
    ensures Linked(t, left', right')
  {
    match t
    case Nil =>
    case Node(l, n, r) =>
      LinkedFrame(l, left, right, left', right');
      LinkedFrame(r, left, right, left', right');
  }

  lemma {:induction false} CtxLinkedFrame(c: Ctx, hole: int, left: seq<int>, right: seq<int>, left': seq<int>, right': seq<int>)
    requires CtxLinked(c, hole, left, right)
    requires SameOn(left, left', CtxNodes(c)) && SameOn(right, right', CtxNodes(c))
    ensures CtxLinked(c, hole, left', right')
    decreases c
  {
    match c
    case Top =>
    case InLeft(up, n, r) =>
      LinkedFrame(r, left, right, left', right');
      CtxLinkedFrame(up, n, left, right, left', right');
    case InRight(l, n, up) =>
      LinkedFrame(l, left, right, left', right');
      CtxLinkedFrame(up, n, left, right, left', right');
  }

  lemma {:induction false} RankFrame(t: Tree, height: seq<int>, height': seq<int>)
    requires SameOn(height, height', Nodes(t))
    ensures Rank(t, height') == Rank(t, height)
  {
  }

  lemma {:induction false} BalancedFrame(t: Tree, height: seq<int>, height': seq<int>)
    requires Balanced(t, height)
    requires SameOn(height, height', Nodes(t))
    ensures Balanced(t, height')
  {
    match t
    case Nil =>
    case Node(l, n, r) =>
      BalancedFrame(l, height, height');
      BalancedFrame(r, height, height');
      RankFrame(l, height, height');
      RankFrame(r, height, height');
  }

  lemma {:induction false} CtxBalancedFrame(c: Ctx, hole: int, height: seq<int>, height': seq<int>)
    requires CtxBalanced(c, hole, height)
    requires SameOn(height, height', CtxNodes(c))
    ensures CtxBalanced(c, hole, height')
    decreases c
  {
    match c
    case Top =>
    case InLeft(up, n, r) =>
      BalancedFrame(r, height, height');
      RankFrame(r, height, height');
      CtxBalancedFrame(up, height[n], height, height');
    case InRight(l, n, up) =>
      BalancedFrame(l, height, height');
      RankFrame(l, height, height');
      CtxBalancedFrame(up, height[n], height, height');
  }

  lemma {:induction false} ParentsFrame(t: Tree, p: int, parent: seq<int>, parent': seq<int>)
    requires Parents(t, p, parent)
    requires SameOn(parent, parent', Nodes(t))
    ensures Parents(t, p, parent')
  {
    match t
    case Nil =>
    case Node(l, n, r) =>
      ParentsFrame(l, n, parent, parent');
      ParentsFrame(r, n, parent, parent');
  }

  lemma {:induction false} CtxParentsFrame(c: Ctx, parent: seq<int>, parent': seq<int>)
    requires CtxParents(c, parent)
    requires SameOn(parent, parent', CtxNodes(c))
    ensures CtxParents(c, parent')
    decreases c
  {
    match c
    case Top =>
    case InLeft(up, n, r) =>
      ParentsFrame(r, n, parent, parent');
      CtxParentsFrame(up, parent, parent');
    case InRight(l, n, up) =>
      ParentsFrame(l, n, parent, parent');
      CtxParentsFrame(up, parent, parent');
  }

  // ---------------------------------------------------------------
  // What the rank rule means

  /**
   * Under the rank rule every stored height is the true height, and the
   * two subtrees of every node differ in height by at most one: the AVL
   * balance condition.
   */
  lemma {:induction false} BalancedIsAVL(t: Tree, height: seq<int>)
    requires Balanced(t, height)
    ensures Rank(t, height) == Height(t)
    ensures t.Node? ==> -1 <= Height(t.left) - Height(t.right) <= 1
  {
    match t
    case Nil =>
    case Node(l, n, r) =>
      BalancedIsAVL(l, height);
      BalancedIsAVL(r, height);
  }

  /** Linked nodes are real: never the virtual node, and inside the store. */
  lemma {:induction false} LinkedRange(t: Tree, left: seq<int>, right: seq<int>)
    requires Linked(t, left, right)
    ensures forall n :: n in Nodes(t) ==> 0 < n < |left| && n < |right|
  {
    match t
    case Nil =>
    case Node(l, n, r) =>
      LinkedRange(l, left, right);
      LinkedRange(r, left, right);
  }

  /** Distinct nodes: as many indexes in order as in the set. */
  lemma {:induction false} DistinctCount(t: Tree)
    requires Distinct(t)
    ensures |Ids(t)| == |Nodes(t)|
  {
    match t
    case Nil =>
    case Node(l, n, r) =>
      DistinctCount(l);
      DistinctCount(r);
      var s := Nodes(l) + {n};
      assert |s| == |Nodes(l)| + 1;
      assert s !! Nodes(r);
      assert |s + Nodes(r)| == |s| + |Nodes(r)|;
  }

  /** The symmetric order lists exactly the nodes of the tree. */
  lemma {:induction false} IdsNodes(t: Tree)
    ensures forall n :: n in Nodes(t) <==> n in Ids(t)
  {
    match t
    case Nil =>
    case Node(l, n, r) =>
      IdsNodes(l);
      IdsNodes(r);
  }

  /** As many indexes as the set has members: the index range 1 .. n-1 of the store. */
  lemma {:induction false} RangeCard(s: set<int>, n: int)
    requires 1 <= n
    requires forall m :: m in s <==> 1 <= m < n
    ensures |s| == n - 1
    decreases n
  {
    if n > 1 {
      assert n - 1 in s;
      RangeCard(s - {n - 1}, n - 1);
    } else {
      assert forall m :: m !in s;
    }
  }

  /** The subtree at the hole keeps the nodes of its context apart from its own. */
  lemma {:induction false} HoleFacts(c: Ctx, t: Tree, left: seq<int>, right: seq<int>)
    requires Linked(Plug(c, t), left, right) && Distinct(Plug(c, t))
    ensures Linked(t, left, right) && Distinct(t) && CtxLinked(c, RefOf(t), left, right) && CtxDistinct(c)
    ensures Nodes(t) !! CtxNodes(c)
    ensures forall n :: n in Nodes(t) ==> 0 < n < |left| && n < |right|
    ensures forall n :: n in CtxNodes(c) ==> 0 < n < |left| && n < |right|
    ensures c != Top ==> 0 < c.id < |left| && c.id < |right| && c.id in CtxNodes(c)
  {
    LinkedRange(Plug(c, t), left, right);
    NodesPlug(c, t);
    LinkedPlug(c, t, left, right);
    DistinctPlug(c, t);
    LinkedRange(t, left, right);
  }

  /** One node of a linked tree with correct parent links, unfolded. */
  lemma TopLinks(t: Tree, left: seq<int>, right: seq<int>, parent: seq<int>, p: int)
    requires t.Node? && Linked(t, left, right) && Parents(t, p, parent)
    ensures 0 < t.id < |left| && t.id < |right| && t.id < |parent| && parent[t.id] == p
    ensures left[t.id] == RefOf(t.left) && right[t.id] == RefOf(t.right)
    ensures Linked(t.left, left, right) && Linked(t.right, left, right)
    ensures Parents(t.left, t.id, parent) && Parents(t.right, t.id, parent)
  {
  }

  /** The part of HoleFacts a rotation needs: the context's links and the hole's own index. */
  lemma HoleFactsSmall(c: Ctx, t: Tree, left: seq<int>, right: seq<int>)
    requires Linked(Plug(c, t), left, right) && Distinct(Plug(c, t))
    ensures CtxLinked(c, RefOf(t), left, right) && RefOf(t) !in CtxNodes(c)
    ensures t.Node? ==> 0 < t.id < |left| && t.id < |right|
  {
    LinkedPlug(c, t, left, right);
    if t.Node? {
      DistinctPlug(c, t);
      assert t.id in Nodes(t);
    } else {
      CtxLinkedPositive(c, RefOf(t), left, right);
    }
  }

  /** Every node of a linked context has a positive index. */
  lemma {:induction false} CtxLinkedPositive(c: Ctx, hole: int, left: seq<int>, right: seq<int>)
    requires CtxLinked(c, hole, left, right)
    ensures 0 !in CtxNodes(c)
    decreases c
  {
    match c
    case Top =>
    case InLeft(up, n, r) =>
      LinkedRange(r, left, right);
      CtxLinkedPositive(up, n, left, right);
    case InRight(l, n, up) =>
      LinkedRange(l, left, right);
      CtxLinkedPositive(up, n, left, right);
  }

  /** The root of a tree with a hole below its top does not depend on what fills the hole. */
  lemma {:induction false} PlugRoot(c: Ctx, t: Tree, t': Tree)
    requires c != Top
    ensures Plug(c, t).Node? && Plug(c, t').Node? && Plug(c, t).id == Plug(c, t').id
    decreases c
  {
    match c
    case InLeft(up, n, r) =>
      if up != Top { PlugRoot(up, Node(t, n, r), Node(t', n, r)); }
    case InRight(l, n, up) =>
      if up != Top { PlugRoot(up, Node(l, n, t), Node(l, n, t')); }
  }

  // ---------------------------------------------------------------
  // Relinking the hole

  /** The child link of the hole's parent node names `y`; the other child link is the context's. */
  predicate HoleLinked(c: Ctx, y: int, left: seq<int>, right: seq<int>) {
    match c
    case Top => true
    case InLeft(_, g, r) => 0 < g < |left| && g < |right| && left[g] == y && right[g] == RefOf(r)
    case InRight(l, g, _) => 0 < g < |left| && g < |right| && left[g] == RefOf(l) && right[g] == y
  }

  /** The left links once the hole's parent names `y` on the left: updateRootForRotation, left side. */
  function LeftAfter(c: Ctx, y: int, left: seq<int>): seq<int> {
    if c.InLeft? && 0 <= c.id < |left| then left[c.id := y] else left
  }

  /** The right links once the hole's parent names `y` on the right. */
  function RightAfter(c: Ctx, y: int, right: seq<int>): seq<int> {
    if c.InRight? && 0 <= c.id < |right| then right[c.id := y] else right
  }

  /**
   * Putting a new subtree into the hole: once it is linked, and the hole's
   * parent links to it, and nothing else of the context changed, the whole
   * tree is linked.
   */
  lemma {:induction false} Replace(c: Ctx, t: Tree, t': Tree, left: seq<int>, right: seq<int>, left': seq<int>, right': seq<int>)
    requires Linked(Plug(c, t), left, right) && Distinct(Plug(c, t))
    requires Linked(t', left', right')
    requires SameOn(left, left', CtxNodes(c) - {HoleParent(c)}) && SameOn(right, right', CtxNodes(c) - {HoleParent(c)})
    requires HoleLinked(c, RefOf(t'), left', right')
    ensures Linked(Plug(c, t'), left', right')
  {
    HoleFacts(c, t, left, right);
    match c
    case Top =>
    case InLeft(up, g, r) =>
      SameOnSubset(left, left', CtxNodes(c) - {g}, CtxNodes(up));
      SameOnSubset(right, right', CtxNodes(c) - {g}, CtxNodes(up));
      SameOnSubset(left, left', CtxNodes(c) - {g}, Nodes(r));
      SameOnSubset(right, right', CtxNodes(c) - {g}, Nodes(r));
      CtxLinkedFrame(up, g, left, right, left', right');
      LinkedFrame(r, left, right, left', right');
      LinkedPlug(c, t', left', right');
    case InRight(l, g, up) =>
      SameOnSubset(left, left', CtxNodes(c) - {g}, CtxNodes(up));
      SameOnSubset(right, right', CtxNodes(c) - {g}, CtxNodes(up));
      SameOnSubset(left, left', CtxNodes(c) - {g}, Nodes(l));
      SameOnSubset(right, right', CtxNodes(c) - {g}, Nodes(l));
      CtxLinkedFrame(up, g, left, right, left', right');
      LinkedFrame(l, left, right, left', right');
      LinkedPlug(c, t', left', right');
  }

  // ---------------------------------------------------------------
  // Rotations of the shape

  /** rightRotation: the left child becomes the top, the old top its right child. */
  function RotR(t: Tree): (r: Tree)
    requires t.Node? && t.left.Node?
    ensures Ids(r) == Ids(t) && Nodes(r) == Nodes(t)
    ensures Distinct(r) <==> Distinct(t)
  {
    Node(t.left.left, t.left.id, Node(t.left.right, t.id, t.right))
  }

  /** leftRotation: the right child becomes the top, the old top its left child. */
  function RotL(t: Tree): (r: Tree)
    requires t.Node? && t.right.Node?
    ensures Ids(r) == Ids(t) && Nodes(r) == Nodes(t)
    ensures Distinct(r) <==> Distinct(t)
  {
    Node(Node(t.left, t.id, t.right.left), t.right.id, t.right.right)
  }

  /** leftRightRotation: the right child of the left child becomes the top. */
  function RotLR(t: Tree): (r: Tree)
    requires t.Node? && t.left.Node? && t.left.right.Node?
    ensures Ids(r) == Ids(t) && Nodes(r) == Nodes(t)
    ensures Distinct(r) <==> Distinct(t)
  {
    RotR(Node(RotL(t.left), t.id, t.right))
  }

  /** rightLeftRotation: the left child of the right child becomes the top. */
  function RotRL(t: Tree): (r: Tree)
    requires t.Node? && t.right.Node? && t.right.left.Node?
    ensures Ids(r) == Ids(t) && Nodes(r) == Nodes(t)
    ensures Distinct(r) <==> Distinct(t)
  {
    RotL(Node(t.left, t.id, RotR(t.right)))
  }

  /** `a` and `b` have one length and differ at most at the indexes in `x`. */
  ghost predicate Agree(a: seq<int>, b: seq<int>, x: set<int>) {
    |a| == |b| && forall m :: 0 <= m < |a| && m !in x ==> a[m] == b[m]
  }

  lemma {:induction false} LinkedAgree(t: Tree, left: seq<int>, right: seq<int>, left': seq<int>, right': seq<int>, x: set<int>)
    requires Linked(t, left, right) && Agree(left, left', x) && Agree(right, right', x)
    requires Nodes(t) !! x
    ensures Linked(t, left', right')
  {
    match t
    case Nil =>
    case Node(l, n, r) =>
      LinkedAgree(l, left, right, left', right', x);
      LinkedAgree(r, left, right, left', right', x);
  }

  /** Links that differ only inside the subtree and at the hole's parent keep the context. */
  lemma AgreeContext(c: Ctx, t: Tree, left: seq<int>, right: seq<int>, left': seq<int>, right': seq<int>, x: set<int>)
    requires Linked(Plug(c, t), left, right) && Distinct(Plug(c, t))
    requires Agree(left, left', x) && Agree(right, right', x)
    requires x <= Nodes(t) + {HoleParent(c)}
    ensures SameOn(left, left', CtxNodes(c) - {HoleParent(c)}) && SameOn(right, right', CtxNodes(c) - {HoleParent(c)})
  {
    HoleFacts(c, t, left, right);
  }

  /** The links rightRotation leaves: the pivot `n` takes the place of the top `p`. */
  lemma RightRotationLinked(c: Ctx, t: Tree, left: seq<int>, right: seq<int>, left': seq<int>, right': seq<int>)
    requires t.Node? && t.left.Node? && 0 <= t.id < |left| && 0 <= t.left.id < |right|
    requires Linked(Plug(c, t), left, right) && Distinct(Plug(c, t))
    requires left' == LeftAfter(c, t.left.id, left)[t.id := RightAfter(c, t.left.id, right)[t.left.id]]
    requires right' == RightAfter(c, t.left.id, right)[t.left.id := t.id]
    ensures Linked(Plug(c, RotR(t)), left', right')
  {
    HoleFacts(c, t, left, right);
    var p, n, g := t.id, t.left.id, HoleParent(c);
    var A, B, R := t.left.left, t.left.right, t.right;
    var x := {p, n, g};
    assert Agree(left, left', x) && Agree(right, right', x);
    assert Linked(A, left', right') && Linked(B, left', right') && Linked(R, left', right') by {
      assert Nodes(A) !! x && Nodes(B) !! x && Nodes(R) !! x;
      LinkedAgree(A, left, right, left', right', x);
      LinkedAgree(B, left, right, left', right', x);
      LinkedAgree(R, left, right, left', right', x);
    }
    assert SameOn(left, left', CtxNodes(c) - {g}) && SameOn(right, right', CtxNodes(c) - {g}) by {
      AgreeContext(c, t, left, right, left', right', x);
    }
    assert left'[n] == left[n] && left'[p] == right[n] && right'[n] == p && right'[p] == right[p] && HoleLinked(c, n, left', right') by {
      assert HoleLinked(c, p, left, right);
      RotRLocal(c, p, n, left, right, left', right');
    }
    Replace(c, t, RotR(t), left, right, left', right');
  }

  /** The links rightRotation rewrites at the top `p`, its left child `n` and the hole's parent, read back. */
  lemma RotRLocal(c: Ctx, p: int, n: int, left: seq<int>, right: seq<int>, left': seq<int>, right': seq<int>)
    requires 0 < p < |left| && p < |right| && 0 < n < |left| && n < |right| && p != n
    requires c != Top ==> c.id != p && c.id != n
    requires HoleLinked(c, p, left, right)
    requires left' == LeftAfter(c, n, left)[p := RightAfter(c, n, right)[n]]
    requires right' == RightAfter(c, n, right)[n := p]
    ensures |left'| == |left| && |right'| == |right|
    ensures left'[p] == right[n] && right'[p] == right[p] && left'[n] == left[n] && right'[n] == p
    ensures HoleLinked(c, n, left', right')
  {
  }

  /** The links leftRotation rewrites at the top `p`, its right child `n` and the hole's parent, read back. */
  lemma RotLLocal(c: Ctx, p: int, n: int, left: seq<int>, right: seq<int>, left': seq<int>, right': seq<int>)
    requires 0 < p < |left| && p < |right| && 0 < n < |left| && n < |right| && p != n
    requires c != Top ==> c.id != p && c.id != n
    requires HoleLinked(c, p, left, right)
    requires right' == RightAfter(c, n, right)[p := LeftAfter(c, n, left)[n]]
    requires left' == LeftAfter(c, n, left)[n := p]
    ensures |left'| == |left| && |right'| == |right|
    ensures left'[p] == left[p] && right'[p] == left[n] && left'[n] == p && right'[n] == right[n]
    ensures HoleLinked(c, n, left', right')
  {
  }

  /** The links leftRotation leaves: the pivot `n` takes the place of the top `p`. */
  lemma LeftRotationLinked(c: Ctx, t: Tree, left: seq<int>, right: seq<int>, left': seq<int>, right': seq<int>)
    requires t.Node? && t.right.Node? && 0 <= t.id < |right| && 0 <= t.right.id < |left|
    requires Linked(Plug(c, t), left, right) && Distinct(Plug(c, t))
    requires right' == RightAfter(c, t.right.id, right)[t.id := LeftAfter(c, t.right.id, left)[t.right.id]]
    requires left' == LeftAfter(c, t.right.id, left)[t.right.id := t.id]
    ensures Linked(Plug(c, RotL(t)), left', right')
  {
    HoleFacts(c, t, left, right);
    var p, n, g := t.id, t.right.id, HoleParent(c);
    var L, B, R := t.left, t.right.left, t.right.right;
    var x := {p, n, g};
    assert Agree(left, left', x) && Agree(right, right', x);
    assert Linked(L, left', right') && Linked(B, left', right') && Linked(R, left', right') by {
      assert Nodes(L) !! x && Nodes(B) !! x && Nodes(R) !! x;
      LinkedAgree(L, left, right, left', right', x);
      LinkedAgree(B, left, right, left', right', x);
      LinkedAgree(R, left, right, left', right', x);
    }
    assert SameOn(left, left', CtxNodes(c) - {g}) && SameOn(right, right', CtxNodes(c) - {g}) by {
      AgreeContext(c, t, left, right, left', right', x);
    }
    assert left'[p] == left[p] && right'[p] == left[n] && left'[n] == p && right'[n] == right[n] && HoleLinked(c, n, left', right') by {
      assert HoleLinked(c, p, left, right);
      RotLLocal(c, p, n, left, right, left', right');
    }
    Replace(c, t, RotL(t), left, right, left', right');
  }

  // ---------------------------------------------------------------
  // Ranks after a rotation

  /** The subtree the last climb step raised: a new leaf, or a node whose children differ in rank. */
  predicate Grown(t: Tree, height: seq<int>) {
    t.Node? && ((t.left.Nil? && t.right.Nil? && Rank(t, height) == 0) || Rank(t.left, height) != Rank(t.right, height))
  }

  /** Under the rank rule a real node has rank at least 0. */
  lemma {:induction false} RankLower(t: Tree, height: seq<int>)
    requires Balanced(t, height)
    ensures Rank(t, height) >= -1
    ensures t.Node? ==> Rank(t, height) >= 0
  {
    match t
    case Nil =>
    case Node(l, n, r) =>
      RankLower(l, height);
  }

  lemma {:induction false} BalancedAgree(t: Tree, height: seq<int>, height': seq<int>, x: set<int>)
    requires Balanced(t, height) && Agree(height, height', x) && Nodes(t) !! x
    ensures Balanced(t, height') && Rank(t, height') == Rank(t, height)
  {
    match t
    case Nil =>
    case Node(l, n, r) =>
      BalancedAgree(l, height, height', x);
      BalancedAgree(r, height, height', x);
  }

  /** The top `t` sits one above a grown left child and two above its right child: isFixNeeded and not isPromotionNeeded. */
  predicate LeftRaised(t: Tree, height: seq<int>) {
    && t.Node? && 0 <= t.id < |height|
    && Rank(t.left, height) == height[t.id] && Rank(t.right, height) == height[t.id] - 2
    && Grown(t.left, height) && Balanced(t.left, height) && Balanced(t.right, height)
  }

  /** The mirror image of LeftRaised. */
  predicate RightRaised(t: Tree, height: seq<int>) {
    && t.Node? && 0 <= t.id < |height|
    && Rank(t.right, height) == height[t.id] && Rank(t.left, height) == height[t.id] - 2
    && Grown(t.right, height) && Balanced(t.right, height) && Balanced(t.left, height)
  }

  /** A node over two subtrees that keep the rank rule keeps it when its own two differences do. */
  lemma NodeBalanced(l: Tree, n: int, r: Tree, height: seq<int>, hn: int)
    requires Balanced(l, height) && Balanced(r, height) && 0 <= n < |height| && height[n] == hn
    requires LocalOk(hn, Rank(l, height), Rank(r, height))
    ensures Balanced(Node(l, n, r), height) && Rank(Node(l, n, r), height) == hn
  {
  }

  /**
   * `t'` is what a rotation leaves in place of `t`: the same nodes in the
   * same symmetric order, the rank rule kept, the old rank of the top
   * kept, a (1,1) top, and no rank changed outside `t`.
   */
  ghost predicate Rebalanced(t: Tree, t': Tree, height: seq<int>, height': seq<int>) {
    && t.Node? && t'.Node? && Ids(t') == Ids(t) && Nodes(t') == Nodes(t) && (Distinct(t) ==> Distinct(t'))
    && Balanced(t', height') && Rank(t', height') == Rank(t, height)
    && Rank(t', height') - Rank(t'.left, height') == 1 && Rank(t', height') - Rank(t'.right, height') == 1
    && Agree(height, height', Nodes(t))
  }

  /**
   * rightRotation at a top `p` whose left child `c` was raised to the top's
   * rank and is (1,2): the top is lowered by one and the pivot keeps its
   * rank, which is the old rank of the top; both end (1,1) or (1,2).
   */
  lemma SingleRightBalanced(t: Tree, height: seq<int>, height': seq<int>)
    requires t.Node? && t.left.Node? && Distinct(t)
    requires 0 <= t.id < |height| && 0 <= t.left.id < |height|
    requires Rank(t.left, height) == height[t.id] && Rank(t.right, height) == height[t.id] - 2
    requires Balanced(t.left, height) && Grown(t.left, height) && Balanced(t.right, height)
    requires height[t.left.id] - Rank(t.left.left, height) == 1
    requires |height'| == |height| && height'[t.id] == height[t.id] - 1 && Agree(height, height', {t.id})
    ensures Rebalanced(t, RotR(t), height, height')
  {
    RankLower(t.right, height);
    var x := {t.id};
    assert Agree(height, height', x) && t.id in Nodes(t);
    BalancedAgree(t.left.left, height, height', x);
    BalancedAgree(t.left.right, height, height', x);
    BalancedAgree(t.right, height, height', x);
  }

  /** leftRotation at a top whose right child was raised and is (2,1): the mirror image. */
  lemma SingleLeftBalanced(t: Tree, height: seq<int>, height': seq<int>)
    requires t.Node? && t.right.Node? && Distinct(t)
    requires 0 <= t.id < |height| && 0 <= t.right.id < |height|
    requires Rank(t.right, height) == height[t.id] && Rank(t.left, height) == height[t.id] - 2
    requires Balanced(t.right, height) && Grown(t.right, height) && Balanced(t.left, height)
    requires height[t.right.id] - Rank(t.right.right, height) == 1
    requires |height'| == |height| && Agree(height, height', {t.id, t.right.id})
    requires height'[t.id] == height[t.id] - 1 && height'[t.right.id] == height[t.right.id]
    ensures Rebalanced(t, RotL(t), height, height')
  {
    RankLower(t.left, height);
    var x := {t.id, t.right.id};
    assert x <= Nodes(t) && Distinct(t.right);
    BalancedAgree(t.right.right, height, height', x);
    BalancedAgree(t.right.left, height, height', x);
    BalancedAgree(t.left, height, height', x);
  }

  /**
   * leftRightRotation at a top `p` whose left child `c` was raised and is
   * (2,1): the pivot `b` takes the top's old rank and `c` and `p` end one
   * below it.
   */
  lemma DoubleRightBalanced(t: Tree, height: seq<int>, height': seq<int>)
    requires t.Node? && t.left.Node? && t.left.right.Node? && Distinct(t)
    requires 0 <= t.id < |height| && 0 <= t.left.id < |height| && 0 <= t.left.right.id < |height|
    requires Rank(t.left, height) == height[t.id] && Rank(t.right, height) == height[t.id] - 2
    requires Balanced(t.left, height) && Balanced(t.right, height)
    requires height[t.left.id] - Rank(t.left.left, height) != 1
    requires |height'| == |height| && Agree(height, height', {t.id, t.left.id, t.left.right.id})
    requires height'[t.left.right.id] == height[t.left.right.id] + 1 && height'[t.left.id] == height[t.left.id] - 1 && height'[t.id] == height[t.id] - 1
    ensures Rebalanced(t, RotLR(t), height, height')
  {
    var p, c, b := t.id, t.left.id, t.left.right.id;
    var A, B1, B2, R := t.left.left, t.left.right.left, t.left.right.right, t.right;
    var h := height[p];
    assert Rank(t, height) == h;
    assert Rank(A, height) == h - 2 && height[b] == h - 1;
    assert h - 3 <= Rank(B1, height) <= h - 2 && h - 3 <= Rank(B2, height) <= h - 2;
    assert height'[b] == h && height'[c] == h - 1 && height'[p] == h - 1;
    var x := {p, c, b};
    assert x <= Nodes(t);
    assert Nodes(B1) + Nodes(B2) <= Nodes(t.left.right) <= Nodes(t.left);
    assert Distinct(t.left) && Distinct(t.left.right) && c !in Nodes(t.left.right);
    BalancedAgree(A, height, height', x);
    BalancedAgree(B1, height, height', x);
    BalancedAgree(B2, height, height', x);
    BalancedAgree(R, height, height', x);
    var low, high := Node(A, c, B1), Node(B2, p, R);
    NodeBalanced(A, c, B1, height', h - 1);
    NodeBalanced(B2, p, R, height', h - 1);
    NodeBalanced(low, b, high, height', h);
    assert RotLR(t) == Node(low, b, high);
  }

  /** rightLeftRotation at a top whose right child was raised and is (1,2): the mirror image. */
  lemma DoubleLeftBalanced(t: Tree, height: seq<int>, height': seq<int>)
    requires t.Node? && t.right.Node? && t.right.left.Node? && Distinct(t)
    requires 0 <= t.id < |height| && 0 <= t.right.id < |height| && 0 <= t.right.left.id < |height|
    requires Rank(t.right, height) == height[t.id] && Rank(t.left, height) == height[t.id] - 2
    requires Balanced(t.right, height) && Balanced(t.left, height)
    requires height[t.right.id] - Rank(t.right.right, height) != 1
    requires |height'| == |height| && Agree(height, height', {t.id, t.right.id, t.right.left.id})
    requires height'[t.right.left.id] == height[t.right.left.id] + 1 && height'[t.right.id] == height[t.right.id] - 1 && height'[t.id] == height[t.id] - 1
    ensures Rebalanced(t, RotRL(t), height, height')
  {
    var p, c, b := t.id, t.right.id, t.right.left.id;
    var L, B1, B2, R := t.left, t.right.left.left, t.right.left.right, t.right.right;
    var h := height[p];
    assert Rank(t, height) == h;
    assert Rank(R, height) == h - 2 && height[b] == h - 1;
    assert h - 3 <= Rank(B1, height) <= h - 2 && h - 3 <= Rank(B2, height) <= h - 2;
    assert height'[b] == h && height'[c] == h - 1 && height'[p] == h - 1;
    var x := {p, c, b};
    assert x <= Nodes(t);
    assert Nodes(B1) + Nodes(B2) <= Nodes(t.right.left) <= Nodes(t.right);
    assert Distinct(t.right) && Distinct(t.right.left) && c !in Nodes(t.right.left);
    BalancedAgree(L, height, height', x);
    BalancedAgree(B1, height, height', x);
    BalancedAgree(B2, height, height', x);
    BalancedAgree(R, height, height', x);
    var low, high := Node(L, p, B1), Node(B2, c, R);
    NodeBalanced(L, p, B1, height', h - 1);
    NodeBalanced(B2, c, R, height', h - 1);
    NodeBalanced(low, b, high, height', h);
    assert RotRL(t) == Node(low, b, high);
  }

  // ---------------------------------------------------------------
  // Keys in symmetric order

  /** The keys stored at `ids`, in that order (-1 for an index outside the store). */
  function KeysOf(ids: seq<int>, key: seq<int>): (r: seq<int>)
    ensures |r| == |ids|
    ensures forall j :: 0 <= j < |ids| && 0 <= ids[j] < |key| ==> r[j] == key[ids[j]]
  {
    seq(|ids|, j requires 0 <= j < |ids| => if 0 <= ids[j] < |key| then key[ids[j]] else -1)
  }

  ghost predicate Ascending(s: seq<int>) {
    forall a, b :: 0 <= a < b < |s| ==> s[a] < s[b]
  }

  /** The search-tree order: keys strictly increase in symmetric order. */
  ghost predicate Ordered(t: Tree, key: seq<int>) {
    Ascending(KeysOf(Ids(t), key))
  }

  /**
   * What infoToArrayRec visits below `t`: a child whose key is -1 is taken
   * for the virtual node and skipped together with its subtree.
   */
  function Listed(t: Tree, key: seq<int>): seq<int> {
    match t
    case Nil => []
    case Node(l, n, r) =>
      (if l.Node? && 0 <= l.id < |key| && key[l.id] != -1 then Listed(l, key) else [])
      + [n]
      + (if r.Node? && 0 <= r.id < |key| && key[r.id] != -1 then Listed(r, key) else [])
  }

  /**
   * One step of infoToArrayRec at the top of `t`: the left child's walk
   * when its key is not -1, the top, then the right child's walk likewise;
   * a missing child is the virtual node, whose key is -1.
   */
  lemma {:induction false} ListedSplit(l: Tree, n: int, r: Tree, key: seq<int>, left: seq<int>, right: seq<int>)
    requires Linked(Node(l, n, r), left, right) && |left| == |key| && |right| == |key| && key[Virtual] == -1
    ensures 0 <= left[n] < |key| && 0 <= right[n] < |key|
    ensures key[left[n]] != -1 ==> l.Node? && l.id == left[n] && Linked(l, left, right)
    ensures key[right[n]] != -1 ==> r.Node? && r.id == right[n] && Linked(r, left, right)
    ensures Listed(Node(l, n, r), key) ==
      (if key[left[n]] != -1 then Listed(l, key) else []) + [n]
      + (if key[right[n]] != -1 then Listed(r, key) else [])
  {
    if l.Node? {
      LinkedRange(l, left, right);
      assert l.id in Nodes(l);
    }
    if r.Node? {
      LinkedRange(r, left, right);
      assert r.id in Nodes(r);
    }
  }

  /** At most the whole subtree is visited. */
  lemma {:induction false} ListedLength(t: Tree, key: seq<int>)
    ensures |Listed(t, key)| <= |Ids(t)|
  {
    match t
    case Nil =>
    case Node(l, n, r) =>
      ListedLength(l, key);
      ListedLength(r, key);
  }

  /** When no stored key is -1, infoToArrayRec visits the whole subtree in symmetric order. */
  lemma {:induction false} ListedAll(t: Tree, key: seq<int>)
    requires forall n :: n in Nodes(t) ==> 0 <= n < |key| && key[n] != -1
    ensures Listed(t, key) == Ids(t)
  {
    match t
    case Nil =>
    case Node(l, n, r) =>
      assert Nodes(l) <= Nodes(t) && Nodes(r) <= Nodes(t);
      ListedAll(l, key);
      ListedAll(r, key);
  }

  // ---------------------------------------------------------------
  // Keys: membership, insertion of a new key

  /** The keys of the real nodes 1 .. |key|-1 of the store. */
  ghost function KeySet(key: seq<int>): set<int> {
    set n | 1 <= n < |key| :: key[n]
  }

  lemma KeySetAppend(key: seq<int>, k: int)
    requires |key| >= 1
    ensures KeySet(key + [k]) == KeySet(key) + {k}
  {
    var key' := key + [k];
    assert key'[|key|] == k;
    forall x | x in KeySet(key) ensures x in KeySet(key') {
      var n :| 1 <= n < |key| && key[n] == x;
      assert key'[n] == x;
    }
  }

  /** Distinct keys on the real nodes: as many keys as real nodes. */
  lemma {:induction false} KeySetInjective(key: seq<int>)
    requires |key| >= 1
    requires forall a, b :: 1 <= a < b < |key| ==> key[a] != key[b]
    ensures |KeySet(key)| == |key| - 1
    decreases |key|
  {
    if |key| > 1 {
      var init := key[..|key| - 1];
      KeySetInjective(init);
      assert key == init + [key[|key| - 1]];
      KeySetAppend(init, key[|key| - 1]);
      assert key[|key| - 1] !in KeySet(init);
    } else {
      assert forall x :: x !in KeySet(key);
    }
  }

  /** Distinct nodes numbered 1 .. n-1: the symmetric order lists each once. */
  lemma IdsOfRange(t: Tree, n: int)
    requires 1 <= n && Distinct(t)
    requires forall m :: m in Nodes(t) <==> 1 <= m < n
    ensures |Ids(t)| == n - 1
    ensures forall m :: m in Ids(t) <==> 1 <= m < n
    ensures forall j :: 0 <= j < |Ids(t)| ==> 1 <= Ids(t)[j] < n
  {
    DistinctCount(t);
    IdsNodes(t);
    RangeCard(Nodes(t), n);
    forall j | 0 <= j < |Ids(t)| ensures 1 <= Ids(t)[j] < n {
      assert Ids(t)[j] in Ids(t);
    }
  }

  /** No position of `ids` holds key `k`, and every real node is at some position: `k` is not stored. */
  lemma NotInKeySet(ids: seq<int>, key: seq<int>, k: int)
    requires forall n :: 1 <= n < |key| ==> n in ids
    requires forall j :: 0 <= j < |ids| ==> KeysOf(ids, key)[j] != k
    ensures k !in KeySet(key)
  {
    forall n | 1 <= n < |key| ensures key[n] != k {
      assert n in ids;
      var j :| 0 <= j < |ids| && ids[j] == n;
      assert KeysOf(ids, key)[j] == key[n];
    }
  }

  /** Keys strictly increase along `ids`: two nodes on it with the same key are the same node. */
  lemma SameKeySameNode(ids: seq<int>, key: seq<int>, a: int, b: int)
    requires Ascending(KeysOf(ids, key))
    requires a in ids && b in ids && 0 <= a < |key| && 0 <= b < |key| && key[a] == key[b]
    ensures a == b
  {
    var i :| 0 <= i < |ids| && ids[i] == a;
    var j :| 0 <= j < |ids| && ids[j] == b;
    assert KeysOf(ids, key)[i] == KeysOf(ids, key)[j];
  }

  /**
   * A new node `n` with key `k` put at position `lo`, between the keys
   * below `k` and the keys above it, keeps the keys strictly increasing.
   */
  lemma InsertAscending(ids: seq<int>, lo: int, key: seq<int>, k: int)
    requires 0 <= lo <= |ids|
    requires forall j :: 0 <= j < |ids| ==> 0 <= ids[j] < |key|
    requires Ascending(KeysOf(ids, key))
    requires forall j :: 0 <= j < lo ==> KeysOf(ids, key)[j] < k
    requires forall j :: lo <= j < |ids| ==> k < KeysOf(ids, key)[j]
    ensures Ascending(KeysOf(ids[..lo] + [|key|] + ids[lo..], key + [k]))
  {
    var ids' := ids[..lo] + [|key|] + ids[lo..];
    var ks, ks' := KeysOf(ids, key), KeysOf(ids', key + [k]);
    assert forall j :: 0 <= j < |ids'| ==> ks'[j] == if j < lo then ks[j] else if j == lo then k else ks[j - 1];
  }

  /**
   * The first and last of the ids after such an insertion: the new node
   * exactly when its key is below the old first key, or above the old last.
   */
  lemma InsertEnds(pre: seq<int>, post: seq<int>, key: seq<int>, k: int)
    requires |pre + post| > 0
    requires forall j :: 0 <= j < |pre + post| ==> 0 <= (pre + post)[j] < |key|
    requires forall j :: 0 <= j < |pre| ==> KeysOf(pre + post, key)[j] < k
    requires forall j :: |pre| <= j < |pre + post| ==> k < KeysOf(pre + post, key)[j]
    ensures var ids, ids' := pre + post, pre + [|key|] + post;
      && ids'[0] == (if k < key[ids[0]] then |key| else ids[0])
      && ids'[|ids'| - 1] == (if k > key[ids[|ids| - 1]] then |key| else ids[|ids| - 1])
  {
    var ids := pre + post;
    assert KeysOf(ids, key)[0] == key[ids[0]];
    assert KeysOf(ids, key)[|ids| - 1] == key[ids[|ids| - 1]];
  }

  // ---------------------------------------------------------------
  // Descending by key

  /** The root of the hole's subtree sits after the context's earlier nodes and its own left subtree. */
  lemma HolePosition(c: Ctx, s: Tree)
    requires s.Node?
    ensures |Pre(c)| + |Ids(s.left)| < |Ids(Plug(c, s))|
    ensures Ids(Plug(c, s))[|Pre(c)| + |Ids(s.left)|] == s.id
  {
    IdsPlug(c, s);
  }

  /**
   * A search for `k` that has reached the hole of `c`: every key before
   * the hole's subtree in symmetric order is below `k`, every key after it above.
   */
  ghost predicate Bracketed(c: Ctx, s: Tree, key: seq<int>, k: int) {
    var ks := KeysOf(Ids(Plug(c, s)), key);
    && (forall j :: 0 <= j < |Pre(c)| && j < |ks| ==> ks[j] < k)
    && (forall j :: |Pre(c)| + |Ids(s)| <= j < |ks| ==> k < ks[j])
  }

  /** Going right from a node whose key is below `k` keeps the search bracketed. */
  lemma DescendRight(c: Ctx, s: Tree, key: seq<int>, k: int)
    requires s.Node? && 0 <= s.id < |key| && key[s.id] < k
    requires Bracketed(c, s, key, k) && Ordered(Plug(c, s), key)
    ensures Bracketed(InRight(s.left, s.id, c), s.right, key, k)
  {
    IdsPlug(c, s);
    HolePosition(c, s);
    var ks := KeysOf(Ids(Plug(c, s)), key);
    var pos := |Pre(c)| + |Ids(s.left)|;
    assert ks[pos] == key[s.id];
    assert Plug(InRight(s.left, s.id, c), s.right) == Plug(c, s);
    assert |Pre(InRight(s.left, s.id, c))| == pos + 1;
  }

  /** Going left from a node whose key is above `k` keeps the search bracketed. */
  lemma DescendLeft(c: Ctx, s: Tree, key: seq<int>, k: int)
    requires s.Node? && 0 <= s.id < |key| && k < key[s.id]
    requires Bracketed(c, s, key, k) && Ordered(Plug(c, s), key)
    ensures Bracketed(InLeft(c, s.id, s.right), s.left, key, k)
  {
    IdsPlug(c, s);
    HolePosition(c, s);
    var ks := KeysOf(Ids(Plug(c, s)), key);
    var pos := |Pre(c)| + |Ids(s.left)|;
    assert ks[pos] == key[s.id];
    assert Plug(InLeft(c, s.id, s.right), s.left) == Plug(c, s);
    assert |Pre(InLeft(c, s.id, s.right))| == |Pre(c)|;
  }

  /** A search that reaches an empty hole has passed every key, none equal to `k`. */
  lemma BracketedMiss(c: Ctx, key: seq<int>, k: int)
    requires Bracketed(c, Nil, key, k)
    ensures forall j :: 0 <= j < |Ids(Plug(c, Nil))| ==> KeysOf(Ids(Plug(c, Nil)), key)[j] != k
  {
  }

  // ---------------------------------------------------------------
  // Attaching a new leaf

  /** Appending a node to the store keeps every link. */
  lemma {:induction false} LinkedExtend(t: Tree, left: seq<int>, right: seq<int>, a: int, b: int)
    requires Linked(t, left, right)
    ensures Linked(t, left + [a], right + [b])
  {
    match t
    case Nil =>
    case Node(l, n, r) =>
      LinkedExtend(l, left, right, a, b);
      LinkedExtend(r, left, right, a, b);
  }

  /** A new node `n`, the next free index, linked in as the child at an empty hole. */
  lemma LeafLinked(c: Ctx, left: seq<int>, right: seq<int>, n: int)
    requires c != Top && Linked(Plug(c, Nil), left, right) && Distinct(Plug(c, Nil))
    requires n == |left| == |right|
    ensures Linked(Plug(c, Node(Nil, n, Nil)), LeftAfter(c, n, left + [Virtual]), RightAfter(c, n, right + [Virtual]))
  {
    var L1, R1 := left + [Virtual], right + [Virtual];
    var L', R' := LeftAfter(c, n, L1), RightAfter(c, n, R1);
    LinkedExtend(Plug(c, Nil), left, right, Virtual, Virtual);
    HoleFacts(c, Nil, left, right);
    HoleFacts(c, Nil, L1, R1);
    assert c.id < n;
    assert L'[n] == Virtual && R'[n] == Virtual;
    assert Linked(Node(Nil, n, Nil), L', R');
    Replace(c, Nil, Node(Nil, n, Nil), L1, R1, L', R');
  }

  /** The nodes around the hole, in order, are the real nodes below `n`. */
  lemma HoleIdsRange(c: Ctx, n: int)
    requires 1 <= n && Distinct(Plug(c, Nil)) && (forall m :: m in Nodes(Plug(c, Nil)) <==> 1 <= m < n)
    ensures forall j :: 0 <= j < |Pre(c) + Post(c)| ==> 1 <= (Pre(c) + Post(c))[j] < n
  {
    IdsPlug(c, Nil);
    assert Ids(Plug(c, Nil)) == Pre(c) + Post(c);
    IdsOfRange(Plug(c, Nil), n);
  }

  /** The tree with the new leaf `n` holds every node below `n + 1` exactly once. */
  lemma LeafNodes(c: Ctx, n: int)
    requires 1 <= n && Distinct(Plug(c, Nil)) && (forall m :: m in Nodes(Plug(c, Nil)) <==> 1 <= m < n)
    ensures Distinct(Plug(c, Node(Nil, n, Nil)))
    ensures forall m :: m in Nodes(Plug(c, Node(Nil, n, Nil))) <==> 1 <= m < n + 1
  {
    LeafPlug(c, n);
  }

  /** The new leaf keeps the nodes distinct and adds itself to them. */
  lemma LeafPlug(c: Ctx, n: int)
    requires Distinct(Plug(c, Nil)) && n !in Nodes(Plug(c, Nil))
    ensures Distinct(Plug(c, Node(Nil, n, Nil)))
    ensures Nodes(Plug(c, Node(Nil, n, Nil))) == Nodes(Plug(c, Nil)) + {n}
  {
    DistinctPlug(c, Nil);
    DistinctPlug(c, Node(Nil, n, Nil));
    NodesPlug(c, Nil);
    NodesPlug(c, Node(Nil, n, Nil));
  }

  /** The new leaf names the hole's parent; every other parent link is as before. */
  lemma LeafParents(c: Ctx, parent: seq<int>, n: int)
    requires c != Top && Parents(Plug(c, Nil), Null, parent) && n == |parent|
    requires forall m :: m in CtxNodes(c) ==> 0 <= m < n
    ensures Parents(Plug(c, Node(Nil, n, Nil)), Null, (parent + [Null])[n := c.id])
  {
    var P := (parent + [Null])[n := c.id];
    ParentsPlug(c, Nil, parent);
    CtxParentsFrame(c, parent, P);
    ParentsPlug(c, Node(Nil, n, Nil), P);
  }

  /** Before the climb, the context keeps the rank rule as it did around the empty hole of rank -1. */
  lemma LeafBalanced(c: Ctx, height: seq<int>)
    requires Balanced(Plug(c, Nil), height)
    requires forall m :: m in CtxNodes(c) ==> 0 <= m < |height|
    ensures CtxBalanced(c, -1, height + [0])
  {
    BalancedPlug(c, Nil, height);
    CtxBalancedFrame(c, -1, height, height + [0]);
  }

  /**
   * The new leaf with key `k` at a hole the search bracketed keeps the keys
   * strictly increasing, and it is the new first (last) node exactly when
   * `k` is below (above) every key.
   */
  lemma LeafOrdered(c: Ctx, key: seq<int>, k: int)
    requires Ordered(Plug(c, Nil), key) && Bracketed(c, Nil, key, k)
    requires forall j :: 0 <= j < |Pre(c) + Post(c)| ==> 0 <= (Pre(c) + Post(c))[j] < |key|
    ensures Ordered(Plug(c, Node(Nil, |key|, Nil)), key + [k])
  {
    var ids, lo := Pre(c) + Post(c), |Pre(c)|;
    LeafKeys(c, key, k);
    InsertAscending(ids, lo, key, k);
    assert Ids(Plug(c, Node(Nil, |key|, Nil))) == ids[..lo] + [|key|] + ids[lo..] by {
      IdsPlug(c, Node(Nil, |key|, Nil));
      assert ids[..lo] == Pre(c) && ids[lo..] == Post(c);
    }
  }

  /** The first and last nodes in symmetric order after the new leaf is attached. */
  lemma LeafEnds(c: Ctx, key: seq<int>, k: int)
    requires Ordered(Plug(c, Nil), key) && Bracketed(c, Nil, key, k)
    requires forall j :: 0 <= j < |Pre(c) + Post(c)| ==> 0 <= (Pre(c) + Post(c))[j] < |key|
    ensures var ids, ids' := Pre(c) + Post(c), Pre(c) + [|key|] + Post(c);
      |ids| > 0 ==>
        && ids'[0] == (if k < key[ids[0]] then |key| else ids[0])
        && ids'[|ids'| - 1] == (if k > key[ids[|ids| - 1]] then |key| else ids[|ids| - 1])
  {
    if |Pre(c) + Post(c)| > 0 {
      LeafKeys(c, key, k);
      InsertEnds(Pre(c), Post(c), key, k);
    }
  }

  /** Before the new leaf is attached: the keys in order of the tree with the hole, split around it. */
  lemma LeafKeys(c: Ctx, key: seq<int>, k: int)
    requires Ordered(Plug(c, Nil), key) && Bracketed(c, Nil, key, k)
    ensures var ids, ks := Pre(c) + Post(c), KeysOf(Pre(c) + Post(c), key);
      && Ascending(ks)
      && (forall j :: 0 <= j < |Pre(c)| ==> ks[j] < k)
      && (forall j :: |Pre(c)| <= j < |ids| ==> k < ks[j])
  {
    var ids := Pre(c) + Post(c);
    assert Ids(Plug(c, Nil)) == ids by {
      IdsPlug(c, Nil);
      assert Pre(c) + Ids(Nil) + Post(c) == ids;
    }
  }

  // ---------------------------------------------------------------
  // The climb after an insertion

  /** The subtree one level up from the hole of `c`, with `s` in the hole. */
  function Up(c: Ctx, s: Tree): (r: Tree)
    requires c != Top
    ensures r.Node? && r.id == c.id && Plug(c.up, r) == Plug(c, s)
  {
    if c.InLeft? then Node(s, c.id, c.right) else Node(c.left, c.id, s)
  }

  /** The child of the hole's parent other than the hole. */
  function Sibling(c: Ctx): Tree
    requires c != Top
  {
    if c.InLeft? then c.right else c.left
  }

  /**
   * `s` grew by one and its parent now breaks the rank rule
   * (isFixNeeded): `s` reached its parent's rank, and the sibling sits one
   * below (a promotion) or two below (a rotation).
   */
  lemma ClimbCases(c: Ctx, s: Tree, height: seq<int>)
    requires c != Top && CtxBalanced(c, Rank(s, height) - 1, height)
    requires !LocalOk(height[c.id], Rank(Up(c, s).left, height), Rank(Up(c, s).right, height))
    ensures Rank(s, height) == height[c.id]
    ensures Rank(Sibling(c), height) == height[c.id] - 1 || Rank(Sibling(c), height) == height[c.id] - 2
  {
  }

  /**
   * A promotion: the parent of `s` goes one rank up, so the subtree one
   * level up keeps the rule, has grown, and leaves one rank of growth to
   * its own context.
   */
  lemma PromoteStep(c: Ctx, s: Tree, height: seq<int>, height': seq<int>)
    requires c != Top && Distinct(Plug(c, s)) && s.Node?
    requires Balanced(s, height) && CtxBalanced(c, Rank(s, height) - 1, height)
    requires Rank(s, height) == height[c.id] && Rank(Sibling(c), height) == height[c.id] - 1
    requires height' == height[c.id := height[c.id] + 1]
    ensures Balanced(Up(c, s), height') && Grown(Up(c, s), height')
    ensures CtxBalanced(c.up, Rank(Up(c, s), height') - 1, height')
  {
    DistinctPlug(c, s);
    var x := {c.id};
    assert Agree(height, height', x);
    assert Distinct(Sibling(c)) && c.id !in Nodes(Sibling(c)) && c.id !in Nodes(s);
    BalancedAgree(s, height, height', x);
    BalancedAgree(Sibling(c), height, height', x);
    assert c.id !in CtxNodes(c.up);
    forall m | m in CtxNodes(c.up) ensures 0 <= m < |height| && 0 <= m < |height'| && height[m] == height'[m] {
      CtxBalancedRange(c.up, height[c.id], height, m);
    }
    CtxBalancedFrame(c.up, height[c.id], height, height');
  }

  /** A rotation: the subtree one level up is replaced by one of its old rank, which ends the climb. */
  lemma RotateStep(c: Ctx, s: Tree, t': Tree, height: seq<int>, height': seq<int>)
    requires c != Top && Distinct(Plug(c, s))
    requires CtxBalanced(c, Rank(s, height) - 1, height)
    requires Rebalanced(Up(c, s), t', height, height')
    ensures Balanced(Plug(c.up, t'), height')
  {
    var t := Up(c, s);
    DistinctPlug(c.up, t);
    assert CtxBalanced(c.up, height[c.id], height);
    forall m | m in CtxNodes(c.up) ensures 0 <= m < |height| && 0 <= m < |height'| && height[m] == height'[m] {
      CtxBalancedRange(c.up, height[c.id], height, m);
    }
    CtxBalancedFrame(c.up, height[c.id], height, height');
    BalancedPlug(c.up, t', height');
  }

  /** Every node of a context that keeps the rank rule is in the store. */
  lemma {:induction false} CtxBalancedRange(c: Ctx, hole: int, height: seq<int>, m: int)
    requires CtxBalanced(c, hole, height) && m in CtxNodes(c)
    ensures 0 <= m < |height|
    decreases c
  {
    match c
    case Top =>
    case InLeft(up, n, r) =>
      if m in Nodes(r) { BalancedRange(r, height, m); } else if m != n { CtxBalancedRange(up, height[n], height, m); }
    case InRight(l, n, up) =>
      if m in Nodes(l) { BalancedRange(l, height, m); } else if m != n { CtxBalancedRange(up, height[n], height, m); }
  }

  /** Every node of a tree that keeps the rank rule is in the store. */
  lemma {:induction false} BalancedRange(t: Tree, height: seq<int>, m: int)
    requires Balanced(t, height) && m in Nodes(t)
    ensures 0 <= m < |height|
  {
    match t
    case Nil =>
    case Node(l, n, r) =>
      if m in Nodes(l) { BalancedRange(l, height, m); } else if m in Nodes(r) { BalancedRange(r, height, m); }
  }

  /** The climb stops where the parent keeps the rank rule, or at the root: the whole tree keeps it. */
  lemma ClimbStop(c: Ctx, s: Tree, height: seq<int>)
    requires Balanced(s, height) && CtxBalanced(c, Rank(s, height) - 1, height)
    requires c != Top ==> LocalOk(height[c.id], Rank(Up(c, s).left, height), Rank(Up(c, s).right, height))
    ensures Balanced(Plug(c, s), height)
  {
    assert CtxBalanced(c, Rank(s, height), height);
    BalancedPlug(c, s, height);
  }

  // ---------------------------------------------------------------
  // What the climb of insert does and what it returns

  /**
   * The rebalancing steps of one insertion: how many promotions, then the
   * rotation that ends the climb, if any (0 none, 1 single, 2 double).
   * insert returns their Count: a promotion or a single rotation counts
   * one, a double rotation two.
   */
  datatype Fixes = Fixes(promotions: nat, rotation: nat)
  {
    function Count(): nat {
      promotions + rotation
    }
  }

  /**
   * The steps the climb of insert takes from the grown subtree `s` in the
   * hole of `c`, following the rank rule up the path: none at the root or
   * below a parent that keeps the rule (isFixNeeded); a promotion of the
   * parent when its ranks add up to one (isPromotionNeeded), and the climb
   * goes on from it one rank higher; otherwise rotate on the side of the
   * child that reached the parent's rank, single when that child leans
   * outward (its outer child one below it) and double when it leans
   * inward. The climb never reaches a raised child that is missing.
   */
  function ClimbFixes(c: Ctx, s: Tree, height: seq<int>): (r: Fixes)
    ensures r.rotation <= 2
    ensures c.Top? ==> r == Fixes(0, 0)
    decreases c
  {
    if c.Top? || !(0 <= c.id < |height|) then Fixes(0, 0)
    else
      var t := Up(c, s);
      var h, hl, hr := height[c.id], Rank(t.left, height), Rank(t.right, height);
      if LocalOk(h, hl, hr) then Fixes(0, 0)
      else if 2 * h - hr - hl == 1 then
        var up := ClimbFixes(c.up, t, height[c.id := h + 1]);
        Fixes(up.promotions + 1, up.rotation)
      else if h - hl == 0 then
        Fixes(0, if t.left.Node? && hl - Rank(t.left.left, height) == 1 then 1 else 2)
      else
        Fixes(0, if t.right.Node? && hr - Rank(t.right.right, height) == 1 then 1 else 2)
  }

  /**
   * The ranks the climb of insert leaves when it ends without a rotation:
   * each parent it promotes one rank higher, every other node as before.
   * It follows the same tests as ClimbFixes; at a rotation it stops.
   */
  function ClimbRanks(c: Ctx, s: Tree, height: seq<int>): (r: seq<int>)
    ensures |r| == |height|
    ensures ClimbFixes(c, s, height).promotions == 0 ==> r == height
    decreases c
  {
    if c.Top? || !(0 <= c.id < |height|) then height
    else
      var t := Up(c, s);
      var h, hl, hr := height[c.id], Rank(t.left, height), Rank(t.right, height);
      if !LocalOk(h, hl, hr) && 2 * h - hr - hl == 1 then ClimbRanks(c.up, t, height[c.id := h + 1])
      else height
  }

  /** The climb only raises ranks, and only on the path above the new leaf. */
  lemma {:induction false} ClimbRanksRaise(c: Ctx, s: Tree, height: seq<int>)
    ensures forall n :: 0 <= n < |height| ==> height[n] <= ClimbRanks(c, s, height)[n]
    ensures forall n :: 0 <= n < |height| && n !in CtxNodes(c) ==> ClimbRanks(c, s, height)[n] == height[n]
    decreases c
  {
    if !(c.Top? || !(0 <= c.id < |height|)) {
      var t := Up(c, s);
      var h, hl, hr := height[c.id], Rank(t.left, height), Rank(t.right, height);
      if !LocalOk(h, hl, hr) && 2 * h - hr - hl == 1 {
        var height' := height[c.id := h + 1];
        var r := ClimbRanks(c.up, t, height');
        assert ClimbRanks(c, s, height) == r;
        ClimbRanksRaise(c.up, t, height');
        forall n | 0 <= n < |height|
          ensures height[n] <= r[n]
        {
          assert height[n] <= height'[n] <= r[n];
        }
        forall n | 0 <= n < |height| && n !in CtxNodes(c)
          ensures r[n] == height[n]
        {
          assert n != c.id && n !in CtxNodes(c.up);
        }
      }
    }
  }

  /**
   * The hole the descent of insert reaches for `k` from the hole of `c`:
   * right past smaller keys, left past larger ones, to a missing child or
   * to the node that already holds `k`.
   */
  function SearchHole(c: Ctx, t: Tree, key: seq<int>, k: int): (r: Ctx)
    ensures t.Nil? ==> r == c
    ensures r != c ==> r != Top && r.id in Nodes(t) && 0 <= r.id < |key|
    ensures r != c && r.InLeft? ==> key[r.id] > k
    ensures r != c && r.InRight? ==> key[r.id] < k
    decreases t
  {
    match t
    case Nil => c
    case Node(l, n, rt) =>
      if 0 <= n < |key| && key[n] < k then SearchHole(InRight(l, n, c), rt, key, k)
      else if 0 <= n < |key| && key[n] > k then SearchHole(InLeft(c, n, rt), l, key, k)
      else c
  }

  /**
   * The steps of insert(k, i) into the tree `t` of the store `key` with
   * ranks `height`: the new leaf gets the next index and rank 0, and the
   * climb starts from it in the hole the search reaches. An empty tree
   * takes none.
   */
  function InsertFixes(t: Tree, key: seq<int>, height: seq<int>, k: int): (r: Fixes)
    ensures t.Nil? ==> r == Fixes(0, 0)
  {
    ClimbFixes(SearchHole(Top, t, key, k), Node(Nil, |key|, Nil), height + [0])
  }

  /** A promotion is one step, after which the climb goes on from the parent one rank higher. */
  lemma PromoteFixes(c: Ctx, s: Tree, height: seq<int>, height': seq<int>)
    requires c != Top && 0 <= c.id < |height|
    requires Rank(s, height) == height[c.id] && Rank(Sibling(c), height) == height[c.id] - 1
    requires height' == height[c.id := height[c.id] + 1]
    ensures var up := ClimbFixes(c.up, Up(c, s), height');
      ClimbFixes(c, s, height) == Fixes(up.promotions + 1, up.rotation)
    ensures ClimbRanks(c, s, height) == ClimbRanks(c.up, Up(c, s), height')
  {
  }

  /**
   * A rotation ends the climb. rotate returns `r`: 1 for a single rotation
   * when the raised child leans outward, 2 for a double one otherwise;
   * the climb counts it as its only rotation.
   */
  lemma RotateFixes(c: Ctx, s: Tree, height: seq<int>, r: int)
    requires c != Top && 0 <= c.id < |height| && s.Node?
    requires Rank(s, height) == height[c.id] && Rank(Sibling(c), height) == height[c.id] - 2
    requires LeftRaised(Up(c, s), height) || RightRaised(Up(c, s), height)
    requires LeftRaised(Up(c, s), height) ==> (r == 1 <==> Rank(Up(c, s).left, height) - Rank(Up(c, s).left.left, height) == 1)
    requires RightRaised(Up(c, s), height) ==> (r == 1 <==> Rank(Up(c, s).right, height) - Rank(Up(c, s).right.right, height) == 1)
    requires r == 1 || r == 2
    ensures ClimbFixes(c, s, height) == Fixes(0, r)
  {
  }

  /** Where the parent keeps the rank rule, or at the root, the climb takes no step. */
  lemma StopFixes(c: Ctx, s: Tree, height: seq<int>)
    requires c != Top ==> 0 <= c.id < |height| && LocalOk(height[c.id], Rank(Up(c, s).left, height), Rank(Up(c, s).right, height))
    ensures ClimbFixes(c, s, height) == Fixes(0, 0) && ClimbRanks(c, s, height) == height
  {
  }

  /** Into the one-node tree of key 1 (rank 0), key 2 goes right and its parent is promoted: insert returns 1. */
  lemma SecondInsertFixes()
    ensures InsertFixes(Node(Nil, 1, Nil), [-1, 1], [-1, 0], 2) == Fixes(1, 0)
  {
    var c := InRight(Nil, 1, Top);
    assert SearchHole(Top, Node(Nil, 1, Nil), [-1, 1], 2) == c;
    assert ClimbFixes(Top, Up(c, Node(Nil, 2, Nil)), [-1, 1, 0]) == Fixes(0, 0);
  }

  /**
   * Into keys 1 and 2 (2 the right child of 1), key 3 promotes 2 and then
   * the right-right lean at 1 takes a single rotation: insert returns 2.
   */
  lemma ThirdInsertFixes()
    ensures InsertFixes(Node(Nil, 1, Node(Nil, 2, Nil)), [-1, 1, 2], [-1, 1, 0], 3) == Fixes(1, 1)
  {
    var c := InRight(Nil, 2, InRight(Nil, 1, Top));
    ThirdInsertHole();
    var s, h := Node(Nil, 3, Nil), [-1, 1, 0, 0];
    assert [-1, 1, 0] + [0] == h;
    PromoteFixes(c, s, h, h[2 := 1]);
    ThirdInsertRotation(h[2 := 1]);
  }

  /** The search for key 3 in the tree of keys 1 and 2 ends right of 2. */
  lemma ThirdInsertHole()
    ensures SearchHole(Top, Node(Nil, 1, Node(Nil, 2, Nil)), [-1, 1, 2], 3) == InRight(Nil, 2, InRight(Nil, 1, Top))
  {
    assert SearchHole(Top, Node(Nil, 1, Node(Nil, 2, Nil)), [-1, 1, 2], 3) == SearchHole(InRight(Nil, 1, Top), Node(Nil, 2, Nil), [-1, 1, 2], 3);
  }

  /** Once 2 is promoted, 1 has the right-right lean of a single rotation. */
  lemma ThirdInsertRotation(h: seq<int>)
    requires h == [-1, 1, 1, 0]
    ensures ClimbFixes(InRight(Nil, 1, Top), Node(Nil, 2, Node(Nil, 3, Nil)), h) == Fixes(0, 1)
  {
    var t := Node(Nil, 1, Node(Nil, 2, Node(Nil, 3, Nil)));
    assert Rank(t.left, h) == -1 && Rank(t.right, h) == 1 && Rank(t.right.right, h) == 0;
  }

  /**
   * insert(k, i) into the tree `t` of the store `key` with ranks `height`
   * climbs without a rotation, taking the steps `f`, and leaves the tree
   * `t'` with the ranks `height'`.
   */
  ghost predicate InsertsTo(t: Tree, key: seq<int>, height: seq<int>, k: int, f: Fixes, t': Tree, height': seq<int>) {
    var c, leaf := SearchHole(Top, t, key, k), Node(Nil, |key|, Nil);
    && InsertFixes(t, key, height, k) == f && f.rotation == 0
    && Plug(c, leaf) == t' && ClimbRanks(c, leaf, height + [0]) == height'
  }

  /**
   * Keys 18, 19, 17, 20 and 16 inserted one after the other into an empty
   * tree take nodes 1 to 5 and no rotation; insert returns 0, 1, 0, 2
   * and 1, and the root keeps key 18 and ends at height 2. First, 18
   * becomes the root.
   */
  lemma PrinterFirst(t: Tree, key: seq<int>, height: seq<int>)
    requires t == Nil && key == [-1] && height == [-1]
    ensures InsertsTo(t, key, height, 18, Fixes(0, 0), Node(Nil, 1, Nil), [-1, 0])
  {
  }

  /** The keys TreePrinter's main inserts, in this order. */
  const PrinterKeys: seq<int> := [18, 19, 17, 20, 16]

  /** The key store after the first `j` of them: nodes 1 to `j`. */
  function PrinterStore(j: int): (r: seq<int>)
    requires 0 <= j <= |PrinterKeys|
    ensures |r| == j + 1 && r[Virtual] == -1
  {
    [-1] + PrinterKeys[..j]
  }

  /** The tree after the first `j` inserts. */
  function PrinterShape(j: int): Tree {
    if j <= 0 then Nil
    else if j == 1 then Node(Nil, 1, Nil)
    else if j == 2 then Node(Nil, 1, Node(Nil, 2, Nil))
    else if j == 3 then Node(Node(Nil, 3, Nil), 1, Node(Nil, 2, Nil))
    else if j == 4 then Node(Node(Nil, 3, Nil), 1, Node(Nil, 2, Node(Nil, 4, Nil)))
    else Node(Node(Node(Nil, 5, Nil), 3, Nil), 1, Node(Nil, 2, Node(Nil, 4, Nil)))
  }

  /** The ranks after the first `j` inserts. */
  function PrinterRanks(j: int): seq<int> {
    if j <= 0 then [-1]
    else if j == 1 then [-1, 0]
    else if j == 2 then [-1, 1, 0]
    else if j == 3 then [-1, 1, 0, 0]
    else if j == 4 then [-1, 2, 1, 0, 0]
    else [-1, 2, 1, 1, 0, 0]
  }

  /** What the five inserts return. */
  const PrinterCounts: seq<nat> := [0, 1, 0, 2, 1]

  /** The steps of insert number `j + 1`: promotions only. */
  function PrinterFixes(j: int): Fixes
    requires 0 <= j < |PrinterCounts|
  {
    Fixes(PrinterCounts[j], 0)
  }

  /**
   * Each of the five inserts goes from the state the one before left to
   * the next, without a rotation, and its key is not yet stored.
   */
  lemma PrinterStep(j: int)
    requires 0 <= j < |PrinterKeys|
    ensures InsertsTo(PrinterShape(j), PrinterStore(j), PrinterRanks(j), PrinterKeys[j], PrinterFixes(j),
                      PrinterShape(j + 1), PrinterRanks(j + 1))
  {
    var t, key, h := PrinterShape(j), PrinterStore(j), PrinterRanks(j);
    if j == 0 {
      assert key == [-1];
      PrinterFirst(t, key, h);
    } else if j == 1 {
      assert key == [-1, 18];
      PrinterSecond(t, key, h);
    } else if j == 2 {
      assert key == [-1, 18, 19];
      PrinterThird(t, key, h);
    } else if j == 3 {
      assert key == [-1, 18, 19, 17];
      PrinterFourth(t, key, h);
    } else {
      assert key == [-1, 18, 19, 17, 20];
      PrinterFifth(t, key, h);
    }
  }

  /** Each of the five keys is new when it is inserted. */
  lemma PrinterFresh(j: int)
    requires 0 <= j < |PrinterKeys|
    ensures PrinterKeys[j] != -1 && PrinterKeys[j] !in KeySet(PrinterStore(j))
    ensures PrinterStore(j + 1) == PrinterStore(j) + [PrinterKeys[j]]
  {
    assert PrinterKeys[..j + 1] == PrinterKeys[..j] + [PrinterKeys[j]];
    var key := PrinterStore(j);
    forall n | 1 <= n < |key|
      ensures key[n] != PrinterKeys[j]
    {
      assert key[n] == PrinterKeys[n - 1];
    }
  }

  /** 19 goes right of 18, which is promoted. */
  lemma PrinterSecond(t: Tree, key: seq<int>, height: seq<int>)
    requires t == Node(Nil, 1, Nil) && key == [-1, 18] && height == [-1, 0]
    ensures InsertsTo(t, key, height, 19, Fixes(1, 0),
                      Node(Nil, 1, Node(Nil, 2, Nil)), [-1, 1, 0])
  {
    var c, leaf, h := InRight(Nil, 1, Top), Node(Nil, 2, Nil), [-1, 0, 0];
    assert SearchHole(Top, Node(Nil, 1, Nil), [-1, 18], 19) == c;
    assert [-1, 0] + [0] == h;
    PromoteFixes(c, leaf, h, h[1 := 1]);
  }

  /** 17 goes left of 18, which keeps the rank rule. */
  lemma PrinterThird(t: Tree, key: seq<int>, height: seq<int>)
    requires t == Node(Nil, 1, Node(Nil, 2, Nil)) && key == [-1, 18, 19] && height == [-1, 1, 0]
    ensures InsertsTo(t, key, height, 17, Fixes(0, 0),
                      Node(Node(Nil, 3, Nil), 1, Node(Nil, 2, Nil)), [-1, 1, 0, 0])
  {
    var c, leaf, h := InLeft(Top, 1, Node(Nil, 2, Nil)), Node(Nil, 3, Nil), [-1, 1, 0, 0];
    assert SearchHole(Top, Node(Nil, 1, Node(Nil, 2, Nil)), [-1, 18, 19], 17) == c;
    assert [-1, 1, 0] + [0] == h;
    StopFixes(c, leaf, h);
  }

  /** 20 goes right of 19: 19 and then 18 are promoted. */
  lemma PrinterFourth(t: Tree, key: seq<int>, height: seq<int>)
    requires t == Node(Node(Nil, 3, Nil), 1, Node(Nil, 2, Nil)) && key == [-1, 18, 19, 17] && height == [-1, 1, 0, 0]
    ensures InsertsTo(t, key, height, 20, Fixes(2, 0),
                      Node(Node(Nil, 3, Nil), 1, Node(Nil, 2, Node(Nil, 4, Nil))), [-1, 2, 1, 0, 0])
  {
    var t, key := Node(Node(Nil, 3, Nil), 1, Node(Nil, 2, Nil)), [-1, 18, 19, 17];
    var c, leaf, h := InRight(Nil, 2, InRight(Node(Nil, 3, Nil), 1, Top)), Node(Nil, 4, Nil), [-1, 1, 0, 0, 0];
    assert SearchHole(Top, t, key, 20) == SearchHole(InRight(Node(Nil, 3, Nil), 1, Top), Node(Nil, 2, Nil), key, 20);
    assert SearchHole(Top, t, key, 20) == c;
    assert [-1, 1, 0, 0] + [0] == h;
    PromoteFixes(c, leaf, h, h[2 := 1]);
    PromoteFixes(c.up, Up(c, leaf), h[2 := 1], h[2 := 1][1 := 2]);
    assert h[2 := 1][1 := 2] == [-1, 2, 1, 0, 0];
  }

  /** 16 goes left of 17, which is promoted; 18 then keeps the rank rule. */
  lemma PrinterFifth(t: Tree, key: seq<int>, height: seq<int>)
    requires t == Node(Node(Nil, 3, Nil), 1, Node(Nil, 2, Node(Nil, 4, Nil))) && key == [-1, 18, 19, 17, 20] && height == [-1, 2, 1, 0, 0]
    ensures InsertsTo(t, key, height, 16, Fixes(1, 0),
                      Node(Node(Node(Nil, 5, Nil), 3, Nil), 1, Node(Nil, 2, Node(Nil, 4, Nil))), [-1, 2, 1, 1, 0, 0])
  {
    var r := Node(Nil, 2, Node(Nil, 4, Nil));
    var t, key := Node(Node(Nil, 3, Nil), 1, r), [-1, 18, 19, 17, 20];
    var c, leaf, h := InLeft(InLeft(Top, 1, r), 3, Nil), Node(Nil, 5, Nil), [-1, 2, 1, 0, 0, 0];
    assert SearchHole(Top, t, key, 16) == SearchHole(InLeft(Top, 1, r), Node(Nil, 3, Nil), key, 16);
    assert SearchHole(Top, t, key, 16) == c;
    assert [-1, 2, 1, 0, 0] + [0] == h;
    PromoteFixes(c, leaf, h, h[3 := 1]);
    StopFixes(c.up, Up(c, leaf), h[3 := 1]);
    assert h[3 := 1] == [-1, 2, 1, 1, 0, 0];
  }

  // ---------------------------------------------------------------
  // The parent links a rotation leaves behind

  /**
   * rightRotation does not relink the subtree that moves from the pivot
   * `c` (the left child of the top `p`) to `p`: when that subtree is not
   * empty its top still names `c`, so the parent links RightRotation
   * leaves do not describe the rotated tree.
   */
  lemma RightRotationStale(C: Ctx, T: Tree, parent: seq<int>)
    requires T.Node? && T.left.Node? && T.left.right.Node? && Distinct(Plug(C, T))
    requires Parents(Plug(C, T), Null, parent)
    ensures 0 <= T.left.id < |parent| && 0 <= T.id < |parent|
    ensures !Parents(Plug(C, RotR(T)), Null, parent[T.left.id := HoleParent(C)][T.id := T.left.id])
  {
    ParentsPlug(C, T, parent);
    DistinctPlug(C, T);
    var p, c, b := T.id, T.left.id, T.left.right.id;
    assert Parents(T.left, p, parent) && Parents(T.left.right, c, parent);
    assert b in Nodes(T.left) && b != c && b != p && c != p;
    var p' := parent[c := HoleParent(C)][p := c];
    assert p'[b] == c;
    assert !Parents(T.left.right, p, p');
    assert !Parents(Node(T.left.right, p, T.right), c, p');
    ParentsPlug(C, RotR(T), p');
  }

  /** The mirror image for leftRotation: the subtree moving from the pivot to the old top keeps its stale parent. */
  lemma LeftRotationStale(C: Ctx, T: Tree, parent: seq<int>)
    requires T.Node? && T.right.Node? && T.right.left.Node? && Distinct(Plug(C, T))
    requires Parents(Plug(C, T), Null, parent)
    ensures 0 <= T.right.id < |parent| && 0 <= T.id < |parent|
    ensures var p' := if C.Top? then parent[T.id := T.right.id] else parent[T.right.id := C.id][T.id := T.right.id];
      !Parents(Plug(C, RotL(T)), Null, p')
  {
    ParentsPlug(C, T, parent);
    DistinctPlug(C, T);
    var p, c, b := T.id, T.right.id, T.right.left.id;
    assert Parents(T.right, p, parent) && Parents(T.right.left, c, parent);
    assert b in Nodes(T.right) && b != c && b != p && c != p;
    var p' := if C.Top? then parent[p := c] else parent[c := C.id][p := c];
    assert p'[b] == c;
    assert !Parents(T.right.left, p, p');
    assert !Parents(Node(T.left, p, T.right.left), c, p');
    ParentsPlug(C, RotL(T), p');
  }

  /**
   * leftRotation at the root does not clear the parent of the pivot `c`,
   * which still names the old root `p` while `p` now names `c`: the two
   * form a cycle and the new root has a parent.
   */
  lemma LeftRotationCycle(T: Tree, parent: seq<int>)
    requires T.Node? && T.right.Node? && Distinct(T) && Parents(T, Null, parent)
    ensures 0 <= T.right.id < |parent| && 0 <= T.id < |parent|
    ensures var p' := parent[T.id := T.right.id];
      p'[T.right.id] == T.id && p'[T.id] == T.right.id && !Parents(RotL(T), Null, p')
  {
  }

  /** A subtree replaced by one with the same nodes in the same order leaves the rest of the tree as it was. */
  lemma ReplaceShape(c: Ctx, t: Tree, t': Tree)
    requires Distinct(Plug(c, t)) && Distinct(t') && Ids(t') == Ids(t) && Nodes(t') == Nodes(t)
    ensures Distinct(Plug(c, t')) && Ids(Plug(c, t')) == Ids(Plug(c, t)) && Nodes(Plug(c, t')) == Nodes(Plug(c, t))
    ensures c != Top ==> Plug(c, t').Node? && Plug(c, t).Node? && Plug(c, t').id == Plug(c, t).id
  {
    DistinctPlug(c, t);
    DistinctPlug(c, t');
    IdsPlug(c, t);
    IdsPlug(c, t');
    NodesPlug(c, t);
    NodesPlug(c, t');
    if c != Top {
      PlugRoot(c, t, t');
    }
  }
}
