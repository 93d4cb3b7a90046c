/**
 * The AVL tree of src/AVLTree.java: distinct integer keys, each with an
 * info value, kept in a rank-balanced binary search tree whose nodes link
 * to their children and to their parent.
 *
 * The node objects live in parallel sequences indexed by node number (the
 * node store): `key[n]`, `val[n]`, `left[n]`, `right[n]`, `parent[n]` and
 * `height[n]` are the fields of node `n`. Node 0 is the shared virtual node
 * (key -1, height -1) that every missing child links to; `Null` (-1) is
 * Java's null. Nodes are only ever added, never removed, so a new node is
 * the next free index. The ghost field `shape` names the tree the child
 * links hold (see tree_shape.dfy).
 */
module AVL {
  import opened TreeShape
  import opened InOrder

  /** A Java String reference: `None` is null. */
  datatype Option<T> = None | Some(value: T)

  /** The result of an operation, or the NullPointerException the source throws. */
  datatype Result<T> = Ok(value: T) | NullPointer

  /** The info values stored at `ids`, in that order (null outside the store). */
  function ValsOf<V>(ids: seq<int>, val: seq<Option<V>>): (r: seq<Option<V>>)
    ensures |r| == |ids|
    ensures forall j :: 0 <= j < |ids| && 0 <= ids[j] < |val| ==> r[j] == val[ids[j]]
  {
    Picked(ids, val, None)
  }

  /**
   * Everything but the ranks and the parent links: the child links hold
   * `shape`, which has every real node exactly once, in key order; `root`,
   * `size`, `min` and `max` agree with it.
   */
  ghost predicate ShapeOk(shape: Tree, key: seq<int>, left: seq<int>, right: seq<int>, root: int, min: int, max: int, size: int) {
    && Linked(shape, left, right) && Distinct(shape)
    && (forall n :: n in Nodes(shape) <==> 1 <= n < |key|)
    && Ordered(shape, key)
    && (if shape.Nil? then root == Null else root == shape.id)
    && size == |key| - 1
    && (shape.Nil? ==> min == Null && max == Null)
    && (shape.Node? ==> min == Ids(shape)[0] && max == Ids(shape)[|Ids(shape)| - 1])
  }

  /**
   * A subtree replaced by one with the same nodes in the same order, and
   * linked in, keeps the shape; the root changes only when the subtree
   * was the whole tree.
   */
  lemma ShapeReplaced(c: Ctx, t: Tree, t': Tree, key: seq<int>, left: seq<int>, right: seq<int>, left': seq<int>, right': seq<int>,
                      root: int, root': int, min: int, max: int, size: int)
    requires ShapeOk(Plug(c, t), key, left, right, root, min, max, size)
    requires Linked(Plug(c, t'), left', right') && Distinct(t') && t'.Node?
    requires Ids(t') == Ids(t) && Nodes(t') == Nodes(t)
    requires root' == if c.Top? then t'.id else root
    ensures ShapeOk(Plug(c, t'), key, left', right', root', min, max, size)
  {
    ReplaceShape(c, t, t');
  }

  /**
   * insert(k, i) below the node where the search for `k` ended: the new
   * node `n`, the next free index, becomes the left or right child there,
   * and `min` and `max` move to it exactly when `k` is below the least
   * key or above the greatest.
   */
  lemma LeafShape(c: Ctx, key: seq<int>, left: seq<int>, right: seq<int>, root: int, min: int, max: int, size: int, k: int,
                  key': seq<int>, left': seq<int>, right': seq<int>, min': int, max': int)
    requires ShapeOk(Plug(c, Nil), key, left, right, root, min, max, size)
    requires c != Top && |left| == |key| && |right| == |key| && 1 <= min < |key| && 1 <= max < |key|
    requires Bracketed(c, Nil, key, k)
    requires key' == key + [k] && left' == LeftAfter(c, |key|, left + [Virtual]) && right' == RightAfter(c, |key|, right + [Virtual])
    requires min' == (if k < key[min] then |key| else min) && max' == (if k > key[max] then |key| else max)
    ensures ShapeOk(Plug(c, Node(Nil, |key|, Nil)), key', left', right', root, min', max', size + 1)
  {
    var n := |key|;
    HoleIdsRange(c, n);
    LeafNodes(c, n);
    LeafLinked(c, left, right, n);
    LeafOrdered(c, key, k);
    LeafRootEnds(c, key, left, right, root, min, max, size, k);
  }

  /** The new leaf keeps the root, and it is the first (last) node exactly when `k` is below (above) every key. */
  lemma LeafRootEnds(c: Ctx, key: seq<int>, left: seq<int>, right: seq<int>, root: int, min: int, max: int, size: int, k: int)
    requires ShapeOk(Plug(c, Nil), key, left, right, root, min, max, size)
    requires c != Top && 1 <= min < |key| && 1 <= max < |key| && Bracketed(c, Nil, key, k)
    ensures var n, t' := |key|, Plug(c, Node(Nil, |key|, Nil));
      && t'.Node? && t'.id == root
      && Ids(t')[0] == (if k < key[min] then n else min)
      && Ids(t')[|Ids(t')| - 1] == (if k > key[max] then n else max)
  {
    var n, t, t' := |key|, Plug(c, Nil), Plug(c, Node(Nil, |key|, Nil));
    PlugRoot(c, Nil, Node(Nil, n, Nil));
    IdsPlug(c, Nil);
    IdsPlug(c, Node(Nil, n, Nil));
    HoleIdsRange(c, n);
    LeafEnds(c, key, k);
  }

  /** The new leaf names its parent, and the rest of the tree keeps the rank rule around a hole of rank -1. */
  lemma LeafClimb(c: Ctx, n: int, parent: seq<int>, height: seq<int>)
    requires c != Top && Distinct(Plug(c, Nil)) && (forall m :: m in Nodes(Plug(c, Nil)) <==> 1 <= m < n)
    requires |parent| == n && |height| == n
    requires Parents(Plug(c, Nil), Null, parent) && Balanced(Plug(c, Nil), height)
    ensures Parents(Plug(c, Node(Nil, n, Nil)), Null, (parent + [Null])[n := c.id])
    ensures CtxBalanced(c, -1, height + [0])
  {
    NodesPlug(c, Nil);
    LeafParents(c, parent, n);
    LeafBalanced(c, height);
  }

  class AVLTree<V> {
    var key: seq<int>
    var val: seq<Option<V>>
    var left: seq<int>
    var right: seq<int>
    var parent: seq<int>
    var height: seq<int>
    var root: int
    var min: int
    var max: int
    var size: int
    ghost var shape: Tree

    /** The node store: one length for every field but the heights, and the virtual node at index 0. */
    ghost predicate Store()
      reads this`key, this`val, this`left, this`right, this`parent
    {
      && |key| >= 1 && |val| == |key| && |left| == |key| && |right| == |key| && |parent| == |key|
      && key[Virtual] == -1 && val[Virtual] == None
      && left[Virtual] == Null && right[Virtual] == Null && parent[Virtual] == Null
    }

    /** The node store with its heights: the virtual node has height -1. */
    ghost predicate Wf()
      reads this`key, this`val, this`left, this`right, this`parent, this`height
    {
      Store() && |height| == |key| && height[Virtual] == -1
    }

    /** Everything but the ranks and the parent links: see ShapeOk. */
    ghost predicate Shaped()
      reads this`key, this`val, this`left, this`right, this`parent, this`root, this`min, this`max, this`size, this`shape
    {
      Store() && ShapeOk(shape, key, left, right, root, min, max, size)
    }

    /** A valid tree: shaped, and every node keeps the rank rule. */
    ghost predicate Valid()
      reads this
    {
      Wf() && Shaped() && Balanced(shape, height)
    }

    /** Every node names its parent, the root naming null. */
    ghost predicate ParentsOk()
      reads this`shape, this`parent
    {
      Parents(shape, Null, parent)
    }

    /** No real node has the key -1 that isRealNode reserves for the virtual node. */
    ghost predicate NoVirtualKey()
      reads this`key
    {
      forall n :: 1 <= n < |key| ==> key[n] != -1
    }

    /** The keys in the tree. */
    ghost function Keys(): set<int>
      reads this`key
    {
      KeySet(key)
    }

    /** Node `n` exists and so do both its children: reading their heights does not fail. */
    predicate Children(n: int)
      reads this`left, this`right, this`height
    {
      0 <= n < |left| && n < |right| && n < |height| && 0 <= left[n] < |height| && 0 <= right[n] < |height|
    }

    /** Under Shaped, the symmetric order lists exactly the real nodes. */
    lemma IdsAreNodes()
      requires Shaped()
      ensures |Ids(shape)| == |key| - 1
      ensures forall n :: n in Ids(shape) <==> 1 <= n < |key|
      ensures forall j :: 0 <= j < |Ids(shape)| ==> 1 <= Ids(shape)[j] < |key|
    {
      IdsOfRange(shape, |key|);
    }

    /**
     * The walk of infoToArrayRec from the root fits an array of `size`
     * cells, and with no stored key -1 it lists every node.
     */
    lemma ListedFits()
      requires Shaped()
      ensures |Listed(shape, key)| <= size
      ensures NoVirtualKey() ==> Listed(shape, key) == Ids(shape) && |Ids(shape)| == size
    {
      ListedLength(shape, key);
      IdsAreNodes();
      if NoVirtualKey() {
        ListedAll(shape, key);
      }
    }

    /**
     * The keys in symmetric order, which keysToArray returns when no key
     * is -1: `size` of them, ascending, and exactly the stored keys.
     */
    lemma KeysInOrder()
      requires Shaped()
      ensures |KeysOf(Ids(shape), key)| == size && Ascending(KeysOf(Ids(shape), key))
      ensures forall k :: k in KeysOf(Ids(shape), key) <==> k in Keys()
    {
      IdsAreNodes();
      var ids, ks := Ids(shape), KeysOf(Ids(shape), key);
      forall k | k in Keys() ensures k in ks {
        var n :| 1 <= n < |key| && key[n] == k;
        assert n in ids;
        var j :| 0 <= j < |ids| && ids[j] == n;
        assert ks[j] == k;
      }
      forall k | k in ks ensures k in Keys() {
        var j :| 0 <= j < |ks| && ks[j] == k;
        assert key[ids[j]] == k;
      }
    }

    /** The tree is empty exactly when no key is stored. */
    lemma EmptyIff()
      requires Shaped()
      ensures shape.Nil? <==> Keys() == {}
      ensures shape.Nil? <==> |key| == 1
    {
      if |key| > 1 {
        assert key[1] in Keys();
        assert 1 in Nodes(shape);
      }
    }

    /** `min` holds the least key and `max` the greatest. */
    lemma MinMaxExtreme()
      requires Shaped()
      ensures shape.Node? ==> 1 <= min < |key| && 1 <= max < |key|
      ensures shape.Node? ==> forall n :: 1 <= n < |key| ==> key[min] <= key[n] <= key[max]
    {
      if shape.Nil? {
        return;
      }
      IdsAreNodes();
      var ids := Ids(shape);
      var ks := KeysOf(ids, key);
      forall n | 1 <= n < |key| ensures key[min] <= key[n] <= key[max] {
        assert n in ids;
        var j :| 0 <= j < |ids| && ids[j] == n;
        assert ks[j] == key[n] && ks[0] == key[min] && ks[|ids| - 1] == key[max];
      }
    }

    /** A new, empty tree: only the virtual node is stored. */
    constructor ()
      ensures Valid() && ParentsOk() && NoVirtualKey()
      ensures root == Null && size == 0 && Keys() == {}
      ensures shape == Nil && key == [-1] && height == [-1]
    {
      key, val := [-1], [None];
      left, right, parent, height := [Null], [Null], [Null], [-1];
      root, min, max := Null, Null, Null;
      size := 0;
      shape := Nil;
    }

    /** empty(): true exactly when no key is stored. */
    function Empty(): (r: bool)
      reads this
      requires Valid()
      ensures r <==> Keys() == {}
    {
      EmptyIff();
      size == 0
    }

    /** size(): the number of keys stored. */
    function Size(): (r: int)
      reads this
      requires Valid()
      ensures r == |Keys()|
    {
      KeyCount();
      size
    }

    /** Distinct keys: one per real node. */
    lemma KeyCount()
      requires Shaped()
      ensures |Keys()| == |key| - 1
    {
      IdsAreNodes();
      forall a, b | 1 <= a < b < |key| ensures key[a] != key[b] {
        if key[a] == key[b] {
          SameKeySameNode(Ids(shape), key, a, b);
        }
      }
      KeySetInjective(key);
    }

    /** isRealNode(): every node but the virtual one; a stored key -1 also reads as virtual. */
    function IsRealNode(n: int): (r: bool)
      reads this`key, this`val, this`left, this`right, this`parent, this`height
      requires Wf() && 0 <= n < |key|
      ensures NoVirtualKey() ==> (r <==> n != Virtual)
    {
      key[n] != -1
    }

    /**
     * search(k): the info of key k, or null when k is not stored. The
     * descent reads only child links, so stale parent links do not affect
     * it; an empty tree has a null root and the first read fails.
     */
    method Search(k: int) returns (r: Result<Option<V>>)
      requires Valid()
      ensures r.NullPointer? <==> root == Null
      ensures r.Ok? && k !in Keys() ==> r.value == None
      ensures r.Ok? && NoVirtualKey() ==> forall n :: 1 <= n < |key| && key[n] == k ==> r.value == val[n]
    {
      if root == Null {
        return NullPointer;
      }
      var temp := root;
      ghost var C, S := Top, shape;
      while IsRealNode(temp)
        invariant shape == Plug(C, S) && Linked(S, left, right) && Bracketed(C, S, key, k)
        invariant temp == RefOf(S) && 0 <= temp < |key|
        decreases S
      {
        assert S.Node?;
        if key[temp] < k {
          DescendRight(C, S, key, k);
          temp := right[temp];
          C, S := InRight(S.left, S.id, C), S.right;
        } else if key[temp] > k {
          DescendLeft(C, S, key, k);
          temp := left[temp];
          C, S := InLeft(C, S.id, S.right), S.left;
        } else {
          HolePosition(C, S);
          IdsAreNodes();
          forall n | 1 <= n < |key| && key[n] == k ensures n == temp {
            SameKeySameNode(Ids(shape), key, n, temp);
          }
          return Ok(val[temp]);
        }
      }
      if NoVirtualKey() {
        BracketedMiss(C, key, k);
        IdsAreNodes();
        NotInKeySet(Ids(shape), key, k);
      }
      return Ok(None);
    }

    /** min(): the info of the least key; an empty tree has a null `min` and the read fails. */
    function Min(): (r: Result<Option<V>>)
      reads this
      requires Valid()
      ensures r.NullPointer? <==> Keys() == {}
      ensures r.Ok? ==> 1 <= min < |key| && r.value == val[min]
      ensures r.Ok? ==> forall n :: 1 <= n < |key| ==> key[min] <= key[n]
    {
      EmptyIff();
      MinMaxExtreme();
      if min == Null then NullPointer else Ok(val[min])
    }

    /** max(): the info of the greatest key; an empty tree has a null `max` and the read fails. */
    function Max(): (r: Result<Option<V>>)
      reads this
      requires Valid()
      ensures r.NullPointer? <==> Keys() == {}
      ensures r.Ok? ==> 1 <= max < |key| && r.value == val[max]
      ensures r.Ok? ==> forall n :: 1 <= n < |key| ==> key[n] <= key[max]
    {
      EmptyIff();
      MinMaxExtreme();
      if max == Null then NullPointer else Ok(val[max])
    }

    /** The AVLNode(key, val) constructor: a new node of height 0, both children virtual, no parent. */
    method NewNode(k: int, i: Option<V>) returns (n: int)
      modifies this`key, this`val, this`left, this`right, this`parent, this`height
      ensures n == |old(key)|
      ensures key == old(key) + [k] && val == old(val) + [i]
      ensures left == old(left) + [Virtual] && right == old(right) + [Virtual]
      ensures height == old(height) + [0] && parent == old(parent) + [Null]
    {
      n := |key|;
      key, val := key + [k], val + [i];
      left, right := left + [Virtual], right + [Virtual];
      height, parent := height + [0], parent + [Null];
    }

    /**
     * isFixNeeded(node): the node exists and breaks the rank rule, its
     * rank differences not being (1,1), (1,2) or (2,1).
     */
    function IsFixNeeded(node: int): (r: bool)
      reads this`left, this`right, this`height
      requires node == Null || Children(node)
      ensures node == Null ==> !r
      ensures node != Null ==>
        var dl, dr := height[node] - height[left[node]], height[node] - height[right[node]];
        (r <==> !((dl == 1 && dr == 1) || (dl == 1 && dr == 2) || (dl == 2 && dr == 1)))
    {
      if node == Null then false
      else
        var rightDiff := height[node] - height[right[node]];
        var leftDiff := height[node] - height[left[node]];
        !(rightDiff >= 1 && rightDiff <= 2 && leftDiff >= 1 && leftDiff <= 2 && leftDiff + rightDiff < 4)
    }

    /**
     * isPromotionNeeded(node): for rank differences that are not negative,
     * exactly the (0,1) and (1,0) nodes.
     */
    function IsPromotionNeeded(node: int): (r: bool)
      reads this`left, this`right, this`height
      requires Children(node)
      ensures var dl, dr := height[node] - height[left[node]], height[node] - height[right[node]];
        0 <= dl && 0 <= dr ==> (r <==> (dl == 0 && dr == 1) || (dl == 1 && dr == 0))
    {
      2 * height[node] - height[right[node]] - height[left[node]] == 1
    }

    /** promote(node): one rank up; counts as one rebalancing step. */
    method Promote(node: int) returns (r: int)
      requires 0 <= node < |height|
      modifies this`height
      ensures height == old(height)[node := old(height)[node] + 1]
      ensures r == 1
    {
      height := height[node := height[node] + 1];
      return 1;
    }

    /**
     * updateRootForRotation(node, tempParent): `node` takes the place of
     * `tempParent` below its parent, or becomes the root. In the root case
     * the parent link of `node` is left as it was.
     */
    method UpdateRootForRotation(node: int, tempParent: int, ghost C: Ctx)
      requires Wf()
      requires 0 < node < |key| && 0 < tempParent < |key| && node != tempParent
      requires parent[tempParent] == HoleParent(C)
      requires CtxLinked(C, tempParent, left, right) && tempParent !in CtxNodes(C)
      modifies this`parent, this`left, this`right, this`root
      ensures Wf()
      ensures parent == if C.Top? then old(parent) else old(parent)[node := C.id]
      ensures left == LeftAfter(C, node, old(left)) && right == RightAfter(C, node, old(right))
      ensures root == if C.Top? then node else old(root)
    {
      if parent[tempParent] != Null {
        parent := parent[node := parent[tempParent]];
        var isLeftChild := left[parent[tempParent]] == tempParent;
        if isLeftChild {
          left := left[parent[node] := node];
        } else {
          right := right[parent[node] := node];
        }
      } else {
        root := node;
      }
    }

    /**
     * rightRotation(node): the left child `node` of its parent `p` becomes
     * the top of that subtree, `p` its right child, one rank lower. The
     * root of the subtree that moves from `node` to `p` keeps naming `node`
     * as its parent.
     */
    method RightRotation(node: int, ghost C: Ctx, ghost T: Tree)
      requires Wf()
      requires T.Node? && T.left.Node? && T.left.id == node
      requires 0 < node < |key| && 0 < T.id < |key|
      requires Linked(Plug(C, T), left, right) && Distinct(Plug(C, T))
      requires parent[node] == T.id && parent[T.id] == HoleParent(C)
      modifies this`parent, this`left, this`right, this`root, this`height
      ensures Wf()
      ensures Linked(Plug(C, RotR(T)), left, right)
      ensures Agree(left, old(left), Nodes(T) + {HoleParent(C)}) && Agree(right, old(right), Nodes(T) + {HoleParent(C)})
      ensures parent == old(parent)[node := HoleParent(C)][T.id := node]
      ensures Agree(old(height), height, {T.id}) && height[T.id] == old(height)[T.id] - 1
      ensures root == if C.Top? then node else old(root)
    {
      var tempParent := parent[node];
      if tempParent != Null {
        HoleFactsSmall(C, T, left, right);
        UpdateRootForRotation(node, tempParent, C);
        parent, left, right, height :=
          parent[node := parent[tempParent]][tempParent := node], left[tempParent := right[node]], right[node := tempParent],
          height[tempParent := height[tempParent] - 1];
        RightRotationLinked(C, T, old(left), old(right), left, right);
      }
    }

    /**
     * leftRotation(node, doubleAddition): the right child `node` of its
     * parent `p` becomes the top of that subtree, `p` its left child, one
     * rank lower, and `node` gains `doubleAddition` ranks. Unlike
     * rightRotation it never resets the parent link of `node`: at the root,
     * `node` and `p` are left naming each other as parent.
     */
    method LeftRotation(node: int, doubleAddition: int, ghost C: Ctx, ghost T: Tree)
      requires Wf()
      requires T.Node? && T.right.Node? && T.right.id == node
      requires 0 < node < |key| && 0 < T.id < |key|
      requires Linked(Plug(C, T), left, right) && Distinct(Plug(C, T))
      requires parent[node] == T.id && parent[T.id] == HoleParent(C)
      modifies this`parent, this`left, this`right, this`root, this`height
      ensures Wf()
      ensures Linked(Plug(C, RotL(T)), left, right)
      ensures Agree(left, old(left), Nodes(T) + {HoleParent(C)}) && Agree(right, old(right), Nodes(T) + {HoleParent(C)})
      ensures parent == if C.Top? then old(parent)[T.id := node] else old(parent)[node := C.id][T.id := node]
      ensures C.Top? ==> parent[node] == T.id && parent[T.id] == node
      ensures Agree(old(height), height, {T.id, node})
      ensures height[T.id] == old(height)[T.id] - 1 && height[node] == old(height)[node] + doubleAddition
      ensures root == if C.Top? then node else old(root)
    {
      var tempParent := parent[node];
      if tempParent != Null {
        HoleFactsSmall(C, T, left, right);
        UpdateRootForRotation(node, tempParent, C);
        parent, right, left, height :=
          parent[tempParent := node], right[tempParent := left[node]], left[node := tempParent],
          height[node := height[node] + doubleAddition][tempParent := height[tempParent] - 1];
        LeftRotationLinked(C, T, old(left), old(right), left, right);
      }
    }

    /**
     * leftRightRotation(node): `node` is the right child of the left child
     * `c` of the top `p`; a left rotation lifts it above `c` and a right
     * rotation above `p`. It gains one rank, `c` and `p` lose one.
     */
    method LeftRightRotation(node: int, ghost C: Ctx, ghost T: Tree)
      requires Wf()
      requires T.Node? && T.left.Node? && T.left.right.Node? && T.left.right.id == node
      requires 0 < node < |key| && 0 < T.left.id < |key| && 0 < T.id < |key|
      requires Linked(Plug(C, T), left, right) && Distinct(Plug(C, T))
      requires parent[node] == T.left.id && parent[T.left.id] == T.id && parent[T.id] == HoleParent(C)
      modifies this`parent, this`left, this`right, this`root, this`height
      ensures Wf()
      ensures Linked(Plug(C, RotLR(T)), left, right)
      ensures Agree(left, old(left), Nodes(T) + {HoleParent(C)}) && Agree(right, old(right), Nodes(T) + {HoleParent(C)})
      ensures Agree(parent, old(parent), {node, T.left.id, T.id})
      ensures parent[node] == HoleParent(C) && parent[T.left.id] == node && parent[T.id] == node
      ensures Agree(old(height), height, {T.id, T.left.id, node})
      ensures height[node] == old(height)[node] + 1 && height[T.left.id] == old(height)[T.left.id] - 1 && height[T.id] == old(height)[T.id] - 1
      ensures root == if C.Top? then node else old(root)
    {
      ghost var c := T.left.id;
      assert Plug(InLeft(C, T.id, T.right), T.left) == Plug(C, T);
      LeftRotation(node, 1, InLeft(C, T.id, T.right), T.left);
      ghost var T2 := Node(RotL(T.left), T.id, T.right);
      assert Plug(InLeft(C, T.id, T.right), RotL(T.left)) == Plug(C, T2);
      DistinctPlug(C, T);
      DistinctPlug(C, T2);
      assert node in Nodes(T.left) && c in Nodes(T.left);
      RightRotation(node, C, T2);
    }

    /** rightLeftRotation(node): the mirror image of leftRightRotation. */
    method RightLeftRotation(node: int, ghost C: Ctx, ghost T: Tree)
      requires Wf()
      requires T.Node? && T.right.Node? && T.right.left.Node? && T.right.left.id == node
      requires 0 < node < |key| && 0 < T.right.id < |key| && 0 < T.id < |key|
      requires Linked(Plug(C, T), left, right) && Distinct(Plug(C, T))
      requires parent[node] == T.right.id && parent[T.right.id] == T.id && parent[T.id] == HoleParent(C)
      modifies this`parent, this`left, this`right, this`root, this`height
      ensures Wf()
      ensures Linked(Plug(C, RotRL(T)), left, right)
      ensures Agree(left, old(left), Nodes(T) + {HoleParent(C)}) && Agree(right, old(right), Nodes(T) + {HoleParent(C)})
      ensures Agree(parent, old(parent), {node, T.right.id, T.id})
      ensures parent[node] == (if C.Top? then T.id else C.id) && parent[T.right.id] == node && parent[T.id] == node
      ensures Agree(old(height), height, {T.id, T.right.id, node})
      ensures height[node] == old(height)[node] + 1 && height[T.right.id] == old(height)[T.right.id] - 1 && height[T.id] == old(height)[T.id] - 1
      ensures root == if C.Top? then node else old(root)
    {
      ghost var c := T.right.id;
      assert Plug(InRight(T.left, T.id, C), T.right) == Plug(C, T);
      RightRotation(node, InRight(T.left, T.id, C), T.right);
      ghost var T2 := Node(T.left, T.id, RotR(T.right));
      assert Plug(InRight(T.left, T.id, C), RotR(T.right)) == Plug(C, T2);
      DistinctPlug(C, T);
      DistinctPlug(C, T2);
      assert node in Nodes(T.right) && c in Nodes(T.right);
      LeftRotation(node, 1, C, T2);
    }

    /**
     * The first half of rotate(node): the left child `c` of the top `node`
     * was raised to its rank. A right rotation (count 1) when `c` is
     * (1,2), otherwise a left-right rotation through the right child of
     * `c` (count 2).
     */
    method RebalanceLeftRaised(node: int, ghost C: Ctx, ghost T: Tree) returns (r: int, ghost T': Tree)
      requires Wf() && T.Node? && T.id == node && 0 < node < |key|
      requires Linked(Plug(C, T), left, right) && Distinct(Plug(C, T))
      requires Parents(T, HoleParent(C), parent)
      requires LeftRaised(T, height)
      modifies this`parent, this`left, this`right, this`root, this`height
      ensures Wf()
      ensures r == 1 <==> Rank(T.left, old(height)) - Rank(T.left.left, old(height)) == 1
      ensures (r == 1 && T' == RotR(T)) || (r == 2 && T.left.right.Node? && T' == RotLR(T))
      ensures r == 1 ==> parent == old(parent)[T.left.id := HoleParent(C)][node := T.left.id]
      ensures r == 2 ==>
        && Agree(parent, old(parent), {T.left.right.id, T.left.id, node})
        && 0 <= T.left.right.id < |parent| && parent[T.left.right.id] == HoleParent(C) && parent[T.left.id] == T.left.right.id && parent[node] == T.left.right.id
      ensures Rebalanced(T, T', old(height), height)
      ensures Linked(Plug(C, T'), left, right)
      ensures parent[node] == T'.id
      ensures root == if C.Top? then T'.id else old(root)
    {
      HoleFactsSmall(C, T, left, right);
      assert Linked(T, left, right) by { LinkedPlug(C, T, left, right); }
      TopLinks(T, left, right, parent, HoleParent(C));
      assert Distinct(T) by { DistinctPlug(C, T); }
      ghost var h := height;
      var l := left[node];
      TopLinks(T.left, left, right, parent, node);
      if height[l] - height[left[l]] == 1 {
        RightRotation(l, C, T);
        SingleRightBalanced(T, h, height);
        r, T' := 1, RotR(T);
      } else {
        RankLower(T.left.left, h);
        TopLinks(T.left.right, left, right, parent, l);
        var b := right[l];
        LeftRightRotation(b, C, T);
        DoubleRightBalanced(T, h, height);
        r, T' := 2, RotLR(T);
      }
    }

    /** The second half of rotate(node): the mirror image, the right child raised. */
    method RebalanceRightRaised(node: int, ghost C: Ctx, ghost T: Tree) returns (r: int, ghost T': Tree)
      requires Wf() && T.Node? && T.id == node && 0 < node < |key|
      requires Linked(Plug(C, T), left, right) && Distinct(Plug(C, T))
      requires Parents(T, HoleParent(C), parent)
      requires RightRaised(T, height)
      modifies this`parent, this`left, this`right, this`root, this`height
      ensures Wf()
      ensures r == 1 <==> Rank(T.right, old(height)) - Rank(T.right.right, old(height)) == 1
      ensures (r == 1 && T' == RotL(T)) || (r == 2 && T.right.left.Node? && T' == RotRL(T))
      ensures r == 1 ==> parent == if C.Top? then old(parent)[node := T.right.id] else old(parent)[T.right.id := C.id][node := T.right.id]
      ensures r == 2 ==>
        && Agree(parent, old(parent), {T.right.left.id, T.right.id, node})
        && 0 <= T.right.left.id < |parent| && parent[T.right.left.id] == (if C.Top? then node else C.id)
        && parent[T.right.id] == T.right.left.id && parent[node] == T.right.left.id
      ensures Rebalanced(T, T', old(height), height)
      ensures Linked(Plug(C, T'), left, right)
      ensures parent[node] == T'.id
      ensures root == if C.Top? then T'.id else old(root)
    {
      HoleFactsSmall(C, T, left, right);
      assert Linked(T, left, right) by { LinkedPlug(C, T, left, right); }
      TopLinks(T, left, right, parent, HoleParent(C));
      assert Distinct(T) by { DistinctPlug(C, T); }
      ghost var h := height;
      var rt := right[node];
      TopLinks(T.right, left, right, parent, node);
      if height[rt] - height[right[rt]] == 1 {
        LeftRotation(rt, 0, C, T);
        SingleLeftBalanced(T, h, height);
        r, T' := 1, RotL(T);
      } else {
        RankLower(T.right.right, h);
        TopLinks(T.right.left, left, right, parent, rt);
        var b := left[rt];
        RightLeftRotation(b, C, T);
        DoubleLeftBalanced(T, h, height);
        r, T' := 2, RotRL(T);
      }
    }

    /**
     * rotate(node): `node` is the top of `T`, one of whose children was
     * raised to its rank while the other sits two below. A single rotation
     * (count 1) when the raised child leans outward, a double rotation
     * (count 2) when it leans inward. The subtree `T'` that replaces `T`
     * keeps its nodes and their order, keeps the rank rule, has the old
     * rank of `node`, and its top is (1,1).
     */
    method Rotate(node: int, ghost C: Ctx, ghost T: Tree) returns (r: int, ghost T': Tree)
      requires Wf() && T.Node? && T.id == node && 0 < node < |key|
      requires Linked(Plug(C, T), left, right) && Distinct(Plug(C, T))
      requires Parents(T, HoleParent(C), parent)
      requires LeftRaised(T, height) || RightRaised(T, height)
      modifies this`parent, this`left, this`right, this`root, this`height
      ensures Wf()
      ensures LeftRaised(T, old(height)) ==>
        && (r == 1 <==> Rank(T.left, old(height)) - Rank(T.left.left, old(height)) == 1)
        && ((r == 1 && T' == RotR(T)) || (r == 2 && T.left.right.Node? && T' == RotLR(T)))
        && (r == 1 ==> parent == old(parent)[T.left.id := HoleParent(C)][node := T.left.id])
        && (r == 2 ==>
          && Agree(parent, old(parent), {T.left.right.id, T.left.id, node})
          && 0 <= T.left.right.id < |parent| && parent[T.left.right.id] == HoleParent(C) && parent[T.left.id] == T.left.right.id && parent[node] == T.left.right.id)
      ensures RightRaised(T, old(height)) ==>
        && (r == 1 <==> Rank(T.right, old(height)) - Rank(T.right.right, old(height)) == 1)
        && ((r == 1 && T' == RotL(T)) || (r == 2 && T.right.left.Node? && T' == RotRL(T)))
        && (r == 1 ==> parent == if C.Top? then old(parent)[node := T.right.id] else old(parent)[T.right.id := C.id][node := T.right.id])
        && (r == 2 ==>
          && Agree(parent, old(parent), {T.right.left.id, T.right.id, node})
          && 0 <= T.right.left.id < |parent| && parent[T.right.left.id] == (if C.Top? then node else C.id)
          && parent[T.right.id] == T.right.left.id && parent[node] == T.right.left.id)
      ensures Rebalanced(T, T', old(height), height)
      ensures Linked(Plug(C, T'), left, right)
      ensures parent[node] == T'.id
      ensures root == if C.Top? then T'.id else old(root)
    {
      HoleFactsSmall(C, T, left, right);
      assert Linked(T, left, right) by { LinkedPlug(C, T, left, right); }
      TopLinks(T, left, right, parent, HoleParent(C));
      if height[node] - height[left[node]] == 0 {
        r, T' := RebalanceLeftRaised(node, C, T);
      } else {
        r, T' := RebalanceRightRaised(node, C, T);
      }
    }

    /**
     * The descent of insert(k, i): from the root down to the virtual node
     * where `k` belongs, remembering the last real node `tempPar`; it stops
     * early when `k` is found. It reads only child links.
     */
    method FindParent(k: int) returns (tempPar: int, found: bool, ghost C: Ctx)
      requires Valid() && root != Null && NoVirtualKey()
      ensures found <==> k in Keys()
      ensures !found ==> C != Top && tempPar == C.id && 1 <= tempPar < |key|
      ensures !found ==> shape == Plug(C, Nil) && Bracketed(C, Nil, key, k)
      ensures !found ==> (C.InLeft? <==> key[tempPar] > k) && C == SearchHole(Top, shape, key, k)
    {
      var temp := root;
      tempPar := temp;
      C := Top;
      ghost var S := shape;
      while IsRealNode(temp)
        invariant shape == Plug(C, S) && Linked(S, left, right) && Bracketed(C, S, key, k)
        invariant temp == RefOf(S) && 0 <= temp < |key| && 1 <= tempPar < |key|
        invariant C.Top? ==> S.Node? && tempPar == temp
        invariant C != Top ==> tempPar == C.id && (C.InLeft? <==> key[tempPar] > k)
        invariant SearchHole(C, S, key, k) == SearchHole(Top, shape, key, k)
        decreases S
      {
        assert S.Node?;
        tempPar := temp;
        if key[temp] < k {
          DescendRight(C, S, key, k);
          temp := right[temp];
          C, S := InRight(S.left, S.id, C), S.right;
        } else if key[temp] > k {
          DescendLeft(C, S, key, k);
          temp := left[temp];
          C, S := InLeft(C, S.id, S.right), S.left;
        } else {
          return tempPar, true, C;
        }
      }
      BracketedMiss(C, key, k);
      IdsAreNodes();
      NotInKeySet(Ids(shape), key, k);
      found := false;
    }

    /** The parent of the climbing node and the child links of that parent, read off the shape. */
    lemma ClimbLinks(c: Ctx, s: Tree)
      requires Wf() && Shaped() && ParentsOk() && shape == Plug(c, s) && s.Node?
      ensures 1 <= s.id < |key| && parent[s.id] == HoleParent(c)
      ensures c != Top ==> 1 <= c.id < |key| && Children(c.id)
      ensures c != Top ==> left[c.id] == RefOf(Up(c, s).left) && right[c.id] == RefOf(Up(c, s).right)
    {
      HoleFactsSmall(c, s, left, right);
      ParentsPlug(c, s, parent);
      if c != Top {
        var t := Up(c, s);
        HoleFactsSmall(c.up, t, left, right);
        LinkedPlug(c.up, t, left, right);
        LinkedRange(t, left, right);
      }
    }

    /** After a rotation the node that moved up is (1,1): the climb's test fails there. */
    lemma RotatedTopOk(c: Ctx, t': Tree)
      requires Wf() && Linked(Plug(c, t'), left, right) && Distinct(Plug(c, t')) && t'.Node?
      requires Rank(t', height) - Rank(t'.left, height) == 1 && Rank(t', height) - Rank(t'.right, height) == 1
      ensures Children(t'.id) && !IsFixNeeded(t'.id)
    {
      HoleFactsSmall(c, t', left, right);
      LinkedPlug(c, t', left, right);
      LinkedRange(t', left, right);
    }

    /**
     * A promotion step of the climb: the parent `cur` of the grown subtree
     * `s` has the rank of `s` and sits one above the sibling of `s`. One
     * rank up, the subtree at `cur` keeps the rule and has grown in turn.
     */
    method ClimbPromote(cur: int, ghost c: Ctx, ghost s: Tree) returns (one: int)
      requires s.Node? && Climbing(s.id, c, s) && c != Top && cur == c.id && 1 <= cur < |key|
      requires Rank(s, height) == height[c.id] && Rank(Sibling(c), height) == height[c.id] - 1
      modifies this`height
      ensures one == 1 && Climbing(cur, c.up, Up(c, s)) && (parent[cur] == Null || Children(parent[cur]))
      ensures var up := ClimbFixes(c.up, Up(c, s), height); ClimbFixes(c, s, old(height)) == Fixes(up.promotions + 1, up.rotation)
      ensures ClimbRanks(c, s, old(height)) == ClimbRanks(c.up, Up(c, s), height)
    {
      ghost var h := height;
      one := Promote(cur);
      Promoted(c, s, h);
      PromoteFixes(c, s, h, height);
    }

    /** After the promotion of the parent of `s`, the climb goes on one level up. */
    lemma Promoted(c: Ctx, s: Tree, h: seq<int>)
      requires Store() && Shaped() && ParentsOk() && c != Top && shape == Plug(c, s) && s.Node?
      requires |h| == |key| && h[Virtual] == -1 && 1 <= c.id < |key| && height == h[c.id := h[c.id] + 1]
      requires Balanced(s, h) && CtxBalanced(c, Rank(s, h) - 1, h)
      requires Rank(s, h) == h[c.id] && Rank(Sibling(c), h) == h[c.id] - 1
      ensures Climbing(c.id, c.up, Up(c, s)) && (parent[c.id] == Null || Children(parent[c.id]))
    {
      var t := Up(c, s);
      assert Balanced(t, height) && Grown(t, height) && CtxBalanced(c.up, Rank(t, height) - 1, height) by {
        DistinctPlug(c, s);
        PromoteStep(c, s, h, height);
      }
      assert Wf();
      assert parent[c.id] == Null || Children(parent[c.id]) by {
        ClimbLinks(c.up, t);
      }
    }

    /**
     * A rotation step of the climb: the parent `cur` of the grown subtree
     * `s` has the rank of `s` and sits two above the sibling of `s`. The
     * rotation puts back the rank rule everywhere, and the node the climb
     * then looks at is the (1,1) top of the rotated subtree.
     */
    method ClimbRotate(cur: int, ghost c: Ctx, ghost s: Tree) returns (r: int)
      requires s.Node? && Climbing(s.id, c, s) && c != Top && cur == c.id
      requires Rank(s, height) == height[c.id] && Rank(Sibling(c), height) == height[c.id] - 2
      modifies this`parent, this`left, this`right, this`root, this`height, this`shape
      ensures Valid()
      ensures (r == 1 || r == 2) && ClimbFixes(c, s, old(height)).promotions == 0 && ClimbFixes(c, s, old(height)).rotation == r
      ensures 1 <= cur < |key| && Children(parent[cur]) && !IsFixNeeded(parent[cur])
    {
      ghost var h := height;
      ghost var t := Up(c, s);
      assert 0 < cur < |key| by { ClimbLinks(c, s); }
      assert Parents(t, HoleParent(c.up), parent) by { ParentsPlug(c.up, t, parent); }
      assert Distinct(t) by { DistinctPlug(c.up, t); }
      ghost var L, R, top := left, right, root;
      ghost var t';
      r, t' := Rotate(cur, c.up, t);
      shape := Plug(c.up, t');
      RotatedOk(c, s, t', h, L, R, top);
      RotateFixes(c, s, h, r);
    }

    /**
     * After the rotation at the parent of the grown subtree `s`, whose
     * result `t'` replaces the parent's subtree, the whole tree keeps the
     * rank rule and the shape again, and the top of `t'` is a (1,1) node.
     */
    lemma RotatedOk(c: Ctx, s: Tree, t': Tree, h: seq<int>, L: seq<int>, R: seq<int>, top: int)
      requires Wf() && c != Top && t'.Node?
      requires ShapeOk(Plug(c, s), key, L, R, top, min, max, size) && CtxBalanced(c, Rank(s, h) - 1, h)
      requires Rebalanced(Up(c, s), t', h, height)
      requires Linked(Plug(c.up, t'), left, right) && root == (if c.up.Top? then t'.id else top)
      ensures ShapeOk(Plug(c.up, t'), key, left, right, root, min, max, size) && Balanced(Plug(c.up, t'), height)
      ensures Children(t'.id) && !IsFixNeeded(t'.id)
    {
      var t := Up(c, s);
      DistinctPlug(c.up, t);
      RotateStep(c, s, t', h, height);
      ShapeReplaced(c.up, t, t', key, L, R, left, right, top, root, min, max, size);
      RotatedTopOk(c.up, t');
    }

    /**
     * The state of the climb of insert(k, i) before the tree is valid
     * again: `cur` is the top of `s`, which grew by one rank and keeps the
     * rank rule; the rest of the tree kept the rule before `s` grew.
     */
    ghost predicate Climbing(cur: int, c: Ctx, s: Tree)
      reads this
    {
      && Wf() && Shaped() && ParentsOk() && shape == Plug(c, s) && s.Node? && s.id == cur && 1 <= cur < |key|
      && Balanced(s, height) && Grown(s, height) && CtxBalanced(c, Rank(s, height) - 1, height)
    }

    /**
     * One turn of the climb of insert(k, i), once the parent of `cur`
     * breaks the rank rule: move up to that parent `next`, then promote it
     * or rotate at it. After a promotion the climb goes on from `next`;
     * after a rotation the tree keeps the rule again, and the parent of
     * `next` is the (1,1) top of the rotated subtree.
     */
    method ClimbStep(cur: int, ghost c: Ctx, ghost s: Tree) returns (next: int, r: int, rotated: bool, ghost c': Ctx, ghost s': Tree)
      requires Climbing(cur, c, s) && (parent[cur] == Null || Children(parent[cur])) && IsFixNeeded(parent[cur])
      modifies this`parent, this`left, this`right, this`root, this`height, this`shape
      ensures Wf() && Shaped() && 1 <= next < |key|
      ensures !rotated ==> r == 1 && c != Top && c' == c.up
      ensures !rotated ==> Climbing(next, c', s') && (parent[next] == Null || Children(parent[next]))
      ensures !rotated ==> ClimbFixes(c, s, old(height)) == Fixes(ClimbFixes(c', s', height).promotions + 1, ClimbFixes(c', s', height).rotation)
      ensures !rotated ==> shape == old(shape) && root == old(root) && ClimbRanks(c, s, old(height)) == ClimbRanks(c', s', height)
      ensures rotated ==> (r == 1 || r == 2) && Balanced(shape, height)
      ensures rotated ==> ClimbFixes(c, s, old(height)).promotions == 0 && ClimbFixes(c, s, old(height)).rotation == r
      ensures rotated ==> Children(parent[next]) && !IsFixNeeded(parent[next])
    {
      ClimbLinks(c, s);
      next := parent[cur];
      ClimbCases(c, s, height);
      if IsPromotionNeeded(next) {
        r := ClimbPromote(next, c, s);
        rotated, c', s' := false, c.up, Up(c, s);
      } else {
        r := ClimbRotate(next, c, s);
        rotated, c', s' := true, c, s;
      }
    }

    /** The climb stops below a parent that keeps the rank rule, or at the root: the tree is valid. */
    lemma ClimbDone(cur: int, c: Ctx, s: Tree)
      requires Climbing(cur, c, s) && (parent[cur] == Null || Children(parent[cur])) && !IsFixNeeded(parent[cur])
      ensures Valid() && ClimbFixes(c, s, height) == Fixes(0, 0) && ClimbRanks(c, s, height) == height
    {
      ClimbLinks(c, s);
      ClimbStop(c, s, height);
      StopFixes(c, s, height);
    }

    /**
     * The climb of insert(k, i), from the new leaf `node` up: while the
     * parent breaks the rank rule, promote it or rotate at it. It takes
     * the steps ClimbFixes describes and returns their count; after it the
     * tree keeps the rule again, and when the climb ended without a
     * rotation every parent link is still right.
     */
    method Rebalance(node: int, ghost C: Ctx, ghost S: Tree) returns (count: int)
      requires Climbing(node, C, S)
      modifies this`parent, this`left, this`right, this`root, this`height, this`shape
      ensures Valid()
      ensures count == ClimbFixes(C, S, old(height)).Count()
      ensures ClimbFixes(C, S, old(height)).rotation == 0 ==> ParentsOk()
      ensures ClimbFixes(C, S, old(height)).rotation == 0 ==> shape == old(shape) && root == old(root) && height == ClimbRanks(C, S, old(height))
    {
      var cur := node;
      count := 0;
      ghost var c, s := C, S;
      ghost var T0, R0 := shape, root;
      ghost var F0, K0 := ClimbFixes(C, S, height), ClimbRanks(C, S, height);
      ClimbLinks(c, s);
      while IsFixNeeded(parent[cur])
        invariant Climbing(cur, c, s) && (parent[cur] == Null || Children(parent[cur]))
        invariant 0 <= count && F0 == Fixes(count + ClimbFixes(c, s, height).promotions, ClimbFixes(c, s, height).rotation)
        invariant shape == T0 && root == R0 && K0 == ClimbRanks(c, s, height)
        decreases c
      {
        var r, rotated;
        cur, r, rotated, c, s := ClimbStep(cur, c, s);
        count := count + r;
        if rotated {
          // the top of the rotated subtree keeps the rule: the loop test fails
          assert !IsFixNeeded(parent[cur]);
          return;
        }
      }
      ClimbDone(cur, c, s);
    }

    /**
     * Lines 80-90 of insert: the new node for `k` hangs under `tempPar`
     * on the side the key comparison picks, records its parent, and
     * becomes the minimum or maximum when its key is beyond theirs.
     */
    method LinkLeaf(k: int, i: Option<V>, tempPar: int, ghost C: Ctx) returns (newNode: int)
      requires Wf() && 1 <= min < |key| && 1 <= max < |key|
      requires C != Top && tempPar == C.id && 1 <= tempPar < |key| && (C.InLeft? <==> key[tempPar] > k)
      modifies this`key, this`val, this`left, this`right, this`parent, this`height, this`min, this`max, this`size
      ensures newNode == |old(key)| && key == old(key) + [k] && val == old(val) + [i] && size == old(size) + 1
      ensures left == LeftAfter(C, newNode, old(left) + [Virtual]) && right == RightAfter(C, newNode, old(right) + [Virtual])
      ensures parent == (old(parent) + [Null])[newNode := C.id] && height == old(height) + [0]
      ensures min == (if k < old(key)[old(min)] then newNode else old(min))
      ensures max == (if k > old(key)[old(max)] then newNode else old(max))
      ensures Wf()
    {
      newNode := NewNode(k, i);
      if key[tempPar] > k {
        left := left[tempPar := newNode];
      } else {
        right := right[tempPar := newNode];
      }
      parent := parent[newNode := tempPar];
      if key[newNode] > key[max] {
        max := newNode;
      }
      if key[newNode] < key[min] {
        min := newNode;
      }
      size := size + 1;
    }

    /**
     * The whole attaching step of insert: the linked leaf fills the hole
     * of `C`, and the climb starts from it.
     */
    method AttachLeaf(k: int, i: Option<V>, tempPar: int, ghost C: Ctx) returns (newNode: int)
      requires Valid() && ParentsOk() && root != Null
      requires C != Top && tempPar == C.id && 1 <= tempPar < |key|
      requires shape == Plug(C, Nil) && Bracketed(C, Nil, key, k) && (C.InLeft? <==> key[tempPar] > k)
      modifies this
      ensures newNode == |old(key)| && key == old(key) + [k] && val == old(val) + [i] && size == old(size) + 1
      ensures height == old(height) + [0] && root == old(root)
      ensures Climbing(newNode, C, Node(Nil, newNode, Nil))
    {
      ghost var K0, L0, R0, P0, H0 := key, left, right, parent, height;
      ghost var min0, max0, size0 := min, max, size;
      assert 1 <= min < |key| && 1 <= max < |key| by { MinMaxExtreme(); }
      newNode := LinkLeaf(k, i, tempPar, C);
      shape := Plug(C, Node(Nil, newNode, Nil));
      AttachedClimbing(C, k, K0, L0, R0, P0, H0, min0, max0, size0);
    }

    /**
     * The state left by attaching the leaf for `k` under the hole of `C`
     * is one from which the climb starts at that leaf.
     */
    lemma AttachedClimbing(C: Ctx, k: int, K0: seq<int>, L0: seq<int>, R0: seq<int>, P0: seq<int>, H0: seq<int>,
                           min0: int, max0: int, size0: int)
      requires ShapeOk(Plug(C, Nil), K0, L0, R0, root, min0, max0, size0)
      requires C != Top && |L0| == |K0| && |R0| == |K0| && |P0| == |K0| && |H0| == |K0|
      requires 1 <= min0 < |K0| && 1 <= max0 < |K0| && Bracketed(C, Nil, K0, k)
      requires Parents(Plug(C, Nil), Null, P0) && Balanced(Plug(C, Nil), H0)
      requires Wf() && key == K0 + [k] && height == H0 + [0] && parent == (P0 + [Null])[|K0| := C.id]
      requires left == LeftAfter(C, |K0|, L0 + [Virtual]) && right == RightAfter(C, |K0|, R0 + [Virtual])
      requires min == (if k < K0[min0] then |K0| else min0) && max == (if k > K0[max0] then |K0| else max0)
      requires size == size0 + 1 && shape == Plug(C, Node(Nil, |K0|, Nil))
      ensures Climbing(|K0|, C, Node(Nil, |K0|, Nil))
    {
      LeafShape(C, K0, L0, R0, root, min0, max0, size0, k, key, left, right, min, max);
      LeafClimb(C, |K0|, P0, H0);
    }

    /**
     * Lines 61-66 of insert: into an empty tree the new node becomes the
     * root, the minimum and the maximum.
     */
    method InsertFirst(k: int, i: Option<V>)
      requires Valid() && root == Null
      modifies this
      ensures old(shape) == Nil && InsertFixes(old(shape), old(key), old(height), k) == Fixes(0, 0)
      ensures Valid() && ParentsOk() && |old(key)| == 1 && root == 1 && shape == Node(Nil, root, Nil)
      ensures var c, leaf := SearchHole(Top, old(shape), old(key), k), Node(Nil, |old(key)|, Nil);
        root == |old(key)| && shape == Plug(c, leaf) && height == ClimbRanks(c, leaf, old(height) + [0])
      ensures key == old(key) + [k] && val == old(val) + [i] && size == old(size) + 1
      ensures Keys() == old(Keys()) + {k}
      ensures forall n :: 1 <= n < |key| && key[n] == k ==> val[n] == i
      ensures NoVirtualKey() <==> k != -1
    {
      ghost var K0 := key;
      EmptyIff();
      var n := NewNode(k, i);
      root, min, max := n, n, n;
      size := size + 1;
      shape := Node(Nil, n, Nil);
      KeySetAppend(K0, k);
      assert Ids(shape) == [n];
    }

    /**
     * insert(k, i): a new node for `k` with info `i`, then the climb.
     * Returns -1, changing nothing, when `k` is already stored; 0 for the
     * first node of an empty tree; otherwise the number of rebalancing
     * steps the climb from the new leaf takes (InsertFixes), a promotion
     * or a single rotation counting one and a double rotation two.
     */
    method Insert(k: int, i: Option<V>) returns (count: int)
      requires Valid() && ParentsOk() && NoVirtualKey()
      modifies this
      ensures Valid()
      ensures count == -1 <==> k in old(Keys())
      ensures count == -1 ==> unchanged(this)
      ensures count != -1 ==> key == old(key) + [k] && val == old(val) + [i] && size == old(size) + 1
      ensures count != -1 ==> Keys() == old(Keys()) + {k}
      ensures count != -1 ==> forall n :: 1 <= n < |key| && key[n] == k ==> val[n] == i
      ensures old(root) == Null ==> count == 0
      ensures count != -1 ==> count == InsertFixes(old(shape), old(key), old(height), k).Count()
      ensures count != -1 && InsertFixes(old(shape), old(key), old(height), k).rotation == 0 ==> ParentsOk()
      ensures count != -1 && InsertFixes(old(shape), old(key), old(height), k).rotation == 0 ==>
        root == (if old(root) == Null then |old(key)| else old(root))
      ensures var c, leaf := SearchHole(Top, old(shape), old(key), k), Node(Nil, |old(key)|, Nil);
        count != -1 && InsertFixes(old(shape), old(key), old(height), k).rotation == 0 ==>
        shape == Plug(c, leaf) && height == ClimbRanks(c, leaf, old(height) + [0])
      ensures NoVirtualKey() <==> k != -1
    {
      ghost var K0 := key;
      if root == Null {
        InsertFirst(k, i);
        return 0;
      }
      var tempPar, found;
      ghost var C;
      tempPar, found, C := FindParent(k);
      if found {
        assert k != -1 && NoVirtualKey();
        return -1;
      }
      count := InsertBelow(k, i, tempPar, C);
    }

    /**
     * Lines 80-100 of insert, below the real node `tempPar` whose missing
     * child is the hole of `C`: the new leaf for `k`, then the climb from
     * it, which takes the steps ClimbFixes describes for that hole.
     */
    method InsertBelow(k: int, i: Option<V>, tempPar: int, ghost C: Ctx) returns (count: int)
      requires Valid() && ParentsOk() && root != Null && NoVirtualKey() && k !in Keys()
      requires C != Top && tempPar == C.id && 1 <= tempPar < |key|
      requires shape == Plug(C, Nil) && Bracketed(C, Nil, key, k) && (C.InLeft? <==> key[tempPar] > k)
      requires C == SearchHole(Top, shape, key, k)
      modifies this
      ensures Valid()
      ensures key == old(key) + [k] && val == old(val) + [i] && size == old(size) + 1
      ensures Keys() == old(Keys()) + {k}
      ensures forall n :: 1 <= n < |key| && key[n] == k ==> val[n] == i
      ensures NoVirtualKey() <==> k != -1
      ensures count == InsertFixes(old(shape), old(key), old(height), k).Count()
      ensures InsertFixes(old(shape), old(key), old(height), k).rotation == 0 ==> ParentsOk() && root == old(root)
      ensures var c, leaf := SearchHole(Top, old(shape), old(key), k), Node(Nil, |old(key)|, Nil);
        InsertFixes(old(shape), old(key), old(height), k).rotation == 0 ==>
        shape == Plug(c, leaf) && height == ClimbRanks(c, leaf, old(height) + [0])
    {
      ghost var K0 := key;
      var newNode := AttachLeaf(k, i, tempPar, C);
      KeySetAppend(K0, k);
      count := Rebalance(newNode, C, Node(Nil, newNode, Nil));
    }

    /**
     * infoToArrayRec(node, inOrder, inOrderKeys, index, isKeys): the
     * symmetric-order walk below `node` writes each visited key (isKeys)
     * or info into the next free cell of the array the flag selects. The
     * one-cell counter array `index` of the source is the `index` in and
     * the `next` out. The flag does not change down the recursion, so it
     * is tested once, here, and the walk itself is FillInOrder.
     */
    method InfoToArrayRec(node: int, ghost t: Tree, ghost ids: seq<int>, inOrder: array?<Option<V>>, inOrderKeys: array?<int>, index: int, isKeys: bool)
      returns (next: int)
      requires Wf() && t.Node? && t.id == node && Linked(t, left, right) && ids == Listed(t, key) && 0 <= index
      requires isKeys ==> inOrderKeys != null && index + |ids| <= inOrderKeys.Length
      requires !isKeys ==> inOrder != null && index + |ids| <= inOrder.Length
      modifies inOrder, inOrderKeys
      ensures next == index + |ids|
      ensures isKeys ==> inOrderKeys[..] == Written(old(inOrderKeys[..]), index, KeysOf(ids, key))
      ensures isKeys && inOrder != null ==> unchanged(inOrder)
      ensures !isKeys ==> inOrder[..] == Written(old(inOrder[..]), index, ValsOf(ids, val))
      ensures !isKeys && inOrderKeys != null ==> unchanged(inOrderKeys)
    {
      if isKeys {
        next := FillInOrder(key, left, right, node, t, ids, key, -1, inOrderKeys, index);
        KeysPicked(ids, key);
      } else {
        next := FillInOrder(key, left, right, node, t, ids, val, None, inOrder, index);
      }
    }

    /**
     * keysToArray(): the keys of the symmetric-order walk from the root in
     * a new array of `size` zeros; an empty tree has a null root and the
     * walk fails. With no stored key -1 that is every key, ascending.
     */
    method KeysToArray() returns (r: Result<array<int>>)
      requires Valid()
      ensures r.NullPointer? <==> root == Null
      ensures r.Ok? ==> fresh(r.value) && r.value.Length == size
      ensures r.Ok? ==> |Listed(shape, key)| <= size && r.value[..|Listed(shape, key)|] == KeysOf(Listed(shape, key), key)
      ensures r.Ok? ==> forall j :: |Listed(shape, key)| <= j < size ==> r.value[j] == 0
      ensures r.Ok? && NoVirtualKey() ==> r.value[..] == KeysOf(Ids(shape), key) && Ascending(r.value[..])
    {
      if root == Null {
        return NullPointer;
      }
      var arr := new int[size](_ => 0);
      ghost var a0 := arr[..];
      ListedFits();
      var _ := InfoToArrayRec(root, shape, Listed(shape, key), null, arr, 0, true);
      WrittenFromStart(a0, KeysOf(Listed(shape, key), key), 0);
      KeysFilled(arr[..]);
      return Ok(arr);
    }

    /** Keys written from the start of an array of `size` cells fill it when no stored key is -1. */
    lemma KeysFilled(a: seq<int>)
      requires Shaped() && |a| == size && |Listed(shape, key)| <= size
      requires a[..|Listed(shape, key)|] == KeysOf(Listed(shape, key), key)
      ensures NoVirtualKey() ==> a == KeysOf(Ids(shape), key) && Ascending(a)
    {
      ListedFits();
      if NoVirtualKey() {
        KeysInOrder();
        assert a == a[..|Listed(shape, key)|];
      }
    }

    /**
     * infoToArray(): the info values in the order keysToArray lists their
     * keys, in a new array of `size` nulls; an empty tree fails the same way.
     */
    method InfoToArray() returns (r: Result<array<Option<V>>>)
      requires Valid()
      ensures r.NullPointer? <==> root == Null
      ensures r.Ok? ==> fresh(r.value) && r.value.Length == size
      ensures r.Ok? ==> |Listed(shape, key)| <= size && r.value[..|Listed(shape, key)|] == ValsOf(Listed(shape, key), val)
      ensures r.Ok? ==> forall j :: |Listed(shape, key)| <= j < size ==> r.value[j] == None
      ensures r.Ok? && NoVirtualKey() ==> r.value[..] == ValsOf(Ids(shape), val)
    {
      if root == Null {
        return NullPointer;
      }
      var arr := new Option<V>[size](_ => None);
      ghost var a0 := arr[..];
      ListedFits();
      var _ := InfoToArrayRec(root, shape, Listed(shape, key), arr, null, 0, false);
      WrittenFromStart(a0, ValsOf(Listed(shape, key), val), None);
      if NoVirtualKey() {
        assert arr[..] == arr[..|Listed(shape, key)|];
      }
      return Ok(arr);
    }
  }

  /**
   * The insertions of TreePrinter's main: keys 18, 19, 17, 20 and 16, with
   * their own decimal strings as infos, into a new tree, one insert after
   * the other (PrinterInsert says what each returns). The root then has
   * key 18 and height 2, and the tree has size 5.
   */
  method PrinterMain() returns (rootKey: int, rootHeight: int, n: int)
    ensures rootKey == 18 && rootHeight == 2 && n == 5
  {
    var t := new AVLTree<string>();
    var infos := ["18", "19", "17", "20", "16"];
    assert PrinterStore(0) == [-1];
    for j := 0 to |PrinterKeys|
      invariant PrinterState(t, j)
    {
      var _ := PrinterInsert(t, j, Some(infos[j]));
    }
    rootKey, rootHeight, n := PrinterRoot(t);
  }

  /** getRoot().getKey(), getRoot().getHeight() and size() after the five inserts of PrinterMain. */
  method PrinterRoot(t: AVLTree<string>) returns (rootKey: int, rootHeight: int, n: int)
    requires PrinterState(t, 5)
    ensures rootKey == 18 && rootHeight == 2 && n == 5
  {
    rootKey, rootHeight, n := t.key[t.root], t.height[t.root], t.Size();
  }

  /** The state of `t` after the first `j` inserts of PrinterMain. */
  ghost predicate PrinterState(t: AVLTree<string>, j: int)
    reads t
  {
    && 0 <= j <= |PrinterKeys|
    && t.Valid() && t.ParentsOk() && t.NoVirtualKey()
    && t.shape == PrinterShape(j) && t.key == PrinterStore(j) && t.height == PrinterRanks(j)
    && t.size == j && t.root == (if j == 0 then Null else 1)
  }

  /** Insert number `j + 1` of PrinterMain, with the info `i`. */
  method PrinterInsert(t: AVLTree<string>, j: int, i: Option<string>) returns (count: int)
    requires PrinterState(t, j) && j < |PrinterKeys|
    modifies t
    ensures PrinterState(t, j + 1) && count == PrinterCounts[j]
  {
    PrinterStep(j);
    PrinterFresh(j);
    assert t.root == Null <==> j == 0;
    count := t.Insert(PrinterKeys[j], i);
  }
}
