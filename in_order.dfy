/**
 * The symmetric-order walk of infoToArrayRec in src/AVLTree.java, on the
 * node store's child links: which nodes it visits (`Listed`, see
 * tree_shape.dfy), and what it writes into the output array.
 */
module InOrder {
  import opened TreeShape

  /** The cells of `a` from `index` on overwritten by `s`, the others kept. */
  function Written<T>(a: seq<T>, index: int, s: seq<T>): (r: seq<T>)
    requires 0 <= index && index + |s| <= |a|
    ensures |r| == |a|
  {
    a[..index] + s + a[index + |s|..]
  }

  /** Cell `j` after the write: the written entry inside the range, the old one outside. */
  lemma WrittenAt<T>(a: seq<T>, index: int, s: seq<T>, j: int)
    requires 0 <= index && index + |s| <= |a| && 0 <= j < |a|
    ensures Written(a, index, s)[j] == if index <= j < index + |s| then s[j - index] else a[j]
  {
  }

  /**
   * One step of the symmetric-order walk on the output: the entries of
   * `before` written from `index`, then the node's own entry in the next
   * cell `m`, then those of `after` from `m + 1`, is the entries of the
   * whole list written from `index`.
   */
  lemma FillStep<T>(a0: seq<T>, a1: seq<T>, a2: seq<T>, a3: seq<T>, index: int, m: int,
                    before: seq<int>, n: int, after: seq<int>, items: seq<T>, absent: T)
    requires 0 <= index && 0 <= n < |items| && m == index + |before| && m + 1 + |after| <= |a0|
    requires a1 == Written(a0, index, Picked(before, items, absent))
    requires a2 == a1[m := items[n]]
    requires a3 == Written(a2, m + 1, Picked(after, items, absent))
    ensures a3 == Written(a0, index, Picked(before + [n] + after, items, absent))
  {
    var s, s' := Picked(before, items, absent), Picked(after, items, absent);
    WrittenOne(a1, m, items[n]);
    WrittenAppend(a0, index, s, [items[n]]);
    WrittenAppend(a0, index, s + [items[n]], s');
    PickedSplit(before, n, after, items, absent);
  }

  /** Writing nothing leaves the sequence as it was. */
  lemma WrittenNothing<T>(a: seq<T>, index: int)
    requires 0 <= index <= |a|
    ensures Written(a, index, []) == a
  {
    assert a[..index] + a[index..] == a;
  }

  /**
   * Writing `s` from the first cell of a sequence that holds `d` in every
   * cell: `s` is the prefix and `d` is left in the cells after it.
   */
  lemma WrittenFromStart<T>(a: seq<T>, s: seq<T>, d: T)
    requires |s| <= |a| && forall j :: 0 <= j < |a| ==> a[j] == d
    ensures Written(a, 0, s)[..|s|] == s
    ensures forall j :: |s| <= j < |a| ==> Written(a, 0, s)[j] == d
  {
    assert Written(a, 0, s) == s + a[|s|..];
  }

  /** Writing `s` and then `s'` just after it is writing `s + s'`. */
  lemma WrittenAppend<T>(a: seq<T>, index: int, s: seq<T>, s': seq<T>)
    requires 0 <= index && index + |s| + |s'| <= |a|
    ensures Written(Written(a, index, s), index + |s|, s') == Written(a, index, s + s')
  {
    var b, c := Written(Written(a, index, s), index + |s|, s'), Written(a, index, s + s');
    forall j | 0 <= j < |a| ensures b[j] == c[j] {
      WrittenAt(a, index, s, j);
      WrittenAt(Written(a, index, s), index + |s|, s', j);
      WrittenAt(a, index, s + s', j);
      if index <= j < index + |s| {
        assert (s + s')[j - index] == s[j - index];
      } else if index + |s| <= j < index + |s| + |s'| {
        assert (s + s')[j - index] == s'[j - index - |s|];
      }
    }
  }

  /** Updating one cell is writing a one-element sequence. */
  lemma WrittenOne<T>(a: seq<T>, index: int, x: T)
    requires 0 <= index < |a|
    ensures a[index := x] == Written(a, index, [x])
  {
    forall j | 0 <= j < |a| ensures a[index := x][j] == Written(a, index, [x])[j] {
      WrittenAt(a, index, [x], j);
    }
  }

  /**
   * The entries of the per-node sequence `items` at the nodes `ids`, in
   * that order; `absent` for a number outside the store.
   */
  function Picked<T>(ids: seq<int>, items: seq<T>, absent: T): (r: seq<T>)
    ensures |r| == |ids|
    ensures forall j :: 0 <= j < |ids| && 0 <= ids[j] < |items| ==> r[j] == items[ids[j]]
  {
    seq(|ids|, j requires 0 <= j < |ids| => if 0 <= ids[j] < |items| then items[ids[j]] else absent)
  }

  /** The entries at a concatenation of node lists. */
  lemma PickedConcat<T>(ids: seq<int>, ids': seq<int>, items: seq<T>, absent: T)
    ensures Picked(ids + ids', items, absent) == Picked(ids, items, absent) + Picked(ids', items, absent)
  {
  }

  /** The entries around one node. */
  lemma PickedSplit<T>(before: seq<int>, n: int, after: seq<int>, items: seq<T>, absent: T)
    requires 0 <= n < |items|
    ensures Picked(before + [n] + after, items, absent) == Picked(before, items, absent) + [items[n]] + Picked(after, items, absent)
  {
    PickedConcat(before, [n], items, absent);
    PickedConcat(before + [n], after, items, absent);
  }

  /** The keys at `ids` are the entries of `key` there, -1 outside the store. */
  lemma KeysPicked(ids: seq<int>, key: seq<int>)
    ensures KeysOf(ids, key) == Picked(ids, key, -1)
  {
  }


  /**
   * The walk below a node `t` splits into the walk of its left child (when
   * that child's key is not -1), `t` itself, and the walk of its right
   * child likewise.
   */
  lemma WalkParts(t: Tree, key: seq<int>, left: seq<int>, right: seq<int>) returns (before: seq<int>, after: seq<int>)
    requires |left| == |key| && |right| == |key| && |key| >= 1 && key[Virtual] == -1
    requires t.Node? && Linked(t, left, right)
    ensures 0 <= left[t.id] < |key| && 0 <= right[t.id] < |key|
    ensures Listed(t, key) == before + [t.id] + after
    ensures key[left[t.id]] != -1 ==> t.left.Node? && t.left.id == left[t.id] && Linked(t.left, left, right) && before == Listed(t.left, key)
    ensures key[left[t.id]] == -1 ==> before == []
    ensures key[right[t.id]] != -1 ==> t.right.Node? && t.right.id == right[t.id] && Linked(t.right, left, right) && after == Listed(t.right, key)
    ensures key[right[t.id]] == -1 ==> after == []
  {
    ListedSplit(t.left, t.id, t.right, key, left, right);
    before := if key[left[t.id]] != -1 then Listed(t.left, key) else [];
    after := if key[right[t.id]] != -1 then Listed(t.right, key) else [];
  }

  /**
   * The recursion of infoToArrayRec with the choice of array made: the
   * symmetric-order walk below `node` stores `items[n]` of each visited node
   * `n` in the next free cell of `out`, from `index` on, and returns the
   * first cell after them.
   */
  method FillInOrder<T>(key: seq<int>, left: seq<int>, right: seq<int>, node: int, ghost t: Tree, ghost ids: seq<int>,
                        items: seq<T>, ghost absent: T, out: array<T>, index: int)
    returns (next: int)
    requires |key| >= 1 && |left| == |key| && |right| == |key| && |items| == |key| && key[Virtual] == -1
    requires t.Node? && t.id == node && Linked(t, left, right) && ids == Listed(t, key) && 0 <= index
    requires index + |ids| <= out.Length
    modifies out
    decreases t, 0
    ensures next == index + |ids|
    ensures out[..] == Written(old(out[..]), index, Picked(ids, items, absent))
  {
    ghost var before, after := WalkParts(t, key, left, right);
    ghost var a0 := out[..];
    next := FillChild(key, left, right, left[node], t.left, before, items, absent, out, index);
    ghost var a1, m := out[..], next;
    out[next] := items[node];
    ghost var a2 := out[..];
    next := FillChild(key, left, right, right[node], t.right, after, items, absent, out, next + 1);
    FillStep(a0, a1, a2, out[..], index, m, before, node, after, items, absent);
  }

  /**
   * One child of the node infoToArrayRec is at: the walk enters it only
   * when isRealNode holds for it, that is when its key is not -1, so a
   * subtree whose top has the key -1 is skipped and writes nothing.
   */
  method FillChild<T>(key: seq<int>, left: seq<int>, right: seq<int>, child: int, ghost sub: Tree, ghost part: seq<int>,
                      items: seq<T>, ghost absent: T, out: array<T>, index: int)
    returns (next: int)
    requires |key| >= 1 && |left| == |key| && |right| == |key| && |items| == |key| && key[Virtual] == -1
    requires 0 <= child < |key|
    requires key[child] != -1 ==> sub.Node? && sub.id == child && Linked(sub, left, right) && part == Listed(sub, key)
    requires key[child] == -1 ==> part == []
    requires 0 <= index && index + |part| <= out.Length
    modifies out
    decreases sub, 1
    ensures next == index + |part|
    ensures out[..] == Written(old(out[..]), index, Picked(part, items, absent))
  {
    if key[child] != -1 {
      next := FillInOrder(key, left, right, child, sub, part, items, absent, out, index);
    } else {
      next := index;
      assert Picked(part, items, absent) == [];
      WrittenNothing(out[..], index);
    }
  }
}
