/**
 * The counting insertion sort of src/Tests.java: it sorts an integer array in
 * place by exchanging neighbours and returns how many exchanges it made.
 */
module Tests {

  ghost predicate Sorted(s: seq<int>) {
    forall p, q :: 0 <= p < q < |s| ==> s[p] <= s[q]
  }

  /** How many elements of `s` are at least `v`. */
  function CountAtLeast(s: seq<int>, v: int): nat {
    if s == [] then 0
    else CountAtLeast(s[..|s| - 1], v) + (if s[|s| - 1] >= v then 1 else 0)
  }

  /**
   * The number of index pairs p < q with s[p] >= s[q], grouped by q: the pairs
   * whose right end is the last index are the earlier elements at least as large.
   */
  function Inversions(s: seq<int>): nat {
    if s == [] then 0
    else Inversions(s[..|s| - 1]) + CountAtLeast(s[..|s| - 1], s[|s| - 1])
  }

  /** The same pairs as a set, the reference definition of what the sort counts. */
  ghost function InversionPairs(s: seq<int>): set<(int, int)> {
    set p, q | 0 <= p < q < |s| && s[p] >= s[q] :: (p, q)
  }

  lemma {:induction false} CountAtLeastAppend(a: seq<int>, b: seq<int>, v: int)
    ensures CountAtLeast(a + b, v) == CountAtLeast(a, v) + CountAtLeast(b, v)
    decreases |b|
  {
    if b == [] {
      assert a + b == a;
    } else {
      assert (a + b)[..|a + b| - 1] == a + b[..|b| - 1];
      CountAtLeastAppend(a, b[..|b| - 1], v);
    }
  }

  /** Counting elements does not depend on their order. */
  lemma {:induction false} CountAtLeastPermutation(s: seq<int>, t: seq<int>, v: int)
    requires multiset(s) == multiset(t)
    ensures CountAtLeast(s, v) == CountAtLeast(t, v)
    decreases |s|
  {
    if s == [] {
      assert |t| == |multiset(t)| == 0;
    } else {
      var s', x := s[..|s| - 1], s[|s| - 1];
      assert x in multiset(t) by {
        assert s == s' + [x];
      }
      var m :| 0 <= m < |t| && t[m] == x;
      var a, b := t[..m], t[m + 1..];
      RemoveOne(s, t, m);
      CountAtLeastPermutation(s', a + b, v);
      assert t == a + ([x] + b);
      CountAtLeastAppend(a, [x] + b, v);
      CountAtLeastAppend([x], b, v);
      CountAtLeastAppend(a, b, v);
      assert CountAtLeast([x], v) == (if x >= v then 1 else 0) by {
        assert [x][..0] == [];
      }
    }
  }

  /** Removing the last element of `s` and an equal element of `t` keeps two permutations equal. */
  lemma RemoveOne(s: seq<int>, t: seq<int>, m: nat)
    requires |s| > 0 && m < |t| && t[m] == s[|s| - 1]
    requires multiset(s) == multiset(t)
    ensures multiset(s[..|s| - 1]) == multiset(t[..m] + t[m + 1..])
  {
    var s', a, b, x := s[..|s| - 1], t[..m], t[m + 1..], t[m];
    assert s == s' + [x];
    assert t == a + [x] + b;
    var A, B, X, S := multiset(a), multiset(b), multiset{x}, multiset(s');
    assert S + X == A + X + B;
    assert S == S + X - X;
    assert A + B == A + X + B - X;
  }

  lemma {:induction false} CountAtLeastNone(s: seq<int>, v: int)
    requires forall m :: 0 <= m < |s| ==> s[m] < v
    ensures CountAtLeast(s, v) == 0
    decreases |s|
  {
    if s != [] {
      CountAtLeastNone(s[..|s| - 1], v);
    }
  }

  lemma {:induction false} CountAtLeastAll(s: seq<int>, v: int)
    requires forall m :: 0 <= m < |s| ==> s[m] >= v
    ensures CountAtLeast(s, v) == |s|
    decreases |s|
  {
    if s != [] {
      CountAtLeastAll(s[..|s| - 1], v);
    }
  }

  /** At most n(n-1)/2 pairs exist among n elements. */
  lemma {:induction false} InversionsBound(s: seq<int>)
    ensures 2 * Inversions(s) <= |s| * (|s| - 1)
    ensures Inversions(s) <= |s| * (|s| - 1) / 2
    decreases |s|
  {
    if s != [] {
      var s' := s[..|s| - 1];
      InversionsBound(s');
      CountAtLeastBound(s', s[|s| - 1]);
      assert |s| * (|s| - 1) == |s'| * (|s'| - 1) + 2 * |s'|;
    }
  }

  lemma {:induction false} CountAtLeastBound(s: seq<int>, v: int)
    ensures CountAtLeast(s, v) <= |s|
    decreases |s|
  {
    if s != [] {
      CountAtLeastBound(s[..|s| - 1], v);
    }
  }

  /** The pairs (p, m) with p < m and s[p] >= v, for a fixed right end m. */
  ghost function PairsEndingAt(s: seq<int>, n: nat, m: int, v: int): set<(int, int)>
    requires n <= |s|
  {
    set p | 0 <= p < n && s[p] >= v :: (p, m)
  }

  lemma {:induction false} PairsEndingAtCount(s: seq<int>, n: nat, m: int, v: int)
    requires n <= |s|
    ensures |PairsEndingAt(s, n, m, v)| == CountAtLeast(s[..n], v)
    decreases n
  {
    if n == 0 {
      assert PairsEndingAt(s, n, m, v) == {};
    } else {
      PairsEndingAtCount(s, n - 1, m, v);
      PairsEndingAtStep(s, n, m, v);
      assert s[..n][..n - 1] == s[..n - 1];
    }
  }

  lemma PairsEndingAtStep(s: seq<int>, n: nat, m: int, v: int)
    requires 0 < n <= |s|
    ensures PairsEndingAt(s, n, m, v)
         == PairsEndingAt(s, n - 1, m, v) + (if s[n - 1] >= v then {(n - 1, m)} else {})
    ensures (n - 1, m) !in PairsEndingAt(s, n - 1, m, v)
  {
  }

  /** The recursive count is the number of inverted (or tied) index pairs. */
  lemma {:induction false} InversionsCountsPairs(s: seq<int>)
    ensures Inversions(s) == |InversionPairs(s)|
    decreases |s|
  {
    if s == [] {
      assert InversionPairs(s) == {};
    } else {
      var n := |s| - 1;
      var s' := s[..n];
      InversionsCountsPairs(s');
      PairsEndingAtCount(s, n, n, s[n]);
      assert s[..n] == s';
      var last := PairsEndingAt(s, n, n, s[n]);
      assert InversionPairs(s) == InversionPairs(s') + last by {
        forall pair | pair in InversionPairs(s)
          ensures pair in InversionPairs(s') + last
        {
          var p, q := pair.0, pair.1;
          if q < n {
            assert s'[p] == s[p] && s'[q] == s[q];
          }
        }
        forall pair | pair in InversionPairs(s') ensures pair in InversionPairs(s) {
          var p, q := pair.0, pair.1;
          assert s'[p] == s[p] && s'[q] == s[q];
        }
      }
      assert InversionPairs(s') !! last;
    }
  }

  /** `s` with `x` placed at position `k`. */
  function InsertAt(s: seq<int>, k: nat, x: int): (r: seq<int>)
    requires k <= |s|
    ensures |r| == |s| + 1
  {
    s[..k] + [x] + s[k..]
  }

  /** `a` with its element at index `i` moved left to index `p`, the elements in between one place right. */
  function MoveLeft(a: seq<int>, p: nat, i: nat): (r: seq<int>)
    requires p <= i < |a|
    ensures |r| == |a|
  {
    seq(|a|, k requires 0 <= k < |a| => if k < p || i < k then a[k] else if k == p then a[i] else a[k - 1])
  }

  /**
   * Sorts `arr` in place and returns the number of exchanges of neighbours;
   * the inner loop stops at the first element strictly smaller than the one
   * being inserted, so equal elements are exchanged and counted.
   */
  method InsertionSort(arr: array<int>) returns (sum: int)
    modifies arr
    ensures Sorted(arr[..])
    ensures multiset(arr[..]) == multiset(old(arr[..]))
    ensures sum == Inversions(old(arr[..]))
    ensures arr.Length <= 1 ==> arr[..] == old(arr[..]) && sum == 0
  {
    ghost var orig := arr[..];
    var n := arr.Length;
    sum := 0;
    if n == 0 {
      // the loop below starts at index 1 and would not run
      return;
    }
    ghost var done: seq<int> := [arr[0]];
    assert orig == done + orig[1..];
    var i := 1;
    while i < n
      invariant 1 <= i <= n && |done| == i
      invariant arr[..] == done + orig[i..]
      invariant Sorted(done) && multiset(done) == multiset(orig[..i])
      invariant sum == Inversions(orig[..i])
    {
      ghost var sum0 := sum;
      ghost var a := arr[..];
      Split(a, done, orig, i);
      sum := InsertionPass(arr, i, sum);
      ghost var p := i - (sum - sum0);
      SortedBelow(done, p, orig[i]);
      InsertStep(done, orig[i], p, orig, i);
      Moved(done, orig, i, p);
      done := InsertAt(done, p, orig[i]);
      i := i + 1;
    }
    Whole(done, orig);
  }

  /**
   * The inner loop of the sort on its own: `arr[i]` moves left past every
   * element of the prefix that is at least as large, each exchange adding one
   * to `sum`, and stops in front of the first smaller element or at index 0.
   */
  method InsertionPass(arr: array<int>, i: int, sum0: int) returns (sum: int)
    requires 0 < i < arr.Length
    modifies arr
    ensures sum0 <= sum <= sum0 + i
    ensures var p := i - (sum - sum0);
      && arr[..] == MoveLeft(old(arr[..]), p, i)
      && (forall m :: p <= m < i ==> old(arr[m]) >= old(arr[i]))
      && (p > 0 ==> old(arr[p - 1]) < old(arr[i]))
  {
    ghost var a := arr[..];
    var temp := arr[i];
    sum := sum0;
    var j := i - 1;
    while j >= 0
      invariant -1 <= j <= i - 1
      invariant arr[..] == MoveLeft(a, j + 1, i)
      invariant forall m :: j + 1 <= m < i ==> a[m] >= temp
      invariant sum + j == sum0 + i - 1
    {
      if temp > arr[j] {
        break;
      }
      sum := sum + 1;
      arr[j + 1] := arr[j];
      arr[j] := temp;
      MoveLeftStep(a, j, i);
      j := j - 1;
    }
  }

  /** One exchange of the inner loop moves the inserted element one place further left. */
  lemma MoveLeftStep(a: seq<int>, j: nat, i: nat)
    requires j < i < |a|
    ensures MoveLeft(a, j + 1, i)[j + 1 := a[j]][j := a[i]] == MoveLeft(a, j, i)
  {
  }

  lemma Split(a: seq<int>, done: seq<int>, orig: seq<int>, i: nat)
    requires i < |orig| && |done| == i && a == done + orig[i..]
    ensures forall m :: 0 <= m < i ==> a[m] == done[m]
    ensures a[i] == orig[i]
  {
  }

  /** Moving `orig[i]` into the sorted prefix is inserting it there. */
  lemma Moved(done: seq<int>, orig: seq<int>, i: nat, p: nat)
    requires i < |orig| && |done| == i && p <= i
    ensures MoveLeft(done + orig[i..], p, i) == InsertAt(done, p, orig[i]) + orig[i + 1..]
  {
    var a := done + orig[i..];
    var b := InsertAt(done, p, orig[i]) + orig[i + 1..];
    forall k | 0 <= k < |a| ensures MoveLeft(a, p, i)[k] == b[k] {
      if k < p {
        assert b[k] == done[k];
      } else if k == p {
        assert b[k] == orig[i];
      } else if k <= i {
        assert b[k] == done[k - 1];
      } else {
        assert b[k] == orig[i + 1..][k - i - 1];
      }
    }
  }

  lemma SortedBelow(pre: seq<int>, p: nat, temp: int)
    requires Sorted(pre) && p <= |pre|
    requires 0 < p ==> pre[p - 1] < temp
    ensures forall m :: 0 <= m < p ==> pre[m] < temp
  {
  }

  lemma Whole(done: seq<int>, orig: seq<int>)
    requires |done| == |orig|
    ensures done + orig[|done|..] == done && orig[..|done|] == orig
  {
    assert orig[|done|..] == [];
  }

  /** Inserting `x` between the parts of a sorted sequence that lie below and above it. */
  lemma SortedInsert(low: seq<int>, x: int, high: seq<int>)
    requires Sorted(low + high)
    requires forall m :: 0 <= m < |low| ==> low[m] <= x
    requires forall m :: 0 <= m < |high| ==> x <= high[m]
    ensures Sorted(low + [x] + high)
  {
    var r := low + [x] + high;
    var s := low + high;
    forall p, q | 0 <= p < q < |r| ensures r[p] <= r[q] {
      var n := |low|;
      if q < n {
        assert r[p] == s[p] && r[q] == s[q];
      } else if p > n {
        assert r[p] == s[p - 1] && r[q] == s[q - 1];
      } else if p < n && q > n {
        assert r[p] == s[p] && r[q] == s[q - 1];
      } else if p == n {
        assert r[q] == high[q - n - 1];
      } else {
        assert r[p] == low[p];
      }
    }
  }

  /**
   * What one pass of the outer loop achieves: placing `temp` after the
   * prefix elements smaller than it keeps the prefix sorted, adds `temp` to
   * it, and the pass counts exactly the prefix elements at least `temp`.
   */
  lemma InsertStep(pre: seq<int>, temp: int, p: nat, orig: seq<int>, i: nat)
    requires 0 < i < |orig| && |pre| == i && temp == orig[i]
    requires Sorted(pre) && multiset(pre) == multiset(orig[..i])
    requires p <= i
    requires forall m :: 0 <= m < p ==> pre[m] < temp
    requires forall m :: p <= m < i ==> pre[m] >= temp
    ensures Sorted(InsertAt(pre, p, temp))
    ensures multiset(InsertAt(pre, p, temp)) == multiset(orig[..i + 1])
    ensures Inversions(orig[..i + 1]) == Inversions(orig[..i]) + (i - p)
  {
    assert pre == pre[..p] + pre[p..];
    SortedInsert(pre[..p], temp, pre[p..]);
    InsertMultiset(pre, temp, p, orig, i);
    InsertCount(pre, temp, p, orig, i);
  }

  lemma InsertMultiset(pre: seq<int>, temp: int, p: nat, orig: seq<int>, i: nat)
    requires 0 < i < |orig| && |pre| == i && temp == orig[i] && p <= i
    requires multiset(pre) == multiset(orig[..i])
    ensures multiset(InsertAt(pre, p, temp)) == multiset(orig[..i + 1])
  {
    assert pre == pre[..p] + pre[p..];
    assert orig[..i + 1] == orig[..i] + [temp];
  }

  lemma InsertCount(pre: seq<int>, temp: int, p: nat, orig: seq<int>, i: nat)
    requires 0 < i < |orig| && |pre| == i && temp == orig[i] && p <= i
    requires multiset(pre) == multiset(orig[..i])
    requires forall m :: 0 <= m < p ==> pre[m] < temp
    requires forall m :: p <= m < i ==> pre[m] >= temp
    ensures Inversions(orig[..i + 1]) == Inversions(orig[..i]) + (i - p)
  {
    var low, high := pre[..p], pre[p..];
    assert pre == low + high;
    CountAtLeastNone(low, temp);
    CountAtLeastAll(high, temp);
    CountAtLeastAppend(low, high, temp);
    CountAtLeastPermutation(pre, orig[..i], temp);
    assert orig[..i + 1][..i] == orig[..i];
  }

}
