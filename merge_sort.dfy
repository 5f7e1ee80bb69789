/**
 * Merge sort of the sorting visualizer: top-down, mid point `(left + right) / 2`, with a
 * merge that copies both runs out and writes them back into `a[left..right]`.
 */
module MergeSorting {
  import opened SortStats
  import opened SortSpec

  /** The merge of two runs, taking from the left run on ties (`leftArr[i] <= rightArr[j]`). */
  function MergeRuns(l: seq<int>, r: seq<int>): (m: seq<int>)
    ensures |m| == |l| + |r|
    decreases |l| + |r|
  {
    if l == [] then r
    else if r == [] then l
    else if l[0] <= r[0] then [l[0]] + MergeRuns(l[1..], r)
    else [r[0]] + MergeRuns(l, r[1..])
  }

  /** Rounds of the merge loop while both runs are non-empty: one comparison and one write each. */
  function MergeSteps(l: seq<int>, r: seq<int>): nat
    decreases |l| + |r|
  {
    if l == [] || r == [] then 0
    else if l[0] <= r[0] then 1 + MergeSteps(l[1..], r)
    else 1 + MergeSteps(l, r[1..])
  }

  /** The merge keeps every element of both runs and nothing else. */
  lemma {:induction false} MergeRunsPermutation(l: seq<int>, r: seq<int>)
    ensures multiset(MergeRuns(l, r)) == multiset(l) + multiset(r)
    decreases |l| + |r|
  {
    if l == [] || r == [] {
    } else if l[0] <= r[0] {
      var m := MergeRuns(l[1..], r);
      MergeRunsPermutation(l[1..], r);
      assert MergeRuns(l, r) == [l[0]] + m;
      assert multiset([l[0]] + m) == multiset([l[0]]) + multiset(m);
      assert l == [l[0]] + l[1..];
      assert multiset(l) == multiset([l[0]]) + multiset(l[1..]);
    } else {
      var m := MergeRuns(l, r[1..]);
      MergeRunsPermutation(l, r[1..]);
      assert MergeRuns(l, r) == [r[0]] + m;
      assert multiset([r[0]] + m) == multiset([r[0]]) + multiset(m);
      assert r == [r[0]] + r[1..];
      assert multiset(r) == multiset([r[0]]) + multiset(r[1..]);
    }
  }

  /** Every element of the merge is at least `x` when every element of both runs is. */
  lemma {:induction false} MergeRunsAbove(l: seq<int>, r: seq<int>, x: int)
    requires forall k :: 0 <= k < |l| ==> x <= l[k]
    requires forall k :: 0 <= k < |r| ==> x <= r[k]
    ensures forall k :: 0 <= k < |MergeRuns(l, r)| ==> x <= MergeRuns(l, r)[k]
    decreases |l| + |r|
  {
    if l == [] || r == [] {
    } else if l[0] <= r[0] {
      MergeRunsAbove(l[1..], r, x);
    } else {
      MergeRunsAbove(l, r[1..], x);
    }
  }

  /** Merging two sorted runs gives a sorted run. */
  lemma {:induction false} MergeRunsSorted(l: seq<int>, r: seq<int>)
    requires Sorted(l) && Sorted(r)
    ensures Sorted(MergeRuns(l, r))
    decreases |l| + |r|
  {
    if l == [] || r == [] {
    } else if l[0] <= r[0] {
      MergeRunsSorted(l[1..], r);
      MergeRunsAbove(l[1..], r, l[0]);
    } else {
      MergeRunsSorted(l, r[1..]);
      MergeRunsAbove(l, r[1..], r[0]);
    }
  }

  /**
   * The merge loop runs at least as many rounds as the shorter run is long and at most
   * one fewer than the two runs together.
   */
  lemma {:induction false} MergeStepsBounds(l: seq<int>, r: seq<int>)
    ensures MergeSteps(l, r) <= |l| + |r|
    ensures l != [] && r != [] ==> MergeSteps(l, r) <= |l| + |r| - 1
    ensures MergeSteps(l, r) >= if |l| < |r| then |l| else |r|
    decreases |l| + |r|
  {
    if l == [] || r == [] {
    } else if l[0] <= r[0] {
      MergeStepsBounds(l[1..], r);
    } else {
      MergeStepsBounds(l, r[1..]);
    }
  }

  /**
   * When every element of the left run is at most every element of the right one (an
   * already sorted segment), the merge is the concatenation and the loop makes exactly
   * `|l|` comparisons.
   */
  lemma {:induction false} MergeRunsOrdered(l: seq<int>, r: seq<int>)
    requires AllLe(l, r)
    ensures MergeRuns(l, r) == l + r
    ensures MergeSteps(l, r) == if r == [] then 0 else |l|
    decreases |l| + |r|
  {
    if l == [] || r == [] {
    } else {
      assert l[0] <= r[0];
      assert AllLe(l[1..], r) by {
        forall k, m | 0 <= k < |l[1..]| && 0 <= m < |r| ensures l[1..][k] <= r[m] {
          assert l[1..][k] == l[k + 1];
        }
      }
      MergeRunsOrdered(l[1..], r);
      assert [l[0]] + (l[1..] + r) == l + r;
    }
  }

  /** One round of the merge loop, read off the suffixes `l[i..]` and `r[j..]`. */
  lemma MergeStep(l: seq<int>, r: seq<int>, i: int, j: int)
    requires 0 <= i < |l| && 0 <= j < |r|
    ensures l[i] <= r[j] ==> MergeRuns(l[i..], r[j..]) == [l[i]] + MergeRuns(l[i + 1..], r[j..])
    ensures l[i] <= r[j] ==> MergeSteps(l[i..], r[j..]) == 1 + MergeSteps(l[i + 1..], r[j..])
    ensures r[j] < l[i] ==> MergeRuns(l[i..], r[j..]) == [r[j]] + MergeRuns(l[i..], r[j + 1..])
    ensures r[j] < l[i] ==> MergeSteps(l[i..], r[j..]) == 1 + MergeSteps(l[i..], r[j + 1..])
  {
    assert l[i..][0] == l[i] && l[i..][1..] == l[i + 1..];
    assert r[j..][0] == r[j] && r[j..][1..] == r[j + 1..];
  }

  /** One round of the merge loop writes the next element of the merge `m` of `l` and `r`. */
  lemma MergeAdvance(l: seq<int>, r: seq<int>, i: int, j: int, m: seq<int>)
    requires 0 <= i < |l| && 0 <= j < |r| && |m| == |l| + |r|
    requires MergeRuns(l[i..], r[j..]) == m[i + j..]
    ensures l[i] <= r[j] ==> m[i + j] == l[i] && MergeRuns(l[i + 1..], r[j..]) == m[i + j + 1..]
    ensures l[i] <= r[j] ==> MergeSteps(l[i..], r[j..]) == 1 + MergeSteps(l[i + 1..], r[j..])
    ensures r[j] < l[i] ==> m[i + j] == r[j] && MergeRuns(l[i..], r[j + 1..]) == m[i + j + 1..]
    ensures r[j] < l[i] ==> MergeSteps(l[i..], r[j..]) == 1 + MergeSteps(l[i..], r[j + 1..])
  {
    MergeStep(l, r, i, j);
    assert m[i + j..][0] == m[i + j] && m[i + j..][1..] == m[i + j + 1..];
  }

  /**
   * `merge(arr, left, mid, right)`: the segment `a[left..right]` becomes the merge of the
   * runs `a[left..mid]` and `a[mid+1..right]` as they were; each round of the main loop
   * counts one comparison and one swap, the two copy loops for the leftover run count none.
   */
  method Merge(a: array<int>, left: int, mid: int, right: int, stats: Stats) returns (stats': Stats)
    requires 0 <= left <= mid < right < a.Length
    modifies a
    ensures a[left..right + 1] == MergeRuns(old(a[left..mid + 1]), old(a[mid + 1..right + 1]))
    ensures forall t :: 0 <= t < a.Length && (t < left || right < t) ==> a[t] == old(a[t])
    ensures stats'.comparisons == stats.comparisons + MergeSteps(old(a[left..mid + 1]), old(a[mid + 1..right + 1]))
    ensures stats'.swaps == stats.swaps + MergeSteps(old(a[left..mid + 1]), old(a[mid + 1..right + 1]))
    ensures stats'.time == stats.time
  {
    var leftArr := a[left..mid + 1];
    var rightArr := a[mid + 1..right + 1];
    ghost var m := MergeRuns(leftArr, rightArr);
    var i, j;
    i, j, stats' := MergeMain(a, leftArr, rightArr, left, stats);
    LeftoverRun(leftArr, rightArr, i, j, m);
    var k := CopyRun(a, leftArr, i, left + i + j);
    ghost var k1 := k;
    k := CopyRun(a, rightArr, j, k);
    forall t | left <= t <= right
      ensures a[t] == m[t - left]
    {
      if t >= k1 {
        assert a[t] == rightArr[t - k1 + j];
      }
    }
    assert a[left..right + 1] == m;
  }

  /**
   * The main loop of `merge`: while both runs have elements left, the smaller head (the
   * left one on ties) is written at `k`, with one comparison and one swap counted.
   */
  method MergeMain(a: array<int>, l: seq<int>, r: seq<int>, left: int, stats: Stats)
    returns (i: int, j: int, stats': Stats)
    requires 0 <= left && left + |l| + |r| <= a.Length
    modifies a
    ensures 0 <= i <= |l| && 0 <= j <= |r| && (i == |l| || j == |r|)
    ensures MergeRuns(l[i..], r[j..]) == MergeRuns(l, r)[i + j..]
    ensures forall t :: left <= t < left + i + j ==> a[t] == MergeRuns(l, r)[t - left]
    ensures forall t :: 0 <= t < a.Length && (t < left || left + i + j <= t) ==> a[t] == old(a[t])
    ensures stats'.comparisons == stats.comparisons + MergeSteps(l, r)
    ensures stats'.swaps == stats.swaps + MergeSteps(l, r)
    ensures stats'.time == stats.time
  {
    ghost var m := MergeRuns(l, r);
    ghost var steps := MergeSteps(l, r);
    stats' := stats;
    i, j := 0, 0;
    var k := left;
    while i < |l| && j < |r|
      invariant 0 <= i <= |l| && 0 <= j <= |r| && k == left + i + j
      invariant MergeRuns(l[i..], r[j..]) == m[i + j..]
      invariant forall t :: left <= t < k ==> a[t] == m[t - left]
      invariant forall t :: 0 <= t < a.Length && (t < left || k <= t) ==> a[t] == old(a[t])
      invariant stats'.comparisons == stats.comparisons + steps - MergeSteps(l[i..], r[j..])
      invariant stats'.swaps == stats.swaps + steps - MergeSteps(l[i..], r[j..])
      invariant stats'.time == stats.time
    {
      MergeAdvance(l, r, i, j, m);
      stats' := UpdateStats(stats', Comparisons);
      if l[i] <= r[j] {
        a[k] := l[i];
        i := i + 1;
      } else {
        a[k] := r[j];
        j := j + 1;
      }
      stats' := UpdateStats(stats', Swaps);
      k := k + 1;
    }
    assert MergeSteps(l[i..], r[j..]) == 0;
  }

  /** A leftover loop of `merge`: copies `run[i..]` to `a[k..]`, counting nothing. */
  method CopyRun(a: array<int>, run: seq<int>, i: int, k: int) returns (k': int)
    requires 0 <= i <= |run| && 0 <= k && k + |run| - i <= a.Length
    modifies a
    ensures k' == k + |run| - i
    ensures forall t :: k <= t < k' ==> a[t] == run[t - k + i]
    ensures forall t :: 0 <= t < a.Length && (t < k || k' <= t) ==> a[t] == old(a[t])
  {
    var n := i;
    k' := k;
    while n < |run|
      invariant i <= n <= |run| && k' == k + n - i
      invariant forall t :: k <= t < k' ==> a[t] == run[t - k + i]
      invariant forall t :: 0 <= t < a.Length && (t < k || k' <= t) ==> a[t] == old(a[t])
    {
      a[k'] := run[n];
      n := n + 1;
      k' := k' + 1;
    }
  }

  /**
   * `mergeSort(arr, left, right)`: sorts `a[left..right]` in place, leaving the rest of the
   * array alone; a segment of fewer than two elements is returned as it is. Every counted
   * comparison is matched by a counted swap.
   */
  method MergeSort(a: array<int>, left: int, right: int, stats: Stats) returns (stats': Stats)
    requires 0 <= left <= right + 1 <= a.Length
    modifies a
    ensures Sorted(a[left..right + 1])
    ensures multiset(a[left..right + 1]) == multiset(old(a[left..right + 1]))
    ensures forall t :: 0 <= t < a.Length && (t < left || right < t) ==> a[t] == old(a[t])
    ensures stats'.comparisons - stats.comparisons == stats'.swaps - stats.swaps
    ensures NoLess(stats', stats)
    decreases right - left
  {
    stats' := stats;
    if left >= right {
      return;
    }
    var mid := (left + right) / 2;
    ghost var s0 := a[..];
    stats' := MergeSort(a, left, mid, stats');
    ghost var s1 := a[..];
    stats' := MergeSort(a, mid + 1, right, stats');
    ghost var s2 := a[..];
    SegmentsAfterSorts(s0, s1, s2, left, mid, right);
    stats' := Merge(a, left, mid, right, stats');
    MergeRunsSorted(s2[left..mid + 1], s2[mid + 1..right + 1]);
    MergeRunsPermutation(s2[left..mid + 1], s2[mid + 1..right + 1]);
  }

  /**
   * Bookkeeping between the two recursive calls of `MergeSort`: the first run is sorted
   * and permuted by the first call and left alone by the second, and so on.
   */
  lemma SegmentsAfterSorts(s0: seq<int>, s1: seq<int>, s2: seq<int>, left: int, mid: int, right: int)
    requires 0 <= left <= mid < right < |s0| == |s1| == |s2|
    requires Sorted(s1[left..mid + 1]) && multiset(s1[left..mid + 1]) == multiset(s0[left..mid + 1])
    requires forall t :: 0 <= t < |s0| && (t < left || mid < t) ==> s1[t] == s0[t]
    requires Sorted(s2[mid + 1..right + 1]) && multiset(s2[mid + 1..right + 1]) == multiset(s1[mid + 1..right + 1])
    requires forall t :: 0 <= t < |s1| && (t < mid + 1 || right < t) ==> s2[t] == s1[t]
    ensures Sorted(s2[left..mid + 1])
    ensures multiset(s2[left..mid + 1]) + multiset(s2[mid + 1..right + 1]) == multiset(s0[left..right + 1])
    ensures forall t :: 0 <= t < |s0| && (t < left || right < t) ==> s2[t] == s0[t]
  {
    assert s2[left..mid + 1] == s1[left..mid + 1];
    assert s1[mid + 1..right + 1] == s0[mid + 1..right + 1];
    assert s0[left..right + 1] == s0[left..mid + 1] + s0[mid + 1..right + 1];
  }

  /** `mergeSort(arr)` with its default bounds `0` and `arr.length - 1`. */
  method MergeSortAll(a: array<int>, stats: Stats) returns (stats': Stats)
    modifies a
    ensures Sorted(a[..]) && multiset(a[..]) == multiset(old(a[..]))
    ensures stats'.comparisons - stats.comparisons == stats'.swaps - stats.swaps
    ensures NoLess(stats', stats)
  {
    ghost var s0 := a[..];
    assert s0[0..a.Length] == s0;
    stats' := MergeSort(a, 0, a.Length - 1, stats);
    assert a[..] == a[0..a.Length];
  }

  /** Once one run is used up, the rest of the merge is the rest of the other run. */
  lemma LeftoverRun(l: seq<int>, r: seq<int>, i: int, j: int, m: seq<int>)
    requires 0 <= i <= |l| && 0 <= j <= |r| && (i == |l| || j == |r|)
    requires |m| == |l| + |r|
    requires MergeRuns(l[i..], r[j..]) == m[i + j..]
    ensures forall t :: i <= t < |l| ==> m[t + j] == l[t]
    ensures forall t :: j <= t < |r| ==> m[i + t] == r[t]
  {
    if i == |l| {
      assert r[j..] == m[i + j..];
      forall t | j <= t < |r| ensures m[i + t] == r[t] {
        assert r[j..][t - j] == m[i + j..][t - j];
      }
    } else {
      assert l[i..] == m[i + j..];
      forall t | i <= t < |l| ensures m[t + j] == l[t] {
        assert l[i..][t - i] == m[i + j..][t - i];
      }
    }
  }
}
