/**
 * Bubble, selection and insertion sort of the sorting visualizer. Each sorts the
 * working array in place and bumps the statistics exactly where the visualizer does.
 * The inner loop of each is written as a helper method of its own.
 */
module SimpleSorts {
  import opened SortStats
  import opened SortSpec

  /** Comparisons made by the first `i` passes of a scan over `n` elements: n-1, n-2, ... */
  function PassComparisons(n: int, i: nat): int
  {
    if i == 0 then 0 else PassComparisons(n, i - 1) + (n - i)
  }

  /** The n-1 passes of bubble and selection sort compare n(n-1)/2 times in all. */
  lemma {:induction false} PassComparisonsTotal(n: int, i: nat)
    ensures 2 * PassComparisons(n, i) == i * (2 * n - i - 1)
  {
    if i > 0 {
      PassComparisonsTotal(n, i - 1);
    }
  }

  /** All passes of a run over `n` elements: `(n-1) + ... + 1 == n(n-1)/2`. */
  lemma AllPassComparisons(n: nat)
    ensures PassComparisons(n, if n == 0 then 0 else n - 1) == n * (n - 1) / 2
  {
    if n > 0 {
      PassComparisonsTotal(n, n - 1);
      assert (n - 1) * (2 * n - (n - 1) - 1) == n * (n - 1);
    }
  }

  /**
   * `bubbleSort`: n-1 passes of adjacent compare-and-swap. Every inner step counts one
   * comparison, so a run of length n counts n(n-1)/2 of them whatever the input is; every
   * swap removes one inversion, so the swaps counted are the inversions of the input.
   */
  method BubbleSort(a: array<int>, stats: Stats) returns (stats': Stats)
    modifies a
    ensures Sorted(a[..]) && multiset(a[..]) == multiset(old(a[..]))
    ensures stats'.comparisons == stats.comparisons + a.Length * (a.Length - 1) / 2
    ensures stats'.swaps == stats.swaps + Inversions(old(a[..]))
    ensures NoLess(stats', stats)
  {
    var n := a.Length;
    stats' := stats;
    var i := 0;
    while i < n - 1
      invariant 0 <= i <= n && (n > 0 ==> i <= n - 1)
      invariant SuffixFinal(a[..], n - i)
      invariant multiset(a[..]) == multiset(old(a[..]))
      invariant stats'.comparisons == stats.comparisons + PassComparisons(n, i)
      invariant stats'.swaps + Inversions(a[..]) == stats.swaps + Inversions(old(a[..]))
      invariant NoLess(stats', stats)
    {
      stats' := BubblePass(a, n - i, stats');
      i := i + 1;
    }
    assert i == if n == 0 then 0 else n - 1;
    AllPassComparisons(n);
    SortedInversions(a[..]);
  }

  /**
   * One pass of bubble sort over `a[..m)`: compares every adjacent pair (m-1 comparisons)
   * and swaps a pair, counting one swap, only when `a[j] > a[j+1]`. The largest element
   * of the prefix ends at `m-1`.
   */
  method BubblePass(a: array<int>, m: int, stats: Stats) returns (stats': Stats)
    requires 2 <= m <= a.Length
    requires SuffixFinal(a[..], m)
    modifies a
    ensures SuffixFinal(a[..], m - 1)
    ensures multiset(a[..]) == multiset(old(a[..]))
    ensures stats'.comparisons == stats.comparisons + (m - 1)
    ensures stats'.swaps + Inversions(a[..]) == stats.swaps + Inversions(old(a[..]))
    ensures NoLess(stats', stats)
  {
    stats' := stats;
    var j := 0;
    while j < m - 1
      invariant 0 <= j <= m - 1
      invariant forall k :: 0 <= k <= j ==> a[k] <= a[j]
      invariant SuffixFinal(a[..], m)
      invariant multiset(a[..]) == multiset(old(a[..]))
      invariant stats'.comparisons == stats.comparisons + j
      invariant stats'.swaps + Inversions(a[..]) == stats.swaps + Inversions(old(a[..]))
      invariant NoLess(stats', stats)
    {
      stats' := BubbleStep(a, j, m, stats');
      j := j + 1;
    }
  }

  /**
   * One inner step of bubble sort: compare `a[j]` with `a[j+1]` and swap them when they are
   * out of order, carrying the largest element of `a[..j+1]` on to `j+1`.
   */
  method BubbleStep(a: array<int>, j: int, m: int, stats: Stats) returns (stats': Stats)
    requires 0 <= j < m - 1 && m <= a.Length
    requires forall k :: 0 <= k <= j ==> a[k] <= a[j]
    requires SuffixFinal(a[..], m)
    modifies a
    ensures forall k :: 0 <= k <= j + 1 ==> a[k] <= a[j + 1]
    ensures SuffixFinal(a[..], m)
    ensures multiset(a[..]) == multiset(old(a[..]))
    ensures stats'.comparisons == stats.comparisons + 1
    ensures stats'.swaps + Inversions(a[..]) == stats.swaps + Inversions(old(a[..]))
    ensures NoLess(stats', stats)
  {
    stats' := UpdateStats(stats, Comparisons);
    if a[j] > a[j + 1] {
      stats' := UpdateStats(stats', Swaps);
      SwapOutOfOrder(a, j);
    }
  }

  /** The swap of an out-of-order adjacent pair, which removes one inversion of the array. */
  method SwapOutOfOrder(a: array<int>, j: int)
    requires 0 <= j < a.Length - 1 && a[j] > a[j + 1]
    modifies a
    ensures a[j] == old(a[j + 1]) && a[j + 1] == old(a[j])
    ensures forall k :: 0 <= k < a.Length && k != j && k != j + 1 ==> a[k] == old(a[k])
    ensures multiset(a[..]) == multiset(old(a[..]))
    ensures Inversions(a[..]) + 1 == Inversions(old(a[..]))
  {
    AdjacentSwap(a[..], j);
    Swap(a, j, j + 1);
    assert a[..] == SwapAt(old(a[..]), j);
  }

  /**
   * `selectionSort`: pass i scans `a[i+1..n)` for the minimum (n-1-i comparisons, n(n-1)/2
   * in all) and swaps it into place only when `minIdx != i`, so at most one swap is
   * counted per pass.
   */
  method SelectionSort(a: array<int>, stats: Stats) returns (stats': Stats)
    modifies a
    ensures Sorted(a[..]) && multiset(a[..]) == multiset(old(a[..]))
    ensures stats'.comparisons == stats.comparisons + a.Length * (a.Length - 1) / 2
    ensures stats'.swaps <= stats.swaps + (if a.Length == 0 then 0 else a.Length - 1)
    ensures NoLess(stats', stats)
  {
    var n := a.Length;
    stats' := stats;
    var i := 0;
    while i < n - 1
      invariant 0 <= i <= n && (n > 0 ==> i <= n - 1)
      invariant PrefixFinal(a[..], i)
      invariant multiset(a[..]) == multiset(old(a[..]))
      invariant stats'.comparisons == stats.comparisons + PassComparisons(n, i)
      invariant stats'.swaps <= stats.swaps + i
      invariant NoLess(stats', stats)
    {
      var minIdx;
      minIdx, stats' := FindMin(a, i, stats');
      if minIdx != i {
        stats' := UpdateStats(stats', Swaps);
        Swap(a, i, minIdx);
      }
      i := i + 1;
    }
    assert i == if n == 0 then 0 else n - 1;
    AllPassComparisons(n);
  }

  /**
   * The scan of one selection-sort pass: the index of the first minimum of `a[i..]`, one
   * comparison per element after `i`. The strict `<` keeps the leftmost of equal minima,
   * so `minIdx == i` exactly when `a[i]` is already a minimum and no swap follows.
   */
  method FindMin(a: array<int>, i: int, stats: Stats) returns (minIdx: int, stats': Stats)
    requires 0 <= i < a.Length
    ensures i <= minIdx < a.Length
    ensures forall k :: i <= k < a.Length ==> a[minIdx] <= a[k]
    ensures forall k :: i <= k < minIdx ==> a[k] > a[minIdx]
    ensures stats'.comparisons == stats.comparisons + (a.Length - 1 - i)
    ensures stats'.swaps == stats.swaps && stats'.time == stats.time
  {
    stats' := stats;
    minIdx := i;
    var j := i + 1;
    while j < a.Length
      invariant i + 1 <= j <= a.Length && i <= minIdx < j
      invariant forall k :: i <= k < j ==> a[minIdx] <= a[k]
      invariant forall k :: i <= k < minIdx ==> a[k] > a[minIdx]
      invariant stats'.comparisons == stats.comparisons + (j - i - 1)
      invariant stats'.swaps == stats.swaps && stats'.time == stats.time
    {
      stats' := UpdateStats(stats', Comparisons);
      if a[j] < a[minIdx] {
        minIdx := j;
      }
      j := j + 1;
    }
  }

  /**
   * `insertionSort`: each element is shifted left past the larger elements of the sorted
   * prefix. The loop test that fails is not counted, and every counted comparison is
   * followed by exactly one counted shift; each shift undoes one inversion, so both
   * counters grow by the number of inversions of the input.
   */
  method InsertionSort(a: array<int>, stats: Stats) returns (stats': Stats)
    modifies a
    ensures Sorted(a[..]) && multiset(a[..]) == multiset(old(a[..]))
    ensures stats'.comparisons == stats.comparisons + Inversions(old(a[..]))
    ensures stats'.swaps == stats.swaps + Inversions(old(a[..]))
    ensures stats'.time == stats.time
  {
    var n := a.Length;
    stats' := stats;
    var i := 1;
    while i < n
      invariant 1 <= i && (n > 0 ==> i <= n)
      invariant Sorted(a[..if i <= n then i else n])
      invariant multiset(a[..]) == multiset(old(a[..]))
      invariant stats'.comparisons + Inversions(a[..]) == stats.comparisons + Inversions(old(a[..]))
      invariant stats'.swaps + Inversions(a[..]) == stats.swaps + Inversions(old(a[..]))
      invariant stats'.time == stats.time
    {
      stats' := Insert(a, i, stats');
      i := i + 1;
    }
    SortedInversions(a[..]);
  }

  /**
   * One insertion step: `a[i]` is taken out as `key` and the larger elements of the sorted
   * prefix `a[..i]` shift right one place each, a comparison and a swap counted per shift.
   */
  method Insert(a: array<int>, i: int, stats: Stats) returns (stats': Stats)
    requires 1 <= i < a.Length
    requires Sorted(a[..i])
    modifies a
    ensures Sorted(a[..i + 1])
    ensures forall k :: i < k < a.Length ==> a[k] == old(a[k])
    ensures multiset(a[..]) == multiset(old(a[..]))
    ensures stats'.comparisons + Inversions(a[..]) == stats.comparisons + Inversions(old(a[..]))
    ensures stats'.swaps + Inversions(a[..]) == stats.swaps + Inversions(old(a[..]))
    ensures stats'.time == stats.time
  {
    ghost var b := a[..];
    SortedPrefix(b, i);
    var key := a[i];
    var j;
    j, stats' := ShiftLarger(a, i, key, stats);
    a[j + 1] := key;
    InsertedStep(b, a[..], j, i);
  }

  /**
   * What `Insert` proves about the array `c` it leaves behind: `b` with `b[i]` moved down to
   * slot `j+1`, where the shifting stopped.
   */
  lemma InsertedStep(b: seq<int>, c: seq<int>, j: int, i: int)
    requires -1 <= j < i < |b| == |c|
    requires SortedBelow(b, i)
    requires forall k :: j + 1 <= k < i ==> b[k] > b[i]
    requires j == -1 || b[j] <= b[i]
    requires forall k :: 0 <= k <= j ==> c[k] == b[k]
    requires c[j + 1] == b[i]
    requires forall k :: j + 1 < k <= i ==> c[k] == b[k - 1]
    requires forall k :: i < k < |c| ==> c[k] == b[k]
    ensures Sorted(c[..i + 1])
    ensures multiset(c) == multiset(b)
    ensures Inversions(c) + (i - 1 - j) == Inversions(b)
  {
    forall m | 0 <= m < |c|
      ensures c[m] == Inserted(b, j, i)[m]
    {
      InsertedAt(b, j, i, m);
    }
    assert c == Inserted(b, j, i);
    InsertedSorted(b, j, i);
    InsertedFrame(b, j, i);
    InsertedInversions(b, j, i);
  }

  /**
   * The `while` loop of one insertion step: walking left from `i-1`, every element above
   * `key` moves one place right, a comparison and a swap counted per move. It stops at the
   * first element not above `key` (or below index 0) and returns that index `j`; slot
   * `j+1` is then free for `key`.
   */
  method ShiftLarger(a: array<int>, i: int, key: int, stats: Stats) returns (j: int, stats': Stats)
    requires 1 <= i < a.Length
    modifies a
    ensures -1 <= j <= i - 1
    ensures forall k :: 0 <= k <= j + 1 ==> a[k] == old(a[k])
    ensures forall k :: j + 1 < k <= i ==> a[k] == old(a[k - 1])
    ensures forall k :: i < k < a.Length ==> a[k] == old(a[k])
    ensures forall k :: j + 1 <= k < i ==> old(a[k]) > key
    ensures j == -1 || old(a[j]) <= key
    ensures stats'.comparisons == stats.comparisons + (i - 1 - j)
    ensures stats'.swaps == stats.swaps + (i - 1 - j)
    ensures stats'.time == stats.time
  {
    stats' := stats;
    j := i - 1;
    while j >= 0 && a[j] > key
      invariant -1 <= j <= i - 1
      invariant forall k :: 0 <= k <= j + 1 ==> a[k] == old(a[k])
      invariant forall k :: j + 1 < k <= i ==> a[k] == old(a[k - 1])
      invariant forall k :: i < k < a.Length ==> a[k] == old(a[k])
      invariant forall k :: j + 1 <= k < i ==> old(a[k]) > key
      invariant stats'.comparisons == stats.comparisons + (i - 1 - j)
      invariant stats'.swaps == stats.swaps + (i - 1 - j)
      invariant stats'.time == stats.time
    {
      stats' := UpdateStats(stats', Comparisons);
      a[j + 1] := a[j];
      stats' := UpdateStats(stats', Swaps);
      j := j - 1;
    }
  }

  /** `s[..n]` is sorted, stated on the indices of `s` itself. */
  ghost predicate SortedBelow(s: seq<int>, n: int)
  {
    forall k, l :: 0 <= k < l < n && l < |s| ==> s[k] <= s[l]
  }

  lemma SortedPrefix(s: seq<int>, n: int)
    requires 0 <= n <= |s| && Sorted(s[..n])
    ensures SortedBelow(s, n)
  {
    forall k, l | 0 <= k < l < n ensures s[k] <= s[l] {
      assert s[..n][k] == s[k] && s[..n][l] == s[l];
    }
  }

  /** `b` with `b[i]` moved down to slot `j+1`: the array `Insert` leaves behind. */
  ghost function Inserted(b: seq<int>, j: int, i: int): (r: seq<int>)
    requires -1 <= j < i < |b|
    ensures |r| == |b|
  {
    b[..j + 1] + [b[i]] + b[j + 1..i] + b[i + 1..]
  }

  lemma InsertedAt(b: seq<int>, j: int, i: int, m: int)
    requires -1 <= j < i < |b| && 0 <= m < |b|
    ensures m <= j ==> Inserted(b, j, i)[m] == b[m]
    ensures m == j + 1 ==> Inserted(b, j, i)[m] == b[i]
    ensures j + 1 < m <= i ==> Inserted(b, j, i)[m] == b[m - 1]
    ensures i < m ==> Inserted(b, j, i)[m] == b[m]
  {
  }

  /**
   * When the shifting stops (every element of `b[j+1..i)` is above `b[i]`, and `b[j]` is not),
   * the prefix `..i+1` of `Inserted` is sorted.
   */
  lemma InsertedSorted(b: seq<int>, j: int, i: int)
    requires -1 <= j < i < |b|
    requires SortedBelow(b, i)
    requires forall k :: j + 1 <= k < i ==> b[k] > b[i]
    requires j == -1 || b[j] <= b[i]
    ensures Sorted(Inserted(b, j, i)[..i + 1])
  {
    var t := Inserted(b, j, i);
    forall k, l | 0 <= k < l <= i ensures t[k] <= t[l] {
      InsertedAt(b, j, i, k);
      InsertedAt(b, j, i, l);
      if k <= j && l > j + 1 {
        assert b[k] <= b[j];
      }
    }
    var c := t[..i + 1];
    forall k, l | 0 <= k < l < |c| ensures c[k] <= c[l] {
      assert c[k] == t[k] && c[l] == t[l];
    }
  }

  /**
   * Moving `b[i]` down past the `i-1-j` larger elements before it undoes exactly one
   * inversion per element passed.
   */
  lemma {:induction false} InsertedInversions(b: seq<int>, j: int, i: int)
    requires -1 <= j < i < |b|
    requires forall k :: j + 1 <= k < i ==> b[k] > b[i]
    ensures Inversions(Inserted(b, j, i)) + (i - 1 - j) == Inversions(b)
    decreases i - j
  {
    if j < i - 1 {
      var b' := SwapAt(b, i - 1);
      AdjacentSwap(b, i - 1);
      InsertedSwap(b, j, i);
      InsertedInversions(b', j, i - 1);
    } else {
      assert Inserted(b, j, i) == b;
    }
  }

  /** Moving `b[i]` down to `j+1` is swapping it with `b[i-1]`, then moving it on from `i-1`. */
  lemma InsertedSwap(b: seq<int>, j: int, i: int)
    requires -1 <= j < i - 1 && i < |b|
    ensures Inserted(SwapAt(b, i - 1), j, i - 1) == Inserted(b, j, i)
  {
    var b' := SwapAt(b, i - 1);
    var x, y, z := b[..j + 1], b[j + 1..i - 1], b[i + 1..];
    assert b'[..j + 1] == x && b'[j + 1..i - 1] == y && b'[i - 1] == b[i];
    assert b'[i..] == [b[i - 1]] + z;
    assert b[j + 1..i] == y + [b[i - 1]];
    assert Inserted(b', j, i - 1) == x + [b[i]] + y + ([b[i - 1]] + z);
    assert Inserted(b, j, i) == x + [b[i]] + (y + [b[i - 1]]) + z;
  }

  /** `Inserted` permutes `b`. */
  lemma InsertedFrame(b: seq<int>, j: int, i: int)
    requires -1 <= j < i < |b|
    ensures multiset(Inserted(b, j, i)) == multiset(b)
  {
    var x, y, z := b[..j + 1], b[j + 1..i], b[i + 1..];
    assert Inserted(b, j, i) == x + [b[i]] + y + z;
    assert b == x + y + [b[i]] + z;
  }
}
