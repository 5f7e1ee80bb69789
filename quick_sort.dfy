/**
 * Quick sort of the sorting visualizer: Lomuto partition around the last element of the
 * segment, then the two sides on either side of the pivot recursively.
 */
module QuickSorting {
  import opened SortStats
  import opened SortSpec

  /**
   * `partition(arr, low, high)`: with `pivot = a[high]`, every element below the pivot is
   * moved to the front of the segment and the pivot is swapped in right after them; the
   * returned index `p` holds the pivot, everything in `a[low..p)` is below it and everything
   * in `a(p..high]` is at least it. Each `j` in `[low, high)` counts one comparison; a swap
   * is counted only when it moves an element (`i != j`), and the final swap of the pivot is
   * not counted. So of the `p - low` elements below the pivot, those of the leading run
   * below it stay in place uncounted and every other one costs one swap.
   */
  method Partition(a: array<int>, low: int, high: int, stats: Stats) returns (p: int, stats': Stats)
    requires 0 <= low < high < a.Length
    modifies a
    ensures low <= p <= high
    ensures a[p] == old(a[high])
    ensures forall k :: low <= k < p ==> a[k] < a[p]
    ensures forall k :: p < k <= high ==> a[p] <= a[k]
    ensures forall k :: 0 <= k < a.Length && (k < low || high < k) ==> a[k] == old(a[k])
    ensures multiset(a[..]) == multiset(old(a[..]))
    ensures stats'.comparisons == stats.comparisons + (high - low)
    ensures stats.swaps <= stats'.swaps <= stats.swaps + (p - low)
    ensures stats'.swaps == stats.swaps + (p - low) - BelowRun(old(a[low..high]), old(a[high]))
    ensures stats'.time == stats.time
  {
    var pivot := a[high];
    ghost var s0 := a[low..high];
    ghost var run := BelowRun(s0, pivot);
    BelowRunLength(s0, pivot);
    stats' := stats;
    var i := low - 1;
    var j := low;
    while j < high
      invariant low - 1 <= i < j <= high
      invariant a[high] == pivot
      invariant forall k :: low <= k <= i ==> a[k] < pivot
      invariant forall k :: i < k < j ==> pivot <= a[k]
      invariant forall k :: 0 <= k < a.Length && (k < low || high < k) ==> a[k] == old(a[k])
      invariant multiset(a[..]) == multiset(old(a[..]))
      invariant stats'.comparisons == stats.comparisons + (j - low)
      invariant forall k :: j <= k < high ==> a[k] == s0[k - low]
      invariant j - low <= run ==> i + 1 == j && stats'.swaps == stats.swaps
      invariant run < j - low ==> run <= i + 1 - low && i + 1 < j
      invariant run < j - low ==> stats'.swaps + run == stats.swaps + (i + 1 - low)
      invariant stats'.time == stats.time
    {
      BelowRunAt(s0, pivot, j - low);
      i, stats' := PartitionStep(a, low, high, i, j, stats');
      j := j + 1;
    }
    Swap(a, i + 1, high);
    p := i + 1;
  }

  /**
   * One turn of the partition loop: a comparison of `a[j]` with the pivot `a[high]`; an
   * element below it goes to `i+1`, a swap counted only when that moves it.
   */
  method PartitionStep(a: array<int>, low: int, high: int, i: int, j: int, stats: Stats) returns (i': int, stats': Stats)
    requires 0 <= low <= i + 1 <= j < high < a.Length
    requires forall k :: low <= k <= i ==> a[k] < a[high]
    requires forall k :: i < k < j ==> a[high] <= a[k]
    modifies a
    ensures old(a[j]) < a[high] ==> i' == i + 1
    ensures a[high] <= old(a[j]) ==> i' == i
    ensures forall k :: low <= k <= i' ==> a[k] < a[high]
    ensures forall k :: i' < k <= j ==> a[high] <= a[k]
    ensures forall k :: 0 <= k < a.Length && (k < i + 1 || j < k) ==> a[k] == old(a[k])
    ensures multiset(a[..]) == multiset(old(a[..]))
    ensures stats'.comparisons == stats.comparisons + 1 && stats'.time == stats.time
    ensures stats'.swaps == stats.swaps + (if old(a[j]) < a[high] && i + 1 != j then 1 else 0)
  {
    stats' := UpdateStats(stats, Comparisons);
    i' := i;
    if a[j] < a[high] {
      i' := i + 1;
      if i' != j {
        Swap(a, i', j);
        stats' := UpdateStats(stats', Swaps);
      }
    }
  }

  /** The length of the leading run of `s` below `x`. */
  ghost function BelowRun(s: seq<int>, x: int): nat
  {
    if s == [] || x <= s[0] then 0 else 1 + BelowRun(s[1..], x)
  }

  /** `BelowRun` is the length of the longest prefix of `s` whose elements are all below `x`. */
  lemma {:induction false} BelowRunSpec(s: seq<int>, x: int)
    ensures BelowRun(s, x) <= |s|
    ensures forall k :: 0 <= k < BelowRun(s, x) ==> s[k] < x
    ensures BelowRun(s, x) < |s| ==> x <= s[BelowRun(s, x)]
  {
    if s != [] && s[0] < x {
      BelowRunSpec(s[1..], x);
    }
  }

  lemma BelowRunLength(s: seq<int>, x: int)
    ensures BelowRun(s, x) <= |s|
  {
    BelowRunSpec(s, x);
  }

  /** What `BelowRunSpec` says about the one index `k`. */
  lemma BelowRunAt(s: seq<int>, x: int, k: int)
    requires 0 <= k < |s|
    ensures k < BelowRun(s, x) ==> s[k] < x
    ensures k == BelowRun(s, x) ==> x <= s[k]
  {
    BelowRunSpec(s, x);
  }

  /**
   * `quickSort(arr, low, high)`: sorts `a[low..high]` in place and leaves the rest of the
   * array alone. The comparisons made on a segment of `n` elements never exceed
   * `n(n-1)/2`, the count of an already sorted input.
   */
  method QuickSort(a: array<int>, low: int, high: int, stats: Stats) returns (stats': Stats)
    requires 0 <= low <= high + 1 <= a.Length
    modifies a
    ensures Sorted(a[low..high + 1])
    ensures multiset(a[low..high + 1]) == multiset(old(a[low..high + 1]))
    ensures forall k :: 0 <= k < a.Length && (k < low || high < k) ==> a[k] == old(a[k])
    ensures 2 * (stats'.comparisons - stats.comparisons) <= Pairs(high - low + 1)
    ensures NoLess(stats', stats)
    decreases high - low, 1
  {
    stats' := stats;
    if low < high {
      ghost var s0 := a[..];
      var p;
      p, stats' := Partition(a, low, high, stats');
      ghost var s1 := a[..];
      ghost var c1 := stats'.comparisons;
      stats' := SortSides(a, low, p, high, stats');
      PartitionThenSides(s0, s1, a[..], low, high);
      QuickBound(low, p, high, c1 - stats.comparisons, stats'.comparisons - c1);
    }
  }

  /**
   * The two recursive calls of `quickSort` once the pivot is in place at `p`: sorting
   * `a[low..p)` and then `a(p..high]` sorts the whole segment.
   */
  method SortSides(a: array<int>, low: int, p: int, high: int, stats: Stats) returns (stats': Stats)
    requires 0 <= low <= p <= high < a.Length
    requires forall k :: low <= k < p ==> a[k] < a[p]
    requires forall k :: p < k <= high ==> a[p] <= a[k]
    modifies a
    ensures Sorted(a[low..high + 1])
    ensures multiset(a[low..high + 1]) == multiset(old(a[low..high + 1]))
    ensures forall k :: 0 <= k < a.Length && (k < low || high < k) ==> a[k] == old(a[k])
    ensures 2 * (stats'.comparisons - stats.comparisons) <= Pairs(p - low) + Pairs(high - p)
    ensures NoLess(stats', stats)
    decreases high - low, 0
  {
    ghost var s1 := a[..];
    stats' := QuickSort(a, low, p - 1, stats);
    ghost var s2 := a[..];
    stats' := QuickSort(a, p + 1, high, stats');
    ghost var s3 := a[..];
    SidesSorted(s1, s2, s3, low, p, high);
    SidesPermutation(s1, s1, s2, s3, low, p, high);
  }

  /** Twice the number of pairs among `m` elements. */
  function Pairs(m: int): int
  {
    m * (m - 1)
  }

  /** `quickSort(arr)` with its default bounds `0` and `arr.length - 1`. */
  method QuickSortAll(a: array<int>, stats: Stats) returns (stats': Stats)
    modifies a
    ensures Sorted(a[..]) && multiset(a[..]) == multiset(old(a[..]))
    ensures 2 * (stats'.comparisons - stats.comparisons) <= a.Length * (a.Length - 1)
    ensures NoLess(stats', stats)
  {
    ghost var s0 := a[..];
    assert s0[0..a.Length] == s0;
    stats' := QuickSort(a, 0, a.Length - 1, stats);
    assert a[..] == a[0..a.Length];
  }

  /**
   * After the partition left the pivot at `p` in `s1` and the two recursive calls sorted
   * the sides (to `s2`, then `s3`), the whole segment `[low, high]` is sorted: each side
   * keeps its elements, so the left one stays below the pivot and the right one above it.
   */
  lemma SidesSorted(s1: seq<int>, s2: seq<int>, s3: seq<int>, low: int, p: int, high: int)
    requires 0 <= low <= p <= high < |s1| == |s2| == |s3|
    requires forall k :: low <= k < p ==> s1[k] < s1[p]
    requires forall k :: p < k <= high ==> s1[p] <= s1[k]
    requires Sorted(s2[low..p]) && multiset(s2[low..p]) == multiset(s1[low..p])
    requires forall k :: 0 <= k < |s1| && (k < low || p - 1 < k) ==> s2[k] == s1[k]
    requires Sorted(s3[p + 1..high + 1]) && multiset(s3[p + 1..high + 1]) == multiset(s2[p + 1..high + 1])
    requires forall k :: 0 <= k < |s2| && (k < p + 1 || high < k) ==> s3[k] == s2[k]
    ensures Sorted(s3[low..high + 1])
  {
    var pivot := s1[p];
    var l, r := s3[low..p], s3[p + 1..high + 1];
    assert l == s2[low..p];
    assert s2[p + 1..high + 1] == s1[p + 1..high + 1];
    var l1, r1 := s1[low..p], s1[p + 1..high + 1];
    assert forall k :: 0 <= k < |l1| ==> l1[k] < pivot;
    BelowPermutation(l, l1, pivot);
    assert forall k :: 0 <= k < |r1| ==> pivot <= r1[k];
    AbovePermutation(r, r1, pivot);
    assert s3[low..high + 1] == l + [pivot] + r;
    forall x, y | 0 <= x < y < |l| + 1 + |r|
      ensures (l + [pivot] + r)[x] <= (l + [pivot] + r)[y]
    {
      if y < |l| {
      } else if x > |l| {
        assert (l + [pivot] + r)[x] == r[x - |l| - 1];
        assert (l + [pivot] + r)[y] == r[y - |l| - 1];
      } else if x < |l| && y > |l| {
        assert (l + [pivot] + r)[y] == r[y - |l| - 1];
      } else if x < |l| {
      } else {
        assert (l + [pivot] + r)[y] == r[y - |l| - 1];
      }
    }
  }

  /**
   * The partition (from `s0` to `s1`) and the two recursive calls (to `s2`, then `s3`)
   * only permute the segment `[low, high]` and touch nothing outside it.
   */
  lemma SidesPermutation(s0: seq<int>, s1: seq<int>, s2: seq<int>, s3: seq<int>, low: int, p: int, high: int)
    requires 0 <= low <= p <= high < |s0| == |s1| == |s2| == |s3|
    requires multiset(s1) == multiset(s0)
    requires forall k :: 0 <= k < |s0| && (k < low || high < k) ==> s1[k] == s0[k]
    requires multiset(s2[low..p]) == multiset(s1[low..p])
    requires forall k :: 0 <= k < |s1| && (k < low || p - 1 < k) ==> s2[k] == s1[k]
    requires multiset(s3[p + 1..high + 1]) == multiset(s2[p + 1..high + 1])
    requires forall k :: 0 <= k < |s2| && (k < p + 1 || high < k) ==> s3[k] == s2[k]
    ensures multiset(s3[low..high + 1]) == multiset(s0[low..high + 1])
    ensures forall k :: 0 <= k < |s0| && (k < low || high < k) ==> s3[k] == s0[k]
  {
    SegmentPermutation(s0, s1, low, high + 1);
    assert s3[low..high + 1] == s2[low..p] + [s1[p]] + s3[p + 1..high + 1];
    assert s1[low..high + 1] == s1[low..p] + [s1[p]] + s2[p + 1..high + 1];
  }

  /**
   * The partition (from `s0` to `s1`) permutes the whole array and keeps everything outside
   * `[low, high]`; sorting the sides (to `s2`) permutes the segment; together they permute
   * the segment of `s0`.
   */
  lemma PartitionThenSides(s0: seq<int>, s1: seq<int>, s2: seq<int>, low: int, high: int)
    requires 0 <= low <= high < |s0| == |s1| == |s2|
    requires multiset(s1) == multiset(s0)
    requires forall k :: 0 <= k < |s0| && (k < low || high < k) ==> s1[k] == s0[k]
    requires multiset(s2[low..high + 1]) == multiset(s1[low..high + 1])
    requires forall k :: 0 <= k < |s1| && (k < low || high < k) ==> s2[k] == s1[k]
    ensures multiset(s2[low..high + 1]) == multiset(s0[low..high + 1])
  {
    SegmentPermutation(s0, s1, low, high + 1);
  }

  /**
   * The worst-case count: when the pivot at `p` splits the segment `[low, high]` into sides
   * of `a = p - low` and `b = high - p` elements, the partition's `a + b` comparisons and the
   * two sides' at most `a(a-1)/2` and `b(b-1)/2` add up to at most `n(n-1)/2` for the
   * `n = a + b + 1` elements of the segment.
   */
  lemma QuickBound(low: int, p: int, high: int, cp: int, cs: int)
    requires low <= p <= high
    requires cp == high - low
    requires 2 * cs <= Pairs(p - low) + Pairs(high - p)
    ensures 2 * (cp + cs) <= Pairs(high - low + 1)
  {
    var a, b := p - low, high - p;
    assert Pairs(p - low) == a * (a - 1);
    assert Pairs(high - p) == b * (b - 1);
    assert Pairs(high - low + 1) == (a + b + 1) * (a + b);
    assert (a + b + 1) * (a + b) == a * (a - 1) + b * (b - 1) + 2 * (a + b) + 2 * a * b;
    assert a * b >= 0;
  }
}
