/**
 * Heap sort of the sorting visualizer: a max-heap is built bottom-up in the array, then the
 * root is swapped to the end of the shrinking heap and sifted back down, position by
 * position. Children of index `k` are `2k+1` and `2k+2`.
 */
module HeapSorting {
  import opened SortStats
  import opened SortSpec

  /** Node `k` of the heap `s[..n]` is at least each of its children inside the heap. */
  ghost predicate HeapAt(s: seq<int>, n: int, k: int)
  {
    0 <= k < n <= |s| ==>
      (2 * k + 1 < n ==> s[2 * k + 1] <= s[k]) && (2 * k + 2 < n ==> s[2 * k + 2] <= s[k])
  }

  /** Every node of `s[..n]` from index `lo` on satisfies the heap order. */
  ghost predicate HeapFrom(s: seq<int>, n: int, lo: int)
  {
    forall k :: lo <= k < n ==> HeapAt(s, n, k)
  }

  /** As HeapFrom, except possibly at node `i` itself. */
  ghost predicate HeapExcept(s: seq<int>, n: int, lo: int, i: int)
  {
    forall k :: lo <= k < n && k != i ==> HeapAt(s, n, k)
  }

  /**
   * When the parent of `i` belongs to the heap region, it is at least the children of `i`:
   * the fact that lets `i`'s value be replaced by a larger child without losing the order
   * at the parent.
   */
  ghost predicate Bridge(s: seq<int>, n: int, lo: int, i: int)
  {
    n <= |s| && 0 < i && lo <= (i - 1) / 2 ==>
      (2 * i + 1 < n ==> s[2 * i + 1] <= s[(i - 1) / 2]) &&
      (2 * i + 2 < n ==> s[2 * i + 2] <= s[(i - 1) / 2])
  }

  /**
   * `heapify(arr, n, i)`: sifts `a[i]` down the heap `a[..n)`. The left child, then the right
   * child, is compared with the largest so far (a comparison counted for each child inside
   * the heap, strict `>` so the parent wins ties); if a child is larger it is swapped up,
   * a swap counted, and the sift continues from its position. Only `a[i..n)` changes.
   */
  method Heapify(a: array<int>, n: int, i: int, ghost lo: int, stats: Stats) returns (stats': Stats)
    requires 0 <= lo <= i < n <= a.Length
    requires HeapExcept(a[..], n, lo, i) && Bridge(a[..], n, lo, i)
    modifies a
    ensures HeapFrom(a[..], n, lo)
    ensures multiset(a[..]) == multiset(old(a[..]))
    ensures forall k :: 0 <= k < a.Length && (k < i || n <= k) ==> a[k] == old(a[k])
    ensures NoLess(stats', stats)
    decreases n - i
  {
    stats' := stats;
    var largest := i;
    var left := 2 * i + 1;
    var right := 2 * i + 2;
    if left < n {
      stats' := UpdateStats(stats', Comparisons);
      if a[left] > a[largest] {
        largest := left;
      }
    }
    if right < n {
      stats' := UpdateStats(stats', Comparisons);
      if a[right] > a[largest] {
        largest := right;
      }
    }
    if largest != i {
      ghost var s := a[..];
      Swap(a, i, largest);
      SiftStep(s, a[..], n, lo, i, largest);
      stats' := UpdateStats(stats', Swaps);
      stats' := Heapify(a, n, largest, lo, stats');
    } else {
      assert HeapAt(a[..], n, i);
    }
  }

  /**
   * One sift-down step: swapping node `i` with its larger child `c` (larger than `i` and
   * than the other child) moves the exception from `i` to `c`, and the new value at `i`
   * bridges over `c`.
   */
  lemma SiftStep(s: seq<int>, t: seq<int>, n: int, lo: int, i: int, c: int)
    requires 0 <= lo <= i < n <= |s| == |t|
    requires c == 2 * i + 1 || c == 2 * i + 2
    requires c < n && s[i] < s[c]
    requires 2 * i + 1 < n ==> s[2 * i + 1] <= s[c]
    requires 2 * i + 2 < n ==> s[2 * i + 2] <= s[c]
    requires t == s[i := s[c]][c := s[i]]
    requires HeapExcept(s, n, lo, i) && Bridge(s, n, lo, i)
    ensures HeapExcept(t, n, lo, c) && Bridge(t, n, lo, c)
  {
    assert HeapAt(s, n, c);
    assert (c - 1) / 2 == i;
    forall k | lo <= k < n && k != c
      ensures HeapAt(t, n, k)
    {
      if k != i && 0 < i && k == (i - 1) / 2 {
        assert HeapAt(s, n, k);
      } else if k != i {
        assert HeapAt(s, n, k);
      }
    }
  }

  /** The root of a heap is its maximum. */
  lemma {:induction false} RootMax(s: seq<int>, n: int, k: int)
    requires 0 <= k < n <= |s| && HeapFrom(s, n, 0)
    ensures s[k] <= s[0]
    decreases k
  {
    if k > 0 {
      var p := (k - 1) / 2;
      assert HeapAt(s, n, p);
      RootMax(s, n, p);
    }
  }

  /** Every node without a child in `s[..n]` is trivially in heap order. */
  lemma LeavesAreHeaps(s: seq<int>, n: int)
    requires 0 <= n <= |s|
    ensures HeapFrom(s, n, n / 2)
  {
  }

  /**
   * `heapSort(arr)`: builds a max-heap by sifting down `floor(n/2)-1 .. 0`, then for
   * `i = n-1 .. 1` swaps the root to `i`, counting a swap, and sifts the new root down in
   * `a[..i)`. The array ends sorted and permuted, with at least `n-1` swaps counted.
   */
  method HeapSort(a: array<int>, stats: Stats) returns (stats': Stats)
    modifies a
    ensures Sorted(a[..]) && multiset(a[..]) == multiset(old(a[..]))
    ensures stats'.swaps >= stats.swaps + (if a.Length == 0 then 0 else a.Length - 1)
    ensures NoLess(stats', stats)
  {
    var n := a.Length;
    stats' := BuildHeap(a, stats);
    var i := n - 1;
    while i > 0
      invariant (n == 0 && i == -1) || 0 <= i < n
      invariant HeapFrom(a[..], i + 1, 0)
      invariant SuffixFinal(a[..], i + 1)
      invariant multiset(a[..]) == multiset(old(a[..]))
      invariant stats'.swaps >= stats.swaps + (n - 1 - i)
      invariant NoLess(stats', stats)
    {
      stats' := ExtractMax(a, i, stats');
      i := i - 1;
    }
  }

  /**
   * One turn of the extraction loop: the root of the heap `a[..i+1]` is swapped to `i` (one
   * swap counted) and the rest is sifted down again, so the sorted suffix grows by one.
   */
  method ExtractMax(a: array<int>, i: int, stats: Stats) returns (stats': Stats)
    requires 0 < i < a.Length
    requires HeapFrom(a[..], i + 1, 0) && SuffixFinal(a[..], i + 1)
    modifies a
    ensures HeapFrom(a[..], i, 0) && SuffixFinal(a[..], i)
    ensures multiset(a[..]) == multiset(old(a[..]))
    ensures stats'.swaps >= stats.swaps + 1 && NoLess(stats', stats)
  {
    ghost var s := a[..];
    Swap(a, 0, i);
    stats' := UpdateStats(stats, Swaps);
    RootToEnd(s, a[..], i);
    ghost var t := a[..];
    stats' := Heapify(a, i, 0, 0, stats');
    PrefixPermuted(t, a[..], i);
  }

  /** The build phase of `heapSort`: sifts down `floor(n/2)-1 .. 0`, leaving a max-heap. */
  method BuildHeap(a: array<int>, stats: Stats) returns (stats': Stats)
    modifies a
    ensures HeapFrom(a[..], a.Length, 0)
    ensures multiset(a[..]) == multiset(old(a[..]))
    ensures NoLess(stats', stats)
  {
    var n := a.Length;
    stats' := stats;
    LeavesAreHeaps(a[..], n);
    var i := n / 2 - 1;
    while i >= 0
      invariant -1 <= i <= n / 2 - 1
      invariant HeapFrom(a[..], n, i + 1)
      invariant multiset(a[..]) == multiset(old(a[..]))
      invariant NoLess(stats', stats)
    {
      stats' := Heapify(a, n, i, i, stats');
      i := i - 1;
    }
  }

  /**
   * Swapping the root of the heap `s[..i+1]` to position `i` extends the sorted suffix by
   * one and leaves `t[..i]` a heap except at its root.
   */
  lemma RootToEnd(s: seq<int>, t: seq<int>, i: int)
    requires 0 < i < |s| == |t|
    requires HeapFrom(s, i + 1, 0) && SuffixFinal(s, i + 1)
    requires t == s[0 := s[i]][i := s[0]]
    ensures HeapExcept(t, i, 0, 0) && Bridge(t, i, 0, 0)
    ensures SuffixFinal(t, i)
  {
    forall k | 0 <= k <= i
      ensures s[k] <= s[0]
    {
      RootMax(s, i + 1, k);
    }
    forall k | 0 < k < i
      ensures HeapAt(t, i, k)
    {
      assert HeapAt(s, i + 1, k);
    }
  }

  /**
   * Sifting down inside `a[..n)` permutes that prefix and leaves the rest alone, so the
   * suffix from `n` stays in final position.
   */
  lemma PrefixPermuted(s: seq<int>, t: seq<int>, n: int)
    requires 0 <= n <= |s| == |t|
    requires SuffixFinal(s, n)
    requires multiset(t) == multiset(s)
    requires forall k :: 0 <= k < |s| && n <= k ==> t[k] == s[k]
    ensures SuffixFinal(t, n)
  {
    SegmentPermutation(s, t, 0, n);
    forall k, l | 0 <= k < l < |t| && n <= l
      ensures t[k] <= t[l]
    {
      if k < n {
        assert t[k] == t[0..n][k];
        assert t[k] in multiset(s[0..n]);
        var k' :| 0 <= k' < n && s[0..n][k'] == t[k];
        assert s[k'] == t[k];
      }
    }
  }
}
