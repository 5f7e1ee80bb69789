/**
 * Bucket sort of the sorting visualizer. With `max` the largest element and `n` the length,
 * element `v` goes to bucket `floor(v / max * (n - 1))`, in input order; then every
 * non-empty bucket, in bucket order, is sorted numerically and written back from the front
 * of the array, one swap counted per element written.
 */
module BucketSorting {
  import opened SortStats
  import opened SortSpec
  import opened Arith
  import opened KeyBuckets

  /** Inserting `x` into a sorted sequence before the first element not below it. */
  function InsertSorted(s: seq<int>, x: int): (r: seq<int>)
    ensures |r| == |s| + 1
  {
    if s == [] then [x]
    else if x <= s[0] then [x] + s
    else [s[0]] + InsertSorted(s[1..], x)
  }

  /** Insertion adds exactly `x`. */
  lemma {:induction false} InsertSortedPermutation(s: seq<int>, x: int)
    ensures multiset(InsertSorted(s, x)) == multiset(s) + multiset{x}
  {
    if s != [] && x > s[0] {
      InsertSortedPermutation(s[1..], x);
      assert s == [s[0]] + s[1..];
    }
  }

  /** Insertion keeps a sorted sequence sorted. */
  lemma {:induction false} InsertSortedSorted(s: seq<int>, x: int)
    requires Sorted(s)
    ensures Sorted(InsertSorted(s, x))
  {
    if s != [] && x > s[0] {
      var t := InsertSorted(s[1..], x);
      InsertSortedSorted(s[1..], x);
      InsertSortedPermutation(s[1..], x);
      forall i | 0 <= i < |t|
        ensures s[0] <= t[i]
      {
        assert t[i] in multiset(t);
        if t[i] != x {
          assert t[i] in multiset(s[1..]);
          var j :| 0 <= j < |s[1..]| && s[1..][j] == t[i];
          assert s[1..][j] == s[j + 1];
        }
      }
    }
  }

  /**
   * The numeric sort `buckets[i].sort((a, b) => a - b)` of one bucket, as a function
   * (insertion of each element in turn); SortSeqPermutation and SortSeqSorted show it is a
   * sorted permutation of its input.
   */
  function SortSeq(s: seq<int>): (r: seq<int>)
    ensures |r| == |s|
  {
    if s == [] then []
    else InsertSorted(SortSeq(s[..|s| - 1]), s[|s| - 1])
  }

  lemma {:induction false} SortSeqPermutation(s: seq<int>)
    ensures multiset(SortSeq(s)) == multiset(s)
    decreases |s|
  {
    if s != [] {
      SortSeqPermutation(s[..|s| - 1]);
      InsertSortedPermutation(SortSeq(s[..|s| - 1]), s[|s| - 1]);
      assert s == s[..|s| - 1] + [s[|s| - 1]];
    }
  }

  lemma {:induction false} SortSeqSorted(s: seq<int>)
    ensures Sorted(SortSeq(s))
    decreases |s|
  {
    if s != [] {
      SortSeqSorted(s[..|s| - 1]);
      InsertSortedSorted(SortSeq(s[..|s| - 1]), s[|s| - 1]);
    }
  }

  /** The runs `runs[0 .. k-1]` one after the other. */
  function Concat(runs: seq<seq<int>>, k: int): seq<int>
    requires 0 <= k <= |runs|
  {
    if k == 0 then [] else Concat(runs, k - 1) + runs[k - 1]
  }

  /** Later runs only add to the concatenation. */
  lemma {:induction false} ConcatGrows(runs: seq<seq<int>>, k: int, m: int)
    requires 0 <= k <= m <= |runs|
    ensures |Concat(runs, k)| <= |Concat(runs, m)|
    decreases m - k
  {
    if k < m {
      ConcatGrows(runs, k, m - 1);
    }
  }

  /**
   * The first loop: `buckets[floor(v / max * (n-1))].push(v)` for every element, on `n`
   * fresh empty buckets. Bucket `b` ends up holding the elements with bucket index `b` in
   * input order.
   */
  method Distribute(a: array<int>, max: int) returns (buckets: seq<seq<int>>)
    requires max > 0 && forall i :: 0 <= i < a.Length ==> 0 <= a[i] <= max
    ensures |buckets| == a.Length
    ensures forall b :: 0 <= b < a.Length ==> buckets[b] == Filter(a[..], BucketKey(max, a.Length), b)
  {
    var n := a.Length;
    ghost var key := BucketKey(max, n);
    buckets := seq(n, _ => []);
    var i := 0;
    while i < n
      invariant 0 <= i <= n && |buckets| == n
      invariant forall b :: 0 <= b < n ==> buckets[b] == Filter(a[..i], key, b)
    {
      BucketIndexRange(a[i], max, n);
      var b := BucketIndex(a[i], max, n);
      assert a[..i + 1][..i] == a[..i];
      assert key(a[i]) == b;
      buckets := buckets[b := buckets[b] + [a[i]]];
      i := i + 1;
    }
    assert a[..n] == a[..];
  }

  /** The inner loop: `arr[index++] = item` for every item of one sorted bucket. */
  method WriteRun(a: array<int>, index: int, run: seq<int>, stats: Stats) returns (stats': Stats)
    requires 0 <= index && index + |run| <= a.Length
    modifies a
    ensures a[..] == old(a[..index]) + run + old(a[index + |run|..])
    ensures stats' == stats.(swaps := stats.swaps + |run|)
  {
    stats' := stats;
    var t := 0;
    while t < |run|
      invariant 0 <= t <= |run|
      invariant forall k :: 0 <= k < a.Length && (k < index || index + t <= k) ==> a[k] == old(a[k])
      invariant forall k :: index <= k < index + t ==> a[k] == run[k - index]
      invariant stats' == stats.(swaps := stats.swaps + t)
    {
      a[index + t] := run[t];
      stats' := UpdateStats(stats', Swaps);
      t := t + 1;
    }
    assert a[..] == old(a[..index]) + run + old(a[index + |run|..]);
  }

  /**
   * The second loop: every non-empty bucket, sorted, is written back in bucket order, so
   * the array becomes the concatenation of the sorted buckets `runs`. An empty bucket
   * contributes nothing whether or not it is skipped.
   */
  method Collect(a: array<int>, buckets: seq<seq<int>>, ghost runs: seq<seq<int>>, stats: Stats) returns (stats': Stats)
    requires |runs| == |buckets| && forall b :: 0 <= b < |buckets| ==> runs[b] == SortSeq(buckets[b])
    requires |Concat(runs, |runs|)| == a.Length
    modifies a
    ensures a[..] == Concat(runs, |runs|)
    ensures stats' == stats.(swaps := stats.swaps + a.Length)
  {
    stats' := stats;
    var index := 0;
    var i := 0;
    while i < |buckets|
      invariant 0 <= i <= |buckets|
      invariant index == |Concat(runs, i)| <= a.Length
      invariant a[..index] == Concat(runs, i)
      invariant stats' == stats.(swaps := stats.swaps + index)
    {
      ConcatGrows(runs, i + 1, |runs|);
      assert Concat(runs, i + 1) == Concat(runs, i) + runs[i];
      if |buckets[i]| > 0 {
        var sorted := SortSeq(buckets[i]);
        ghost var before := a[..index];
        stats' := WriteRun(a, index, sorted, stats');
        assert a[..index + |sorted|] == before + sorted;
        index := index + |sorted|;
      } else {
        assert runs[i] == [];
      }
      i := i + 1;
    }
    assert a[..] == a[..index];
  }

  /**
   * `bucketSort(arr)`. An empty array is left alone. When every element is `0` and there is
   * at least one, `0 / 0` makes every bucket index `NaN` and the first `push` throws before
   * anything is written (`threw`). Otherwise the array ends sorted and permuted, with one
   * swap counted per element.
   */
  method BucketSort(a: array<int>, stats: Stats) returns (stats': Stats, threw: bool)
    requires forall i :: 0 <= i < a.Length ==> a[i] >= 0
    modifies a
    ensures threw <==> a.Length > 0 && forall i :: 0 <= i < a.Length ==> old(a[i]) == 0
    ensures threw ==> a[..] == old(a[..]) && stats' == stats
    ensures !threw ==> Sorted(a[..]) && multiset(a[..]) == multiset(old(a[..]))
    ensures !threw ==> stats' == stats.(swaps := stats.swaps + a.Length)
  {
    if a.Length == 0 {
      return stats, false;
    }
    var max := MaxOf(a[..]);
    if max == 0 {
      return stats, true;
    }
    ghost var s := a[..];
    assert exists i :: 0 <= i < a.Length && a[i] != 0;
    var buckets := Distribute(a, max);
    ghost var runs := SortedRuns(buckets);
    SortedRunsLayout(s, buckets, runs, max);
    stats' := Collect(a, buckets, runs, stats);
    threw := false;
  }

  /** Every bucket, sorted. */
  ghost function SortedRuns(buckets: seq<seq<int>>): (runs: seq<seq<int>>)
    ensures |runs| == |buckets| && forall b :: 0 <= b < |buckets| ==> runs[b] == SortSeq(buckets[b])
  {
    seq(|buckets|, b requires 0 <= b < |buckets| => SortSeq(buckets[b]))
  }

  /**
   * Property of the whole run: the sorted buckets of `s`, taken in bucket order, form a
   * sorted permutation of `s`, because a lower bucket index means a smaller value.
   */
  lemma SortedRunsLayout(s: seq<int>, buckets: seq<seq<int>>, runs: seq<seq<int>>, max: int)
    requires max > 0 && Within(s, 0, max) && |buckets| == |runs| == |s|
    requires forall b :: 0 <= b < |s| ==> buckets[b] == Filter(s, BucketKey(max, |s|), b)
    requires forall b :: 0 <= b < |s| ==> runs[b] == SortSeq(buckets[b])
    ensures |Concat(runs, |s|)| == |s|
    ensures Sorted(Concat(runs, |s|))
    ensures multiset(Concat(runs, |s|)) == multiset(s)
  {
    var key := BucketKey(max, |s|);
    forall i | 0 <= i < |s|
      ensures 0 <= key(s[i]) < |s|
    {
      BucketIndexRange(s[i], max, |s|);
    }
    forall b | 0 <= b < |s|
      ensures multiset(runs[b]) == multiset(Filter(s, key, b))
      ensures RunFits(runs[b], max, |s|, b)
    {
      SortSeqPermutation(buckets[b]);
      SortedBucket(s, max, b);
    }
    BucketedPermutation(s, key, |s|);
    ConcatPermutation(s, runs, key, |s|);
    if |s| == 0 {
      assert Concat(runs, 0) == [];
    } else {
      ConcatSorted(runs, max, |s|, |s|);
    }
  }

  /** Run `r` is sorted, within `[0, max]`, and all of bucket index `w`. */
  ghost predicate RunFits(r: seq<int>, max: int, n: int, w: int)
    requires max > 0
  {
    Sorted(r) && Within(r, 0, max) && forall q :: 0 <= q < |r| ==> BucketIndex(r[q], max, n) == w
  }

  /** Runs holding the buckets' elements concatenate to the layout's elements. */
  lemma {:induction false} ConcatPermutation(s: seq<int>, runs: seq<seq<int>>, key: int -> int, k: int)
    requires 0 <= k <= |runs|
    requires forall b :: 0 <= b < |runs| ==> multiset(runs[b]) == multiset(Filter(s, key, b))
    ensures multiset(Concat(runs, k)) == multiset(Bucketed(s, key, k))
  {
    if k == 0 {
      assert Concat(runs, 0) == [] && Bucketed(s, key, 0) == [];
    } else {
      ConcatPermutation(s, runs, key, k - 1);
      BucketedStep(s, key, k);
      assert Concat(runs, k) == Concat(runs, k - 1) + runs[k - 1];
    }
  }

  /**
   * Sorted runs of increasing bucket index concatenate to a sorted sequence, within the
   * same bounds, of bucket indices below `k`.
   */
  lemma {:induction false} ConcatSorted(runs: seq<seq<int>>, max: int, n: int, k: int)
    requires max > 0 && n >= 1 && 0 <= k <= |runs|
    requires forall b :: 0 <= b < |runs| ==> RunFits(runs[b], max, n, b)
    ensures Sorted(Concat(runs, k)) && Within(Concat(runs, k), 0, max)
    ensures forall p :: 0 <= p < |Concat(runs, k)| ==> BucketIndex(Concat(runs, k)[p], max, n) < k
  {
    if k == 0 {
      assert Concat(runs, 0) == [];
    } else {
      ConcatSorted(runs, max, n, k - 1);
      var g, piece := Concat(runs, k - 1), runs[k - 1];
      assert Concat(runs, k) == g + piece;
      assert RunFits(piece, max, n, k - 1);
      forall p, q | 0 <= p < |g| && 0 <= q < |piece|
        ensures g[p] <= piece[q]
      {
        if piece[q] < g[p] {
          BucketIndexMonotone(piece[q], g[p], max, n);
        }
      }
      SortedConcat(g, piece);
      forall p | 0 <= p < |g + piece|
        ensures 0 <= (g + piece)[p] <= max && BucketIndex((g + piece)[p], max, n) < k
      {
        if p >= |g| {
          assert (g + piece)[p] == piece[p - |g|];
        }
      }
    }
  }

  /** Bucket `w`, sorted: sorted, within the bounds of `s`, and all of bucket index `w`. */
  lemma SortedBucket(s: seq<int>, max: int, w: int)
    requires max > 0 && Within(s, 0, max)
    ensures RunFits(SortSeq(Filter(s, BucketKey(max, |s|), w)), max, |s|, w)
  {
    var f := Filter(s, BucketKey(max, |s|), w);
    var piece := SortSeq(f);
    FilterKeys(s, BucketKey(max, |s|), w);
    WithinSub(f, s, max);
    SortSeqPermutation(f);
    WithinPermutation(piece, f, 0, max);
    SortSeqSorted(f);
    forall q | 0 <= q < |piece|
      ensures BucketIndex(piece[q], max, |s|) == w
    {
      assert piece[q] in multiset(f);
      var r :| 0 <= r < |f| && f[r] == piece[q];
    }
  }

  /** Elements drawn from `s` keep every bound of `s`. */
  lemma WithinSub(x: seq<int>, s: seq<int>, max: int)
    requires multiset(x) <= multiset(s) && Within(s, 0, max)
    ensures Within(x, 0, max)
  {
    forall i | 0 <= i < |x|
      ensures 0 <= x[i] <= max
    {
      assert x[i] in multiset(x);
      var j :| 0 <= j < |s| && s[j] == x[i];
    }
  }
}
