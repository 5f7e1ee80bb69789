/**
 * Counting sort and radix sort of the sorting visualizer. Both are built on the same counting
 * pass: tally the keys, turn the tallies into cumulative counts, place the elements from the
 * back into an output buffer (one swap counted per element), and copy the buffer back.
 * Counting sort keys by the value itself; each radix pass keys by one decimal digit.
 */
module CountingSorting {
  import opened SortStats
  import opened SortSpec
  import opened Arith
  import opened KeyBuckets

  /** The first loop: `count[key(arr[i])]++` for every element, on a fresh zeroed table. */
  method Tally(a: array<int>, key: int -> int, K: int) returns (count: array<int>)
    requires K >= 1 && KeysBelow(a[..], key, K)
    ensures fresh(count) && count.Length == K
    ensures forall v :: 0 <= v < K ==> count[v] == CountEq(a[..], key, v)
  {
    count := new int[K](_ => 0);
    var i := 0;
    while i < a.Length
      invariant 0 <= i <= a.Length
      invariant forall v :: 0 <= v < K ==> count[v] == CountEq(a[..i], key, v)
    {
      var d := key(a[i]);
      assert a[..][i] == a[i];
      forall v | 0 <= v < K
        ensures CountEq(a[..i + 1], key, v) == CountEq(a[..i], key, v) + (if d == v then 1 else 0)
      {
        CountEqSnoc(a[..], key, v, i);
      }
      count[d] := count[d] + 1;
      i := i + 1;
    }
    assert a[..a.Length] == a[..];
  }

  /** The second loop: `count[i] += count[i - 1]`, so `count[v]` counts the keys up to `v`. */
  method Accumulate(count: array<int>, ghost s: seq<int>, key: int -> int)
    requires count.Length >= 1
    requires forall v :: 0 <= v < count.Length ==> count[v] == CountEq(s, key, v)
    modifies count
    ensures forall v :: 0 <= v < count.Length ==> count[v] == CountLt(s, key, v + 1)
  {
    assert CountLt(s, key, 1) == CountEq(s, key, 0);
    var i := 1;
    while i < count.Length
      invariant 1 <= i <= count.Length
      invariant forall v :: 0 <= v < i ==> count[v] == CountLt(s, key, v + 1)
      invariant forall v :: i <= v < count.Length ==> count[v] == CountEq(s, key, v)
    {
      count[i] := count[i] + count[i - 1];
      i := i + 1;
    }
  }

  /** The positions `[0, CountLt(K))` are covered by the ranges `[CountLt(v), CountLt(v + 1))` of the keys. */
  lemma {:induction false} Cover(s: seq<int>, key: int -> int, K: int, p: int) returns (v: int)
    requires K > 0 && 0 <= p < CountLt(s, key, K)
    ensures 0 <= v < K && CountLt(s, key, v) <= p < CountLt(s, key, v + 1)
    decreases K
  {
    if p >= CountLt(s, key, K - 1) {
      v := K - 1;
    } else {
      v := Cover(s, key, K - 1, p);
    }
  }

  /**
   * Where the element at `i` goes when the elements after it have been placed: just below the
   * part of its key's range already filled, which is its position in the layout.
   */
  lemma PlaceTarget(s: seq<int>, key: int -> int, K: int, i: int)
    requires 0 <= i < |s| && KeysBelow(s, key, K)
    ensures 0 <= key(s[i]) < K
    ensures |Bucketed(s, key, K)| == |s|
    ensures 0 <= CountLt(s, key, key(s[i])) + CountIn(s, i, key, key(s[i])) < |s|
    ensures Bucketed(s, key, K)[CountLt(s, key, key(s[i])) + CountIn(s, i, key, key(s[i]))] == s[i]
    ensures CountLt(s, key, key(s[i])) + CountIn(s, i, key, key(s[i])) < CountLt(s, key, key(s[i]) + 1)
  {
    var d := key(s[i]);
    var c := CountIn(s, i, key, d);
    PlaceTargetCount(s, key, i);
    BucketedAt(s, key, K, d, c);
    CountLtAll(s, key, K);
  }

  /** The element at `i` is the element of its key numbered by how many of that key precede it. */
  lemma PlaceTargetCount(s: seq<int>, key: int -> int, i: int)
    requires 0 <= i < |s| && 0 <= key(s[i])
    ensures CountIn(s, i, key, key(s[i])) < CountEq(s, key, key(s[i]))
    ensures Filter(s, key, key(s[i]))[CountIn(s, i, key, key(s[i]))] == s[i]
    ensures CountLt(s, key, key(s[i]) + 1) == CountLt(s, key, key(s[i])) + CountEq(s, key, key(s[i]))
  {
    CountInPrefix(s, i, key, key(s[i]));
    FilterAt(s, key, i);
  }

  /**
   * The third loop: from the back, every element goes to `output[count[key] - 1]` and that
   * count goes down, so each key's elements fill its range from the right, keeping their
   * input order. Every placement counts one swap.
   */
  method Place(a: array<int>, count: array<int>, key: int -> int, K: int, stats: Stats)
    returns (output: array<int>, stats': Stats)
    requires count.Length == K >= 1 && a != count
    requires KeysBelow(a[..], key, K)
    requires forall v :: 0 <= v < K ==> count[v] == CountLt(a[..], key, v + 1)
    modifies count
    ensures fresh(output) && output.Length == a.Length
    ensures output[..] == Bucketed(a[..], key, K)
    ensures stats' == stats.(swaps := stats.swaps + a.Length)
  {
    PlaceStart(a[..], count[..], key, K);
    output := new int[a.Length];
    stats' := stats;
    var i := a.Length;
    while i > 0
      invariant 0 <= i <= a.Length
      invariant CountsLeft(count[..], a[..], key, K, i)
      invariant Placed(output[..], count[..], a[..], key, K)
      invariant stats' == stats.(swaps := stats.swaps + (a.Length - i))
    {
      PlaceOne(a, count, output, key, K, i - 1);
      stats' := UpdateStats(stats', Swaps);
      i := i - 1;
    }
    PlaceEnd(a[..], output[..], count[..], key, K);
  }

  /**
   * While the third loop has the first `j` elements still to place, `c[v]` is the start of
   * key `v`'s range plus the elements with key `v` among those `j`.
   */
  ghost predicate CountsLeft(c: seq<int>, s: seq<int>, key: int -> int, K: int, j: int)
  {
    |c| == K && 0 <= j <= |s| && forall v :: 0 <= v < K ==> c[v] == CountLt(s, key, v) + CountIn(s, j, key, v)
  }

  /** Every position of the layout at or above its key's count is already filled in `o`. */
  ghost predicate Placed(o: seq<int>, c: seq<int>, s: seq<int>, key: int -> int, K: int)
  {
    var B := Bucketed(s, key, K);
    |c| == K && |o| == |s| &&
    forall p :: (0 <= p < |o| && p < |B| && 0 <= key(B[p]) < K && c[key(B[p])] <= p) ==> o[p] == B[p]
  }

  /**
   * One step of the third loop: the element at `j` goes just below the filled part of its
   * key's range, which is its position in the layout, and that range grows by one.
   */
  method PlaceOne(a: array<int>, count: array<int>, output: array<int>, key: int -> int, K: int, j: int)
    requires count.Length == K >= 1 && output.Length == a.Length && 0 <= j < a.Length
    requires a != count && a != output && count != output
    requires KeysBelow(a[..], key, K)
    requires CountsLeft(count[..], a[..], key, K, j + 1)
    requires Placed(output[..], count[..], a[..], key, K)
    modifies count, output
    ensures CountsLeft(count[..], a[..], key, K, j)
    ensures Placed(output[..], count[..], a[..], key, K)
  {
    ghost var s := a[..];
    ghost var B := Bucketed(s, key, K);
    assert s[j] == a[j];
    PlaceTarget(s, key, K, j);
    var d := key(a[j]);
    ghost var pos := CountLt(s, key, d) + CountIn(s, j, key, d);
    assert CountIn(s, j + 1, key, d) == CountIn(s, j, key, d) + 1;
    assert count[..][d] == pos + 1;
    ghost var o, c := output[..], count[..];
    output[count[d] - 1] := a[j];
    count[d] := count[d] - 1;
    assert a[..] == s;
    forall p | 0 <= p < |s| && p < |B| && 0 <= key(B[p]) < K && count[..][key(B[p])] <= p
      ensures output[..][p] == B[p]
    {
      if p != pos {
        assert c[key(B[p])] <= p;
        assert o[p] == B[p];
      }
    }
    forall v | 0 <= v < K
      ensures count[..][v] == CountLt(s, key, v) + CountIn(s, j, key, v)
    {
      if v != d {
        assert CountIn(s, j + 1, key, v) == CountIn(s, j, key, v);
      }
    }
  }

  /**
   * Before the third loop, `count[v]` is the end of key `v`'s range: the start of the range
   * plus all of its elements, and every position lies below the end of its own key's range.
   */
  lemma PlaceStart(s: seq<int>, c: seq<int>, key: int -> int, K: int)
    requires |c| == K >= 1 && KeysBelow(s, key, K)
    requires forall v :: 0 <= v < K ==> c[v] == CountLt(s, key, v + 1)
    ensures |Bucketed(s, key, K)| == |s|
    ensures CountsLeft(c, s, key, K, |s|)
    ensures forall p :: 0 <= p < |s| ==> 0 <= key(Bucketed(s, key, K)[p]) < K && p < c[key(Bucketed(s, key, K)[p])]
  {
    forall v | 0 <= v < K
      ensures CountIn(s, |s|, key, v) == CountEq(s, key, v)
    {
      CountInPrefix(s, |s|, key, v);
      assert s[..|s|] == s;
    }
    CountLtAll(s, key, K);
    forall p | 0 <= p < |s|
      ensures 0 <= key(Bucketed(s, key, K)[p]) < K && p < c[key(Bucketed(s, key, K)[p])]
    {
      LayoutKeyAt(s, key, K, p);
    }
  }

  /**
   * After the third loop, `count[v]` is the start of key `v`'s range, so every position has
   * been written with its element of the layout.
   */
  lemma PlaceEnd(s: seq<int>, o: seq<int>, c: seq<int>, key: int -> int, K: int)
    requires K >= 1 && KeysBelow(s, key, K) && |Bucketed(s, key, K)| == |s|
    requires CountsLeft(c, s, key, K, 0) && Placed(o, c, s, key, K)
    ensures o == Bucketed(s, key, K)
  {
    forall p | 0 <= p < |o|
      ensures o[p] == Bucketed(s, key, K)[p]
    {
      LayoutKeyAt(s, key, K, p);
    }
  }

  /** The element at position `p` of the layout has a key in `[0, K)` whose range starts at or before `p`. */
  lemma LayoutKeyAt(s: seq<int>, key: int -> int, K: int, p: int)
    requires K >= 1 && KeysBelow(s, key, K) && 0 <= p < |s|
    ensures |Bucketed(s, key, K)| == |s|
    ensures 0 <= key(Bucketed(s, key, K)[p]) < K
    ensures CountLt(s, key, key(Bucketed(s, key, K)[p])) <= p < CountLt(s, key, key(Bucketed(s, key, K)[p]) + 1)
  {
    CountLtAll(s, key, K);
    var v := Cover(s, key, K, p);
    BucketedAt(s, key, K, v, p - CountLt(s, key, v));
    FilterKeys(s, key, v);
  }

  /** The last loop: `arr[i] = output[i]` for every index. */
  method CopyBack(a: array<int>, output: array<int>)
    requires a.Length == output.Length && a != output
    modifies a
    ensures a[..] == output[..]
  {
    var i := 0;
    while i < a.Length
      invariant 0 <= i <= a.Length
      invariant forall t :: 0 <= t < i ==> a[t] == output[t]
    {
      a[i] := output[i];
      i := i + 1;
    }
  }

  /**
   * One counting pass with keys in `[0, K)`: the array becomes its stable layout by key, and
   * one swap is counted per element.
   */
  method CountingPass(a: array<int>, key: int -> int, K: int, stats: Stats) returns (stats': Stats)
    requires K >= 1 && KeysBelow(a[..], key, K)
    modifies a
    ensures a[..] == Bucketed(old(a[..]), key, K)
    ensures stats' == stats.(swaps := stats.swaps + a.Length)
  {
    var count := Tally(a, key, K);
    Accumulate(count, a[..], key);
    var output;
    output, stats' := Place(a, count, key, K, stats);
    CopyBack(a, output);
  }

  /**
   * `countingSort(arr)`: keys are the values themselves, the table has `max + 1` entries.
   * On an empty array `Math.max()` is `-Infinity` and allocating the table throws, before
   * anything has changed (`threw`). Otherwise the array ends sorted and permuted, with one
   * swap counted per element.
   */
  method CountingSort(a: array<int>, stats: Stats) returns (stats': Stats, threw: bool)
    requires forall i :: 0 <= i < a.Length ==> a[i] >= 0
    modifies a
    ensures threw <==> a.Length == 0
    ensures Sorted(a[..]) && multiset(a[..]) == multiset(old(a[..]))
    ensures threw ==> stats' == stats
    ensures !threw ==> stats' == stats.(swaps := stats.swaps + a.Length)
  {
    if a.Length == 0 {
      return stats, true;
    }
    var max := MaxOf(a[..]);
    ghost var s := a[..];
    IdentityKeys(s, max);
    stats' := CountingPass(a, IdentityKey, max + 1, stats);
    IdentityLayout(s, a[..], max);
    threw := false;
  }

  /** With values in `[0, max]`, every key lies in the `max + 1` entries of the table. */
  lemma IdentityKeys(s: seq<int>, max: int)
    requires max >= 0 && forall i :: 0 <= i < |s| ==> 0 <= s[i] <= max
    ensures KeysBelow(s, IdentityKey, max + 1)
  {
    forall i | 0 <= i < |s|
      ensures 0 <= IdentityKey(s[i]) < max + 1
    {
    }
  }

  /** With values in `[0, max]`, the layout by value is a sorted permutation. */
  lemma IdentityLayout(s: seq<int>, r: seq<int>, max: int)
    requires max >= 0 && forall i :: 0 <= i < |s| ==> 0 <= s[i] <= max
    requires r == Bucketed(s, IdentityKey, max + 1)
    ensures Sorted(r) && multiset(r) == multiset(s)
  {
    IdentityKeys(s, max);
    IdentitySorted(s, max + 1);
    BucketedPermutation(s, IdentityKey, max + 1);
  }

  /**
   * `countingSortForRadix(arr, exp)`: a counting pass keyed by the digit at place `exp`.
   * The values must be non-negative: JavaScript's `%` of a negative value is negative and
   * would index `count` below zero.
   */
  method CountingSortForRadix(a: array<int>, exp: int, stats: Stats) returns (stats': Stats)
    requires exp > 0
    requires forall i :: 0 <= i < a.Length ==> a[i] >= 0
    modifies a
    ensures a[..] == Bucketed(old(a[..]), DigitKey(exp), 10)
    ensures stats' == stats.(swaps := stats.swaps + a.Length)
  {
    forall i | 0 <= i < a.Length
      ensures 0 <= DigitKey(exp)(a[..][i]) < 10
    {
    }
    stats' := CountingPass(a, DigitKey(exp), 10, stats);
  }

  /**
   * `radixSort(arr)`: one digit pass for `exp = 1, 10, 100, ...` while `max / exp` is
   * positive, that is once per decimal digit of the maximum. After each pass the array is
   * ordered by the value modulo `10 exp`; after the last, modulo a power of ten above every
   * value, so it is sorted. An empty array makes no pass (`Math.max()` is `-Infinity`).
   */
  method RadixSort(a: array<int>, stats: Stats) returns (stats': Stats)
    requires forall i :: 0 <= i < a.Length ==> a[i] >= 0
    modifies a
    ensures Sorted(a[..]) && multiset(a[..]) == multiset(old(a[..]))
    ensures a.Length == 0 ==> stats' == stats
    ensures a.Length > 0 ==> stats' == stats.(swaps := stats.swaps + a.Length * DigitCount(MaxOf(old(a[..]))))
  {
    stats' := stats;
    if a.Length == 0 {
      return;
    }
    var max := MaxOf(a[..]);
    stats' := RadixPasses(a, max, stats);
  }

  /**
   * The `for (exp = 1; Math.floor(max / exp) > 0; exp *= 10)` loop of `radixSort`, for the
   * maximum `max` of `a`: one digit pass per decimal digit of `max`.
   */
  method RadixPasses(a: array<int>, max: int, stats: Stats) returns (stats': Stats)
    requires max >= 0 && Within(a[..], 0, max)
    modifies a
    ensures Sorted(a[..]) && multiset(a[..]) == multiset(old(a[..]))
    ensures stats' == stats.(swaps := stats.swaps + a.Length * DigitCount(max))
  {
    stats' := stats;
    ghost var k := 0;
    ghost var total: nat := 0;
    var exp := 1;
    ModOneOrdered(a[..]);
    assert max / 1 == max;
    while max / exp > 0
      invariant exp > 0 && k >= 0 && max / exp >= 0
      invariant multiset(a[..]) == multiset(old(a[..]))
      invariant Within(a[..], 0, max)
      invariant SortedBy(a[..], ModKey(exp))
      invariant DigitCount(max) == k + DigitCount(max / exp)
      invariant total == a.Length * k
      invariant stats' == stats.(swaps := stats.swaps + total)
      decreases max / exp
    {
      stats' := RadixRound(a, exp, max, stats');
      DigitStep(max, exp);
      MulSucc(a.Length, k);
      total := total + a.Length;
      exp := 10 * exp;
      k := k + 1;
    }
    DivZero(max, exp);
    RadixDone(a[..], exp, max);
  }

  /** Every array is ordered modulo 1, where all values are 0: the order before the first pass. */
  lemma ModOneOrdered(s: seq<int>)
    ensures SortedBy(s, ModKey(1))
  {
    forall i, j | 0 <= i < j < |s|
      ensures ModKey(1)(s[i]) <= ModKey(1)(s[j])
    {
    }
  }

  /** One turn of the loop of `radixSort`: a digit pass that extends the order to the next digit. */
  method RadixRound(a: array<int>, exp: int, max: int, stats: Stats) returns (stats': Stats)
    requires exp > 0 && Within(a[..], 0, max) && SortedBy(a[..], ModKey(exp))
    modifies a
    ensures multiset(a[..]) == multiset(old(a[..])) && Within(a[..], 0, max)
    ensures SortedBy(a[..], ModKey(10 * exp))
    ensures stats' == stats.(swaps := stats.swaps + a.Length)
  {
    ghost var t := a[..];
    stats' := CountingSortForRadix(a, exp, stats);
    RadixPass(t, a[..], exp, max);
  }

  /** While `floor(max / exp)` is positive, the next power of ten removes one digit of it. */
  lemma DigitStep(max: int, exp: int)
    requires max >= 0 && exp > 0 && max / exp > 0
    ensures 0 <= max / (10 * exp) < max / exp
    ensures DigitCount(max / exp) == 1 + DigitCount(max / (10 * exp))
  {
    ModSplit(max, exp);
    DivNonNegative(max, 10 * exp);
  }

  lemma MulSucc(n: int, k: int)
    ensures n * (k + 1) == n * k + n
  {
  }

  /**
   * One digit pass on `t`, ordered modulo `exp`, yields the layout `r` by the digit at `exp`:
   * the same elements, ordered modulo `10 exp`.
   */
  lemma RadixPass(t: seq<int>, r: seq<int>, exp: int, max: int)
    requires exp > 0 && Within(t, 0, max) && SortedBy(t, ModKey(exp))
    requires r == Bucketed(t, DigitKey(exp), 10)
    ensures multiset(r) == multiset(t) && Within(r, 0, max)
    ensures SortedBy(r, ModKey(10 * exp))
  {
    RadixStep(t, exp, 10);
    forall i | 0 <= i < |t|
      ensures 0 <= DigitKey(exp)(t[i]) < 10
    {
    }
    BucketedPermutation(t, DigitKey(exp), 10);
    WithinPermutation(r, t, 0, max);
  }

  /** Ordered modulo a bound above every element is sorted. */
  lemma RadixDone(r: seq<int>, exp: int, max: int)
    requires Within(r, 0, max) && max < exp && SortedBy(r, ModKey(exp))
    ensures Sorted(r)
  {
    forall i, j | 0 <= i < j < |r|
      ensures r[i] <= r[j]
    {
      ModSmall(r[i], exp);
      ModSmall(r[j], exp);
      assert ModKey(exp)(r[i]) <= ModKey(exp)(r[j]);
    }
  }
}
