/**
 * The arrangement the three non-comparison sorts produce. Each one assigns every element a
 * key in `[0, K)` (the value itself, a decimal digit, or a bucket index), and lays out the
 * elements with key 0, then those with key 1, and so on; within a key the elements keep
 * their input order.
 */
module KeyBuckets {
  import opened SortSpec
  import opened Arith

  /** `countingSort` keys each element by its value. */
  const IdentityKey: int -> int := v => v

  /** `countingSortForRadix(arr, exp)` keys each element by its digit `Math.floor(v / exp) % 10`. */
  function DigitKey(exp: int): int -> int
  {
    v => if exp > 0 then (v / exp) % 10 else 0
  }

  /** `bucketSort` keys each element by its bucket index `Math.floor(v / max * (n - 1))`. */
  function BucketKey(max: int, n: int): int -> int
  {
    v => if max > 0 then BucketIndex(v, max, n) else 0
  }

  /** The remainder modulo `m`, in which radix sort has ordered the array after each pass. */
  function ModKey(m: int): int -> int
  {
    v => if m > 0 then v % m else 0
  }

  /** How many elements of `s` have key `w`. */
  ghost function CountEq(s: seq<int>, key: int -> int, w: int): nat
  {
    if s == [] then 0
    else CountEq(s[..|s| - 1], key, w) + (if key(s[|s| - 1]) == w then 1 else 0)
  }

  /** How many elements of `s` have a key in `[0, w)`. */
  ghost function CountLt(s: seq<int>, key: int -> int, w: int): nat
    decreases w
  {
    if w <= 0 then 0 else CountLt(s, key, w - 1) + CountEq(s, key, w - 1)
  }

  /** The elements of `s` with key `w`, in their order in `s`. */
  ghost function Filter(s: seq<int>, key: int -> int, w: int): (r: seq<int>)
    ensures |r| == CountEq(s, key, w)
  {
    if s == [] then []
    else Filter(s[..|s| - 1], key, w) + (if key(s[|s| - 1]) == w then [s[|s| - 1]] else [])
  }

  /** The pieces of keys `0 .. K-1`, one after the other. */
  ghost function Bucketed(s: seq<int>, key: int -> int, K: int): (r: seq<int>)
    ensures |r| == CountLt(s, key, K)
    decreases K
  {
    if K <= 0 then [] else Bucketed(s, key, K - 1) + Filter(s, key, K - 1)
  }

  /** How many of the first `n` elements of `s` have key `w`. */
  ghost function CountIn(s: seq<int>, n: int, key: int -> int, w: int): nat
    requires 0 <= n <= |s|
  {
    if n == 0 then 0 else CountIn(s, n - 1, key, w) + (if key(s[n - 1]) == w then 1 else 0)
  }

  /** Counting in the first `n` elements is counting in the prefix `s[..n]`. */
  lemma {:induction false} CountInPrefix(s: seq<int>, n: int, key: int -> int, w: int)
    requires 0 <= n <= |s|
    ensures CountIn(s, n, key, w) == CountEq(s[..n], key, w)
  {
    if n > 0 {
      CountInPrefix(s, n - 1, key, w);
      assert s[..n][..n - 1] == s[..n - 1];
    }
  }

  /** Adding `s[j]` to the prefix `s[..j]` adds one to the count of its key. */
  lemma CountEqSnoc(s: seq<int>, key: int -> int, w: int, j: int)
    requires 0 <= j < |s|
    ensures CountEq(s[..j + 1], key, w) == CountEq(s[..j], key, w) + (if key(s[j]) == w then 1 else 0)
  {
    assert s[..j + 1][..j] == s[..j];
  }

  /** A prefix has no more elements of a key than the whole. */
  lemma {:induction false} CountEqPrefix(s: seq<int>, key: int -> int, w: int, j: int)
    requires 0 <= j <= |s|
    ensures CountEq(s[..j], key, w) <= CountEq(s, key, w)
    decreases |s|
  {
    if j < |s| {
      var init := s[..|s| - 1];
      assert s[..j] == init[..j];
      CountEqPrefix(init, key, w, j);
    } else {
      assert s[..j] == s;
    }
  }

  /** `CountLt` grows with the bound. */
  lemma {:induction false} CountLtMonotone(s: seq<int>, key: int -> int, w1: int, w2: int)
    requires w1 <= w2
    ensures CountLt(s, key, w1) <= CountLt(s, key, w2)
    decreases w2 - w1
  {
    if w1 < w2 {
      CountLtMonotone(s, key, w1, w2 - 1);
    }
  }

  /** Adding the last element of `s` to the rest adds one below `K` exactly when its key lies in `[0, K)`. */
  lemma {:induction false} CountLtSnoc(s: seq<int>, key: int -> int, K: int)
    requires s != []
    ensures CountLt(s, key, K) == CountLt(s[..|s| - 1], key, K) + (if 0 <= key(s[|s| - 1]) < K then 1 else 0)
    decreases K
  {
    if K > 0 {
      CountLtSnoc(s, key, K - 1);
    }
  }

  lemma {:induction false} CountLtNil(key: int -> int, K: int)
    ensures CountLt([], key, K) == 0
    decreases K
  {
    if K > 0 {
      CountLtNil(key, K - 1);
    }
  }

  /** Every key in `[0, K)`: the elements below `K` are all of `s`. */
  ghost predicate KeysBelow(s: seq<int>, key: int -> int, K: int)
  {
    forall i :: 0 <= i < |s| ==> 0 <= key(s[i]) < K
  }

  lemma {:induction false} CountLtAll(s: seq<int>, key: int -> int, K: int)
    requires KeysBelow(s, key, K)
    ensures CountLt(s, key, K) == |s|
    decreases |s|
  {
    if s != [] {
      var init := s[..|s| - 1];
      CountLtSnoc(s, key, K);
      assert 0 <= key(s[|s| - 1]) < K;
      forall i | 0 <= i < |init|
        ensures 0 <= key(init[i]) < K
      {
        assert init[i] == s[i];
      }
      CountLtAll(init, key, K);
    } else {
      CountLtNil(key, K);
    }
  }

  /** The elements of key `w` in a prefix of `s` come first, in the same order, among those of `s`. */
  lemma {:induction false} FilterPrefix(s: seq<int>, key: int -> int, w: int, j: int)
    requires 0 <= j <= |s|
    ensures CountEq(s[..j], key, w) <= CountEq(s, key, w)
    ensures forall p :: 0 <= p < CountEq(s[..j], key, w) ==> Filter(s, key, w)[p] == Filter(s[..j], key, w)[p]
    decreases |s|
  {
    if j < |s| {
      var init := s[..|s| - 1];
      assert s[..j] == init[..j];
      FilterPrefix(init, key, w, j);
      CountEqPrefix(init, key, w, j);
    } else {
      assert s[..j] == s;
    }
  }

  /** `s[j]` is the element of its key at index "how many of that key come before it". */
  lemma FilterAt(s: seq<int>, key: int -> int, j: int)
    requires 0 <= j < |s|
    ensures CountEq(s[..j], key, key(s[j])) < CountEq(s, key, key(s[j]))
    ensures Filter(s, key, key(s[j]))[CountEq(s[..j], key, key(s[j]))] == s[j]
  {
    var w := key(s[j]);
    var t := s[..j + 1];
    assert t[..|t| - 1] == s[..j];
    assert Filter(t, key, w) == Filter(s[..j], key, w) + [s[j]];
    FilterPrefix(s, key, w, j + 1);
    CountEqPrefix(s, key, w, j + 1);
  }

  /** The layout for keys below `K1` is a prefix of the layout for keys below `K2`. */
  lemma {:induction false} BucketedPrefix(s: seq<int>, key: int -> int, K1: int, K2: int)
    requires 0 <= K1 <= K2
    ensures CountLt(s, key, K1) <= CountLt(s, key, K2)
    ensures forall p :: 0 <= p < CountLt(s, key, K1) ==>
      Bucketed(s, key, K2)[p] == Bucketed(s, key, K1)[p]
    decreases K2 - K1
  {
    if K1 < K2 {
      BucketedPrefix(s, key, K1, K2 - 1);
      CountLtMonotone(s, key, K1, K2 - 1);
    }
  }

  /** The piece of key `w` starts at offset `CountLt(w)` of the layout. */
  lemma BucketedAt(s: seq<int>, key: int -> int, K: int, w: int, t: int)
    requires 0 <= w < K && 0 <= t < CountEq(s, key, w)
    ensures CountLt(s, key, w) + t < CountLt(s, key, K)
    ensures Bucketed(s, key, K)[CountLt(s, key, w) + t] == Filter(s, key, w)[t]
  {
    var p := CountLt(s, key, w) + t;
    var b := Bucketed(s, key, w + 1);
    assert b == Bucketed(s, key, w) + Filter(s, key, w);
    assert b[p] == Filter(s, key, w)[t];
    assert CountLt(s, key, w + 1) == CountLt(s, key, w) + CountEq(s, key, w);
    BucketedPrefix(s, key, w + 1, K);
  }

  /** Every element of the piece of key `w` has key `w` and comes from `s`. */
  lemma {:induction false} FilterKeys(s: seq<int>, key: int -> int, w: int)
    ensures forall p :: 0 <= p < |Filter(s, key, w)| ==> key(Filter(s, key, w)[p]) == w
    ensures multiset(Filter(s, key, w)) <= multiset(s)
    decreases |s|
  {
    if s != [] {
      var init := s[..|s| - 1];
      FilterKeys(init, key, w);
      assert s == init + [s[|s| - 1]];
    }
  }

  /** Every element of the layout for keys below `K` has its key in `[0, K)` and comes from `s`. */
  lemma {:induction false} BucketedKeys(s: seq<int>, key: int -> int, K: int)
    ensures forall p :: 0 <= p < |Bucketed(s, key, K)| ==> 0 <= key(Bucketed(s, key, K)[p]) < K
    ensures forall p :: 0 <= p < |Bucketed(s, key, K)| ==> Bucketed(s, key, K)[p] in multiset(s)
    decreases K
  {
    if K > 0 {
      BucketedKeys(s, key, K - 1);
      FilterKeys(s, key, K - 1);
    }
  }

  /** One more key adds its elements to the layout. */
  lemma BucketedStep(s: seq<int>, key: int -> int, K: int)
    requires K > 0
    ensures multiset(Bucketed(s, key, K)) ==
      multiset(Bucketed(s, key, K - 1)) + multiset(Filter(s, key, K - 1))
  {
    assert Bucketed(s, key, K) == Bucketed(s, key, K - 1) + Filter(s, key, K - 1);
  }

  /** The elements of `s` with a key in `[0, K)`, in their order in `s`. */
  ghost function Below(s: seq<int>, key: int -> int, K: int): seq<int>
  {
    if s == [] then []
    else Below(s[..|s| - 1], key, K) + (if 0 <= key(s[|s| - 1]) < K then [s[|s| - 1]] else [])
  }

  /** The elements below `K` are those below `K - 1` and those of key `K - 1`. */
  lemma {:induction false} BelowSplit(s: seq<int>, key: int -> int, K: int)
    requires K > 0
    ensures multiset(Below(s, key, K)) == multiset(Below(s, key, K - 1)) + multiset(Filter(s, key, K - 1))
    decreases |s|
  {
    if s != [] {
      BelowSplit(s[..|s| - 1], key, K);
    }
  }

  /** With every key in `[0, K)` no element is dropped. */
  lemma {:induction false} BelowAll(s: seq<int>, key: int -> int, K: int)
    requires KeysBelow(s, key, K)
    ensures Below(s, key, K) == s
    decreases |s|
  {
    if s != [] {
      var init := s[..|s| - 1];
      forall i | 0 <= i < |init|
        ensures 0 <= key(init[i]) < K
      {
        assert init[i] == s[i];
      }
      BelowAll(init, key, K);
      assert 0 <= key(s[|s| - 1]) < K;
    }
  }

  /** The layout for keys below `K` holds exactly the elements with a key in `[0, K)`. */
  lemma {:induction false} BucketedBelow(s: seq<int>, key: int -> int, K: int)
    requires K >= 0
    ensures multiset(Bucketed(s, key, K)) == multiset(Below(s, key, K))
    decreases K
  {
    if K > 0 {
      BucketedBelow(s, key, K - 1);
      BelowSplit(s, key, K);
      BucketedStep(s, key, K);
      assert multiset(Bucketed(s, key, K)) == multiset(Below(s, key, K));
    } else {
      BelowNone(s, key);
      assert K == 0;
      assert Bucketed(s, key, 0) == [];
      assert multiset(Bucketed(s, key, K)) == multiset(Below(s, key, K));
    }
  }

  lemma {:induction false} BelowNone(s: seq<int>, key: int -> int)
    ensures Below(s, key, 0) == []
    decreases |s|
  {
    if s != [] {
      BelowNone(s[..|s| - 1], key);
    }
  }

  /** With every key in `[0, K)` the layout is a permutation of `s`. */
  lemma BucketedPermutation(s: seq<int>, key: int -> int, K: int)
    requires K >= 0 && KeysBelow(s, key, K)
    ensures multiset(Bucketed(s, key, K)) == multiset(s)
  {
    BucketedBelow(s, key, K);
    BelowAll(s, key, K);
  }

  /** `s` is ordered by the measure `f`. */
  ghost predicate SortedBy(s: seq<int>, f: int -> int)
  {
    forall i, j :: 0 <= i < j < |s| ==> f(s[i]) <= f(s[j])
  }

  /** By the measure `f`, every element of `a` is at most every element of `b`. */
  ghost predicate AllBelowBy(a: seq<int>, b: seq<int>, f: int -> int)
  {
    forall i, j :: 0 <= i < |a| && 0 <= j < |b| ==> f(a[i]) <= f(b[j])
  }

  /** Two runs ordered by `f`, and by `f` across the boundary, concatenate to an ordered run. */
  lemma SortedByConcat(a: seq<int>, b: seq<int>, f: int -> int)
    requires SortedBy(a, f) && SortedBy(b, f) && AllBelowBy(a, b, f)
    ensures SortedBy(a + b, f)
  {
    forall i, j | 0 <= i < j < |a + b|
      ensures f((a + b)[i]) <= f((a + b)[j])
    {
      if j < |a| {
        assert (a + b)[i] == a[i] && (a + b)[j] == a[j];
      } else if i < |a| {
        assert (a + b)[i] == a[i] && (a + b)[j] == b[j - |a|];
      } else {
        assert (a + b)[i] == b[i - |a|] && (a + b)[j] == b[j - |a|];
      }
    }
  }

  /** Picking out the elements of one key keeps any order `s` had. */
  lemma {:induction false} FilterSortedBy(s: seq<int>, key: int -> int, w: int, f: int -> int)
    requires SortedBy(s, f)
    ensures SortedBy(Filter(s, key, w), f)
    decreases |s|
  {
    if s != [] {
      var init, x := s[..|s| - 1], s[|s| - 1];
      assert SortedBy(init, f) by {
        forall i, j | 0 <= i < j < |init|
          ensures f(init[i]) <= f(init[j])
        {
          assert init[i] == s[i] && init[j] == s[j];
        }
      }
      FilterSortedBy(init, key, w, f);
      if key(x) == w {
        var r := Filter(init, key, w);
        FilterKeys(init, key, w);
        forall i | 0 <= i < |r|
          ensures f(r[i]) <= f(x)
        {
          assert r[i] in multiset(r);
          assert r[i] in multiset(init);
          var m :| 0 <= m < |init| && init[m] == r[i];
          assert s[m] == r[i];
        }
        SortedByConcat(r, [x], f);
      }
    }
  }

  /** A smaller key implies the order `g` between any two elements of `s`. */
  ghost predicate KeyDecides(s: seq<int>, key: int -> int, g: int -> int)
  {
    forall m, n :: 0 <= m < |s| && 0 <= n < |s| && key(s[m]) < key(s[n]) ==> g(s[m]) <= g(s[n])
  }

  /** Between equal keys, the order `f` implies the order `g`. */
  ghost predicate TiesKept(s: seq<int>, key: int -> int, f: int -> int, g: int -> int)
  {
    forall m, n :: 0 <= m < |s| && 0 <= n < |s| && key(s[m]) == key(s[n]) && f(s[m]) <= f(s[n]) ==>
      g(s[m]) <= g(s[n])
  }

  /** One piece of the layout is ordered by `g`. */
  lemma FilterOrdered(s: seq<int>, key: int -> int, w: int, f: int -> int, g: int -> int)
    requires SortedBy(s, f) && TiesKept(s, key, f, g)
    ensures SortedBy(Filter(s, key, w), g)
  {
    var r := Filter(s, key, w);
    FilterKeys(s, key, w);
    FilterSortedBy(s, key, w, f);
    forall i, j | 0 <= i < j < |r|
      ensures g(r[i]) <= g(r[j])
    {
      assert r[i] in multiset(r) && r[j] in multiset(r);
      var m :| 0 <= m < |s| && s[m] == r[i];
      var n :| 0 <= n < |s| && s[n] == r[j];
      assert key(s[m]) == key(s[n]) && f(s[m]) <= f(s[n]);
    }
  }

  /** Everything laid out before the piece of key `K - 1` is below each of its elements by `g`. */
  lemma CrossOrdered(s: seq<int>, key: int -> int, K: int, g: int -> int)
    requires K > 0 && KeyDecides(s, key, g)
    ensures AllBelowBy(Bucketed(s, key, K - 1), Filter(s, key, K - 1), g)
  {
    var b, r := Bucketed(s, key, K - 1), Filter(s, key, K - 1);
    BucketedKeys(s, key, K - 1);
    FilterKeys(s, key, K - 1);
    forall i, j | 0 <= i < |b| && 0 <= j < |r|
      ensures g(b[i]) <= g(r[j])
    {
      assert r[j] in multiset(r);
      var m :| 0 <= m < |s| && s[m] == b[i];
      var n :| 0 <= n < |s| && s[n] == r[j];
      assert key(s[m]) < key(s[n]);
    }
  }

  /**
   * The layout is ordered by `g` when a smaller key implies an order by `g`, and equal keys
   * imply it wherever the input order `f` of `s` does: the pieces come in key order and each
   * keeps the order of `s`.
   */
  lemma {:induction false} BucketedOrdered(s: seq<int>, key: int -> int, K: int, f: int -> int, g: int -> int)
    requires SortedBy(s, f) && KeyDecides(s, key, g) && TiesKept(s, key, f, g)
    ensures SortedBy(Bucketed(s, key, K), g)
    decreases K
  {
    if K > 0 {
      BucketedOrdered(s, key, K - 1, f, g);
      FilterOrdered(s, key, K - 1, f, g);
      CrossOrdered(s, key, K, g);
      SortedByConcat(Bucketed(s, key, K - 1), Filter(s, key, K - 1), g);
    }
  }

  /** Counting sort's layout is sorted: its key is the value itself. */
  lemma IdentitySorted(s: seq<int>, K: int)
    ensures Sorted(Bucketed(s, IdentityKey, K))
  {
    var b := Bucketed(s, IdentityKey, K);
    assert SortedBy(s, v => 0) by {
      forall i, j | 0 <= i < j < |s| ensures (v => 0)(s[i]) <= (v => 0)(s[j]) { }
    }
    BucketedOrdered(s, IdentityKey, K, v => 0, IdentityKey);
    forall i, j | 0 <= i < j < |b|
      ensures b[i] <= b[j]
    {
      assert IdentityKey(b[i]) <= IdentityKey(b[j]);
    }
  }

  /**
   * One pass of radix sort: laying out by the digit at place `e` an array of non-negative
   * values ordered modulo `e` orders it modulo `10e`. The digit decides between different
   * digits; the stable layout keeps the order modulo `e` between equal digits.
   */
  lemma RadixStep(s: seq<int>, e: int, K: int)
    requires e > 0 && forall i :: 0 <= i < |s| ==> s[i] >= 0
    requires SortedBy(s, ModKey(e))
    ensures SortedBy(Bucketed(s, DigitKey(e), K), ModKey(10 * e))
  {
    var key, f, g := DigitKey(e), ModKey(e), ModKey(10 * e);
    forall m, n | 0 <= m < |s| && 0 <= n < |s|
      ensures key(s[m]) < key(s[n]) ==> g(s[m]) <= g(s[n])
      ensures key(s[m]) == key(s[n]) && f(s[m]) <= f(s[n]) ==> g(s[m]) <= g(s[n])
    {
      DigitOrder(s[m], s[n], e);
    }
    BucketedOrdered(s, key, K, f, g);
  }
}
