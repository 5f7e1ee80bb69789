/** Specification vocabulary shared by all nine sorting procedures. */
module SortSpec {

  /** Non-decreasing order. */
  ghost predicate Sorted(s: seq<int>)
  {
    forall i, j :: 0 <= i < j < |s| ==> s[i] <= s[j]
  }

  /** Every element of `s` is at most every element of `t`. */
  ghost predicate AllLe(s: seq<int>, t: seq<int>)
  {
    forall i, j :: 0 <= i < |s| && 0 <= j < |t| ==> s[i] <= t[j]
  }

  /** All elements of `s` lie in the closed interval [lo, hi]. */
  ghost predicate Within(s: seq<int>, lo: int, hi: int)
  {
    forall i :: 0 <= i < |s| ==> lo <= s[i] <= hi
  }

  /**
   * The suffix `s[m..]` is in final position: it is sorted and no element before it is
   * larger than any element in it.
   */
  ghost predicate SuffixFinal(s: seq<int>, m: int)
  {
    forall k, l :: 0 <= k < l < |s| && m <= l ==> s[k] <= s[l]
  }

  /** The prefix `s[..m]` is in final position (the mirror image of SuffixFinal). */
  ghost predicate PrefixFinal(s: seq<int>, m: int)
  {
    forall k, l :: 0 <= k < l < |s| && k < m ==> s[k] <= s[l]
  }

  /** Two sorted runs whose elements are ordered across the boundary concatenate to a sorted run. */
  lemma SortedConcat(s: seq<int>, t: seq<int>)
    requires Sorted(s) && Sorted(t) && AllLe(s, t)
    ensures Sorted(s + t)
  {
  }

  /** A bound on every element carries over to every permutation. */
  lemma WithinPermutation(s: seq<int>, t: seq<int>, lo: int, hi: int)
    requires multiset(s) == multiset(t) && Within(t, lo, hi)
    ensures Within(s, lo, hi)
  {
    forall i | 0 <= i < |s| ensures lo <= s[i] <= hi {
      assert s[i] in multiset(t);
      var j :| 0 <= j < |t| && t[j] == s[i];
    }
  }

  /** A strict upper bound on every element carries over to every permutation. */
  lemma BelowPermutation(s: seq<int>, t: seq<int>, bound: int)
    requires multiset(s) == multiset(t)
    requires forall i :: 0 <= i < |t| ==> t[i] < bound
    ensures forall i :: 0 <= i < |s| ==> s[i] < bound
  {
    forall i | 0 <= i < |s| ensures s[i] < bound {
      assert s[i] in multiset(t);
      var j :| 0 <= j < |t| && t[j] == s[i];
    }
  }

  /** A lower bound on every element carries over to every permutation. */
  lemma AbovePermutation(s: seq<int>, t: seq<int>, bound: int)
    requires multiset(s) == multiset(t)
    requires forall i :: 0 <= i < |t| ==> bound <= t[i]
    ensures forall i :: 0 <= i < |s| ==> bound <= s[i]
  {
    forall i | 0 <= i < |s| ensures bound <= s[i] {
      assert s[i] in multiset(t);
      var j :| 0 <= j < |t| && t[j] == s[i];
    }
  }

  /**
   * When `t` permutes `s` and agrees with it outside `[lo, hi)`, the segment `t[lo..hi]`
   * permutes `s[lo..hi]`.
   */
  lemma SegmentPermutation(s: seq<int>, t: seq<int>, lo: int, hi: int)
    requires 0 <= lo <= hi <= |s| == |t|
    requires multiset(s) == multiset(t)
    requires forall k :: 0 <= k < |s| && (k < lo || hi <= k) ==> s[k] == t[k]
    ensures multiset(s[lo..hi]) == multiset(t[lo..hi])
  {
    var p, q := s[..lo], s[hi..];
    assert s[..lo] == t[..lo] && s[hi..] == t[hi..];
    assert s == p + s[lo..hi] + q;
    assert t == p + t[lo..hi] + q;
    MultisetCancel(multiset(p), multiset(q), multiset(s[lo..hi]), multiset(t[lo..hi]));
  }

  lemma MultisetCancel(p: multiset<int>, q: multiset<int>, x: multiset<int>, y: multiset<int>)
    requires p + x + q == p + y + q
    ensures x == y
  {
    forall e
      ensures x[e] == y[e]
    {
      assert (p + x + q)[e] == (p + y + q)[e];
    }
  }

  /** The number of elements of `t` strictly below `x`. */
  ghost function Below(x: int, t: seq<int>): nat
  {
    if t == [] then 0 else (if t[0] < x then 1 else 0) + Below(x, t[1..])
  }

  /**
   * The number of inversions of `s`: the pairs `i < j` with `s[i] > s[j]`, counted for
   * each `i` as the elements after it that are below it.
   */
  ghost function Inversions(s: seq<int>): nat
  {
    if s == [] then 0 else Below(s[0], s[1..]) + Inversions(s[1..])
  }

  /** `s` with the adjacent elements at `j` and `j+1` exchanged. */
  ghost function SwapAt(s: seq<int>, j: int): (t: seq<int>)
    requires 0 <= j < |s| - 1
    ensures |t| == |s| && t[j] == s[j + 1] && t[j + 1] == s[j]
    ensures forall k :: 0 <= k < |s| && k != j && k != j + 1 ==> t[k] == s[k]
  {
    s[j := s[j + 1]][j + 1 := s[j]]
  }

  /** An adjacent exchange does not change how many elements lie below `x`. */
  lemma {:induction false} BelowSwap(x: int, s: seq<int>, j: int)
    requires 0 <= j < |s| - 1
    ensures Below(x, SwapAt(s, j)) == Below(x, s)
  {
    var t := SwapAt(s, j);
    if j == 0 {
      assert s == [s[0], s[1]] + s[2..];
      assert t == [s[1], s[0]] + s[2..];
      BelowPair(x, s[0], s[1], s[2..]);
      BelowPair(x, s[1], s[0], s[2..]);
    } else {
      assert t[1..] == SwapAt(s[1..], j - 1);
      BelowSwap(x, s[1..], j - 1);
    }
  }

  lemma BelowPair(x: int, a: int, b: int, r: seq<int>)
    ensures Below(x, [a, b] + r) == (if a < x then 1 else 0) + (if b < x then 1 else 0) + Below(x, r)
  {
    assert ([a, b] + r)[1..] == [b] + r;
    assert ([b] + r)[1..] == r;
  }

  /** Exchanging an adjacent pair that is out of order removes exactly one inversion. */
  lemma {:induction false} AdjacentSwap(s: seq<int>, j: int)
    requires 0 <= j < |s| - 1 && s[j] > s[j + 1]
    ensures Inversions(SwapAt(s, j)) + 1 == Inversions(s)
  {
    var t := SwapAt(s, j);
    if j == 0 {
      assert s == [s[0], s[1]] + s[2..];
      assert t == [s[1], s[0]] + s[2..];
      HeadSwap(s[0], s[1], s[2..]);
    } else {
      assert t[1..] == SwapAt(s[1..], j - 1);
      AdjacentSwap(s[1..], j - 1);
      TailSwap(s, j);
    }
  }

  /** An exchange behind the head changes the inversions only behind the head. */
  lemma TailSwap(s: seq<int>, j: int)
    requires 1 <= j < |s| - 1
    ensures Inversions(SwapAt(s, j)) - Inversions(SwapAt(s, j)[1..]) == Inversions(s) - Inversions(s[1..])
  {
    var t := SwapAt(s, j);
    assert t[1..] == SwapAt(s[1..], j - 1);
    BelowSwap(s[0], s[1..], j - 1);
  }

  lemma HeadSwap(x: int, y: int, r: seq<int>)
    requires x > y
    ensures Inversions([y, x] + r) + 1 == Inversions([x, y] + r)
  {
    assert ([x, y] + r)[1..] == [y] + r && ([y, x] + r)[1..] == [x] + r;
    assert ([y] + r)[1..] == r && ([x] + r)[1..] == r;
    assert Below(x, [y] + r) == 1 + Below(x, r);
    assert Below(y, [x] + r) == Below(y, r);
  }

  /** No element of `t` is below a lower bound of `t`. */
  lemma {:induction false} BelowNone(x: int, t: seq<int>)
    requires forall k :: 0 <= k < |t| ==> x <= t[k]
    ensures Below(x, t) == 0
  {
    if t != [] {
      BelowNone(x, t[1..]);
    }
  }

  /** A sorted sequence has no inversions. */
  lemma {:induction false} SortedInversions(s: seq<int>)
    requires Sorted(s)
    ensures Inversions(s) == 0
  {
    if s != [] {
      BelowNone(s[0], s[1..]);
      SortedInversions(s[1..]);
    }
  }

  /** The destructuring swap `[arr[i], arr[j]] = [arr[j], arr[i]]` used by the in-place sorts. */
  method Swap(a: array<int>, i: int, j: int)
    requires 0 <= i < a.Length && 0 <= j < a.Length
    modifies a
    ensures a[i] == old(a[j]) && a[j] == old(a[i])
    ensures forall k :: 0 <= k < a.Length && k != i && k != j ==> a[k] == old(a[k])
    ensures multiset(a[..]) == multiset(old(a[..]))
  {
    a[i], a[j] := a[j], a[i];
  }

  /** `Math.max(...arr)` of a non-empty array: an element that no element exceeds. */
  function MaxOf(s: seq<int>): (m: int)
    requires s != []
    ensures m in s
    ensures forall i :: 0 <= i < |s| ==> s[i] <= m
  {
    if |s| == 1 then s[0]
    else
      var r := MaxOf(s[..|s| - 1]);
      assert forall i :: 0 <= i < |s| - 1 ==> s[..|s| - 1][i] == s[i];
      if s[|s| - 1] > r then s[|s| - 1] else r
  }
}
