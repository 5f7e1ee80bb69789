/**
 * The max-heap panel of the tree visualizer: a heap stored in an array, where the parent of
 * index `k > 0` is `(k - 1) / 2`. Insertion appends to a copy and sifts the new element up.
 */
module HeapInsert {

  /** `Math.floor((index - 1) / 2)`: the node whose two children are `2p+1` and `2p+2`. */
  function Parent(k: int): (p: int)
    ensures k > 0 ==> 0 <= p < k && (k == 2 * p + 1 || k == 2 * p + 2)
  {
    (k - 1) / 2
  }

  /** Every parent is at least its children, the property the panel states. */
  ghost predicate MaxHeap(s: seq<int>)
  {
    forall k :: 0 < k < |s| ==> s[Parent(k)] >= s[k]
  }

  /**
   * A max-heap except that `s[i]` may exceed its parent; `i`'s parent still dominates `i`'s
   * children. This is what holds while the new element climbs.
   */
  ghost predicate HeapBelow(s: seq<int>, i: int)
  {
    (forall k :: 0 < k < |s| && k != i ==> s[Parent(k)] >= s[k]) &&
    (forall k :: 0 < k < |s| && 0 < i && Parent(k) == i ==> s[Parent(i)] >= s[k])
  }

  /** `k` lies on the path from `i` up to the root. */
  ghost predicate OnPath(k: int, i: int)
    decreases i
  {
    k == i || (i > 0 && OnPath(k, Parent(i)))
  }

  /**
   * `heapifyUp(heap, index)`: while the element at `index` is greater than its parent the
   * two are swapped and the parent's index is taken next. Only indices on the path to the
   * root change, the contents stay the same, and a heap broken only at `index` is repaired.
   */
  method HeapifyUp(heap: array<int>, index: int)
    requires 0 <= index < heap.Length
    modifies heap
    ensures multiset(heap[..]) == multiset(old(heap[..]))
    ensures forall k :: 0 <= k < heap.Length && !OnPath(k, index) ==> heap[k] == old(heap[k])
    ensures HeapBelow(old(heap[..]), index) ==> MaxHeap(heap[..])
    decreases index
  {
    if index == 0 {
      return;
    }
    var parentIndex := Parent(index);
    if heap[parentIndex] < heap[index] {
      ghost var before := heap[..];
      heap[parentIndex], heap[index] := heap[index], heap[parentIndex];
      SwapUp(before, heap[..], index);
      HeapifyUp(heap, parentIndex);
    }
  }

  /** One swap of the climbing element with its parent moves the exception one level up. */
  lemma SwapUp(s: seq<int>, t: seq<int>, i: int)
    requires 0 < i < |s| && |t| == |s| && s[Parent(i)] < s[i]
    requires t == s[Parent(i) := s[i]][i := s[Parent(i)]]
    ensures multiset(t) == multiset(s)
    ensures HeapBelow(s, i) ==> HeapBelow(t, Parent(i))
  {
    assert t == s[i := s[Parent(i)]][Parent(i) := s[i]];
    if HeapBelow(s, i) {
      SwapUpOrder(s, t, i);
    }
  }

  /** The order half of `SwapUp`: every parent but the new exception dominates its child. */
  lemma SwapUpOrder(s: seq<int>, t: seq<int>, i: int)
    requires 0 < i < |s| && |t| == |s| && s[Parent(i)] < s[i]
    requires t == s[Parent(i) := s[i]][i := s[Parent(i)]]
    requires HeapBelow(s, i)
    ensures HeapBelow(t, Parent(i))
  {
    var p := Parent(i);
    forall k | 0 < k < |t| && k != p
      ensures t[Parent(k)] >= t[k]
    {
      if k != i && Parent(k) != i && Parent(k) != p {
        assert s[Parent(k)] >= s[k];
      }
    }
    forall k | 0 < k < |t| && 0 < p && Parent(k) == p
      ensures t[Parent(p)] >= t[k]
    {
      assert s[Parent(p)] >= s[p];
    }
  }

  /**
   * `insertHeap(heap, value)`: a new array, one longer, holding the old elements and then
   * `value`, after which `value` climbs to its place. The input is a value and so unchanged;
   * a max-heap stays one.
   */
  method InsertHeap(heap: seq<int>, value: int) returns (newHeap: seq<int>)
    ensures |newHeap| == |heap| + 1
    ensures multiset(newHeap) == multiset(heap) + multiset{value}
    ensures MaxHeap(heap) ==> MaxHeap(newHeap)
    ensures forall k :: 0 <= k < |heap| && !OnPath(k, |heap|) ==> newHeap[k] == heap[k]
  {
    var s := heap + [value];
    var a := new int[|s|](i requires 0 <= i < |s| => s[i]);
    assert a[..] == s;
    if MaxHeap(heap) {
      AppendBelow(heap, value);
    }
    HeapifyUp(a, a.Length - 1);
    newHeap := a[..];
  }

  /** Appending to a max-heap leaves it broken at most at the new last index. */
  lemma AppendBelow(heap: seq<int>, value: int)
    requires MaxHeap(heap)
    ensures HeapBelow(heap + [value], |heap|)
  {
    var s := heap + [value];
    forall k | 0 < k < |s| && k != |heap|
      ensures s[Parent(k)] >= s[k]
    {
      assert heap[Parent(k)] >= heap[k];
    }
  }

  /** In a max-heap the root is the largest element. */
  lemma {:induction false} RootIsMax(s: seq<int>, k: int)
    requires MaxHeap(s) && 0 <= k < |s|
    ensures s[0] >= s[k]
    decreases k
  {
    if k > 0 {
      RootIsMax(s, Parent(k));
    }
  }
}
