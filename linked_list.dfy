/**
 * The linked-list visualizer: the list is a sequence of node records laid out left to
 * right, and an insertion is queued as an animation that a React effect starts once nothing
 * is animating. Each animation first puts the new node into the list, then, after its
 * timers, lays the list out again and ends the animation.
 */
module LinkedLists {
  import opened Text

  /** A node's `value`: `parseInt(inputValue) || inputValue`, a number or the raw text. */
  datatype Value = Num(n: int) | Str(s: string)

  /** A node record; `isNew` is absent (false) on the initial node. */
  datatype ListNode = ListNode(id: int, value: Value, x: int, isNew: bool)

  /** The three choices of `insertPosition`. */
  datatype Position = Beginning | End | AtIndex

  /**
   * What a queued animation does to the list. Index insertion splices into the list as it
   * was when the node was added (the closure's `nodes`), the other two into the current one.
   */
  datatype Animation = AddToEnd(node: ListNode) | AddToBeginning(node: ListNode) | AddAt(node: ListNode, index: nat, base: seq<ListNode>)

  const Spacing: int := 120

  /** The initial list, and the one `reset` restores: a single node with id 1 and value 10. */
  function InitialNodes(): seq<ListNode>
  {
    [ListNode(1, Num(10), 100, false)]
  }

  /**
   * `parseInt(inputValue) || inputValue`, where `parsed` is what `parseInt` returned (`None`
   * for `NaN`): a number unless it is `NaN` or `0`, both falsy, which give the text.
   */
  function NodeValue(parsed: Option<int>, input: string): (v: Value)
    ensures v.Num? <==> parsed.Some? && parsed.get != 0
    ensures v.Str? ==> v.s == input
  {
    if parsed.Some? && parsed.get != 0 then Num(parsed.get) else Str(input)
  }

  import opened Options

  /** `Math.max(0, Math.min(targetIndex, nodes.length))`. */
  function SafeIndex(targetIndex: int, length: nat): (i: nat)
    ensures i <= length
    ensures 0 <= targetIndex <= length ==> i == targetIndex
    ensures targetIndex < 0 ==> i == 0
    ensures targetIndex > length ==> i == length
  {
    if targetIndex < 0 then 0 else if targetIndex > length then length else targetIndex
  }

  /** `newNodes.splice(i, 0, node)` on a copy: the node goes in before position `i`. */
  function InsertAt(nodes: seq<ListNode>, i: nat, node: ListNode): (r: seq<ListNode>)
    requires i <= |nodes|
    ensures |r| == |nodes| + 1 && r[i] == node
    ensures forall k :: 0 <= k < i ==> r[k] == nodes[k]
    ensures forall k :: i < k < |r| ==> r[k] == nodes[k - 1]
  {
    nodes[..i] + [node] + nodes[i..]
  }

  /** `nodes` with the entry at `i` removed. */
  function RemoveAt(nodes: seq<ListNode>, i: nat): seq<ListNode>
    requires i < |nodes|
  {
    nodes[..i] + nodes[i + 1..]
  }

  /** Taking the inserted node out again gives back the list, so the others keep their order. */
  lemma InsertRemove(nodes: seq<ListNode>, i: nat, node: ListNode)
    requires i <= |nodes|
    ensures RemoveAt(InsertAt(nodes, i, node), i) == nodes
  {
    var r := InsertAt(nodes, i, node);
    assert r[..i] == nodes[..i];
    assert r[i + 1..] == nodes[i..];
  }

  /** `[newNode, ...prev]` and `[...prev, newNode]` are insertions at the two ends. */
  lemma EndsAreInsertions(nodes: seq<ListNode>, node: ListNode)
    ensures [node] + nodes == InsertAt(nodes, 0, node)
    ensures nodes + [node] == InsertAt(nodes, |nodes|, node)
  {
    assert nodes[..0] == [] && nodes[0..] == nodes;
    assert nodes[..|nodes|] == nodes && nodes[|nodes|..] == [];
  }

  /**
   * `prev.map((node, idx) => ({...node, x: 100 + idx * SPACING, isNew: false}))`: every node
   * keeps its id and value, moves to its slot, and is no longer new.
   */
  function Relayout(nodes: seq<ListNode>): (r: seq<ListNode>)
    ensures |r| == |nodes|
    ensures forall k :: 0 <= k < |r| ==> r[k].id == nodes[k].id && r[k].value == nodes[k].value
    ensures forall k :: 0 <= k < |r| ==> r[k].x == 100 + k * Spacing && !r[k].isNew
  {
    seq(|nodes|, k requires 0 <= k < |nodes| => nodes[k].(x := 100 + k * Spacing, isNew := false))
  }

  /** Laying out twice is laying out once, and the slots are 120 apart left to right. */
  lemma RelayoutStable(nodes: seq<ListNode>)
    ensures Relayout(Relayout(nodes)) == Relayout(nodes)
    ensures forall k :: 0 < k < |nodes| ==> Relayout(nodes)[k].x == Relayout(nodes)[k - 1].x + Spacing
  {
    var r := Relayout(nodes);
    forall k | 0 <= k < |r|
      ensures Relayout(r)[k] == r[k]
    {
    }
  }

  /** The list an animation leaves before its relayout. */
  function Applied(a: Animation, prev: seq<ListNode>): seq<ListNode>
    requires a.AddAt? ==> a.index <= |a.base|
  {
    match a
    case AddToEnd(n) => prev + [n]
    case AddToBeginning(n) => [n] + prev
    case AddAt(n, i, base) => InsertAt(base, i, n)
  }

  class LinkedListVisualizer {
    var nodes: seq<ListNode>
    var inputValue: string
    var isAnimating: bool
    var animationQueue: seq<Animation>
    var insertPosition: Position
    var insertIndex: int

    /**
     * The queue never holds more than one animation, every queued index insertion is
     * within its list, and the list is never empty.
     */
    ghost predicate Valid()
      reads this
    {
      |animationQueue| <= 1 && |nodes| >= 1 &&
      forall k :: 0 <= k < |animationQueue| && animationQueue[k].AddAt? ==>
        animationQueue[k].index <= |animationQueue[k].base|
    }

    /** The initial state: one node, empty input, nothing queued, insertion at the end. */
    constructor()
      ensures Valid()
      ensures nodes == InitialNodes() && inputValue == [] && !isAnimating && animationQueue == []
      ensures insertPosition == End && insertIndex == 0
    {
      nodes := InitialNodes();
      inputValue := [];
      isAnimating := false;
      animationQueue := [];
      insertPosition := End;
      insertIndex := 0;
    }

    /**
     * `processNextAnimation()`: nothing on an empty queue; otherwise the animation is marked
     * running, the head of the queue is dropped, and the head's list update is applied.
     */
    method ProcessNextAnimation()
      requires Valid()
      modifies this
      ensures Valid()
      ensures old(animationQueue) == [] ==> nodes == old(nodes) && isAnimating == old(isAnimating) && animationQueue == []
      ensures old(animationQueue) != [] ==> isAnimating && animationQueue == old(animationQueue[1..])
      ensures old(animationQueue) != [] ==> nodes == Applied(old(animationQueue[0]), old(nodes))
      ensures inputValue == old(inputValue) && insertPosition == old(insertPosition) && insertIndex == old(insertIndex)
    {
      if |animationQueue| == 0 {
        return;
      }
      isAnimating := true;
      var nextAnimation := animationQueue[0];
      animationQueue := animationQueue[1..];
      nodes := Applied(nextAnimation, nodes);
    }

    /**
     * The timers that end every animation: the list is laid out again, with no node new,
     * and `isAnimating` is cleared.
     */
    method FinishAnimation()
      requires Valid()
      modifies this
      ensures Valid()
      ensures nodes == Relayout(old(nodes)) && !isAnimating
      ensures animationQueue == old(animationQueue) && inputValue == old(inputValue)
      ensures insertPosition == old(insertPosition) && insertIndex == old(insertIndex)
    {
      nodes := Relayout(nodes);
      isAnimating := false;
    }

    /**
     * `addNode()` at clock reading `now`, with `parsed` the result of `parseInt(inputValue)`.
     * Blank input or a running animation changes nothing. Otherwise the node (off screen at
     * `x = -100`, new) is queued as the only animation, at the beginning, the end or the
     * clamped index, and the input is cleared.
     */
    method AddNode(now: int, parsed: Option<int>)
      requires Valid()
      modifies this
      ensures Valid()
      ensures Blank(old(inputValue)) || old(isAnimating) ==>
        nodes == old(nodes) && inputValue == old(inputValue) && animationQueue == old(animationQueue)
      ensures !(Blank(old(inputValue)) || old(isAnimating)) ==>
        var node := ListNode(now, NodeValue(parsed, old(inputValue)), -100, true);
        inputValue == [] &&
        animationQueue == [match old(insertPosition)
          case Beginning => AddToBeginning(node)
          case End => AddToEnd(node)
          case AtIndex => AddAt(node, SafeIndex(old(insertIndex), |old(nodes)|), old(nodes))]
      ensures nodes == old(nodes) && isAnimating == old(isAnimating)
      ensures insertPosition == old(insertPosition) && insertIndex == old(insertIndex)
    {
      TrimEmpty(inputValue);
      if |Trim(inputValue)| == 0 || isAnimating {
        return;
      }
      var value := NodeValue(parsed, inputValue);
      var newNode := ListNode(now, value, -100, true);
      match insertPosition {
        case Beginning => animationQueue := [AddToBeginning(newNode)];
        case End => animationQueue := [AddToEnd(newNode)];
        case AtIndex => animationQueue := [AddAt(newNode, SafeIndex(insertIndex, |nodes|), nodes)];
      }
      inputValue := [];
    }

    /** `reset()`: nothing while animating; otherwise the initial list and an empty queue. */
    method Reset()
      requires Valid()
      modifies this
      ensures Valid()
      ensures old(isAnimating) ==> nodes == old(nodes) && animationQueue == old(animationQueue)
      ensures !old(isAnimating) ==> nodes == InitialNodes() && animationQueue == []
      ensures isAnimating == old(isAnimating) && inputValue == old(inputValue)
      ensures insertPosition == old(insertPosition) && insertIndex == old(insertIndex)
    {
      if isAnimating {
        return;
      }
      nodes := InitialNodes();
      animationQueue := [];
    }
  }

  /**
   * A whole insertion, as the three steps run it on an idle visualizer: the list ends one
   * longer, with the new node at the clamped position, the old nodes in their order around
   * it, and every node in its slot.
   */
  lemma InsertionEffect(a: Animation, prev: seq<ListNode>)
    requires a.AddAt? ==> a.index <= |a.base| && a.base == prev
    ensures var i := match a case AddToEnd(_) => |prev| case AddToBeginning(_) => 0 case AddAt(_, k, _) => k;
      i <= |prev| && Relayout(Applied(a, prev)) == Relayout(InsertAt(prev, i, a.node))
  {
    EndsAreInsertions(prev, a.node);
  }
}
