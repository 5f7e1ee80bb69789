/**
 * The state of the tree visualizer and its Insert and Clear buttons: one tree per panel,
 * the selected panel, and the text box. Insertion parses the text as an integer for every
 * panel but the trie, which takes the text as it is, and dispatches on the panel.
 */
module TreePlatform {
  import opened Options
  import opened Text
  import opened BinaryTrees
  import opened HeapInsert
  import opened Tries

  /** The panels; the last three have no operations, so inserting there changes nothing. */
  datatype TreeType = BinaryTree | BstTree | AvlTree | HeapTree | TrieTree | RedBlackTree | SegmentTree | FenwickTree

  /**
   * An insertion that `handleInsert` scheduled with `setTimeout` and that has not run yet:
   * the panel selected at the click, `parseInt(inputValue)` and the text itself, all
   * captured then.
   */
  datatype Pending = Pending(tree: TreeType, number: int, word: string)

  class TreeVisualizationPlatform {
    var selectedTree: TreeType
    var inputValue: string
    var isAnimating: bool
    var binary: Tree
    var bst: Tree
    var avl: Tree
    /** The heap panel's array; a cleared (`null`) heap is `prev.heap || []`, the empty array. */
    var heap: seq<int>
    var trie: TrieNode?
    /** The objects of the trie panel. */
    ghost var trieNodes: set<TrieNode>
    /** The scheduled insertions whose timers have not fired, in the order of the clicks. */
    var pending: seq<Pending>

    /**
     * What every panel keeps: search order in the two search trees, the AVL invariant and
     * search order in the AVL tree, the max-heap property, and a trie made of tracked nodes.
     * The visualizer only animates while some insertion is scheduled.
     */
    ghost predicate Valid()
      reads this, trieNodes
    {
      IsBST(binary) && IsBST(bst) && Avl(avl) && IsBST(avl) && MaxHeap(heap) &&
      Closed(trieNodes) && (trie != null ==> trie in trieNodes) &&
      (isAnimating ==> pending != [])
    }

    /** The initial state: every tree empty, the binary panel selected, no input. */
    constructor()
      ensures Valid()
      ensures selectedTree == BinaryTree && inputValue == [] && !isAnimating
      ensures binary == Nil && bst == Nil && avl == Nil && heap == [] && trie == null
      ensures pending == []
    {
      selectedTree := BinaryTree;
      inputValue := [];
      isAnimating := false;
      binary := Nil;
      bst := Nil;
      avl := Nil;
      heap := [];
      trie := null;
      trieNodes := {};
      pending := [];
    }

    /**
     * `handleInsert()`, with `number` the result of `parseInt(inputValue)` (taken only when
     * it is a number). Blank input changes nothing. Otherwise `isAnimating` is set and the
     * insertion is scheduled with the panel and the value of this moment; no tree changes
     * yet. Nothing stops a second call (the Enter key is not disabled while animating), so
     * each call schedules one more insertion.
     */
    method HandleInsert(number: int)
      requires Valid()
      modifies this
      ensures Valid()
      ensures Blank(old(inputValue)) ==> isAnimating == old(isAnimating) && pending == old(pending)
      ensures !Blank(old(inputValue)) ==>
        isAnimating && pending == old(pending) + [Pending(old(selectedTree), number, old(inputValue))]
      ensures selectedTree == old(selectedTree) && inputValue == old(inputValue)
      ensures binary == old(binary) && bst == old(bst) && avl == old(avl) && heap == old(heap)
      ensures trie == old(trie) && trieNodes == old(trieNodes)
    {
      TrimEmpty(inputValue);
      if |Trim(inputValue)| == 0 {
        return;
      }
      isAnimating := true;
      pending := pending + [Pending(selectedTree, number, inputValue)];
    }

    /**
     * The timer of the scheduled insertion `p`, taken out of `pending` at `k`, fires: the
     * panel captured at the click takes the captured value through its insertion, whatever
     * panel is selected now, and the other trees stay as they were; then the text box is
     * cleared and `isAnimating` is reset. The AVL insertion never fails here because the tree is always
     * AVL.
     */
    method FireInsert(k: int) returns (p: Pending)
      requires Valid() && 0 <= k < |pending|
      modifies this, trieNodes
      ensures Valid()
      ensures p == old(pending[k]) && pending == old(pending[..k] + pending[k + 1..])
      ensures inputValue == [] && !isAnimating && selectedTree == old(selectedTree)
      ensures binary == (if p.tree == BinaryTree then InsertBST(old(binary), p.number) else old(binary))
      ensures bst == (if p.tree == BstTree then InsertBST(old(bst), p.number) else old(bst))
      ensures p.tree == AvlTree ==> InsertAVL(old(avl), p.number) == Some(avl)
      ensures p.tree != AvlTree ==> avl == old(avl)
      ensures p.tree == HeapTree ==> |heap| == |old(heap)| + 1 && multiset(heap) == multiset(old(heap)) + multiset{p.number}
      ensures p.tree != HeapTree ==> heap == old(heap)
      ensures p.tree == TrieTree ==>
        trie != null && Has(GraphOf(trieNodes), EndsOf(trieNodes), trie, p.word) &&
        (old(trie) != null ==> trie == old(trie)) &&
        Grows(old(GraphOf(trieNodes)), GraphOf(trieNodes)) && old(EndsOf(trieNodes)) <= EndsOf(trieNodes)
      ensures p.tree != TrieTree ==> trie == old(trie) && trieNodes == old(trieNodes)
    {
      p := pending[k];
      InsertInto(p.tree, p.number, p.word);
      pending := pending[..k] + pending[k + 1..];
      inputValue := [];
      isAnimating := false;
    }

    /**
     * The `switch (selectedTree)` inside the timer of `handleInsert`, on the panel `tree`
     * captured at the click: `number` for the number panels, `word` for the trie.
     */
    method InsertInto(tree: TreeType, number: int, word: string)
      requires Valid()
      modifies this, trieNodes
      ensures Valid()
      ensures selectedTree == old(selectedTree) && inputValue == old(inputValue) && isAnimating == old(isAnimating)
      ensures pending == old(pending)
      ensures binary == (if tree == BinaryTree then InsertBST(old(binary), number) else old(binary))
      ensures bst == (if tree == BstTree then InsertBST(old(bst), number) else old(bst))
      ensures tree == AvlTree ==> InsertAVL(old(avl), number) == Some(avl)
      ensures tree != AvlTree ==> avl == old(avl)
      ensures tree == HeapTree ==> |heap| == |old(heap)| + 1 && multiset(heap) == multiset(old(heap)) + multiset{number}
      ensures tree != HeapTree ==> heap == old(heap)
      ensures tree == TrieTree ==>
        trie != null && Has(GraphOf(trieNodes), EndsOf(trieNodes), trie, word) &&
        (old(trie) != null ==> trie == old(trie)) &&
        Grows(old(GraphOf(trieNodes)), GraphOf(trieNodes)) && old(EndsOf(trieNodes)) <= EndsOf(trieNodes)
      ensures tree != TrieTree ==> trie == old(trie) && trieNodes == old(trieNodes)
    {
      match tree {
        case BinaryTree =>
          InsertBSTCorrect(binary, number);
          binary := InsertBST(binary, number);
        case BstTree =>
          InsertBSTCorrect(bst, number);
          bst := InsertBST(bst, number);
        case AvlTree =>
          AvlInsert(avl, number);
          InsertAVLKeys(avl, number);
          avl := InsertAVL(avl, number).get;
        case HeapTree =>
          heap := InsertHeap(heap, number);
        case TrieTree =>
          InsertWord(word);
        case RedBlackTree =>
        case SegmentTree =>
        case FenwickTree =>
      }
    }

    /** The trie case of `handleInsert`: `insertTrie(prev.trie, value)` on the panel's trie. */
    method InsertWord(word: string)
      requires Valid()
      modifies this, trieNodes
      ensures Valid()
      ensures trie != null && Has(GraphOf(trieNodes), EndsOf(trieNodes), trie, word)
      ensures old(trie) != null ==> trie == old(trie)
      ensures Grows(old(GraphOf(trieNodes)), GraphOf(trieNodes)) && old(EndsOf(trieNodes)) <= EndsOf(trieNodes)
      ensures selectedTree == old(selectedTree) && inputValue == old(inputValue) && isAnimating == old(isAnimating)
      ensures binary == old(binary) && bst == old(bst) && avl == old(avl) && heap == old(heap)
      ensures pending == old(pending)
    {
      var root;
      root, trieNodes := InsertTrie(trie, word, trieNodes);
      trie := root;
    }

    /** `handleClear()`: the selected tree becomes empty and nothing else changes. */
    method HandleClear()
      requires Valid()
      modifies this
      ensures Valid()
      ensures binary == (if selectedTree == BinaryTree then Nil else old(binary))
      ensures bst == (if selectedTree == BstTree then Nil else old(bst))
      ensures avl == (if selectedTree == AvlTree then Nil else old(avl))
      ensures heap == (if selectedTree == HeapTree then [] else old(heap))
      ensures trie == (if selectedTree == TrieTree then null else old(trie))
      ensures selectedTree == old(selectedTree) && inputValue == old(inputValue) && isAnimating == old(isAnimating)
      ensures trieNodes == old(trieNodes) && pending == old(pending)
    {
      match selectedTree {
        case BinaryTree => binary := Nil;
        case BstTree => bst := Nil;
        case AvlTree => avl := Nil;
        case HeapTree => heap := [];
        case TrieTree => trie := null;
        case RedBlackTree =>
        case SegmentTree =>
        case FenwickTree =>
      }
    }
  }
}
