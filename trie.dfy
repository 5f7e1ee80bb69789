/**
 * The trie panel of the tree visualizer. A `TrieNode` is an object with a `children` map
 * from characters to nodes and an `isEndOfWord` flag; insertion walks a cursor down from the
 * root, adding missing children on the way, and marks the last node. The trie is shared
 * with the previous React state and updated in place, so nodes are objects here.
 *
 * The nodes of a trie are tracked by a ghost set closed under `children`. Words are read
 * off a snapshot of that set: Graph gives every node's children map, Ends the marked nodes,
 * and Path, Has and the lemmas about them work on those values.
 */
module Tries {

  class TrieNode {
    var children: map<char, TrieNode>
    var isEndOfWord: bool

    /** `new TrieNode()`: no children, not the end of a word. */
    constructor()
      ensures children == map[] && !isEndOfWord
    {
      children := map[];
      isEndOfWord := false;
    }
  }

  type Graph = map<TrieNode, map<char, TrieNode>>

  /** Every child of a node of `nodes` is in `nodes`. */
  ghost predicate Closed(nodes: set<TrieNode>)
    reads nodes
  {
    forall n, c :: n in nodes && c in n.children ==> n.children[c] in nodes
  }

  /** The children maps of `nodes`, as a value. */
  ghost function GraphOf(nodes: set<TrieNode>): Graph
    reads nodes
  {
    map n | n in nodes :: n.children
  }

  /** The nodes of `nodes` that end a word. */
  ghost function EndsOf(nodes: set<TrieNode>): set<TrieNode>
    reads nodes
  {
    set n | n in nodes && n.isEndOfWord
  }

  /** The node reached by following the characters of `w` from `n`, if every step exists. */
  ghost function Path(g: Graph, n: TrieNode, w: string): Option<TrieNode>
    decreases |w|
  {
    if w == [] then Some(n)
    else if n in g && w[0] in g[n] then Path(g, g[n][w[0]], w[1..])
    else None
  }

  import opened Options

  /** `w` is a word of the trie at `n`: its path exists and ends at a marked node. */
  ghost predicate Has(g: Graph, ends: set<TrieNode>, n: TrieNode, w: string)
  {
    Path(g, n, w).Some? && Path(g, n, w).get in ends
  }

  /** `g'` keeps every node of `g` and every child entry it had, and may add more. */
  ghost predicate Grows(g: Graph, g': Graph)
  {
    forall n :: n in g ==> n in g' && forall c :: c in g[n] ==> c in g'[n] && g'[n][c] == g[n][c]
  }

  /** One more character: the path to `w + [c]` is the path to `w` and then the `c` child. */
  lemma {:induction false} PathSnoc(g: Graph, n: TrieNode, w: string, c: char)
    ensures Path(g, n, w + [c]) ==
      (if Path(g, n, w).Some? && Path(g, n, w).get in g && c in g[Path(g, n, w).get]
       then Some(g[Path(g, n, w).get][c]) else None)
    decreases |w|
  {
    if w == [] {
      assert w + [c] == [c];
      assert [c][1..] == [];
    } else {
      assert (w + [c])[0] == w[0];
      assert (w + [c])[1..] == w[1..] + [c];
      if n in g && w[0] in g[n] {
        PathSnoc(g, g[n][w[0]], w[1..], c);
      }
    }
  }

  /** A path that exists keeps existing, to the same node, in a trie that only grew. */
  lemma {:induction false} GrowsPath(g: Graph, g': Graph, n: TrieNode, w: string)
    requires Grows(g, g') && Path(g, n, w).Some?
    ensures Path(g', n, w) == Path(g, n, w)
    decreases |w|
  {
    if w != [] {
      GrowsPath(g, g', g[n][w[0]], w[1..]);
    }
  }

  lemma PrefixSnoc(w: string, i: int)
    requires 0 <= i < |w|
    ensures w[..i + 1] == w[..i] + [w[i]]
  {
  }

  function EmptyChildren(): map<char, TrieNode>
  {
    map[]
  }

  lemma GrowsTrans(g: Graph, g': Graph, g'': Graph)
    requires Grows(g, g') && Grows(g', g'')
    ensures Grows(g, g'')
  {
  }

  /** Adding a new child under an absent character, and the child itself, only grows the trie. */
  lemma GrowsByChild(g: Graph, n: TrieNode, c: char, child: TrieNode)
    requires n in g && c !in g[n] && child !in g
    ensures Grows(g, g[n := g[n][c := child]][child := EmptyChildren()])
  {
  }

  /** Insertion never loses a word: the trie only grows and marks are only added. */
  lemma GrowsKeepsWords(g: Graph, ends: set<TrieNode>, g': Graph, ends': set<TrieNode>, n: TrieNode, w: string)
    requires Grows(g, g') && ends <= ends'
    requires Has(g, ends, n, w)
    ensures Has(g', ends', n, w)
  {
    GrowsPath(g, g', n, w);
  }

  /**
   * One turn of the loop of `insertTrie`: `current.children[char]` is created if it is
   * missing, and the cursor moves to it.
   */
  method Step(current: TrieNode, c: char, ghost nodes: set<TrieNode>) returns (next: TrieNode, ghost nodes': set<TrieNode>)
    requires current in nodes && Closed(nodes)
    modifies current
    ensures nodes <= nodes' && next in nodes' && Closed(nodes')
    ensures forall n :: n in nodes' ==> n in nodes || fresh(n)
    ensures Grows(old(GraphOf(nodes)), GraphOf(nodes'))
    ensures EndsOf(nodes') == old(EndsOf(nodes))
    ensures current in GraphOf(nodes') && c in GraphOf(nodes')[current] && GraphOf(nodes')[current][c] == next
  {
    ghost var g: Graph := GraphOf(nodes);
    nodes' := nodes;
    if c !in current.children {
      var child: TrieNode := new TrieNode();
      current.children := current.children[c := child];
      nodes' := nodes + {child};
      assert GraphOf(nodes') == g[current := g[current][c := child]][child := EmptyChildren()];
      GrowsByChild(g, current, c, child);
    }
    next := current.children[c];
  }

  /**
   * `insertTrie(root, word)`: a missing root is created; then a cursor follows `word`
   * character by character, creating each missing child, and the node it stops at is
   * marked as the end of a word. The same root object is returned. Afterwards the word
   * is in the trie, every child entry and mark that existed is still there, and the new
   * nodes are fresh, unmarked unless they end `word`, and added to the ghost set.
   */
  method InsertTrie(root: TrieNode?, word: string, ghost nodes: set<TrieNode>)
    returns (r: TrieNode, ghost nodes': set<TrieNode>)
    requires Closed(nodes) && (root != null ==> root in nodes)
    modifies nodes
    ensures root != null ==> r == root
    ensures root == null ==> fresh(r)
    ensures nodes <= nodes' && r in nodes' && Closed(nodes')
    ensures forall n :: n in nodes' ==> n in nodes || fresh(n)
    ensures Grows(old(GraphOf(nodes)), GraphOf(nodes'))
    ensures old(EndsOf(nodes)) <= EndsOf(nodes')
    ensures Has(GraphOf(nodes'), EndsOf(nodes'), r, word)
    ensures root != null ==> forall w ::
      Has(old(GraphOf(nodes)), old(EndsOf(nodes)), root, w) ==> Has(GraphOf(nodes'), EndsOf(nodes'), r, w)
  {
    if root == null {
      r := new TrieNode();
    } else {
      r := root;
    }
    nodes' := nodes + {r};
    assert EndsOf(nodes') == old(EndsOf(nodes));
    assert Grows(old(GraphOf(nodes)), GraphOf(nodes'));
    var current;
    current, nodes' := Descend(r, word, nodes');
    ghost var g, e := GraphOf(nodes'), EndsOf(nodes');
    current.isEndOfWord := true;
    assert GraphOf(nodes') == g && e <= EndsOf(nodes');
    forall w | root != null && Has(old(GraphOf(nodes)), old(EndsOf(nodes)), root, w)
      ensures Has(GraphOf(nodes'), EndsOf(nodes'), r, w)
    {
      GrowsKeepsWords(old(GraphOf(nodes)), old(EndsOf(nodes)), GraphOf(nodes'), EndsOf(nodes'), root, w);
    }
  }

  /**
   * The loop of `insertTrie`: the cursor walks down from `r` along `word`, creating every
   * missing child, and ends at the node the whole word leads to.
   */
  method Descend(r: TrieNode, word: string, ghost nodes: set<TrieNode>)
    returns (current: TrieNode, ghost nodes': set<TrieNode>)
    requires Closed(nodes) && r in nodes
    modifies nodes
    ensures nodes <= nodes' && current in nodes' && Closed(nodes')
    ensures forall n :: n in nodes' ==> n in nodes || fresh(n)
    ensures Grows(old(GraphOf(nodes)), GraphOf(nodes'))
    ensures EndsOf(nodes') == old(EndsOf(nodes))
    ensures Path(GraphOf(nodes'), r, word) == Some(current)
  {
    nodes' := nodes;
    current := r;
    var i := 0;
    while i < |word|
      invariant 0 <= i <= |word|
      invariant nodes <= nodes' && current in nodes' && Closed(nodes')
      invariant forall n :: n in nodes' ==> n in nodes || fresh(n)
      invariant Grows(old(GraphOf(nodes)), GraphOf(nodes'))
      invariant EndsOf(nodes') == old(EndsOf(nodes))
      invariant Path(GraphOf(nodes'), r, word[..i]) == Some(current)
    {
      ghost var g := GraphOf(nodes');
      assert current in nodes || fresh(current);
      var next;
      next, nodes' := Step(current, word[i], nodes');
      ghost var g' := GraphOf(nodes');
      GrowsTrans(old(GraphOf(nodes)), g, g');
      GrowsPath(g, g', r, word[..i]);
      PathSnoc(g', r, word[..i], word[i]);
      PrefixSnoc(word, i);
      current := next;
      i := i + 1;
    }
    assert word[..i] == word;
  }
}
