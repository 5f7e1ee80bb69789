/**
 * The binary search trees of the tree visualizer: plain insertion (`insertBST`, used for the
 * binary and BST panels) and AVL insertion with its two rotations. A `TreeNode` carries a key,
 * two children and a `height` field, which every new node starts at `1`; nodes are rebuilt
 * on the way back up, so trees are values here.
 */
module BinaryTrees {

  datatype Tree = Nil | Node(value: int, left: Tree, right: Tree, height: nat)

  import opened Options

  /** `new TreeNode(value)`: a leaf of height 1. */
  function Leaf(v: int): Tree
  {
    Node(v, Nil, Nil, 1)
  }

  function Max(a: int, b: int): int
  {
    if a >= b then a else b
  }

  /** The keys of a tree. */
  function Keys(t: Tree): set<int>
  {
    match t
    case Nil => {}
    case Node(x, l, r, _) => Keys(l) + {x} + Keys(r)
  }

  /** The keys in in-order sequence. */
  function InOrder(t: Tree): seq<int>
  {
    match t
    case Nil => []
    case Node(x, l, r, _) => InOrder(l) + [x] + InOrder(r)
  }

  /** Strict search-tree order: every key on the left below the node, every key on the right above it. */
  ghost predicate IsBST(t: Tree)
  {
    match t
    case Nil => true
    case Node(x, l, r, _) =>
      IsBST(l) && IsBST(r) && (forall k :: k in Keys(l) ==> k < x) && (forall k :: k in Keys(r) ==> x < k)
  }

  /** The real height of a tree: `0` for the empty tree. */
  function Height(t: Tree): nat
  {
    match t
    case Nil => 0
    case Node(_, l, r, _) => 1 + Max(Height(l), Height(r))
  }

  /** Every stored `height` field is the node's real height. */
  ghost predicate HeightsOk(t: Tree)
  {
    match t
    case Nil => true
    case Node(_, l, r, h) => HeightsOk(l) && HeightsOk(r) && h == Height(t)
  }

  /** Every node's subtrees differ in real height by at most one. */
  ghost predicate Balanced(t: Tree)
  {
    match t
    case Nil => true
    case Node(_, l, r, _) => Balanced(l) && Balanced(r) && -1 <= Height(l) - Height(r) <= 1
  }

  /** The AVL invariant the panel promises: balanced, with correct heights. */
  ghost predicate Avl(t: Tree)
  {
    HeightsOk(t) && Balanced(t)
  }

  /** `getHeight(node)`: the stored height, `0` for no node. */
  function GetHeight(t: Tree): (h: nat)
    ensures HeightsOk(t) ==> h == Height(t)
    ensures t == Nil ==> h == 0
  {
    if t.Nil? then 0 else t.height
  }

  /** `getBalance(node)`: left height minus right height, `0` for no node. */
  function GetBalance(t: Tree): (b: int)
    ensures t == Nil ==> b == 0
    ensures t != Nil && HeightsOk(t) ==> b == Height(t.left) - Height(t.right)
    ensures Avl(t) ==> -1 <= b <= 1
  {
    if t.Nil? then 0 else GetHeight(t.left) - GetHeight(t.right)
  }

  /** The height a node gets from its children, `Math.max(getHeight(l), getHeight(r)) + 1`. */
  function Join(x: int, l: Tree, r: Tree): (t: Tree)
    ensures HeightsOk(l) && HeightsOk(r) ==> HeightsOk(t) && Height(t) == 1 + Max(Height(l), Height(r))
  {
    Node(x, l, r, Max(GetHeight(l), GetHeight(r)) + 1)
  }

  /**
   * `rightRotate(y)`: the left child `x` becomes the root, `y` its right child, and `x`'s
   * old right subtree becomes `y`'s left. `y`'s height is recomputed, then `x`'s.
   */
  function RightRotate(y: Tree): (r: Tree)
    requires y.Node? && y.left.Node?
    ensures r.Node? && r.right.Node?
    ensures r.value == y.left.value && r.left == y.left.left
    ensures r.right == Join(y.value, y.left.right, y.right)
    ensures r.height == Max(GetHeight(y.left.left), GetHeight(r.right)) + 1
  {
    var x := y.left;
    Join(x.value, x.left, Join(y.value, x.right, y.right))
  }

  /** `leftRotate(x)`: the mirror image of RightRotate. */
  function LeftRotate(x: Tree): (r: Tree)
    requires x.Node? && x.right.Node?
    ensures r.Node? && r.left.Node?
    ensures r.value == x.right.value && r.right == x.right.right
    ensures r.left == Join(x.value, x.left, x.right.left)
    ensures r.height == Max(GetHeight(r.left), GetHeight(x.right.right)) + 1
  {
    var y := x.right;
    Join(y.value, Join(x.value, x.left, y.left), y.right)
  }

  /** A rotation keeps the in-order key sequence. */
  lemma RightRotateInOrder(y: Tree)
    requires y.Node? && y.left.Node?
    ensures InOrder(RightRotate(y)) == InOrder(y)
  {
    var x := y.left;
    var P, B, C := InOrder(x.left) + [x.value], InOrder(x.right), InOrder(y.right);
    assert InOrder(RightRotate(y)) == P + (B + [y.value] + C);
    assert InOrder(y) == (P + B) + [y.value] + C;
    ConcatAssoc(P, B + [y.value], C);
    ConcatAssoc(P, B, [y.value]);
  }

  lemma LeftRotateInOrder(x: Tree)
    requires x.Node? && x.right.Node?
    ensures InOrder(LeftRotate(x)) == InOrder(x)
  {
    var y := x.right;
    var P, B, C := InOrder(x.left) + [x.value], InOrder(y.left), InOrder(y.right);
    assert InOrder(x) == P + (B + [y.value] + C);
    assert InOrder(LeftRotate(x)) == (P + B) + [y.value] + C;
    ConcatAssoc(P, B + [y.value], C);
    ConcatAssoc(P, B, [y.value]);
  }

  lemma ConcatAssoc(p: seq<int>, q: seq<int>, r: seq<int>)
    ensures p + (q + r) == (p + q) + r
  {
  }

  /** A rotation keeps the keys and the search order. */
  lemma RightRotateKeys(y: Tree)
    requires y.Node? && y.left.Node?
    ensures Keys(RightRotate(y)) == Keys(y)
    ensures IsBST(y) ==> IsBST(RightRotate(y))
  {
    var x := y.left;
    var r := RightRotate(y);
    RotationShapes(x.value, y.value, x.left, x.right, y.right, x.height, y.height, r.right.height, r.height);
  }

  lemma LeftRotateKeys(x: Tree)
    requires x.Node? && x.right.Node?
    ensures Keys(LeftRotate(x)) == Keys(x)
    ensures IsBST(x) ==> IsBST(LeftRotate(x))
  {
    var y := x.right;
    var r := LeftRotate(x);
    RotationShapes(x.value, y.value, x.left, y.left, y.right, r.left.height, r.height, y.height, x.height);
  }

  /**
   * The two shapes a rotation moves between, `((A a B) b C)` and `(A a (B b C))`, have the
   * same keys and are search trees together, whatever their stored heights.
   */
  lemma RotationShapes(a: int, b: int, A: Tree, B: Tree, C: Tree, h1: nat, h2: nat, h3: nat, h4: nat)
    ensures Keys(Node(b, Node(a, A, B, h1), C, h2)) == Keys(Node(a, A, Node(b, B, C, h3), h4))
    ensures IsBST(Node(b, Node(a, A, B, h1), C, h2)) <==> IsBST(Node(a, A, Node(b, B, C, h3), h4))
  {
    var L, R := Node(a, A, B, h1), Node(b, B, C, h3);
    assert Keys(L) == Keys(A) + {a} + Keys(B);
    assert Keys(R) == Keys(B) + {b} + Keys(C);
    if IsBST(Node(b, L, C, h2)) {
      assert IsBST(L) && forall k :: k in Keys(C) ==> b < k;
      assert a in Keys(L);
      assert a < b;
      forall k | k in Keys(R)
        ensures a < k
      {
        if k in Keys(C) {
          assert b < k;
        }
      }
    }
    if IsBST(Node(a, A, R, h4)) {
      assert IsBST(R) && forall k :: k in Keys(A) ==> k < a;
      assert b in Keys(R);
      assert a < b;
      forall k | k in Keys(L)
        ensures k < b
      {
        if k in Keys(A) {
          assert k < a;
        }
      }
    }
  }

  /**
   * `insertBST(root, value)`: a new leaf at the place the search for `value` ends; a key
   * already present leaves the tree as it is. Heights are not maintained.
   */
  function InsertBST(t: Tree, v: int): Tree
  {
    match t
    case Nil => Leaf(v)
    case Node(x, l, r, h) =>
      if v < x then Node(x, InsertBST(l, v), r, h)
      else if v > x then Node(x, l, InsertBST(r, v), h)
      else t
  }

  /** Plain insertion adds exactly `v` and keeps the search order. */
  lemma {:induction false} InsertBSTCorrect(t: Tree, v: int)
    ensures Keys(InsertBST(t, v)) == Keys(t) + {v}
    ensures IsBST(t) ==> IsBST(InsertBST(t, v))
  {
    match t
    case Nil =>
    case Node(x, l, r, h) =>
      if v < x {
        InsertBSTCorrect(l, v);
      } else if v > x {
        InsertBSTCorrect(r, v);
      }
  }

  /** Inserting a key already in a search tree changes nothing, not even the shape. */
  lemma {:induction false} InsertBSTPresent(t: Tree, v: int)
    requires IsBST(t) && v in Keys(t)
    ensures InsertBST(t, v) == t
  {
    match t
    case Node(x, l, r, h) =>
      if v < x {
        InsertBSTPresent(l, v);
      } else if v > x {
        InsertBSTPresent(r, v);
      }
  }

  /**
   * `insertAVL(root, value)`: insertion as for a search tree, then, on the way back up,
   * the node's height is recomputed and the four rebalancing cases are tried in the
   * source's order, deciding between a single and a double rotation by comparing `value`
   * with the taller child's key. A key already present returns the node unchanged. The
   * inner rotation of a double rotation dereferences the grandchild; `None` is the
   * `TypeError` that would follow if it were missing (AvlInsert shows it never is on an
   * AVL tree).
   */
  function InsertAVL(t: Tree, v: int): Option<Tree>
  {
    match t
    case Nil => Some(Leaf(v))
    case Node(x, l, r, h) =>
      if v == x then Some(t)
      else
        var sub := if v < x then InsertAVL(l, v) else InsertAVL(r, v);
        if sub.None? then None
        else
          var n := if v < x then Join(x, sub.get, r) else Join(x, l, sub.get);
          Rebalance(n, v)
  }

  /** The four cases after a node's height has been recomputed. */
  function Rebalance(n: Tree, v: int): Option<Tree>
    requires n.Node?
  {
    var b := GetBalance(n);
    if b > 1 && v < n.left.value then Some(RightRotate(n))
    else if b < -1 && v > n.right.value then Some(LeftRotate(n))
    else if b > 1 && v > n.left.value then
      if n.left.right.Nil? then None
      else Some(RightRotate(n.(left := LeftRotate(n.left))))
    else if b < -1 && v < n.right.value then
      if n.right.left.Nil? then None
      else Some(LeftRotate(n.(right := RightRotate(n.right))))
    else Some(n)
  }

  /**
   * Whatever the input, a completed AVL insertion adds exactly `v` and keeps the search
   * order: rotations only rearrange keys in order.
   */
  lemma {:induction false} InsertAVLKeys(t: Tree, v: int)
    requires InsertAVL(t, v).Some?
    ensures Keys(InsertAVL(t, v).get) == Keys(t) + {v}
    ensures IsBST(t) ==> IsBST(InsertAVL(t, v).get)
  {
    match t
    case Nil =>
    case Node(x, l, r, h) =>
      if v != x {
        var sub := if v < x then InsertAVL(l, v) else InsertAVL(r, v);
        if v < x {
          InsertAVLKeys(l, v);
        } else {
          InsertAVLKeys(r, v);
        }
        var n := if v < x then Join(x, sub.get, r) else Join(x, l, sub.get);
        assert Keys(n) == Keys(t) + {v};
        assert IsBST(t) ==> IsBST(n);
        RebalanceKeys(n, v);
      }
  }

  /** Rebalancing keeps the keys and the search order. */
  lemma RebalanceKeys(n: Tree, v: int)
    requires n.Node? && Rebalance(n, v).Some?
    ensures Keys(Rebalance(n, v).get) == Keys(n)
    ensures IsBST(n) ==> IsBST(Rebalance(n, v).get)
  {
    var b := GetBalance(n);
    if b > 1 && v < n.left.value {
      RightRotateKeys(n);
    } else if b < -1 && v > n.right.value {
      LeftRotateKeys(n);
    } else if b > 1 && v > n.left.value {
      LeftRotateKeys(n.left);
      RightRotateKeys(n.(left := LeftRotate(n.left)));
    } else if b < -1 && v < n.right.value {
      RightRotateKeys(n.right);
      LeftRotateKeys(n.(right := RightRotate(n.right)));
    }
  }

  /**
   * How an insertion into an AVL subtree `t` can change it, as the rebalancing of the parent
   * relies on: the result is AVL, at most one taller, and if it did grow (and was not empty)
   * then `v` is not at its root and the side `v` went to is the taller one.
   */
  ghost predicate Grown(t: Tree, r: Tree, v: int)
  {
    Avl(r) && (Height(r) == Height(t) || Height(r) == Height(t) + 1) &&
    (Height(r) == Height(t) + 1 && Height(t) >= 1 ==>
      r.Node? && v != r.value &&
      (v < r.value ==> Height(r.left) == Height(r.right) + 1) &&
      (v > r.value ==> Height(r.right) == Height(r.left) + 1))
  }

  /** AVL insertion never fails on an AVL tree, and keeps it AVL. */
  lemma {:induction false} AvlInsert(t: Tree, v: int)
    requires Avl(t)
    ensures InsertAVL(t, v).Some?
    ensures Grown(t, InsertAVL(t, v).get, v)
  {
    match t
    case Nil =>
    case Node(x, l, r, h) =>
      if v < x {
        AvlInsert(l, v);
        LeftGrown(x, l, r, InsertAVL(l, v).get, v);
      } else if v > x {
        AvlInsert(r, v);
        RightGrown(x, l, r, InsertAVL(r, v).get, v);
      }
  }

  /** The parent step of AvlInsert when `v` went into the left subtree. */
  lemma LeftGrown(x: int, l: Tree, r: Tree, l': Tree, v: int)
    requires Avl(Node(x, l, r, Height(Node(x, l, r, 0)))) && v < x
    requires Grown(l, l', v)
    ensures Rebalance(Join(x, l', r), v).Some?
    ensures Grown(Node(x, l, r, 0), Rebalance(Join(x, l', r), v).get, v)
  {
    var n := Join(x, l', r);
    var t := Node(x, l, r, 0);
    if Height(l') == Height(r) + 2 {
      assert Height(l) == Height(r) + 1;
      if v < l'.value {
        SingleRight(n);
      } else {
        DoubleRight(n);
      }
    }
  }

  /** The parent step of AvlInsert when `v` went into the right subtree. */
  lemma RightGrown(x: int, l: Tree, r: Tree, r': Tree, v: int)
    requires Avl(Node(x, l, r, Height(Node(x, l, r, 0)))) && v > x
    requires Grown(r, r', v)
    ensures Rebalance(Join(x, l, r'), v).Some?
    ensures Grown(Node(x, l, r, 0), Rebalance(Join(x, l, r'), v).get, v)
  {
    var n := Join(x, l, r');
    if Height(r') == Height(l) + 2 {
      assert Height(r) == Height(l) + 1;
      if v > r'.value {
        SingleLeft(n);
      } else {
        DoubleLeft(n);
      }
    }
  }

  /** Left-left case: one right rotation restores the height `Height(n.right) + 2`. */
  lemma SingleRight(n: Tree)
    requires n.Node? && n.left.Node? && HeightsOk(n.left) && Balanced(n.left) && Avl(n.right)
    requires Height(n.left) == Height(n.right) + 2
    requires Height(n.left.left) == Height(n.left.right) + 1
    ensures Avl(RightRotate(n)) && Height(RightRotate(n)) == Height(n.right) + 2
  {
  }

  /** Left-right case: rotating the left child left, then the node right. */
  lemma DoubleRight(n: Tree)
    requires n.Node? && n.left.Node? && HeightsOk(n.left) && Balanced(n.left) && Avl(n.right)
    requires Height(n.left) == Height(n.right) + 2
    requires Height(n.left.right) == Height(n.left.left) + 1
    ensures n.left.right.Node?
    ensures Avl(RightRotate(n.(left := LeftRotate(n.left))))
    ensures Height(RightRotate(n.(left := LeftRotate(n.left)))) == Height(n.right) + 2
  {
  }

  lemma SingleLeft(n: Tree)
    requires n.Node? && n.right.Node? && HeightsOk(n.right) && Balanced(n.right) && Avl(n.left)
    requires Height(n.right) == Height(n.left) + 2
    requires Height(n.right.right) == Height(n.right.left) + 1
    ensures Avl(LeftRotate(n)) && Height(LeftRotate(n)) == Height(n.left) + 2
  {
  }

  lemma DoubleLeft(n: Tree)
    requires n.Node? && n.right.Node? && HeightsOk(n.right) && Balanced(n.right) && Avl(n.left)
    requires Height(n.right) == Height(n.left) + 2
    requires Height(n.right.left) == Height(n.right.right) + 1
    ensures n.right.left.Node?
    ensures Avl(LeftRotate(n.(right := RightRotate(n.right))))
    ensures Height(LeftRotate(n.(right := RightRotate(n.right)))) == Height(n.left) + 2
  {
  }

  /**
   * Inserting a key already in an AVL search tree changes nothing: the search finds it,
   * the heights recomputed on the way up are the ones stored, and no node is out of balance.
   */
  lemma {:induction false} InsertAVLPresent(t: Tree, v: int)
    requires Avl(t) && IsBST(t) && v in Keys(t)
    ensures InsertAVL(t, v) == Some(t)
  {
    match t
    case Node(x, l, r, h) =>
      if v < x {
        InsertAVLPresent(l, v);
        assert Join(x, l, r) == t;
      } else if v > x {
        InsertAVLPresent(r, v);
        assert Join(x, l, r) == t;
      }
  }
}
