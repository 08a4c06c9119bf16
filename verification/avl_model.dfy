/**
 * The functional model of the AVL engine. A `Tree` value mirrors the linked
 * node graph. Each branch names the `Node` object that stands there, with
 * that node's key and value. Heights are computed, never stored.
 *
 * `RotateLeftOf`, `RotateRightOf`, `Rebalanced` and `Inserted` say which
 * tree the engine's in-place `rotateLeft`, `rotateRight`, `balance` and
 * `insert` build. The lemmas here prove what those trees satisfy:
 * - the search-tree order of `compareKey`;
 * - AVL balance;
 * - the key/value map they hold;
 * - the node set they are made of.
 */
module AvlModel {
  import opened KeyOrder
  import opened TreeNode

  datatype Tree = Nil | Br(left: Tree, node: Node, key: Key, value: Value, right: Tree)

  /** `Math.max`. */
  function Max(a: int, b: int): int
  {
    if a < b then b else a
  }

  /** The height formula; the sentinel has height 0. */
  ghost function Height(t: Tree): nat
  {
    match t
    case Nil => 0
    case Br(l, _, _, _, r) => 1 + Max(Height(l), Height(r))
  }

  /** Number of filled nodes. */
  ghost function Size(t: Tree): nat
  {
    match t
    case Nil => 0
    case Br(l, _, _, _, r) => Size(l) + 1 + Size(r)
  }

  /** The node objects the tree is made of. */
  ghost function NodeSet(t: Tree): set<Node>
  {
    match t
    case Nil => {}
    case Br(l, o, _, _, r) => NodeSet(l) + {o} + NodeSet(r)
  }

  /** No node object occurs twice: the graph is a tree, not a DAG or a cycle. */
  ghost predicate Distinct(t: Tree)
  {
    match t
    case Nil => true
    case Br(l, o, _, _, r) =>
      o !in NodeSet(l) && o !in NodeSet(r) && NodeSet(l) !! NodeSet(r)
      && Distinct(l) && Distinct(r)
  }

  /** The key/value map the tree stores. */
  ghost function Content(t: Tree): map<Key, Value>
  {
    match t
    case Nil => map[]
    case Br(l, _, k, v, r) => Content(l) + Content(r) + map[k := v]
  }

  /** Keys in in-order (left, node, right) sequence. */
  ghost function InOrderKeys(t: Tree): seq<Key>
  {
    match t
    case Nil => []
    case Br(l, _, k, _, r) => InOrderKeys(l) + [k] + InOrderKeys(r)
  }

  /** The keys stored in the tree. */
  ghost function Keys(t: Tree): set<Key>
  {
    match t
    case Nil => {}
    case Br(l, _, k, _, r) => Keys(l) + Keys(r) + {k}
  }

  /** Every key of `s` belongs left of `k`: `compareKey` on `k` is negative for it. */
  ghost predicate AllLeft(k: Key, s: set<Key>)
  {
    forall q :: q in s ==> Comparison(k, q) < 0
  }

  /** Every key of `s` belongs right of `k`: `compareKey` on `k` is positive for it. */
  ghost predicate AllRight(k: Key, s: set<Key>)
  {
    forall q :: q in s ==> Comparison(k, q) > 0
  }

  /**
   * The search-tree order that `find` and `insert` descend by. A node's
   * `compareKey` is negative for every key in its left subtree and positive
   * for every key in its right subtree.
   */
  ghost predicate Ordered(t: Tree)
  {
    match t
    case Nil => true
    case Br(l, _, k, _, r) =>
      AllLeft(k, Keys(l)) && AllRight(k, Keys(r)) && Ordered(l) && Ordered(r)
  }

  /** AVL balance: at every node the subtree heights differ by at most one. */
  ghost predicate Balanced(t: Tree)
  {
    match t
    case Nil => true
    case Br(l, _, _, _, r) =>
      -1 <= Height(r) - Height(l) <= 1 && Balanced(l) && Balanced(r)
  }

  /** `balanceFactor`: right height minus left height. */
  ghost function Factor(t: Tree): int
  {
    match t
    case Nil => 0
    case Br(l, _, _, _, r) => Height(r) - Height(l)
  }

  /** The tree `rotateLeft` builds: the right child is promoted. */
  ghost function RotateLeftOf(t: Tree): (r: Tree)
    requires t.Br? && t.right.Br?
    ensures r.Br? && NodeSet(r) == NodeSet(t) && Keys(r) == Keys(t)
  {
    var r := t.right;
    Br(Br(t.left, t.node, t.key, t.value, r.left), r.node, r.key, r.value, r.right)
  }

  /** The tree `rotateRight` builds: the left child is promoted. */
  ghost function RotateRightOf(t: Tree): (r: Tree)
    requires t.Br? && t.left.Br?
    ensures r.Br? && NodeSet(r) == NodeSet(t) && Keys(r) == Keys(t)
  {
    var l := t.left;
    Br(l.left, l.node, l.key, l.value, Br(l.right, t.node, t.key, t.value, t.right))
  }

  /**
   * The tree `balance` returns. A factor above 1 rotates left; if the right
   * child leans left it is first rotated right. A factor below -1 is the
   * mirror image. Otherwise the tree is left as it is.
   */
  ghost function Rebalanced(t: Tree): (r: Tree)
    requires t.Br?
    ensures r.Br? && NodeSet(r) == NodeSet(t) && Keys(r) == Keys(t)
  {
    if Factor(t) > 1 then
      RotateLeftOf(if Factor(t.right) < 0 then t.(right := RotateRightOf(t.right)) else t)
    else if Factor(t) < -1 then
      RotateRightOf(if Factor(t.left) > 0 then t.(left := RotateLeftOf(t.left)) else t)
    else t
  }

  /**
   * The tree `insert` returns. A new leaf `leaf` goes where the descent
   * meets the sentinel. An equal key only replaces the value and skips
   * `balance`. Every other level on the way back up is rebalanced.
   */
  ghost function Inserted(t: Tree, k: Key, v: Value, leaf: Node): (r: Tree)
    ensures r.Br? && Keys(r) == Keys(t) + {k}
  {
    match t
    case Nil => Br(Nil, leaf, k, v, Nil)
    case Br(l, o, kk, vv, r) =>
      var c := Comparison(kk, k);
      if c < 0 then Rebalanced(Br(Inserted(l, k, v, leaf), o, kk, vv, r))
      else if c > 0 then Rebalanced(Br(l, o, kk, vv, Inserted(r, k, v, leaf)))
      else ComparisonZeroIffEqual(kk, k); Br(l, o, kk, v, r)
  }

  /**
   * Reference definition for an update of a present key: the same descent,
   * replacing only the value of the node that compares equal.
   */
  ghost function Assigned(t: Tree, k: Key, v: Value): Tree
  {
    match t
    case Nil => Nil
    case Br(l, o, kk, vv, r) =>
      var c := Comparison(kk, k);
      if c < 0 then Br(Assigned(l, k, v), o, kk, vv, r)
      else if c > 0 then Br(l, o, kk, vv, Assigned(r, k, v))
      else Br(l, o, kk, v, r)
  }

  /** Length of the right spine, the walk `TestingTree.getRightDepth` makes. */
  ghost function RightDepth(t: Tree): nat
  {
    match t
    case Nil => 0
    case Br(_, _, _, _, r) => 1 + RightDepth(r)
  }

  /** Fewest nodes an AVL tree of height `h` can have. */
  ghost function MinSize(h: nat): nat
  {
    if h == 0 then 0 else if h == 1 then 1 else 1 + MinSize(h - 1) + MinSize(h - 2)
  }

  // ---------------------------------------------------------------- rotations

  /**
   * The maps of the two trees a rotation relates, written with the three
   * subtree maps `a`, `b`, `c` and the two entries `kx := vx` (the lower
   * node after a left rotation) and `ky := vy` (the upper one). They agree
   * when `kx` is neither `ky` nor a key of `c`.
   */
  lemma {:induction false} MapRotation(a: map<Key, Value>, b: map<Key, Value>, c: map<Key, Value>,
                                       kx: Key, vx: Value, ky: Key, vy: Value)
    requires kx !in c && kx != ky
    ensures a + b + map[kx := vx] + c + map[ky := vy] == a + (b + c + map[ky := vy]) + map[kx := vx]
  {
    var lhs := a + b + map[kx := vx] + c + map[ky := vy];
    var rhs := a + (b + c + map[ky := vy]) + map[kx := vx];
    assert lhs.Keys == rhs.Keys;
    forall q | q in lhs.Keys
      ensures lhs[q] == rhs[q]
    {
    }
  }

  /** The map's keys are the tree's keys. */
  lemma {:induction false} ContentKeys(t: Tree)
    ensures Content(t).Keys == Keys(t)
  {
    if t.Br? {
      ContentKeys(t.left);
      ContentKeys(t.right);
    }
  }

  /** A left rotation keeps the in-order key sequence, the node set and the size. */
  lemma {:induction false} RotateLeftShape(t: Tree)
    requires t.Br? && t.right.Br?
    ensures InOrderKeys(RotateLeftOf(t)) == InOrderKeys(t)
    ensures NodeSet(RotateLeftOf(t)) == NodeSet(t)
    ensures Keys(RotateLeftOf(t)) == Keys(t)
    ensures Size(RotateLeftOf(t)) == Size(t)
    ensures Distinct(t) ==> Distinct(RotateLeftOf(t))
  {
    var Br(a, x, kx, vx, y) := t;
    var Br(b, yn, ky, vy, c) := y;
    if Distinct(t) {
      assert Distinct(y);
      assert Distinct(b) && Distinct(c);
      assert Distinct(Br(a, x, kx, vx, b));
    }
  }

  /** A left rotation of an ordered tree is ordered. */
  lemma {:induction false} RotateLeftOrdered(t: Tree)
    requires t.Br? && t.right.Br? && Ordered(t)
    ensures Ordered(RotateLeftOf(t))
  {
    var Br(a, x, kx, vx, y) := t;
    var Br(b, yn, ky, vy, c) := y;
    assert Ordered(y) && AllRight(kx, Keys(y)) && AllLeft(kx, Keys(a));
    assert ky in Keys(y);
    ComparisonAntisymmetric(kx, ky);
    forall q | q in Keys(a)
      ensures Comparison(ky, q) < 0
    {
      ComparisonTransitive(ky, kx, q);
    }
    assert AllLeft(ky, Keys(Br(a, x, kx, vx, b)));
    assert Ordered(Br(a, x, kx, vx, b));
  }

  /** A left rotation of an ordered tree stores the same map. */
  lemma {:induction false} RotateLeftContent(t: Tree)
    requires t.Br? && t.right.Br? && Ordered(t)
    ensures Content(RotateLeftOf(t)) == Content(t)
  {
    var Br(a, x, kx, vx, y) := t;
    var Br(b, yn, ky, vy, c) := y;
    assert AllRight(kx, Keys(y)) && Ordered(y) && AllRight(ky, Keys(c));
    ComparisonTotal(kx, kx);
    assert kx !in Keys(c) && kx != ky;
    ContentKeys(c);
    MapRotation(Content(a), Content(b), Content(c), kx, vx, ky, vy);
  }

  /** A right rotation keeps the in-order key sequence, the node set and the size. */
  lemma {:induction false} RotateRightShape(t: Tree)
    requires t.Br? && t.left.Br?
    ensures InOrderKeys(RotateRightOf(t)) == InOrderKeys(t)
    ensures NodeSet(RotateRightOf(t)) == NodeSet(t)
    ensures Keys(RotateRightOf(t)) == Keys(t)
    ensures Size(RotateRightOf(t)) == Size(t)
    ensures Distinct(t) ==> Distinct(RotateRightOf(t))
  {
    var Br(y, x, kx, vx, c) := t;
    var Br(a, yn, ky, vy, b) := y;
    if Distinct(t) {
      assert Distinct(y);
      assert Distinct(a) && Distinct(b);
      assert Distinct(Br(b, x, kx, vx, c));
    }
  }

  /** A right rotation of an ordered tree is ordered. */
  lemma {:induction false} RotateRightOrdered(t: Tree)
    requires t.Br? && t.left.Br? && Ordered(t)
    ensures Ordered(RotateRightOf(t))
  {
    var Br(y, x, kx, vx, c) := t;
    var Br(a, yn, ky, vy, b) := y;
    assert Ordered(y) && AllLeft(kx, Keys(y)) && AllRight(kx, Keys(c));
    assert ky in Keys(y);
    ComparisonAntisymmetric(kx, ky);
    forall q | q in Keys(c)
      ensures Comparison(ky, q) > 0
    {
      ComparisonAntisymmetric(kx, q);
      ComparisonAntisymmetric(ky, q);
      ComparisonTransitive(q, kx, ky);
    }
    assert AllRight(ky, Keys(Br(b, x, kx, vx, c)));
    assert Ordered(Br(b, x, kx, vx, c));
  }

  /** A right rotation of an ordered tree stores the same map. */
  lemma {:induction false} RotateRightContent(t: Tree)
    requires t.Br? && t.left.Br? && Ordered(t)
    ensures Content(RotateRightOf(t)) == Content(t)
  {
    var Br(y, x, kx, vx, c) := t;
    var Br(a, yn, ky, vy, b) := y;
    assert AllLeft(kx, Keys(y)) && Ordered(y) && AllRight(kx, Keys(c)) && AllRight(ky, Keys(b));
    assert ky in Keys(y);
    ComparisonTotal(ky, ky);
    ComparisonAntisymmetric(kx, ky);
    assert ky !in Keys(b) && ky !in Keys(c) && ky != kx;
    ContentKeys(b);
    ContentKeys(c);
    MapRotation(Content(a), Content(b), Content(c), ky, vy, kx, vx);
  }

  // ---------------------------------------------------------------- balance

  /** `balance` keeps the in-order keys, the node set, the order and the map. */
  lemma {:induction false} RebalancedPreserves(t: Tree)
    requires t.Br?
    ensures InOrderKeys(Rebalanced(t)) == InOrderKeys(t)
    ensures NodeSet(Rebalanced(t)) == NodeSet(t)
    ensures Keys(Rebalanced(t)) == Keys(t)
    ensures Size(Rebalanced(t)) == Size(t)
    ensures Distinct(t) ==> Distinct(Rebalanced(t))
    ensures Ordered(t) ==> Ordered(Rebalanced(t)) && Content(Rebalanced(t)) == Content(t)
  {
    if Factor(t) > 1 {
      var t1 := t;
      if Factor(t.right) < 0 {
        RotateRightShape(t.right);
        if Ordered(t) { RotateRightOrdered(t.right); RotateRightContent(t.right); }
        t1 := t.(right := RotateRightOf(t.right));
      }
      RotateLeftShape(t1);
      if Ordered(t1) { RotateLeftOrdered(t1); RotateLeftContent(t1); }
    } else if Factor(t) < -1 {
      var t1 := t;
      if Factor(t.left) > 0 {
        RotateLeftShape(t.left);
        if Ordered(t) { RotateLeftOrdered(t.left); RotateLeftContent(t.left); }
        t1 := t.(left := RotateLeftOf(t.left));
      }
      RotateRightShape(t1);
      if Ordered(t1) { RotateRightOrdered(t1); RotateRightContent(t1); }
    }
  }

  /**
   * `balance` restores AVL balance at a node whose subtrees are balanced
   * and differ in height by at most 2. It leaves a node alone when the
   * difference is at most 1. The result's height lies between the taller
   * subtree's height and one more than it.
   */
  lemma {:induction false} RebalancedIsBalanced(t: Tree)
    requires t.Br? && Balanced(t.left) && Balanced(t.right)
    requires -2 <= Factor(t) <= 2
    ensures Balanced(Rebalanced(t))
    ensures -1 <= Factor(t) <= 1 ==> Rebalanced(t) == t
    ensures Max(Height(t.left), Height(t.right)) <= Height(Rebalanced(t))
    ensures Height(Rebalanced(t)) <= Max(Height(t.left), Height(t.right)) + 1
  {
    if Factor(t) == 2 {
      RightHeavyBalanced(t);
    } else if Factor(t) == -2 {
      LeftHeavyBalanced(t);
    }
  }

  /** The case of `RebalancedIsBalanced` where the right subtree is 2 taller. */
  lemma {:induction false} RightHeavyBalanced(t: Tree)
    requires t.Br? && Balanced(t.left) && Balanced(t.right) && Factor(t) == 2
    ensures Balanced(Rebalanced(t))
    ensures Height(t.right) <= Height(Rebalanced(t)) <= Height(t.right) + 1
  {
    var r := t.right;
    if Factor(r) < 0 {
      var rl := r.left;
      assert Height(rl) == Height(t.left) + 1;
      assert Height(RotateRightOf(r).right) == Height(t.left) + 1;
    } else {
      assert Height(r.right) == Height(t.left) + 1;
    }
  }

  /** The case of `RebalancedIsBalanced` where the left subtree is 2 taller. */
  lemma {:induction false} LeftHeavyBalanced(t: Tree)
    requires t.Br? && Balanced(t.left) && Balanced(t.right) && Factor(t) == -2
    ensures Balanced(Rebalanced(t))
    ensures Height(t.left) <= Height(Rebalanced(t)) <= Height(t.left) + 1
  {
    var l := t.left;
    if Factor(l) > 0 {
      var lr := l.right;
      assert Height(lr) == Height(t.right) + 1;
      assert Height(RotateLeftOf(l).left) == Height(t.right) + 1;
    } else {
      assert Height(l.left) == Height(t.right) + 1;
    }
  }

  // ---------------------------------------------------------------- insert

  /** Inserting keeps the tree ordered; its keys are the old keys plus `k`. */
  lemma {:induction false} InsertedOrdered(t: Tree, k: Key, v: Value, leaf: Node)
    requires Ordered(t)
    ensures Ordered(Inserted(t, k, v, leaf))
    ensures Keys(Inserted(t, k, v, leaf)) == Keys(t) + {k}
  {
    match t
    case Nil =>
    case Br(l, o, kk, vv, r) =>
      var c := Comparison(kk, k);
      if c < 0 {
        InsertedOrdered(l, k, v, leaf);
        InsertedOrderedLeft(t, k, v, leaf);
      } else if c > 0 {
        InsertedOrdered(r, k, v, leaf);
        InsertedOrderedRight(t, k, v, leaf);
      } else {
        ComparisonZeroIffEqual(kk, k);
      }
  }

  /** The step of `InsertedOrdered` for a descent to the left. */
  lemma {:induction false} InsertedOrderedLeft(t: Tree, k: Key, v: Value, leaf: Node)
    requires t.Br? && Ordered(t) && Comparison(t.key, k) < 0
    requires Ordered(Inserted(t.left, k, v, leaf))
    requires Keys(Inserted(t.left, k, v, leaf)) == Keys(t.left) + {k}
    ensures Ordered(Inserted(t, k, v, leaf))
    ensures Keys(Inserted(t, k, v, leaf)) == Keys(t) + {k}
  {
    var t1 := Br(Inserted(t.left, k, v, leaf), t.node, t.key, t.value, t.right);
    assert AllLeft(t.key, Keys(t1.left));
    RebalancedPreserves(t1);
  }

  /** The step of `InsertedOrdered` for a descent to the right. */
  lemma {:induction false} InsertedOrderedRight(t: Tree, k: Key, v: Value, leaf: Node)
    requires t.Br? && Ordered(t) && Comparison(t.key, k) > 0
    requires Ordered(Inserted(t.right, k, v, leaf))
    requires Keys(Inserted(t.right, k, v, leaf)) == Keys(t.right) + {k}
    ensures Ordered(Inserted(t, k, v, leaf))
    ensures Keys(Inserted(t, k, v, leaf)) == Keys(t) + {k}
  {
    var t1 := Br(t.left, t.node, t.key, t.value, Inserted(t.right, k, v, leaf));
    assert AllRight(t.key, Keys(t1.right));
    RebalancedPreserves(t1);
  }

  /** Updating the left part of a node's map, when neither the right part nor the node holds `k`. */
  lemma {:induction false} MapUpdateLeft(a: map<Key, Value>, b: map<Key, Value>, kk: Key, vv: Value, k: Key, v: Value)
    requires k !in b && k != kk
    ensures a[k := v] + b + map[kk := vv] == (a + b + map[kk := vv])[k := v]
  {
    var lhs := a[k := v] + b + map[kk := vv];
    var rhs := (a + b + map[kk := vv])[k := v];
    assert lhs.Keys == rhs.Keys;
    forall q | q in lhs.Keys
      ensures lhs[q] == rhs[q]
    {
    }
  }

  /** Updating the right part of a node's map, when the node does not hold `k`. */
  lemma {:induction false} MapUpdateRight(a: map<Key, Value>, b: map<Key, Value>, kk: Key, vv: Value, k: Key, v: Value)
    requires k != kk
    ensures a + b[k := v] + map[kk := vv] == (a + b + map[kk := vv])[k := v]
  {
    var lhs := a + b[k := v] + map[kk := vv];
    var rhs := (a + b + map[kk := vv])[k := v];
    assert lhs.Keys == rhs.Keys;
    forall q | q in lhs.Keys
      ensures lhs[q] == rhs[q]
    {
    }
  }

  /**
   * Inserting stores `v` under `k` and keeps every other entry: the map
   * afterwards is the old map updated at `k`.
   */
  lemma {:induction false} InsertedContent(t: Tree, k: Key, v: Value, leaf: Node)
    requires Ordered(t)
    ensures Content(Inserted(t, k, v, leaf)) == Content(t)[k := v]
  {
    match t
    case Nil =>
    case Br(l, o, kk, vv, r) =>
      var c := Comparison(kk, k);
      if c < 0 {
        InsertedContent(l, k, v, leaf);
        InsertedLeftContent(t, k, v, leaf);
      } else if c > 0 {
        InsertedContent(r, k, v, leaf);
        InsertedRightContent(t, k, v, leaf);
      } else {
        ComparisonZeroIffEqual(kk, k);
        MapUpdateTop(Content(l), Content(r), kk, vv, v);
      }
  }

  /** Replacing the value of a node's own entry in its map. */
  lemma {:induction false} MapUpdateTop(a: map<Key, Value>, b: map<Key, Value>, kk: Key, vv: Value, v: Value)
    ensures a + b + map[kk := v] == (a + b + map[kk := vv])[kk := v]
  {
    var lhs := a + b + map[kk := v];
    var rhs := (a + b + map[kk := vv])[kk := v];
    assert lhs.Keys == rhs.Keys;
    forall q | q in lhs.Keys
      ensures lhs[q] == rhs[q]
    {
    }
  }

  /** The step of `InsertedContent` for a descent to the left. */
  lemma {:induction false} InsertedLeftContent(t: Tree, k: Key, v: Value, leaf: Node)
    requires t.Br? && Ordered(t) && Comparison(t.key, k) < 0
    requires Content(Inserted(t.left, k, v, leaf)) == Content(t.left)[k := v]
    ensures Content(Inserted(t, k, v, leaf)) == Content(t)[k := v]
  {
    var Br(l, o, kk, vv, r) := t;
    InsertedOrdered(l, k, v, leaf);
    var t1 := Br(Inserted(l, k, v, leaf), o, kk, vv, r);
    assert AllLeft(kk, Keys(t1.left));
    RebalancedPreserves(t1);
    ComparisonAntisymmetric(kk, k);
    assert AllRight(kk, Keys(r));
    ContentKeys(r);
    MapUpdateLeft(Content(l), Content(r), kk, vv, k, v);
  }

  /** The step of `InsertedContent` for a descent to the right. */
  lemma {:induction false} InsertedRightContent(t: Tree, k: Key, v: Value, leaf: Node)
    requires t.Br? && Ordered(t) && Comparison(t.key, k) > 0
    requires Content(Inserted(t.right, k, v, leaf)) == Content(t.right)[k := v]
    ensures Content(Inserted(t, k, v, leaf)) == Content(t)[k := v]
  {
    var Br(l, o, kk, vv, r) := t;
    InsertedOrdered(r, k, v, leaf);
    var t1 := Br(l, o, kk, vv, Inserted(r, k, v, leaf));
    assert AllRight(kk, Keys(t1.right));
    RebalancedPreserves(t1);
    ComparisonTotal(kk, kk);
    MapUpdateRight(Content(l), Content(r), kk, vv, k, v);
  }

  /**
   * Inserting into an AVL tree gives an AVL tree that is as tall as before
   * or one taller.
   */
  lemma {:induction false} InsertedIsBalanced(t: Tree, k: Key, v: Value, leaf: Node)
    requires Balanced(t)
    ensures Balanced(Inserted(t, k, v, leaf))
    ensures Height(t) <= Height(Inserted(t, k, v, leaf)) <= Height(t) + 1
  {
    match t
    case Nil =>
    case Br(l, o, kk, vv, r) =>
      var c := Comparison(kk, k);
      if c < 0 {
        InsertedIsBalanced(l, k, v, leaf);
        RebalancedIsBalanced(Br(Inserted(l, k, v, leaf), o, kk, vv, r));
      } else if c > 0 {
        InsertedIsBalanced(r, k, v, leaf);
        RebalancedIsBalanced(Br(l, o, kk, vv, Inserted(r, k, v, leaf)));
      }
  }

  /**
   * Inserting an absent key adds the leaf `leaf` to the node set; inserting
   * a present key keeps the node set, and `leaf` is not used.
   */
  lemma {:induction false} InsertedNodes(t: Tree, k: Key, v: Value, leaf: Node)
    requires Ordered(t)
    ensures k !in Keys(t) ==> NodeSet(Inserted(t, k, v, leaf)) == NodeSet(t) + {leaf}
    ensures k in Keys(t) ==> NodeSet(Inserted(t, k, v, leaf)) == NodeSet(t)
    ensures Size(Inserted(t, k, v, leaf)) == if k in Keys(t) then Size(t) else Size(t) + 1
  {
    match t
    case Nil =>
    case Br(l, o, kk, vv, r) =>
      var c := Comparison(kk, k);
      ComparisonZeroIffEqual(kk, k);
      if c < 0 {
        InsertedNodes(l, k, v, leaf);
        InsertedNodesLeft(t, k, v, leaf);
      } else if c > 0 {
        InsertedNodes(r, k, v, leaf);
        InsertedNodesRight(t, k, v, leaf);
      }
  }

  /** The step of `InsertedNodes` for a descent to the left. */
  lemma {:induction false} InsertedNodesLeft(t: Tree, k: Key, v: Value, leaf: Node)
    requires t.Br? && Ordered(t) && Comparison(t.key, k) < 0
    requires var tl := Inserted(t.left, k, v, leaf);
      NodeSet(tl) == (if k in Keys(t.left) then NodeSet(t.left) else NodeSet(t.left) + {leaf}) &&
      Size(tl) == (if k in Keys(t.left) then Size(t.left) else Size(t.left) + 1)
    ensures NodeSet(Inserted(t, k, v, leaf)) == (if k in Keys(t) then NodeSet(t) else NodeSet(t) + {leaf})
    ensures Size(Inserted(t, k, v, leaf)) == if k in Keys(t) then Size(t) else Size(t) + 1
  {
    DescendLeft(t, k);
    var t1 := Br(Inserted(t.left, k, v, leaf), t.node, t.key, t.value, t.right);
    assert Inserted(t, k, v, leaf) == Rebalanced(t1);
    RebalancedPreserves(t1);
  }

  /** The step of `InsertedNodes` for a descent to the right. */
  lemma {:induction false} InsertedNodesRight(t: Tree, k: Key, v: Value, leaf: Node)
    requires t.Br? && Ordered(t) && Comparison(t.key, k) > 0
    requires var tr := Inserted(t.right, k, v, leaf);
      NodeSet(tr) == (if k in Keys(t.right) then NodeSet(t.right) else NodeSet(t.right) + {leaf}) &&
      Size(tr) == (if k in Keys(t.right) then Size(t.right) else Size(t.right) + 1)
    ensures NodeSet(Inserted(t, k, v, leaf)) == (if k in Keys(t) then NodeSet(t) else NodeSet(t) + {leaf})
    ensures Size(Inserted(t, k, v, leaf)) == if k in Keys(t) then Size(t) else Size(t) + 1
  {
    DescendRight(t, k);
    var t1 := Br(t.left, t.node, t.key, t.value, Inserted(t.right, k, v, leaf));
    assert Inserted(t, k, v, leaf) == Rebalanced(t1);
    RebalancedPreserves(t1);
  }

  /** A value-only update keeps the shape: heights, nodes, keys and balance. */
  lemma {:induction false} AssignedKeepsShape(t: Tree, k: Key, v: Value)
    ensures Height(Assigned(t, k, v)) == Height(t)
    ensures NodeSet(Assigned(t, k, v)) == NodeSet(t)
    ensures InOrderKeys(Assigned(t, k, v)) == InOrderKeys(t)
    ensures Balanced(t) ==> Balanced(Assigned(t, k, v))
  {
    match t
    case Nil =>
    case Br(l, o, kk, vv, r) =>
      var c := Comparison(kk, k);
      if c < 0 {
        AssignedKeepsShape(l, k, v);
      } else if c > 0 {
        AssignedKeepsShape(r, k, v);
      }
  }

  /**
   * Putting a key that is already present only replaces its value. On a
   * balanced tree every `balance` on the way back up leaves its node alone,
   * so no link and no height changes.
   */
  lemma {:induction false} InsertedPresentIsAssigned(t: Tree, k: Key, v: Value, leaf: Node)
    requires Ordered(t) && Balanced(t) && k in Keys(t)
    ensures Inserted(t, k, v, leaf) == Assigned(t, k, v)
  {
    match t
    case Br(l, o, kk, vv, r) =>
      var c := Comparison(kk, k);
      ComparisonZeroIffEqual(kk, k);
      if c < 0 {
        assert k !in Keys(r);
        InsertedPresentIsAssigned(l, k, v, leaf);
        AssignedKeepsShape(l, k, v);
      } else if c > 0 {
        assert k !in Keys(l);
        InsertedPresentIsAssigned(r, k, v, leaf);
        AssignedKeepsShape(r, k, v);
      }
  }

  /**
   * In a search tree, a key that `compareKey` on the root sends left is
   * in the tree exactly when it is in the left subtree, with the same
   * value there.
   */
  lemma DescendLeft(t: Tree, k: Key)
    requires t.Br? && Ordered(t) && Comparison(t.key, k) < 0
    ensures k in Keys(t) <==> k in Keys(t.left)
    ensures k in Content(t.left) ==> k in Content(t) && Content(t)[k] == Content(t.left)[k]
  {
    ContentKeys(t.left);
    ContentKeys(t.right);
    ComparisonAntisymmetric(t.key, k);
    assert k !in Keys(t.right);
    ComparisonZeroIffEqual(t.key, k);
  }

  /** The mirror image of `DescendLeft`, for a key sent right. */
  lemma DescendRight(t: Tree, k: Key)
    requires t.Br? && Ordered(t) && Comparison(t.key, k) > 0
    ensures k in Keys(t) <==> k in Keys(t.right)
    ensures k in Content(t.right) ==> k in Content(t) && Content(t)[k] == Content(t.right)[k]
  {
    ContentKeys(t.left);
    ContentKeys(t.right);
    ComparisonAntisymmetric(t.key, k);
    assert k !in Keys(t.left);
    ComparisonZeroIffEqual(t.key, k);
  }

  /** Keys are unique: an ordered tree holds as many keys as nodes. */
  lemma {:induction false} OrderedKeysUnique(t: Tree)
    requires Ordered(t)
    ensures |Keys(t)| == Size(t)
  {
    match t
    case Nil =>
    case Br(l, _, k, _, r) =>
      OrderedKeysUnique(l);
      OrderedKeysUnique(r);
      ComparisonTotal(k, k);
      assert Keys(l) !! Keys(r) by {
        forall q | q in Keys(l) ensures q !in Keys(r) {
          assert Comparison(k, q) < 0;
        }
      }
      assert k !in Keys(l) + Keys(r);
      assert |Keys(l) + Keys(r)| == |Keys(l)| + |Keys(r)|;
  }

  // ---------------------------------------------------------------- height bounds

  /** The right spine is no longer than the height. */
  lemma {:induction false} RightDepthAtMostHeight(t: Tree)
    ensures RightDepth(t) <= Height(t)
  {
    if t.Br? {
      RightDepthAtMostHeight(t.right);
    }
  }

  lemma {:induction false} MinSizeMonotone(a: nat, b: nat)
    requires a <= b
    ensures MinSize(a) <= MinSize(b)
    decreases b
  {
    if a < b {
      MinSizeMonotone(a, b - 1);
    }
  }

  /** An AVL tree of height h has at least `MinSize(h)` nodes. */
  lemma {:induction false} BalancedIsBushy(t: Tree)
    requires Balanced(t)
    ensures MinSize(Height(t)) <= Size(t)
  {
    if t.Br? {
      var h := Height(t);
      BalancedIsBushy(t.left);
      BalancedIsBushy(t.right);
      if h >= 2 {
        MinSizeMonotone(h - 2, Height(t.left));
        MinSizeMonotone(h - 2, Height(t.right));
      }
    }
  }

  /**
   * An AVL tree holding at most 128 keys is at most 9 high, so neither its
   * height nor its right spine exceeds 9.
   */
  lemma {:induction false} HeightWithAtMost128Keys(t: Tree)
    requires Ordered(t) && Balanced(t) && |Keys(t)| <= 128
    ensures RightDepth(t) <= Height(t) <= 9
  {
    OrderedKeysUnique(t);
    BalancedIsBushy(t);
    RightDepthAtMostHeight(t);
    if Height(t) > 9 {
      assert MinSize(2) == 2 && MinSize(3) == 4 && MinSize(4) == 7;
      assert MinSize(5) == 12 && MinSize(6) == 20 && MinSize(7) == 33;
      assert MinSize(8) == 54 && MinSize(9) == 88 && MinSize(10) == 143;
      MinSizeMonotone(10, Height(t));
    }
  }
}
