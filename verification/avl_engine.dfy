/**
 * The AVL engine of `ConcurrentAVLTree`, on the linked node graph.
 *
 * The ghost predicate `Mirror(t, n)` ties a `Tree` value of `AvlModel` to
 * the heap. It says that `n` is the node graph `t` describes: every node
 * has its key, value and children, every child's `parent` link points back
 * to the node above it, and every cached `height` equals the height
 * formula. The root's own `parent` link belongs to the level above and is
 * stated separately, by `HangsBelow`.
 *
 * Each method that rewires nodes is proved to leave behind the mirror of
 * the tree that the corresponding `AvlModel` function builds. The lemmas
 * of `AvlModel` then carry order, balance and content over to the heap.
 */
module AvlEngine {
  import opened KeyOrder
  import opened TreeNode
  import opened AvlModel

  datatype Option<T> = None | Some(value: T)

  /** The root node of `t`, as a set: empty for `Nil`. */
  ghost function Root(t: Tree): set<Node>
  {
    if t.Br? then {t.node} else {}
  }

  /**
   * `n` is the node graph of `t`. The sentinel (`null`) stands for `Nil`;
   * a filled node has the cached height the formula gives and is linked to
   * its subtrees as `Linked` says. The root's `parent` plays no part.
   */
  ghost predicate Mirror(t: Tree, n: Node?)
    reads NodeSet(t)
    decreases t, 1
  {
    match t
    case Nil => n == null
    case Br(_, o, _, _, _) => n == o && o.height == Height(t) && Linked(t)
  }

  /**
   * The root of `t` has `t`'s key and value, its children mirror the
   * subtrees, and their `parent` links point back to it. The root's own
   * `parent` and `height` are not read.
   */
  ghost predicate Linked(t: Tree)
    requires t.Br?
    reads t.node`left, t.node`right, t.node`value, NodeSet(t.left), NodeSet(t.right)
    decreases t, 0
  {
    var o := t.node;
    o.key == t.key && o.value == t.value
    && Mirror(t.left, o.left) && HangsBelow(t.left, o)
    && Mirror(t.right, o.right) && HangsBelow(t.right, o)
  }

  /** The root of `t`, when `t` has one, has `p` as its parent. */
  ghost predicate HangsBelow(t: Tree, p: Node?)
    reads Root(t)`parent
  {
    t.Br? ==> t.node.parent == p
  }

  /** Every node of a tree value held by the program is an allocated object. */
  lemma {:induction false} NodesAllocated(t: Tree)
    ensures forall o :: o in NodeSet(t) ==> allocated(o)
  {
    if t.Br? {
      NodesAllocated(t.left);
      NodesAllocated(t.right);
    }
  }

  /** A mirrored subtree's `getHeight` is its computed height. */
  lemma MirrorHeight(t: Tree, n: Node?)
    requires Mirror(t, n)
    ensures HeightOf(n) == Height(t)
  {
  }

  /** The factor of a linked tree can be read off its root's children. */
  lemma LinkedFactor(t: Tree)
    ensures t.Br? && Linked(t) ==> Factor(t) == HeightOf(t.node.right) - HeightOf(t.node.left)
  {
    if t.Br? && Linked(t) {
      MirrorHeight(t.left, t.node.left);
      MirrorHeight(t.right, t.node.right);
    }
  }

  /**
   * `updateHeight`: the node's height becomes one more than the taller
   * child's. When the node is the root of a linked tree `t`, it then
   * mirrors `t`.
   */
  method UpdateHeight(node: Node, ghost t: Tree)
    modifies node`height
    ensures node.height == Max(old(HeightOf(node.left)), old(HeightOf(node.right))) + 1
    ensures old(t.Br? && t.node == node && Distinct(t) && Linked(t)) ==> Mirror(t, node)
  {
    ghost var linked := t.Br? && t.node == node && Distinct(t) && Linked(t);
    if linked {
      NodesAllocated(t);
      assert node in NodeSet(t);
      MirrorHeight(t.left, node.left);
      MirrorHeight(t.right, node.right);
    }
    var _ := node.SetHeight(Max(HeightOf(node.left), HeightOf(node.right)) + 1);
    if linked {
      assert node !in NodeSet(t.left) && node !in NodeSet(t.right);
      assert Linked(t);
    }
  }

  /**
   * `balanceFactor`: the right subtree's height minus the left one's. On
   * the root of a linked tree it is the tree's factor.
   */
  function BalanceFactor(node: Node, ghost t: Tree): (bf: int)
    reads node, node.left, node.right
    ensures t.Br? && t.node == node && Linked(t) ==> bf == Factor(t)
  {
    LinkedFactor(t);
    HeightOf(node.right) - HeightOf(node.left)
  }

  // ---------------------------------------------------------------- rotations

  /**
   * The pieces a left rotation moves around: the node `x`, its right child
   * `y` and the three subtrees `a`, `b`, `c` below them are pairwise
   * disjoint, and each subtree is mirrored below its node.
   */
  lemma RotateLeftParts(t: Tree)
    requires t.Br? && t.right.Br? && Linked(t) && Distinct(t)
    ensures var x, y := t.node, t.right.node;
      var a, b, c := t.left, t.right.left, t.right.right;
      && x != y && x in NodeSet(t) && y in NodeSet(t)
      && x !in NodeSet(a) && x !in NodeSet(b) && x !in NodeSet(c)
      && y !in NodeSet(a) && y !in NodeSet(b) && y !in NodeSet(c)
      && NodeSet(a) !! NodeSet(b) && NodeSet(a) !! NodeSet(c) && NodeSet(b) !! NodeSet(c)
      && Distinct(a) && Distinct(b) && Distinct(c)
      && x.right == y && y.key == t.right.key && y.value == t.right.value
      && Mirror(a, x.left) && Mirror(b, y.left) && Mirror(c, y.right) && HangsBelow(c, y)
      && (b.Br? ==> b.node in NodeSet(t))
  {
    assert Mirror(t.right, t.node.right) && Linked(t.right);
  }

  /** The pieces a right rotation moves around, the mirror image of `RotateLeftParts`. */
  lemma RotateRightParts(t: Tree)
    requires t.Br? && t.left.Br? && Linked(t) && Distinct(t)
    ensures var x, y := t.node, t.left.node;
      var a, b, c := t.left.left, t.left.right, t.right;
      && x != y && x in NodeSet(t) && y in NodeSet(t)
      && x !in NodeSet(a) && x !in NodeSet(b) && x !in NodeSet(c)
      && y !in NodeSet(a) && y !in NodeSet(b) && y !in NodeSet(c)
      && NodeSet(a) !! NodeSet(b) && NodeSet(a) !! NodeSet(c) && NodeSet(b) !! NodeSet(c)
      && Distinct(a) && Distinct(b) && Distinct(c)
      && x.left == y && y.key == t.left.key && y.value == t.left.value
      && Mirror(c, x.right) && Mirror(b, y.right) && Mirror(a, y.left) && HangsBelow(a, y)
      && (b.Br? ==> b.node in NodeSet(t))
  {
    assert Mirror(t.left, t.node.left) && Linked(t.left);
  }

  /**
   * The link updates of `rotateLeft`: `right` adopts `node` as its left
   * child and takes over `node`'s parent; `node` adopts `rightLeft` as its
   * right child and hangs below `right`; `rightLeft` is re-parented only
   * when it is not the sentinel.
   */
  method LinkLeftRotation(node: Node, right: Node, rightLeft: Node?)
    requires node != right && rightLeft != node && rightLeft != right
    modifies node`right, node`parent, right`left, right`parent, {rightLeft}`parent
    ensures right.left == node && node.right == rightLeft
    ensures right.parent == old(node.parent) && node.parent == right
    ensures rightLeft != null ==> rightLeft.parent == node
  {
    var _ := right.SetLeft(node);
    var _ := node.SetRight(rightLeft);
    var _ := right.SetParent(node.parent);
    var _ := node.SetParent(right);
    if rightLeft != null {
      var _ := rightLeft.SetParent(node);
    }
  }

  /**
   * The link updates of `rotateRight`, the mirror image of
   * `LinkLeftRotation`.
   */
  method LinkRightRotation(node: Node, left: Node, leftRight: Node?)
    requires node != left && leftRight != node && leftRight != left
    modifies node`left, node`parent, left`right, left`parent, {leftRight}`parent
    ensures left.right == node && node.left == leftRight
    ensures left.parent == old(node.parent) && node.parent == left
    ensures leftRight != null ==> leftRight.parent == node
  {
    var _ := left.SetRight(node);
    var _ := node.SetLeft(leftRight);
    var _ := left.SetParent(node.parent);
    var _ := node.SetParent(left);
    if leftRight != null {
      var _ := leftRight.SetParent(node);
    }
  }

  /**
   * The first part of `rotateLeft`: the links are updated and the demoted
   * node's height is recomputed. The demoted node then mirrors the lower
   * tree of `RotateLeftOf(t)`, and the right child keeps its right subtree.
   */
  method DemoteLeft(node: Node, ghost t: Tree) returns (right: Node)
    requires t.Br? && t.node == node && t.right.Br? && Linked(t) && Distinct(t)
    modifies node`right, node`parent, node`height
    modifies t.right.node`left, t.right.node`parent, Root(t.right.left)`parent
    ensures right == old(node.right) && right.left == node
    ensures right.parent == old(node.parent) && node.parent == right
    ensures Mirror(Br(t.left, node, t.key, t.value, t.right.left), node)
    ensures Mirror(t.right.right, right.right) && HangsBelow(t.right.right, right)
  {
    ghost var Br(a, _, kx, vx, y) := t;
    ghost var Br(b, _, _, _, c) := y;
    NodesAllocated(t);
    RotateLeftParts(t);
    right := node.right;
    var rightLeft := right.left;
    ghost var al, cr := node.left, right.right;

    LinkLeftRotation(node, right, rightLeft);
    if rightLeft != null {
      assert Linked(b);
    }
    assert Mirror(a, al) && Mirror(b, rightLeft) && Mirror(c, cr);
    assert HangsBelow(a, node) && HangsBelow(b, node) && HangsBelow(c, right);
    UpdateHeight(node, Br(a, node, kx, vx, b));
  }

  /**
   * The first part of `rotateRight`, the mirror image of `DemoteLeft`.
   */
  method DemoteRight(node: Node, ghost t: Tree) returns (left: Node)
    requires t.Br? && t.node == node && t.left.Br? && Linked(t) && Distinct(t)
    modifies node`left, node`parent, node`height
    modifies t.left.node`right, t.left.node`parent, Root(t.left.right)`parent
    ensures left == old(node.left) && left.right == node
    ensures left.parent == old(node.parent) && node.parent == left
    ensures Mirror(Br(t.left.right, node, t.key, t.value, t.right), node)
    ensures Mirror(t.left.left, left.left) && HangsBelow(t.left.left, left)
  {
    ghost var Br(y, _, kx, vx, c) := t;
    ghost var Br(a, _, _, _, b) := y;
    NodesAllocated(t);
    RotateRightParts(t);
    left := node.left;
    var leftRight := left.right;
    ghost var cr, al := node.right, left.left;

    LinkRightRotation(node, left, leftRight);
    if leftRight != null {
      assert Linked(b);
    }
    assert Mirror(c, cr) && Mirror(b, leftRight) && Mirror(a, al);
    assert HangsBelow(c, node) && HangsBelow(b, node) && HangsBelow(a, left);
    UpdateHeight(node, Br(b, node, kx, vx, c));
  }

  /**
   * `rotateLeft`: the right child is promoted, takes over the old parent
   * and is returned; the demoted node hangs below it and receives the right
   * child's inner subtree. The demoted node's height is recomputed first,
   * then the promoted one's. The graph afterwards mirrors `RotateLeftOf(t)`.
   */
  method RotateLeft(node: Node, ghost t: Tree, ghost p: Node?) returns (r: Node)
    requires t.Br? && t.node == node && t.right.Br? && Linked(t) && node.parent == p
    requires Distinct(t)
    modifies NodeSet(t)
    ensures r == t.right.node && r.parent == p
    ensures Mirror(RotateLeftOf(t), r)
  {
    ghost var Br(a, _, kx, vx, y) := t;
    ghost var Br(b, _, _, _, c) := y;
    NodesAllocated(t);
    RotateLeftParts(t);
    var right := DemoteLeft(node, t);
    RotateLeftShape(t);
    ghost var upper := Br(Br(a, node, kx, vx, b), right, y.key, y.value, c);
    assert upper == RotateLeftOf(t) && Linked(upper);
    UpdateHeight(right, upper);
    r := right;
  }

  /**
   * `rotateRight`: the mirror image of `RotateLeft`; the graph afterwards
   * mirrors `RotateRightOf(t)`.
   */
  method RotateRight(node: Node, ghost t: Tree, ghost p: Node?) returns (r: Node)
    requires t.Br? && t.node == node && t.left.Br? && Linked(t) && node.parent == p
    requires Distinct(t)
    modifies NodeSet(t)
    ensures r == t.left.node && r.parent == p
    ensures Mirror(RotateRightOf(t), r)
  {
    ghost var Br(y, _, kx, vx, c) := t;
    ghost var Br(a, _, _, _, b) := y;
    NodesAllocated(t);
    RotateRightParts(t);
    var left := DemoteRight(node, t);
    RotateRightShape(t);
    ghost var upper := Br(a, left, y.key, y.value, Br(b, node, kx, vx, c));
    assert upper == RotateRightOf(t) && Linked(upper);
    UpdateHeight(left, upper);
    r := left;
  }

  // ------------------------------------------------------ balance and insert

  /**
   * `balance`: recomputes the node's height and, when the factor is out of
   * range, performs the single or double rotation `Rebalanced` describes.
   * The node that now stands in its place is returned, below the same
   * parent.
   */
  method Balance(node: Node, ghost t: Tree, ghost p: Node?) returns (r: Node)
    requires t.Br? && t.node == node && Linked(t) && node.parent == p && Distinct(t)
    modifies NodeSet(t)
    ensures r.parent == p && Mirror(Rebalanced(t), r)
  {
    NodesAllocated(t);
    assert node in NodeSet(t);
    UpdateHeight(node, t);
    var bf := BalanceFactor(node, t);
    if bf > 1 {
      var t1 := RightLeaning(node, t);
      r := RotateLeft(node, t1, p);
    } else if bf < -1 {
      var t1 := LeftLeaning(node, t);
      r := RotateRight(node, t1, p);
    } else {
      r := node;
    }
  }

  /**
   * The two subtrees below a linked root: disjoint from each other and
   * from the root, each without repeated nodes, each mirrored below it.
   */
  lemma ChildParts(t: Tree)
    requires t.Br? && Linked(t) && Distinct(t)
    ensures var Br(l, o, k, v, r) := t;
      && NodeSet(t) == NodeSet(l) + {o} + NodeSet(r)
      && o !in NodeSet(l) && o !in NodeSet(r) && NodeSet(l) !! NodeSet(r)
      && Distinct(l) && Distinct(r) && o.key == k && o.value == v
      && Mirror(l, o.left) && HangsBelow(l, o) && Mirror(r, o.right) && HangsBelow(r, o)
  {
  }

  /**
   * The inner step of a right-left double rotation: when the right child
   * leans left it is rotated right and re-attached. The tree returned is
   * the one `RotateLeftOf` is then applied to in `Rebalanced`.
   */
  method RightLeaning(node: Node, ghost t: Tree) returns (ghost t1: Tree)
    requires t.Br? && t.node == node && Linked(t) && Distinct(t) && Factor(t) > 1
    modifies NodeSet(t.right), node`right
    ensures t1 == if Factor(t.right) < 0 then t.(right := RotateRightOf(t.right)) else t
    ensures t1.Br? && t1.right.Br? && t1.node == node && Linked(t1) && Distinct(t1)
    ensures NodeSet(t1) == NodeSet(t)
  {
    ghost var Br(l, _, k, v, rt) := t;
    NodesAllocated(t);
    ChildParts(t);
    assert Linked(rt);
    t1 := t;
    if BalanceFactor(node.right, rt) < 0 {
      RotateRightShape(rt);
      var promoted := RotateRight(node.right, rt, node);
      var _ := node.SetRight(promoted);
      t1 := Br(l, node, k, v, RotateRightOf(rt));
      assert Linked(t1);
    }
  }

  /** The inner step of a left-right double rotation, the mirror image of `RightLeaning`. */
  method LeftLeaning(node: Node, ghost t: Tree) returns (ghost t1: Tree)
    requires t.Br? && t.node == node && Linked(t) && Distinct(t) && Factor(t) < -1
    modifies NodeSet(t.left), node`left
    ensures t1 == if Factor(t.left) > 0 then t.(left := RotateLeftOf(t.left)) else t
    ensures t1.Br? && t1.left.Br? && t1.node == node && Linked(t1) && Distinct(t1)
    ensures NodeSet(t1) == NodeSet(t)
  {
    ghost var Br(lt, _, k, v, r) := t;
    NodesAllocated(t);
    ChildParts(t);
    assert Linked(lt);
    t1 := t;
    if BalanceFactor(node.left, lt) > 0 {
      RotateLeftShape(lt);
      var promoted := RotateLeft(node.left, lt, node);
      var _ := node.SetLeft(promoted);
      t1 := Br(RotateLeftOf(lt), node, k, v, r);
      assert Linked(t1);
    }
  }

  /** `createNode`: a fresh leaf with the key and value, hanging below `parent`. */
  method CreateNode(key: Key, value: Value, parent: Node?) returns (r: Node)
    ensures fresh(r) && r.parent == parent
    ensures Mirror(Br(Nil, r, key, value, Nil), r)
  {
    var n := new Node(key, value);
    r := n.SetParent(parent);
  }

  /**
   * The bookkeeping of a level of `insert` that descends to the left: with
   * the left subtree replaced by its insertion `tl`, the tree has no
   * repeated node, and rebalancing it gives `Inserted(t, ...)`, made of the
   * old nodes and `leaf`.
   */
  lemma InsertedLeftStep(t: Tree, k: Key, v: Value, leaf: Node, tl: Tree)
    requires t.Br? && Distinct(t) && Comparison(t.key, k) < 0
    requires tl == Inserted(t.left, k, v, leaf) && Distinct(tl)
    requires NodeSet(tl) == NodeSet(t.left) + {leaf}
    requires leaf in NodeSet(t.left) || leaf !in NodeSet(t)
    ensures var t1 := Br(tl, t.node, t.key, t.value, t.right);
      && Distinct(t1) && Inserted(t, k, v, leaf) == Rebalanced(t1)
      && NodeSet(Rebalanced(t1)) == NodeSet(t) + {leaf} && Distinct(Rebalanced(t1))
  {
    RebalancedPreserves(Br(tl, t.node, t.key, t.value, t.right));
  }

  /** The bookkeeping of a level of `insert` that descends to the right. */
  lemma InsertedRightStep(t: Tree, k: Key, v: Value, leaf: Node, tr: Tree)
    requires t.Br? && Distinct(t) && Comparison(t.key, k) > 0
    requires tr == Inserted(t.right, k, v, leaf) && Distinct(tr)
    requires NodeSet(tr) == NodeSet(t.right) + {leaf}
    requires leaf in NodeSet(t.right) || leaf !in NodeSet(t)
    ensures var t1 := Br(t.left, t.node, t.key, t.value, tr);
      && Distinct(t1) && Inserted(t, k, v, leaf) == Rebalanced(t1)
      && NodeSet(Rebalanced(t1)) == NodeSet(t) + {leaf} && Distinct(Rebalanced(t1))
  {
    RebalancedPreserves(Br(t.left, t.node, t.key, t.value, tr));
  }

  /**
   * `insert`: descends by `compareKey` from `node`, the root of `t`, which
   * hangs below `parent`. At the sentinel it creates a leaf; on an equal
   * key it only replaces the value; on the way back up every level is
   * rebalanced. The returned node is the root of `Inserted(t, ...)` with
   * `leaf` the node that holds the key: a node of `t` or a fresh one.
   */
  method Insert(node: Node?, key: Key, value: Value, parent: Node?, ghost t: Tree)
    returns (r: Node, ghost t': Tree, ghost leaf: Node)
    requires Mirror(t, node) && HangsBelow(t, parent) && Distinct(t)
    modifies NodeSet(t)
    ensures leaf in NodeSet(t) || fresh(leaf)
    ensures t' == Inserted(t, key, value, leaf)
    ensures Mirror(t', r) && r.parent == parent && Distinct(t')
    ensures NodeSet(t') == NodeSet(t) + {leaf}
    decreases t, 2
  {
    if node == null {
      r := CreateNode(key, value, parent);
      leaf := r;
      t' := Br(Nil, r, key, value, Nil);
      return;
    }
    assert t.Br? && Linked(t);
    NodesAllocated(t);
    ChildParts(t);
    var comparison := node.CompareKey(key);
    if comparison < 0 {
      r, t', leaf := InsertLeft(node, key, value, parent, t);
    } else if comparison > 0 {
      r, t', leaf := InsertRight(node, key, value, parent, t);
    } else {
      r := node.SetValue(value);
      leaf := node;
      t' := Br(t.left, node, t.key, value, t.right);
      assert Linked(t');
    }
  }

  /**
   * The branch of `insert` for a key that sorts to the left of `node`: the
   * key goes into the left subtree, whose new root is attached as the left
   * child, and `node` is balanced.
   */
  method InsertLeft(node: Node, key: Key, value: Value, parent: Node?, ghost t: Tree)
    returns (r: Node, ghost t': Tree, ghost leaf: Node)
    requires t.Br? && t.node == node && Linked(t) && node.parent == parent && Distinct(t)
    requires Comparison(t.key, key) < 0
    modifies NodeSet(t)
    ensures leaf in NodeSet(t) || fresh(leaf)
    ensures t' == Inserted(t, key, value, leaf)
    ensures Mirror(t', r) && r.parent == parent && Distinct(t')
    ensures NodeSet(t') == NodeSet(t) + {leaf}
    decreases t, 1
  {
    NodesAllocated(t);
    ghost var t1, tl;
    t1, tl, leaf := HangLeft(node, key, value, t);
    InsertedLeftStep(t, key, value, leaf, tl);
    r := Balance(node, t1, parent);
    t' := Rebalanced(t1);
  }

  /**
   * The first half of `InsertLeft`: the recursive `insert` into the left
   * subtree and the `setLeft` that attaches its result to `node`.
   */
  method HangLeft(node: Node, key: Key, value: Value, ghost t: Tree)
    returns (ghost t1: Tree, ghost tl: Tree, ghost leaf: Node)
    requires t.Br? && t.node == node && Linked(t) && Distinct(t)
    modifies NodeSet(t)
    ensures leaf in NodeSet(t.left) || fresh(leaf)
    ensures tl == Inserted(t.left, key, value, leaf) && Distinct(tl)
    ensures NodeSet(tl) == NodeSet(t.left) + {leaf}
    ensures t1 == Br(tl, node, t.key, t.value, t.right) && Linked(t1)
    ensures node.parent == old(node.parent)
    decreases t, 0
  {
    ghost var Br(l, _, k, v, rt) := t;
    NodesAllocated(t);
    ChildParts(t);
    var child;
    child, tl, leaf := Insert(node.left, key, value, node, l);
    var _ := node.SetLeft(child);
    t1 := Br(tl, node, k, v, rt);
    assert Linked(t1);
  }

  /** The branch of `insert` to the right, the mirror image of `InsertLeft`. */
  method InsertRight(node: Node, key: Key, value: Value, parent: Node?, ghost t: Tree)
    returns (r: Node, ghost t': Tree, ghost leaf: Node)
    requires t.Br? && t.node == node && Linked(t) && node.parent == parent && Distinct(t)
    requires Comparison(t.key, key) > 0
    modifies NodeSet(t)
    ensures leaf in NodeSet(t) || fresh(leaf)
    ensures t' == Inserted(t, key, value, leaf)
    ensures Mirror(t', r) && r.parent == parent && Distinct(t')
    ensures NodeSet(t') == NodeSet(t) + {leaf}
    decreases t, 1
  {
    NodesAllocated(t);
    ghost var t1, tr;
    t1, tr, leaf := HangRight(node, key, value, t);
    InsertedRightStep(t, key, value, leaf, tr);
    r := Balance(node, t1, parent);
    t' := Rebalanced(t1);
  }

  /** The first half of `InsertRight`, the mirror image of `HangLeft`. */
  method HangRight(node: Node, key: Key, value: Value, ghost t: Tree)
    returns (ghost t1: Tree, ghost tr: Tree, ghost leaf: Node)
    requires t.Br? && t.node == node && Linked(t) && Distinct(t)
    modifies NodeSet(t)
    ensures leaf in NodeSet(t.right) || fresh(leaf)
    ensures tr == Inserted(t.right, key, value, leaf) && Distinct(tr)
    ensures NodeSet(tr) == NodeSet(t.right) + {leaf}
    ensures t1 == Br(t.left, node, t.key, t.value, tr) && Linked(t1)
    ensures node.parent == old(node.parent)
    decreases t, 0
  {
    ghost var Br(l, _, k, v, rt) := t;
    NodesAllocated(t);
    ChildParts(t);
    var child;
    child, tr, leaf := Insert(node.right, key, value, node, rt);
    var _ := node.SetRight(child);
    t1 := Br(l, node, k, v, tr);
    assert Linked(t1);
  }

  // ------------------------------------------------------------------- lookup

  /**
   * `find`: descends by `compareKey` from `node`, the root of `t`, and
   * returns the node whose key equals `key`, or the sentinel. Whatever it
   * returns holds the key; in a search tree it returns the sentinel exactly
   * when the key is absent, and otherwise the node holds the key's value.
   */
  method Find(node: Node?, key: Key, ghost t: Tree) returns (found: Node?)
    requires Mirror(t, node)
    ensures found != null ==> found in NodeSet(t) && found.key == key
    ensures Ordered(t) ==> (found != null <==> key in Keys(t))
    ensures Ordered(t) && found != null ==> key in Content(t) && found.value == Content(t)[key]
    decreases t
  {
    if node == null {
      return null;
    }
    ghost var Br(l, _, kk, vv, r) := t;
    NodesAllocated(t);
    assert Linked(t) && NodeSet(t) == NodeSet(l) + {node} + NodeSet(r);
    var comparison := node.CompareKey(key);
    if comparison < 0 {
      found := Find(node.left, key, l);
      if Ordered(t) {
        DescendLeft(t, key);
        ContentKeys(l);
      }
    } else if comparison > 0 {
      found := Find(node.right, key, r);
      if Ordered(t) {
        DescendRight(t, key);
        ContentKeys(r);
      }
    } else {
      found := node;
    }
  }

  // --------------------------------------------------------------- the tree

  /**
   * `ConcurrentAVLTree`: the root link, with the sentinel for an empty
   * tree. The ghost field `T` is the tree value the node graph mirrors.
   */
  class ConcurrentAVLTree {
    var root: Node?
    ghost var T: Tree

    /**
     * The node graph below `root` mirrors `T`, the root has no parent, no
     * node occurs twice, and `T` is an AVL search tree.
     */
    ghost predicate Valid()
      reads this, NodeSet(T)
    {
      Mirror(T, root) && HangsBelow(T, null) && Distinct(T) && Ordered(T) && Balanced(T)
    }

    /** The key/value map the tree stores. */
    ghost function Contents(): map<Key, Value>
      reads this
    {
      Content(T)
    }

    /** A new tree is empty: its root is the sentinel. */
    constructor ()
      ensures Valid() && Contents() == map[]
      ensures root == null && T == Nil
    {
      root := null;
      T := Nil;
    }

    /**
     * `get`: the value stored under `key`, or nothing when the key is
     * absent.
     */
    method Get(key: Key) returns (result: Option<Value>)
      requires Valid()
      ensures key in Contents() ==> result == Some(Contents()[key])
      ensures key !in Contents() ==> result == None
    {
      var found := Find(root, key, T);
      ContentKeys(T);
      if found == null {
        result := None;
      } else {
        result := Some(found.value);
      }
    }

    /**
     * `put`: stores `value` under `key`. A present key keeps its node, and
     * the tree keeps its shape; an absent key adds exactly one fresh node.
     * The tree stays an AVL search tree.
     */
    method Put(key: Key, value: Value)
      requires Valid()
      modifies this, NodeSet(T)
      ensures Valid()
      ensures Contents() == old(Contents())[key := value]
      ensures key in old(Contents()) ==> root == old(root) && T == Assigned(old(T), key, value)
      ensures key !in old(Contents()) ==> Size(T) == old(Size(T)) + 1
      ensures old(NodeSet(T)) <= NodeSet(T) && fresh(NodeSet(T) - old(NodeSet(T)))
      ensures key in old(Contents()) ==> NodeSet(T) == old(NodeSet(T))
    {
      ghost var t0 := T;
      var r; ghost var t', leaf;
      r, t', leaf := Insert(root, key, value, null, T);
      root := r;
      T := t';
      InsertedOrdered(t0, key, value, leaf);
      InsertedIsBalanced(t0, key, value, leaf);
      InsertedContent(t0, key, value, leaf);
      InsertedNodes(t0, key, value, leaf);
      ContentKeys(t0);
      if key in Keys(t0) {
        InsertedPresentIsAssigned(t0, key, value, leaf);
        assert t0.Br?;
      }
    }

    /**
     * With at most 128 keys the cached height of the root, and the walk
     * down the right spine, are at most 9.
     */
    lemma HeightWithAtMost128Puts()
      requires Valid() && |Contents()| <= 128
      ensures RightDepth(T) <= HeightOf(root) <= 9
    {
      ContentKeys(T);
      MirrorHeight(T, root);
      HeightWithAtMost128Keys(T);
    }
  }
}
