# ConcurrentTree: the AVL engine in Dafny

This project models the engine of `ConcurrentAVLTree`: an AVL-balanced
binary search tree that maps byte-string keys to byte-string values. It is
built from mutable `FilledNode` objects and the `EmptyNode` sentinel. The
model has four modules.

- `KeyOrder` (`key_order.dfy`) covers `Key.compare` and its `min` helper.
  - `Compare` is the loop over the common prefix, with its early return.
  - It is proved equal to the recursive `Comparison`.
  - `Comparison` is proved to be zero exactly on equal keys, antisymmetric, transitive and trichotomous.
- `TreeNode` (`tree_node.dfy`) is the node class.
  - Its fields are a constant key, a mutable value, left/right/parent links and a cached height that starts at 1.
  - It has one setter per field and `compareKey`.
  - The sentinel is `null`. Every `EmptyNode` operation that throws is a member of the non-null type `Node`, so the verifier proves none is ever called on the sentinel.
  - `HeightOf(null) == 0` is the sentinel's `getHeight`.
- `AvlModel` (`avl_model.dfy`) is a functional tree value, `Tree`.
  - Each branch names the node object standing there.
  - Functions describe what `rotateLeft`, `rotateRight`, `balance` and `insert` build.
  - Lemmas prove that these trees keep:
    - the search order of `compareKey`;
    - AVL balance;
    - the key/value map;
    - the node set.
- `AvlEngine` (`avl_engine.dfy`) is the heap-manipulating engine.
  - The ghost predicate `Mirror(t, n)` says that the node graph below `n` is the tree `t`:
    - keys, values and children agree;
    - every child's `parent` points back to its parent;
    - every cached `height` is the height formula.
  - Each in-place method (`updateHeight`, the two rotations, `balance`, `insert`) is proved to leave behind the mirror of the tree its `AvlModel` function describes.
  - `find` is proved read-only and correct.
  - The class `ConcurrentAVLTree` holds `root` and a ghost `T`. Its invariant `Valid()` states that:
    - the graph mirrors `T`;
    - the root has no parent;
    - no node occurs twice;
    - `T` is an ordered AVL tree.
  - `Get` and `Put` are specified against the abstract map `Contents()`.

Keys are ordered exactly as `Key.compare` computes. At the first differing
byte it returns `other[i] - this[i]`, unsigned. When one key is a prefix of
the other it returns `this.length - other.length`. The doc comment of
`compare` promises "less than 0 when this key is lexicographically less".
That holds in the prefix case only: at a differing byte the sign is the
opposite. The model follows the code. The relation it defines is still a
strict total order (`ComparisonTransitive`, `ComparisonTotal`), and that is
all the tree needs. `insert` and `find` send a key to the LEFT child when
`node.compareKey(key)` is negative, so the tree is descending with respect to
`Comparison`. The model keeps that direction. In plain byte terms the picture
is mixed. Below a node holding `[1]`, the key `[2]` goes right, since
`Comparison([1], [2]) == 1`. Below a node holding `"ab"`, the key `"abc"` goes
left, since `Comparison("ab", "abc") == -1`. So a smaller byte at the first
difference lies to the left, and a longer key lies to the left of its own
prefix.

## Model

| member | source | states |
|---|---|---|
| KeyOrder.Unsigned | src/main/java/com/hlianole/jetbrains/internship/tree/data/Key.java:28 | `b & 0xff` lies in 0..255 and has the same bit pattern (is congruent modulo 256) as the signed byte |
| KeyOrder.UnsignedInjective | src/main/java/com/hlianole/jetbrains/internship/tree/data/Key.java:28 | two bytes read unsigned are equal exactly when the bytes are equal, so 0xFF and 0x00 never compare equal |
| KeyOrder.Min | src/main/java/com/hlianole/jetbrains/internship/tree/data/Key.java:37-39 | `min` returns one of its arguments and is at most both, so the loop never indexes past either key |
| KeyOrder.Compare | src/main/java/com/hlianole/jetbrains/internship/tree/data/Key.java:22-35 | the loop with its early return computes `Comparison`: the first non-zero unsigned difference `other[i] - me[i]`, else the length difference |
| KeyOrder.ComparisonZeroIffEqual | src/main/java/com/hlianole/jetbrains/internship/tree/data/Key.java:27-34 | `compare` is 0 exactly when the keys have equal length and equal bytes |
| KeyOrder.ComparisonAntisymmetric | src/main/java/com/hlianole/jetbrains/internship/tree/data/Key.java:27-34 | `compare(a, b) == -compare(b, a)` for all keys |
| KeyOrder.ComparisonAtFirstDifference | src/main/java/com/hlianole/jetbrains/internship/tree/data/Key.java:27-31 | at the first differing index the result is `other[i] - this[i]` unsigned, non-zero, within [-255, 255]; its sign is opposite to the doc comment's |
| KeyOrder.ComparisonOfPrefix | src/main/java/com/hlianole/jetbrains/internship/tree/data/Key.java:34 | when one key is a prefix of the other the result is `this.length - other.length`, negative for the shorter key |
| KeyOrder.ComparisonTransitive | src/main/java/com/hlianole/jetbrains/internship/tree/data/Key.java:16-35 | "compares negative" is transitive |
| KeyOrder.ComparisonTotal | src/main/java/com/hlianole/jetbrains/internship/tree/data/Key.java:16-35 | trichotomy: two keys are equal or exactly one compares negative to the other; a key compares 0 with itself |
| TreeNode.HeightOf | src/main/java/com/hlianole/jetbrains/internship/tree/node/EmptyNode.java:115-118 | `getHeight` answers 0 on the sentinel, and the cached `height` field on a filled node |
| TreeNode.Node.constructor | src/main/java/com/hlianole/jetbrains/internship/tree/node/FilledNode.java:15-27 | a new node has the given key and value, all three links at the sentinel and height 1 |
| TreeNode.Node.SetLeft | src/main/java/com/hlianole/jetbrains/internship/tree/node/FilledNode.java:41-44 | writes `left` and no other field, and returns the node itself |
| TreeNode.Node.SetRight | src/main/java/com/hlianole/jetbrains/internship/tree/node/FilledNode.java:58-61 | writes `right` and no other field, and returns the node itself |
| TreeNode.Node.SetParent | src/main/java/com/hlianole/jetbrains/internship/tree/node/FilledNode.java:75-78 | writes `parent` and no other field, and returns the node itself |
| TreeNode.Node.SetValue | src/main/java/com/hlianole/jetbrains/internship/tree/node/FilledNode.java:92-95 | writes `value` and no other field (the key is constant), and returns the node itself |
| TreeNode.Node.SetHeight | src/main/java/com/hlianole/jetbrains/internship/tree/node/FilledNode.java:117-120 | writes `height` and no other field, and returns the node itself |
| TreeNode.Node.CompareKey | src/main/java/com/hlianole/jetbrains/internship/tree/node/FilledNode.java:101-103 | the result is `Comparison(this.key, k)`, and it is 0 exactly when the keys are equal |
| AvlModel.RotateLeftOf | src/main/java/com/hlianole/jetbrains/internship/tree/ConcurrentAVLTree.java:137-155 | the tree `rotateLeft` builds is non-empty and has the same node set and key set as the tree it rotates |
| AvlModel.RotateRightOf | src/main/java/com/hlianole/jetbrains/internship/tree/ConcurrentAVLTree.java:162-180 | the tree `rotateRight` builds is non-empty and has the same node set and key set as the tree it rotates |
| AvlModel.Rebalanced | src/main/java/com/hlianole/jetbrains/internship/tree/ConcurrentAVLTree.java:186-203 | the tree `balance` returns is non-empty and has the same node set and key set as its argument |
| AvlModel.Inserted | src/main/java/com/hlianole/jetbrains/internship/tree/ConcurrentAVLTree.java:87-102 | the tree `insert` returns is never the sentinel, and its keys are the old keys plus the inserted one |
| AvlModel.RotateLeftShape | src/main/java/com/hlianole/jetbrains/internship/tree/ConcurrentAVLTree.java:137-155 | a left rotation keeps the in-order key sequence, the node set, the key set and the size, and repeats no node |
| AvlModel.RotateLeftOrdered | src/main/java/com/hlianole/jetbrains/internship/tree/ConcurrentAVLTree.java:137-155 | a left rotation of a search tree is a search tree |
| AvlModel.RotateLeftContent | src/main/java/com/hlianole/jetbrains/internship/tree/ConcurrentAVLTree.java:137-155 | a left rotation of a search tree stores the same key/value map |
| AvlModel.RotateRightShape | src/main/java/com/hlianole/jetbrains/internship/tree/ConcurrentAVLTree.java:162-180 | a right rotation keeps the in-order key sequence, the node set, the key set and the size, and repeats no node |
| AvlModel.RotateRightOrdered | src/main/java/com/hlianole/jetbrains/internship/tree/ConcurrentAVLTree.java:162-180 | a right rotation of a search tree is a search tree |
| AvlModel.RotateRightContent | src/main/java/com/hlianole/jetbrains/internship/tree/ConcurrentAVLTree.java:162-180 | a right rotation of a search tree stores the same key/value map |
| AvlModel.RebalancedPreserves | src/main/java/com/hlianole/jetbrains/internship/tree/ConcurrentAVLTree.java:186-203 | `balance` keeps the in-order keys, node set, key set, size and distinctness; on a search tree it keeps the order and the map |
| AvlModel.RebalancedIsBalanced | src/main/java/com/hlianole/jetbrains/internship/tree/ConcurrentAVLTree.java:186-203 | on a node with AVL subtrees whose heights differ by at most 2, `balance` gives an AVL tree; it changes nothing when they differ by at most 1; the result is as tall as the taller subtree or one taller |
| AvlModel.RightHeavyBalanced | src/main/java/com/hlianole/jetbrains/internship/tree/ConcurrentAVLTree.java:190-195 | the single or right-left double rotation fixes a factor of +2 and gives height h or h+1, where h is the right subtree's height |
| AvlModel.LeftHeavyBalanced | src/main/java/com/hlianole/jetbrains/internship/tree/ConcurrentAVLTree.java:196-201 | the single or left-right double rotation fixes a factor of -2 and gives height h or h+1, where h is the left subtree's height |
| AvlModel.InsertedOrdered | src/main/java/com/hlianole/jetbrains/internship/tree/ConcurrentAVLTree.java:87-102 | inserting into a search tree gives a search tree whose keys are the old keys plus the new one |
| AvlModel.InsertedContent | src/main/java/com/hlianole/jetbrains/internship/tree/ConcurrentAVLTree.java:87-102 | inserting into a search tree gives exactly the old map updated at the key |
| AvlModel.InsertedIsBalanced | src/main/java/com/hlianole/jetbrains/internship/tree/ConcurrentAVLTree.java:87-102 | inserting into an AVL tree gives an AVL tree, as tall as before or one taller |
| AvlModel.InsertedNodes | src/main/java/com/hlianole/jetbrains/internship/tree/ConcurrentAVLTree.java:87-102 | an absent key adds exactly the new leaf to the node set and one to the size; a present key keeps both |
| AvlModel.AssignedKeepsShape | src/main/java/com/hlianole/jetbrains/internship/tree/ConcurrentAVLTree.java:97-99 | replacing a value keeps the height, the node set, the in-order keys and AVL balance |
| AvlModel.InsertedPresentIsAssigned | src/main/java/com/hlianole/jetbrains/internship/tree/ConcurrentAVLTree.java:92-101 | on an AVL search tree that holds the key, `insert` only replaces that node's value: every `balance` on the way back up leaves its node alone |
| AvlModel.DescendLeft | src/main/java/com/hlianole/jetbrains/internship/tree/ConcurrentAVLTree.java:73-75 | in a search tree, a key sent left is in the tree exactly when it is in the left subtree, with the same value |
| AvlModel.DescendRight | src/main/java/com/hlianole/jetbrains/internship/tree/ConcurrentAVLTree.java:76-77 | in a search tree, a key sent right is in the tree exactly when it is in the right subtree, with the same value |
| AvlModel.OrderedKeysUnique | src/main/java/com/hlianole/jetbrains/internship/tree/ConcurrentAVLTree.java:92-99 | in a search tree keys are unique: there are as many keys as nodes |
| AvlModel.RightDepthAtMostHeight | src/test/java/TestingTree.java:7-15 | the right-spine walk of `getRightDepth` is no longer than the tree's height |
| AvlModel.BalancedIsBushy | src/main/java/com/hlianole/jetbrains/internship/tree/ConcurrentAVLTree.java:186-203 | an AVL tree of height h has at least `MinSize(h)` nodes (the Fibonacci-like lower bound) |
| AvlModel.HeightWithAtMost128Keys | src/test/java/ConcurrentAVLTreeTest.java:68-85 | an AVL search tree with at most 128 keys has height, and so right depth, at most 9 |
| AvlEngine.MirrorHeight | src/main/java/com/hlianole/jetbrains/internship/tree/node/EmptyNode.java:115-118 | `getHeight` of a mirrored node is the computed height of its tree: 0 for the sentinel, the cached height otherwise |
| AvlEngine.LinkedFactor | src/main/java/com/hlianole/jetbrains/internship/tree/ConcurrentAVLTree.java:119-121 | read off a linked root's children, right height minus left height is the tree's balance factor |
| AvlEngine.UpdateHeight | src/main/java/com/hlianole/jetbrains/internship/tree/ConcurrentAVLTree.java:126-130 | the height becomes one more than the taller child's, only `height` changes, and the root of a linked tree then mirrors it |
| AvlEngine.BalanceFactor | src/main/java/com/hlianole/jetbrains/internship/tree/ConcurrentAVLTree.java:119-121 | on the root of a linked tree the result is the tree's balance factor |
| AvlEngine.LinkLeftRotation | src/main/java/com/hlianole/jetbrains/internship/tree/ConcurrentAVLTree.java:141-149 | the promoted child adopts the node and its old parent; the node adopts the inner subtree and hangs below the child; the inner subtree is re-parented only when it is not the sentinel |
| AvlEngine.LinkRightRotation | src/main/java/com/hlianole/jetbrains/internship/tree/ConcurrentAVLTree.java:166-174 | the mirror image of `LinkLeftRotation` |
| AvlEngine.DemoteLeft | src/main/java/com/hlianole/jetbrains/internship/tree/ConcurrentAVLTree.java:137-151 | after the link updates and the first `updateHeight`, the demoted node mirrors the lower tree of the left rotation and the promoted child keeps its right subtree |
| AvlEngine.DemoteRight | src/main/java/com/hlianole/jetbrains/internship/tree/ConcurrentAVLTree.java:162-176 | the mirror image of `DemoteLeft` |
| AvlEngine.RotateLeft | src/main/java/com/hlianole/jetbrains/internship/tree/ConcurrentAVLTree.java:137-155 | returns the old right child, now below the old parent, and the graph mirrors `RotateLeftOf(t)`: links, parents and both heights are right |
| AvlEngine.RotateRight | src/main/java/com/hlianole/jetbrains/internship/tree/ConcurrentAVLTree.java:162-180 | returns the old left child, now below the old parent, and the graph mirrors `RotateRightOf(t)` |
| AvlEngine.RightLeaning | src/main/java/com/hlianole/jetbrains/internship/tree/ConcurrentAVLTree.java:190-193 | when the right child leans left it is rotated right and re-attached; the node is then linked to the tree `Rebalanced` rotates left, on the same nodes |
| AvlEngine.LeftLeaning | src/main/java/com/hlianole/jetbrains/internship/tree/ConcurrentAVLTree.java:196-199 | the mirror image of `RightLeaning`, for a left child that leans right |
| AvlEngine.Balance | src/main/java/com/hlianole/jetbrains/internship/tree/ConcurrentAVLTree.java:186-203 | returns the node now standing in the node's place, below the same parent, and the graph mirrors `Rebalanced(t)` |
| AvlEngine.CreateNode | src/main/java/com/hlianole/jetbrains/internship/tree/ConcurrentAVLTree.java:109-112 | a fresh leaf with the key and value, hanging below `parent` |
| AvlEngine.Insert | src/main/java/com/hlianole/jetbrains/internship/tree/ConcurrentAVLTree.java:87-102 | the returned node hangs below `parent` and mirrors `Inserted(t, ...)`, made of the old nodes plus the leaf holding the key (an old node or a fresh one), with no node repeated |
| AvlEngine.InsertLeft | src/main/java/com/hlianole/jetbrains/internship/tree/ConcurrentAVLTree.java:93-101 | the left-descending level of `insert` mirrors `Inserted(t, ...)`, like `Insert` |
| AvlEngine.HangLeft | src/main/java/com/hlianole/jetbrains/internship/tree/ConcurrentAVLTree.java:94 | after the recursive insert and `setLeft`, the node is linked to the inserted left subtree and keeps its parent |
| AvlEngine.InsertRight | src/main/java/com/hlianole/jetbrains/internship/tree/ConcurrentAVLTree.java:95-101 | the right-descending level of `insert` mirrors `Inserted(t, ...)`, like `Insert` |
| AvlEngine.HangRight | src/main/java/com/hlianole/jetbrains/internship/tree/ConcurrentAVLTree.java:96 | after the recursive insert and `setRight`, the node is linked to the inserted right subtree and keeps its parent |
| AvlEngine.Find | src/main/java/com/hlianole/jetbrains/internship/tree/ConcurrentAVLTree.java:68-81 | read-only; any node returned holds the key; in a search tree the sentinel is returned exactly when the key is absent, and otherwise the node holds the key's value |
| AvlEngine.ConcurrentAVLTree.constructor | src/main/java/com/hlianole/jetbrains/internship/tree/ConcurrentAVLTree.java:23-25 | a new tree is valid and stores the empty map: its root is the sentinel and its tree is empty |
| AvlEngine.ConcurrentAVLTree.Get | src/main/java/com/hlianole/jetbrains/internship/tree/ConcurrentAVLTree.java:31-46 | returns the stored value for a present key and nothing for an absent one |
| AvlEngine.ConcurrentAVLTree.Put | src/main/java/com/hlianole/jetbrains/internship/tree/ConcurrentAVLTree.java:52-63 | keeps the tree a valid AVL search tree and updates the map at the key. No old node is dropped. A present key keeps the root and the node set, and only replaces its node's value. An absent key adds exactly one fresh node |
| AvlEngine.ConcurrentAVLTree.HeightWithAtMost128Puts | src/test/java/ConcurrentAVLTreeTest.java:68-85 | with at most 128 keys the root's cached height, and the right-spine walk, are at most 9 |

## Left out

- The `ReentrantReadWriteLock`, the `volatile` fields and the multi-threaded test are not modelled. `Get` and `Put` are sequential methods.
- The `IllegalArgumentException` checks for a `null` key or value are not modelled, because Dafny sequences cannot be null.
- `Optional`, the `Value` wrapper and array aliasing are not modelled.
  - Keys and values are immutable byte sequences.
  - `Get` returns the stored value directly.
  - The tree never looks inside a value.
- Heights are unbounded integers. Java `int` overflow of a height would need about 2^31 levels, so it is not modelled.
- `EmptyNode.getInstance` and its lazy-initialisation race are not modelled. The sentinel is `null`, which is unique by construction.
- The `Node` and `Tree` interfaces are not modelled: they carry no logic of their own. The getters of `FilledNode` are direct field reads.
- The bodies of `rotateLeft`/`rotateRight`, `balance` and one level of `insert` are split into helper methods, which make the same calls in the same order:
  - the link updates (`LinkLeftRotation`);
  - the first height update (`DemoteLeft`);
  - the inner step of a double rotation (`RightLeaning`);
  - the recursive half of one insert level (`HangLeft`).
- `Find`, `Insert`, the rotations and `Balance` take a ghost `Tree` argument and preconditions tying it to the heap, as the class invariant provides. The Java methods rely on the same structure without stating it.
- AvlEngine.UpdateHeight: promises `Mirror(t, node)` only when `node` is the root of a linked tree `t` with no repeated node; on an arbitrary node it only states the new height.
- AvlModel.HeightWithAtMost128Keys: the test asserts a right depth below 9 for its own sequence of 128 insertions. The model proves at most 9 for every AVL tree of at most 128 keys. 9 is the exact bound over all such trees, since an AVL tree of height 9 needs only 88 nodes.
- AvlEngine.ConcurrentAVLTree.HeightWithAtMost128Puts: the same bound, stated on the class, with the same difference from the test.
