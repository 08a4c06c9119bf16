/**
 * Tree nodes: `FilledNode` and the sentinel `EmptyNode`.
 *
 * A filled node is an object with a fixed key, a replaceable value, three
 * links and a cached height. The sentinel is `null`. Every sentinel
 * operation that throws `UnsupportedOperationException` in the source
 * becomes a method or field of the non-null type `Node`. So the verifier
 * proves that no such call is ever made on the sentinel. The one operation
 * that the sentinel answers, `getHeight`, is `HeightOf(null) == 0`.
 * `EmptyNode.getInstance` always hands out the same object; `null` is
 * likewise unique, so comparing a link with `null` is the emptiness test.
 */
module TreeNode {
  import opened KeyOrder

  class Node {
    const key: Key
    var value: Value
    var left: Node?
    var right: Node?
    var parent: Node?
    var height: int

    /** A fresh node: the given key and value, no links, height 1. */
    constructor (key: Key, value: Value)
      ensures this.key == key && this.value == value
      ensures left == null && right == null && parent == null
      ensures height == 1
    {
      this.key := key;
      this.value := value;
      left := null;
      right := null;
      parent := null;
      height := 1;
    }

    method SetLeft(node: Node?) returns (self: Node)
      modifies this`left
      ensures left == node && self == this
    {
      left := node;
      self := this;
    }

    method SetRight(node: Node?) returns (self: Node)
      modifies this`right
      ensures right == node && self == this
    {
      right := node;
      self := this;
    }

    method SetParent(node: Node?) returns (self: Node)
      modifies this`parent
      ensures parent == node && self == this
    {
      parent := node;
      self := this;
    }

    method SetValue(value: Value) returns (self: Node)
      modifies this`value
      ensures this.value == value && self == this
    {
      this.value := value;
      self := this;
    }

    method SetHeight(height: int) returns (self: Node)
      modifies this`height
      ensures this.height == height && self == this
    {
      this.height := height;
      self := this;
    }

    /** `compareKey`: this node's key compared with `k`, as `Key.compare` does it. */
    method CompareKey(k: Key) returns (c: int)
      ensures c == Comparison(key, k)
      ensures c == 0 <==> key == k
    {
      c := Compare(key, k);
      ComparisonZeroIffEqual(key, k);
    }
  }

  /** `getHeight` on either kind of node: 0 for the sentinel. */
  function HeightOf(node: Node?): (h: int)
    reads node
    ensures node == null ==> h == 0
    ensures node != null ==> h == node.height
  {
    if node == null then 0 else node.height
  }
}
