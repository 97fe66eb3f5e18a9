/**
 * The node object of src/avlTree/AVLNode.java and the key exchange that
 * remove performs on two such objects.  The tree algorithms themselves work
 * on `AvlTrees.Tree` values, since no node is ever shared.
 */
module AvlNodes {

  class AvlNode {
    var left: AvlNode?
    var right: AvlNode?
    var key: int

    /** A new node holds the key and has no children. */
    constructor (key: int)
      ensures this.key == key && left == null && right == null
    {
      this.key := key;
      left := null;
      right := null;
    }

    method GetLeft() returns (n: AvlNode?)
      ensures n == left
    {
      n := left;
    }

    method SetLeft(n: AvlNode?)
      modifies this
      ensures left == n && right == old(right) && key == old(key)
    {
      left := n;
    }

    method GetRight() returns (n: AvlNode?)
      ensures n == right
    {
      n := right;
    }

    method SetRight(n: AvlNode?)
      modifies this
      ensures right == n && left == old(left) && key == old(key)
    {
      right := n;
    }

    method GetKey() returns (k: int)
      ensures k == key
    {
      k := key;
    }

    method SetKey(k: int)
      modifies this
      ensures key == k && left == old(left) && right == old(right)
    {
      key := k;
    }
  }

  /**
   * swap(node1, node2): exchanges the keys of two nodes and leaves their
   * links alone; nothing happens when either is null.
   */
  method Swap(n1: AvlNode?, n2: AvlNode?)
    modifies n1, n2
    ensures n1 != null && n2 != null ==> n1.key == old(n2.key) && n2.key == old(n1.key)
    ensures n1 == null || n2 == null ==> (n1 != null ==> n1.key == old(n1.key)) && (n2 != null ==> n2.key == old(n2.key))
    ensures n1 != null ==> n1.left == old(n1.left) && n1.right == old(n1.right)
    ensures n2 != null ==> n2.left == old(n2.left) && n2.right == old(n2.right)
  {
    if n1 == null || n2 == null {
      return;
    }
    var aux := n1.key;
    n1.key := n2.key;
    n2.key := aux;
  }
}
