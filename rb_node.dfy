/**
 * The node record of src/redBlackTree/RedBlackNode.java.
 *
 * Java nodes are mutable objects that point at each other.  Here every node
 * lives in an arena (a sequence of records indexed by node identity), so a
 * link is an index into that arena: index `NIL` is the tree's shared `nil`
 * sentinel and `NULL` stands for a Java `null` link.
 */
module RedBlackNodes {

  /** The colour field holds one of exactly two values. */
  type Color = c: int | c == 0 || c == 1

  const BLACK: Color := 0
  const RED: Color := 1

  /** The arena index of the shared `nil` sentinel. */
  const NIL: int := 0

  /** A link that points nowhere (Java `null`). */
  const NULL: int := -1

  datatype RedBlackNode = RedBlackNode(
    key: int,
    parent: int,
    left: int,
    right: int,
    numLeft: int,
    numRight: int,
    color: Color)

  /** The default constructor: a BLACK node with zero counters and no links. */
  function NewNode(): (n: RedBlackNode)
    ensures n.color == BLACK && n.numLeft == 0 && n.numRight == 0
    ensures n.parent == NULL && n.left == NULL && n.right == NULL
  {
    RedBlackNode(0, NULL, NULL, NULL, 0, 0, BLACK)
  }

  /** The key constructor: everything the default constructor does, and the key. */
  function NewKeyNode(key: int): (n: RedBlackNode)
    ensures n == NewNode().(key := key)
    ensures n.key == key && n.color == BLACK
  {
    RedBlackNode(key, NULL, NULL, NULL, 0, 0, BLACK)
  }
}
