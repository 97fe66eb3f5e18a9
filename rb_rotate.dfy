/**
 * The rotations of src/redBlackTree/RedBlackTree.java on the tree picture:
 * leftRotate/rightRotate move a child into its parent's place, and their
 * counter fixups leave both moved nodes counting their new subtrees.
 */
module RedBlackRotations {
  import opened RedBlackNodes
  import opened RedBlackShapes

  /** leftRotate(x): x's right child y takes x's place and x becomes y's left child. */
  function RotateLeft(x: Tree): (r: Tree)
    requires x.Node? && x.right.Node?
    ensures r.Node? && r.left.Node?
  {
    var y := x.right;
    Node(Node(x.left, x.id, x.info.(numLeft := Size(x.left), numRight := Size(y.left)), y.left),
         y.id, y.info.(numLeft := Size(x.left) + Size(y.left) + 1), y.right)
  }

  /** rightRotate(x): x's left child y takes x's place and x becomes y's right child. */
  function RotateRight(x: Tree): (r: Tree)
    requires x.Node? && x.left.Node?
    ensures r.Node? && r.right.Node?
  {
    var y := x.left;
    Node(y.left, y.id, y.info.(numRight := Size(y.right) + Size(x.right) + 1),
         Node(y.right, x.id, x.info.(numLeft := Size(y.right), numRight := Size(x.right)), x.right))
  }

  /**
   * A left rotation keeps the in-order keys and the nodes, keeps a distinct
   * tree distinct, and keeps every counter right: the two moved nodes count
   * their new subtrees.
   */
  lemma RotateLeftKeeps(x: Tree)
    requires x.Node? && x.right.Node?
    ensures InOrder(RotateLeft(x)) == InOrder(x)
    ensures Ids(RotateLeft(x)) == Ids(x) && Size(RotateLeft(x)) == Size(x)
    ensures Distinct(x) ==> Distinct(RotateLeft(x))
    ensures Counted(x) ==> Counted(RotateLeft(x))
  {
    RotateLeftKeys(x);
    RotateLeftNodes(x);
    if Distinct(x) {
      RotateLeftDistinct(x);
    }
    if Counted(x) {
      RotateLeftCounted(x);
    }
  }

  lemma {:induction false} RotateLeftKeys(x: Tree)
    requires x.Node? && x.right.Node?
    ensures InOrder(RotateLeft(x)) == InOrder(x)
  {
    var y := x.right;
    var A, B, C := InOrder(x.left), InOrder(y.left), InOrder(y.right);
    assert InOrder(x) == A + [x.info.key] + (B + [y.info.key] + C);
    assert InOrder(RotateLeft(x)) == (A + [x.info.key] + B) + [y.info.key] + C;
    Regroup(A, x.info.key, B, y.info.key, C);
  }

  lemma RotateLeftNodes(x: Tree)
    requires x.Node? && x.right.Node?
    ensures Ids(RotateLeft(x)) == Ids(x) && Size(RotateLeft(x)) == Size(x)
  {
    var y := x.right;
    assert Ids(RotateLeft(x)) == (Ids(x.left) + {x.id} + Ids(y.left)) + {y.id} + Ids(y.right);
  }

  lemma RotateLeftDistinct(x: Tree)
    requires x.Node? && x.right.Node? && Distinct(x)
    ensures Distinct(RotateLeft(x))
  {
    var y := x.right;
    var r := RotateLeft(x);
    assert Distinct(y);
    DistinctRegroup(x.left, x.id, y.left, y.id, y.right);
    assert Ids(r.left) == Ids(x.left) + {x.id} + Ids(y.left);
    assert Distinct(r.left);
  }

  lemma RotateLeftCounted(x: Tree)
    requires x.Node? && x.right.Node? && Counted(x)
    ensures Counted(RotateLeft(x))
  {
    var r := RotateLeft(x);
    assert Counted(x.right);
    assert Counted(r.left);
  }

  /** The mirror image of `RotateLeftKeeps`. */
  lemma RotateRightKeeps(x: Tree)
    requires x.Node? && x.left.Node?
    ensures InOrder(RotateRight(x)) == InOrder(x)
    ensures Ids(RotateRight(x)) == Ids(x) && Size(RotateRight(x)) == Size(x)
    ensures Distinct(x) ==> Distinct(RotateRight(x))
    ensures Counted(x) ==> Counted(RotateRight(x))
  {
    RotateRightKeys(x);
    RotateRightNodes(x);
    if Distinct(x) {
      RotateRightDistinct(x);
    }
    if Counted(x) {
      RotateRightCounted(x);
    }
  }

  lemma {:induction false} RotateRightKeys(x: Tree)
    requires x.Node? && x.left.Node?
    ensures InOrder(RotateRight(x)) == InOrder(x)
  {
    var y := x.left;
    var A, B, C := InOrder(y.left), InOrder(y.right), InOrder(x.right);
    assert InOrder(x) == (A + [y.info.key] + B) + [x.info.key] + C;
    assert InOrder(RotateRight(x)) == A + [y.info.key] + (B + [x.info.key] + C);
    Regroup(A, y.info.key, B, x.info.key, C);
  }

  /** The two groupings of five in-order pieces that a rotation trades. */
  lemma Regroup(A: seq<int>, a: int, B: seq<int>, b: int, C: seq<int>)
    ensures (A + [a] + B) + [b] + C == A + [a] + (B + [b] + C)
  {
  }

  lemma RotateRightNodes(x: Tree)
    requires x.Node? && x.left.Node?
    ensures Ids(RotateRight(x)) == Ids(x) && Size(RotateRight(x)) == Size(x)
  {
    var y := x.left;
    assert Ids(RotateRight(x)) == Ids(y.left) + {y.id} + (Ids(y.right) + {x.id} + Ids(x.right));
  }

  lemma RotateRightDistinct(x: Tree)
    requires x.Node? && x.left.Node? && Distinct(x)
    ensures Distinct(RotateRight(x))
  {
    var y := x.left;
    var r := RotateRight(x);
    assert Distinct(y);
    DistinctRegroupBack(y.left, y.id, y.right, x.id, x.right);
    assert Ids(r.right) == Ids(y.right) + {x.id} + Ids(x.right);
    assert Distinct(r.right);
  }

  lemma RotateRightCounted(x: Tree)
    requires x.Node? && x.left.Node? && Counted(x)
    ensures Counted(RotateRight(x))
  {
    var r := RotateRight(x);
    assert Counted(x.left);
    assert Counted(r.right);
  }

  /** Index sets disjoint as in `a i (b j c)` are disjoint as in `(a i b) j c`. */
  lemma DistinctRegroup(a: Tree, i: nat, b: Tree, j: nat, c: Tree)
    requires i !in Ids(a) && i !in Ids(b) + {j} + Ids(c) && Ids(a) !! Ids(b) + {j} + Ids(c)
    requires j !in Ids(b) && j !in Ids(c) && Ids(b) !! Ids(c)
    ensures i !in Ids(a) && i !in Ids(b) && Ids(a) !! Ids(b)
    ensures j !in Ids(a) + {i} + Ids(b) && j !in Ids(c) && Ids(a) + {i} + Ids(b) !! Ids(c)
  {
  }

  /** Index sets disjoint as in `(a i b) j c` are disjoint as in `a i (b j c)`. */
  lemma DistinctRegroupBack(a: Tree, i: nat, b: Tree, j: nat, c: Tree)
    requires i !in Ids(a) && i !in Ids(b) && Ids(a) !! Ids(b)
    requires j !in Ids(a) + {i} + Ids(b) && j !in Ids(c) && Ids(a) + {i} + Ids(b) !! Ids(c)
    ensures i !in Ids(a) && i !in Ids(b) + {j} + Ids(c) && Ids(a) !! Ids(b) + {j} + Ids(c)
    ensures j !in Ids(b) && j !in Ids(c) && Ids(b) !! Ids(c)
  {
  }
}
