/**
 * The read-only walks of src/redBlackTree/RedBlackTree.java on the tree
 * picture: treeMinimum, treeSuccessor (as written and corrected), search
 * and the pre-, in- and post-order visits.
 */
module RedBlackQueries {
  import opened SortedSeqs
  import opened RedBlackNodes
  import opened RedBlackShapes

  // ---------------------------------------------------------------------
  // treeMinimum

  /** The node treeMinimum stops at: follow left links; an empty subtree is its own answer. */
  function Leftmost(t: Tree): (r: Tree)
    ensures t.Node? ==> r.Node? && r.left.Leaf?
    ensures t.Leaf? ==> r.Leaf?
  {
    if t.Leaf? || t.left.Leaf? then t else Leftmost(t.left)
  }

  /** The leftmost node holds the first key in in-order, so the smallest of an ordered subtree. */
  lemma {:induction false} LeftmostIsFirst(t: Tree)
    requires t.Node?
    ensures InOrder(t) != [] && InOrder(t)[0] == Leftmost(t).info.key
    ensures Leftmost(t).id in Ids(t)
    ensures Sorted(InOrder(t)) ==> forall k :: k in InOrder(t) ==> Leftmost(t).info.key <= k
  {
    if t.left.Node? {
      LeftmostIsFirst(t.left);
      assert InOrder(t) == InOrder(t.left) + ([t.info.key] + InOrder(t.right));
    }
  }

  /** The frames from `t` down to its leftmost node, on top of the frames `F` above `t`. */
  function LeftPath(t: Tree, F: seq<Frame>): seq<Frame>
    requires t.Node?
  {
    if t.left.Leaf? then F else LeftPath(t.left, [Frame(true, t.id, t.info, t.right)] + F)
  }

  /** The leftmost node under its path: the same whole tree, reached by left turns only. */
  lemma {:induction false} LeftPathPlug(t: Tree, F: seq<Frame>)
    requires t.Node?
    ensures Plug(Leftmost(t), LeftPath(t, F)) == Plug(t, F)
    ensures |LeftPath(t, F)| >= |F| && LeftPath(t, F)[|LeftPath(t, F)| - |F|..] == F
    ensures forall i :: 0 <= i < |LeftPath(t, F)| - |F| ==> LeftPath(t, F)[i].isLeft
  {
    if t.left.Node? {
      var G := [Frame(true, t.id, t.info, t.right)] + F;
      LeftPathPlug(t.left, G);
      assert G[1..] == F;
      var P := LeftPath(t.left, G);
      assert P[|P| - |F|..] == P[|P| - |G|..][1..];
    }
  }

  // ---------------------------------------------------------------------
  // treeSuccessor

  /** The keys after node `s`'s own key in the in-order of the whole tree `Plug(s, F)`. */
  function Next(s: Tree, F: seq<Frame>): seq<int>
    requires s.Node?
  {
    InOrder(s.right) + RightKeys(F)
  }

  /** `Next` is what follows `s`'s key in in-order. */
  lemma NextFollows(s: Tree, F: seq<Frame>)
    requires s.Node?
    ensures InOrder(Plug(s, F)) == LeftKeys(F) + InOrder(s.left) + [s.info.key] + Next(s, F)
  {
    PlugInOrder(s, F);
  }

  /** The climb of treeSuccessor: the nearest frame whose node has the subtree on its left. */
  function Climb(F: seq<Frame>): int
    decreases |F|
  {
    if F == [] then NIL else if F[0].isLeft then F[0].id else Climb(F[1..])
  }

  /**
   * The node treeSuccessor returns as written: it tests the LEFT child, then
   * takes the minimum of the right subtree, and climbs otherwise.
   */
  function SuccessorAsWritten(s: Tree, F: seq<Frame>): int
    requires s.Node?
  {
    if s.left.Node? then IdOf(Leftmost(s.right)) else Climb(F)
  }

  /** The node the successor should be: the minimum of a non-empty right subtree, else the climb. */
  function Successor(s: Tree, F: seq<Frame>): int
    requires s.Node?
  {
    if s.right.Node? then Leftmost(s.right).id else Climb(F)
  }

  /** For a node with two children, as on remove's path, the two agree. */
  lemma SuccessorsAgree(s: Tree, F: seq<Frame>)
    requires s.Node? && s.left.Node? && s.right.Node?
    ensures SuccessorAsWritten(s, F) == Successor(s, F)
  {
  }

  /**
   * As written, treeSuccessor misses the successor of a node with a right
   * child but no left child: in the tree 2 -> right child 3 it climbs from
   * the root and answers "none", although 3 follows 2.
   */
  lemma SuccessorAsWrittenMissesRightChild()
    ensures var s := Node(Leaf, 1, Info(2, BLACK, 0, 1), Node(Leaf, 2, Info(3, RED, 0, 0), Leaf));
      SuccessorAsWritten(s, []) == NIL && Next(s, []) == [3] && Successor(s, []) == 2
  {
  }

  /**
   * And it answers "none" for a node with a left child but no right child:
   * in the tree 4 -> left child 2 -> left child 1, the key after 2 is 4, but
   * treeSuccessor returns the minimum of 2's empty right subtree, `nil`.
   */
  lemma SuccessorAsWrittenMissesAncestor()
    ensures var s := Node(Node(Leaf, 3, Info(1, RED, 0, 0), Leaf), 2, Info(2, BLACK, 1, 0), Leaf);
      var F := [Frame(true, 1, Info(4, BLACK, 2, 0), Leaf)];
      SuccessorAsWritten(s, F) == NIL && Next(s, F) == [4] && Successor(s, F) == 1
  {
    var s := Node(Node(Leaf, 3, Info(1, RED, 0, 0), Leaf), 2, Info(2, BLACK, 1, 0), Leaf);
    var F := [Frame(true, 1, Info(4, BLACK, 2, 0), Leaf)];
    assert F[1..] == [];
    assert Climb(F) == 1;
    assert RightKeys(F) == [4];
    assert SuccessorAsWritten(s, F) == NIL;
  }

  // ---------------------------------------------------------------------
  // visit and toArrayList

  function PreOrder(t: Tree): seq<int>
  {
    if t.Leaf? then [] else [t.info.key] + PreOrder(t.left) + PreOrder(t.right)
  }

  function PostOrder(t: Tree): seq<int>
  {
    if t.Leaf? then [] else PostOrder(t.left) + PostOrder(t.right) + [t.info.key]
  }

  /** The order a visit tag selects: "PRE", "POS", and in-order for any other tag. */
  function Traversal(t: Tree, tag: string): seq<int>
  {
    if tag == "PRE" then PreOrder(t) else if tag == "POS" then PostOrder(t) else InOrder(t)
  }

  /** Every traversal lists each node exactly once: the same keys as the in-order sequence. */
  lemma {:induction false} TraversalIsPermutation(t: Tree, tag: string)
    ensures multiset(Traversal(t, tag)) == multiset(InOrder(t)) && |Traversal(t, tag)| == Size(t)
  {
    if t.Node? {
      TraversalIsPermutation(t.left, tag);
      TraversalIsPermutation(t.right, tag);
    }
  }
}
