/**
 * The red-black colour rules on the tree picture, and how insertFixup of
 * src/redBlackTree/RedBlackTree.java restores them one case at a time.
 *
 * The `nil` sentinel is BLACK, so an empty subtree counts as BLACK.  The
 * black height of a subtree counts the BLACK nodes on its leftmost path,
 * and `Balanced` demands that every path agrees with it.
 */
module RedBlackColors {
  import opened RedBlackNodes
  import opened RedBlackShapes
  import opened RedBlackRotations

  function ColorOf(t: Tree): Color
  {
    if t.Leaf? then BLACK else t.info.color
  }

  /** No RED node has a RED child. */
  predicate RedFree(t: Tree)
  {
    t.Leaf? ||
    (RedFree(t.left) && RedFree(t.right) &&
     (t.info.color == RED ==> ColorOf(t.left) == BLACK && ColorOf(t.right) == BLACK))
  }

  function Inc(c: Color): nat
  {
    if c == BLACK then 1 else 0
  }

  function BlackHeight(t: Tree): nat
  {
    if t.Leaf? then 0 else BlackHeight(t.left) + Inc(t.info.color)
  }

  /** Every path from a node down to `nil` meets the same number of BLACK nodes. */
  predicate Balanced(t: Tree)
  {
    t.Leaf? ||
    (Balanced(t.left) && Balanced(t.right) && BlackHeight(t.left) == BlackHeight(t.right))
  }

  /** A subtree that keeps both colour rules. */
  predicate Well(t: Tree)
  {
    RedFree(t) && Balanced(t)
  }

  /** The red-black invariants of a whole tree: a BLACK root and both colour rules. */
  predicate RedBlack(t: Tree)
  {
    ColorOf(t) == BLACK && Well(t)
  }

  /**
   * The frames `F` keep the colour rules around a subtree of colour `c` and
   * black height `h`: each sibling is well formed with the black height of
   * the subtree it sits next to, and a RED frame node has BLACK children.
   */
  predicate FramesOk(F: seq<Frame>, c: Color, h: nat)
    decreases |F|
  {
    F == [] ||
    (Well(F[0].sibling) && BlackHeight(F[0].sibling) == h &&
     (F[0].info.color == RED ==> c == BLACK && ColorOf(F[0].sibling) == BLACK) &&
     FramesOk(F[1..], F[0].info.color, h + Inc(F[0].info.color)))
  }

  lemma {:induction false} PlugWell(s: Tree, F: seq<Frame>)
    ensures Well(Plug(s, F)) <==> Well(s) && FramesOk(F, ColorOf(s), BlackHeight(s))
    decreases |F|
  {
    if F != [] {
      PlugWell(Attach(s, F[0]), F[1..]);
    }
  }

  /** The colour of the whole tree is the farthest frame's. */
  lemma PlugColor(s: Tree, F: seq<Frame>)
    requires F != []
    ensures ColorOf(Plug(s, F)) == F[|F| - 1].info.color
  {
    PlugRoot(s, F);
  }

  function Paint(t: Tree, c: Color): (r: Tree)
    requires t.Node?
    ensures r.Node? && ColorOf(r) == c
  {
    t.(info := t.info.(color := c))
  }

  function PaintFrame(f: Frame, c: Color): Frame
  {
    f.(info := f.info.(color := c))
  }

  /** Painting a frame's node is painting the node the frame makes. */
  lemma PaintAttach(s: Tree, f: Frame, c: Color)
    ensures Paint(Attach(s, f), c) == Attach(s, PaintFrame(f, c))
  {
  }

  /** Painting the root BLACK turns a tree that keeps the colour rules into a red-black tree. */
  lemma BlackenRoot(t: Tree)
    requires t.Node? && Well(t)
    ensures RedBlack(Paint(t, BLACK))
  {
  }

  // ---------------------------------------------------------------------
  // insert: the descent and insertFixup

  /** The farthest frame, the root, is BLACK. */
  predicate TopBlack(F: seq<Frame>)
  {
    F == [] || F[|F| - 1].info.color == BLACK
  }

  /**
   * What the descent of insert knows about the colours around its cursor
   * `x`: the tree it walks keeps the red-black invariants.
   */
  predicate DescentInv(x: Tree, F: seq<Frame>)
  {
    Well(x) && FramesOk(F, ColorOf(x), BlackHeight(x)) &&
    (F == [] ==> ColorOf(x) == BLACK) && TopBlack(F)
  }

  /** Stepping to a child, with the counters of the node left behind changed, keeps the descent's facts. */
  lemma DescentStep(x: Tree, F: seq<Frame>, goLeft: bool, i: Info)
    requires x.Node? && DescentInv(x, F) && i.color == x.info.color
    ensures goLeft ==> DescentInv(x.left, [Frame(true, x.id, i, x.right)] + F)
    ensures !goLeft ==> DescentInv(x.right, [Frame(false, x.id, i, x.left)] + F)
  {
    var F' := [Frame(goLeft, x.id, i, if goLeft then x.right else x.left)] + F;
    assert F'[1..] == F;
  }

  /**
   * The insertFixup invariant: `z` is RED and keeps the colour rules below
   * it, and the frames above keep them too except that z's parent may be
   * RED; the root is BLACK unless it is z.
   */
  predicate InsertFixupInv(z: Tree, F: seq<Frame>)
  {
    z.Node? && z.info.color == RED && Well(z) && TopBlack(F) &&
    (F != [] ==>
      Well(F[0].sibling) && BlackHeight(F[0].sibling) == BlackHeight(z) &&
      (F[0].info.color == RED ==> ColorOf(F[0].sibling) == BLACK) &&
      FramesOk(F[1..], F[0].info.color, BlackHeight(z) + Inc(F[0].info.color)))
  }

  /** A new RED node hung where the descent stopped meets the insertFixup invariant. */
  lemma InsertFixupStarts(z: Tree, F: seq<Frame>)
    requires DescentInv(Leaf, F)
    requires z.Node? && z.left.Leaf? && z.right.Leaf? && z.info.color == RED
    ensures InsertFixupInv(z, F)
  {
  }

  /** While z's parent is RED, z has a grandparent: a RED node is never the root here. */
  lemma InsertFixupGrandparent(z: Tree, F: seq<Frame>)
    requires InsertFixupInv(z, F) && F != [] && F[0].info.color == RED
    ensures |F| >= 2 && F[1].info.color == BLACK
  {
  }

  /**
   * Case 1, the uncle is RED: the parent and the uncle turn BLACK, the
   * grandparent turns RED and becomes the new z.
   */
  lemma InsertRecolor(z: Tree, F: seq<Frame>)
    requires InsertFixupInv(z, F) && |F| >= 2 && F[0].info.color == RED
    requires F[1].sibling.Node? && F[1].sibling.info.color == RED
    ensures InsertFixupInv(
      Attach(Attach(z, PaintFrame(F[0], BLACK)),
             PaintFrame(F[1], RED).(sibling := Paint(F[1].sibling, BLACK))),
      F[2..])
  {
    InsertFixupGrandparent(z, F);
    var h := BlackHeight(z);
    var u := F[1].sibling;
    assert FramesOk(F[1..], RED, h);
    assert F[1..][1..] == F[2..];
    assert FramesOk(F[2..], BLACK, h + 1);
    var p := Attach(z, PaintFrame(F[0], BLACK));
    assert Well(p) && BlackHeight(p) == h + 1;
    assert Well(Paint(u, BLACK)) && BlackHeight(Paint(u, BLACK)) == h + 1;
    if |F| > 2 {
      assert F[2..][|F[2..]| - 1] == F[|F| - 1];
    }
  }

  /**
   * Case 2, z is the inner grandchild (right child of a left child): z moves
   * up to its parent, and a left rotation there makes it an outer grandchild.
   */
  lemma InsertRotateInnerLeft(z: Tree, F: seq<Frame>)
    requires InsertFixupInv(z, F) && |F| >= 2 && F[0].info.color == RED
    requires !F[0].isLeft
    ensures var r := RotateLeft(Attach(z, F[0]));
      InsertFixupInv(r.left, [Frame(true, r.id, r.info, r.right)] + F[1..])
  {
    var r := RotateLeft(Attach(z, F[0]));
    var F' := [Frame(true, r.id, r.info, r.right)] + F[1..];
    assert F'[1..] == F[1..];
    assert F'[|F'| - 1] == F[|F| - 1];
  }

  /** The mirror image of `InsertRotateInnerLeft`. */
  lemma InsertRotateInnerRight(z: Tree, F: seq<Frame>)
    requires InsertFixupInv(z, F) && |F| >= 2 && F[0].info.color == RED
    requires F[0].isLeft
    ensures var r := RotateRight(Attach(z, F[0]));
      InsertFixupInv(r.right, [Frame(false, r.id, r.info, r.left)] + F[1..])
  {
    var r := RotateRight(Attach(z, F[0]));
    var F' := [Frame(false, r.id, r.info, r.left)] + F[1..];
    assert F'[1..] == F[1..];
    assert F'[|F'| - 1] == F[|F| - 1];
  }

  /**
   * Case 3, z is the outer grandchild (left child of a left child) and the
   * uncle is BLACK: the parent turns BLACK, the grandparent RED, and a right
   * rotation at the grandparent ends the loop.
   */
  lemma InsertRotateOuterLeft(z: Tree, F: seq<Frame>)
    requires InsertFixupInv(z, F) && |F| >= 2 && F[0].info.color == RED
    requires F[0].isLeft && F[1].isLeft && ColorOf(F[1].sibling) == BLACK
    ensures var r := RotateRight(Attach(Attach(z, PaintFrame(F[0], BLACK)), PaintFrame(F[1], RED)));
      InsertFixupInv(z, [Frame(true, r.id, r.info, r.right)] + F[2..]) && r.info.color == BLACK
  {
    InsertFixupGrandparent(z, F);
    var h := BlackHeight(z);
    var r := RotateRight(Attach(Attach(z, PaintFrame(F[0], BLACK)), PaintFrame(F[1], RED)));
    var F' := [Frame(true, r.id, r.info, r.right)] + F[2..];
    assert FramesOk(F[1..], RED, h);
    assert F[1..][1..] == F[2..];
    assert F'[1..] == F[2..];
    assert Well(r.right) && BlackHeight(r.right) == h;
    if |F| > 2 {
      assert F'[|F'| - 1] == F[|F| - 1];
    }
  }

  /** The mirror image of `InsertRotateOuterLeft`. */
  lemma InsertRotateOuterRight(z: Tree, F: seq<Frame>)
    requires InsertFixupInv(z, F) && |F| >= 2 && F[0].info.color == RED
    requires !F[0].isLeft && !F[1].isLeft && ColorOf(F[1].sibling) == BLACK
    ensures var r := RotateLeft(Attach(Attach(z, PaintFrame(F[0], BLACK)), PaintFrame(F[1], RED)));
      InsertFixupInv(z, [Frame(false, r.id, r.info, r.left)] + F[2..]) && r.info.color == BLACK
  {
    InsertFixupGrandparent(z, F);
    var h := BlackHeight(z);
    var r := RotateLeft(Attach(Attach(z, PaintFrame(F[0], BLACK)), PaintFrame(F[1], RED)));
    var F' := [Frame(false, r.id, r.info, r.left)] + F[2..];
    assert FramesOk(F[1..], RED, h);
    assert F[1..][1..] == F[2..];
    assert F'[1..] == F[2..];
    assert Well(r.left) && BlackHeight(r.left) == h;
    if |F| > 2 {
      assert F'[|F'| - 1] == F[|F| - 1];
    }
  }

  /** Once z's parent is BLACK (or z is the root) the whole tree keeps both colour rules. */
  lemma InsertFixupDone(z: Tree, F: seq<Frame>)
    requires InsertFixupInv(z, F) && (F == [] || F[0].info.color == BLACK)
    ensures Well(Plug(z, F))
  {
    PlugWell(z, F);
  }
}
