/**
 * src/redBlackTree/RedBlackTree.java: a red-black tree whose nodes live in
 * the arena `nodes` (index `NIL` is the shared sentinel) and whose ghost
 * picture `tree` is what `root` reaches.  Every method mirrors the Java
 * statements on the arena; ghost parameters `s` and `F` say where in the
 * picture the node a method works on sits (`tree == Plug(s, F)`).
 */
module RedBlackTrees {
  import opened Wrappers
  import opened SortedSeqs
  import opened RedBlackNodes
  import opened RedBlackShapes
  import opened RedBlackRotations
  import opened RedBlackColors
  import opened RedBlackArena
  import opened RedBlackInsertion
  import opened RedBlackQueries
  import opened RedBlackRemoval

  /** 1 when the node under `F` is an inner grandchild (its parent hangs on the other side). */
  function Zig(F: seq<Frame>): nat
  {
    if |F| >= 2 && F[0].isLeft != F[1].isLeft then 1 else 0
  }

  class RedBlackTree {
    var nodes: seq<RedBlackNode>
    var root: int
    ghost var tree: Tree

    /** The arena holds `tree` soundly, its keys are in order and it is a red-black tree. */
    ghost predicate Valid()
      reads this
    {
      Sound(nodes, tree, root) && Sorted(InOrder(tree)) && RedBlack(tree)
    }

    /** An empty tree: the sentinel alone, its links on itself, and `root` on the sentinel. */
    constructor ()
      ensures Valid() && tree == Leaf && root == NIL
      ensures nodes == [NewNode().(parent := NIL, left := NIL, right := NIL)]
    {
      var nil := NewNode();
      nodes := [nil];
      root := NIL;
      tree := Leaf;
      new;
      nodes := nodes[root := nodes[root].(left := NIL)];
      nodes := nodes[root := nodes[root].(right := NIL)];
      nodes := nodes[root := nodes[root].(parent := NIL)];
    }

    /** The arena soundly holds `tree`, and `s` under the frames `F` is a part of it. */
    ghost predicate At(s: Tree, F: seq<Frame>)
      reads this
    {
      Sound(nodes, tree, root) && tree == Plug(s, F)
    }

    /**
     * leftRotateFixup: before the links change, x and its right child y get
     * the counters they have after the rotation; nothing else changes.
     */
    method LeftRotateFixup(x: int, ghost s: Tree, ghost p: int)
      requires Stored(nodes, s, p) && Counted(s) && s.Node? && s.right.Node? && x == s.id
      requires s.right.id < |nodes|
      modifies this`nodes
      ensures nodes == old(nodes)
        [x := old(nodes)[x].(numLeft := Size(s.left), numRight := Size(s.right.left))]
        [s.right.id := old(nodes)[s.right.id].(numLeft := Size(s.left) + Size(s.right.left) + 1)]
    {
      var y := nodes[x].right;
      var a := nodes[x].left;
      var b := nodes[y].left;
      StoredCounts(nodes, s.left, x);
      StoredCounts(nodes, s.right.left, y);
      if a == NIL && b == NIL {
        nodes := nodes[x := nodes[x].(numLeft := 0)];
        nodes := nodes[x := nodes[x].(numRight := 0)];
        nodes := nodes[y := nodes[y].(numLeft := 1)];
      } else if a == NIL && b != NIL {
        nodes := nodes[x := nodes[x].(numLeft := 0)];
        nodes := nodes[x := nodes[x].(numRight := 1 + nodes[b].numLeft + nodes[b].numRight)];
        nodes := nodes[y := nodes[y].(numLeft := 2 + nodes[b].numLeft + nodes[b].numRight)];
      } else if a != NIL && b == NIL {
        nodes := nodes[x := nodes[x].(numRight := 0)];
        nodes := nodes[y := nodes[y].(numLeft := 2 + nodes[a].numLeft + nodes[a].numRight)];
      } else {
        nodes := nodes[x := nodes[x].(numRight := 1 + nodes[b].numLeft + nodes[b].numRight)];
        nodes := nodes[y := nodes[y].(numLeft := 3 + nodes[a].numLeft + nodes[a].numRight +
                                       nodes[b].numLeft + nodes[b].numRight)];
      }
    }

    /** rightRotateFixup: the mirror image of `LeftRotateFixup`. */
    method RightRotateFixup(y: int, ghost s: Tree, ghost p: int)
      requires Stored(nodes, s, p) && Counted(s) && s.Node? && s.left.Node? && y == s.id
      requires s.left.id < |nodes|
      modifies this`nodes
      ensures nodes == old(nodes)
        [y := old(nodes)[y].(numRight := Size(s.right), numLeft := Size(s.left.right))]
        [s.left.id := old(nodes)[s.left.id].(numRight := Size(s.right) + Size(s.left.right) + 1)]
    {
      var x := nodes[y].left;
      var c := nodes[y].right;
      var b := nodes[x].right;
      StoredCounts(nodes, s.right, y);
      StoredCounts(nodes, s.left.right, x);
      if c == NIL && b == NIL {
        nodes := nodes[y := nodes[y].(numRight := 0)];
        nodes := nodes[y := nodes[y].(numLeft := 0)];
        nodes := nodes[x := nodes[x].(numRight := 1)];
      } else if c == NIL && b != NIL {
        nodes := nodes[y := nodes[y].(numRight := 0)];
        nodes := nodes[y := nodes[y].(numLeft := 1 + nodes[b].numRight + nodes[b].numLeft)];
        nodes := nodes[x := nodes[x].(numRight := 2 + nodes[b].numRight + nodes[b].numLeft)];
      } else if c != NIL && b == NIL {
        nodes := nodes[y := nodes[y].(numLeft := 0)];
        nodes := nodes[x := nodes[x].(numRight := 2 + nodes[c].numRight + nodes[c].numLeft)];
      } else {
        nodes := nodes[y := nodes[y].(numLeft := 1 + nodes[b].numRight + nodes[b].numLeft)];
        nodes := nodes[x := nodes[x].(numRight := 3 + nodes[c].numRight + nodes[c].numLeft +
                                       nodes[b].numRight + nodes[b].numLeft)];
      }
    }

    /**
     * leftRotate: x's right child y takes x's place, with the counters fixed
     * first; the in-order keys stay, and y becomes `root` when x was the root.
     */
    method LeftRotate(x: int, ghost s: Tree, ghost F: seq<Frame>)
      requires At(s, F) && s.Node? && s.right.Node? && x == s.id
      modifies this`nodes, this`root, this`tree
      ensures At(RotateLeft(s), F)
      ensures root == (if F == [] then s.right.id else old(root))
      ensures |nodes| == old(|nodes|) && nodes[NIL] == old(nodes[NIL])
      ensures InOrder(tree) == old(InOrder(tree))
    {
      ghost var ns, r := nodes, root;
      RotateLeftView(nodes, root, s, F);
      LeftRotateFixup(x, s, ParentOf(F));
      ghost var ns1 := nodes;
      LeftRotateLinks(x);
      tree := Plug(RotateLeft(s), F);
      RotateLeftArena(ns, ns1, nodes, r, s, F);
      ReplaceInOrder(s, RotateLeft(s), F);
    }

    /**
     * The link writes of leftRotate: x takes y's left child b, b's parent
     * becomes x, y takes x's parent p (or becomes `root`), p's link to x
     * turns to y, and x hangs below y.
     */
    method LeftRotateLinks(x: int)
      requires 0 < x < |nodes| && 0 < nodes[x].right < |nodes|
      requires 0 <= nodes[nodes[x].right].left < |nodes| && 0 <= nodes[x].parent < |nodes|
      requires nodes[x].right != x && nodes[x].parent != x && nodes[x].parent != nodes[x].right
      requires nodes[nodes[x].right].left !in {x, nodes[x].right, nodes[x].parent} || nodes[nodes[x].right].left == NIL
      modifies this`nodes, this`root
      ensures var y, b, p := old(nodes[x].right), old(nodes[nodes[x].right].left), old(nodes[x].parent);
        Unchanged(old(nodes), nodes, {x, y, b, p}) && nodes[NIL] == old(nodes[NIL]) &&
        nodes[x] == old(nodes[x]).(right := b, parent := y) &&
        nodes[y] == old(nodes[y]).(parent := p, left := x) &&
        (b != NIL ==> nodes[b] == old(nodes[b]).(parent := x)) &&
        (p != NIL ==> nodes[p] == if old(nodes[p].left) == x then old(nodes[p]).(left := y) else old(nodes[p]).(right := y)) &&
        root == (if p == NIL then y else old(root))
    {
      var y := nodes[x].right;
      ghost var b, p, ns := nodes[y].left, nodes[x].parent, nodes;
      nodes := nodes[x := nodes[x].(right := nodes[y].left)];
      if nodes[y].left != NIL {
        nodes := nodes[nodes[y].left := nodes[nodes[y].left].(parent := x)];
      }
      nodes := nodes[y := nodes[y].(parent := nodes[x].parent)];
      assert Unchanged(ns, nodes, {x, y, b}) && nodes[x] == ns[x].(right := b) && nodes[y] == ns[y].(parent := p);
      if nodes[x].parent == NIL {
        root := y;
      } else if nodes[nodes[x].parent].left == x {
        nodes := nodes[nodes[x].parent := nodes[nodes[x].parent].(left := y)];
      } else {
        nodes := nodes[nodes[x].parent := nodes[nodes[x].parent].(right := y)];
      }
      nodes := nodes[y := nodes[y].(left := x)];
      nodes := nodes[x := nodes[x].(parent := y)];
    }

    /** rightRotate: the mirror image of `LeftRotate`; y's left child x takes y's place. */
    method RightRotate(y: int, ghost s: Tree, ghost F: seq<Frame>)
      requires At(s, F) && s.Node? && s.left.Node? && y == s.id
      modifies this`nodes, this`root, this`tree
      ensures At(RotateRight(s), F)
      ensures root == (if F == [] then s.left.id else old(root))
      ensures |nodes| == old(|nodes|) && nodes[NIL] == old(nodes[NIL])
      ensures InOrder(tree) == old(InOrder(tree))
    {
      ghost var ns, r := nodes, root;
      RotateRightView(nodes, root, s, F);
      RightRotateFixup(y, s, ParentOf(F));
      ghost var ns1 := nodes;
      RightRotateLinks(y);
      tree := Plug(RotateRight(s), F);
      RotateRightArena(ns, ns1, nodes, r, s, F);
      ReplaceInOrder(s, RotateRight(s), F);
    }

    /** The link writes of rightRotate: the mirror image of `LeftRotateLinks`. */
    method RightRotateLinks(y: int)
      requires 0 < y < |nodes| && 0 < nodes[y].left < |nodes|
      requires 0 <= nodes[nodes[y].left].right < |nodes| && 0 <= nodes[y].parent < |nodes|
      requires nodes[y].left != y && nodes[y].parent != y && nodes[y].parent != nodes[y].left
      requires nodes[nodes[y].left].right !in {y, nodes[y].left, nodes[y].parent} || nodes[nodes[y].left].right == NIL
      modifies this`nodes, this`root
      ensures var x, b, p := old(nodes[y].left), old(nodes[nodes[y].left].right), old(nodes[y].parent);
        Unchanged(old(nodes), nodes, {y, x, b, p}) && nodes[NIL] == old(nodes[NIL]) &&
        nodes[y] == old(nodes[y]).(left := b, parent := x) &&
        nodes[x] == old(nodes[x]).(parent := p, right := y) &&
        (b != NIL ==> nodes[b] == old(nodes[b]).(parent := y)) &&
        (p != NIL ==> nodes[p] == if old(nodes[p].right) == y then old(nodes[p]).(right := x) else old(nodes[p]).(left := x)) &&
        root == (if p == NIL then x else old(root))
    {
      var x := nodes[y].left;
      ghost var b, p, ns := nodes[x].right, nodes[y].parent, nodes;
      nodes := nodes[y := nodes[y].(left := nodes[x].right)];
      if nodes[x].right != NIL {
        nodes := nodes[nodes[x].right := nodes[nodes[x].right].(parent := y)];
      }
      nodes := nodes[x := nodes[x].(parent := nodes[y].parent)];
      assert Unchanged(ns, nodes, {y, x, b}) && nodes[y] == ns[y].(left := b) && nodes[x] == ns[x].(parent := p);
      if nodes[y].parent == NIL {
        root := x;
      } else if nodes[nodes[y].parent].right == y {
        nodes := nodes[nodes[y].parent := nodes[nodes[y].parent].(right := x)];
      } else {
        nodes := nodes[nodes[y].parent := nodes[nodes[y].parent].(left := x)];
      }
      nodes := nodes[x := nodes[x].(right := y)];
      nodes := nodes[y := nodes[y].(parent := x)];
    }
  
    /** The field write `n.color = c` on the node `s` of the picture. */
    method SetColor(n: int, c: Color, ghost s: Tree, ghost F: seq<Frame>)
      requires At(s, F) && s.Node? && n == s.id
      modifies this`nodes, this`tree
      ensures At(Paint(s, c), F)
      ensures 0 < n < old(|nodes|) && nodes == old(nodes)[n := old(nodes)[n].(color := c)]
      ensures InOrder(tree) == old(InOrder(tree))
    {
      FocusView(nodes, root, s, F);
      PaintArena(nodes, root, s, c, F);
      nodes := nodes[n := nodes[n].(color := c)];
      tree := Plug(Paint(s, c), F);
    }

    /**
     * insert(key): a new node holding `key` is allocated (appended to the
     * arena) and inserted; the tree stays a valid red-black tree and gains
     * exactly that key.
     */
    method Insert(key: int)
      requires Valid()
      modifies this`nodes, this`root, this`tree
      ensures Valid()
      ensures multiset(InOrder(tree)) == multiset(old(InOrder(tree))) + multiset{key}
      ensures |nodes| == old(|nodes|) + 1
    {
      Grow(nodes, tree, root, NewKeyNode(key));
      nodes := nodes + [NewKeyNode(key)];
      InsertNode(|nodes| - 1);
    }

    /**
     * insert(z): walk from `root` to a `nil` link, raising `numLeft` on a
     * left turn (the key is smaller) and `numRight` on a right turn, hang
     * `z` there as a RED leaf and restore the colours with insertFixup.
     */
    method InsertNode(z: int)
      requires Valid() && 0 < z < |nodes| && z !in Ids(tree) && nodes[z] == NewKeyNode(nodes[z].key)
      modifies this`nodes, this`root, this`tree
      ensures Valid()
      ensures multiset(InOrder(tree)) == multiset(old(InOrder(tree))) + multiset{old(nodes[z].key)}
      ensures |nodes| == old(|nodes|)
    {
      ghost var key, K := nodes[z].key, InOrder(tree);
      var y;
      ghost var F;
      y, F := InsertDescent(z);
      ghost var Z := AttachNew(z, y, F, key, K);
      InsertFixup(z, Z, F);
    }

    /**
     * The link step of insert: z, painted RED with `nil` children, hangs
     * where the descent stopped, under y, or becomes the root of an empty
     * tree; the keys gain z's key in order.
     */
    method AttachNew(z: int, y: int, ghost F: seq<Frame>, ghost key: int, ghost K: seq<int>) returns (ghost Z: Tree)
      requires Descent(nodes, root, Leaf, F, key, K) && y == ParentOf(F)
      requires 0 < z < |nodes| && nodes[z] == NewKeyNode(key)
      requires z !in Ids(Plug(Leaf, F)) && (F != [] ==> F[0].id < |nodes|)
      modifies this`nodes, this`root, this`tree
      ensures At(Z, F) && InsertFixupInv(Z, F) && z == Z.id
      ensures Sorted(InOrder(tree)) && multiset(InOrder(tree)) == multiset(K) + multiset{key}
      ensures |nodes| == old(|nodes|)
    {
      ghost var ns, r := nodes, root;
      if F != [] {
        StopView(nodes, root, F);
        assert (if key < ns[y].key then ns[y].(left := z) else ns[y].(right := z)) ==
          FrameRecord(F[0], ParentOf(F[1..]), z);
      }
      InsertLinks(z, y);
      assert ns[z].(parent := y, left := NIL, right := NIL, color := RED) ==
        Record(Info(key, RED, 0, 0), ParentOf(F), NIL, NIL);
      Z := Node(Leaf, z, Info(key, RED, 0, 0), Leaf);
      DescentAttach(ns, nodes, r, F, key, K, z);
      tree := Plug(Z, F);
    }

    /**
     * insertFixup(z): while z's parent is RED, recolour (RED uncle) or
     * rotate (BLACK uncle), then paint the root BLACK.  The keys and their
     * order do not change, and the tree ends a red-black tree.
     */
    method InsertFixup(n: int, ghost Z0: Tree, ghost F0: seq<Frame>)
      requires At(Z0, F0) && InsertFixupInv(Z0, F0) && n == Z0.id
      modifies this`nodes, this`root, this`tree
      ensures Sound(nodes, tree, root) && RedBlack(tree)
      ensures InOrder(tree) == old(InOrder(tree)) && |nodes| == old(|nodes|)
    {
      ghost var K, N := InOrder(tree), |nodes|;
      var z := n;
      var y := NIL;
      ghost var Z, F := Z0, F0;
      FocusView(nodes, root, Z, F);
      while nodes[nodes[z].parent].color == RED
        invariant At(Z, F) && InsertFixupInv(Z, F) && z == Z.id
        invariant 0 < z < |nodes| && nodes[z].parent == ParentOf(F) && 0 <= ParentOf(F) < |nodes|
        invariant nodes[ParentOf(F)].color == if F == [] then BLACK else F[0].info.color
        invariant InOrder(tree) == K && |nodes| == N
        decreases |F|, Zig(F)
      {
        InsertFixupGrandparent(Z, F);
        GrandparentView(nodes, root, Z, F);
        if nodes[z].parent == nodes[nodes[nodes[z].parent].parent].left {
          y := nodes[nodes[nodes[z].parent].parent].right;
          if nodes[y].color == RED {
            z, Z, F := RecolorCase(z, y, Z, F);
          } else if z == nodes[nodes[z].parent].right {
            z, Z, F := InnerCaseLeft(z, Z, F);
          } else {
            Z, F := OuterCaseLeft(z, Z, F);
          }
        } else {
          y := nodes[nodes[nodes[z].parent].parent].left;
          if nodes[y].color == RED {
            z, Z, F := RecolorCase(z, y, Z, F);
          } else if z == nodes[nodes[z].parent].left {
            z, Z, F := InnerCaseRight(z, Z, F);
          } else {
            Z, F := OuterCaseRight(z, Z, F);
          }
        }
        FocusView(nodes, root, Z, F);
      }
      InsertFixupDone(Z, F);
      PlugRoot(Z, F);
      BlackenRoot(tree);
      SetColor(root, BLACK, tree, []);
    }

    /**
     * The RED-uncle case of insertFixup: z's parent and the uncle `y` turn
     * BLACK, the grandparent turns RED and becomes z.
     */
    method RecolorCase(z: int, y: int, ghost Z: Tree, ghost F: seq<Frame>) returns (z': int, ghost Z': Tree, ghost F': seq<Frame>)
      requires At(Z, F) && InsertFixupInv(Z, F) && z == Z.id && |F| >= 2 && F[0].info.color == RED
      requires F[1].sibling.Node? && F[1].sibling.info.color == RED && y == F[1].sibling.id
      requires 0 < z < |nodes| && nodes[z].parent == F[0].id && 0 < F[0].id < |nodes| && nodes[F[0].id].parent == F[1].id
      modifies this`nodes, this`tree
      ensures At(Z', F') && InsertFixupInv(Z', F') && z' == Z'.id && F' == F[2..]
      ensures InOrder(tree) == old(InOrder(tree)) && |nodes| == old(|nodes|)
    {
      ghost var P, U := Attach(Z, PaintFrame(F[0], BLACK)), Paint(F[1].sibling, BLACK);
      Refocus(Z, F);
      SetColor(nodes[z].parent, BLACK, Attach(Z, F[0]), F[1..]);
      assert F[1..][0] == F[1] && F[1..][1..] == F[2..];
      Refocus(P, F[1..]);
      SetColor(y, BLACK, F[1].sibling, [Frame(!F[1].isLeft, F[1].id, F[1].info, P)] + F[2..]);
      ghost var G := Attach(P, F[1].(sibling := U));
      Refocus(U, [Frame(!F[1].isLeft, F[1].id, F[1].info, P)] + F[2..]);
      SetColor(nodes[nodes[z].parent].parent, RED, G, F[2..]);
      z' := nodes[nodes[z].parent].parent;
      Z', F' := Attach(P, PaintFrame(F[1], RED).(sibling := U)), F[2..];
      InsertRecolor(Z, F);
    }
  
    /**
     * The inner-grandchild case of insertFixup, z the right child of a left
     * child: z moves up to its parent and a left rotation there makes it the
     * outer grandchild.
     */
    method InnerCaseLeft(z: int, ghost Z: Tree, ghost F: seq<Frame>) returns (z': int, ghost Z': Tree, ghost F': seq<Frame>)
      requires At(Z, F) && InsertFixupInv(Z, F) && z == Z.id && |F| >= 2 && F[0].info.color == RED
      requires !F[0].isLeft && F[1].isLeft
      requires 0 < z < |nodes| && nodes[z].parent == F[0].id
      modifies this`nodes, this`root, this`tree
      ensures At(Z', F') && InsertFixupInv(Z', F') && z' == Z'.id
      ensures |F'| == |F| && F'[0].isLeft && F'[1..] == F[1..]
      ensures InOrder(tree) == old(InOrder(tree)) && |nodes| == old(|nodes|)
    {
      Refocus(Z, F);
      z' := nodes[z].parent;
      LeftRotate(z', Attach(Z, F[0]), F[1..]);
      ghost var r := RotateLeft(Attach(Z, F[0]));
      Z', F' := r.left, [Frame(true, r.id, r.info, r.right)] + F[1..];
      Refocus(Z', F');
      assert F'[1..] == F[1..];
      InsertRotateInnerLeft(Z, F);
    }

    /** The mirror image of `InnerCaseLeft`: z the left child of a right child. */
    method InnerCaseRight(z: int, ghost Z: Tree, ghost F: seq<Frame>) returns (z': int, ghost Z': Tree, ghost F': seq<Frame>)
      requires At(Z, F) && InsertFixupInv(Z, F) && z == Z.id && |F| >= 2 && F[0].info.color == RED
      requires F[0].isLeft && !F[1].isLeft
      requires 0 < z < |nodes| && nodes[z].parent == F[0].id
      modifies this`nodes, this`root, this`tree
      ensures At(Z', F') && InsertFixupInv(Z', F') && z' == Z'.id
      ensures |F'| == |F| && !F'[0].isLeft && F'[1..] == F[1..]
      ensures InOrder(tree) == old(InOrder(tree)) && |nodes| == old(|nodes|)
    {
      Refocus(Z, F);
      z' := nodes[z].parent;
      RightRotate(z', Attach(Z, F[0]), F[1..]);
      ghost var r := RotateRight(Attach(Z, F[0]));
      Z', F' := r.right, [Frame(false, r.id, r.info, r.left)] + F[1..];
      Refocus(Z', F');
      assert F'[1..] == F[1..];
      InsertRotateInnerRight(Z, F);
    }

    /**
     * The outer-grandchild case of insertFixup, z the left child of a left
     * child and the uncle BLACK: the parent turns BLACK, the grandparent RED,
     * and a right rotation at the grandparent leaves z under a BLACK parent.
     */
    method OuterCaseLeft(z: int, ghost Z: Tree, ghost F: seq<Frame>) returns (ghost Z': Tree, ghost F': seq<Frame>)
      requires At(Z, F) && InsertFixupInv(Z, F) && z == Z.id && |F| >= 2 && F[0].info.color == RED
      requires F[0].isLeft && F[1].isLeft && ColorOf(F[1].sibling) == BLACK
      requires 0 < z < |nodes| && nodes[z].parent == F[0].id && 0 < F[0].id < |nodes| && nodes[F[0].id].parent == F[1].id
      modifies this`nodes, this`root, this`tree
      ensures At(Z', F') && InsertFixupInv(Z', F') && z == Z'.id
      ensures |F'| == |F| - 1 && F'[0].info.color == BLACK
      ensures InOrder(tree) == old(InOrder(tree)) && |nodes| == old(|nodes|)
    {
      Refocus(Z, F);
      SetColor(nodes[z].parent, BLACK, Attach(Z, F[0]), F[1..]);
      ghost var P := Attach(Z, PaintFrame(F[0], BLACK));
      assert F[1..][0] == F[1] && F[1..][1..] == F[2..];
      Refocus(P, F[1..]);
      SetColor(nodes[nodes[z].parent].parent, RED, Attach(P, F[1]), F[2..]);
      ghost var G := Attach(P, PaintFrame(F[1], RED));
      RightRotate(nodes[nodes[z].parent].parent, G, F[2..]);
      ghost var r := RotateRight(G);
      Z', F' := Z, [Frame(true, r.id, r.info, r.right)] + F[2..];
      Refocus(Z, F');
      assert F'[1..] == F[2..];
      InsertRotateOuterLeft(Z, F);
    }

    /** The mirror image of `OuterCaseLeft`: z the right child of a right child. */
    method OuterCaseRight(z: int, ghost Z: Tree, ghost F: seq<Frame>) returns (ghost Z': Tree, ghost F': seq<Frame>)
      requires At(Z, F) && InsertFixupInv(Z, F) && z == Z.id && |F| >= 2 && F[0].info.color == RED
      requires !F[0].isLeft && !F[1].isLeft && ColorOf(F[1].sibling) == BLACK
      requires 0 < z < |nodes| && nodes[z].parent == F[0].id && 0 < F[0].id < |nodes| && nodes[F[0].id].parent == F[1].id
      modifies this`nodes, this`root, this`tree
      ensures At(Z', F') && InsertFixupInv(Z', F') && z == Z'.id
      ensures |F'| == |F| - 1 && F'[0].info.color == BLACK
      ensures InOrder(tree) == old(InOrder(tree)) && |nodes| == old(|nodes|)
    {
      Refocus(Z, F);
      SetColor(nodes[z].parent, BLACK, Attach(Z, F[0]), F[1..]);
      ghost var P := Attach(Z, PaintFrame(F[0], BLACK));
      assert F[1..][0] == F[1] && F[1..][1..] == F[2..];
      Refocus(P, F[1..]);
      SetColor(nodes[nodes[z].parent].parent, RED, Attach(P, F[1]), F[2..]);
      ghost var G := Attach(P, PaintFrame(F[1], RED));
      LeftRotate(nodes[nodes[z].parent].parent, G, F[2..]);
      ghost var r := RotateLeft(G);
      Z', F' := Z, [Frame(false, r.id, r.info, r.left)] + F[2..];
      Refocus(Z, F');
      assert F'[1..] == F[2..];
      InsertRotateOuterRight(Z, F);
    }
  
    /**
     * The link writes of insert once the descent has stopped below `y`: z
     * takes y as its parent and y takes z as its child on the side of z's
     * key (or z becomes `root`), and z becomes a RED leaf.
     */
    method InsertLinks(z: int, y: int)
      requires 0 < z < |nodes| && 0 <= y < |nodes| && z != y
      modifies this`nodes, this`root
      ensures var z' := old(nodes[z]).(parent := y, left := NIL, right := NIL, color := RED);
        if y == NIL then
          root == z && nodes == old(nodes)[z := z']
        else
          root == old(root) &&
          nodes == old(nodes)[z := z'][y := if old(nodes[z].key) < old(nodes[y].key)
                                           then old(nodes[y]).(left := z) else old(nodes[y]).(right := z)]
    {
      nodes := nodes[z := nodes[z].(parent := y)];
      if y == NIL {
        root := z;
      } else if nodes[z].key < nodes[y].key {
        nodes := nodes[y := nodes[y].(left := z)];
      } else {
        nodes := nodes[y := nodes[y].(right := z)];
      }
      nodes := nodes[z := nodes[z].(left := NIL)];
      nodes := nodes[z := nodes[z].(right := NIL)];
      nodes := nodes[z := nodes[z].(color := RED)];
    }
  
    /**
     * The descent of insert(z): from `root` down to a `nil` link, raising
     * the counter on the side of each turn; `y` is the last node visited.
     */
    method InsertDescent(z: int) returns (y: int, ghost F: seq<Frame>)
      requires Valid() && 0 < z < |nodes| && z !in Ids(tree) && nodes[z] == NewKeyNode(nodes[z].key)
      modifies this`nodes
      ensures Descent(nodes, root, Leaf, F, old(nodes[z].key), old(InOrder(tree))) && y == ParentOf(F)
      ensures |nodes| == old(|nodes|) && nodes[z] == old(nodes[z]) && z !in Ids(Plug(Leaf, F))
      ensures F != [] ==> F[0].id < |nodes|
    {
      ghost var key, K, N := nodes[z].key, InOrder(tree), |nodes|;
      y := NIL;
      var x := root;
      ghost var X := tree;
      F := [];
      DescentStarts(nodes, root, tree, key);
      while x != NIL
        invariant Descent(nodes, root, X, F, key, K) && x == IdOf(X) && y == ParentOf(F)
        invariant |nodes| == N && 0 < z < N && nodes[z] == NewKeyNode(key) && z !in Ids(Plug(X, F))
        invariant F != [] ==> F[0].id < |nodes|
        decreases Size(X)
      {
        CursorAtNil(nodes, root, X, F);
        CursorView(nodes, root, X, F);
        y := x;
        ghost var ns, goLeft := nodes, key < X.info.key;
        if nodes[z].key < nodes[x].key {
          nodes := nodes[x := nodes[x].(numLeft := nodes[x].numLeft + 1)];
          x := nodes[x].left;
        } else {
          nodes := nodes[x := nodes[x].(numRight := nodes[x].numRight + 1)];
          x := nodes[x].right;
        }
        Descend(ns, nodes, root, X, F, key, K, goLeft);
        X, F := Child(X, goLeft), Down(X, F, goLeft, Raised(X, goLeft));
      }
      CursorAtNil(nodes, root, X, F);
    }
  
    /**
     * treeMinimum(node): follow left links from `node` (the subtree `s`) to
     * the node holding the subtree's first, hence smallest, key.
     */
    method TreeMinimum(node: int, ghost s: Tree, ghost F: seq<Frame>) returns (r: int)
      requires Sound(nodes, tree, root) && tree == Plug(s, F) && node == IdOf(s)
      ensures r == IdOf(Leftmost(s))
      ensures s.Node? ==> 0 < r < |nodes| && nodes[r].key == InOrder(s)[0] && nodes[r].left == NIL
    {
      Unplug(nodes, root, s, F);
      r := node;
      ghost var X, p := s, ParentOf(F);
      while nodes[r].left != NIL
        invariant Stored(nodes, X, p) && r == IdOf(X) && 0 <= r < |nodes| && Leftmost(X) == Leftmost(s)
        decreases Size(X)
      {
        r := nodes[r].left;
        X, p := X.left, X.id;
      }
      if s.Node? {
        LeftmostIsFirst(s);
      }
    }

    /**
     * treeSuccessor(x), corrected to test the right child: the node holding
     * the key that follows x's key in in-order, or `nil` when x's is the last.
     */
    method TreeSuccessor(node: int, ghost s: Tree, ghost F: seq<Frame>) returns (r: int)
      requires Sound(nodes, tree, root) && tree == Plug(s, F) && s.Node? && node == s.id
      ensures r == Successor(s, F)
      ensures r == NIL <==> Next(s, F) == []
      ensures r != NIL ==> 0 < r < |nodes| && nodes[r].key == Next(s, F)[0]
    {
      CursorView(nodes, root, s, F);
      if nodes[node].right != NIL {
        ghost var G := [Frame(false, s.id, s.info, s.left)] + F;
        Refocus(s.right, G);
        assert G[1..] == F;
        r := TreeMinimum(nodes[node].right, s.right, G);
      } else {
        r := ClimbLeft(node, s, F);
      }
    }

    /** treeSuccessor(x) as written: it tests x's LEFT child before taking the minimum on the right. */
    method TreeSuccessorAsWritten(node: int, ghost s: Tree, ghost F: seq<Frame>) returns (r: int)
      requires Sound(nodes, tree, root) && tree == Plug(s, F) && s.Node? && node == s.id
      ensures r == SuccessorAsWritten(s, F)
    {
      CursorView(nodes, root, s, F);
      if nodes[node].left != NIL {
        ghost var G := [Frame(false, s.id, s.info, s.left)] + F;
        Refocus(s.right, G);
        assert G[1..] == F;
        r := TreeMinimum(nodes[node].right, s.right, G);
      } else {
        r := ClimbLeft(node, s, F);
      }
    }

    /**
     * The climb of treeSuccessor: go up while x is its parent's right child;
     * the parent reached last holds the first key after x's subtree.
     */
    method ClimbLeft(node: int, ghost s: Tree, ghost F: seq<Frame>) returns (y: int)
      requires Sound(nodes, tree, root) && tree == Plug(s, F) && s.Node? && node == s.id
      ensures y == Climb(F)
      ensures y == NIL <==> RightKeys(F) == []
      ensures y != NIL ==> 0 < y < |nodes| && nodes[y].key == RightKeys(F)[0]
    {
      FocusView(nodes, root, s, F);
      var x := node;
      y := nodes[x].parent;
      ghost var X, G := s, F;
      while y != NIL && x == nodes[y].right
        invariant Sound(nodes, Plug(X, G), root) && X.Node? && x == X.id && y == ParentOf(G)
        invariant 0 <= y < |nodes| && (y == NIL <==> G == [])
        invariant Climb(G) == Climb(F) && RightKeys(G) == RightKeys(F)
        decreases |G|
      {
        ParentView(nodes, root, X, G);
        Refocus(X, G);
        x := y;
        y := nodes[y].parent;
        X, G := Attach(X, G[0]), G[1..];
        FocusView(nodes, root, X, G);
      }
      if y != NIL {
        ParentView(nodes, root, X, G);
      }
    }

    /**
     * search(key): walk down, right where the node's key is smaller and left
     * where it is larger; the node holding `key`, or null when no node does.
     */
    method Search(key: int) returns (r: int, ghost s: Tree, ghost F: seq<Frame>)
      requires Valid()
      ensures r == NULL <==> key !in InOrder(tree)
      ensures r != NULL ==> s.Node? && r == s.id && tree == Plug(s, F) && s.info.key == key
      ensures r != NULL ==> 0 < r < |nodes| && nodes[r].key == key
    {
      var current := root;
      ghost var X, G := tree, [];
      while current != NIL
        invariant Sound(nodes, Plug(X, G), root) && tree == Plug(X, G) && current == IdOf(X)
        invariant Sorted(InOrder(X)) && (key in InOrder(tree) ==> key in InOrder(X))
        decreases Size(X)
      {
        CursorAtNil(nodes, root, X, G);
        CursorView(nodes, root, X, G);
        SortedAroundParts(InOrder(X.left), X.info.key, InOrder(X.right));
        if nodes[current].key == key {
          PlugInOrder(X, G);
          return current, X, G;
        } else if nodes[current].key < key {
          current := nodes[current].right;
          X, G := X.right, [Frame(false, X.id, X.info, X.left)] + G;
        } else {
          current := nodes[current].left;
          X, G := X.left, [Frame(true, X.id, X.info, X.right)] + G;
        }
        Refocus(X, G);
      }
      CursorAtNil(nodes, root, X, G);
      return NULL, X, G;
    }

    /**
     * remove(v): find the node z holding the key; splice out z itself when
     * one of its children is `nil`, else its successor y after copying y's
     * key into z; mend the counters with fixNodeData and, when the node
     * spliced out was BLACK, the colours with removeFixup.
     */
    method Remove(key: int)
      requires Valid() && Increasing(InOrder(tree)) && key in InOrder(tree)
      modifies this`nodes, this`root, this`tree
      ensures Valid() && Increasing(InOrder(tree))
      ensures multiset(InOrder(tree)) == multiset(old(InOrder(tree))) - multiset{key}
      ensures |nodes| == old(|nodes|)
    {
      var z;
      ghost var Z, FZ;
      z, Z, FZ := Search(key);
      var y;
      ghost var Y, F, F';
      y, Y, F, F' := ChooseSpliced(z, Z, FZ);
      var x := SpliceOut(z, y, Z, FZ, Y, F, F');
      FixNodeData(x, y, OnlyChild(Y), F');
      RemoveFinish(x, y, Y, F');
      IncreasingIsSorted(InOrder(tree));
    }

    /**
     * The choice of remove: z itself when one of its children is `nil`, else
     * its successor y, the leftmost node of z's right subtree.  y sits under
     * the frames `F` and, once z holds y's key, under `F'`; splicing y out
     * there leaves the keys of the tree less z's key, still increasing.
     */
    method ChooseSpliced(z: int, ghost Z: Tree, ghost FZ: seq<Frame>) returns (y: int, ghost Y: Tree, ghost F: seq<Frame>, ghost F': seq<Frame>)
      requires Valid() && Increasing(InOrder(tree)) && Z.Node? && z == Z.id && tree == Plug(Z, FZ)
      ensures Y.Node? && y == Y.id && tree == Plug(Y, F) && Detaches(tree, Z.info.key, Y, F')
      ensures y == z <==> (Z.left.Leaf? || Z.right.Leaf?)
      ensures y == z ==> F' == F
      ensures y != z ==> (Z.right.Node? &&
        F == LeftPath(Z.right, [Frame(false, Z.id, Z.info, Z.left)] + FZ) &&
        F' == LeftPath(Z.right, [Frame(false, Z.id, Z.info.(key := Y.info.key), Z.left)] + FZ))
    {
      CursorView(nodes, root, Z, FZ);
      if nodes[z].left == NIL || nodes[z].right == NIL {
        y := z;
        Y, F, F' := Z, FZ, FZ;
        DetachSelf(Z, FZ);
      } else {
        y := TreeSuccessor(z, Z, FZ);
        ghost var f := Frame(false, Z.id, Z.info, Z.left);
        Y := Leftmost(Z.right);
        F := LeftPath(Z.right, [f] + FZ);
        F' := LeftPath(Z.right, [f.(info := f.info.(key := Y.info.key))] + FZ);
        DetachSuccessor(Z, FZ);
        PlugDistinct(Z, FZ);
        LeftmostIsFirst(Z.right);
      }
    }

    /**
     * The middle of remove once y, the node to splice out, is chosen: y sits
     * under the frames `F`, and `F'` are those frames after z receives y's
     * key.  y's child x takes y's place, and z receives y's key.
     */
    method SpliceOut(z: int, y: int, ghost Z: Tree, ghost FZ: seq<Frame>, ghost Y: Tree, ghost F: seq<Frame>, ghost F': seq<Frame>) returns (x: int)
      requires Sound(nodes, tree, root) && tree == Plug(Y, F) && Y.Node? && y == Y.id
      requires Z.Node? && z == Z.id && 0 < z < |nodes| && DetachedShape(Y, F') && FramesRouted(F', Y.info.key)
      requires y == z ==> F' == F
      requires y != z ==> (Z.right.Node? &&
        F == LeftPath(Z.right, [Frame(false, Z.id, Z.info, Z.left)] + FZ) &&
        F' == LeftPath(Z.right, [Frame(false, Z.id, Z.info.(key := Y.info.key), Z.left)] + FZ))
      modifies this`nodes, this`root
      ensures Held(nodes, Plug(OnlyChild(Y), F'), root) && y !in Ids(Plug(OnlyChild(Y), F'))
      ensures x == IdOf(OnlyChild(Y)) && 0 <= x < |nodes| && nodes[x].parent == ParentOf(F')
      ensures 0 < y < |nodes| && nodes[y].key == Y.info.key && nodes[y].color == Y.info.color
      ensures nodes[y].parent == ParentOf(F') && |nodes| == old(|nodes|)
    {
      SpliceView(nodes, root, Y, F);
      ghost var ns, r := nodes, root;
      x := Splice(y);
      SpliceArena(ns, nodes, r, root, Y, F);
      ghost var X := OnlyChild(Y);
      if y != z {
        ghost var ns1 := nodes;
        nodes := nodes[z := nodes[z].(key := nodes[y].key)];
        KeyCopyArena(ns1, nodes, root, X, Z.right, Frame(false, Z.id, Z.info, Z.left), FZ, Y.info.key);
      }
    }

    /**
     * The end of remove: with x in y's place and the counters mended, a
     * BLACK y leaves x's side one black short, which removeFixup repairs.
     */
    method RemoveFinish(x: int, y: int, ghost Y: Tree, ghost F: seq<Frame>)
      requires Y.Node? && DetachedShape(Y, F) && x == IdOf(OnlyChild(Y))
      requires Sound(nodes, Plug(OnlyChild(Y), Recount(F, Size(OnlyChild(Y)))), root)
      requires 0 <= x < |nodes| && 0 < y < |nodes| && nodes[y].color == Y.info.color
      requires OnlyChild(Y).Leaf? ==> nodes[NIL].parent == ParentOf(F)
      modifies this`nodes, this`root, this`tree
      ensures Sound(nodes, tree, root) && RedBlack(tree)
      ensures InOrder(tree) == InOrder(Plug(OnlyChild(Y), F)) && |nodes| == old(|nodes|)
    {
      ghost var X := OnlyChild(Y);
      ghost var G := Recount(F, Size(X));
      RecountShape(F, Size(X));
      tree := Plug(X, G);
      RecountKeys(F, Size(X));
      RecountColors(F, Size(X), Y.info.color, BlackHeight(Y));
      PlugInOrder(X, G);
      PlugInOrder(X, F);
      RemoveFixupStarts(Y, X, G);
      if nodes[y].color == BLACK {
        RemoveFixup(x, X, G);
      }
    }

    /**
     * The splice of remove: y's child x (the sentinel when y has none) takes
     * y's parent, and that parent, or `root` when y was the root, links x
     * where it linked y.
     */
    method Splice(y: int) returns (x: int)
      requires 0 < y < |nodes| && 0 <= nodes[y].left < |nodes| && 0 <= nodes[y].right < |nodes|
      requires 0 <= nodes[y].parent < |nodes| && nodes[y].left != y && nodes[y].right != y
      requires nodes[y].parent != NIL ==> nodes[y].parent != nodes[y].left && nodes[y].parent != nodes[y].right
      requires nodes[y].parent != NIL ==> nodes[nodes[y].parent].left == y || nodes[nodes[y].parent].right == y
      modifies this`nodes, this`root
      ensures x == if old(nodes[y].left) != NIL then old(nodes[y].left) else old(nodes[y].right)
      ensures var p := old(nodes[y].parent);
        var ns := old(nodes)[x := old(nodes)[x].(parent := p)];
        nodes == (if p == NIL then ns
          else ns[p := if old(nodes)[p].left == y then old(nodes)[p].(left := x) else old(nodes)[p].(right := x)]) &&
        root == if p == NIL then x else old(root)
    {
      if nodes[y].left != NIL {
        x := nodes[y].left;
      } else {
        x := nodes[y].right;
      }
      nodes := nodes[x := nodes[x].(parent := nodes[y].parent)];
      if nodes[y].parent == NIL {
        root := x;
      } else if nodes[nodes[y].parent].left != NIL && nodes[nodes[y].parent].left == y {
        nodes := nodes[nodes[y].parent := nodes[nodes[y].parent].(left := x)];
      } else if nodes[nodes[y].parent].right != NIL && nodes[nodes[y].parent].right == y {
        nodes := nodes[nodes[y].parent := nodes[nodes[y].parent].(right := x)];
      }
    }

    /**
     * fixNodeData(x, y): from the parent of x (the parent y had) up to the
     * root, take one off the counter on the side the removed key lay, with
     * `track` telling the sides apart at the node that received y's key.
     */
    method FixNodeData(x: int, y: int, ghost X: Tree, ghost F0: seq<Frame>)
      requires Held(nodes, Plug(X, F0), root) && Counted(X) && FramesCounted(F0, Size(X) + 1)
      requires 0 < y < |nodes| && y !in Ids(Plug(X, F0)) && FramesRouted(F0, nodes[y].key)
      requires 0 <= x < |nodes| && x == IdOf(X) && nodes[y].parent == ParentOf(F0)
      requires x != NIL ==> nodes[x].parent == ParentOf(F0)
      modifies this`nodes
      ensures Sound(nodes, Plug(X, Recount(F0, Size(X))), root)
      ensures |nodes| == old(|nodes|) && nodes[NIL] == old(nodes[NIL]) && nodes[y] == old(nodes[y])
    {
      if X.Node? {
        CursorView(nodes, root, X, F0);
      }
      var current, track;
      if x == NIL {
        current := nodes[y].parent;
        track := y;
      } else {
        current := nodes[x].parent;
        track := x;
      }
      ghost var S, F := X, F0;
      ghost var k := nodes[y].key;
      while current != NIL
        invariant FixWalk(nodes, root, S, F, k, track) && current == ParentOf(F)
        invariant Plug(S, Recount(F, Size(S))) == Plug(X, Recount(F0, Size(X)))
        invariant |nodes| == old(|nodes|) && nodes[NIL] == old(nodes[NIL]) && nodes[y] == old(nodes[y])
        invariant y !in Ids(Plug(S, F)) && k == nodes[y].key
        decreases |F|
      {
        FrameHeld(nodes, root, S, F);
        ghost var ns := nodes;
        nodes := nodes[current := FixNode(nodes[current], nodes[y].key, track)];
        FixWalkStep(ns, nodes, root, S, F, k, track);
        track := current;
        current := nodes[current].parent;
        S, F := Attach(S, Fix(F[0], Size(S))), F[1..];
      }
      FrameHeld(nodes, root, S, F);
    }

    /**
     * removeFixup(x): while x is not the root and is BLACK, it carries an
     * extra black; a pass on its left or right side either moves the extra
     * black up to x's parent or absorbs it and ends at the root.  Finally x
     * turns BLACK.
     */
    method RemoveFixup(n: int, ghost X0: Tree, ghost F0: seq<Frame>)
      requires At(X0, F0) && RemoveFixupInv(X0, F0) && n == IdOf(X0)
      requires X0.Leaf? ==> nodes[NIL].parent == ParentOf(F0)
      modifies this`nodes, this`root, this`tree
      ensures Sound(nodes, tree, root) && RedBlack(tree)
      ensures InOrder(tree) == old(InOrder(tree)) && |nodes| == old(|nodes|)
    {
      ghost var K, N := InOrder(tree), |nodes|;
      var x := n;
      ghost var X, F := X0, F0;
      FixupView(nodes, root, X, F);
      while x != root && nodes[x].color == BLACK
        invariant At(X, F) && RemoveFixupInv(X, F) && x == IdOf(X)
        invariant X.Leaf? ==> nodes[NIL].parent == ParentOf(F)
        invariant 0 <= x < |nodes| && nodes[x].color == ColorOf(X) && (x == root <==> F == [])
        invariant InOrder(tree) == K && |nodes| == N
        decreases |F| + Inc(ColorOf(X))
      {
        FixupSibling(X, F);
        FixupView(nodes, root, X, F);
        if x == nodes[nodes[x].parent].left {
          x, X, F := FixupLeft(x, X, F);
        } else {
          x, X, F := FixupRight(x, X, F);
        }
        FixupView(nodes, root, X, F);
      }
      RemoveFixupEnds(X, F);
      ghost var ns := nodes;
      if X.Node? {
        PaintArena(nodes, root, X, BLACK, F);
      }
      nodes := nodes[x := nodes[x].(color := BLACK)];
      tree := Plug(Blacken(X), F);
      assert X.Leaf? ==> nodes == ns;
    }

    /** One pass of removeFixup's loop with x a left child. */
    method FixupLeft(x: int, ghost X: Tree, ghost F: seq<Frame>) returns (x': int, ghost X': Tree, ghost F': seq<Frame>)
      requires At(X, F) && RemoveFixupInv(X, F) && x == IdOf(X) && F != [] && F[0].isLeft && ColorOf(X) == BLACK
      requires X.Leaf? ==> nodes[NIL].parent == ParentOf(F)
      modifies this`nodes, this`root, this`tree
      ensures At(X', F') && RemoveFixupInv(X', F') && x' == IdOf(X')
      ensures X'.Leaf? ==> nodes[NIL].parent == ParentOf(F')
      ensures |F'| + Inc(ColorOf(X')) <= |F|
      ensures InOrder(tree) == old(InOrder(tree)) && |nodes| == old(|nodes|)
    {
      FixupSibling(X, F);
      FixupView(nodes, root, X, F);
      var w := nodes[nodes[x].parent].right;
      ghost var G := F;
      if nodes[w].color == RED {
        G := RedSiblingLeft(x, w, X, F);
        FixupSibling(X, G);
        FixupView(nodes, root, X, G);
        w := nodes[nodes[x].parent].right;
      }
      if nodes[nodes[w].left].color == BLACK && nodes[nodes[w].right].color == BLACK {
        x', X', F' := BlackNephews(x, w, X, G);
      } else {
        if nodes[nodes[w].right].color == BLACK {
          G := InnerNephewLeft(x, w, X, G);
          FixupSibling(X, G);
          FixupView(nodes, root, X, G);
          w := nodes[nodes[x].parent].right;
        }
        OuterNephewLeft(x, w, X, G);
        x' := root;
        X', F' := tree, [];
        BlackenWell(tree);
      }
    }

    /** One pass of removeFixup's loop with x a right child: the mirror of `FixupLeft`. */
    method FixupRight(x: int, ghost X: Tree, ghost F: seq<Frame>) returns (x': int, ghost X': Tree, ghost F': seq<Frame>)
      requires At(X, F) && RemoveFixupInv(X, F) && x == IdOf(X) && F != [] && !F[0].isLeft && ColorOf(X) == BLACK
      requires X.Leaf? ==> nodes[NIL].parent == ParentOf(F)
      modifies this`nodes, this`root, this`tree
      ensures At(X', F') && RemoveFixupInv(X', F') && x' == IdOf(X')
      ensures X'.Leaf? ==> nodes[NIL].parent == ParentOf(F')
      ensures |F'| + Inc(ColorOf(X')) <= |F|
      ensures InOrder(tree) == old(InOrder(tree)) && |nodes| == old(|nodes|)
    {
      FixupSibling(X, F);
      FixupView(nodes, root, X, F);
      var w := nodes[nodes[x].parent].left;
      ghost var G := F;
      if nodes[w].color == RED {
        G := RedSiblingRight(x, w, X, F);
        FixupSibling(X, G);
        FixupView(nodes, root, X, G);
        w := nodes[nodes[x].parent].left;
      }
      if nodes[nodes[w].right].color == BLACK && nodes[nodes[w].left].color == BLACK {
        x', X', F' := BlackNephews(x, w, X, G);
      } else {
        if nodes[nodes[w].left].color == BLACK {
          G := InnerNephewRight(x, w, X, G);
          FixupSibling(X, G);
          FixupView(nodes, root, X, G);
          w := nodes[nodes[x].parent].left;
        }
        OuterNephewRight(x, w, X, G);
        x' := root;
        X', F' := tree, [];
        BlackenWell(tree);
      }
    }

    /**
     * Case 1 of removeFixup, x a left child: the RED sibling w turns BLACK,
     * the parent RED, and a left rotation at the parent gives x a BLACK
     * sibling under a RED parent.
     */
    method RedSiblingLeft(x: int, w: int, ghost X: Tree, ghost F: seq<Frame>) returns (ghost G: seq<Frame>)
      requires At(X, F) && RemoveFixupInv(X, F) && x == IdOf(X) && F != [] && F[0].isLeft && ColorOf(X) == BLACK
      requires X.Leaf? ==> nodes[NIL].parent == ParentOf(F)
      requires F[0].sibling.Node? && F[0].sibling.info.color == RED && w == F[0].sibling.id
      modifies this`nodes, this`root, this`tree
      ensures At(X, G) && RemoveFixupInv(X, G) && G != [] && G[0].isLeft && G[0].id == F[0].id
      ensures |G| == |F| + 1 && ColorOf(G[0].sibling) == BLACK && G[0].info.color == RED
      ensures nodes[NIL] == old(nodes[NIL])
      ensures InOrder(tree) == old(InOrder(tree)) && |nodes| == old(|nodes|)
    {
      FixupView(nodes, root, X, F);
      ghost var W := F[0].sibling;
      ghost var f := Frame(false, F[0].id, F[0].info, X);
      Refocus(X, F);
      SetColor(w, BLACK, W, [f] + F[1..]);
      PlugOne(Paint(W, BLACK), f, F[1..]);
      ghost var P1 := Attach(Paint(W, BLACK), f);
      SetColor(nodes[x].parent, RED, P1, F[1..]);
      LeftRotate(nodes[x].parent, Paint(P1, RED), F[1..]);
      RemoveRedSiblingLeft(X, F);
      ghost var r := RotateLeft(Paint(P1, RED));
      G := [Frame(true, r.left.id, r.left.info, r.left.right), Frame(true, r.id, r.info, r.right)] + F[1..];
    }

    /** Case 1 of removeFixup, x a right child: the mirror of `RedSiblingLeft`. */
    method RedSiblingRight(x: int, w: int, ghost X: Tree, ghost F: seq<Frame>) returns (ghost G: seq<Frame>)
      requires At(X, F) && RemoveFixupInv(X, F) && x == IdOf(X) && F != [] && !F[0].isLeft && ColorOf(X) == BLACK
      requires X.Leaf? ==> nodes[NIL].parent == ParentOf(F)
      requires F[0].sibling.Node? && F[0].sibling.info.color == RED && w == F[0].sibling.id
      modifies this`nodes, this`root, this`tree
      ensures At(X, G) && RemoveFixupInv(X, G) && G != [] && !G[0].isLeft && G[0].id == F[0].id
      ensures |G| == |F| + 1 && ColorOf(G[0].sibling) == BLACK && G[0].info.color == RED
      ensures nodes[NIL] == old(nodes[NIL])
      ensures InOrder(tree) == old(InOrder(tree)) && |nodes| == old(|nodes|)
    {
      FixupView(nodes, root, X, F);
      ghost var W := F[0].sibling;
      ghost var f := Frame(true, F[0].id, F[0].info, X);
      Refocus(X, F);
      SetColor(w, BLACK, W, [f] + F[1..]);
      PlugOne(Paint(W, BLACK), f, F[1..]);
      ghost var P1 := Attach(Paint(W, BLACK), f);
      SetColor(nodes[x].parent, RED, P1, F[1..]);
      RightRotate(nodes[x].parent, Paint(P1, RED), F[1..]);
      RemoveRedSiblingRight(X, F);
      ghost var r := RotateRight(Paint(P1, RED));
      G := [Frame(false, r.right.id, r.right.info, r.right.left), Frame(false, r.id, r.info, r.left)] + F[1..];
    }

    /**
     * Case 2 of removeFixup, on either side: both children of the BLACK
     * sibling w are BLACK; w turns RED and the extra black moves up to x's
     * parent, which becomes x.
     */
    method BlackNephews(x: int, w: int, ghost X: Tree, ghost F: seq<Frame>) returns (x': int, ghost X': Tree, ghost F': seq<Frame>)
      requires At(X, F) && RemoveFixupInv(X, F) && x == IdOf(X) && F != [] && ColorOf(X) == BLACK
      requires X.Leaf? ==> nodes[NIL].parent == ParentOf(F)
      requires F[0].sibling.Node? && F[0].sibling.info.color == BLACK && w == F[0].sibling.id
      requires ColorOf(F[0].sibling.left) == BLACK && ColorOf(F[0].sibling.right) == BLACK
      modifies this`nodes, this`tree
      ensures At(X', F') && RemoveFixupInv(X', F') && x' == IdOf(X') && X'.Node?
      ensures F' == F[1..] && ColorOf(X') == F[0].info.color
      ensures InOrder(tree) == old(InOrder(tree)) && |nodes| == old(|nodes|)
    {
      FixupView(nodes, root, X, F);
      ghost var W := F[0].sibling;
      ghost var f := Frame(!F[0].isLeft, F[0].id, F[0].info, X);
      Refocus(X, F);
      SetColor(w, RED, W, [f] + F[1..]);
      PlugOne(Paint(W, RED), f, F[1..]);
      x' := nodes[x].parent;
      X', F' := Attach(Paint(W, RED), f), F[1..];
      assert X' == Attach(X, F[0].(sibling := Paint(W, RED)));
      RemoveBlackNephews(X, F);
    }

    /**
     * Case 3 of removeFixup, x a left child: w's right child is BLACK and
     * its left child RED; that child turns BLACK, w RED, and a right
     * rotation at w leaves x a BLACK sibling with a RED right child.
     */
    method InnerNephewLeft(x: int, w: int, ghost X: Tree, ghost F: seq<Frame>) returns (ghost G: seq<Frame>)
      requires At(X, F) && RemoveFixupInv(X, F) && x == IdOf(X) && F != [] && F[0].isLeft && ColorOf(X) == BLACK
      requires F[0].sibling.Node? && F[0].sibling.info.color == BLACK && w == F[0].sibling.id
      requires ColorOf(F[0].sibling.left) == RED && ColorOf(F[0].sibling.right) == BLACK
      modifies this`nodes, this`root, this`tree
      ensures At(X, G) && RemoveFixupInv(X, G) && G != [] && G == [F[0].(sibling := G[0].sibling)] + F[1..]
      ensures G[0].sibling.Node? && G[0].sibling.info.color == BLACK && ColorOf(G[0].sibling.right) == RED
      ensures nodes[NIL] == old(nodes[NIL])
      ensures InOrder(tree) == old(InOrder(tree)) && |nodes| == old(|nodes|)
    {
      ghost var W := F[0].sibling;
      ghost var H := [Frame(false, F[0].id, F[0].info, X)] + F[1..];
      Refocus(X, F);
      CursorView(nodes, root, W, H);
      ghost var g := Frame(true, W.id, W.info, W.right);
      PlugOne(W.left, g, H);
      SetColor(nodes[w].left, BLACK, W.left, [g] + H);
      PlugOne(Paint(W.left, BLACK), g, H);
      ghost var W1 := Attach(Paint(W.left, BLACK), g);
      SetColor(w, RED, W1, H);
      RightRotate(w, Paint(W1, RED), H);
      RemoveInnerNephewLeft(X, F);
      G := [F[0].(sibling := RotateRight(Paint(W1, RED)))] + F[1..];
      Refocus(X, G);
    }

    /** Case 3 of removeFixup, x a right child: the mirror of `InnerNephewLeft`. */
    method InnerNephewRight(x: int, w: int, ghost X: Tree, ghost F: seq<Frame>) returns (ghost G: seq<Frame>)
      requires At(X, F) && RemoveFixupInv(X, F) && x == IdOf(X) && F != [] && !F[0].isLeft && ColorOf(X) == BLACK
      requires F[0].sibling.Node? && F[0].sibling.info.color == BLACK && w == F[0].sibling.id
      requires ColorOf(F[0].sibling.right) == RED && ColorOf(F[0].sibling.left) == BLACK
      modifies this`nodes, this`root, this`tree
      ensures At(X, G) && RemoveFixupInv(X, G) && G != [] && G == [F[0].(sibling := G[0].sibling)] + F[1..]
      ensures G[0].sibling.Node? && G[0].sibling.info.color == BLACK && ColorOf(G[0].sibling.left) == RED
      ensures nodes[NIL] == old(nodes[NIL])
      ensures InOrder(tree) == old(InOrder(tree)) && |nodes| == old(|nodes|)
    {
      ghost var W := F[0].sibling;
      ghost var H := [Frame(true, F[0].id, F[0].info, X)] + F[1..];
      Refocus(X, F);
      CursorView(nodes, root, W, H);
      ghost var g := Frame(false, W.id, W.info, W.left);
      PlugOne(W.right, g, H);
      SetColor(nodes[w].right, BLACK, W.right, [g] + H);
      PlugOne(Paint(W.right, BLACK), g, H);
      ghost var W1 := Attach(Paint(W.right, BLACK), g);
      SetColor(w, RED, W1, H);
      LeftRotate(w, Paint(W1, RED), H);
      RemoveInnerNephewRight(X, F);
      G := [F[0].(sibling := RotateLeft(Paint(W1, RED)))] + F[1..];
      Refocus(X, G);
    }

    /**
     * Case 4 of removeFixup, x a left child: w's right child is RED; w takes
     * the parent's colour, the parent and that child turn BLACK, and a left
     * rotation at the parent absorbs the extra black.
     */
    method OuterNephewLeft(x: int, w: int, ghost X: Tree, ghost F: seq<Frame>)
      requires At(X, F) && RemoveFixupInv(X, F) && x == IdOf(X) && F != [] && F[0].isLeft && ColorOf(X) == BLACK
      requires X.Leaf? ==> nodes[NIL].parent == ParentOf(F)
      requires F[0].sibling.Node? && F[0].sibling.info.color == BLACK && w == F[0].sibling.id
      requires ColorOf(F[0].sibling.right) == RED
      modifies this`nodes, this`root, this`tree
      ensures Sound(nodes, tree, root) && Well(tree) && tree.Node? && root == tree.id
      ensures InOrder(tree) == old(InOrder(tree)) && |nodes| == old(|nodes|)
    {
      FixupView(nodes, root, X, F);
      ghost var W := F[0].sibling;
      ghost var H := [Frame(false, F[0].id, F[0].info, X)] + F[1..];
      Refocus(X, F);
      SetColor(w, nodes[nodes[x].parent].color, W, H);
      ghost var W1 := Paint(W, F[0].info.color);
      PlugOne(W1, H[0], F[1..]);
      ghost var P1 := Attach(W1, H[0]);
      SetColor(nodes[x].parent, BLACK, P1, F[1..]);
      ghost var P2 := Paint(P1, BLACK);
      ghost var fw, fp := Frame(false, W.id, W1.info, W1.left), Frame(false, F[0].id, P2.info, X);
      PlugTwo(W1.right, fw, fp, F[1..]);
      SetColor(nodes[w].right, BLACK, W1.right, [fw, fp] + F[1..]);
      PlugTwo(Paint(W1.right, BLACK), fw, fp, F[1..]);
      ghost var P3 := Attach(Attach(Paint(W1.right, BLACK), fw), fp);
      LeftRotate(nodes[x].parent, P3, F[1..]);
      RemoveOuterNephewLeft(X, F);
      PlugRoot(RotateLeft(P3), F[1..]);
    }

    /** Case 4 of removeFixup, x a right child: the mirror of `OuterNephewLeft`. */
    method OuterNephewRight(x: int, w: int, ghost X: Tree, ghost F: seq<Frame>)
      requires At(X, F) && RemoveFixupInv(X, F) && x == IdOf(X) && F != [] && !F[0].isLeft && ColorOf(X) == BLACK
      requires X.Leaf? ==> nodes[NIL].parent == ParentOf(F)
      requires F[0].sibling.Node? && F[0].sibling.info.color == BLACK && w == F[0].sibling.id
      requires ColorOf(F[0].sibling.left) == RED
      modifies this`nodes, this`root, this`tree
      ensures Sound(nodes, tree, root) && Well(tree) && tree.Node? && root == tree.id
      ensures InOrder(tree) == old(InOrder(tree)) && |nodes| == old(|nodes|)
    {
      FixupView(nodes, root, X, F);
      ghost var W := F[0].sibling;
      ghost var H := [Frame(true, F[0].id, F[0].info, X)] + F[1..];
      Refocus(X, F);
      SetColor(w, nodes[nodes[x].parent].color, W, H);
      ghost var W1 := Paint(W, F[0].info.color);
      PlugOne(W1, H[0], F[1..]);
      ghost var P1 := Attach(W1, H[0]);
      SetColor(nodes[x].parent, BLACK, P1, F[1..]);
      ghost var P2 := Paint(P1, BLACK);
      ghost var fw, fp := Frame(true, W.id, W1.info, W1.right), Frame(true, F[0].id, P2.info, X);
      PlugTwo(W1.left, fw, fp, F[1..]);
      SetColor(nodes[w].left, BLACK, W1.left, [fw, fp] + F[1..]);
      PlugTwo(Paint(W1.left, BLACK), fw, fp, F[1..]);
      ghost var P3 := Attach(Attach(Paint(W1.left, BLACK), fw), fp);
      RightRotate(nodes[x].parent, P3, F[1..]);
      RemoveOuterNephewRight(X, F);
      PlugRoot(RotateRight(P3), F[1..]);
    }
  
    /**
     * size() as written: root.numLeft + root.numRight + 1.  On an empty tree
     * `root` is the sentinel, whose counters are 0, so it answers 1.
     */
    method TreeSizeAsWritten() returns (n: int)
      requires Valid()
      ensures n == |InOrder(tree)| + (if tree.Leaf? then 1 else 0)
    {
      n := nodes[root].numLeft + nodes[root].numRight + 1;
      SizeIsLength(tree);
    }

    /** size(), corrected for the empty tree: the number of keys in the tree. */
    method TreeSize() returns (n: int)
      requires Valid()
      ensures n == |InOrder(tree)|
    {
      SizeIsLength(tree);
      if root == NIL {
        n := 0;
      } else {
        n := nodes[root].numLeft + nodes[root].numRight + 1;
      }
    }

    /**
     * visit(node, type, list): append the keys of the subtree at `node` to
     * the list, in pre-order for "PRE", post-order for "POS", in-order otherwise.
     */
    method Visit(node: int, tag: string, list: seq<int>, ghost t: Tree, ghost p: int) returns (out: seq<int>)
      requires |nodes| > 0 && Stored(nodes, t, p) && node == IdOf(t)
      ensures out == list + Traversal(t, tag)
      decreases t
    {
      out := list;
      if node != NIL {
        if tag == "PRE" {
          out := out + [nodes[node].key];
          out := Visit(nodes[node].left, tag, out, t.left, t.id);
          out := Visit(nodes[node].right, tag, out, t.right, t.id);
        } else if tag == "POS" {
          out := Visit(nodes[node].left, tag, out, t.left, t.id);
          out := Visit(nodes[node].right, tag, out, t.right, t.id);
          out := out + [nodes[node].key];
        } else {
          out := Visit(nodes[node].left, tag, out, t.left, t.id);
          out := out + [nodes[node].key];
          out := Visit(nodes[node].right, tag, out, t.right, t.id);
        }
      }
    }

    /** toArrayList(type): null for an empty tree, else every key in the order the tag asks for. */
    method ToArrayList(tag: string) returns (r: Option<seq<int>>)
      requires Valid()
      ensures tree.Leaf? ==> r == None
      ensures tree.Node? ==> r == Some(Traversal(tree, tag))
    {
      CursorAtNil(nodes, root, tree, []);
      if root == NIL {
        return None;
      }
      var list := Visit(root, tag, [], tree, NIL);
      assert list == Traversal(tree, tag);
      r := Some(list);
    }
  }
}
