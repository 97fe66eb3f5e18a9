/**
 * How the in-place writes of src/redBlackTree/RedBlackTree.java move the
 * arena from one tree picture to the next.  Each lemma takes the arena
 * before and after a group of field writes, described record by record,
 * and concludes that the new arena soundly holds the new picture.
 */
module RedBlackArena {
  import opened RedBlackNodes
  import opened RedBlackShapes
  import opened RedBlackRotations
  import opened RedBlackColors

  /** The facts a sound arena gives about a subtree `s` under the frames `F`. */
  lemma {:induction false} Unplug(ns: seq<RedBlackNode>, root: int, s: Tree, F: seq<Frame>)
    requires Sound(ns, Plug(s, F), root)
    ensures Stored(ns, s, ParentOf(F)) && FramesStored(ns, F, IdOf(s))
    ensures Distinct(s) && FramesDistinct(F) && Ids(s) !! FrameIds(F)
    ensures Counted(s) && FramesCounted(F, Size(s))
    ensures forall i :: i in Ids(s) ==> 0 < i < |ns|
    ensures forall i :: i in FrameIds(F) ==> 0 < i < |ns|
    ensures F != [] ==> F[0].id in FrameIds(F) && Ids(F[0].sibling) <= FrameIds(F) && FrameIds(F[1..]) <= FrameIds(F)
  {
    PlugStored(ns, s, F);
    PlugDistinct(s, F);
    PlugCounted(s, F);
    StoredBelow(ns, s, ParentOf(F));
    FramesStoredBelow(ns, F, IdOf(s));
  }

  /** The arena `ns'` has the records of `ns` everywhere except at the indices in `S`. */
  predicate Unchanged(ns: seq<RedBlackNode>, ns': seq<RedBlackNode>, S: set<int>)
  {
    |ns'| == |ns| && forall i :: 0 <= i < |ns| && i !in S ==> ns'[i] == ns[i]
  }

  /** A stored, counted subtree's root record: its link, and counters that add up to its size. */
  lemma {:induction false} StoredCounts(ns: seq<RedBlackNode>, t: Tree, p: int)
    requires Stored(ns, t, p) && Counted(t)
    ensures t.Leaf? <==> IdOf(t) == NIL
    ensures t.Node? ==> 0 < t.id < |ns| && ns[t.id].numLeft + ns[t.id].numRight + 1 == Size(t)
  {
  }

  /**
   * leftRotate's writes on the rotated subtree: x takes y's left subtree b
   * as its right child and y as its parent, b hangs below x, and y takes
   * x's parent and x as its left child.
   */
  lemma {:induction false} RotateLeftStored(ns: seq<RedBlackNode>, ns': seq<RedBlackNode>, s: Tree, p: int)
    requires Stored(ns, s, p) && Distinct(s) && s.Node? && s.right.Node? && |ns'| == |ns|
    requires ns'[s.id] == Record(RotateLeft(s).left.info, s.right.id, IdOf(s.left), IdOf(s.right.left))
    requires s.right.id < |ns| && ns'[s.right.id] == Record(RotateLeft(s).info, p, s.id, IdOf(s.right.right))
    requires s.right.left.Node? ==> s.right.left.id < |ns| && ns'[s.right.left.id] == ns[s.right.left.id].(parent := s.id)
    requires forall i :: i in Ids(s) && i < |ns| && i != s.id && i != s.right.id && i != IdOf(s.right.left) ==> ns'[i] == ns[i]
    ensures Stored(ns', RotateLeft(s), p)
  {
    var x := s.id;
    var y := s.right;
    var b := y.left;
    StoredBelow(ns, s, p);
    assert Distinct(y);
    assert b.Node? ==> b.id in Ids(y) && b.id !in Ids(y.right);
    assert Ids(s.left) + Ids(y.right) <= Ids(s) - {x, y.id, IdOf(b)};
    assert Agree(ns, ns', Ids(s.left));
    assert Agree(ns, ns', Ids(y.right));
    StoredAgree(ns, ns', s.left, x);
    StoredAgree(ns, ns', y.right, y.id);
    if b.Node? {
      assert Distinct(b);
      assert Ids(b.left) + Ids(b.right) <= Ids(s) - {x, y.id, b.id};
      assert Agree(ns, ns', Ids(b.left)) && Agree(ns, ns', Ids(b.right));
      StoredReparent(ns, ns', b, y.id, x);
    }
  }

  /** The mirror image of `RotateLeftStored`. */
  lemma {:induction false} RotateRightStored(ns: seq<RedBlackNode>, ns': seq<RedBlackNode>, s: Tree, p: int)
    requires Stored(ns, s, p) && Distinct(s) && s.Node? && s.left.Node? && |ns'| == |ns|
    requires ns'[s.id] == Record(RotateRight(s).right.info, s.left.id, IdOf(s.left.right), IdOf(s.right))
    requires s.left.id < |ns| && ns'[s.left.id] == Record(RotateRight(s).info, p, IdOf(s.left.left), s.id)
    requires s.left.right.Node? ==> s.left.right.id < |ns| && ns'[s.left.right.id] == ns[s.left.right.id].(parent := s.id)
    requires forall i :: i in Ids(s) && i < |ns| && i != s.id && i != s.left.id && i != IdOf(s.left.right) ==> ns'[i] == ns[i]
    ensures Stored(ns', RotateRight(s), p)
  {
    var x := s.id;
    var y := s.left;
    var b := y.right;
    StoredBelow(ns, s, p);
    assert Distinct(y);
    assert b.Node? ==> b.id in Ids(y) && b.id !in Ids(y.left);
    assert Ids(s.right) + Ids(y.left) <= Ids(s) - {x, y.id, IdOf(b)};
    assert Agree(ns, ns', Ids(s.right));
    assert Agree(ns, ns', Ids(y.left));
    StoredAgree(ns, ns', s.right, x);
    StoredAgree(ns, ns', y.left, y.id);
    if b.Node? {
      assert Distinct(b);
      assert Ids(b.left) + Ids(b.right) <= Ids(s) - {x, y.id, b.id};
      assert Agree(ns, ns', Ids(b.left)) && Agree(ns, ns', Ids(b.right));
      StoredReparent(ns, ns', b, y.id, x);
    }
  }

  /**
   * A subtree `s` under the frames `F` replaced by `r` over the same nodes
   * and keys, with the arena holding `r` and the nearest frame now linking
   * `r`'s root: the arena soundly holds the new whole tree.
   */
  lemma {:induction false} ReplaceArena(ns: seq<RedBlackNode>, ns': seq<RedBlackNode>, root: int, s: Tree, r: Tree, F: seq<Frame>)
    requires Sound(ns, Plug(s, F), root) && s.Node? && r.Node?
    requires |ns'| == |ns| && ns'[NIL] == ns[NIL]
    requires Distinct(r) && Counted(r) && Ids(r) == Ids(s) && Size(r) == Size(s)
    requires Stored(ns', r, ParentOf(F))
    requires F != [] ==> F[0].id < |ns| && ns'[F[0].id] == FrameRecord(F[0], ParentOf(F[1..]), r.id)
    requires forall i :: 0 < i < |ns| && i !in Ids(s) && i != ParentOf(F) ==> ns'[i] == ns[i]
    ensures Sound(ns', Plug(r, F), if F == [] then r.id else root)
  {
    Unplug(ns, root, s, F);
    if F != [] {
      assert Agree(ns, ns', Ids(F[0].sibling)) && Agree(ns, ns', FrameIds(F[1..]));
      FramesRelink(ns, ns', F, s.id, r.id);
    }
    PlugStored(ns', r, F);
    ReplaceSound(s, r, F);
    PlugRoot(r, F);
    PlugRoot(s, F);
  }

  /** What leftRotate reads around x before it writes. */
  lemma {:induction false} RotateLeftView(ns: seq<RedBlackNode>, root: int, s: Tree, F: seq<Frame>)
    requires Sound(ns, Plug(s, F), root) && s.Node? && s.right.Node?
    ensures Stored(ns, s, ParentOf(F)) && Counted(s) && s.right.id < |ns|
    ensures 0 < s.id < |ns| && ns[s.id].right == s.right.id && ns[s.right.id].left == IdOf(s.right.left)
    ensures ns[s.id].parent == ParentOf(F) && 0 <= ParentOf(F) < |ns| && 0 <= IdOf(s.right.left) < |ns|
    ensures ParentOf(F) == NIL <==> F == []
    ensures s.right.id != s.id && ParentOf(F) != s.id && ParentOf(F) != s.right.id
    ensures IdOf(s.right.left) !in {s.id, s.right.id, ParentOf(F)} || IdOf(s.right.left) == NIL
  {
    Unplug(ns, root, s, F);
    assert s.right.id in Ids(s) && Distinct(s.right);
    assert s.right.left.Node? ==> s.right.left.id in Ids(s.right);
  }

  /**
   * leftRotate as a whole: `ns1` is `ns` after the counter fixup and `ns2`
   * is `ns1` after the link writes; then `ns2` soundly holds the rotated tree.
   */
  lemma {:induction false} RotateLeftArena(ns: seq<RedBlackNode>, ns1: seq<RedBlackNode>, ns2: seq<RedBlackNode>, root: int, s: Tree, F: seq<Frame>)
    requires Sound(ns, Plug(s, F), root) && s.Node? && s.right.Node?
    requires s.id < |ns| && s.right.id < |ns|
    requires ns1 == ns
      [s.id := ns[s.id].(numLeft := Size(s.left), numRight := Size(s.right.left))]
      [s.right.id := ns[s.right.id].(numLeft := Size(s.left) + Size(s.right.left) + 1)]
    requires var x, y, b, p := s.id, s.right.id, IdOf(s.right.left), ParentOf(F);
      b < |ns1| && p < |ns1| &&
      Unchanged(ns1, ns2, {x, y, b, p}) && ns2[NIL] == ns1[NIL] &&
      ns2[x] == ns1[x].(right := b, parent := y) &&
      ns2[y] == ns1[y].(parent := p, left := x) &&
      (b != NIL ==> ns2[b] == ns1[b].(parent := x)) &&
      (p != NIL ==> ns2[p] == if ns1[p].left == x then ns1[p].(left := y) else ns1[p].(right := y))
    ensures Sound(ns2, Plug(RotateLeft(s), F), if F == [] then s.right.id else root)
    ensures |ns2| == |ns| && ns2[NIL] == ns[NIL]
  {
    var x, y, b, p := s.id, s.right.id, IdOf(s.right.left), ParentOf(F);
    Unplug(ns, root, s, F);
    RotateLeftKeeps(s);
    assert y in Ids(s) && Distinct(s.right);
    assert s.right.left.Node? ==> b in Ids(s.right);
    assert ns2[x] == Record(RotateLeft(s).left.info, y, IdOf(s.left), b);
    assert ns2[y] == Record(RotateLeft(s).info, p, x, IdOf(s.right.right));
    if F != [] {
      assert ns[p] == FrameRecord(F[0], ParentOf(F[1..]), x);
      assert ns2[p] == FrameRecord(F[0], ParentOf(F[1..]), y);
    }
    RotateLeftStored(ns, ns2, s, p);
    ReplaceArena(ns, ns2, root, s, RotateLeft(s), F);
  }

  /** What rightRotate reads around y before it writes. */
  lemma {:induction false} RotateRightView(ns: seq<RedBlackNode>, root: int, s: Tree, F: seq<Frame>)
    requires Sound(ns, Plug(s, F), root) && s.Node? && s.left.Node?
    ensures Stored(ns, s, ParentOf(F)) && Counted(s) && s.left.id < |ns|
    ensures 0 < s.id < |ns| && ns[s.id].left == s.left.id && ns[s.left.id].right == IdOf(s.left.right)
    ensures ns[s.id].parent == ParentOf(F) && 0 <= ParentOf(F) < |ns| && 0 <= IdOf(s.left.right) < |ns|
    ensures ParentOf(F) == NIL <==> F == []
    ensures s.left.id != s.id && ParentOf(F) != s.id && ParentOf(F) != s.left.id
    ensures IdOf(s.left.right) !in {s.id, s.left.id, ParentOf(F)} || IdOf(s.left.right) == NIL
  {
    Unplug(ns, root, s, F);
    assert s.left.id in Ids(s) && Distinct(s.left);
    assert s.left.right.Node? ==> s.left.right.id in Ids(s.left);
  }

  /** The mirror image of `RotateLeftArena`. */
  lemma {:induction false} RotateRightArena(ns: seq<RedBlackNode>, ns1: seq<RedBlackNode>, ns2: seq<RedBlackNode>, root: int, s: Tree, F: seq<Frame>)
    requires Sound(ns, Plug(s, F), root) && s.Node? && s.left.Node?
    requires s.id < |ns| && s.left.id < |ns|
    requires ns1 == ns
      [s.id := ns[s.id].(numRight := Size(s.right), numLeft := Size(s.left.right))]
      [s.left.id := ns[s.left.id].(numRight := Size(s.right) + Size(s.left.right) + 1)]
    requires var y, x, b, p := s.id, s.left.id, IdOf(s.left.right), ParentOf(F);
      b < |ns1| && p < |ns1| &&
      Unchanged(ns1, ns2, {y, x, b, p}) && ns2[NIL] == ns1[NIL] &&
      ns2[y] == ns1[y].(left := b, parent := x) &&
      ns2[x] == ns1[x].(parent := p, right := y) &&
      (b != NIL ==> ns2[b] == ns1[b].(parent := y)) &&
      (p != NIL ==> ns2[p] == if ns1[p].right == y then ns1[p].(right := x) else ns1[p].(left := x))
    ensures Sound(ns2, Plug(RotateRight(s), F), if F == [] then s.left.id else root)
    ensures |ns2| == |ns| && ns2[NIL] == ns[NIL]
  {
    var y, x, b, p := s.id, s.left.id, IdOf(s.left.right), ParentOf(F);
    Unplug(ns, root, s, F);
    RotateRightKeeps(s);
    assert x in Ids(s) && Distinct(s.left);
    assert s.left.right.Node? ==> b in Ids(s.left);
    assert ns2[y] == Record(RotateRight(s).right.info, x, b, IdOf(s.right));
    assert ns2[x] == Record(RotateRight(s).info, p, IdOf(s.left.left), y);
    if F != [] {
      assert ns[p] == FrameRecord(F[0], ParentOf(F[1..]), y);
      assert ns2[p] == FrameRecord(F[0], ParentOf(F[1..]), x);
    }
    RotateRightStored(ns, ns2, s, p);
    ReplaceArena(ns, ns2, root, s, RotateRight(s), F);
  }

  /** Overwriting one node's data (not its links) moves a held arena to the picture with the new data. */
  lemma {:induction false} InfoArena(ns: seq<RedBlackNode>, ns': seq<RedBlackNode>, root: int, s: Tree, i: Info, F: seq<Frame>)
    requires Held(ns, Plug(s, F), root) && s.Node? && s.id < |ns|
    requires ns' == ns[s.id := Record(i, ParentOf(F), IdOf(s.left), IdOf(s.right))]
    ensures Held(ns', Plug(s.(info := i), F), root)
    ensures Ids(Plug(s.(info := i), F)) == Ids(Plug(s, F))
  {
    var s' := s.(info := i);
    PlugStored(ns, s, F);
    PlugDistinct(s, F);
    PlugIds(s, F);
    PlugIds(s', F);
    assert Agree(ns, ns', Ids(s.left)) && Agree(ns, ns', Ids(s.right));
    StoredAgree(ns, ns', s.left, s.id);
    StoredAgree(ns, ns', s.right, s.id);
    assert Agree(ns, ns', FrameIds(F));
    FramesStoredAgree(ns, ns', F, s.id);
    PlugStored(ns', s', F);
    PlugDistinct(s', F);
    PlugRoot(s, F);
    PlugRoot(s', F);
  }

  /** Overwriting one node's colour keeps a sound arena sound, over the repainted picture. */
  lemma {:induction false} PaintArena(ns: seq<RedBlackNode>, root: int, s: Tree, c: Color, F: seq<Frame>)
    requires Sound(ns, Plug(s, F), root) && s.Node? && s.id < |ns|
    ensures Sound(ns[s.id := ns[s.id].(color := c)], Plug(Paint(s, c), F), root)
    ensures InOrder(Plug(Paint(s, c), F)) == InOrder(Plug(s, F))
  {
    Unplug(ns, root, s, F);
    InfoArena(ns, ns[s.id := ns[s.id].(color := c)], root, s, s.info.(color := c), F);
    PlugCounted(s, F);
    PlugCounted(Paint(s, c), F);
    ReplaceInOrder(s, Paint(s, c), F);
  }

  /**
   * What a node reads about its parent: the parent's record links the node
   * on the frame's side, and the sibling on the other.
   */
  lemma {:induction false} ParentView(ns: seq<RedBlackNode>, root: int, s: Tree, F: seq<Frame>)
    requires Sound(ns, Plug(s, F), root) && F != []
    ensures 0 < F[0].id < |ns| && ns[F[0].id] == FrameRecord(F[0], ParentOf(F[1..]), IdOf(s))
    ensures ns[F[0].id].color == F[0].info.color && ns[F[0].id].key == F[0].info.key
    ensures s.Node? ==> 0 < s.id < |ns| && ns[s.id].parent == F[0].id
    ensures s.Node? ==> (ns[F[0].id].left == s.id <==> F[0].isLeft)
    ensures s.Node? ==> (ns[F[0].id].right == s.id <==> !F[0].isLeft)
    ensures 0 <= IdOf(F[0].sibling) < |ns| && ns[IdOf(F[0].sibling)].color == ColorOf(F[0].sibling)
    ensures F[1..] == [] <==> ParentOf(F[1..]) == NIL
  {
    Unplug(ns, root, s, F);
    if s.Node? {
      assert s.id in Ids(s);
    }
    if F[0].sibling.Node? {
      assert F[0].sibling.id in Ids(F[0].sibling);
    }
    if F[1..] != [] {
      assert F[1..][0].id in FrameIds(F[1..]);
    }
  }

  /** Appending a record to the arena (allocating a node) keeps what it holds; the new index is free. */
  lemma {:induction false} Grow(ns: seq<RedBlackNode>, t: Tree, root: int, n: RedBlackNode)
    requires Sound(ns, t, root)
    ensures Sound(ns + [n], t, root) && |ns| !in Ids(t)
  {
    StoredBelow(ns, t, NIL);
    assert Agree(ns, ns + [n], Ids(t));
    StoredAgree(ns, ns + [n], t, NIL);
  }

  /** What a node `s` under the frames `F` reads of itself and its parent. */
  lemma {:induction false} FocusView(ns: seq<RedBlackNode>, root: int, s: Tree, F: seq<Frame>)
    requires Sound(ns, Plug(s, F), root) && s.Node?
    ensures 0 < s.id < |ns| && ns[s.id].parent == ParentOf(F) && 0 <= ParentOf(F) < |ns|
    ensures ns[s.id].color == s.info.color && ns[s.id].key == s.info.key
    ensures ns[ParentOf(F)].color == if F == [] then BLACK else F[0].info.color
    ensures ParentOf(F) == NIL <==> F == []
  {
    Unplug(ns, root, s, F);
    if F != [] {
      assert F[0].id in FrameIds(F);
    }
  }

  /**
   * What insertFixup reads two levels up from `s`: its parent `p`, its
   * grandparent `g`, the side each hangs from, and the uncle (g's other child).
   */
  lemma {:induction false} GrandparentView(ns: seq<RedBlackNode>, root: int, s: Tree, F: seq<Frame>)
    requires Sound(ns, Plug(s, F), root) && s.Node? && |F| >= 2
    ensures var p, g := F[0].id, F[1].id;
      0 < s.id < |ns| && 0 < p < |ns| && 0 < g < |ns| &&
      ns[s.id].parent == p && ns[p].parent == g &&
      (ns[p].right == s.id <==> !F[0].isLeft) && (ns[p].left == s.id <==> F[0].isLeft) &&
      (ns[g].left == p <==> F[1].isLeft) &&
      ns[g].right == (if F[1].isLeft then IdOf(F[1].sibling) else p) &&
      ns[g].left == (if F[1].isLeft then p else IdOf(F[1].sibling)) &&
      0 <= IdOf(F[1].sibling) < |ns| && ns[IdOf(F[1].sibling)].color == ColorOf(F[1].sibling)
  {
    ParentView(ns, root, s, F);
    Refocus(s, F);
    ParentView(ns, root, Attach(s, F[0]), F[1..]);
    assert F[1..][0] == F[1] && F[1..][1..] == F[2..];
  }
}
