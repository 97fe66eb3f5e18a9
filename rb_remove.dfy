/**
 * remove of src/redBlackTree/RedBlackTree.java on the tree picture: which
 * node is spliced out, what the in-order keys become, how fixNodeData
 * walks back to the root mending the counters, and how removeFixup
 * restores the colour rules one case at a time.
 *
 * The spliced node `y` sits under the frames `FY`; its child `x` (possibly
 * the sentinel) takes its place.  When `y` is the successor of the node
 * `z` holding the key, z's frame in `FY` also receives y's key.
 */
module RedBlackRemoval {
  import opened SortedSeqs
  import opened RedBlackNodes
  import opened RedBlackShapes
  import opened RedBlackRotations
  import opened RedBlackColors
  import opened RedBlackArena
  import opened RedBlackInsertion
  import opened RedBlackQueries

  // ---------------------------------------------------------------------
  // Paths and keys

  /** Plugging through two runs of frames is plugging through their concatenation. */
  lemma {:induction false} PlugAppend(s: Tree, A: seq<Frame>, B: seq<Frame>)
    ensures Plug(s, A + B) == Plug(Plug(s, A), B)
    decreases |A|
  {
    if A == [] {
      assert A + B == B;
    } else {
      assert (A + B)[0] == A[0] && (A + B)[1..] == A[1..] + B;
      PlugAppend(Attach(s, A[0]), A[1..], B);
    }
  }

  /** The left path to the minimum of `t` does not depend on the frames above `t`. */
  lemma {:induction false} LeftPathAppend(t: Tree, F: seq<Frame>)
    requires t.Node?
    ensures LeftPath(t, F) == LeftPath(t, []) + F
  {
    if t.left.Node? {
      var f := Frame(true, t.id, t.info, t.right);
      LeftPathAppend(t.left, [f] + F);
      LeftPathAppend(t.left, [f]);
      assert [f] + [] == [f];
      assert LeftPath(t.left, []) + ([f] + F) == LeftPath(t.left, []) + [f] + F;
    } else {
      assert [] + F == F;
    }
  }

  /**
   * Taking the minimum of `t` out of its place and hanging its right subtree
   * there removes exactly the first key of `t` from the in-order.
   */
  lemma {:induction false} LeftPathDrop(t: Tree, F: seq<Frame>)
    requires t.Node?
    ensures InOrder(t) != [] && InOrder(t)[0] == Leftmost(t).info.key
    ensures InOrder(Plug(Leftmost(t).right, LeftPath(t, F))) == LeftKeys(F) + InOrder(t)[1..] + RightKeys(F)
  {
    LeftmostIsFirst(t);
    if t.left.Leaf? {
      PlugInOrder(t.right, F);
      assert InOrder(t) == [t.info.key] + InOrder(t.right);
    } else {
      var G := [Frame(true, t.id, t.info, t.right)] + F;
      LeftPathDrop(t.left, G);
      assert G[1..] == F;
      assert LeftKeys(G) == LeftKeys(F);
      assert RightKeys(G) == [t.info.key] + InOrder(t.right) + RightKeys(F);
      assert InOrder(t)[1..] == InOrder(t.left)[1..] + [t.info.key] + InOrder(t.right);
    }
  }

  /**
   * In a tree whose keys strictly increase in in-order, a key of a subtree
   * differs from every key on the path above it, and lies left of exactly
   * the frames whose node hangs the subtree on its left.
   */
  lemma {:induction false} PathRoutes(s: Tree, F: seq<Frame>, k: int)
    requires Increasing(InOrder(Plug(s, F))) && k in InOrder(s)
    ensures forall i :: 0 <= i < |F| ==> F[i].info.key != k && (F[i].isLeft <==> k < F[i].info.key)
    decreases |F|
  {
    if F != [] {
      var a := Attach(s, F[0]);
      assert k in InOrder(a);
      PathRoutes(a, F[1..], k);
      PlugInOrder(a, F[1..]);
      IncreasingMiddle(LeftKeys(F[1..]), InOrder(a), RightKeys(F[1..]));
      if F[0].isLeft {
        IncreasingAround(InOrder(s), F[0].info.key, InOrder(F[0].sibling));
      } else {
        IncreasingAround(InOrder(F[0].sibling), F[0].info.key, InOrder(s));
      }
      forall i | 0 < i < |F|
        ensures F[i].info.key != k && (F[i].isLeft <==> k < F[i].info.key)
      {
        assert F[i] == F[1..][i - 1];
      }
    }
  }

  // ---------------------------------------------------------------------
  // The node remove splices out

  /** The surviving child of a node with at most one child. */
  function OnlyChild(y: Tree): Tree
    requires y.Node?
  {
    if y.left.Node? then y.left else y.right
  }

  /**
   * Splicing the node `y` out from under the frames `F` takes the key `k`
   * out of the tree `T`: the tree left behind has the counters of its
   * subtree right and those of the path one too high, the path routes
   * fixNodeData to `y`, the colour rules hold around `y`, and the in-order
   * keys are T's without `k`, still strictly increasing.
   */
  predicate Detaches(T: Tree, k: int, y: Tree, F: seq<Frame>)
  {
    DetachedShape(y, F) && FramesRouted(F, y.info.key) && DetachedKeys(T, k, y, F)
  }

  predicate DetachedShape(y: Tree, F: seq<Frame>)
  {
    y.Node? && (y.left.Leaf? || y.right.Leaf?) &&
    Counted(OnlyChild(y)) && FramesCounted(F, Size(OnlyChild(y)) + 1) &&
    Well(y) && FramesOk(F, y.info.color, BlackHeight(y)) && TopBlack(F) && (F == [] ==> y.info.color == BLACK)
  }

  predicate DetachedKeys(T: Tree, k: int, y: Tree, F: seq<Frame>)
    requires y.Node?
  {
    Increasing(InOrder(Plug(OnlyChild(y), F))) &&
    multiset(InOrder(Plug(OnlyChild(y), F))) == multiset(InOrder(T)) - multiset{k}
  }

  /** The shape and colour facts of `Detaches`, for a node `y` of a red-black tree. */
  lemma DetachShape(y: Tree, F: seq<Frame>)
    requires y.Node? && (y.left.Leaf? || y.right.Leaf?)
    requires Counted(Plug(y, F)) && RedBlack(Plug(y, F))
    ensures DetachedShape(y, F)
  {
    PlugCounted(y, F);
    PlugWell(y, F);
    PlugRoot(y, F);
    if F != [] {
      PlugColor(y, F);
    }
  }

  /** A key of `y` that no frame above it holds routes fixNodeData down to `y`. */
  lemma RoutesToSelf(y: Tree, F: seq<Frame>)
    requires y.Node? && Increasing(InOrder(Plug(y, F)))
    ensures FramesRouted(F, y.info.key)
  {
    assert y.info.key in InOrder(y);
    PathRoutes(y, F, y.info.key);
  }

  lemma Regroup<T>(a: seq<T>, b: seq<T>, c: seq<T>)
    ensures a + (b + c) == a + b + c
  {
  }

  /** Splicing out `y` itself takes exactly y's key out of the in-order. */
  lemma DropSelf(y: Tree, F: seq<Frame>)
    requires y.Node? && (y.left.Leaf? || y.right.Leaf?) && Increasing(InOrder(Plug(y, F)))
    ensures DetachedKeys(Plug(y, F), y.info.key, y, F)
  {
    var k, x := y.info.key, OnlyChild(y);
    var L, M, R := LeftKeys(F), InOrder(x), RightKeys(F);
    PlugInOrder(y, F);
    PlugInOrder(x, F);
    assert InOrder(Plug(x, F)) == L + M + R;
    if y.left.Leaf? {
      assert InOrder(y) == [k] + M;
      assert InOrder(Plug(y, F)) == L + [k] + (M + R);
      DropOne(L, k, M + R);
      Regroup(L, M, R);
    } else {
      assert InOrder(y) == M + [k];
      assert InOrder(Plug(y, F)) == (L + M) + [k] + R;
      DropOne(L + M, k, R);
    }
  }

  /**
   * remove when the node `y` holding the key has at most one child: `y`
   * itself is spliced out.
   */
  lemma DetachSelf(y: Tree, F: seq<Frame>)
    requires y.Node? && (y.left.Leaf? || y.right.Leaf?)
    requires Counted(Plug(y, F)) && RedBlack(Plug(y, F)) && Increasing(InOrder(Plug(y, F)))
    ensures Detaches(Plug(y, F), y.info.key, y, F)
  {
    DetachShape(y, F);
    RoutesToSelf(y, F);
    DropSelf(y, F);
  }

  /**
   * remove when the node `z` holding the key has two children: its
   * successor `y`, the minimum of z's right subtree, is spliced out from
   * under the left path down to it, and z's frame on that path takes y's key.
   */
  lemma DetachSuccessor(z: Tree, F: seq<Frame>)
    requires z.Node? && z.left.Node? && z.right.Node?
    requires Counted(Plug(z, F)) && RedBlack(Plug(z, F)) && Increasing(InOrder(Plug(z, F)))
    ensures var y, f := Leftmost(z.right), Frame(false, z.id, z.info, z.left);
      y.left.Leaf? && Plug(y, LeftPath(z.right, [f] + F)) == Plug(z, F) &&
      Detaches(Plug(z, F), z.info.key, y, LeftPath(z.right, [f.(info := f.info.(key := y.info.key))] + F))
  {
    var R, y, f := z.right, Leftmost(z.right), Frame(false, z.id, z.info, z.left);
    var f' := f.(info := f.info.(key := y.info.key));
    SuccessorPath(z, F);
    RekeyedSound(z, z.(info := z.info.(key := y.info.key)), F);
    DetachShape(y, LeftPath(R, [f'] + F));
    SuccessorRoutes(z, F);
    DropSuccessor(z, F);
  }

  /** The whole tree through the left path to z's successor, before and after the key copy. */
  lemma SuccessorPath(z: Tree, F: seq<Frame>)
    requires z.Node? && z.right.Node?
    ensures var y, f := Leftmost(z.right), Frame(false, z.id, z.info, z.left);
      var f' := f.(info := f.info.(key := y.info.key));
      y.left.Leaf? && Plug(y, LeftPath(z.right, [f] + F)) == Plug(z, F) &&
      Plug(y, LeftPath(z.right, [f'] + F)) == Plug(z.(info := z.info.(key := y.info.key)), F)
  {
    var R, y, f := z.right, Leftmost(z.right), Frame(false, z.id, z.info, z.left);
    var f' := f.(info := f.info.(key := y.info.key));
    LeftPathPlug(R, [f] + F);
    LeftPathPlug(R, [f'] + F);
    PlugOne(R, f, F);
    PlugOne(R, f', F);
  }

  /** The left path to z's successor, z's frame rekeyed, routes fixNodeData to the successor. */
  lemma SuccessorRoutes(z: Tree, F: seq<Frame>)
    requires z.Node? && z.left.Node? && z.right.Node? && Increasing(InOrder(Plug(z, F)))
    ensures var y, f := Leftmost(z.right), Frame(false, z.id, z.info, z.left);
      FramesRouted(LeftPath(z.right, [f.(info := f.info.(key := y.info.key))] + F), y.info.key)
  {
    var R, y, f := z.right, Leftmost(z.right), Frame(false, z.id, z.info, z.left);
    var k := y.info.key;
    var f' := f.(info := f.info.(key := k));
    SuccessorPath(z, F);
    assert k in InOrder(y) by {
      assert InOrder(y) == InOrder(y.left) + [k] + InOrder(y.right);
    }
    PathRoutes(y, LeftPath(R, [f] + F), k);
    var P := LeftPath(R, []);
    LeftPathAppend(R, [f] + F);
    LeftPathAppend(R, [f'] + F);
    Regroup(P, [f], F);
    Regroup(P, [f'], F);
    RekeyRoutes(P, f, F, k);
  }

  /** Splicing out z's successor after copying its key into z takes exactly z's key out. */
  lemma {:induction false} DropSuccessor(z: Tree, F: seq<Frame>)
    requires z.Node? && z.right.Node? && Increasing(InOrder(Plug(z, F)))
    ensures var y, f := Leftmost(z.right), Frame(false, z.id, z.info, z.left);
      y.Node? && DetachedKeys(Plug(z, F), z.info.key, y, LeftPath(z.right, [f.(info := f.info.(key := y.info.key))] + F))
  {
    var R, y, f := z.right, Leftmost(z.right), Frame(false, z.id, z.info, z.left);
    var k := y.info.key;
    var f' := f.(info := f.info.(key := k));
    LeftPathDrop(R, [f'] + F);
    PlugInOrder(z, F);
    var L, ZL, Rt, RK := LeftKeys(F), InOrder(z.left), InOrder(R)[1..], RightKeys(F);
    assert ([f'] + F)[0] == f' && ([f'] + F)[1..] == F;
    assert LeftKeys([f'] + F) == L + ZL + [k] && RightKeys([f'] + F) == RK;
    assert InOrder(R) == [k] + Rt;
    assert InOrder(z) == ZL + [z.info.key] + ([k] + Rt);
    RegroupAround(L, ZL, z.info.key, k, Rt, RK);
    DropOne(L + ZL, z.info.key, [k] + Rt + RK);
  }

  lemma RegroupAround(L: seq<int>, ZL: seq<int>, v: int, k: int, Rt: seq<int>, RK: seq<int>)
    ensures L + (ZL + [v] + ([k] + Rt)) + RK == (L + ZL) + [v] + ([k] + Rt + RK)
    ensures L + ZL + [k] + Rt + RK == (L + ZL) + ([k] + Rt + RK)
  {
  }

  /** Rekeying the root of a subtree keeps the counters and the colour rules of the whole tree. */
  lemma RekeyedSound(z: Tree, z': Tree, F: seq<Frame>)
    requires z.Node? && z'.Node? && z' == z.(info := z.info.(key := z'.info.key))
    requires Counted(Plug(z, F)) && RedBlack(Plug(z, F))
    ensures Counted(Plug(z', F)) && RedBlack(Plug(z', F))
  {
    PlugCounted(z, F);
    PlugCounted(z', F);
    PlugWell(z, F);
    PlugWell(z', F);
    PlugRoot(z, F);
    PlugRoot(z', F);
  }

  // ---------------------------------------------------------------------
  // fixNodeData

  /** How fixNodeData must route at a frame, given the key `k` of the node taken out. */
  predicate FixRoute(f: Frame, k: int)
  {
    if f.info.key == k then !f.isLeft && f.sibling.Node? else (f.isLeft <==> k < f.info.key)
  }

  predicate FramesRouted(F: seq<Frame>, k: int)
  {
    forall i :: 0 <= i < |F| ==> FixRoute(F[i], k)
  }

  /**
   * One step of fixNodeData at the node record `n`: `k` is the key of the
   * node taken out and `track` the node the walk came up from.
   */
  function FixNode(n: RedBlackNode, k: int, track: int): RedBlackNode
  {
    if k != n.key then
      var n' := if k > n.key then n.(numRight := n.numRight - 1) else n;
      if k < n'.key then n'.(numLeft := n'.numLeft - 1) else n'
    else if n.left == NIL then n.(numLeft := n.numLeft - 1)
    else if n.right == NIL then n.(numRight := n.numRight - 1)
    else if track == n.right then n.(numRight := n.numRight - 1)
    else if track == n.left then n.(numLeft := n.numLeft - 1)
    else n
  }

  /** A frame whose counter on the path side counts `n` nodes. */
  function Fix(f: Frame, n: nat): Frame
  {
    if f.isLeft then f.(info := f.info.(numLeft := n)) else f.(info := f.info.(numRight := n))
  }

  /** The frames above a subtree of `n` nodes with their path-side counters recounted. */
  function Recount(F: seq<Frame>, n: nat): seq<Frame>
    decreases |F|
  {
    if F == [] then [] else [Fix(F[0], n)] + Recount(F[1..], n + 1 + Size(F[0].sibling))
  }

  /**
   * At a frame routed for `k` whose path-side counter is one too many, the
   * step of fixNodeData decrements exactly that counter.
   */
  lemma FixNodeDecides(S: Tree, f: Frame, p: int, k: int, track: int)
    requires FixRoute(f, k) && (if f.isLeft then f.info.numLeft else f.info.numRight) == Size(S) + 1
    requires (IdOf(S) == NIL <==> S.Leaf?) && (f.sibling.Node? ==> IdOf(f.sibling) != NIL)
    requires S.Node? ==> track == IdOf(S)
    ensures var a := Attach(S, f);
      FixNode(Record(a.info, p, IdOf(a.left), IdOf(a.right)), k, track) ==
      Record(Fix(f, Size(S)).info, p, IdOf(a.left), IdOf(a.right))
  {
  }

  /** The node of the nearest frame above a held subtree is a node of the arena, not the sentinel. */
  lemma {:induction false} FrameHeld(ns: seq<RedBlackNode>, root: int, S: Tree, F: seq<Frame>)
    requires Held(ns, Plug(S, F), root)
    ensures F != [] ==> 0 < F[0].id < |ns|
  {
    if F != [] {
      Refocus(S, F);
      CursorView(ns, root, Attach(S, F[0]), F[1..]);
    }
  }

  /**
   * The walk of fixNodeData moves up one frame: the node it leaves behind
   * has its counters right, and the arena holds the same tree otherwise.
   */
  lemma {:induction false} FixStep(ns: seq<RedBlackNode>, ns': seq<RedBlackNode>, root: int, S: Tree, F: seq<Frame>, k: int, track: int)
    requires Held(ns, Plug(S, F), root) && F != [] && Counted(S) && FramesCounted(F, Size(S) + 1)
    requires FixRoute(F[0], k) && (S.Node? ==> track == IdOf(S))
    requires F[0].id < |ns| && ns' == ns[F[0].id := FixNode(ns[F[0].id], k, track)]
    ensures var S' := Attach(S, Fix(F[0], Size(S)));
      Held(ns', Plug(S', F[1..]), root) && Counted(S') && FramesCounted(F[1..], Size(S') + 1) &&
      Ids(Plug(S', F[1..])) == Ids(Plug(S, F)) && F[0].id in Ids(Plug(S, F)) &&
      ns'[F[0].id].parent == ParentOf(F[1..]) && |ns'| == |ns| && ns'[NIL] == ns[NIL]
  {
    Refocus(S, F);
    var a := Attach(S, F[0]);
    CursorView(ns, root, a, F[1..]);
    FixNodeDecides(S, F[0], ParentOf(F[1..]), k, track);
    var i := Fix(F[0], Size(S)).info;
    InfoArena(ns, ns', root, a, i, F[1..]);
    assert a.(info := i) == Attach(S, Fix(F[0], Size(S)));
    PlugIds(a, F[1..]);
  }

  /**
   * What holds at each step of fixNodeData's walk: the arena holds the
   * subtree `S` (already mended) under the frames `F` (still to mend), each
   * frame routed for the removed key `k`, and `track` is the node of `S`.
   */
  ghost predicate FixWalk(ns: seq<RedBlackNode>, root: int, S: Tree, F: seq<Frame>, k: int, track: int)
  {
    Held(ns, Plug(S, F), root) && Counted(S) && FramesCounted(F, Size(S) + 1) &&
    FramesRouted(F, k) && (S.Node? ==> track == IdOf(S))
  }

  /** One step of fixNodeData's walk keeps `FixWalk` one frame higher and the recounted tree the same. */
  lemma {:induction false} FixWalkStep(ns: seq<RedBlackNode>, ns': seq<RedBlackNode>, root: int, S: Tree, F: seq<Frame>, k: int, track: int)
    requires FixWalk(ns, root, S, F, k, track) && F != []
    requires F[0].id < |ns| && ns' == ns[F[0].id := FixNode(ns[F[0].id], k, track)]
    ensures var S' := Attach(S, Fix(F[0], Size(S)));
      FixWalk(ns', root, S', F[1..], k, F[0].id) &&
      Plug(S', Recount(F[1..], Size(S'))) == Plug(S, Recount(F, Size(S))) &&
      Ids(Plug(S', F[1..])) == Ids(Plug(S, F)) && F[0].id in Ids(Plug(S, F)) &&
      ns'[F[0].id].parent == ParentOf(F[1..]) && |ns'| == |ns| && ns'[NIL] == ns[NIL]
  {
    FixStep(ns, ns', root, S, F, k, track);
    RecountPlug(S, F);
    assert FramesRouted(F[1..], k) by {
      forall i | 0 <= i < |F[1..]|
        ensures FixRoute(F[1..][i], k)
      {
        assert F[1..][i] == F[i + 1];
      }
    }
  }

  /** fixNodeData's ghost bookkeeping: recounting from `S` is recounting from one frame higher. */
  lemma RecountPlug(S: Tree, F: seq<Frame>)
    requires F != []
    ensures Plug(S, Recount(F, Size(S))) ==
      Plug(Attach(S, Fix(F[0], Size(S))), Recount(F[1..], Size(Attach(S, Fix(F[0], Size(S))))))
  {
    var R := Recount(F, Size(S));
    assert R[0] == Fix(F[0], Size(S));
    assert R[1..] == Recount(F[1..], Size(Attach(S, Fix(F[0], Size(S)))));
  }

  /** Recounting keeps the length, the sides, the ids and the colour of the farthest frame. */
  lemma {:induction false} RecountShape(F: seq<Frame>, n: nat)
    ensures |Recount(F, n)| == |F| && ParentOf(Recount(F, n)) == ParentOf(F)
    ensures TopBlack(Recount(F, n)) == TopBlack(F)
    ensures F != [] ==> Recount(F, n)[0].isLeft == F[0].isLeft && Recount(F, n)[0].sibling == F[0].sibling
    decreases |F|
  {
    if F != [] {
      var R := Recount(F, n);
      var n' := n + 1 + Size(F[0].sibling);
      assert R[1..] == Recount(F[1..], n');
      RecountShape(F[1..], n');
      if |F| > 1 {
        assert R[|R| - 1] == R[1..][|R[1..]| - 1];
        assert F[|F| - 1] == F[1..][|F[1..]| - 1];
      }
    }
  }

  /** Recounting keeps the keys on both sides of the path. */
  lemma {:induction false} RecountKeys(F: seq<Frame>, n: nat)
    ensures LeftKeys(Recount(F, n)) == LeftKeys(F) && RightKeys(Recount(F, n)) == RightKeys(F)
    decreases |F|
  {
    if F != [] {
      var n' := n + 1 + Size(F[0].sibling);
      assert Recount(F, n)[1..] == Recount(F[1..], n');
      RecountKeys(F[1..], n');
    }
  }

  /** Recounting keeps the colour rules the frames obey. */
  lemma {:induction false} RecountColors(F: seq<Frame>, n: nat, c: Color, h: nat)
    ensures FramesOk(Recount(F, n), c, h) == FramesOk(F, c, h)
    decreases |F|
  {
    if F != [] {
      var n' := n + 1 + Size(F[0].sibling);
      assert Recount(F, n)[1..] == Recount(F[1..], n');
      RecountColors(F[1..], n', F[0].info.color, h + Inc(F[0].info.color));
    }
  }

  /** The frames on the old path of the node taken out, routed and rekeyed as remove leaves them. */
  lemma RekeyRoutes(P: seq<Frame>, f: Frame, G: seq<Frame>, k: int)
    requires forall i :: 0 <= i < |P + [f] + G| ==>
      (P + [f] + G)[i].info.key != k && ((P + [f] + G)[i].isLeft <==> k < (P + [f] + G)[i].info.key)
    requires !f.isLeft && f.sibling.Node?
    ensures FramesRouted(P + [f.(info := f.info.(key := k))] + G, k)
  {
    var A, B := P + [f] + G, P + [f.(info := f.info.(key := k))] + G;
    forall i | 0 <= i < |B| ensures FixRoute(B[i], k) {
      if i != |P| {
        assert B[i] == A[i];
      }
    }
  }

  // ---------------------------------------------------------------------
  // removeFixup

  /** A subtree with its root painted BLACK; an empty subtree is BLACK already. */
  function Blacken(t: Tree): (r: Tree)
    ensures ColorOf(r) == BLACK && InOrder(r) == InOrder(t) && Ids(r) == Ids(t)
  {
    if t.Leaf? then t else Paint(t, BLACK)
  }

  /**
   * The removeFixup invariant: the subtree at x would keep the colour rules
   * with its root BLACK, yet it is one BLACK node short of what the frames
   * above it need; apart from that the frames keep the rules and the root
   * is BLACK.  A RED x is that missing BLACK node, which painting it adds.
   */
  predicate RemoveFixupInv(x: Tree, F: seq<Frame>)
  {
    Well(Blacken(x)) && FramesOk(F, BLACK, BlackHeight(x) + 1) && TopBlack(F)
  }

  /** Frames that accept a subtree of some colour accept a BLACK one of the same height. */
  lemma FramesOkBlack(F: seq<Frame>, c: Color, h: nat)
    requires FramesOk(F, c, h)
    ensures FramesOk(F, BLACK, h)
  {
  }

  /** Painting a root BLACK keeps both colour rules. */
  lemma BlackenWell(t: Tree)
    requires Well(t)
    ensures Well(Blacken(t))
  {
  }

  /**
   * Splicing out a node `y` with at most one child `x`: a BLACK `y` leaves
   * the removeFixup invariant at `x`, and a RED `y` (which then had no child)
   * leaves a red-black tree without any repair.
   */
  lemma RemoveFixupStarts(y: Tree, x: Tree, F: seq<Frame>)
    requires y.Node? && Well(y) && (y.left.Leaf? || y.right.Leaf?)
    requires x == if y.left.Node? then y.left else y.right
    requires FramesOk(F, y.info.color, BlackHeight(y)) && TopBlack(F) && (F == [] ==> y.info.color == BLACK)
    ensures y.info.color == BLACK ==> RemoveFixupInv(x, F)
    ensures y.info.color == RED ==> RedBlack(Plug(x, F))
  {
    if y.info.color == RED {
      FramesOkBlack(F, RED, BlackHeight(y));
      PlugWell(x, F);
      PlugColor(x, F);
    } else {
      BlackenWell(x);
    }
  }

  /** When the loop stops, at the root or at a RED x, painting x BLACK leaves a red-black tree. */
  lemma RemoveFixupEnds(x: Tree, F: seq<Frame>)
    requires RemoveFixupInv(x, F) && (F == [] || ColorOf(x) == RED)
    ensures RedBlack(Plug(Blacken(x), F))
  {
    PlugWell(Blacken(x), F);
    if F != [] {
      PlugColor(Blacken(x), F);
    }
  }

  /** Inside the loop x is BLACK, so its sibling w is a node one BLACK level higher. */
  lemma FixupSibling(x: Tree, F: seq<Frame>)
    requires RemoveFixupInv(x, F) && F != [] && ColorOf(x) == BLACK
    ensures Blacken(x) == x && Well(x)
    ensures F[0].sibling.Node? && Well(F[0].sibling) && BlackHeight(F[0].sibling) == BlackHeight(x) + 1
  {
  }

  /**
   * Case 1, x a left child and its sibling w RED: w turns BLACK, the parent
   * RED, and a left rotation at the parent gives x a BLACK sibling.
   */
  lemma RemoveRedSiblingLeft(x: Tree, F: seq<Frame>)
    requires RemoveFixupInv(x, F) && F != [] && F[0].isLeft && ColorOf(x) == BLACK
    requires ColorOf(F[0].sibling) == RED
    ensures var r := RotateLeft(Paint(Attach(x, F[0].(sibling := Paint(F[0].sibling, BLACK))), RED));
      var F' := [Frame(true, r.left.id, r.left.info, r.left.right), Frame(true, r.id, r.info, r.right)] + F[1..];
      RemoveFixupInv(x, F') && ColorOf(F'[0].sibling) == BLACK && F'[0].info.color == RED &&
      F'[0].id == F[0].id && |F'| == |F| + 1 && Plug(x, F') == Plug(r, F[1..])
  {
    var w := F[0].sibling;
    var h := BlackHeight(x);
    FixupSibling(x, F);
    var r := RotateLeft(Paint(Attach(x, F[0].(sibling := Paint(w, BLACK))), RED));
    var F' := [Frame(true, r.left.id, r.left.info, r.left.right), Frame(true, r.id, r.info, r.right)] + F[1..];
    assert F'[1..] == [F'[1]] + F[1..] && F'[1..][1..] == F[1..];
    assert FramesOk(F[1..], BLACK, h + 2);
    assert FramesOk(F'[1..], RED, h + 1);
    if |F| > 1 {
      assert F'[|F'| - 1] == F[|F| - 1];
    }
  }

  /** The mirror image of `RemoveRedSiblingLeft`. */
  lemma RemoveRedSiblingRight(x: Tree, F: seq<Frame>)
    requires RemoveFixupInv(x, F) && F != [] && !F[0].isLeft && ColorOf(x) == BLACK
    requires ColorOf(F[0].sibling) == RED
    ensures var r := RotateRight(Paint(Attach(x, F[0].(sibling := Paint(F[0].sibling, BLACK))), RED));
      var F' := [Frame(false, r.right.id, r.right.info, r.right.left), Frame(false, r.id, r.info, r.left)] + F[1..];
      RemoveFixupInv(x, F') && ColorOf(F'[0].sibling) == BLACK && F'[0].info.color == RED &&
      F'[0].id == F[0].id && |F'| == |F| + 1 && Plug(x, F') == Plug(r, F[1..])
  {
    var w := F[0].sibling;
    var h := BlackHeight(x);
    FixupSibling(x, F);
    var r := RotateRight(Paint(Attach(x, F[0].(sibling := Paint(w, BLACK))), RED));
    var F' := [Frame(false, r.right.id, r.right.info, r.right.left), Frame(false, r.id, r.info, r.left)] + F[1..];
    assert F'[1..] == [F'[1]] + F[1..] && F'[1..][1..] == F[1..];
    assert FramesOk(F[1..], BLACK, h + 2);
    assert FramesOk(F'[1..], RED, h + 1);
    if |F| > 1 {
      assert F'[|F'| - 1] == F[|F| - 1];
    }
  }

  /**
   * Case 2, x's sibling w BLACK with two BLACK children: w turns RED and the
   * shortage moves up to the parent, which becomes the new x.
   */
  lemma RemoveBlackNephews(x: Tree, F: seq<Frame>)
    requires RemoveFixupInv(x, F) && F != [] && ColorOf(x) == BLACK
    requires F[0].sibling.Node? && F[0].sibling.info.color == BLACK
    requires ColorOf(F[0].sibling.left) == BLACK && ColorOf(F[0].sibling.right) == BLACK
    ensures var x' := Attach(x, F[0].(sibling := Paint(F[0].sibling, RED)));
      RemoveFixupInv(x', F[1..]) && ColorOf(x') == F[0].info.color
  {
    var w := F[0].sibling;
    var h := BlackHeight(x);
    FixupSibling(x, F);
    assert BlackHeight(w.left) == h && BlackHeight(w.right) == h;
    var w' := Paint(w, RED);
    assert Well(w') && BlackHeight(w') == h;
    var x' := Attach(x, F[0].(sibling := w'));
    assert Well(Blacken(x')) && BlackHeight(x') == h + Inc(F[0].info.color);
    FramesOkBlack(F[1..], F[0].info.color, h + 1 + Inc(F[0].info.color));
    if |F| > 1 {
      assert F[1..][|F[1..]| - 1] == F[|F| - 1];
    }
  }

  /**
   * Case 3, x a left child and w BLACK with a RED left and a BLACK right
   * child: the RED child turns BLACK, w RED, and a right rotation at w gives
   * x a BLACK sibling with a RED right child.
   */
  lemma RemoveInnerNephewLeft(x: Tree, F: seq<Frame>)
    requires RemoveFixupInv(x, F) && F != [] && F[0].isLeft && ColorOf(x) == BLACK
    requires F[0].sibling.Node? && F[0].sibling.info.color == BLACK
    requires ColorOf(F[0].sibling.left) == RED && ColorOf(F[0].sibling.right) == BLACK
    ensures var w := F[0].sibling;
      var w' := RotateRight(Paint(w.(left := Paint(w.left, BLACK)), RED));
      RemoveFixupInv(x, [F[0].(sibling := w')] + F[1..]) &&
      w'.info.color == BLACK && ColorOf(w'.right) == RED
  {
    var w := F[0].sibling;
    var h := BlackHeight(x);
    FixupSibling(x, F);
    assert BlackHeight(w.left) == h && BlackHeight(w.right) == h;
    var n := w.left;
    assert RedFree(w) && Balanced(w);
    assert n.Node? && RedFree(n) && Balanced(n) && BlackHeight(n) == BlackHeight(n.left);
    assert ColorOf(n.left) == BLACK && ColorOf(n.right) == BLACK;
    assert BlackHeight(n.left) == h && BlackHeight(n.right) == h;
    var w' := RotateRight(Paint(w.(left := Paint(n, BLACK)), RED));
    assert w'.right.left == n.right && w'.right.right == w.right && w'.right.info.color == RED;
    assert Well(w'.right) && BlackHeight(w'.right) == h;
    assert w'.left == n.left;
    var F' := [F[0].(sibling := w')] + F[1..];
    assert F'[1..] == F[1..];
    assert Well(w') && BlackHeight(w') == h + 1;
    if |F| > 1 {
      assert F'[|F'| - 1] == F[|F| - 1];
    }
  }

  /** The mirror image of `RemoveInnerNephewLeft`. */
  lemma RemoveInnerNephewRight(x: Tree, F: seq<Frame>)
    requires RemoveFixupInv(x, F) && F != [] && !F[0].isLeft && ColorOf(x) == BLACK
    requires F[0].sibling.Node? && F[0].sibling.info.color == BLACK
    requires ColorOf(F[0].sibling.right) == RED && ColorOf(F[0].sibling.left) == BLACK
    ensures var w := F[0].sibling;
      var w' := RotateLeft(Paint(w.(right := Paint(w.right, BLACK)), RED));
      RemoveFixupInv(x, [F[0].(sibling := w')] + F[1..]) &&
      w'.info.color == BLACK && ColorOf(w'.left) == RED
  {
    var w := F[0].sibling;
    var h := BlackHeight(x);
    FixupSibling(x, F);
    assert BlackHeight(w.left) == h && BlackHeight(w.right) == h;
    var n := w.right;
    assert RedFree(w) && Balanced(w);
    assert n.Node? && RedFree(n) && Balanced(n) && BlackHeight(n) == BlackHeight(n.left);
    assert ColorOf(n.left) == BLACK && ColorOf(n.right) == BLACK;
    assert BlackHeight(n.left) == h && BlackHeight(n.right) == h;
    var w' := RotateLeft(Paint(w.(right := Paint(n, BLACK)), RED));
    assert w'.left.right == n.left && w'.left.left == w.left && w'.left.info.color == RED;
    assert Well(w'.left) && BlackHeight(w'.left) == h;
    assert w'.right == n.right;
    var F' := [F[0].(sibling := w')] + F[1..];
    assert F'[1..] == F[1..];
    assert Well(w') && BlackHeight(w') == h + 1;
    if |F| > 1 {
      assert F'[|F'| - 1] == F[|F| - 1];
    }
  }

  /**
   * Case 4, x a left child and w BLACK with a RED right child: w takes the
   * parent's colour, the parent and w's right child turn BLACK, and a left
   * rotation at the parent supplies the missing BLACK node: the whole tree
   * keeps the colour rules again.
   */
  lemma RemoveOuterNephewLeft(x: Tree, F: seq<Frame>)
    requires RemoveFixupInv(x, F) && F != [] && F[0].isLeft && ColorOf(x) == BLACK
    requires F[0].sibling.Node? && F[0].sibling.info.color == BLACK && ColorOf(F[0].sibling.right) == RED
    ensures var w := Paint(F[0].sibling, F[0].info.color);
      var p := Paint(Attach(x, F[0].(sibling := w)), BLACK);
      var p' := p.(right := w.(right := Paint(w.right, BLACK)));
      Well(Plug(RotateLeft(p'), F[1..]))
  {
    var w := Paint(F[0].sibling, F[0].info.color);
    var p := Paint(Attach(x, F[0].(sibling := w)), BLACK);
    var p' := p.(right := w.(right := Paint(w.right, BLACK)));
    var h := BlackHeight(x);
    FixupSibling(x, F);
    var v := F[0].sibling;
    assert BlackHeight(v.left) == h && BlackHeight(v.right) == h;
    assert Well(v.right) && Well(Paint(v.right, BLACK)) && BlackHeight(Paint(v.right, BLACK)) == h + 1;
    var r := RotateLeft(p');
    assert Well(r.left) && BlackHeight(r.left) == h + 1;
    assert Well(r.right) && BlackHeight(r.right) == h + 1;
    assert Well(r) && BlackHeight(r) == h + 1 + Inc(F[0].info.color);
    PlugWell(r, F[1..]);
  }

  /** The mirror image of `RemoveOuterNephewLeft`. */
  lemma RemoveOuterNephewRight(x: Tree, F: seq<Frame>)
    requires RemoveFixupInv(x, F) && F != [] && !F[0].isLeft && ColorOf(x) == BLACK
    requires F[0].sibling.Node? && F[0].sibling.info.color == BLACK && ColorOf(F[0].sibling.left) == RED
    ensures var w := Paint(F[0].sibling, F[0].info.color);
      var p := Paint(Attach(x, F[0].(sibling := w)), BLACK);
      var p' := p.(left := w.(left := Paint(w.left, BLACK)));
      Well(Plug(RotateRight(p'), F[1..]))
  {
    var w := Paint(F[0].sibling, F[0].info.color);
    var p := Paint(Attach(x, F[0].(sibling := w)), BLACK);
    var p' := p.(left := w.(left := Paint(w.left, BLACK)));
    var h := BlackHeight(x);
    FixupSibling(x, F);
    var v := F[0].sibling;
    assert BlackHeight(v.left) == h && BlackHeight(v.right) == h;
    assert Well(v.left) && Well(Paint(v.left, BLACK)) && BlackHeight(Paint(v.left, BLACK)) == h + 1;
    var r := RotateRight(p');
    assert Well(r.right) && BlackHeight(r.right) == h + 1;
    assert Well(r.left) && BlackHeight(r.left) == h + 1;
    assert Well(r) && BlackHeight(r) == h + 1 + Inc(F[0].info.color);
    PlugWell(r, F[1..]);
  }

  // ---------------------------------------------------------------------
  // What the Java statements read from the arena

  /** Hanging a subtree under one or two frames is attaching it to them. */
  lemma PlugOne(s: Tree, f: Frame, G: seq<Frame>)
    ensures Plug(s, [f] + G) == Plug(Attach(s, f), G)
  {
    assert ([f] + G)[1..] == G;
  }

  lemma PlugTwo(s: Tree, f: Frame, g: Frame, G: seq<Frame>)
    ensures Plug(s, [f, g] + G) == Plug(Attach(Attach(s, f), g), G)
  {
    assert ([f, g] + G)[1..] == [g] + G;
    PlugOne(Attach(s, f), g, G);
  }

  /** The link to a stored subtree shows the subtree's colour; the sentinel is BLACK. */
  lemma {:induction false} StoredColor(ns: seq<RedBlackNode>, t: Tree, p: int)
    requires Stored(ns, t, p) && |ns| > 0 && Sentinel(ns[NIL])
    ensures 0 <= IdOf(t) < |ns| && ns[IdOf(t)].color == ColorOf(t)
  {
  }

  lemma {:induction false} LastInFrameIds(F: seq<Frame>)
    requires F != []
    ensures F[|F| - 1].id in FrameIds(F)
    decreases |F|
  {
    if |F| > 1 {
      LastInFrameIds(F[1..]);
      assert F[1..][|F[1..]| - 1] == F[|F| - 1];
    }
  }

  /** x is the root exactly when no frame is above it. */
  lemma {:induction false} AtRoot(ns: seq<RedBlackNode>, root: int, X: Tree, F: seq<Frame>)
    requires Sound(ns, Plug(X, F), root)
    ensures IdOf(X) == root <==> F == []
  {
    PlugRoot(X, F);
    if F != [] {
      Unplug(ns, root, X, F);
      LastInFrameIds(F);
      if X.Node? {
        assert X.id in Ids(X);
      }
    }
  }

  /**
   * What removeFixup reads about x (possibly the sentinel, whose parent
   * link then names x's parent), its parent and its sibling w.
   */
  lemma {:induction false} FixupView(ns: seq<RedBlackNode>, root: int, X: Tree, F: seq<Frame>)
    requires Sound(ns, Plug(X, F), root) && (X.Leaf? ==> ns[NIL].parent == ParentOf(F))
    ensures 0 <= IdOf(X) < |ns| && ns[IdOf(X)].color == ColorOf(X)
    ensures ns[IdOf(X)].parent == ParentOf(F) && 0 <= ParentOf(F) < |ns|
    ensures IdOf(X) == root <==> F == []
    ensures F != [] && F[0].sibling.Node? ==>
      var p, w := F[0].id, F[0].sibling;
      ns[p].color == F[0].info.color &&
      ns[p].left == (if F[0].isLeft then IdOf(X) else w.id) &&
      ns[p].right == (if F[0].isLeft then w.id else IdOf(X)) &&
      (ns[p].left == IdOf(X) <==> F[0].isLeft) &&
      0 < w.id < |ns| && ns[w.id].color == w.info.color &&
      ns[w.id].left == IdOf(w.left) && ns[w.id].right == IdOf(w.right) &&
      0 <= IdOf(w.left) < |ns| && 0 <= IdOf(w.right) < |ns| &&
      ns[IdOf(w.left)].color == ColorOf(w.left) && ns[IdOf(w.right)].color == ColorOf(w.right)
  {
    AtRoot(ns, root, X, F);
    if X.Node? {
      FocusView(ns, root, X, F);
    }
    if F != [] {
      ParentView(ns, root, X, F);
      Unplug(ns, root, X, F);
      if F[0].sibling.Node? {
        var w := F[0].sibling;
        assert w.id in Ids(w);
        if X.Node? {
          assert X.id in Ids(X);
        }
        assert Stored(ns, w, F[0].id);
        StoredColor(ns, w.left, w.id);
        StoredColor(ns, w.right, w.id);
      }
    }
  }

  /** What the splice of remove reads about y, its children and its parent. */
  lemma {:induction false} SpliceView(ns: seq<RedBlackNode>, root: int, Y: Tree, F: seq<Frame>)
    requires Sound(ns, Plug(Y, F), root) && Y.Node?
    ensures var y, p, l, r := Y.id, ParentOf(F), IdOf(Y.left), IdOf(Y.right);
      0 < y < |ns| && ns[y] == Record(Y.info, p, l, r) &&
      0 <= l < |ns| && 0 <= r < |ns| && 0 <= p < |ns| &&
      (l == NIL <==> Y.left.Leaf?) && (r == NIL <==> Y.right.Leaf?) &&
      p != y && l != y && r != y && (p != NIL ==> l != p && r != p) &&
      (p == NIL <==> F == []) &&
      (p != NIL ==> (ns[p].left == y <==> F[0].isLeft) && (ns[p].left == y || ns[p].right == y))
  {
    CursorView(ns, root, Y, F);
    FocusView(ns, root, Y, F);
    Unplug(ns, root, Y, F);
    assert Y.id in Ids(Y);
    if Y.left.Node? {
      assert Y.left.id in Ids(Y.left);
    }
    if Y.right.Node? {
      assert Y.right.id in Ids(Y.right);
    }
    if F != [] {
      ParentView(ns, root, Y, F);
      if F[0].sibling.Node? {
        assert F[0].sibling.id in Ids(F[0].sibling);
      }
    }
  }

  /** The splice of remove on the tree: y's only subtree takes its place. */
  lemma {:induction false} SpliceIds(Y: Tree, F: seq<Frame>)
    requires Y.Node? && (Y.left.Leaf? || Y.right.Leaf?) && Distinct(Plug(Y, F))
    ensures var X := if Y.left.Node? then Y.left else Y.right;
      Distinct(Plug(X, F)) && Ids(Plug(X, F)) == Ids(Plug(Y, F)) - {Y.id}
  {
    var X := if Y.left.Node? then Y.left else Y.right;
    PlugIds(X, F);
    PlugIds(Y, F);
    PlugDistinct(X, F);
    PlugDistinct(Y, F);
    assert Ids(Y) == Ids(X) + {Y.id};
  }

  /** And y's only subtree keeps its counters, while the frames above count one node more. */
  lemma {:induction false} SpliceCounted(Y: Tree, F: seq<Frame>)
    requires Y.Node? && (Y.left.Leaf? || Y.right.Leaf?) && Counted(Plug(Y, F))
    ensures var X := if Y.left.Node? then Y.left else Y.right;
      Counted(X) && FramesCounted(F, Size(X) + 1)
  {
    PlugCounted(Y, F);
  }

  /**
   * The splice of remove on the arena: y's child x takes y's parent, and
   * that parent (or `root`) links x where it linked y.  The arena then
   * holds the tree with y gone, its counters on the path still counting y.
   */
  lemma {:induction false} SpliceArena(ns: seq<RedBlackNode>, ns': seq<RedBlackNode>, root: int, root': int, Y: Tree, F: seq<Frame>)
    requires Sound(ns, Plug(Y, F), root) && Y.Node? && (Y.left.Leaf? || Y.right.Leaf?) && 0 < Y.id < |ns|
    requires var p, c := ParentOf(F), IdOf(if Y.left.Node? then Y.left else Y.right);
      0 <= c < |ns| && 0 <= p < |ns| &&
      ns' == (if p == NIL then ns[c := ns[c].(parent := p)]
              else ns[c := ns[c].(parent := p)][p := if ns[p].left == Y.id then ns[p].(left := c) else ns[p].(right := c)]) &&
      root' == (if p == NIL then c else root)
    ensures var X := if Y.left.Node? then Y.left else Y.right;
      |ns'| == |ns| && Held(ns', Plug(X, F), root') && ns'[IdOf(X)].parent == ParentOf(F) &&
      Ids(Plug(X, F)) == Ids(Plug(Y, F)) - {Y.id} && ns'[Y.id] == ns[Y.id] &&
      Counted(X) && FramesCounted(F, Size(X) + 1)
  {
    var X := if Y.left.Node? then Y.left else Y.right;
    SpliceView(ns, root, Y, F);
    Unplug(ns, root, Y, F);
    SpliceStored(ns, ns', Y, F, X);
    PlugStored(ns', X, F);
    SpliceIds(Y, F);
    SpliceCounted(Y, F);
    PlugRoot(X, F);
    PlugRoot(Y, F);
  }

  /** The links of the spliced arena, subtree and frames. */
  lemma {:induction false} SpliceStored(ns: seq<RedBlackNode>, ns': seq<RedBlackNode>, Y: Tree, F: seq<Frame>, X: Tree)
    requires Y.Node? && (Y.left.Leaf? || Y.right.Leaf?) && X == (if Y.left.Node? then Y.left else Y.right)
    requires Stored(ns, Y, ParentOf(F)) && FramesStored(ns, F, Y.id)
    requires Distinct(Y) && FramesDistinct(F) && Ids(Y) !! FrameIds(F) && NIL !in FrameIds(F) && NIL !in Ids(Y)
    requires F != [] ==> F[0].id in FrameIds(F) && Ids(F[0].sibling) <= FrameIds(F) && FrameIds(F[1..]) <= FrameIds(F)
    requires var p, c := ParentOf(F), IdOf(X);
      0 <= c < |ns| && 0 <= p < |ns| && (p != NIL ==> p != c) &&
      ns' == (if p == NIL then ns[c := ns[c].(parent := p)]
              else ns[c := ns[c].(parent := p)][p := if ns[p].left == Y.id then ns[p].(left := c) else ns[p].(right := c)])
    ensures Stored(ns', X, ParentOf(F)) && FramesStored(ns', F, IdOf(X))
  {
    var p, c := ParentOf(F), IdOf(X);
    var v := if p == NIL then ns[p] else if ns[p].left == Y.id then ns[p].(left := c) else ns[p].(right := c);
    assert Y.id in Ids(Y);
    if X.Node? {
      assert X.id in Ids(X);
      ChildReparent(ns, ns', X, Y.id, p, v);
    }
    if F != [] {
      if F[0].sibling.Node? {
        assert F[0].sibling.id in Ids(F[0].sibling);
      }
      FramesSplice(ns, ns', F, Y.id, c, v);
    }
  }

  /** The surviving child of a splice, linked to its new parent `p`. */
  lemma {:induction false} ChildReparent(ns: seq<RedBlackNode>, ns': seq<RedBlackNode>, X: Tree, y: int, p: int, v: RedBlackNode)
    requires X.Node? && Stored(ns, X, y) && Distinct(X) && p !in Ids(X) && 0 <= p < |ns|
    requires ns' == (if p == NIL then ns[X.id := ns[X.id].(parent := p)]
                     else ns[X.id := ns[X.id].(parent := p)][p := v])
    ensures Stored(ns', X, p)
  {
    assert X.id in Ids(X);
    StoredReparent(ns, ns', X, y, p);
  }

  /** The frames above a splice, their nearest node now linking `c` where it linked `y`. */
  lemma {:induction false} FramesSplice(ns: seq<RedBlackNode>, ns': seq<RedBlackNode>, F: seq<Frame>, y: int, c: int, v: RedBlackNode)
    requires F != [] && FramesStored(ns, F, y) && FramesDistinct(F) && c !in FrameIds(F) && 0 <= c < |ns|
    requires F[0].id in FrameIds(F) && Ids(F[0].sibling) <= FrameIds(F) && FrameIds(F[1..]) <= FrameIds(F)
    requires v == (if ns[F[0].id].left == y then ns[F[0].id].(left := c) else ns[F[0].id].(right := c))
    requires IdOf(F[0].sibling) != y
    requires ns' == ns[c := ns[c].(parent := F[0].id)][F[0].id := v]
    ensures FramesStored(ns', F, c)
  {
    FramesRelink(ns, ns', F, y, c);
  }

  /**
   * The key copy `z.key = y.key` of remove, where y was the minimum of z's
   * right subtree `R`: the arena holds the same tree with z's frame rekeyed.
   */
  lemma {:induction false} KeyCopyArena(ns: seq<RedBlackNode>, ns': seq<RedBlackNode>, root: int, X: Tree, R: Tree, f: Frame, G: seq<Frame>, k: int)
    requires R.Node? && Held(ns, Plug(X, LeftPath(R, [f] + G)), root)
    requires f.id < |ns| && ns' == ns[f.id := ns[f.id].(key := k)]
    ensures Held(ns', Plug(X, LeftPath(R, [f.(info := f.info.(key := k))] + G)), root)
    ensures Ids(Plug(X, LeftPath(R, [f.(info := f.info.(key := k))] + G))) == Ids(Plug(X, LeftPath(R, [f] + G)))
    ensures ParentOf(LeftPath(R, [f.(info := f.info.(key := k))] + G)) == ParentOf(LeftPath(R, [f] + G))
  {
    var f' := f.(info := f.info.(key := k));
    var P := LeftPath(R, []);
    LeftPathAppend(R, [f] + G);
    LeftPathAppend(R, [f'] + G);
    PlugAppend(X, P, [f] + G);
    PlugAppend(X, P, [f'] + G);
    PlugOne(Plug(X, P), f, G);
    PlugOne(Plug(X, P), f', G);
    var a := Attach(Plug(X, P), f);
    CursorView(ns, root, a, G);
    InfoArena(ns, ns', root, a, a.info.(key := k), G);
    assert a.(info := a.info.(key := k)) == Attach(Plug(X, P), f');
  }
}
