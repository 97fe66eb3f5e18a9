/**
 * The shape of a red-black tree held in an arena of `RedBlackNode` records.
 *
 * `Tree` is the ghost picture of what is reachable from `root`: each node
 * carries its arena index and the data the arena holds for it.  `Stored`
 * ties the picture to the arena, link by link (left, right and parent),
 * so that every statement about the arena can be made about `Tree` values.
 * A `Frame` is one step up from a node (its parent, the side it hangs from
 * and its sibling), and `Plug` rebuilds the whole tree from a subtree and
 * the frames above it: Java's parent links are read through these frames.
 */
module RedBlackShapes {
  import opened RedBlackNodes
  import opened SortedSeqs

  /** What a node holds besides its links. */
  datatype Info = Info(key: int, color: Color, numLeft: int, numRight: int)

  datatype Tree = Leaf | Node(left: Tree, id: nat, info: Info, right: Tree)

  /** A parent seen from its child: `isLeft` when the child is its left child. */
  datatype Frame = Frame(isLeft: bool, id: nat, info: Info, sibling: Tree)

  /** The link that points at a subtree: the sentinel for an empty one. */
  function IdOf(t: Tree): int
  {
    if t.Leaf? then NIL else t.id
  }

  function Ids(t: Tree): set<nat>
  {
    if t.Leaf? then {} else Ids(t.left) + {t.id} + Ids(t.right)
  }

  /** No arena index occurs twice in the tree. */
  predicate Distinct(t: Tree)
  {
    t.Leaf? ||
    (Distinct(t.left) && Distinct(t.right) &&
     t.id !in Ids(t.left) && t.id !in Ids(t.right) && Ids(t.left) !! Ids(t.right))
  }

  function Size(t: Tree): nat
  {
    if t.Leaf? then 0 else Size(t.left) + 1 + Size(t.right)
  }

  /** Every node's `numLeft` and `numRight` count the nodes of its two subtrees. */
  predicate Counted(t: Tree)
  {
    t.Leaf? ||
    (t.info.numLeft == Size(t.left) && t.info.numRight == Size(t.right) &&
     Counted(t.left) && Counted(t.right))
  }

  /** The keys in in-order. */
  function InOrder(t: Tree): seq<int>
  {
    if t.Leaf? then [] else InOrder(t.left) + [t.info.key] + InOrder(t.right)
  }

  lemma {:induction false} SizeIsLength(t: Tree)
    ensures |InOrder(t)| == Size(t)
  {
    if t.Node? {
      SizeIsLength(t.left);
      SizeIsLength(t.right);
    }
  }

  /** The frame's node with the subtree `s` hung on the frame's side. */
  function Attach(s: Tree, f: Frame): Tree
  {
    if f.isLeft then Node(s, f.id, f.info, f.sibling) else Node(f.sibling, f.id, f.info, s)
  }

  /** The whole tree: `s` with the frames above it, the nearest first. */
  function Plug(s: Tree, F: seq<Frame>): Tree
    decreases |F|
  {
    if F == [] then s else Plug(Attach(s, F[0]), F[1..])
  }

  /** The parent link of the node under the frames `F`. */
  function ParentOf(F: seq<Frame>): int
  {
    if F == [] then NIL else F[0].id
  }

  /** The arena record of a node with data `i` and the given links. */
  function Record(i: Info, parent: int, left: int, right: int): RedBlackNode
  {
    RedBlackNode(i.key, parent, left, right, i.numLeft, i.numRight, i.color)
  }

  /** The arena holds `t` below the node `parent`, links and data alike. */
  predicate Stored(ns: seq<RedBlackNode>, t: Tree, parent: int)
  {
    t.Leaf? ||
    (0 < t.id < |ns| && ns[t.id] == Record(t.info, parent, IdOf(t.left), IdOf(t.right)) &&
     Stored(ns, t.left, t.id) && Stored(ns, t.right, t.id))
  }

  /** The record a frame's node has when its child on the frame's side is `child`. */
  function FrameRecord(f: Frame, parent: int, child: int): RedBlackNode
  {
    if f.isLeft then Record(f.info, parent, child, IdOf(f.sibling))
    else Record(f.info, parent, IdOf(f.sibling), child)
  }

  /** The arena holds the frames `F` above a node whose link is `child`. */
  predicate FramesStored(ns: seq<RedBlackNode>, F: seq<Frame>, child: int)
    decreases |F|
  {
    F == [] ||
    (0 < F[0].id < |ns| && ns[F[0].id] == FrameRecord(F[0], ParentOf(F[1..]), child) &&
     Stored(ns, F[0].sibling, F[0].id) && FramesStored(ns, F[1..], F[0].id))
  }

  function FrameIds(F: seq<Frame>): set<nat>
    decreases |F|
  {
    if F == [] then {} else {F[0].id} + Ids(F[0].sibling) + FrameIds(F[1..])
  }

  /** The frames' nodes and siblings share no index, with each other or themselves. */
  predicate FramesDistinct(F: seq<Frame>)
    decreases |F|
  {
    F == [] ||
    (Distinct(F[0].sibling) && F[0].id !in Ids(F[0].sibling) &&
     F[0].id !in FrameIds(F[1..]) && Ids(F[0].sibling) !! FrameIds(F[1..]) &&
     FramesDistinct(F[1..]))
  }

  /** The frames' counters are right when the subtree under them has `n` nodes. */
  predicate FramesCounted(F: seq<Frame>, n: nat)
    decreases |F|
  {
    F == [] ||
    (Counted(F[0].sibling) &&
     (if F[0].isLeft then F[0].info.numLeft == n && F[0].info.numRight == Size(F[0].sibling)
      else F[0].info.numRight == n && F[0].info.numLeft == Size(F[0].sibling)) &&
     FramesCounted(F[1..], n + 1 + Size(F[0].sibling)))
  }

  /** The keys in in-order before the subtree under the frames `F`. */
  function LeftKeys(F: seq<Frame>): seq<int>
    decreases |F|
  {
    if F == [] then []
    else if F[0].isLeft then LeftKeys(F[1..])
    else LeftKeys(F[1..]) + InOrder(F[0].sibling) + [F[0].info.key]
  }

  /** The keys in in-order after the subtree under the frames `F`. */
  function RightKeys(F: seq<Frame>): seq<int>
    decreases |F|
  {
    if F == [] then []
    else if F[0].isLeft then [F[0].info.key] + InOrder(F[0].sibling) + RightKeys(F[1..])
    else RightKeys(F[1..])
  }

  /** The arena agrees with `ns` on every index of `S` that `ns` has. */
  predicate Agree(ns: seq<RedBlackNode>, ns': seq<RedBlackNode>, S: set<nat>)
  {
    forall i :: i in S && i < |ns| ==> i < |ns'| && ns'[i] == ns[i]
  }

  /** The sentinel: BLACK, zero counters, and its children links on itself. */
  predicate Sentinel(n: RedBlackNode)
  {
    n.color == BLACK && n.numLeft == 0 && n.numRight == 0 && n.left == NIL && n.right == NIL
  }

  /** The arena holds the tree `t` from `root`, with the sentinel at `NIL` and no node twice. */
  predicate Held(ns: seq<RedBlackNode>, t: Tree, root: int)
  {
    |ns| > 0 && Sentinel(ns[NIL]) && root == IdOf(t) && Stored(ns, t, NIL) && Distinct(t)
  }

  /** `Held`, and every counter right. */
  predicate Sound(ns: seq<RedBlackNode>, t: Tree, root: int)
  {
    Held(ns, t, root) && Counted(t)
  }

  /** The whole tree as seen from a subtree `s` under the frames `F`. */
  lemma {:induction false} Refocus(s: Tree, F: seq<Frame>)
    requires F != []
    ensures Plug(Attach(s, F[0]), F[1..]) == Plug(s, F)
    ensures Plug(F[0].sibling, [Frame(!F[0].isLeft, F[0].id, F[0].info, s)] + F[1..]) == Plug(s, F)
  {
    var G := [Frame(!F[0].isLeft, F[0].id, F[0].info, s)] + F[1..];
    assert G[1..] == F[1..];
  }

  // ---------------------------------------------------------------------
  // Reading the whole tree through a subtree and its frames

  lemma {:induction false} PlugIds(s: Tree, F: seq<Frame>)
    ensures Ids(Plug(s, F)) == Ids(s) + FrameIds(F)
    decreases |F|
  {
    if F != [] {
      PlugIds(Attach(s, F[0]), F[1..]);
    }
  }

  lemma {:induction false} PlugDistinct(s: Tree, F: seq<Frame>)
    ensures Distinct(Plug(s, F)) <==>
      Distinct(s) && FramesDistinct(F) && Ids(s) !! FrameIds(F)
    decreases |F|
  {
    if F != [] {
      PlugDistinct(Attach(s, F[0]), F[1..]);
    }
  }

  lemma {:induction false} PlugCounted(s: Tree, F: seq<Frame>)
    ensures Counted(Plug(s, F)) <==> Counted(s) && FramesCounted(F, Size(s))
    decreases |F|
  {
    if F != [] {
      PlugCounted(Attach(s, F[0]), F[1..]);
    }
  }

  lemma {:induction false} PlugInOrder(s: Tree, F: seq<Frame>)
    ensures InOrder(Plug(s, F)) == LeftKeys(F) + InOrder(s) + RightKeys(F)
    decreases |F|
  {
    if F != [] {
      var f, G := F[0], F[1..];
      PlugInOrder(Attach(s, f), G);
      var L, S, R, O := LeftKeys(G), InOrder(s), RightKeys(G), InOrder(f.sibling);
      if f.isLeft {
        assert InOrder(Attach(s, f)) == S + [f.info.key] + O;
        assert RightKeys(F) == [f.info.key] + O + R;
      } else {
        assert InOrder(Attach(s, f)) == O + [f.info.key] + S;
        assert LeftKeys(F) == L + O + [f.info.key];
      }
      InOrderRegroup(L, S, R, O, f.info.key);
    }
  }

  lemma InOrderRegroup(L: seq<int>, S: seq<int>, R: seq<int>, O: seq<int>, k: int)
    ensures L + (S + [k] + O) + R == L + S + ([k] + O + R)
    ensures L + (O + [k] + S) + R == (L + O + [k]) + S + R
  {
  }

  lemma {:induction false} PlugStored(ns: seq<RedBlackNode>, s: Tree, F: seq<Frame>)
    ensures Stored(ns, Plug(s, F), NIL) <==>
      Stored(ns, s, ParentOf(F)) && FramesStored(ns, F, IdOf(s))
    decreases |F|
  {
    if F != [] {
      PlugStored(ns, Attach(s, F[0]), F[1..]);
    }
  }

  /** The root of the whole tree: the farthest frame's node, or `s` itself. */
  lemma {:induction false} PlugRoot(s: Tree, F: seq<Frame>)
    ensures Plug(s, F).Node? <==> s.Node? || F != []
    ensures F != [] ==> Plug(s, F).id == F[|F| - 1].id && Plug(s, F).info == F[|F| - 1].info
    ensures F == [] ==> Plug(s, F) == s
    decreases |F|
  {
    if F != [] {
      PlugRoot(Attach(s, F[0]), F[1..]);
    }
  }

  /** Replacing the subtree under `F` by one with the same in-order keeps the whole in-order. */
  lemma ReplaceInOrder(s: Tree, s': Tree, F: seq<Frame>)
    requires InOrder(s') == InOrder(s)
    ensures InOrder(Plug(s', F)) == InOrder(Plug(s, F))
  {
    PlugInOrder(s, F);
    PlugInOrder(s', F);
  }

  /**
   * Replacing the subtree under `F` by a distinct, counted one over the same
   * nodes keeps the whole tree distinct and counted.
   */
  lemma ReplaceSound(s: Tree, s': Tree, F: seq<Frame>)
    requires Distinct(Plug(s, F)) && Counted(Plug(s, F))
    requires Distinct(s') && Counted(s') && Ids(s') == Ids(s) && Size(s') == Size(s)
    ensures Distinct(Plug(s', F)) && Counted(Plug(s', F))
    ensures Ids(Plug(s', F)) == Ids(Plug(s, F))
  {
    PlugDistinct(s, F);
    PlugDistinct(s', F);
    PlugCounted(s, F);
    PlugCounted(s', F);
    PlugIds(s, F);
    PlugIds(s', F);
  }

  // ---------------------------------------------------------------------
  // The arena outside a tree's nodes does not matter to it

  lemma {:induction false} StoredBelow(ns: seq<RedBlackNode>, t: Tree, p: int)
    requires Stored(ns, t, p)
    ensures forall i :: i in Ids(t) ==> 0 < i < |ns|
  {
    if t.Node? {
      StoredBelow(ns, t.left, t.id);
      StoredBelow(ns, t.right, t.id);
    }
  }

  lemma {:induction false} FramesStoredBelow(ns: seq<RedBlackNode>, F: seq<Frame>, c: int)
    requires FramesStored(ns, F, c)
    ensures forall i :: i in FrameIds(F) ==> 0 < i < |ns|
    decreases |F|
  {
    if F != [] {
      StoredBelow(ns, F[0].sibling, F[0].id);
      FramesStoredBelow(ns, F[1..], F[0].id);
    }
  }

  lemma {:induction false} StoredAgree(ns: seq<RedBlackNode>, ns': seq<RedBlackNode>, t: Tree, p: int)
    requires Stored(ns, t, p) && Agree(ns, ns', Ids(t))
    ensures Stored(ns', t, p)
  {
    if t.Node? {
      StoredAgree(ns, ns', t.left, t.id);
      StoredAgree(ns, ns', t.right, t.id);
    }
  }

  lemma {:induction false} FramesStoredAgree(ns: seq<RedBlackNode>, ns': seq<RedBlackNode>, F: seq<Frame>, c: int)
    requires FramesStored(ns, F, c) && Agree(ns, ns', FrameIds(F))
    ensures FramesStored(ns', F, c)
    decreases |F|
  {
    if F != [] {
      StoredAgree(ns, ns', F[0].sibling, F[0].id);
      FramesStoredAgree(ns, ns', F[1..], F[0].id);
    }
  }

  /** A subtree whose root record changed only its parent link is held below the new parent. */
  lemma {:induction false} StoredReparent(ns: seq<RedBlackNode>, ns': seq<RedBlackNode>, t: Tree, p: int, q: int)
    requires Stored(ns, t, p) && t.Node?
    requires t.id < |ns'| && ns'[t.id] == ns[t.id].(parent := q)
    requires Agree(ns, ns', Ids(t.left)) && Agree(ns, ns', Ids(t.right))
    ensures Stored(ns', t, q)
  {
    StoredAgree(ns, ns', t.left, t.id);
    StoredAgree(ns, ns', t.right, t.id);
  }

  /** Frames whose nearest node now links a new child `c'` and are otherwise untouched. */
  lemma {:induction false} FramesRelink(ns: seq<RedBlackNode>, ns': seq<RedBlackNode>, F: seq<Frame>, c: int, c': int)
    requires FramesStored(ns, F, c) && F != []
    requires F[0].id < |ns'| && ns'[F[0].id] == FrameRecord(F[0], ParentOf(F[1..]), c')
    requires Agree(ns, ns', Ids(F[0].sibling)) && Agree(ns, ns', FrameIds(F[1..]))
    ensures FramesStored(ns', F, c')
  {
    StoredAgree(ns, ns', F[0].sibling, F[0].id);
    FramesStoredAgree(ns, ns', F[1..], F[0].id);
  }

  /** A stored tree holds each of its subtrees and the frames above it. */
  lemma {:induction false} FramesAbove(ns: seq<RedBlackNode>, s: Tree, F: seq<Frame>)
    requires Stored(ns, Plug(s, F), NIL)
    ensures Stored(ns, s, ParentOf(F)) && FramesStored(ns, F, IdOf(s))
  {
    PlugStored(ns, s, F);
  }
}
