/**
 * The descent of insert in src/redBlackTree/RedBlackTree.java: it walks
 * from `root` to a `nil` link, adding one to `numLeft` where it turns left
 * (the new key is smaller) and to `numRight` where it turns right, and the
 * new RED node is hung where it stopped.
 */
module RedBlackInsertion {
  import opened SortedSeqs
  import opened RedBlackNodes
  import opened RedBlackShapes
  import opened RedBlackColors
  import opened RedBlackArena

  /** The frames count one more node than they hold: the new key is on its way down. */
  predicate DescentCounted(X: Tree, F: seq<Frame>)
  {
    Counted(X) && FramesCounted(F, Size(X) + 1)
  }

  /** The in-order keys are `K`, and `key` fits between the keys left and right of `X`. */
  predicate Fits(X: Tree, F: seq<Frame>, key: int, K: seq<int>)
  {
    LeftKeys(F) + InOrder(X) + RightKeys(F) == K && Sorted(K) &&
    (forall v :: v in LeftKeys(F) ==> v <= key) &&
    (forall v :: v in RightKeys(F) ==> key < v)
  }

  /**
   * What the descent knows at the subtree `X` under the frames `F`: the
   * arena holds the picture whose frames carry the raised counters, the key
   * fits, the colours are those of a red-black tree, and the last turn was
   * to the left exactly when the key is below the last node's key.
   */
  predicate Descent(ns: seq<RedBlackNode>, root: int, X: Tree, F: seq<Frame>, key: int, K: seq<int>)
  {
    Held(ns, Plug(X, F), root) && DescentCounted(X, F) && Fits(X, F, key, K) && DescentInv(X, F) &&
    (F != [] ==> (F[0].isLeft <==> key < F[0].info.key))
  }

  /** The descent starts at the root of a valid tree. */
  lemma {:induction false} DescentStarts(ns: seq<RedBlackNode>, root: int, t: Tree, key: int)
    requires Sound(ns, t, root) && Sorted(InOrder(t)) && RedBlack(t)
    ensures Descent(ns, root, t, [], key, InOrder(t))
  {
  }

  /** The record the descent reads at its cursor. */
  lemma {:induction false} CursorView(ns: seq<RedBlackNode>, root: int, X: Tree, F: seq<Frame>)
    requires Held(ns, Plug(X, F), root) && X.Node?
    ensures 0 < X.id < |ns| && ns[X.id] == Record(X.info, ParentOf(F), IdOf(X.left), IdOf(X.right))
    ensures 0 <= IdOf(X.left) < |ns| && 0 <= IdOf(X.right) < |ns|
    ensures (IdOf(X.left) == NIL <==> X.left.Leaf?) && (IdOf(X.right) == NIL <==> X.right.Leaf?)
  {
    PlugStored(ns, X, F);
    StoredBelow(ns, X, ParentOf(F));
    assert X.left.Node? ==> X.left.id in Ids(X);
    assert X.right.Node? ==> X.right.id in Ids(X);
  }

  /** The cursor's link is the sentinel exactly when the descent has reached an empty subtree. */
  lemma {:induction false} CursorAtNil(ns: seq<RedBlackNode>, root: int, X: Tree, F: seq<Frame>)
    requires Held(ns, Plug(X, F), root)
    ensures IdOf(X) == NIL <==> X.Leaf?
  {
    if X.Node? {
      CursorView(ns, root, X, F);
    }
  }

  /** The record of the node the new one is hung below: its link on the descent's side is `nil`. */
  lemma {:induction false} StopView(ns: seq<RedBlackNode>, root: int, F: seq<Frame>)
    requires Held(ns, Plug(Leaf, F), root) && F != []
    ensures 0 < F[0].id < |ns| && ns[F[0].id] == FrameRecord(F[0], ParentOf(F[1..]), NIL)
  {
    PlugStored(ns, Leaf, F);
  }

  /** The child the descent moves to. */
  function Child(X: Tree, goLeft: bool): Tree
    requires X.Node?
  {
    if goLeft then X.left else X.right
  }

  /** The frames after stepping from `X` to a child, with the node's data now `i`. */
  function Down(X: Tree, F: seq<Frame>, goLeft: bool, i: Info): seq<Frame>
    requires X.Node?
  {
    [Frame(goLeft, X.id, i, if goLeft then X.right else X.left)] + F
  }

  /** `X`'s data with the counter on the side of the turn raised by one. */
  function Raised(X: Tree, goLeft: bool): Info
    requires X.Node?
  {
    if goLeft then X.info.(numLeft := X.info.numLeft + 1) else X.info.(numRight := X.info.numRight + 1)
  }

  /** The arena part of a step: the cursor's record with a raised counter holds the stepped picture. */
  lemma {:induction false} DownHeld(ns: seq<RedBlackNode>, root: int, X: Tree, F: seq<Frame>, goLeft: bool)
    requires Held(ns, Plug(X, F), root) && X.Node? && X.id < |ns|
    ensures var ns' := ns[X.id := Record(Raised(X, goLeft), ParentOf(F), IdOf(X.left), IdOf(X.right))];
      Held(ns', Plug(Child(X, goLeft), Down(X, F, goLeft, Raised(X, goLeft))), root) &&
      Ids(Plug(Child(X, goLeft), Down(X, F, goLeft, Raised(X, goLeft)))) == Ids(Plug(X, F))
  {
    var i := Raised(X, goLeft);
    var D := Down(X, F, goLeft, i);
    InfoArena(ns, ns[X.id := Record(i, ParentOf(F), IdOf(X.left), IdOf(X.right))], root, X, i, F);
    Refocus(Child(X, goLeft), D);
    assert D[1..] == F;
  }

  /** The counter part of a step. */
  lemma {:induction false} DownCounted(X: Tree, F: seq<Frame>, goLeft: bool)
    requires DescentCounted(X, F) && X.Node?
    ensures DescentCounted(Child(X, goLeft), Down(X, F, goLeft, Raised(X, goLeft)))
  {
    var D := Down(X, F, goLeft, Raised(X, goLeft));
    assert D[1..] == F;
  }

  /** Turning left below `k`: every key from `k` on is above the new key. */
  lemma KeysAfterLeftTurn(L: seq<int>, a: seq<int>, k: int, b: seq<int>, R: seq<int>, key: int)
    requires Sorted(L + (a + [k] + b) + R) && key < k && (forall v :: v in R ==> key < v)
    ensures forall v :: v in [k] + b + R ==> key < v
  {
    SortedMiddle(L, a + [k] + b, R);
    SortedAroundParts(a, k, b);
  }

  /** Turning right at `k`: every key up to `k` is at most the new key. */
  lemma KeysBeforeRightTurn(L: seq<int>, a: seq<int>, k: int, b: seq<int>, R: seq<int>, key: int)
    requires Sorted(L + (a + [k] + b) + R) && k <= key && (forall v :: v in L ==> v <= key)
    ensures forall v :: v in L + a + [k] ==> v <= key
  {
    SortedMiddle(L, a + [k] + b, R);
    SortedAroundParts(a, k, b);
  }

  /** The key part of a step: turning left exactly when the key is below the cursor's. */
  lemma {:induction false} DownFits(X: Tree, F: seq<Frame>, key: int, K: seq<int>, goLeft: bool, i: Info)
    requires Fits(X, F, key, K) && X.Node? && (goLeft <==> key < X.info.key) && i.key == X.info.key
    ensures Fits(Child(X, goLeft), Down(X, F, goLeft, i), key, K)
  {
    var D := Down(X, F, goLeft, i);
    var L, a, k, b, R := LeftKeys(F), InOrder(X.left), X.info.key, InOrder(X.right), RightKeys(F);
    assert D[1..] == F;
    if goLeft {
      KeysAfterLeftTurn(L, a, k, b, R, key);
      assert RightKeys(D) == [k] + b + R;
      assert L + a + ([k] + b + R) == K;
    } else {
      KeysBeforeRightTurn(L, a, k, b, R, key);
      assert LeftKeys(D) == L + a + [k];
      assert L + a + [k] + b + R == K;
    }
  }

  /** One step of the descent: raise the counter on the side of the turn and move to that child. */
  lemma {:induction false} Descend(ns: seq<RedBlackNode>, ns': seq<RedBlackNode>, root: int, X: Tree, F: seq<Frame>, key: int, K: seq<int>, goLeft: bool)
    requires Descent(ns, root, X, F, key, K) && X.Node? && X.id < |ns| && (goLeft <==> key < X.info.key)
    requires ns' == ns[X.id := if goLeft then ns[X.id].(numLeft := ns[X.id].numLeft + 1)
                               else ns[X.id].(numRight := ns[X.id].numRight + 1)]
    ensures Descent(ns', root, Child(X, goLeft), Down(X, F, goLeft, Raised(X, goLeft)), key, K)
    ensures Ids(Plug(Child(X, goLeft), Down(X, F, goLeft, Raised(X, goLeft)))) == Ids(Plug(X, F))
    ensures IdOf(Child(X, goLeft)) == if goLeft then ns'[X.id].left else ns'[X.id].right
    ensures X.id == ParentOf(Down(X, F, goLeft, Raised(X, goLeft)))
  {
    CursorView(ns, root, X, F);
    assert ns' == ns[X.id := Record(Raised(X, goLeft), ParentOf(F), IdOf(X.left), IdOf(X.right))];
    DownHeld(ns, root, X, F, goLeft);
    DownCounted(X, F, goLeft);
    DownFits(X, F, key, K, goLeft, Raised(X, goLeft));
    DescentStep(X, F, goLeft, Raised(X, goLeft));
  }

  /** The arena part of hanging the new node `z` where the descent stopped. */
  lemma {:induction false} AttachHeld(ns: seq<RedBlackNode>, ns': seq<RedBlackNode>, root: int, F: seq<Frame>, Z: Tree)
    requires Held(ns, Plug(Leaf, F), root) && DescentCounted(Leaf, F)
    requires Z.Node? && Z.left.Leaf? && Z.right.Leaf? && Z.info.numLeft == 0 && Z.info.numRight == 0
    requires 0 < Z.id < |ns| && Z.id !in Ids(Plug(Leaf, F)) && (F != [] ==> F[0].id < |ns|)
    requires ns' == (var n := ns[Z.id := Record(Z.info, ParentOf(F), NIL, NIL)];
                     if F == [] then n else n[F[0].id := FrameRecord(F[0], ParentOf(F[1..]), Z.id)])
    ensures Sound(ns', Plug(Z, F), if F == [] then Z.id else root)
    ensures Ids(Plug(Z, F)) == Ids(Plug(Leaf, F)) + {Z.id}
  {
    PlugStored(ns, Leaf, F);
    PlugDistinct(Leaf, F);
    PlugIds(Leaf, F);
    PlugIds(Z, F);
    FramesStoredBelow(ns, F, NIL);
    assert Stored(ns', Z, ParentOf(F));
    if F != [] {
      assert F[0].id in FrameIds(F) && F[0].id != Z.id;
      assert Agree(ns, ns', Ids(F[0].sibling)) && Agree(ns, ns', FrameIds(F[1..]));
      FramesRelink(ns, ns', F, NIL, Z.id);
    }
    PlugStored(ns', Z, F);
    PlugDistinct(Z, F);
    PlugCounted(Z, F);
    PlugRoot(Z, F);
    PlugRoot(Leaf, F);
  }

  /** A key at least every key of `L` and below every key of `R` goes in order between them. */
  lemma KeyBetween(L: seq<int>, R: seq<int>, K: seq<int>, key: int)
    requires L + R == K && Sorted(K)
    requires (forall v :: v in L ==> v <= key) && (forall v :: v in R ==> key < v)
    ensures Sorted(L + [key] + R) && multiset(L + [key] + R) == multiset(K) + multiset{key}
  {
    SortedSplit(L, R);
    SortedAroundWhole(L, key, R);
  }

  /** The key part of hanging the new node: its key lands in order among the others. */
  lemma {:induction false} AttachKeys(F: seq<Frame>, key: int, K: seq<int>, Z: Tree)
    requires Fits(Leaf, F, key, K) && Z.Node? && Z.left.Leaf? && Z.right.Leaf? && Z.info.key == key
    ensures InOrder(Plug(Z, F)) == LeftKeys(F) + [key] + RightKeys(F)
    ensures Sorted(InOrder(Plug(Z, F))) && multiset(InOrder(Plug(Z, F))) == multiset(K) + multiset{key}
  {
    PlugInOrder(Z, F);
    assert InOrder(Z) == [key];
    assert LeftKeys(F) + InOrder(Leaf) + RightKeys(F) == LeftKeys(F) + RightKeys(F);
    KeyBetween(LeftKeys(F), RightKeys(F), K, key);
  }

  /**
   * Where the descent stops, the new RED node `z` (a fresh arena index) is
   * hung below the last node visited; the arena then soundly holds the tree
   * with `key` added in order, and the insertFixup invariant holds at `z`.
   */
  lemma {:induction false} DescentAttach(ns: seq<RedBlackNode>, ns': seq<RedBlackNode>, root: int, F: seq<Frame>, key: int, K: seq<int>, z: nat)
    requires Descent(ns, root, Leaf, F, key, K) && 0 < z < |ns| && z !in Ids(Plug(Leaf, F))
    requires F != [] ==> F[0].id < |ns|
    requires ns' == (var n := ns[z := Record(Info(key, RED, 0, 0), ParentOf(F), NIL, NIL)];
                     if F == [] then n else n[F[0].id := FrameRecord(F[0], ParentOf(F[1..]), z)])
    ensures var Z := Node(Leaf, z, Info(key, RED, 0, 0), Leaf);
      Sound(ns', Plug(Z, F), if F == [] then z else root) && InsertFixupInv(Z, F) &&
      InOrder(Plug(Z, F)) == LeftKeys(F) + [key] + RightKeys(F) &&
      Sorted(InOrder(Plug(Z, F))) && multiset(InOrder(Plug(Z, F))) == multiset(K) + multiset{key} &&
      Ids(Plug(Z, F)) == Ids(Plug(Leaf, F)) + {z}
  {
    var Z := Node(Leaf, z, Info(key, RED, 0, 0), Leaf);
    AttachHeld(ns, ns', root, F, Z);
    AttachKeys(F, key, K, Z);
    InsertFixupStarts(Z, F);
  }

}
