/**
 * The AVL tree of src/avlTree/AVLTree.java.
 *
 * The Java insert and remove are recursive: each call returns the new root of
 * the subtree it was given, and every node on the way back up is passed through
 * adjustTree.  No node is ever shared between two parents, so a subtree is
 * exactly a value and the recursion is modelled by functions on `Tree`.
 * Heights are recomputed on demand, as in the source.
 */
module AvlTrees {
  import opened Wrappers
  import opened SortedSeqs

  /** A subtree; `Nil` is Java's null child. */
  datatype Tree = Nil | Node(left: Tree, key: int, right: Tree)

  function Size(t: Tree): nat
  {
    match t
    case Nil => 0
    case Node(l, _, r) => Size(l) + 1 + Size(r)
  }

  function InOrder(t: Tree): seq<int>
  {
    match t
    case Nil => []
    case Node(l, k, r) => InOrder(l) + [k] + InOrder(r)
  }

  function PreOrder(t: Tree): seq<int>
  {
    match t
    case Nil => []
    case Node(l, k, r) => [k] + PreOrder(l) + PreOrder(r)
  }

  function PostOrder(t: Tree): seq<int>
  {
    match t
    case Nil => []
    case Node(l, k, r) => PostOrder(l) + PostOrder(r) + [k]
  }

  /** The keys held by a subtree, with their multiplicities. */
  function Keys(t: Tree): multiset<int>
  {
    multiset(InOrder(t))
  }

  /** Search-tree order: the in-order sequence never decreases (equal keys allowed). */
  predicate Ordered(t: Tree)
  {
    Sorted(InOrder(t))
  }

  /** max(a, b) of the source. */
  function Max(a: int, b: int): (m: int)
    ensures a <= m && b <= m && (m == a || m == b)
  {
    if a > b then a else b
  }

  /** nodeHeight: 0 for null, otherwise one more than the taller child. */
  function Height(t: Tree): (h: nat)
    ensures h == 0 <==> t.Nil?
  {
    match t
    case Nil => 0
    case Node(l, _, r) => Max(Height(l), Height(r)) + 1
  }

  /** balancingFactor: height of the right child minus height of the left child. */
  function BalancingFactor(t: Tree): int
    requires t.Node?
  {
    Height(t.right) - Height(t.left)
  }

  /** The AVL condition: every node has a balancing factor in [-1, 1]. */
  predicate Balanced(t: Tree)
  {
    match t
    case Nil => true
    case Node(l, _, r) => -1 <= BalancingFactor(t) <= 1 && Balanced(l) && Balanced(r)
  }

  // ---------------------------------------------------------------------
  // Rotations

  /** leftRotation: the right child y becomes the root, x becomes y's left child. */
  function LeftRotation(x: Tree): (y: Tree)
    requires x.Node? && x.right.Node?
    ensures InOrder(y) == InOrder(x)
    ensures y.Node? && y.key == x.right.key && y.left.Node? && y.left.key == x.key
  {
    Node(Node(x.left, x.key, x.right.left), x.right.key, x.right.right)
  }

  /** rightRotation: the left child y becomes the root, x becomes y's right child. */
  function RightRotation(x: Tree): (y: Tree)
    requires x.Node? && x.left.Node?
    ensures InOrder(y) == InOrder(x)
    ensures y.Node? && y.key == x.left.key && y.right.Node? && y.right.key == x.key
  {
    Node(x.left.left, x.left.key, Node(x.left.right, x.key, x.right))
  }

  /** doubleLeftRotation: rotate the right child right, then rotate x left. */
  function DoubleLeftRotation(x: Tree): (y: Tree)
    requires x.Node? && x.right.Node? && x.right.left.Node?
    ensures InOrder(y) == InOrder(x)
    ensures y.Node? && y.key == x.right.left.key
  {
    LeftRotation(Node(x.left, x.key, RightRotation(x.right)))
  }

  /** doubleRightRotation: rotate the left child left, then rotate x right. */
  function DoubleRightRotation(x: Tree): (y: Tree)
    requires x.Node? && x.left.Node? && x.left.right.Node?
    ensures InOrder(y) == InOrder(x)
    ensures y.Node? && y.key == x.left.right.key
  {
    RightRotation(Node(LeftRotation(x.left), x.key, x.right))
  }

  /**
   * adjustTree: a right-heavy node (factor > 1) gets a double left rotation
   * when its right child leans left, a single left rotation otherwise; the
   * left-heavy case is symmetric; any other node is returned unchanged.
   */
  function AdjustTree(t: Tree): (r: Tree)
    requires t.Node?
    ensures InOrder(r) == InOrder(t) && r.Node?
  {
    if BalancingFactor(t) > 1 then
      if BalancingFactor(t.right) < 0 then DoubleLeftRotation(t) else LeftRotation(t)
    else if BalancingFactor(t) < -1 then
      if BalancingFactor(t.left) > 0 then DoubleRightRotation(t) else RightRotation(t)
    else
      t
  }

  // ---------------------------------------------------------------------
  // Insertion

  /** insert(key, node): keys less than the node's key go left, all others right. */
  function InsertInto(t: Tree, k: int): (r: Tree)
    ensures r.Node?
  {
    match t
    case Nil => Node(Nil, k, Nil)
    case Node(l, x, rt) =>
      if k < x then AdjustTree(Node(InsertInto(l, k), x, rt))
      else AdjustTree(Node(l, x, InsertInto(rt, k)))
  }

  /** Where the descent of insert places `k` in the in-order sequence. */
  function InsertPosition(t: Tree, k: int): (p: nat)
    ensures p <= Size(t)
  {
    match t
    case Nil => 0
    case Node(l, x, r) =>
      if k < x then InsertPosition(l, k) else Size(l) + 1 + InsertPosition(r, k)
  }

  lemma SizeIsLength(t: Tree)
    ensures |InOrder(t)| == Size(t)
  {
  }

  /** Inserting at position `p` of the left part of `s == sl + [x] + sr` is inserting at `p` in `s`. */
  lemma SpliceLeft(s: seq<int>, sl: seq<int>, x: int, sr: seq<int>, k: int, p: nat, ins: seq<int>)
    requires s == sl + [x] + sr && p <= |sl| && ins == sl[..p] + [k] + sl[p..]
    ensures ins + [x] + sr == s[..p] + [k] + s[p..]
  {
    assert s[..p] == sl[..p];
    assert s[p..] == sl[p..] + [x] + sr;
  }

  /** Inserting at position `q` of the right part of `s == sl + [x] + sr` is inserting at `n`. */
  lemma SpliceRight(s: seq<int>, sl: seq<int>, x: int, sr: seq<int>, k: int, q: nat, n: nat, ins: seq<int>)
    requires s == sl + [x] + sr && q <= |sr| && n == |sl| + 1 + q && ins == sr[..q] + [k] + sr[q..]
    ensures sl + [x] + ins == s[..n] + [k] + s[n..]
  {
    assert s[..n] == sl + [x] + sr[..q];
    assert s[n..] == sr[q..];
  }

  /** The in-order sequence after insert, with the descent's position. */
  predicate InsertsAtPosition(t: Tree, k: int)
  {
    |InOrder(t)| == Size(t) &&
    InOrder(InsertInto(t, k)) ==
      InOrder(t)[..InsertPosition(t, k)] + [k] + InOrder(t)[InsertPosition(t, k)..]
  }

  /** One level of insert: the rebalanced node lists the new child's keys around its own. */
  lemma InsertIntoStep(l: Tree, x: int, r: Tree, k: int)
    ensures k < x ==> InOrder(InsertInto(Node(l, x, r), k)) == InOrder(InsertInto(l, k)) + [x] + InOrder(r)
    ensures x <= k ==> InOrder(InsertInto(Node(l, x, r), k)) == InOrder(l) + [x] + InOrder(InsertInto(r, k))
  {
  }

  /** One step of InsertInOrder: the key went into the left child. */
  lemma InsertInOrderLeft(l: Tree, x: int, r: Tree, k: int)
    requires k < x && InsertsAtPosition(l, k)
    ensures InsertsAtPosition(Node(l, x, r), k)
  {
    SizeIsLength(Node(l, x, r));
    InsertIntoStep(l, x, r, k);
    SpliceLeft(InOrder(Node(l, x, r)), InOrder(l), x, InOrder(r), k, InsertPosition(l, k),
      InOrder(InsertInto(l, k)));
  }

  /** One step of InsertInOrder: the key went into the right child. */
  lemma InsertInOrderRight(l: Tree, x: int, r: Tree, k: int)
    requires x <= k && InsertsAtPosition(r, k)
    ensures InsertsAtPosition(Node(l, x, r), k)
  {
    SizeIsLength(Node(l, x, r));
    SizeIsLength(l);
    InsertIntoStep(l, x, r, k);
    SpliceRight(InOrder(Node(l, x, r)), InOrder(l), x, InOrder(r), k, InsertPosition(r, k),
      InsertPosition(Node(l, x, r), k), InOrder(InsertInto(r, k)));
  }

  /** insert adds `k` at the position its descent reaches, and nowhere else. */
  lemma {:induction false} InsertInOrder(t: Tree, k: int)
    ensures InsertsAtPosition(t, k)
  {
    match t
    case Nil =>
    case Node(l, x, r) =>
      if k < x {
        InsertInOrder(l, k);
        InsertInOrderLeft(l, x, r, k);
      } else {
        InsertInOrder(r, k);
        InsertInOrderRight(l, x, r, k);
      }
  }

  /** A node is ordered exactly when its children are and its key separates them. */
  lemma OrderedNode(l: Tree, x: int, r: Tree)
    ensures Ordered(Node(l, x, r)) ==>
      Ordered(l) && Ordered(r) && (forall y :: y in InOrder(l) ==> y <= x) &&
      (forall y :: y in InOrder(r) ==> x <= y)
    ensures (Ordered(l) && Ordered(r) && (forall y :: y in InOrder(l) ==> y <= x) &&
             (forall y :: y in InOrder(r) ==> x <= y)) ==> Ordered(Node(l, x, r))
  {
    SortedAround(InOrder(l), x, InOrder(r));
  }

  /**
   * In an ordered tree the descent places `k` after every key that is at most
   * `k` (equal keys included: ties go right) and before every larger key.
   */
  lemma {:induction false} InsertPositionSplits(t: Tree, k: int)
    requires Ordered(t)
    ensures SplitsAt(InOrder(t), InsertPosition(t, k), k)
  {
    match t
    case Nil =>
    case Node(l, x, r) =>
      OrderedNode(l, x, r);
      SizeIsLength(l);
      if k < x {
        InsertPositionSplits(l, k);
        SplitsLeft(InOrder(l), x, InOrder(r), InsertPosition(l, k), k);
      } else {
        InsertPositionSplits(r, k);
        SplitsRight(InOrder(l), x, InOrder(r), InsertPosition(r, k), k);
      }
  }

  /** insert adds exactly one copy of the key. */
  lemma InsertKeys(t: Tree, k: int)
    ensures Keys(InsertInto(t, k)) == Keys(t) + multiset{k}
  {
    InsertInOrder(t, k);
    SpliceKeys(InOrder(t), InsertPosition(t, k), k);
  }

  /** insert keeps the search-tree order. */
  lemma InsertOrdered(t: Tree, k: int)
    requires Ordered(t)
    ensures Ordered(InsertInto(t, k))
  {
    InsertInOrder(t, k);
    InsertPositionSplits(t, k);
    SortedInsertAt(InOrder(t), InsertPosition(t, k), k);
  }

  // ---------------------------------------------------------------------
  // Balance

  /** Right-heavy by two: a single left rotation when the right child does not lean left. */
  lemma LeftRotationBalances(l: Tree, x: int, r: Tree)
    requires Balanced(l) && Balanced(r) && r.Node? && Height(r) == Height(l) + 2
    requires BalancingFactor(r) >= 0
    ensures Balanced(LeftRotation(Node(l, x, r)))
    ensures Height(r) <= Height(LeftRotation(Node(l, x, r))) <= Height(r) + 1
  {
  }

  /** Right-heavy by two with a left-leaning right child: a double left rotation. */
  lemma DoubleLeftRotationBalances(l: Tree, x: int, r: Tree)
    requires Balanced(l) && Balanced(r) && r.Node? && Height(r) == Height(l) + 2
    requires BalancingFactor(r) < 0
    ensures r.left.Node?
    ensures Balanced(DoubleLeftRotation(Node(l, x, r)))
    ensures Height(DoubleLeftRotation(Node(l, x, r))) == Height(r)
  {
    var Node(rl, _, rr) := r;
    assert Height(rl) == Height(l) + 1 && Height(rr) == Height(l);
    assert Height(rl.left) <= Height(l) && Height(rl.right) <= Height(l);
  }

  /** Left-heavy by two: a single right rotation when the left child does not lean right. */
  lemma RightRotationBalances(l: Tree, x: int, r: Tree)
    requires Balanced(l) && Balanced(r) && l.Node? && Height(l) == Height(r) + 2
    requires BalancingFactor(l) <= 0
    ensures Balanced(RightRotation(Node(l, x, r)))
    ensures Height(l) <= Height(RightRotation(Node(l, x, r))) <= Height(l) + 1
  {
  }

  /** Left-heavy by two with a right-leaning left child: a double right rotation. */
  lemma DoubleRightRotationBalances(l: Tree, x: int, r: Tree)
    requires Balanced(l) && Balanced(r) && l.Node? && Height(l) == Height(r) + 2
    requires BalancingFactor(l) > 0
    ensures l.right.Node?
    ensures Balanced(DoubleRightRotation(Node(l, x, r)))
    ensures Height(DoubleRightRotation(Node(l, x, r))) == Height(l)
  {
    var Node(ll, _, lr) := l;
    assert Height(lr) == Height(r) + 1 && Height(ll) == Height(r);
    assert Height(lr.left) <= Height(r) && Height(lr.right) <= Height(r);
  }

  /**
   * adjustTree repairs a node whose two balanced children differ in height by
   * at most two: the result is balanced and its height is the taller child's
   * height or one more (exactly one more when no rotation was needed).
   */
  lemma AdjustTreeBalances(l: Tree, x: int, r: Tree)
    requires Balanced(l) && Balanced(r)
    requires -2 <= Height(r) - Height(l) <= 2
    ensures Balanced(AdjustTree(Node(l, x, r)))
    ensures var m := Max(Height(l), Height(r));
      m <= Height(AdjustTree(Node(l, x, r))) <= m + 1
    ensures -1 <= Height(r) - Height(l) <= 1 ==>
      Height(AdjustTree(Node(l, x, r))) == Max(Height(l), Height(r)) + 1
  {
    var t := Node(l, x, r);
    if BalancingFactor(t) > 1 {
      if BalancingFactor(r) < 0 {
        DoubleLeftRotationBalances(l, x, r);
      } else {
        LeftRotationBalances(l, x, r);
      }
    } else if BalancingFactor(t) < -1 {
      if BalancingFactor(l) > 0 {
        DoubleRightRotationBalances(l, x, r);
      } else {
        RightRotationBalances(l, x, r);
      }
    }
  }

  /** insert keeps an AVL tree balanced, and grows its height by at most one. */
  lemma {:induction false} InsertBalanced(t: Tree, k: int)
    requires Balanced(t)
    ensures Balanced(InsertInto(t, k))
    ensures Height(t) <= Height(InsertInto(t, k)) <= Height(t) + 1
  {
    match t
    case Nil =>
    case Node(l, x, r) =>
      if k < x {
        InsertBalanced(l, k);
        AdjustTreeBalances(InsertInto(l, k), x, r);
      } else {
        InsertBalanced(r, k);
        AdjustTreeBalances(l, x, InsertInto(r, k));
      }
  }

  // ---------------------------------------------------------------------
  // Removal

  /** The key of the node minNode reaches by following left links. */
  function LeftmostKey(t: Tree): (m: int)
    requires t.Node?
    ensures |InOrder(t)| > 0 && m == InOrder(t)[0]
  {
    if t.left.Nil? then t.key else LeftmostKey(t.left)
  }

  /**
   * The subtree after swap(node, minNode(sub)) has written the removed key
   * into the leftmost node of `sub`; the shape is unchanged.
   */
  function WithLeftmostKey(t: Tree, k: int): (r: Tree)
    requires t.Node?
    ensures r.Node? && Size(r) == Size(t) && Height(r) == Height(t)
    ensures InOrder(r) == [k] + InOrder(t)[1..]
    ensures Balanced(r) <==> Balanced(t)
  {
    if t.left.Nil? then Node(Nil, k, t.right)
    else Node(WithLeftmostKey(t.left, k), t.key, t.right)
  }

  /** What remove's descent relies on at an ordered node that holds the key. */
  lemma RemoveStepFacts(l: Tree, x: int, r: Tree, k: int)
    requires Ordered(Node(l, x, r)) && k in InOrder(Node(l, x, r))
    ensures Ordered(l) && Ordered(r)
    ensures k < x ==> k in InOrder(l)
    ensures k > x ==> k in InOrder(r)
    ensures r.Node? ==> x <= LeftmostKey(r)
  {
    OrderedNode(l, x, r);
    if r.Node? {
      assert InOrder(r)[0] in InOrder(r);
    }
  }

  /** Writing a key no larger than the smallest one into the leftmost node keeps the order. */
  lemma WithLeftmostKeyOrdered(t: Tree, k: int)
    requires t.Node? && Ordered(t) && k <= LeftmostKey(t)
    ensures Ordered(WithLeftmostKey(t, k)) && k in InOrder(WithLeftmostKey(t, k))
  {
    var s, u := InOrder(t), InOrder(WithLeftmostKey(t, k));
    assert u[0] == k;
    forall i, j | 0 <= i < j < |u| ensures u[i] <= u[j] {
      assert u[j] == s[j];
      if i > 0 {
        assert u[i] == s[i];
      }
    }
  }

  /**
   * remove(key, node): descend by comparison; at the key, a node without a left
   * child is replaced by its right child, one without a right child by its
   * left child, and a node with two children takes the smallest key of its
   * right subtree, the key being removed from that subtree in its place.  Every
   * non-null result is passed through adjustTree.  The Java code dereferences
   * null when the key is absent, so the key must be present.
   */
  function RemoveFrom(t: Tree, k: int): (r: Tree)
    requires Ordered(t) && k in InOrder(t)
    decreases Size(t)
  {
    var Node(l, x, rt) := t;
    RemoveStepFacts(l, x, rt, k);
    if k < x then
      AdjustTree(Node(RemoveFrom(l, k), x, rt))
    else if k > x then
      AdjustTree(Node(l, x, RemoveFrom(rt, k)))
    else if l.Nil? then
      if rt.Nil? then Nil else AdjustTree(rt)
    else if rt.Nil? then
      AdjustTree(l)
    else
      WithLeftmostKeyOrdered(rt, k);
      AdjustTree(Node(l, LeftmostKey(rt), RemoveFrom(WithLeftmostKey(rt, k), k)))
  }

  /** The Java recursion reaches a null node exactly when it follows comparisons to a missing key. */
  predicate DescentReachesNull(t: Tree, k: int)
  {
    match t
    case Nil => true
    case Node(l, x, r) =>
      if k < x then DescentReachesNull(l, k)
      else if k > x then DescentReachesNull(r, k)
      else false
  }

  /** On an ordered tree, remove's descent dereferences null if and only if the key is absent. */
  lemma {:induction false} DescentReachesNullIffAbsent(t: Tree, k: int)
    requires Ordered(t)
    ensures DescentReachesNull(t, k) <==> k !in InOrder(t)
  {
    match t
    case Nil =>
    case Node(l, x, r) =>
      OrderedKeyBounds(l, x, r);
      OrderedNode(l, x, r);
      if k < x {
        DescentReachesNullIffAbsent(l, k);
        assert k !in Keys(r);
      } else if k > x {
        DescentReachesNullIffAbsent(r, k);
        assert k !in Keys(l);
      }
  }

  /** The keys of a node are its children's keys and its own. */
  lemma KeysNode(l: Tree, x: int, r: Tree)
    ensures Keys(Node(l, x, r)) == Keys(l) + multiset{x} + Keys(r)
  {
  }

  /** The keys of a rebalanced node are its children's keys and its own. */
  lemma KeysAdjusted(l: Tree, x: int, r: Tree)
    ensures Keys(AdjustTree(Node(l, x, r))) == Keys(l) + multiset{x} + Keys(r)
  {
    assert InOrder(AdjustTree(Node(l, x, r))) == InOrder(l) + [x] + InOrder(r);
  }

  /** The smallest key heads the in-order sequence; swap replaces exactly that head. */
  lemma LeftmostSplit(rt: Tree, k: int)
    requires rt.Node?
    ensures InOrder(rt) == [LeftmostKey(rt)] + InOrder(rt)[1..]
    ensures Keys(rt) == multiset{LeftmostKey(rt)} + multiset(InOrder(rt)[1..])
    ensures Keys(WithLeftmostKey(rt, k)) == multiset{k} + multiset(InOrder(rt)[1..])
  {
    assert InOrder(rt) == [LeftmostKey(rt)] + InOrder(rt)[1..];
  }

  /**
   * The two-children case of remove: `r` is `m` and a tail, `s` is `k` and the
   * same tail; putting `m` at the node and taking `k` out of `s` takes `k` out
   * of the whole.
   */
  lemma ReplaceByMinimum(l: multiset<int>, r: multiset<int>, s: multiset<int>, tail: multiset<int>, m: int, k: int)
    requires r == multiset{m} + tail && s == multiset{k} + tail
    ensures s - multiset{k} == tail
    ensures l + multiset{m} + (s - multiset{k}) == (l + multiset{k} + r) - multiset{k}
  {
    assert s - multiset{k} == tail;
  }

  /** Taking one copy of `k` out of the left part that holds it takes it out of the whole. */
  lemma RemoveFromLeftPart(a: multiset<int>, x: int, c: multiset<int>, k: int)
    requires k in a
    ensures (a - multiset{k}) + multiset{x} + c == (a + multiset{x} + c) - multiset{k}
  {
  }

  /** Taking one copy of `k` out of the right part that holds it takes it out of the whole. */
  lemma RemoveFromRightPart(a: multiset<int>, x: int, c: multiset<int>, k: int)
    requires k in c
    ensures a + multiset{x} + (c - multiset{k}) == (a + multiset{x} + c) - multiset{k}
  {
  }

  /** remove(k, t) holds the keys of `t` less one copy of `k`. */
  predicate RemovesOneCopy(t: Tree, k: int)
    requires Ordered(t) && k in InOrder(t)
  {
    Keys(RemoveFrom(t, k)) == Keys(t) - multiset{k}
  }

  /** One step of RemoveKeys: the key was removed from the left child. */
  lemma RemoveKeysLeft(l: Tree, x: int, rt: Tree, k: int)
    requires Ordered(Node(l, x, rt)) && k in InOrder(Node(l, x, rt)) && k < x
    requires Ordered(l) && k in InOrder(l) && RemovesOneCopy(l, k)
    ensures RemovesOneCopy(Node(l, x, rt), k)
  {
    var l' := RemoveFrom(l, k);
    assert RemoveFrom(Node(l, x, rt), k) == AdjustTree(Node(l', x, rt));
    KeysAdjusted(l', x, rt);
    KeysNode(l, x, rt);
    assert k in Keys(l);
    RemoveFromLeftPart(Keys(l), x, Keys(rt), k);
  }

  /** One step of RemoveKeys: the key was removed from the right child. */
  lemma RemoveKeysRight(l: Tree, x: int, rt: Tree, k: int)
    requires Ordered(Node(l, x, rt)) && k in InOrder(Node(l, x, rt)) && k > x
    requires Ordered(rt) && k in InOrder(rt) && RemovesOneCopy(rt, k)
    ensures RemovesOneCopy(Node(l, x, rt), k)
  {
    var r' := RemoveFrom(rt, k);
    assert RemoveFrom(Node(l, x, rt), k) == AdjustTree(Node(l, x, r'));
    KeysAdjusted(l, x, r');
    KeysNode(l, x, rt);
    assert k in Keys(rt);
    RemoveFromRightPart(Keys(l), x, Keys(rt), k);
  }

  /** One step of RemoveKeys: the key was found at a node with at most one child. */
  lemma RemoveKeysHere(l: Tree, x: int, rt: Tree)
    requires Ordered(Node(l, x, rt)) && (l.Nil? || rt.Nil?)
    ensures RemovesOneCopy(Node(l, x, rt), x)
  {
    var t := Node(l, x, rt);
    KeysNode(l, x, rt);
    if l.Node? {
      assert rt.Nil? && RemoveFrom(t, x) == AdjustTree(l);
      KeysAdjusted(l.left, l.key, l.right);
      KeysNode(l.left, l.key, l.right);
      KeysWithoutRoot(Keys(l), x, Keys(rt));
    } else if rt.Node? {
      assert RemoveFrom(t, x) == AdjustTree(rt);
      KeysAdjusted(rt.left, rt.key, rt.right);
      KeysNode(rt.left, rt.key, rt.right);
      KeysWithoutRoot(Keys(l), x, Keys(rt));
    } else {
      assert RemoveFrom(t, x) == Nil;
    }
  }

  lemma KeysWithoutRoot(L: multiset<int>, x: int, R: multiset<int>)
    requires L == multiset{} || R == multiset{}
    ensures L + multiset{x} + R - multiset{x} == L + R
  {
  }

  /** One step of RemoveKeys: the key was found at a node with two children. */
  lemma RemoveKeysSwapped(l: Tree, x: int, rt: Tree)
    requires Ordered(Node(l, x, rt)) && l.Node? && rt.Node?
    requires Ordered(WithLeftmostKey(rt, x)) && x in InOrder(WithLeftmostKey(rt, x))
    requires RemovesOneCopy(WithLeftmostKey(rt, x), x)
    ensures RemovesOneCopy(Node(l, x, rt), x)
  {
    var m, sw := LeftmostKey(rt), WithLeftmostKey(rt, x);
    var r' := RemoveFrom(sw, x);
    assert RemoveFrom(Node(l, x, rt), x) == AdjustTree(Node(l, m, r'));
    KeysAdjusted(l, m, r');
    KeysNode(l, x, rt);
    LeftmostSplit(rt, x);
    ReplaceByMinimum(Keys(l), Keys(rt), Keys(sw), multiset(InOrder(rt)[1..]), m, x);
  }

  /** remove takes away exactly one copy of the key. */
  lemma {:induction false} RemoveKeys(t: Tree, k: int)
    requires Ordered(t) && k in InOrder(t)
    ensures Keys(RemoveFrom(t, k)) == Keys(t) - multiset{k}
    decreases Size(t)
  {
    var l, x, rt := t.left, t.key, t.right;
    assert t == Node(l, x, rt);
    RemoveStepFacts(l, x, rt, k);
    if k < x {
      RemoveKeys(l, k);
      RemoveKeysLeft(l, x, rt, k);
    } else if k > x {
      RemoveKeys(rt, k);
      RemoveKeysRight(l, x, rt, k);
    } else if l.Nil? || rt.Nil? {
      RemoveKeysHere(l, x, rt);
    } else {
      var sw := WithLeftmostKey(rt, k);
      WithLeftmostKeyOrdered(rt, k);
      RemoveKeys(sw, k);
      RemoveKeysSwapped(l, x, rt);
    }
  }

  /** Every element after the first of a sorted sequence is at least the first. */
  lemma SortedTail(s: seq<int>)
    requires Sorted(s) && |s| > 0
    ensures forall y :: y in s[1..] ==> s[0] <= y
  {
    forall y | y in s[1..] ensures s[0] <= y {
      var j :| 0 <= j < |s[1..]| && s[1..][j] == y;
      assert s[j + 1] == y;
    }
  }

  /** A node is ordered when its children are and its key separates their key multisets. */
  lemma OrderedByKeys(l: Tree, x: int, r: Tree)
    requires Ordered(l) && Ordered(r)
    requires forall y :: y in Keys(l) ==> y <= x
    requires forall y :: y in Keys(r) ==> x <= y
    ensures Ordered(Node(l, x, r)) && Ordered(AdjustTree(Node(l, x, r)))
  {
    forall y | y in InOrder(l) ensures y <= x {
      assert y in Keys(l);
    }
    forall y | y in InOrder(r) ensures x <= y {
      assert y in Keys(r);
    }
    OrderedNode(l, x, r);
  }

  /**
   * In the two-children case the right subtree's smallest key separates the
   * left subtree from whatever holds the right subtree's other keys.
   */
  lemma MinimumSeparates(l: Tree, x: int, rt: Tree, r': Tree)
    requires Ordered(Node(l, x, rt)) && rt.Node?
    requires Keys(r') == multiset(InOrder(rt)[1..])
    ensures forall y :: y in Keys(l) ==> y <= LeftmostKey(rt)
    ensures forall y :: y in Keys(r') ==> LeftmostKey(rt) <= y
  {
    var m := LeftmostKey(rt);
    OrderedNode(l, x, rt);
    SortedTail(InOrder(rt));
    assert x <= m by {
      assert m in InOrder(rt);
    }
    forall y | y in Keys(l) ensures y <= m {
      assert y in InOrder(l);
    }
    forall y | y in Keys(r') ensures m <= y {
      assert y in InOrder(rt)[1..];
    }
  }

  /** One step of RemoveOrdered: the key was found at a node with two children. */
  lemma RemoveOrderedSwapped(l: Tree, x: int, rt: Tree)
    requires Ordered(Node(l, x, rt)) && l.Node? && rt.Node?
    requires Ordered(WithLeftmostKey(rt, x)) && x in InOrder(WithLeftmostKey(rt, x))
    requires Ordered(RemoveFrom(WithLeftmostKey(rt, x), x))
    requires RemovesOneCopy(WithLeftmostKey(rt, x), x)
    ensures Ordered(RemoveFrom(Node(l, x, rt), x))
  {
    var m, sw := LeftmostKey(rt), WithLeftmostKey(rt, x);
    var r' := RemoveFrom(sw, x);
    assert RemoveFrom(Node(l, x, rt), x) == AdjustTree(Node(l, m, r'));
    LeftmostSplit(rt, x);
    ReplaceByMinimum(multiset{}, Keys(rt), Keys(sw), multiset(InOrder(rt)[1..]), m, x);
    assert Keys(r') == multiset(InOrder(rt)[1..]);
    MinimumSeparates(l, x, rt, r');
    RemoveStepFacts(l, x, rt, x);
    OrderedByKeys(l, m, r');
  }

  /** In an ordered node the key bounds the keys of both children. */
  lemma OrderedKeyBounds(l: Tree, x: int, r: Tree)
    requires Ordered(Node(l, x, r))
    ensures forall y :: y in Keys(l) ==> y <= x
    ensures forall y :: y in Keys(r) ==> x <= y
  {
    OrderedNode(l, x, r);
    forall y | y in Keys(l) ensures y <= x {
      assert y in InOrder(l);
    }
    forall y | y in Keys(r) ensures x <= y {
      assert y in InOrder(r);
    }
  }

  /** Bounds on a multiset of keys hold for what is left after taking one key out. */
  lemma FewerKeysBounded(a: multiset<int>, b: multiset<int>, x: int, k: int)
    requires b == a - multiset{k}
    ensures (forall y :: y in a ==> y <= x) ==> (forall y :: y in b ==> y <= x)
    ensures (forall y :: y in a ==> x <= y) ==> (forall y :: y in b ==> x <= y)
  {
  }

  /** One step of RemoveOrdered: the key was removed from the left child. */
  lemma RemoveOrderedLeft(l: Tree, x: int, rt: Tree, k: int)
    requires Ordered(Node(l, x, rt)) && k in InOrder(Node(l, x, rt)) && k < x
    requires Ordered(l) && k in InOrder(l)
    requires Ordered(RemoveFrom(l, k)) && RemovesOneCopy(l, k)
    ensures Ordered(RemoveFrom(Node(l, x, rt), k))
  {
    var l' := RemoveFrom(l, k);
    OrderedKeyBounds(l, x, rt);
    FewerKeysBounded(Keys(l), Keys(l'), x, k);
    RemoveStepFacts(l, x, rt, k);
    OrderedByKeys(l', x, rt);
    assert RemoveFrom(Node(l, x, rt), k) == AdjustTree(Node(l', x, rt));
  }

  /** One step of RemoveOrdered: the key was removed from the right child. */
  lemma RemoveOrderedRight(l: Tree, x: int, rt: Tree, k: int)
    requires Ordered(Node(l, x, rt)) && k in InOrder(Node(l, x, rt)) && k > x
    requires Ordered(rt) && k in InOrder(rt)
    requires Ordered(RemoveFrom(rt, k)) && RemovesOneCopy(rt, k)
    ensures Ordered(RemoveFrom(Node(l, x, rt), k))
  {
    var r' := RemoveFrom(rt, k);
    OrderedKeyBounds(l, x, rt);
    FewerKeysBounded(Keys(rt), Keys(r'), x, k);
    RemoveStepFacts(l, x, rt, k);
    OrderedByKeys(l, x, r');
    assert RemoveFrom(Node(l, x, rt), k) == AdjustTree(Node(l, x, r'));
  }

  /** remove keeps the search-tree order. */
  lemma {:induction false} RemoveOrdered(t: Tree, k: int)
    requires Ordered(t) && k in InOrder(t)
    ensures Ordered(RemoveFrom(t, k))
    decreases Size(t)
  {
    var l, x, rt := t.left, t.key, t.right;
    assert t == Node(l, x, rt);
    RemoveStepFacts(l, x, rt, k);
    if k < x {
      RemoveOrdered(l, k);
      RemoveKeys(l, k);
      RemoveOrderedLeft(l, x, rt, k);
    } else if k > x {
      RemoveOrdered(rt, k);
      RemoveKeys(rt, k);
      RemoveOrderedRight(l, x, rt, k);
    } else if l.Nil? || rt.Nil? {
    } else {
      WithLeftmostKeyOrdered(rt, k);
      var sw := WithLeftmostKey(rt, k);
      RemoveOrdered(sw, k);
      RemoveKeys(sw, k);
      RemoveOrderedSwapped(l, x, rt);
    }
  }

  /** remove(k, t) is balanced and at most one lower than `t`. */
  predicate RemoveKeepsBalance(t: Tree, k: int)
    requires Ordered(t) && k in InOrder(t)
  {
    Balanced(RemoveFrom(t, k)) && Height(t) - 1 <= Height(RemoveFrom(t, k)) <= Height(t)
  }

  /** One step of RemoveBalanced: the key was removed from the left child. */
  lemma RemoveBalancedLeft(l: Tree, x: int, rt: Tree, k: int)
    requires Ordered(Node(l, x, rt)) && k in InOrder(Node(l, x, rt)) && k < x
    requires Balanced(Node(l, x, rt))
    requires Ordered(l) && k in InOrder(l) && RemoveKeepsBalance(l, k)
    ensures RemoveKeepsBalance(Node(l, x, rt), k)
  {
    var l' := RemoveFrom(l, k);
    AdjustTreeBalances(l', x, rt);
    assert RemoveFrom(Node(l, x, rt), k) == AdjustTree(Node(l', x, rt));
  }

  /** One step of RemoveBalanced: the key was removed from the right child. */
  lemma RemoveBalancedRight(l: Tree, x: int, rt: Tree, k: int)
    requires Ordered(Node(l, x, rt)) && k in InOrder(Node(l, x, rt)) && k > x
    requires Balanced(Node(l, x, rt))
    requires Ordered(rt) && k in InOrder(rt) && RemoveKeepsBalance(rt, k)
    ensures RemoveKeepsBalance(Node(l, x, rt), k)
  {
    var r' := RemoveFrom(rt, k);
    AdjustTreeBalances(l, x, r');
    assert RemoveFrom(Node(l, x, rt), k) == AdjustTree(Node(l, x, r'));
  }

  /** One step of RemoveBalanced: the key was found at a node with at most one child. */
  lemma RemoveBalancedHere(l: Tree, x: int, rt: Tree)
    requires Ordered(Node(l, x, rt)) && (l.Nil? || rt.Nil?) && Balanced(Node(l, x, rt))
    ensures RemoveKeepsBalance(Node(l, x, rt), x)
  {
    if l.Node? {
      AdjustTreeBalances(l.left, l.key, l.right);
    } else if rt.Node? {
      AdjustTreeBalances(rt.left, rt.key, rt.right);
    }
  }

  /** One step of RemoveBalanced: the key was found at a node with two children. */
  lemma RemoveBalancedSwapped(l: Tree, x: int, rt: Tree)
    requires Ordered(Node(l, x, rt)) && l.Node? && rt.Node? && Balanced(Node(l, x, rt))
    requires Ordered(WithLeftmostKey(rt, x)) && x in InOrder(WithLeftmostKey(rt, x))
    requires RemoveKeepsBalance(WithLeftmostKey(rt, x), x)
    ensures RemoveKeepsBalance(Node(l, x, rt), x)
  {
    var m, sw := LeftmostKey(rt), WithLeftmostKey(rt, x);
    var r' := RemoveFrom(sw, x);
    AdjustTreeBalances(l, m, r');
    assert RemoveFrom(Node(l, x, rt), x) == AdjustTree(Node(l, m, r'));
  }

  /** remove keeps an AVL tree balanced, and lowers its height by at most one. */
  lemma {:induction false} RemoveBalanced(t: Tree, k: int)
    requires Ordered(t) && k in InOrder(t) && Balanced(t)
    ensures Balanced(RemoveFrom(t, k))
    ensures Height(t) - 1 <= Height(RemoveFrom(t, k)) <= Height(t)
    decreases Size(t)
  {
    var l, x, rt := t.left, t.key, t.right;
    assert t == Node(l, x, rt);
    RemoveStepFacts(l, x, rt, k);
    if k < x {
      RemoveBalanced(l, k);
      RemoveBalancedLeft(l, x, rt, k);
    } else if k > x {
      RemoveBalanced(rt, k);
      RemoveBalancedRight(l, x, rt, k);
    } else if l.Nil? || rt.Nil? {
      RemoveBalancedHere(l, x, rt);
    } else {
      WithLeftmostKeyOrdered(rt, k);
      RemoveBalanced(WithLeftmostKey(rt, k), k);
      RemoveBalancedSwapped(l, x, rt);
    }
  }

  // ---------------------------------------------------------------------
  // Traversal

  /** The order a visit tag selects: "PRE", "POS", and in-order for any other tag. */
  function Traversal(t: Tree, tag: string): seq<int>
  {
    if tag == "PRE" then PreOrder(t) else if tag == "POS" then PostOrder(t) else InOrder(t)
  }

  /** Every traversal lists each node exactly once: the same keys as the in-order sequence. */
  lemma {:induction false} TraversalIsPermutation(t: Tree, tag: string)
    ensures multiset(Traversal(t, tag)) == Keys(t) && |Traversal(t, tag)| == Size(t)
  {
    match t
    case Nil =>
    case Node(l, k, r) =>
      TraversalIsPermutation(l, tag);
      TraversalIsPermutation(r, tag);
  }

  /** visit(node, type, list): appends the subtree's keys to the list in the order the tag asks for. */
  method Visit(t: Tree, tag: string, list: seq<int>) returns (out: seq<int>)
    ensures out == list + Traversal(t, tag)
  {
    out := list;
    if t.Node? {
      if tag == "PRE" {
        out := out + [t.key];
        out := Visit(t.left, tag, out);
        out := Visit(t.right, tag, out);
      } else if tag == "POS" {
        out := Visit(t.left, tag, out);
        out := Visit(t.right, tag, out);
        out := out + [t.key];
      } else {
        out := Visit(t.left, tag, out);
        out := out + [t.key];
        out := Visit(t.right, tag, out);
      }
    }
  }

  /** The subtree minNode stops at: follow left links until the left child is null. */
  function LeftmostNode(t: Tree): (m: Tree)
    requires t.Node?
    ensures m.Node? && m.left.Nil?
  {
    if t.left.Nil? then t else LeftmostNode(t.left)
  }

  /** The node minNode finds holds the smallest key of an ordered subtree. */
  lemma {:induction false} LeftmostNodeIsMinimum(t: Tree)
    requires t.Node? && Ordered(t)
    ensures LeftmostNode(t).key == LeftmostKey(t)
    ensures forall y :: y in InOrder(t) ==> LeftmostNode(t).key <= y
  {
    var Node(l, x, r) := t;
    OrderedNode(l, x, r);
    if l.Node? {
      LeftmostNodeIsMinimum(l);
    }
  }

  /** minNode: walk left links from the given node; null for a null argument. */
  method MinNode(t: Tree) returns (m: Tree)
    ensures t.Nil? ==> m.Nil?
    ensures t.Node? ==> m == LeftmostNode(t)
  {
    if t.Nil? {
      return Nil;
    }
    m := t;
    while m.left.Node?
      invariant m.Node? && LeftmostNode(m) == LeftmostNode(t)
      decreases Size(m)
    {
      m := m.left;
    }
  }

  /** The AVLTree object: its root is replaced by every insert and remove. */
  class AvlTree {
    var root: Tree

    ghost predicate Valid()
      reads this
    {
      Ordered(root) && Balanced(root)
    }

    /** A new tree is empty. */
    constructor ()
      ensures Valid() && root == Nil
    {
      root := Nil;
    }

    /** insert(key): the root becomes insert(key, root). */
    method Insert(key: int)
      requires Valid()
      modifies this
      ensures Valid()
      ensures root == InsertInto(old(root), key)
      ensures Keys(root) == Keys(old(root)) + multiset{key}
    {
      InsertOrdered(root, key);
      InsertBalanced(root, key);
      InsertKeys(root, key);
      root := InsertInto(root, key);
    }

    /** remove(key): the root becomes remove(key, root); the key must be present. */
    method Remove(key: int)
      requires Valid() && key in InOrder(root)
      modifies this
      ensures Valid()
      ensures root == RemoveFrom(old(root), key)
      ensures Keys(root) == Keys(old(root)) - multiset{key}
    {
      RemoveOrdered(root, key);
      RemoveBalanced(root, key);
      RemoveKeys(root, key);
      root := RemoveFrom(root, key);
    }

    /** toArrayList(type): null for an empty tree, otherwise the keys in the order the tag asks for. */
    method ToArrayList(tag: string) returns (r: Option<seq<int>>)
      ensures root.Nil? ==> r == None
      ensures root.Node? ==> r == Some(Traversal(root, tag))
    {
      if root.Nil? {
        return None;
      }
      var list := Visit(root, tag, []);
      assert list == Traversal(root, tag);
      r := Some(list);
    }
  }
}
