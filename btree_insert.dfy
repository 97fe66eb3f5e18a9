/**
 * insert and split of src/btree/BTree.java on node values.  The descent of
 * insert and the cascade of splits up through the parents are written as one
 * recursion: inserting into a subtree either leaves it fitting in its node
 * or hands the parent two halves and the median key between them.
 */
module BTreeInsertion {
  import opened Wrappers
  import opened SortedSeqs
  import opened BNodes
  import opened BTreeNodes

  /** What inserting into a subtree hands back to the node above it. */
  datatype Grown = Fits(node: Node) | Splits(left: Node, median: int, right: Node)

  /** The in-order keys of a grown subtree, the median between the two halves of a split. */
  function GrownElements(g: Grown): seq<int>
  {
    match g
    case Fits(n) => Elements(n)
    case Splits(l, k, r) => Elements(l) + [k] + Elements(r)
  }

  /** A grown subtree keeps the shape rules: a fitting node its own bounds, split halves the minimum. */
  predicate GrownShaped(g: Grown, m: nat, lo: int, h: nat)
  {
    match g
    case Fits(n) => Shaped(n, m, lo, 2 * m, h)
    case Splits(l, _, r) => Shaped(l, m, m, 2 * m, h) && Shaped(r, m, m, 2 * m, h)
  }

  /**
   * The search loop of insert over the inner keys: the first `r` from `i` on
   * with `v` above key `r - 1` and at most key `r`.
   */
  function FirstBetween(ks: seq<int>, v: int, i: nat): (r: nat)
    requires 1 <= i < |ks| && ks[i - 1] < v <= ks[|ks| - 1]
    ensures i <= r < |ks| && ks[r - 1] < v <= ks[r]
    ensures forall j :: i <= j < r ==> ks[j] < v
    decreases |ks| - i
  {
    if v <= ks[i] then i else FirstBetween(ks, v, i + 1)
  }

  /**
   * The child insert descends into: child 0 for a value at most the first
   * key, the last child for a value above the last key, and otherwise the
   * child between the two keys that bracket the value.
   */
  function ChildFor(ks: seq<int>, v: int): (r: nat)
    requires ks != []
    ensures r <= |ks|
    ensures 0 < r ==> ks[r - 1] < v
    ensures r < |ks| ==> v <= ks[r]
  {
    if v <= ks[0] then 0
    else if v > ks[|ks| - 1] then |ks|
    else FirstBetween(ks, v, 1)
  }

  /**
   * split: the keys before the median go to a new left node with the
   * children up to the median's, the keys after it to a new right node with
   * the rest of the children, and the median goes up.
   */
  function Split(n: Node): (g: Grown)
    requires 1 <= |n.keys| && (n.children == [] || |n.children| == |n.keys| + 1)
    ensures g.Splits?
  {
    var mid := |n.keys| / 2;
    if n.children == [] then
      Splits(Node(n.keys[..mid], []), n.keys[mid], Node(n.keys[mid + 1..], []))
    else
      Splits(Node(n.keys[..mid], n.children[..mid + 1]), n.keys[mid],
             Node(n.keys[mid + 1..], n.children[mid + 1..]))
  }

  /** A node after a key was added to it: kept when it has at most 2m keys, split otherwise. */
  function Settle(n: Node, m: nat): Grown
    requires n.children == [] || |n.children| == |n.keys| + 1
  {
    if |n.keys| <= 2 * m then Fits(n) else Split(n)
  }

  /**
   * insert below `n`: a leaf takes the key in sorted position; an internal
   * node passes it to the child ChildFor picks and, when that child splits,
   * takes the median in sorted position with the two halves where the child
   * was.  Either way a node left with more than 2m keys splits in turn.
   */
  function InsertInto(n: Node, v: int, m: nat): Grown
    requires Linked(n)
    decreases n
  {
    if n.children == [] then
      Settle(Node(InsertSorted(n.keys, v), []), m)
    else
      var i := ChildFor(n.keys, v);
      match InsertInto(n.children[i], v, m)
      case Fits(c) => Fits(Node(n.keys, n.children[i := c]))
      case Splits(l, k, r) => Settle(Lifted(n, i, l, k, r), m)
  }

  /**
   * The parent after its child `i` split: it takes the median in sorted
   * position and the two halves where the child was.
   */
  function Lifted(n: Node, i: nat, l: Node, k: int, r: Node): (p: Node)
    requires i < |n.children|
    ensures |p.keys| == |n.keys| + 1 && |p.children| == |n.children| + 1
  {
    Node(InsertSorted(n.keys, k), n.children[..i] + [l, r] + n.children[i + 1..])
  }

  /** The in-order keys of a whole tree: none for an empty tree. */
  function TreeElements(root: Option<Node>): seq<int>
  {
    match root
    case None => []
    case Some(r) => Elements(r)
  }

  /**
   * insert(value) on the root: an empty tree gets a root holding the key;
   * a root that splits is replaced by a new root holding the median, with
   * the two halves as its children.
   */
  function InsertTree(root: Option<Node>, v: int, m: nat): Option<Node>
    requires ValidTree(root, m)
  {
    match root
    case None => Some(Node([v], []))
    case Some(r) =>
      ShapedLinked(r, m, 1, 2 * m, Height(r));
      match InsertInto(r, v, m)
      case Fits(c) => Some(c)
      case Splits(left, k, right) => Some(Node([k], [left, right]))
  }

  /** A key in a sorted sequence between its neighbours at `i` is placed at `i` by the sorted insertion. */
  lemma InsertBetween(ks: seq<int>, i: nat, k: int)
    requires Sorted(ks) && i <= |ks|
    requires 0 < i ==> ks[i - 1] <= k
    requires i < |ks| ==> k <= ks[i]
    ensures InsertSorted(ks, k) == ks[..i] + [k] + ks[i..]
  {
    SortedInsertBetween(ks, i, k);
    SpliceKeys(ks, i, k);
    SortingIsInsertion(ks, k, ks[..i] + [k] + ks[i..]);
  }

  /** A node with one key and two children has the median between the halves' keys. */
  lemma WeavePair(l: Node, k: int, r: Node)
    ensures Weave([k], [l, r]) == Elements(l) + [k] + Elements(r)
  {
    assert [k][1..] == [] && [l, r][1..] == [r];
  }

  /** The weave of a node is the weave of its part before key `mid`, that key, and the weave of the rest. */
  lemma WeaveAroundKey(ks: seq<int>, cs: seq<Node>, mid: nat)
    requires |cs| == |ks| + 1 && mid < |ks|
    ensures Weave(ks[..mid], cs[..mid + 1]) + [ks[mid]] + Weave(ks[mid + 1..], cs[mid + 1..]) == Weave(ks, cs)
  {
    AroundEntry(ks, mid);
    TakeDrop(cs, mid + 1);
    WeaveJoin(ks[..mid], ks[mid], ks[mid + 1..], cs[..mid + 1], cs[mid + 1..]);
  }

  /** split keeps the in-order keys: the left half's, the median, then the right half's. */
  lemma SplitElements(n: Node)
    requires 1 <= |n.keys| && (n.children == [] || |n.children| == |n.keys| + 1)
    ensures GrownElements(Split(n)) == Elements(n)
  {
    var ks, cs, mid := n.keys, n.children, |n.keys| / 2;
    if cs == [] {
      assert Split(n) == Splits(Node(ks[..mid], []), ks[mid], Node(ks[mid + 1..], []));
      assert Elements(Node(ks[..mid], [])) == ks[..mid];
      assert Elements(Node(ks[mid + 1..], [])) == ks[mid + 1..];
      AroundEntry(ks, mid);
    } else {
      WeaveAroundKey(ks, cs, mid);
    }
  }

  /** Splitting a node of 2m + 1 keys gives two halves of m keys each, shaped one level down as before. */
  lemma SplitShaped(n: Node, m: nat, h: nat)
    requires 1 <= m && Shaped(n, m, 2 * m + 1, 2 * m + 1, h)
    ensures GrownShaped(Split(n), m, m, h)
  {
    var cs, mid := n.children, |n.keys| / 2;
    if 0 < h {
      assert AllShaped(cs, m, h - 1);
      AllShapedCut(cs, mid + 1, m, h - 1);
    }
  }

  /** Settling a node keeps its in-order keys and, up to 2m + 1 keys, the shape rules. */
  lemma SettleSpec(n: Node, m: nat, lo: int, h: nat)
    requires 1 <= m && lo <= 2 * m && Shaped(n, m, lo, 2 * m + 1, h)
    ensures GrownElements(Settle(n, m)) == Elements(n)
    ensures GrownShaped(Settle(n, m), m, lo, h)
  {
    if |n.keys| > 2 * m {
      assert Shaped(n, m, 2 * m + 1, 2 * m + 1, h);
      SplitElements(n);
      SplitShaped(n, m, h);
    }
  }

  /** The children of a node with child `i` replaced by `C` stay shaped when `C`'s nodes are. */
  lemma SplicedShaped(cs: seq<Node>, i: nat, C: seq<Node>, m: nat, h: nat)
    requires i < |cs| && AllShaped(cs, m, h) && AllShaped(C, m, h)
    ensures AllShaped(cs[..i] + C + cs[i + 1..], m, h)
  {
    AllShapedCut(cs, i, m, h);
    AllShapedCut(cs, i + 1, m, h);
    AllShapedJoin(cs[..i], C, m, h);
    AllShapedJoin(cs[..i] + C, cs[i + 1..], m, h);
  }

  /** The inserted subtree holds sorted keys: the old ones and `v`. */
  predicate AddsKey(old_: seq<int>, new_: seq<int>, v: int)
  {
    Sorted(new_) && multiset(new_) == multiset(old_) + multiset{v}
  }

  /** The weave of a node with child `i` replaced by `c`. */
  lemma ReplaceChildElements(ks: seq<int>, cs: seq<Node>, i: nat, c: Node)
    requires |cs| == |ks| + 1 && i < |cs|
    ensures Weave(ks, cs[i := c]) == Weave(ks[..i], cs[..i]) + Elements(c) + After(ks, cs, i)
  {
    SpliceElements(ks, cs, i, i, [], [c]);
    TakeDrop(ks, i);
    SpliceOne(cs, i, c);
    assert Weave([], [c]) == Elements(c);
  }

  /** The weave of a node with child `i` replaced by two halves around the key `k`. */
  lemma SplitChildElements(ks: seq<int>, cs: seq<Node>, i: nat, l: Node, k: int, r: Node)
    requires |cs| == |ks| + 1 && i < |cs|
    ensures Weave(ks[..i] + [k] + ks[i..], cs[..i] + [l, r] + cs[i + 1..])
         == Weave(ks[..i], cs[..i]) + (Elements(l) + [k] + Elements(r)) + After(ks, cs, i)
  {
    SpliceElements(ks, cs, i, i, [k], [l, r]);
    WeavePair(l, k, r);
  }

  /** The child picked for `v` lies between keys that bracket `v`. */
  predicate Brackets(ks: seq<int>, i: nat, v: int)
  {
    i <= |ks| && (0 < i ==> ks[i - 1] < v) && (i < |ks| ==> v <= ks[i])
  }

  /** The step of InsertIntoSpec where the child takes the key without splitting: the keys. */
  lemma FitsStepElements(ks: seq<int>, cs: seq<Node>, i: nat, v: int, c: Node)
    requires |cs| == |ks| + 1 && i < |cs| && Brackets(ks, i, v) && Sorted(Weave(ks, cs))
    requires AddsKey(Elements(cs[i]), Elements(c), v)
    ensures AddsKey(Weave(ks, cs), Weave(ks, cs[i := c]), v)
  {
    var pre, post := Weave(ks[..i], cs[..i]), After(ks, cs, i);
    ChildWindow(ks, cs, i);
    ReplaceChildElements(ks, cs, i, c);
    ReplaceMiddle(pre, Elements(cs[i]), post, Elements(c), v);
  }

  /** The step of InsertIntoSpec where the child splits and the median comes up: the keys. */
  lemma SplitsStepElements(ks: seq<int>, cs: seq<Node>, i: nat, v: int, l: Node, k: int, r: Node)
    requires |cs| == |ks| + 1 && i < |cs| && Brackets(ks, i, v) && Sorted(Weave(ks, cs))
    requires AddsKey(Elements(cs[i]), Elements(l) + [k] + Elements(r), v)
    ensures InsertSorted(ks, k) == ks[..i] + [k] + ks[i..]
    ensures AddsKey(Weave(ks, cs), Weave(InsertSorted(ks, k), cs[..i] + [l, r] + cs[i + 1..]), v)
  {
    var pre, post := Weave(ks[..i], cs[..i]), After(ks, cs, i);
    var g := Elements(l) + [k] + Elements(r);
    ChildWindow(ks, cs, i);
    ChildBounds(ks, cs, i);
    KeysSorted(ks, cs);
    MedianBetween(ks, cs, i, v, g, k);
    InsertBetween(ks, i, k);
    SplitChildElements(ks, cs, i, l, k, r);
    ReplaceMiddle(pre, Elements(cs[i]), post, g, v);
  }

  /** A key of the grown child lies between the keys around the child. */
  lemma MedianBetween(ks: seq<int>, cs: seq<Node>, i: nat, v: int, g: seq<int>, k: int)
    requires |cs| == |ks| + 1 && i < |cs| && Brackets(ks, i, v)
    requires 0 < i ==> forall x :: x in Elements(cs[i]) ==> ks[i - 1] <= x
    requires i < |ks| ==> forall x :: x in Elements(cs[i]) ==> x <= ks[i]
    requires multiset(g) == multiset(Elements(cs[i])) + multiset{v} && k in g
    ensures 0 < i ==> ks[i - 1] <= k
    ensures i < |ks| ==> k <= ks[i]
  {
    var e := Elements(cs[i]);
    assert k in multiset(g);
    if k != v {
      assert multiset(g)[k] == multiset(e)[k] + multiset{v}[k];
      assert k in multiset(e);
      assert k in e;
    }
  }

  /** The facts InsertIntoSpec proves: the result is shaped and holds the old keys and `v`, sorted. */
  predicate InsertedWell(n: Node, v: int, m: nat, lo: int, h: nat)
    requires Linked(n)
  {
    GrownShaped(InsertInto(n, v, m), m, lo, h) && AddsKey(Elements(n), GrownElements(InsertInto(n, v, m)), v)
  }

  /** InsertIntoSpec at a leaf. */
  lemma InsertLeafCase(n: Node, v: int, m: nat, lo: int, h: nat)
    requires 1 <= m && 1 <= lo <= m && Shaped(n, m, lo, 2 * m, h) && Sorted(Elements(n)) && Linked(n)
    requires n.children == []
    ensures InsertedWell(n, v, m, lo, h)
  {
    var p := Node(InsertSorted(n.keys, v), []);
    assert InsertInto(n, v, m) == Settle(p, m);
    assert Elements(n) == n.keys;
    InsertSortedProperties(n.keys, v);
    SettleSpec(p, m, lo, h);
  }

  /** InsertIntoSpec at an internal node whose child takes the key without splitting. */
  lemma InsertFitsCase(n: Node, v: int, m: nat, lo: int, h: nat, c: Node)
    requires 1 <= m && 1 <= lo <= m && Shaped(n, m, lo, 2 * m, h) && Sorted(Elements(n)) && Linked(n)
    requires n.children != [] && InsertInto(n.children[ChildFor(n.keys, v)], v, m) == Fits(c)
    requires Shaped(c, m, m, 2 * m, h - 1) && AddsKey(Elements(n.children[ChildFor(n.keys, v)]), Elements(c), v)
    ensures InsertedWell(n, v, m, lo, h)
  {
    var ks, cs, i := n.keys, n.children, ChildFor(n.keys, v);
    var p := Node(ks, cs[i := c]);
    assert InsertInto(n, v, m) == Fits(p);
    FitsStepElements(ks, cs, i, v, c);
    assert AllShaped(cs, m, h - 1);
    SplicedShaped(cs, i, [c], m, h - 1);
    SpliceOne(cs, i, c);
    ShapedInternal(p, m, lo, 2 * m, h);
  }

  /** The parent after its child split is shaped up to one key too many and holds the old keys and `v`. */
  lemma LiftedSpec(n: Node, v: int, m: nat, lo: int, h: nat, l: Node, k: int, r: Node)
    requires 1 <= m && 1 <= lo <= m && Shaped(n, m, lo, 2 * m, h) && Sorted(Elements(n)) && n.children != []
    requires Shaped(l, m, m, 2 * m, h - 1) && Shaped(r, m, m, 2 * m, h - 1)
    requires AddsKey(Elements(n.children[ChildFor(n.keys, v)]), Elements(l) + [k] + Elements(r), v)
    ensures Shaped(Lifted(n, ChildFor(n.keys, v), l, k, r), m, lo, 2 * m + 1, h)
    ensures AddsKey(Elements(n), Elements(Lifted(n, ChildFor(n.keys, v), l, k, r)), v)
  {
    var ks, cs, i := n.keys, n.children, ChildFor(n.keys, v);
    var p := Lifted(n, i, l, k, r);
    SplitsStepElements(ks, cs, i, v, l, k, r);
    assert AllShaped(cs, m, h - 1) && AllShaped([l, r], m, h - 1);
    SplicedShaped(cs, i, [l, r], m, h - 1);
    ShapedInternal(p, m, lo, 2 * m + 1, h);
  }

  /** InsertIntoSpec at an internal node whose child splits. */
  lemma InsertSplitsCase(n: Node, v: int, m: nat, lo: int, h: nat, l: Node, k: int, r: Node)
    requires 1 <= m && 1 <= lo <= m && Shaped(n, m, lo, 2 * m, h) && Sorted(Elements(n)) && Linked(n)
    requires n.children != [] && InsertInto(n.children[ChildFor(n.keys, v)], v, m) == Splits(l, k, r)
    requires Shaped(l, m, m, 2 * m, h - 1) && Shaped(r, m, m, 2 * m, h - 1)
    requires AddsKey(Elements(n.children[ChildFor(n.keys, v)]), Elements(l) + [k] + Elements(r), v)
    ensures InsertedWell(n, v, m, lo, h)
  {
    var p := Lifted(n, ChildFor(n.keys, v), l, k, r);
    assert InsertInto(n, v, m) == Settle(p, m);
    LiftedSpec(n, v, m, lo, h, l, k, r);
    SettleSpec(p, m, lo, h);
  }

  /**
   * Inserting into a shaped subtree with sorted in-order keys hands back a
   * shaped result whose in-order keys are the old ones plus `v`, sorted.
   */
  lemma {:induction false} InsertIntoSpec(n: Node, v: int, m: nat, lo: int, h: nat)
    requires 1 <= m && 1 <= lo <= m && Shaped(n, m, lo, 2 * m, h) && Sorted(Elements(n)) && Linked(n)
    ensures InsertedWell(n, v, m, lo, h)
    decreases n
  {
    if n.children == [] {
      InsertLeafCase(n, v, m, lo, h);
    } else {
      var ks, cs, i := n.keys, n.children, ChildFor(n.keys, v);
      ChildBounds(ks, cs, i);
      InsertIntoSpec(cs[i], v, m, m, h - 1);
      match InsertInto(cs[i], v, m)
      case Fits(c) =>
        InsertFitsCase(n, v, m, lo, h, c);
      case Splits(l, k, r) =>
        InsertSplitsCase(n, v, m, lo, h, l, k, r);
    }
  }

  /** The root after insert: valid, holding the old keys and `v` in sorted order. */
  predicate InsertedTree(root: Option<Node>, v: int, m: nat, t: Option<Node>)
  {
    ValidTree(t, m) && TreeElements(t) == InsertSorted(TreeElements(root), v)
  }

  /** insert on a root whose subtree fits the key. */
  lemma RootFits(r: Node, v: int, m: nat, c: Node)
    requires ValidTree(Some(r), m) && Shaped(c, m, 1, 2 * m, Height(r))
    requires AddsKey(Elements(r), Elements(c), v)
    ensures InsertedTree(Some(r), v, m, Some(c))
  {
    ShapedHeight(c, m, 1, 2 * m, Height(r));
    assert multiset(Elements(r) + [v]) == multiset(Elements(r)) + multiset{v};
    SortingIsInsertion(Elements(r), v, Elements(c));
  }

  /** insert on a root that splits: the new root holds the median above the two halves. */
  lemma RootSplits(r: Node, v: int, m: nat, left: Node, k: int, right: Node)
    requires ValidTree(Some(r), m)
    requires Shaped(left, m, m, 2 * m, Height(r)) && Shaped(right, m, m, 2 * m, Height(r))
    requires AddsKey(Elements(r), Elements(left) + [k] + Elements(right), v)
    ensures InsertedTree(Some(r), v, m, Some(Node([k], [left, right])))
  {
    var t := Node([k], [left, right]);
    ShapedHeight(left, m, m, 2 * m, Height(r));
    assert AllShaped(t.children, m, Height(r));
    ShapedInternal(t, m, 1, 2 * m, Height(r) + 1);
    WeavePair(left, k, right);
    assert multiset(Elements(r) + [v]) == multiset(Elements(r)) + multiset{v};
    SortingIsInsertion(Elements(r), v, Elements(t));
  }

  /**
   * insert keeps the tree valid and inserts `v` into its in-order keys in
   * sorted position, so the tree holds one key more.
   */
  lemma InsertTreeSpec(root: Option<Node>, v: int, m: nat)
    requires ValidTree(root, m)
    ensures ValidTree(InsertTree(root, v, m), m)
    ensures TreeElements(InsertTree(root, v, m)) == InsertSorted(TreeElements(root), v)
    ensures |TreeElements(InsertTree(root, v, m))| == |TreeElements(root)| + 1
  {
    match root
    case None =>
      assert Elements(Node([v], [])) == [v];
    case Some(r) =>
      var h := Height(r);
      ShapedLinked(r, m, 1, 2 * m, h);
      InsertIntoSpec(r, v, m, 1, h);
      match InsertInto(r, v, m)
      case Fits(c) =>
        assert InsertTree(root, v, m) == Some(c);
        RootFits(r, v, m, c);
      case Splits(left, k, right) =>
        assert InsertTree(root, v, m) == Some(Node([k], [left, right]));
        RootSplits(r, v, m, left, k, right);
  }
}
