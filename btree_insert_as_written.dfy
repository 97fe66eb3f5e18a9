/**
 * insert of src/btree/BTree.java as written, with the children of a node
 * placed the way BNode.addChild places them: appended, then all used
 * children sorted again by their first keys.  With repeated keys a split's
 * halves can land after a sibling whose first key equals theirs, which
 * breaks the order of the tree; the lemmas below exhibit a tree where this
 * happens.  The rest of the model places the halves where the split child
 * was (BTreeInsertion.InsertInto); on trees of distinct keys the two build
 * the same tree (InsertTreeAgrees).
 */
module BTreeAsWrittenInsertion {
  import opened Wrappers
  import opened SortedSeqs
  import opened BNodes
  import opened BTreeNodes
  import opened BTreeInsertion
  import opened BTreeSearch
  import opened BTreeValidation

  /** The key addChild's comparator reads; 0 stands for the key of an empty node, which never reaches addChild. */
  function FirstKey(n: Node): int
  {
    if n.keys == [] then 0 else n.keys[0]
  }

  /** Inserts `c` behind every child whose first key is at most its own, the step of a stable insertion sort. */
  function InsertByFirstKey(cs: seq<Node>, c: Node): (r: seq<Node>)
    ensures |r| == |cs| + 1
    decreases |cs|
  {
    if cs == [] || FirstKey(cs[|cs| - 1]) <= FirstKey(c) then cs + [c]
    else InsertByFirstKey(cs[..|cs| - 1], c) + [cs[|cs| - 1]]
  }

  /** Arrays.sort of the used children by first key: a stable sort, computed by insertion. */
  function SortByFirstKey(cs: seq<Node>): (r: seq<Node>)
    ensures |r| == |cs|
    decreases |cs|
  {
    if cs == [] then [] else InsertByFirstKey(SortByFirstKey(cs[..|cs| - 1]), cs[|cs| - 1])
  }

  /** addChild: the child goes into the first free slot, then the used children are sorted. */
  function AddChild(cs: seq<Node>, c: Node): (r: seq<Node>)
    ensures |r| == |cs| + 1
  {
    SortByFirstKey(cs + [c])
  }

  /** addChild applied to each of `cs` in turn, as split fills its new nodes. */
  function AddChildren(acc: seq<Node>, cs: seq<Node>): (r: seq<Node>)
    ensures |r| == |acc| + |cs|
    decreases |cs|
  {
    if cs == [] then acc else AddChildren(AddChild(acc, cs[0]), cs[1..])
  }

  /** split as written: the halves receive their children through addChild. */
  function AsWrittenSplit(n: Node): (g: Grown)
    requires 1 <= |n.keys| && (n.children == [] || |n.children| == |n.keys| + 1)
    ensures g.Splits?
  {
    var mid := |n.keys| / 2;
    if n.children == [] then
      Splits(Node(n.keys[..mid], []), n.keys[mid], Node(n.keys[mid + 1..], []))
    else
      Splits(Node(n.keys[..mid], AddChildren([], n.children[..mid + 1])), n.keys[mid],
             Node(n.keys[mid + 1..], AddChildren([], n.children[mid + 1..])))
  }

  /** A node after a key was added to it, split as written when it has more than 2m keys. */
  function AsWrittenSettle(n: Node, m: nat): Grown
    requires n.children == [] || |n.children| == |n.keys| + 1
  {
    if |n.keys| <= 2 * m then Fits(n) else AsWrittenSplit(n)
  }

  /**
   * insert below `n` as written: when the child splits, the parent drops the
   * child (removeChild) and takes the two halves through addChild.
   */
  function AsWrittenInsertInto(n: Node, v: int, m: nat): Grown
    requires Linked(n)
    decreases n
  {
    if n.children == [] then
      AsWrittenSettle(Node(InsertSorted(n.keys, v), []), m)
    else
      var i := ChildFor(n.keys, v);
      match AsWrittenInsertInto(n.children[i], v, m)
      case Fits(c) => Fits(Node(n.keys, n.children[i := c]))
      case Splits(l, k, r) =>
        AsWrittenSettle(Node(InsertSorted(n.keys, k), AddChild(AddChild(RemoveAt(n.children, i), l), r)), m)
  }

  /** insert(value) as written on the root; a new root also takes its two children through addChild. */
  function AsWrittenInsertTree(root: Option<Node>, v: int, m: nat): Option<Node>
    requires root.Some? ==> Linked(root.value)
  {
    match root
    case None => Some(Node([v], []))
    case Some(r) =>
      match AsWrittenInsertInto(r, v, m)
      case Fits(c) => Some(c)
      case Splits(left, k, right) => Some(Node([k], AddChild(AddChild([], left), right)))
  }

  /** Children whose first keys strictly increase: the order addChild's sort leaves alone. */
  predicate FirstKeysIncrease(cs: seq<Node>)
  {
    forall i, j :: 0 <= i < j < |cs| ==> FirstKey(cs[i]) < FirstKey(cs[j])
  }

  /** Leaving one child out keeps the first keys increasing. */
  lemma FirstKeysWithout(A: seq<Node>, c: Node, B: seq<Node>)
    requires FirstKeysIncrease(A + [c] + B)
    ensures FirstKeysIncrease(A + B)
  {
    var s, t := A + [c] + B, A + B;
    forall i, j | 0 <= i < j < |t| ensures FirstKey(t[i]) < FirstKey(t[j]) {
      var i' := if i < |A| then i else i + 1;
      var j' := if j < |A| then j else j + 1;
      assert t[i] == s[i'] && t[j] == s[j'];
    }
  }

  /** A slice of children with increasing first keys has increasing first keys. */
  lemma FirstKeysSlice(cs: seq<Node>, a: nat, b: nat)
    requires FirstKeysIncrease(cs) && a <= b <= |cs|
    ensures FirstKeysIncrease(cs[a..b])
  {
    assert forall i :: 0 <= i < b - a ==> cs[a..b][i] == cs[a + i];
  }

  /** A child whose first key lies strictly between those of `A` and those of `B` is put between them. */
  lemma {:induction false} InsertByFirstKeyBetween(A: seq<Node>, c: Node, B: seq<Node>)
    requires FirstKeysIncrease(A + [c] + B)
    ensures InsertByFirstKey(A + B, c) == A + [c] + B
    decreases |B|
  {
    var s := A + [c] + B;
    if B == [] {
      assert A + B == A;
      if A != [] {
        assert A[|A| - 1] == s[|A| - 1] && c == s[|A|];
      }
    } else {
      var B', b := B[..|B| - 1], B[|B| - 1];
      assert s == (A + [c] + B') + [b] + [];
      FirstKeysWithout(A + [c] + B', b, []);
      assert A + [c] + B' + [] == A + [c] + B';
      InsertByFirstKeyBetween(A, c, B');
      assert c == s[|A|] && b == s[|s| - 1];
      assert A + B == (A + B') + [b];
    }
  }

  /** Sorting children whose first keys already increase changes nothing. */
  lemma {:induction false} SortByFirstKeyKeeps(cs: seq<Node>)
    requires FirstKeysIncrease(cs)
    ensures SortByFirstKey(cs) == cs
    decreases |cs|
  {
    if cs != [] {
      var n := |cs| - 1;
      var init := cs[..n];
      FirstKeysSlice(cs, 0, n);
      SortByFirstKeyKeeps(init);
      if init != [] {
        assert init[n - 1] == cs[n - 1];
      }
      assert init + [cs[n]] == cs;
    }
  }

  /** addChild places a child whose first key lies strictly between those of `A` and `B` between them. */
  lemma AddChildBetween(A: seq<Node>, c: Node, B: seq<Node>)
    requires FirstKeysIncrease(A + [c] + B)
    ensures AddChild(A + B, c) == A + [c] + B
  {
    FirstKeysWithout(A, c, B);
    SortByFirstKeyKeeps(A + B);
    assert (A + B + [c])[..|A + B|] == A + B;
    InsertByFirstKeyBetween(A, c, B);
  }

  /** addChild, child by child, keeps children whose first keys increase in their order. */
  lemma {:induction false} AddChildrenKeeps(acc: seq<Node>, cs: seq<Node>)
    requires FirstKeysIncrease(acc + cs)
    ensures AddChildren(acc, cs) == acc + cs
    decreases |cs|
  {
    if cs != [] {
      var acc' := acc + [cs[0]];
      assert acc + cs == acc' + cs[1..];
      assert (acc + cs)[..|acc'|] == acc' + [];
      FirstKeysSlice(acc + cs, 0, |acc'|);
      assert acc + [] == acc;
      AddChildBetween(acc, cs[0], []);
      AddChildrenKeeps(acc', cs[1..]);
    }
  }

  /** In a node whose in-order keys strictly increase, so do its children's first keys. */
  lemma ChildrenFirstKeysIncrease(n: Node)
    requires |n.children| == |n.keys| + 1 && Increasing(Elements(n))
    requires forall i :: 0 <= i < |n.children| ==> Linked(n.children[i])
    ensures FirstKeysIncrease(n.children)
  {
    var ks, cs := n.keys, n.children;
    IncreasingIsSorted(Elements(n));
    KeysSorted(ks, cs);
    forall i, j | 0 <= i < j < |cs| ensures FirstKey(cs[i]) < FirstKey(cs[j]) {
      KeysInElements(cs[i], cs[i].keys[0]);
      KeysInElements(cs[j], cs[j].keys[0]);
      ChildBoundsStrict(ks, cs, i);
      ChildBoundsStrict(ks, cs, j);
      assert ks[i] <= ks[j - 1];
    }
  }

  /** An inserted subtree of distinct keys, `v` new among them, still holds distinct keys. */
  lemma AddsKeyIncreasing(old_: seq<int>, new_: seq<int>, v: int)
    requires Increasing(old_) && v !in old_ && AddsKey(old_, new_, v)
    ensures Increasing(new_)
  {
    IncreasingIsSorted(old_);
    assert multiset(old_ + [v]) == multiset(old_) + multiset{v};
    SortingIsInsertion(old_, v, new_);
    InsertSortedIncreasing(old_, v);
  }

  /** Settling as written and by position agree when the node's children have increasing first keys. */
  lemma SettleAgrees(p: Node, m: nat)
    requires 1 <= |p.keys|
    requires p.children == [] || (|p.children| == |p.keys| + 1 && FirstKeysIncrease(p.children))
    ensures AsWrittenSettle(p, m) == Settle(p, m)
  {
    if |p.keys| > 2 * m && p.children != [] {
      var cs, mid := p.children, |p.keys| / 2;
      FirstKeysSlice(cs, 0, mid + 1);
      FirstKeysSlice(cs, mid + 1, |cs|);
      assert cs[mid + 1..|cs|] == cs[mid + 1..];
      assert [] + cs[..mid + 1] == cs[..mid + 1];
      assert [] + cs[mid + 1..] == cs[mid + 1..];
      AddChildrenKeeps([], cs[..mid + 1]);
      AddChildrenKeeps([], cs[mid + 1..]);
    }
  }

  /**
   * A parent whose child split: removeChild and two addChild calls leave
   * the halves where the child was, as Lifted does, when the keys are distinct.
   */
  lemma LiftedAgrees(n: Node, v: int, m: nat, lo: int, h: nat, l: Node, k: int, r: Node)
    requires 1 <= m && 1 <= lo <= m && Shaped(n, m, lo, 2 * m, h) && Linked(n) && n.children != []
    requires Increasing(Elements(n)) && v !in Elements(n)
    requires Shaped(l, m, m, 2 * m, h - 1) && Shaped(r, m, m, 2 * m, h - 1)
    requires AddsKey(Elements(n.children[ChildFor(n.keys, v)]), Elements(l) + [k] + Elements(r), v)
    ensures AsWrittenSettle(Node(InsertSorted(n.keys, k), AddChild(AddChild(RemoveAt(n.children, ChildFor(n.keys, v)), l), r)), m)
         == Settle(Lifted(n, ChildFor(n.keys, v), l, k, r), m)
  {
    var cs, i := n.children, ChildFor(n.keys, v);
    var p := Lifted(n, i, l, k, r);
    IncreasingIsSorted(Elements(n));
    LiftedSpec(n, v, m, lo, h, l, k, r);
    AddsKeyIncreasing(Elements(n), Elements(p), v);
    forall j | 0 <= j < |p.children| ensures Linked(p.children[j]) {
      ShapedLinked(p.children[j], m, m, 2 * m, h - 1);
    }
    ChildrenFirstKeysIncrease(p);
    var A, B := cs[..i], cs[i + 1..];
    assert p.children == A + [l] + [r] + B;
    FirstKeysWithout(A + [l], r, B);
    AddChildBetween(A, l, B);
    AddChildBetween(A + [l], r, B);
    SettleAgrees(p, m);
  }

  /** The child insert descends into keeps the facts the agreement needs. */
  lemma DescentChild(n: Node, v: int, m: nat, lo: int, h: nat)
    requires 1 <= m && Shaped(n, m, lo, 2 * m, h) && Linked(n) && n.children != []
    requires Increasing(Elements(n)) && v !in Elements(n)
    ensures Shaped(n.children[ChildFor(n.keys, v)], m, m, 2 * m, h - 1)
    ensures Linked(n.children[ChildFor(n.keys, v)])
    ensures Increasing(Elements(n.children[ChildFor(n.keys, v)]))
    ensures v !in Elements(n.children[ChildFor(n.keys, v)])
  {
    var ks, cs, i := n.keys, n.children, ChildFor(n.keys, v);
    ChildBoundsStrict(ks, cs, i);
    ChildElements(ks, cs, i);
  }

  /** Both inserts at an internal node whose child `i` took the key without splitting. */
  lemma FitsUnfold(n: Node, v: int, m: nat, i: nat, d: Node)
    requires Linked(n) && n.children != [] && i == ChildFor(n.keys, v)
    requires AsWrittenInsertInto(n.children[i], v, m) == InsertInto(n.children[i], v, m) == Fits(d)
    ensures AsWrittenInsertInto(n, v, m) == InsertInto(n, v, m)
  {
  }

  /** Both inserts at an internal node whose child `i` split into `l`, `k`, `r`. */
  lemma SplitsUnfold(n: Node, v: int, m: nat, i: nat, l: Node, k: int, r: Node)
    requires Linked(n) && n.children != [] && i == ChildFor(n.keys, v)
    requires AsWrittenInsertInto(n.children[i], v, m) == InsertInto(n.children[i], v, m) == Splits(l, k, r)
    ensures AsWrittenInsertInto(n, v, m)
         == AsWrittenSettle(Node(InsertSorted(n.keys, k), AddChild(AddChild(RemoveAt(n.children, i), l), r)), m)
    ensures InsertInto(n, v, m) == Settle(Lifted(n, i, l, k, r), m)
  {
  }

  /** An internal node whose child's insertion agrees: the node's insertion agrees too. */
  lemma InternalAgrees(n: Node, v: int, m: nat, lo: int, h: nat)
    requires 1 <= m && 1 <= lo <= m && Shaped(n, m, lo, 2 * m, h) && Linked(n) && n.children != []
    requires Increasing(Elements(n)) && v !in Elements(n)
    requires AsWrittenInsertInto(n.children[ChildFor(n.keys, v)], v, m) == InsertInto(n.children[ChildFor(n.keys, v)], v, m)
    ensures AsWrittenInsertInto(n, v, m) == InsertInto(n, v, m)
  {
    var i := ChildFor(n.keys, v);
    var c := n.children[i];
    match InsertInto(c, v, m)
    case Fits(d) =>
      FitsUnfold(n, v, m, i, d);
    case Splits(l, k, r) =>
      SplitChildAgrees(n, v, m, lo, h, l, k, r);
  }

  /** An internal node whose child split the same way under both inserts: the node's insertion agrees. */
  lemma SplitChildAgrees(n: Node, v: int, m: nat, lo: int, h: nat, l: Node, k: int, r: Node)
    requires 1 <= m && 1 <= lo <= m && Shaped(n, m, lo, 2 * m, h) && Linked(n) && n.children != []
    requires Increasing(Elements(n)) && v !in Elements(n)
    requires AsWrittenInsertInto(n.children[ChildFor(n.keys, v)], v, m) == InsertInto(n.children[ChildFor(n.keys, v)], v, m) == Splits(l, k, r)
    ensures AsWrittenInsertInto(n, v, m) == InsertInto(n, v, m)
  {
    ChildSplitShaped(n, v, m, lo, h, l, k, r);
    SplitsUnfold(n, v, m, ChildFor(n.keys, v), l, k, r);
    LiftedAgrees(n, v, m, lo, h, l, k, r);
  }

  /** The halves of a child that split hold its keys and `v` and are shaped one level down. */
  lemma ChildSplitShaped(n: Node, v: int, m: nat, lo: int, h: nat, l: Node, k: int, r: Node)
    requires 1 <= m && 1 <= lo <= m && Shaped(n, m, lo, 2 * m, h) && Linked(n) && n.children != []
    requires Increasing(Elements(n)) && v !in Elements(n)
    requires InsertInto(n.children[ChildFor(n.keys, v)], v, m) == Splits(l, k, r)
    ensures Shaped(l, m, m, 2 * m, h - 1) && Shaped(r, m, m, 2 * m, h - 1)
    ensures AddsKey(Elements(n.children[ChildFor(n.keys, v)]), Elements(l) + [k] + Elements(r), v)
  {
    var c := n.children[ChildFor(n.keys, v)];
    DescentChild(n, v, m, lo, h);
    IncreasingIsSorted(Elements(c));
    InsertIntoSpec(c, v, m, m, h - 1);
  }

  /**
   * On a subtree of distinct keys that does not hold `v`, insert as written
   * and insert by position build the same result.
   */
  lemma {:induction false} InsertIntoAgrees(n: Node, v: int, m: nat, lo: int, h: nat)
    requires 1 <= m && 1 <= lo <= m && Shaped(n, m, lo, 2 * m, h) && Linked(n)
    requires Increasing(Elements(n)) && v !in Elements(n)
    ensures AsWrittenInsertInto(n, v, m) == InsertInto(n, v, m)
    decreases n
  {
    if n.children == [] {
      SettleAgrees(Node(InsertSorted(n.keys, v), []), m);
    } else {
      DescentChild(n, v, m, lo, h);
      InsertIntoAgrees(n.children[ChildFor(n.keys, v)], v, m, m, h - 1);
      InternalAgrees(n, v, m, lo, h);
    }
  }

  /**
   * On a tree of distinct keys, inserting a key it does not hold as written
   * (children placed by addChild's sort) builds the same tree as the
   * positional insert the rest of the model uses.
   */
  lemma InsertTreeAgrees(root: Option<Node>, v: int, m: nat)
    requires ValidTree(root, m) && Increasing(TreeElements(root)) && v !in TreeElements(root)
    ensures root.Some? ==> Linked(root.value)
    ensures AsWrittenInsertTree(root, v, m) == InsertTree(root, v, m)
  {
    if root.Some? {
      var r, h := root.value, Height(root.value);
      ShapedLinked(r, m, 1, 2 * m, h);
      InsertIntoAgrees(r, v, m, 1, h);
      match InsertInto(r, v, m)
      case Fits(c) =>
      case Splits(left, k, right) =>
        RootSplitAgrees(r, v, m, left, k, right);
    }
  }

  /** A root that splits: the new root's two addChild calls keep the halves in order. */
  lemma RootSplitAgrees(r: Node, v: int, m: nat, left: Node, k: int, right: Node)
    requires ValidTree(Some(r), m) && Linked(r) && Increasing(Elements(r)) && v !in Elements(r)
    requires InsertInto(r, v, m) == Splits(left, k, right)
    ensures AddChild(AddChild([], left), right) == [left, right]
  {
    RootHalves(r, v, m, left, k, right);
    NewRootKeepsHalves(left, k, right);
  }

  /** The halves of a root that splits hold keys and, with the median between them, distinct keys in order. */
  lemma RootHalves(r: Node, v: int, m: nat, left: Node, k: int, right: Node)
    requires ValidTree(Some(r), m) && Linked(r) && Increasing(Elements(r)) && v !in Elements(r)
    requires InsertInto(r, v, m) == Splits(left, k, right)
    ensures Linked(left) && Linked(right)
    ensures Increasing(Elements(left) + [k] + Elements(right))
  {
    var h := Height(r);
    IncreasingIsSorted(Elements(r));
    InsertIntoSpec(r, v, m, 1, h);
    AddsKeyIncreasing(Elements(r), Elements(left) + [k] + Elements(right), v);
    ShapedLinked(left, m, m, 2 * m, h);
    ShapedLinked(right, m, m, 2 * m, h);
  }

  /** A new root's two addChild calls keep halves whose keys lie below and above the median. */
  lemma NewRootKeepsHalves(left: Node, k: int, right: Node)
    requires Linked(left) && Linked(right)
    requires Increasing(Elements(left) + [k] + Elements(right))
    ensures AddChild(AddChild([], left), right) == [left, right]
  {
    var t := Node([k], [left, right]);
    WeavePair(left, k, right);
    ChildrenFirstKeysIncrease(t);
    var none: seq<Node> := [];
    assert none + [left] + none == [left] && [left] + [right] + none == t.children;
    assert none + none == none && [left] + none == [left];
    AddChildBetween(none, left, none);
    AddChildBetween([left], right, none);
  }

  /** The tree that inserting 5, 5, 5, 6 and 5 into an empty 2-3 tree builds. */
  function DuplicatesTree(): Node
  {
    Node([5], [Node([5, 5], []), Node([5, 6], [])])
  }

  /** The tree after the third 5: the leaf [5, 5, 5] split around its middle key. */
  function SplitFives(): (t: Node)
    ensures Linked(t)
  {
    Node([5], [Node([5], []), Node([5], [])])
  }

  /** The tree after 6: the second leaf took it. */
  function SixAdded(): (t: Node)
    ensures Linked(t)
  {
    Node([5], [Node([5], []), Node([5, 6], [])])
  }

  /** The sorted insertions the example below performs. */
  lemma ExampleInsertions()
    ensures InsertSorted([5], 5) == [5, 5]
    ensures InsertSorted([5, 5], 5) == [5, 5, 5]
    ensures InsertSorted([5], 6) == [5, 6]
  {
    assert SlotFor([5], 5) == 1 by {
      assert SlotFor([5][1..], 5) == 0;
    }
    assert SlotFor([5, 5], 5) == 2 by {
      assert [5, 5][1..] == [5];
      assert SlotFor([5], 5) == 1 by {
        assert SlotFor([5][1..], 5) == 0;
      }
    }
    assert SlotFor([5], 6) == 1 by {
      assert SlotFor([5][1..], 6) == 0;
    }
  }

  /** A leaf takes a key without splitting while it holds at most two. */
  lemma LeafTakes(ks: seq<int>, v: int)
    requires ks != [] && |InsertSorted(ks, v)| <= 2
    ensures AsWrittenInsertInto(Node(ks, []), v, 1) == Fits(Node(InsertSorted(ks, v), []))
  {
  }

  /** A leaf holding 5, 5 that takes another 5 splits into two leaves holding 5 around the median 5. */
  lemma LeafOfFivesSplits()
    ensures AsWrittenInsertInto(Node([5, 5], []), 5, 1) == Splits(Node([5], []), 5, Node([5], []))
  {
    ExampleInsertions();
    var s := Node([5, 5, 5], []);
    assert AsWrittenInsertInto(Node([5, 5], []), 5, 1) == AsWrittenSplit(s);
    assert s.keys[..1] == [5] && s.keys[2..] == [5];
  }

  /** addChild keeps two children in place when the later one's first key is not smaller. */
  lemma AddChildInOrder(a: Node, b: Node)
    requires FirstKey(a) <= FirstKey(b)
    ensures AddChild([a], b) == [a, b]
  {
    assert [a, b][..1] == [a];
    assert SortByFirstKey([a]) == [a] by {
      assert [a][..0] == [];
    }
  }

  /** addChild puts a third child last when its first key is not smaller than the second's. */
  lemma AddChildThird(a: Node, b: Node, c: Node)
    requires FirstKey(a) <= FirstKey(b) <= FirstKey(c)
    ensures AddChild([a, b], c) == [a, b, c]
  {
    AddChildInOrder(a, b);
    assert [a, b, c][..2] == [a, b];
    assert SortByFirstKey([a, b]) == AddChild([a], b);
  }

  /** Inserting 5, 5, 5, 6 and 5, as written, into an empty tree with minimum 1 builds DuplicatesTree. */
  lemma DuplicatesTreeIsBuilt()
    ensures AsWrittenInsertTree(None, 5, 1) == Some(Node([5], []))
    ensures AsWrittenInsertTree(Some(Node([5], [])), 5, 1) == Some(Node([5, 5], []))
    ensures AsWrittenInsertTree(Some(Node([5, 5], [])), 5, 1) == Some(SplitFives())
    ensures AsWrittenInsertTree(Some(SplitFives()), 6, 1) == Some(SixAdded())
    ensures AsWrittenInsertTree(Some(SixAdded()), 5, 1) == Some(DuplicatesTree())
  {
    ExampleInsertions();
    var h := Node([5], []);
    LeafTakes([5], 5);
    LeafOfFivesSplits();
    assert AddChild([], h) == [h];
    AddChildInOrder(h, h);
    var t3 := Node([5], [h, h]);
    FourthInsertion(t3);
    var t4 := Node([5], [h, Node([5, 6], [])]);
    FifthInsertion(t4);
  }

  /** The fourth insertion: 6 goes down to the second leaf, which takes it. */
  lemma FourthInsertion(t3: Node)
    requires t3 == Node([5], [Node([5], []), Node([5], [])])
    ensures AsWrittenInsertTree(Some(t3), 6, 1) == Some(Node([5], [Node([5], []), Node([5, 6], [])]))
  {
    ExampleInsertions();
    assert ChildFor(t3.keys, 6) == 1;
    LeafTakes([5], 6);
    assert t3.children[1 := Node([5, 6], [])] == [Node([5], []), Node([5, 6], [])];
  }

  /** The fifth insertion: 5 goes down to the first leaf, which takes it. */
  lemma FifthInsertion(t4: Node)
    requires t4 == Node([5], [Node([5], []), Node([5, 6], [])])
    ensures AsWrittenInsertTree(Some(t4), 5, 1) == Some(DuplicatesTree())
  {
    ExampleInsertions();
    assert ChildFor(t4.keys, 5) == 0;
    LeafTakes([5], 5);
    assert t4.children[0 := Node([5, 5], [])] == DuplicatesTree().children;
  }

  /** The node the duplicate insertion below produces. */
  function BrokenTree(): Node
  {
    Node([5, 5], [Node([5, 6], []), Node([5], []), Node([5], [])])
  }

  /**
   * From DuplicatesTree, inserting 5 once more as written splits the first
   * child into two single-key halves, which addChild sorts after [5, 6].
   */
  lemma DuplicateInsertMisplaces()
    ensures ValidTree(Some(DuplicatesTree()), 1)
    ensures AsWrittenInsertTree(Some(DuplicatesTree()), 5, 1) == Some(BrokenTree())
  {
    DuplicatesTreeValid();
    var d := DuplicatesTree();
    var c1, h := Node([5, 6], []), Node([5], []);
    assert ChildFor(d.keys, 5) == 0;
    LeafOfFivesSplits();
    ExampleInsertions();
    assert RemoveAt(d.children, 0) == [c1];
    AddChildInOrder(c1, h);
    AddChildThird(c1, h, h);
  }

  /** DuplicatesTree is a valid tree: its in-order keys are 5, 5, 5, 5, 6. */
  lemma DuplicatesTreeValid()
    ensures ValidTree(Some(DuplicatesTree()), 1)
  {
    var d := DuplicatesTree();
    var c0, c1 := Node([5, 5], []), Node([5, 6], []);
    WeavePair(c0, 5, c1);
    assert Elements(d) == [5, 5, 5, 5, 6];
    assert Height(d) == 1;
  }

  /**
   * In that tree the in-order keys are out of order, validate() fails, and
   * the search of contains(6) goes down to the last child and misses the
   * key 6 the tree holds.
   */
  lemma BrokenTreeLosesKey()
    ensures Linked(BrokenTree()) && Inspectable(BrokenTree())
    ensures !ValidateNode(BrokenTree(), 1, true)
    ensures 6 in Elements(BrokenTree()) && Search(BrokenTree(), 6).None?
    ensures !Sorted(Elements(BrokenTree()))
  {
    var t := BrokenTree();
    var c1, h := Node([5, 6], []), Node([5], []);
    assert t.keys[1..] == [5] && t.children[1..] == [h, h];
    WeavePair(h, 5, h);
    assert Elements(t) == [5, 6, 5] + Elements(h) + [5] + Elements(h);
    assert Elements(t)[1] == 6 && Elements(t)[2] == 5;
    assert SearchStep(t, 6) == Down(2);
    assert SearchStep(h, 6) == Missing;
  }
}
