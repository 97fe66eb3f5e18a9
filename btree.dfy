/**
 * The BTree class of src/btree/BTree.java: the tree object with its order
 * fields, root and size, and the loops of getBNode, getGreatestBNode,
 * getIndexOfPreviousValue, getIndexOfNextValue and visit, each proved
 * against the function the tree model uses for it.
 */
module BTrees {
  import opened Wrappers
  import opened SortedSeqs
  import opened BNodes
  import opened BTreeNodes
  import opened BTreeInsertion
  import opened BTreeSearch
  import opened BTreeValidation
  import opened BTreeRemoval

  /** The children visit reaches after child `j - 1`: child `j`'s keys, or nothing when there is no child `j`. */
  function ChildKeys(cs: seq<Node>, j: nat): seq<int>
  {
    if j < |cs| then Elements(cs[j]) else []
  }

  /** The keys visit's loop adds from key `i` on: each key, followed by the child after it when there is one. */
  function KeysFrom(ks: seq<int>, cs: seq<Node>, i: nat): seq<int>
    decreases |ks| - i
  {
    if i >= |ks| then [] else [ks[i]] + ChildKeys(cs, i + 1) + KeysFrom(ks, cs, i + 1)
  }

  /** Without children the loop adds the remaining keys. */
  lemma {:induction false} KeysFromLeaf(ks: seq<int>, i: nat)
    requires i <= |ks|
    ensures KeysFrom(ks, [], i) == ks[i..]
    decreases |ks| - i
  {
    if i < |ks| {
      KeysFromLeaf(ks, i + 1);
      assert ks[i..] == [ks[i]] + ks[i + 1..];
    }
  }

  /** The loop from key `i + 1` reads the same as the loop from key `i` with the first key and child dropped. */
  lemma {:induction false} KeysFromShift(ks: seq<int>, cs: seq<Node>, i: nat)
    requires ks != [] && cs != []
    ensures KeysFrom(ks, cs, i + 1) == KeysFrom(ks[1..], cs[1..], i)
    decreases |ks| - i
  {
    if i + 1 < |ks| {
      KeysFromShift(ks, cs, i + 1);
    }
  }

  /** visit's order is the weave: child 0, then each key and the child after it. */
  lemma {:induction false} WeaveIsVisit(ks: seq<int>, cs: seq<Node>)
    ensures Weave(ks, cs) == ChildKeys(cs, 0) + KeysFrom(ks, cs, 0)
    decreases cs
  {
    if cs == [] {
      KeysFromLeaf(ks, 0);
    } else if ks != [] {
      WeaveIsVisit(ks[1..], cs[1..]);
      KeysFromShift(ks, cs, 0);
      assert ChildKeys(cs, 1) == ChildKeys(cs[1..], 0);
    }
  }

  /** The in-order branch of visit: child 0, then each key followed by the child after it, when there is one. */
  method VisitInOrder(n: Node, list: seq<int>) returns (out: seq<int>)
    ensures out == list + Elements(n)
    decreases n
  {
    out := list;
    var ks, cs := n.keys, n.children;
    if 0 < |cs| {
      out := VisitInOrder(cs[0], out);
    }
    var i := 0;
    ghost var goal := list + ChildKeys(cs, 0) + KeysFrom(ks, cs, 0);
    while i < |ks|
      invariant 0 <= i <= |ks|
      invariant out + KeysFrom(ks, cs, i) == goal
    {
      ghost var before := out;
      out := out + [ks[i]];
      if i + 1 < |cs| {
        out := VisitInOrder(cs[i + 1], out);
      }
      assert out == before + [ks[i]] + ChildKeys(cs, i + 1);
      Regroup(before, [ks[i]], ChildKeys(cs, i + 1), KeysFrom(ks, cs, i + 1));
      i := i + 1;
    }
    assert KeysFrom(ks, cs, i) == [] && out + [] == out;
    WeaveIsVisit(ks, cs);
    assert Elements(n) == ChildKeys(cs, 0) + KeysFrom(ks, cs, 0);
    assert goal == list + (ChildKeys(cs, 0) + KeysFrom(ks, cs, 0));
  }

  /** Concatenation regrouped: a run, then a key and a child's keys, then the rest. */
  lemma Regroup(a: seq<int>, k: seq<int>, c: seq<int>, rest: seq<int>)
    ensures a + k + c + rest == a + (k + c + rest)
  {
  }

  /** visit(node, type, list): the tags "PRE" and "POS" add nothing (the source reports them on stderr); any other tag visits in order. */
  method Visit(n: Node, tag: string, list: seq<int>) returns (out: seq<int>)
    ensures out == list + (if tag == "PRE" || tag == "POS" then [] else Elements(n))
  {
    if tag == "PRE" || tag == "POS" {
      out := list;
    } else {
      out := VisitInOrder(n, list);
    }
  }

  /** The leaf getGreatestBNode stops at: follow the last child until there is none. */
  function RightmostLeaf(n: Node): (leaf: Node)
    requires Linked(n)
    ensures leaf.children == [] && leaf.keys != []
    decreases n
  {
    if n.children == [] then n else RightmostLeaf(n.children[|n.children| - 1])
  }

  /** The greatest key of a linked subtree: the last key of its rightmost leaf. */
  function Greatest(n: Node): int
    requires Linked(n)
  {
    var leaf := RightmostLeaf(n);
    leaf.keys[|leaf.keys| - 1]
  }

  /**
   * The last key of the rightmost leaf is the last of the in-order keys, and
   * it is the key RemoveGreatest takes out.
   */
  lemma RightmostLeafHoldsGreatest(n: Node, m: nat)
    requires Linked(n)
    ensures Elements(n) != []
    ensures Elements(n)[|Elements(n)| - 1] == RightmostLeaf(n).keys[|RightmostLeaf(n).keys| - 1]
    ensures RemoveGreatest(n, m).key == RightmostLeaf(n).keys[|RightmostLeaf(n).keys| - 1]
  {
    GreatestIsLast(n);
    GreatestIsTaken(n, m);
  }

  lemma {:induction false} GreatestIsLast(n: Node)
    requires Linked(n)
    ensures Elements(n) != [] && Elements(n)[|Elements(n)| - 1] == Greatest(n)
    decreases n
  {
    if n.children != [] {
      var ks, cs := n.keys, n.children;
      var c := cs[|cs| - 1];
      GreatestIsLast(c);
      assert Greatest(n) == Greatest(c);
      WeaveLast(ks, cs);
      var e := Elements(c);
      assert Elements(n) == Weave(ks, cs[..|ks|]) + e;
      assert Elements(n)[|Elements(n)| - 1] == e[|e| - 1];
    }
  }

  lemma {:induction false} GreatestIsTaken(n: Node, m: nat)
    requires Linked(n)
    ensures RemoveGreatest(n, m).key == Greatest(n)
    decreases n
  {
    if n.children != [] {
      var c := n.children[|n.children| - 1];
      GreatestIsTaken(c, m);
      assert Greatest(n) == Greatest(c);
      assert RemoveGreatest(n, m).key == RemoveGreatest(c, m).key;
    }
  }

  /** getGreatestBNode: walks down the last children to the rightmost leaf. */
  method GreatestLeaf(n: Node) returns (leaf: Node)
    requires Linked(n)
    ensures leaf == RightmostLeaf(n)
  {
    leaf := n;
    while |leaf.children| > 0
      invariant Linked(leaf) && RightmostLeaf(leaf) == RightmostLeaf(n)
      decreases leaf
    {
      leaf := leaf.children[|leaf.children| - 1];
    }
  }

  /** getIndexOfPreviousValue: the slot before the first key from slot 1 on that is at least `value`, or the last slot. */
  method PreviousValueIndex(ks: seq<int>, value: int) returns (r: int)
    ensures r == PreviousIndex(ks, value)
  {
    var i := 1;
    while i < |ks|
      invariant 1 <= i && PrevFrom(ks, value, i) == PreviousIndex(ks, value)
    {
      if ks[i] >= value {
        return i - 1;
      }
      i := i + 1;
    }
    return |ks| - 1;
  }

  /** getIndexOfNextValue: the first slot whose key is at least `value`, or the last slot. */
  method NextValueIndex(ks: seq<int>, value: int) returns (r: int)
    ensures r == NextIndex(ks, value)
  {
    var i := 0;
    while i < |ks|
      invariant 0 <= i && NextFrom(ks, value, i) == NextIndex(ks, value)
    {
      if ks[i] >= value {
        return i;
      }
      i := i + 1;
    }
    return |ks| - 1;
  }

  /** A key inserted into a valid tree is found by the search afterwards. */
  lemma InsertedIsFound(root: Option<Node>, v: int, m: nat)
    requires ValidTree(root, m)
    ensures var t := InsertTree(root, v, m);
      (t.Some? ==> Linked(t.value)) && SearchTree(t, v).Some?
  {
    var t := InsertTree(root, v, m);
    InsertTreeSpec(root, v, m);
    var s := TreeElements(root);
    IncreasingIsSorted([]);
    ShapedLinked(t.value, m, 1, 2 * m, Height(t.value));
    InsertSortedProperties(s, v);
    assert v in multiset(TreeElements(t));
    SearchTreeFinds(t, v);
  }

  /** A key removed from a valid tree with distinct keys is not found by the search afterwards. */
  lemma RemovedIsGone(root: Option<Node>, v: int, m: nat)
    requires ValidTree(root, m) && Increasing(TreeElements(root))
    ensures root.Some? ==> Linked(root.value)
    ensures var t := RemoveTree(root, v, m);
      (t.Some? ==> Linked(t.value)) && SearchTree(t, v).None?
  {
    if root.Some? {
      ShapedLinked(root.value, m, 1, 2 * m, Height(root.value));
    }
    var t := RemoveTree(root, v, m);
    RemoveTreeSpec(root, v, m);
    var s := TreeElements(root);
    IncreasingIsSorted(s);
    WithoutSpec(s, v);
    assert multiset(TreeElements(t)) == multiset(s) - multiset{v};
    if v in s {
      var i := Find(s, v);
      assert s[i] == v;
      assert multiset(s)[v] == 1 by {
        IncreasingCountsOnce(s, i);
      }
    } else {
      assert v !in multiset(s);
    }
    assert v !in multiset(TreeElements(t));
    if t.Some? {
      ShapedLinked(t.value, m, 1, 2 * m, Height(t.value));
      IncreasingIsSorted(TreeElements(t));
    }
    SearchTreeFinds(t, v);
  }

  /** remove of a key the tree holds: with distinct keys, the tree stays valid and holds one key fewer. */
  lemma RemoveFoundKey(root: Option<Node>, v: int, m: nat)
    requires ValidTree(root, m) && (root.Some? ==> Linked(root.value)) && v in TreeElements(root)
    ensures var t := RemoveTree(root, v, m);
      Increasing(TreeElements(root)) ==>
        ValidTree(t, m) && (t.Some? ==> Linked(t.value))
        && TreeElements(t) == Without(TreeElements(root), v)
        && |TreeElements(t)| == |TreeElements(root)| - 1
  {
    if Increasing(TreeElements(root)) {
      RemoveTreeSpec(root, v, m);
      RemovedIsGone(root, v, m);
    }
  }

  /** In a strictly increasing sequence every element occurs once. */
  lemma {:induction false} IncreasingCountsOnce(s: seq<int>, i: nat)
    requires Increasing(s) && i < |s|
    ensures multiset(s)[s[i]] == 1
  {
    assert s == s[..i] + [s[i]] + s[i + 1..];
    IncreasingAround(s[..i], s[i], s[i + 1..]);
    assert s[i] !in s[..i] && s[i] !in s[i + 1..];
    assert multiset(s) == multiset(s[..i]) + multiset{s[i]} + multiset(s[i + 1..]);
  }

  /**
   * The BTree object: the order fields fixed by the constructor, the root
   * (null for an empty tree) and the number of keys inserted and not
   * removed.
   */
  class BTree {
    var minKeySize: nat
    var minChildrenSize: nat
    var maxKeySize: nat
    var maxChildrenSize: nat
    var root: Option<Node>
    var size: nat

    /** The order fields agree, the tree is valid, and size counts its keys. */
    ghost predicate Valid()
      reads this
    {
      1 <= minKeySize && minChildrenSize == minKeySize + 1
      && maxKeySize == 2 * minKeySize && maxChildrenSize == maxKeySize + 1
      && ValidTree(root, minKeySize) && (root.Some? ==> Linked(root.value))
      && size == |TreeElements(root)|
    }

    /** BTree(): an empty 2-3 tree (one to two keys per node). */
    constructor ()
      ensures Valid() && root == None && size == 0
      ensures minKeySize == 1 && maxKeySize == 2 && minChildrenSize == 2 && maxChildrenSize == 3
    {
      minKeySize := 1;
      minChildrenSize := 2;
      maxKeySize := 2;
      maxChildrenSize := 3;
      root := None;
      size := 0;
    }

    /** BTree(order): an empty tree whose nodes below the root hold `order` to 2 * `order` keys. */
    constructor WithOrder(order: nat)
      requires 1 <= order
      ensures Valid() && root == None && size == 0
      ensures minKeySize == order && maxKeySize == 2 * order
      ensures minChildrenSize == order + 1 && maxChildrenSize == 2 * order + 1
    {
      minKeySize := order;
      minChildrenSize := order + 1;
      maxKeySize := 2 * order;
      maxChildrenSize := 2 * order + 1;
      root := None;
      size := 0;
    }

    /** insert(value): the key goes into its sorted place among the in-order keys; always true. */
    method Insert(value: int) returns (inserted: bool)
      requires Valid()
      modifies this`root, this`size
      ensures Valid() && inserted
      ensures root == InsertTree(old(root), value, minKeySize)
      ensures TreeElements(root) == InsertSorted(old(TreeElements(root)), value)
      ensures size == old(size) + 1
    {
      InsertTreeSpec(root, value, minKeySize);
      InsertedIsFound(root, value, minKeySize);
      root := InsertTree(root, value, minKeySize);
      size := size + 1;
      inserted := true;
    }

    /**
     * getBNode(value): from the root, go down to child 0 below the first
     * key, past the last key to the child after it, give up when that child
     * is missing, and otherwise scan the keys.
     */
    method GetBNode(value: int) returns (found: Option<Node>)
      requires root.Some? ==> Linked(root.value)
      ensures found == SearchTree(root, value)
    {
      if root.None? {
        return None;
      }
      var n := root.value;
      while true
        invariant Linked(n) && BTreeSearch.Search(n, value) == SearchTree(root, value)
        decreases n
      {
        var ks, cs := n.keys, n.children;
        if value < ks[0] {
          if |cs| > 0 {
            n := cs[0];
            continue;
          }
          return None;
        }
        var numberOfKeys := |ks|;
        var last := numberOfKeys - 1;
        if value > ks[last] {
          if |cs| > numberOfKeys {
            n := cs[numberOfKeys];
            continue;
          }
          return None;
        }
        var i := 0;
        while true
          invariant 0 <= i < numberOfKeys && ks[i] <= value && KeyStep(n, value, i) == SearchStep(n, value)
          decreases numberOfKeys - i
        {
          if ks[i] == value {
            return Some(n);
          }
          var next := i + 1;
          if ks[next] > value {
            if next < |cs| {
              n := cs[next];
              break;
            }
            return None;
          }
          i := next;
        }
      }
    }

    /**
     * remove(value): nothing changes when the search finds no node holding
     * the key; otherwise the key comes out of the tree and size drops by one.
     */
    method Remove(value: int) returns (removed: Option<int>)
      requires Valid()
      modifies this`root, this`size
      ensures root == RemoveTree(old(root), value, minKeySize)
      ensures removed.Some? <==> value in old(TreeElements(root))
      ensures removed.Some? ==> removed.value == value
      ensures Increasing(old(TreeElements(root))) ==>
                Valid() && TreeElements(root) == Without(old(TreeElements(root)), value)
    {
      SearchTreeFinds(root, value);
      var node := GetBNode(value);
      if node.Some? {
        RemoveFoundKey(root, value, minKeySize);
        root := RemoveTree(root, value, minKeySize);
        size := size - 1;
        removed := Some(value);
      } else {
        removed := None;
      }
    }

    /** contains(value): whether the tree holds the key. */
    method Contains(value: int) returns (b: bool)
      requires Valid()
      ensures b <==> value in TreeElements(root)
    {
      SearchTreeFinds(root, value);
      var node := GetBNode(value);
      b := node.Some?;
    }

    /** search(value): the node holding the key, if the tree holds it. */
    method Search(value: int) returns (found: Option<Node>)
      requires Valid()
      ensures found.Some? <==> value in TreeElements(root)
      ensures found.Some? ==> value in found.value.keys
    {
      SearchTreeFinds(root, value);
      found := GetBNode(value);
    }

    /** clear(): the tree becomes empty. */
    method Clear()
      requires Valid()
      modifies this`root, this`size
      ensures Valid() && root == None && size == 0
    {
      root := None;
      size := 0;
    }

    /** size(): the number of keys the tree holds. */
    method Size() returns (s: nat)
      requires Valid()
      ensures s == |TreeElements(root)|
    {
      s := size;
    }

    /** validate(): every tree this object keeps passes. */
    method Validate() returns (b: bool)
      requires Valid()
      ensures root.Some? ==> Inspectable(root.value)
      ensures b && b == BTreeValidation.Validate(root, minKeySize)
    {
      ValidTreeValidates(root, minKeySize);
      b := BTreeValidation.Validate(root, minKeySize);
    }

    /** toArrayList(type): null for an empty tree, otherwise the keys visit adds for the tag. */
    method ToArrayList(tag: string) returns (r: Option<seq<int>>)
      ensures root.None? ==> r == None
      ensures root.Some? ==> r == Some(if tag == "PRE" || tag == "POS" then [] else Elements(root.value))
    {
      if root.None? {
        return None;
      }
      var list := Visit(root.value, tag, []);
      assert list == (if tag == "PRE" || tag == "POS" then [] else Elements(root.value));
      r := Some(list);
    }
  }
}
