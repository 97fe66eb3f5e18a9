/**
 * remove, removeGreatestValue and combined of src/btree/BTree.java on node
 * values.  The search for the node holding the key and the cascade of
 * combined calls up through the parents are written as one recursion:
 * removing below a node hands back the child it descended into, possibly
 * one key short, and the node repairs that child with combined before
 * handing itself up.  Children are placed by position, which is where
 * addChild's sort by first key puts them when no key repeats.
 */
module BTreeRemoval {
  import opened Wrappers
  import opened SortedSeqs
  import opened BNodes
  import opened BTreeNodes
  import opened BTreeInsertion
  import opened BTreeSearch

  /**
   * The loop of getIndexOfPreviousValue from slot `j` on: the slot before
   * the first key from `j` on that is at least `v`, or the last slot.
   */
  function PrevFrom(ks: seq<int>, v: int, j: nat): (r: int)
    ensures -1 <= r < |ks|
    ensures j <= |ks| ==> j - 1 <= r
    decreases |ks| - j
  {
    if j >= |ks| then |ks| - 1
    else if ks[j] >= v then j - 1
    else PrevFrom(ks, v, j + 1)
  }

  /** getIndexOfPreviousValue: the loop starts at slot 1. */
  function PreviousIndex(ks: seq<int>, v: int): (r: int)
    ensures 1 <= |ks| ==> 0 <= r < |ks|
  {
    PrevFrom(ks, v, 1)
  }

  /** The loop of getIndexOfNextValue from slot `j` on: the first key from `j` on that is at least `v`, or the last slot. */
  function NextFrom(ks: seq<int>, v: int, j: nat): (r: int)
    ensures -1 <= r < |ks|
    ensures j < |ks| ==> j <= r
    decreases |ks| - j
  {
    if j >= |ks| then |ks| - 1
    else if ks[j] >= v then j
    else NextFrom(ks, v, j + 1)
  }

  /** getIndexOfNextValue: the loop starts at slot 0. */
  function NextIndex(ks: seq<int>, v: int): (r: int)
    ensures 1 <= |ks| ==> 0 <= r < |ks|
  {
    NextFrom(ks, v, 0)
  }

  /** addKey applied to each of `ks` in turn, as a merge moves a neighbour's keys over. */
  function AddKeys(s: seq<int>, ks: seq<int>): (r: seq<int>)
    ensures |r| == |s| + |ks|
    decreases |ks|
  {
    if ks == [] then s else AddKeys(InsertSorted(s, ks[0]), ks[1..])
  }

  /** An internal node has one child more than keys. */
  predicate Formed(n: Node)
  {
    n.children == [] || |n.children| == |n.keys| + 1
  }

  /** What combined reads of a parent: a key, one child more than keys, and a key in each neighbour of child `i`. */
  predicate Combinable(p: Node, i: nat)
  {
    1 <= |p.keys| && |p.children| == |p.keys| + 1 && i < |p.children|
    && (i + 1 < |p.children| ==> p.children[i + 1].keys != [])
    && (0 < i ==> p.children[i - 1].keys != [])
  }

  /** A child after taking the separator `sep` and, from an internal right neighbour, its first child. */
  function WithFirstOf(c: Node, sep: int, rn: Node): Node
  {
    Node(InsertSorted(c.keys, sep), if rn.children == [] then c.children else c.children + [rn.children[0]])
  }

  /** A right neighbour after giving away its first key and first child. */
  function WithoutFirst(rn: Node): Node
    requires rn.keys != []
  {
    Node(rn.keys[1..], if rn.children == [] then [] else rn.children[1..])
  }

  /** A child after taking the separator `sep` and, from an internal left neighbour, its last child. */
  function WithLastOf(c: Node, sep: int, ln: Node): Node
  {
    Node(InsertSorted(c.keys, sep), if ln.children == [] then c.children else [ln.children[|ln.children| - 1]] + c.children)
  }

  /** A left neighbour after giving away its last key and last child. */
  function WithoutLast(ln: Node): Node
    requires ln.keys != []
  {
    Node(ln.keys[..|ln.keys| - 1], if ln.children == [] then [] else ln.children[..|ln.children| - 1])
  }

  /**
   * combined borrowing from the right neighbour: the parent's key before
   * the neighbour's first key comes down into the child, the neighbour's
   * first key goes up into the parent, and the neighbour's first child, if
   * any, moves to the child.
   */
  function BorrowRight(p: Node, i: nat): Node
    requires Combinable(p, i) && i + 1 < |p.children|
  {
    var ks, cs := p.keys, p.children;
    var rn := cs[i + 1];
    var prev := PreviousIndex(ks, rn.keys[0]);
    Node(InsertSorted(RemoveAt(ks, prev), rn.keys[0]),
         cs[..i] + [WithFirstOf(cs[i], ks[prev], rn), WithoutFirst(rn)] + cs[i + 2..])
  }

  /**
   * combined borrowing from the left neighbour: the parent's key at or after
   * the neighbour's last key comes down into the child, the neighbour's last
   * key goes up, and the neighbour's last child, if any, moves to the child.
   */
  function BorrowLeft(p: Node, i: nat): Node
    requires Combinable(p, i) && 0 < i
  {
    var ks, cs := p.keys, p.children;
    var ln := cs[i - 1];
    var last := ln.keys[|ln.keys| - 1];
    var prev := NextIndex(ks, last);
    Node(InsertSorted(RemoveAt(ks, prev), last),
         cs[..i - 1] + [WithoutLast(ln), WithLastOf(cs[i], ks[prev], ln)] + cs[i + 1..])
  }

  /**
   * combined merging with the right neighbour: the separator comes down into
   * the child, which takes the neighbour's keys and children, and the
   * parent drops the neighbour.
   */
  function MergeRight(p: Node, i: nat): Node
    requires Combinable(p, i) && i + 1 < |p.children|
  {
    var ks, cs := p.keys, p.children;
    var c, rn := cs[i], cs[i + 1];
    var prev := PreviousIndex(ks, rn.keys[0]);
    var merged := Node(AddKeys(InsertSorted(c.keys, ks[prev]), rn.keys), c.children + rn.children);
    Node(RemoveAt(ks, prev), cs[..i] + [merged] + cs[i + 2..])
  }

  /**
   * combined merging with the left neighbour: the separator comes down into
   * the child, which takes the neighbour's keys and, before its own, the
   * neighbour's children, and the parent drops the neighbour.
   */
  function MergeLeft(p: Node, i: nat): Node
    requires Combinable(p, i) && 0 < i
  {
    var ks, cs := p.keys, p.children;
    var ln, c := cs[i - 1], cs[i];
    var prev := NextIndex(ks, ln.keys[|ln.keys| - 1]);
    var merged := Node(AddKeys(InsertSorted(c.keys, ks[prev]), ln.keys), ln.children + c.children);
    Node(RemoveAt(ks, prev), cs[..i - 1] + [merged] + cs[i + 1..])
  }

  /**
   * combined on child `i` of `p`: borrow from the right neighbour when it
   * has more than m keys, else from the left one, else merge with the right
   * neighbour, else with the left one.
   */
  function Combined(p: Node, i: nat, m: nat): Node
    requires Combinable(p, i)
  {
    var cs := p.children;
    if i + 1 < |cs| && |cs[i + 1].keys| > m then BorrowRight(p, i)
    else if 0 < i && |cs[i - 1].keys| > m then BorrowLeft(p, i)
    else if i + 1 < |cs| && |p.keys| > 0 then MergeRight(p, i)
    else if 0 < i && |p.keys| > 0 then MergeLeft(p, i)
    else p
  }

  /** A parent after its child `i` changed: combined runs when the child has fewer than m keys. */
  function Fix(p: Node, i: nat, m: nat): Node
    requires Combinable(p, i)
  {
    if |p.children[i].keys| < m then Combined(p, i, m) else p
  }

  /** An internal node of a linked tree with child `i` replaced and as many keys as before can be combined at `i`. */
  lemma LinkedCombinable(n: Node, ks: seq<int>, i: nat, c: Node)
    requires Linked(n) && n.children != [] && |ks| == |n.keys| && i < |n.children|
    ensures Combinable(Node(ks, n.children[i := c]), i)
  {
    if i + 1 < |n.children| {
      assert Linked(n.children[i + 1]);
    }
    if 0 < i {
      assert Linked(n.children[i - 1]);
    }
  }

  /** The greatest key of a subtree and the subtree without it. */
  datatype Taken = Taken(key: int, rest: Node)

  /**
   * getGreatestBNode followed by removeGreatestValue and the combined calls
   * it sets off: the last key of the rightmost leaf comes out, and each node
   * on the way back up repairs its last child.
   */
  function RemoveGreatest(n: Node, m: nat): Taken
    requires Linked(n)
    decreases n
  {
    if n.children == [] then
      Taken(n.keys[|n.keys| - 1], Node(RemoveAt(n.keys, |n.keys| - 1), []))
    else
      var last := |n.children| - 1;
      var t := RemoveGreatest(n.children[last], m);
      LinkedCombinable(n, n.keys, last, t.rest);
      Taken(t.key, Fix(Node(n.keys, n.children[last := t.rest]), last, m))
  }

  /**
   * remove below `n`, following getBNode's steps: a leaf holding `v` drops
   * it; an internal node holding `v` puts the greatest key under the child
   * before `v` in its place and repairs that child; on the way down the node
   * repairs the child it descended into; where the search gives up nothing
   * changes.
   */
  function RemoveFrom(n: Node, v: int, m: nat): Node
    requires Linked(n)
    decreases n
  {
    match SearchStep(n, v)
    case Missing => n
    case Down(i) =>
      var c := RemoveFrom(n.children[i], v, m);
      LinkedCombinable(n, n.keys, i, c);
      Fix(Node(n.keys, n.children[i := c]), i, m)
    case Here =>
      var idx := Find(n.keys, v);
      if n.children == [] then Node(RemoveAt(n.keys, idx), [])
      else
        var t := RemoveGreatest(n.children[idx], m);
        var ks := InsertSorted(RemoveAt(n.keys, idx), t.key);
        LinkedCombinable(n, ks, idx, t.rest);
        Fix(Node(ks, n.children[idx := t.rest]), idx, m)
  }

  /**
   * remove(value) on the root: nothing changes when the search finds no
   * node; a root left without keys is dropped, the tree becoming empty or
   * its only child becoming the root.
   */
  function RemoveTree(root: Option<Node>, v: int, m: nat): Option<Node>
    requires root.Some? ==> Linked(root.value)
  {
    match root
    case None => None
    case Some(r) =>
      if Search(r, v).None? then root
      else
        var r' := RemoveFrom(r, v, m);
        if |r'.keys| == 0 then (if r'.children == [] then None else Some(r'.children[0]))
        else Some(r')
  }

  /** With sorted keys, a value above key `i` and at most key `i + 1` has its previous index at `i`. */
  lemma {:induction false} PrevFromIs(ks: seq<int>, v: int, i: nat, j: nat)
    requires Sorted(ks) && i < |ks| && ks[i] < v && (i + 1 < |ks| ==> v <= ks[i + 1])
    requires 1 <= j <= i + 1
    ensures PrevFrom(ks, v, j) == i
    decreases i + 1 - j
  {
    if j <= i {
      assert ks[j] <= ks[i];
      PrevFromIs(ks, v, i, j + 1);
    }
  }

  /** getIndexOfPreviousValue finds the key just below `v` when `v` lies above key `i` and at most key `i + 1`. */
  lemma PreviousIndexIs(ks: seq<int>, v: int, i: nat)
    requires Sorted(ks) && i < |ks| && ks[i] < v && (i + 1 < |ks| ==> v <= ks[i + 1])
    ensures PreviousIndex(ks, v) == i
  {
    PrevFromIs(ks, v, i, 1);
  }

  /** With sorted keys, a value above key `i - 1` and at most key `i` has its next index at `i`. */
  lemma {:induction false} NextFromIs(ks: seq<int>, v: int, i: nat, j: nat)
    requires Sorted(ks) && i < |ks| && v <= ks[i] && (0 < i ==> ks[i - 1] < v)
    requires j <= i
    ensures NextFrom(ks, v, j) == i
    decreases i - j
  {
    if j < i {
      assert ks[j] <= ks[i - 1];
      NextFromIs(ks, v, i, j + 1);
    }
  }

  /** getIndexOfNextValue finds key `i` when `v` lies above key `i - 1` and at most key `i`. */
  lemma NextIndexIs(ks: seq<int>, v: int, i: nat)
    requires Sorted(ks) && i < |ks| && v <= ks[i] && (0 < i ==> ks[i - 1] < v)
    ensures NextIndex(ks, v) == i
  {
    NextFromIs(ks, v, i, 0);
  }

  /** Removing key `i` and adding a key that fits between its neighbours puts the new key at `i`. */
  lemma ReplaceKeyAt(ks: seq<int>, i: nat, k: int)
    requires Sorted(ks) && i < |ks|
    requires 0 < i ==> ks[i - 1] <= k
    requires i + 1 < |ks| ==> k <= ks[i + 1]
    ensures InsertSorted(RemoveAt(ks, i), k) == ks[..i] + [k] + ks[i + 1..]
  {
    var r := RemoveAt(ks, i);
    RemoveAtSorted(ks, i);
    assert r[..i] == ks[..i] && r[i..] == ks[i + 1..];
    InsertBetween(r, i, k);
  }

  /** A key at least every key of a sorted sequence is added at its end. */
  lemma InsertLast(s: seq<int>, k: int)
    requires Sorted(s) && forall x :: x in s ==> x <= k
    ensures InsertSorted(s, k) == s + [k]
  {
    if s != [] {
      assert s[|s| - 1] in s;
    }
    InsertBetween(s, |s|, k);
    assert s[..|s|] == s && s[|s|..] == [];
  }

  /** A key at most every key of a sorted sequence is added at its front. */
  lemma InsertFirst(s: seq<int>, k: int)
    requires Sorted(s) && forall x :: x in s ==> k <= x
    ensures InsertSorted(s, k) == [k] + s
  {
    if s != [] {
      assert s[0] in s;
    }
    InsertBetween(s, 0, k);
    assert s[..0] == [] && s[0..] == s;
  }

  /** Adding keys one by one to a sorted sequence keeps it sorted and adds exactly those keys. */
  lemma {:induction false} AddKeysSorted(s: seq<int>, ks: seq<int>)
    requires Sorted(s)
    ensures Sorted(AddKeys(s, ks))
    ensures multiset(AddKeys(s, ks)) == multiset(s) + multiset(ks)
    decreases |ks|
  {
    if ks != [] {
      InsertSortedProperties(s, ks[0]);
      AddKeysSorted(InsertSorted(s, ks[0]), ks[1..]);
      assert ks == [ks[0]] + ks[1..];
    }
  }

  /** Adding keys to a sorted sequence gives the one sorted sequence holding both. */
  lemma AddKeysIs(s: seq<int>, ks: seq<int>, t: seq<int>)
    requires Sorted(s) && Sorted(t) && multiset(t) == multiset(s) + multiset(ks)
    ensures AddKeys(s, ks) == t
  {
    AddKeysSorted(s, ks);
    SortedUnique(AddKeys(s, ks), t);
  }

  /** A formed node with sorted in-order keys has sorted keys, each among its in-order keys. */
  lemma KeysFacts(n: Node)
    requires Formed(n) && Sorted(Elements(n))
    ensures Sorted(n.keys)
    ensures forall x :: x in n.keys ==> x in Elements(n)
  {
    KeysSorted(n.keys, n.children);
    forall x | x in n.keys ensures x in Elements(n) {
      KeysInElements(n, x);
    }
  }

  /** The weave of a node around its children `i` and `i + 1` and the key between them. */
  lemma PairWindow(ks: seq<int>, cs: seq<Node>, i: nat)
    requires |cs| == |ks| + 1 && i + 1 < |cs|
    ensures Weave(ks, cs) == Weave(ks[..i], cs[..i]) + (Elements(cs[i]) + [ks[i]] + Elements(cs[i + 1])) + After(ks, cs, i + 1)
  {
    WindowElements(ks, cs, i, i + 1);
    assert ks[i..i + 1] == [ks[i]] && cs[i..i + 2] == [cs[i], cs[i + 1]];
    WeavePair(cs[i], ks[i], cs[i + 1]);
  }

  /** The weave of a node whose children `i` and `i + 1` and the key between them are replaced by `a`, `k`, `b`. */
  lemma PairSplice(ks: seq<int>, cs: seq<Node>, i: nat, a: Node, k: int, b: Node)
    requires |cs| == |ks| + 1 && i + 1 < |cs|
    ensures Weave(ks[..i] + [k] + ks[i + 1..], cs[..i] + [a, b] + cs[i + 2..])
         == Weave(ks[..i], cs[..i]) + (Elements(a) + [k] + Elements(b)) + After(ks, cs, i + 1)
  {
    SpliceElements(ks, cs, i, i + 1, [k], [a, b]);
    WeavePair(a, k, b);
  }

  /** The weave of a node whose children `i` and `i + 1` and the key between them are replaced by one child. */
  lemma MergeSplice(ks: seq<int>, cs: seq<Node>, i: nat, c: Node)
    requires |cs| == |ks| + 1 && i + 1 < |cs|
    ensures Weave(RemoveAt(ks, i), cs[..i] + [c] + cs[i + 2..])
         == Weave(ks[..i], cs[..i]) + Elements(c) + After(ks, cs, i + 1)
  {
    SpliceElements(ks, cs, i, i + 1, [], [c]);
    assert ks[..i] + [] + ks[i + 1..] == RemoveAt(ks, i);
    assert Weave([], [c]) == Elements(c);
  }

  /** Two formed nodes on the same level: both leaves or both internal. */
  predicate SameLevel(a: Node, b: Node)
  {
    Formed(a) && Formed(b) && (a.children == [] <==> b.children == [])
  }

  /** Borrowing from the right keeps the in-order keys of the pair and the separator between them. */
  lemma BorrowRightPair(c: Node, sep: int, rn: Node)
    requires SameLevel(c, rn) && rn.keys != [] && InsertSorted(c.keys, sep) == c.keys + [sep]
    ensures Elements(WithFirstOf(c, sep, rn)) + [rn.keys[0]] + Elements(WithoutFirst(rn))
         == Elements(c) + [sep] + Elements(rn)
  {
    if rn.children == [] {
      BorrowRightLeaves(c, sep, rn);
    } else {
      BorrowRightInternal(c, sep, rn);
    }
  }

  /** BorrowRightPair for two leaves. */
  lemma BorrowRightLeaves(c: Node, sep: int, rn: Node)
    requires c.children == [] && rn.children == [] && rn.keys != [] && InsertSorted(c.keys, sep) == c.keys + [sep]
    ensures Elements(WithFirstOf(c, sep, rn)) + [rn.keys[0]] + Elements(WithoutFirst(rn))
         == Elements(c) + [sep] + Elements(rn)
  {
    var ck, rk := c.keys, rn.keys;
    assert rk == [rk[0]] + rk[1..];
    assert Elements(WithFirstOf(c, sep, rn)) == ck + [sep];
    assert Elements(WithoutFirst(rn)) == rk[1..];
    assert Elements(c) == ck;
    assert Elements(rn) == rk;
  }

  /** BorrowRightPair for two internal nodes: the neighbour's first child moves across. */
  lemma BorrowRightInternal(c: Node, sep: int, rn: Node)
    requires |c.children| == |c.keys| + 1 && |rn.children| == |rn.keys| + 1 && rn.keys != []
    requires InsertSorted(c.keys, sep) == c.keys + [sep]
    ensures Elements(WithFirstOf(c, sep, rn)) + [rn.keys[0]] + Elements(WithoutFirst(rn))
         == Elements(c) + [sep] + Elements(rn)
  {
    var ck, cc, rk, rc := c.keys, c.children, rn.keys, rn.children;
    WeaveJoin(ck, sep, [], cc, [rc[0]]);
    assert ck + [sep] + [] == ck + [sep];
    assert Weave([], [rc[0]]) == Elements(rc[0]);
    assert Elements(rn) == Elements(rc[0]) + [rk[0]] + Weave(rk[1..], rc[1..]);
  }

  /** Borrowing from the left keeps the in-order keys of the pair and the separator between them. */
  lemma BorrowLeftPair(ln: Node, sep: int, c: Node)
    requires SameLevel(ln, c) && ln.keys != [] && InsertSorted(c.keys, sep) == [sep] + c.keys
    ensures Elements(WithoutLast(ln)) + [ln.keys[|ln.keys| - 1]] + Elements(WithLastOf(c, sep, ln))
         == Elements(ln) + [sep] + Elements(c)
  {
    var lk, lc, ck, cc := ln.keys, ln.children, c.keys, c.children;
    var L := |lk|;
    var c' := WithLastOf(c, sep, ln);
    assert lk == lk[..L - 1] + [lk[L - 1]];
    if lc == [] {
      assert Elements(WithoutLast(ln)) == lk[..L - 1];
      assert Elements(c') == [sep] + ck;
      assert Elements(ln) == lk && Elements(c) == ck;
    } else {
      assert lc == lc[..L] + [lc[L]];
      WeaveJoin(lk[..L - 1], lk[L - 1], [], lc[..L], [lc[L]]);
      assert lk[..L - 1] + [lk[L - 1]] + [] == lk;
      assert Weave([], [lc[L]]) == Elements(lc[L]);
      assert c'.keys[1..] == ck && c'.children[1..] == cc;
      assert Elements(c') == Elements(lc[L]) + [sep] + Weave(ck, cc);
    }
  }

  /** A merged node holds the in-order keys of both nodes with the separator between them. */
  lemma MergePair(a: Node, sep: int, b: Node)
    requires SameLevel(a, b)
    ensures Elements(Node(a.keys + [sep] + b.keys, a.children + b.children)) == Elements(a) + [sep] + Elements(b)
  {
    if a.children != [] {
      WeaveJoin(a.keys, sep, b.keys, a.children, b.children);
    }
  }

  /**
   * In a node with strictly increasing in-order keys, the keys of children
   * `j` and `j + 1` are sorted and lie strictly between the parent's keys
   * around them.
   */
  lemma PairBounds(ks: seq<int>, cs: seq<Node>, j: nat, a: Node, b: Node)
    requires |cs| == |ks| + 1 && j + 1 < |cs| && Increasing(Weave(ks, cs))
    requires cs[j] == a && cs[j + 1] == b && Formed(a) && Formed(b)
    ensures Sorted(ks) && Sorted(a.keys) && Sorted(b.keys)
    ensures forall x :: x in a.keys ==> x < ks[j] && (0 < j ==> ks[j - 1] < x)
    ensures forall y :: y in b.keys ==> ks[j] < y && (j + 1 < |ks| ==> y < ks[j + 1])
  {
    IncreasingIsSorted(Weave(ks, cs));
    KeysSorted(ks, cs);
    ChildBoundsStrict(ks, cs, j);
    ChildBoundsStrict(ks, cs, j + 1);
    IncreasingIsSorted(Elements(a));
    IncreasingIsSorted(Elements(b));
    KeysFacts(a);
    KeysFacts(b);
  }

  /** Borrowing from the right neighbour keeps the parent's in-order keys. */
  lemma BorrowRightElements(p: Node, i: nat)
    requires Combinable(p, i) && i + 1 < |p.children| && Increasing(Elements(p))
    requires SameLevel(p.children[i], p.children[i + 1])
    ensures Elements(BorrowRight(p, i)) == Elements(p)
  {
    var ks, cs := p.keys, p.children;
    var c, rn := cs[i], cs[i + 1];
    var r0 := rn.keys[0];
    PairBounds(ks, cs, i, c, rn);
    assert r0 in rn.keys;
    PreviousIndexIs(ks, r0, i);
    ReplaceKeyAt(ks, i, r0);
    InsertLast(c.keys, ks[i]);
    BorrowRightPair(c, ks[i], rn);
    PairWindow(ks, cs, i);
    PairSplice(ks, cs, i, WithFirstOf(c, ks[i], rn), r0, WithoutFirst(rn));
  }

  /** Borrowing from the left neighbour keeps the parent's in-order keys. */
  lemma BorrowLeftElements(p: Node, i: nat)
    requires Combinable(p, i) && 0 < i && Increasing(Elements(p))
    requires SameLevel(p.children[i - 1], p.children[i])
    ensures Elements(BorrowLeft(p, i)) == Elements(p)
  {
    var ks, cs, j := p.keys, p.children, i - 1;
    var ln, c := cs[j], cs[j + 1];
    BorrowLeftIs(p, i);
    BorrowLeftPair(ln, ks[j], c);
    PairReplaced(p, BorrowLeft(p, i), j, WithoutLast(ln), ln.keys[|ln.keys| - 1], WithLastOf(c, ks[j], ln));
  }

  /** Replacing children `i` and `i + 1` and the key between them by pieces with the same in-order keys keeps the weave. */
  lemma PairReplaced(p: Node, q: Node, i: nat, a: Node, k: int, b: Node)
    requires |p.children| == |p.keys| + 1 && i + 1 < |p.children|
    requires q == Node(p.keys[..i] + [k] + p.keys[i + 1..], p.children[..i] + [a, b] + p.children[i + 2..])
    requires Elements(a) + [k] + Elements(b) == Elements(p.children[i]) + [p.keys[i]] + Elements(p.children[i + 1])
    ensures Elements(q) == Elements(p)
  {
    PairWindow(p.keys, p.children, i);
    PairSplice(p.keys, p.children, i, a, k, b);
  }

  /** Borrowing from the left replaces the pair of children before and at `i` and the key between them. */
  lemma BorrowLeftIs(p: Node, i: nat)
    requires Combinable(p, i) && 0 < i && Increasing(Elements(p))
    requires SameLevel(p.children[i - 1], p.children[i])
    ensures var ks, cs, j := p.keys, p.children, i - 1;
      var ln := cs[j];
      var last := ln.keys[|ln.keys| - 1];
      BorrowLeft(p, i)
        == Node(ks[..j] + [last] + ks[j + 1..], cs[..j] + [WithoutLast(ln), WithLastOf(cs[j + 1], ks[j], ln)] + cs[j + 2..])
    ensures var j := i - 1;
      InsertSorted(p.children[j + 1].keys, p.keys[j]) == [p.keys[j]] + p.children[j + 1].keys
  {
    var ks, cs, j := p.keys, p.children, i - 1;
    var ln, c := cs[j], cs[i];
    assert cs[j + 1] == c;
    var last := ln.keys[|ln.keys| - 1];
    PairBounds(ks, cs, j, ln, c);
    assert last in ln.keys;
    NextIndexIs(ks, last, j);
    ReplaceKeyAt(ks, j, last);
    InsertFirst(c.keys, ks[j]);
  }

  /** Merging with the right neighbour keeps the parent's in-order keys. */
  lemma MergeRightElements(p: Node, i: nat)
    requires Combinable(p, i) && i + 1 < |p.children| && Increasing(Elements(p))
    requires SameLevel(p.children[i], p.children[i + 1])
    ensures Elements(MergeRight(p, i)) == Elements(p)
  {
    var ks, cs := p.keys, p.children;
    var c, rn := cs[i], cs[i + 1];
    var sep, r0 := ks[i], rn.keys[0];
    PairBounds(ks, cs, i, c, rn);
    assert r0 in rn.keys;
    PreviousIndexIs(ks, r0, i);
    InsertLast(c.keys, sep);
    var merged := c.keys + [sep] + rn.keys;
    SortedAroundWhole(c.keys, sep, rn.keys);
    SortedAroundWhole(c.keys, sep, []);
    assert c.keys + [sep] + [] == c.keys + [sep];
    assert multiset(merged) == multiset(c.keys + [sep]) + multiset(rn.keys);
    AddKeysIs(c.keys + [sep], rn.keys, merged);
    MergePair(c, sep, rn);
    PairWindow(ks, cs, i);
    MergeSplice(ks, cs, i, Node(merged, c.children + rn.children));
  }

  /** Merging with the left neighbour keeps the parent's in-order keys. */
  lemma MergeLeftElements(p: Node, i: nat)
    requires Combinable(p, i) && 0 < i && Increasing(Elements(p))
    requires SameLevel(p.children[i - 1], p.children[i])
    ensures Elements(MergeLeft(p, i)) == Elements(p)
  {
    var ks, cs, j := p.keys, p.children, i - 1;
    var ln, c := cs[j], cs[i];
    var merged := Node(ln.keys + [ks[j]] + c.keys, ln.children + c.children);
    MergeLeftIs(p, i);
    MergePair(ln, ks[j], c);
    PairWindow(ks, cs, j);
    MergeSplice(ks, cs, j, merged);
  }

  /** Merging with the left neighbour replaces the pair of children before and at `i` and the key between them by one node. */
  lemma MergeLeftIs(p: Node, i: nat)
    requires Combinable(p, i) && 0 < i && Increasing(Elements(p))
    requires SameLevel(p.children[i - 1], p.children[i])
    ensures var ks, cs, j := p.keys, p.children, i - 1;
      MergeLeft(p, i)
        == Node(RemoveAt(ks, j), cs[..j] + [Node(cs[j].keys + [ks[j]] + cs[i].keys, cs[j].children + cs[i].children)] + cs[j + 2..])
  {
    var ks, cs, j := p.keys, p.children, i - 1;
    var ln, c := cs[j], cs[i];
    var sep, last := ks[j], ln.keys[|ln.keys| - 1];
    PairBounds(ks, cs, j, ln, c);
    assert last in ln.keys;
    NextIndexIs(ks, last, j);
    InsertFirst(c.keys, sep);
    var merged := ln.keys + [sep] + c.keys;
    SortedAroundWhole(ln.keys, sep, c.keys);
    SortedAroundWhole([], sep, c.keys);
    assert [] + [sep] + c.keys == [sep] + c.keys;
    assert multiset(merged) == multiset([sep] + c.keys) + multiset(ln.keys);
    AddKeysIs([sep] + c.keys, ln.keys, merged);
  }

  /**
   * combined keeps the parent's in-order keys: each case moves keys and
   * children between neighbours without changing their order.
   */
  lemma CombinedElements(p: Node, i: nat, m: nat)
    requires Combinable(p, i) && Increasing(Elements(p))
    requires i + 1 < |p.children| ==> SameLevel(p.children[i], p.children[i + 1])
    requires 0 < i ==> SameLevel(p.children[i - 1], p.children[i])
    ensures Elements(Combined(p, i, m)) == Elements(p)
  {
    var cs := p.children;
    if i + 1 < |cs| && |cs[i + 1].keys| > m {
      BorrowRightElements(p, i);
    } else if 0 < i && |cs[i - 1].keys| > m {
      BorrowLeftElements(p, i);
    } else if i + 1 < |cs| {
      MergeRightElements(p, i);
    } else if 0 < i {
      MergeLeftElements(p, i);
    }
  }

  /** Fix keeps the parent's in-order keys. */
  lemma FixElements(p: Node, i: nat, m: nat)
    requires Combinable(p, i) && Increasing(Elements(p))
    requires i + 1 < |p.children| ==> SameLevel(p.children[i], p.children[i + 1])
    requires 0 < i ==> SameLevel(p.children[i - 1], p.children[i])
    ensures Elements(Fix(p, i, m)) == Elements(p)
  {
    if |p.children[i].keys| < m {
      CombinedElements(p, i, m);
    }
  }

  /**
   * A parent, `h` levels above its leaves, whose children are shaped except
   * child `i`, which may be one key short.
   */
  predicate ShortAt(p: Node, i: nat, m: nat, lo: int, h: nat)
  {
    0 < h && lo <= |p.keys| <= 2 * m && |p.children| == |p.keys| + 1 && i < |p.children|
    && AllShaped(p.children[..i], m, h - 1) && AllShaped(p.children[i + 1..], m, h - 1)
    && Shaped(p.children[i], m, m - 1, 2 * m, h - 1)
  }

  /** Shaped nodes one level apart from the same parent are on the same level. */
  lemma ShapedSameLevel(a: Node, b: Node, m: nat, la: int, lb: int, h: nat)
    requires Shaped(a, m, la, 2 * m, h) && Shaped(b, m, lb, 2 * m, h)
    ensures SameLevel(a, b)
  {
  }

  /** What a parent with one short child gives combined: its neighbours are shaped, on the child's level, and hold keys. */
  lemma ShortAtFacts(p: Node, i: nat, m: nat, lo: int, h: nat)
    requires 1 <= m && 1 <= lo && ShortAt(p, i, m, lo, h)
    ensures Combinable(p, i)
    ensures i + 1 < |p.children| ==>
              Shaped(p.children[i + 1], m, m, 2 * m, h - 1) && SameLevel(p.children[i], p.children[i + 1])
              && AllShaped(p.children[i + 2..], m, h - 1)
    ensures 0 < i ==>
              Shaped(p.children[i - 1], m, m, 2 * m, h - 1) && SameLevel(p.children[i - 1], p.children[i])
              && AllShaped(p.children[..i - 1], m, h - 1)
  {
    var cs := p.children;
    if i + 1 < |cs| {
      assert cs[i + 1..][0] == cs[i + 1];
      AllShapedCut(cs[i + 1..], 1, m, h - 1);
      assert cs[i + 1..][1..] == cs[i + 2..];
      ShapedSameLevel(cs[i], cs[i + 1], m, m - 1, m, h - 1);
    }
    if 0 < i {
      assert cs[..i][i - 1] == cs[i - 1];
      AllShapedCut(cs[..i], i - 1, m, h - 1);
      assert cs[..i][..i - 1] == cs[..i - 1];
      ShapedSameLevel(cs[i - 1], cs[i], m, m, m - 1, h - 1);
    }
  }

  /** Children with a window replaced by shaped nodes stay shaped. */
  lemma WindowShaped(cs: seq<Node>, i: nat, j: nat, C: seq<Node>, m: nat, h: nat)
    requires i <= j <= |cs| && AllShaped(cs[..i], m, h) && AllShaped(cs[j..], m, h) && AllShaped(C, m, h)
    ensures AllShaped(cs[..i] + C + cs[j..], m, h)
  {
    AllShapedJoin(cs[..i], C, m, h);
    AllShapedJoin(cs[..i] + C, cs[j..], m, h);
  }

  /** A node whose children are shaped ones around a shaped window, with a key count in range, is shaped. */
  lemma WindowInternal(q: Node, cs: seq<Node>, i: nat, j: nat, C: seq<Node>, m: nat, lo: int, hi: int, h: nat)
    requires 0 < h && i <= j <= |cs| && q.children == cs[..i] + C + cs[j..]
    requires AllShaped(cs[..i], m, h - 1) && AllShaped(cs[j..], m, h - 1) && AllShaped(C, m, h - 1)
    requires lo <= |q.keys| <= hi && |q.children| == |q.keys| + 1
    ensures Shaped(q, m, lo, hi, h)
  {
    WindowShaped(cs, i, j, C, m, h - 1);
    ShapedInternal(q, m, lo, hi, h);
  }

  /** Borrowing from the right leaves the child with m keys and the neighbour with at least m, both shaped. */
  lemma MovedFirstShaped(c: Node, sep: int, rn: Node, m: nat, h: nat)
    requires 1 <= m && Shaped(c, m, m - 1, 2 * m, h) && |c.keys| < m
    requires Shaped(rn, m, m, 2 * m, h) && |rn.keys| > m
    ensures Shaped(WithFirstOf(c, sep, rn), m, m, 2 * m, h)
    ensures Shaped(WithoutFirst(rn), m, m, 2 * m, h)
  {
    if 0 < h {
      var cc, rc := c.children, rn.children;
      assert AllShaped(cc, m, h - 1) && AllShaped(rc, m, h - 1);
      AllShapedCut(rc, 1, m, h - 1);
      assert rc[..1] == [rc[0]];
      AllShapedJoin(cc, [rc[0]], m, h - 1);
      ShapedInternal(WithFirstOf(c, sep, rn), m, m, 2 * m, h);
      ShapedInternal(WithoutFirst(rn), m, m, 2 * m, h);
    }
  }

  /** Borrowing from the left leaves the child with m keys and the neighbour with at least m, both shaped. */
  lemma MovedLastShaped(ln: Node, sep: int, c: Node, m: nat, h: nat)
    requires 1 <= m && Shaped(c, m, m - 1, 2 * m, h) && |c.keys| < m
    requires Shaped(ln, m, m, 2 * m, h) && |ln.keys| > m
    ensures Shaped(WithoutLast(ln), m, m, 2 * m, h)
    ensures Shaped(WithLastOf(c, sep, ln), m, m, 2 * m, h)
  {
    if 0 < h {
      var lc, cc := ln.children, c.children;
      var L := |lc| - 1;
      assert AllShaped(cc, m, h - 1) && AllShaped(lc, m, h - 1);
      AllShapedCut(lc, L, m, h - 1);
      assert lc[L..] == [lc[L]];
      AllShapedJoin([lc[L]], cc, m, h - 1);
      ShapedInternal(WithoutLast(ln), m, m, 2 * m, h);
      ShapedInternal(WithLastOf(c, sep, ln), m, m, 2 * m, h);
    }
  }

  /** A node merged from two shaped nodes, holding their keys and one more, is shaped when that makes m to 2m keys. */
  lemma MergedShaped(ks: seq<int>, a: Node, b: Node, m: nat, la: int, lb: int, h: nat)
    requires Shaped(a, m, la, 2 * m, h) && Shaped(b, m, lb, 2 * m, h)
    requires |ks| == |a.keys| + 1 + |b.keys| && m <= |ks| <= 2 * m
    ensures Shaped(Node(ks, a.children + b.children), m, m, 2 * m, h)
  {
    if 0 < h {
      assert AllShaped(a.children, m, h - 1) && AllShaped(b.children, m, h - 1);
      AllShapedJoin(a.children, b.children, m, h - 1);
      ShapedInternal(Node(ks, a.children + b.children), m, m, 2 * m, h);
    }
  }

  /** Borrowing from the right keeps the parent shaped with as many keys as before. */
  lemma BorrowRightShaped(p: Node, i: nat, m: nat, lo: int, h: nat)
    requires 1 <= m && 1 <= lo && ShortAt(p, i, m, lo, h) && |p.children[i].keys| < m
    requires i + 1 < |p.children| && |p.children[i + 1].keys| > m
    ensures Shaped(BorrowRight(p, i), m, lo, 2 * m, h)
  {
    ShortAtFacts(p, i, m, lo, h);
    var ks, cs := p.keys, p.children;
    var c, rn := cs[i], cs[i + 1];
    var prev := PreviousIndex(ks, rn.keys[0]);
    var a, b := WithFirstOf(c, ks[prev], rn), WithoutFirst(rn);
    MovedFirstShaped(c, ks[prev], rn, m, h - 1);
    assert AllShaped([a, b], m, h - 1);
    var q := BorrowRight(p, i);
    assert q.children == cs[..i] + [a, b] + cs[i + 2..];
    WindowInternal(q, cs, i, i + 2, [a, b], m, lo, 2 * m, h);
  }

  /** Borrowing from the left keeps the parent shaped with as many keys as before. */
  lemma BorrowLeftShaped(p: Node, i: nat, m: nat, lo: int, h: nat)
    requires 1 <= m && 1 <= lo && ShortAt(p, i, m, lo, h) && |p.children[i].keys| < m
    requires 0 < i && |p.children[i - 1].keys| > m
    ensures Shaped(BorrowLeft(p, i), m, lo, 2 * m, h)
  {
    ShortAtFacts(p, i, m, lo, h);
    var ks, cs := p.keys, p.children;
    var ln, c := cs[i - 1], cs[i];
    var prev := NextIndex(ks, ln.keys[|ln.keys| - 1]);
    var a, b := WithoutLast(ln), WithLastOf(c, ks[prev], ln);
    MovedLastShaped(ln, ks[prev], c, m, h - 1);
    assert AllShaped([a, b], m, h - 1);
    var q := BorrowLeft(p, i);
    assert q.children == cs[..i - 1] + [a, b] + cs[i + 1..];
    WindowInternal(q, cs, i - 1, i + 1, [a, b], m, lo, 2 * m, h);
  }

  /** Merging with a right neighbour of m keys leaves a child of 2m keys and the parent one key fewer. */
  lemma MergeRightShaped(p: Node, i: nat, m: nat, lo: int, h: nat)
    requires 1 <= m && 1 <= lo && ShortAt(p, i, m, lo, h) && |p.children[i].keys| < m
    requires i + 1 < |p.children| && |p.children[i + 1].keys| <= m
    ensures Shaped(MergeRight(p, i), m, lo - 1, 2 * m, h)
  {
    ShortAtFacts(p, i, m, lo, h);
    var ks, cs := p.keys, p.children;
    var c, rn := cs[i], cs[i + 1];
    var prev := PreviousIndex(ks, rn.keys[0]);
    var merged := AddKeys(InsertSorted(c.keys, ks[prev]), rn.keys);
    MergedShaped(merged, c, rn, m, m - 1, m, h - 1);
    var mn := Node(merged, c.children + rn.children);
    assert AllShaped([mn], m, h - 1);
    var q := MergeRight(p, i);
    assert q.children == cs[..i] + [mn] + cs[i + 2..];
    WindowInternal(q, cs, i, i + 2, [mn], m, lo - 1, 2 * m, h);
  }

  /** Merging with a left neighbour of m keys leaves a child of 2m keys and the parent one key fewer. */
  lemma MergeLeftShaped(p: Node, i: nat, m: nat, lo: int, h: nat)
    requires 1 <= m && 1 <= lo && ShortAt(p, i, m, lo, h) && |p.children[i].keys| < m
    requires 0 < i && |p.children[i - 1].keys| <= m
    ensures Shaped(MergeLeft(p, i), m, lo - 1, 2 * m, h)
  {
    ShortAtFacts(p, i, m, lo, h);
    var ks, cs := p.keys, p.children;
    var ln, c := cs[i - 1], cs[i];
    var prev := NextIndex(ks, ln.keys[|ln.keys| - 1]);
    var merged := AddKeys(InsertSorted(c.keys, ks[prev]), ln.keys);
    MergedShaped(merged, ln, c, m, m, m - 1, h - 1);
    var mn := Node(merged, ln.children + c.children);
    assert AllShaped([mn], m, h - 1);
    var q := MergeLeft(p, i);
    assert q.children == cs[..i - 1] + [mn] + cs[i + 1..];
    WindowInternal(q, cs, i - 1, i + 1, [mn], m, lo - 1, 2 * m, h);
  }

  /** combined on a short child leaves the parent shaped with at most one key fewer. */
  lemma CombinedShaped(p: Node, i: nat, m: nat, lo: int, h: nat)
    requires 1 <= m && 1 <= lo && ShortAt(p, i, m, lo, h) && |p.children[i].keys| < m
    ensures Shaped(Combined(p, i, m), m, lo - 1, 2 * m, h)
  {
    ShortAtFacts(p, i, m, lo, h);
    var cs := p.children;
    if i + 1 < |cs| && |cs[i + 1].keys| > m {
      BorrowRightShaped(p, i, m, lo, h);
      ShapedWeaken(BorrowRight(p, i), m, lo, 2 * m, lo - 1, 2 * m, h);
    } else if 0 < i && |cs[i - 1].keys| > m {
      BorrowLeftShaped(p, i, m, lo, h);
      ShapedWeaken(BorrowLeft(p, i), m, lo, 2 * m, lo - 1, 2 * m, h);
    } else if i + 1 < |cs| {
      MergeRightShaped(p, i, m, lo, h);
    } else {
      MergeLeftShaped(p, i, m, lo, h);
    }
  }

  /** Fix leaves the parent shaped with at most one key fewer. */
  lemma FixShaped(p: Node, i: nat, m: nat, lo: int, h: nat)
    requires 1 <= m && 1 <= lo && ShortAt(p, i, m, lo, h)
    ensures Combinable(p, i)
    ensures Shaped(Fix(p, i, m), m, lo - 1, 2 * m, h)
  {
    ShortAtFacts(p, i, m, lo, h);
    var cs := p.children;
    if |cs[i].keys| < m {
      CombinedShaped(p, i, m, lo, h);
    } else {
      assert Shaped(cs[i], m, m, 2 * m, h - 1);
      assert AllShaped([cs[i]], m, h - 1);
      WindowShaped(cs, i, i + 1, [cs[i]], m, h - 1);
      AroundEntry(cs, i);
      ShapedInternal(p, m, lo - 1, 2 * m, h);
    }
  }

  /** What RemoveGreatestSpec proves: the in-order keys are the rest's followed by the key taken, and the rest is at most one key short. */
  predicate TakenWell(n: Node, m: nat, lo: int, h: nat, t: Taken)
  {
    Elements(n) == Elements(t.rest) + [t.key] && Shaped(t.rest, m, lo - 1, 2 * m, h)
  }

  /** RemoveGreatestSpec at a leaf: its last key comes out. */
  lemma RemoveGreatestLeaf(n: Node, m: nat, lo: int, h: nat)
    requires Shaped(n, m, lo, 2 * m, h) && Linked(n) && n.children == []
    ensures TakenWell(n, m, lo, h, RemoveGreatest(n, m))
  {
    var ks := n.keys;
    var last := |ks| - 1;
    assert RemoveAt(ks, last) == ks[..last];
    assert ks == ks[..last] + [ks[last]];
  }

  /** A shaped node with child `i` replaced by a child at most one key short is short at `i`. */
  lemma ReplacedShortAt(n: Node, ks: seq<int>, i: nat, c: Node, m: nat, lo: int, h: nat)
    requires Shaped(n, m, lo, 2 * m, h) && 0 < h && i < |n.children| && |ks| == |n.keys|
    requires Shaped(c, m, m - 1, 2 * m, h - 1)
    ensures ShortAt(Node(ks, n.children[i := c]), i, m, lo, h)
  {
    var cs := n.children;
    assert AllShaped(cs, m, h - 1);
    AllShapedCut(cs, i, m, h - 1);
    AllShapedCut(cs, i + 1, m, h - 1);
    assert cs[i := c][..i] == cs[..i] && cs[i := c][i + 1..] == cs[i + 1..];
  }

  /** Fix on a parent short at `i` keeps its in-order keys and leaves it at most one key short. */
  lemma FixSpec(p: Node, i: nat, m: nat, lo: int, h: nat)
    requires 1 <= m && 1 <= lo && ShortAt(p, i, m, lo, h) && Increasing(Elements(p))
    ensures Combinable(p, i)
    ensures Elements(Fix(p, i, m)) == Elements(p) && Shaped(Fix(p, i, m), m, lo - 1, 2 * m, h)
  {
    ShortAtFacts(p, i, m, lo, h);
    FixShaped(p, i, m, lo, h);
    FixElements(p, i, m);
  }

  /** RemoveGreatestSpec at an internal node, given it for the last child. */
  lemma RemoveGreatestInternal(n: Node, m: nat, lo: int, h: nat)
    requires 1 <= m && 1 <= lo && Shaped(n, m, lo, 2 * m, h) && Linked(n) && Increasing(Elements(n))
    requires n.children != []
    requires TakenWell(n.children[|n.children| - 1], m, m, h - 1, RemoveGreatest(n.children[|n.children| - 1], m))
    ensures TakenWell(n, m, lo, h, RemoveGreatest(n, m))
  {
    var ks, cs := n.keys, n.children;
    var last := |cs| - 1;
    var t := RemoveGreatest(cs[last], m);
    var p := Node(ks, cs[last := t.rest]);
    ChildElements(ks, cs, last);
    ReplaceChildElements(ks, cs, last, t.rest);
    assert Elements(n) == Elements(p) + [t.key];
    IncreasingSplit(Elements(p), [t.key]);
    ReplacedShortAt(n, ks, last, t.rest, m, lo, h);
    FixSpec(p, last, m, lo, h);
    RemoveGreatestUnfold(n, m, last, t, p);
  }

  lemma RemoveGreatestUnfold(n: Node, m: nat, last: nat, t: Taken, p: Node)
    requires Linked(n) && last + 1 == |n.children| && t == RemoveGreatest(n.children[last], m)
    requires p == Node(n.keys, n.children[last := t.rest]) && Combinable(p, last)
    ensures RemoveGreatest(n, m) == Taken(t.key, Fix(p, last, m))
  {
  }

  /**
   * Taking the greatest key out of a shaped subtree with strictly
   * increasing in-order keys leaves the other keys in order, in a subtree at
   * most one key short at its top.
   */
  lemma {:induction false} RemoveGreatestSpec(n: Node, m: nat, lo: int, h: nat)
    requires 1 <= m && 1 <= lo && Shaped(n, m, lo, 2 * m, h) && Linked(n) && Increasing(Elements(n))
    ensures TakenWell(n, m, lo, h, RemoveGreatest(n, m))
    decreases n
  {
    if n.children == [] {
      RemoveGreatestLeaf(n, m, lo, h);
    } else {
      var last := |n.children| - 1;
      ChildBoundsStrict(n.keys, n.children, last);
      RemoveGreatestSpec(n.children[last], m, m, h - 1);
      RemoveGreatestInternal(n, m, lo, h);
    }
  }

  /** What RemoveFromSpec proves: strictly increasing keys, the old ones without `v`, at most one key short at the top. */
  predicate RemovedWell(n: Node, v: int, m: nat, lo: int, h: nat, r: Node)
  {
    Increasing(Elements(r)) && multiset(Elements(r)) == multiset(Elements(n)) - multiset{v}
    && Shaped(r, m, lo - 1, 2 * m, h)
  }

  /** RemoveFromSpec where the search gives up: `v` is absent and nothing changes. */
  lemma RemoveMissingCase(n: Node, v: int, m: nat, lo: int, h: nat)
    requires Shaped(n, m, lo, 2 * m, h) && Linked(n) && Increasing(Elements(n))
    requires SearchStep(n, v).Missing?
    ensures RemovedWell(n, v, m, lo, h, RemoveFrom(n, v, m))
  {
    KeysSorted(n.keys, n.children);
    MissingLeaf(n, v);
    assert v !in multiset(Elements(n));
    ShapedWeaken(n, m, lo, 2 * m, lo - 1, 2 * m, h);
  }

  /** RemoveFromSpec at a leaf holding `v`: the key is dropped. */
  lemma RemoveLeafCase(n: Node, v: int, m: nat, lo: int, h: nat)
    requires Shaped(n, m, lo, 2 * m, h) && Linked(n) && Increasing(Elements(n))
    requires SearchStep(n, v).Here? && n.children == []
    ensures RemovedWell(n, v, m, lo, h, RemoveFrom(n, v, m))
  {
    var ks := n.keys;
    var idx := Find(ks, v);
    assert v in ks && Elements(n) == ks;
    assert RemoveFrom(n, v, m) == Node(RemoveAt(ks, idx), []);
    LeafRemovedWell(n, v, m, lo, h, idx);
  }

  /** A leaf of strictly increasing keys losing its key at `idx`, `v`, keeps them increasing, one fewer. */
  lemma LeafRemovedWell(n: Node, v: int, m: nat, lo: int, h: nat, idx: nat)
    requires Shaped(n, m, lo, 2 * m, h) && n.children == [] && Increasing(n.keys)
    requires idx < |n.keys| && n.keys[idx] == v
    ensures RemovedWell(n, v, m, lo, h, Node(RemoveAt(n.keys, idx), []))
  {
    var ks := n.keys;
    assert ks == ks[..idx] + [v] + ks[idx + 1..];
    DropOne(ks[..idx], v, ks[idx + 1..]);
  }

  /** The greatest key below key `idx`, put in its place, lands at `idx` among the keys. */
  lemma HereKeys(ks: seq<int>, cs: seq<Node>, idx: nat, g: int)
    requires |cs| == |ks| + 1 && idx < |ks| && Increasing(Weave(ks, cs)) && g in Elements(cs[idx])
    ensures InsertSorted(RemoveAt(ks, idx), g) == ks[idx := g]
  {
    ChildBoundsStrict(ks, cs, idx);
    IncreasingIsSorted(Weave(ks, cs));
    KeysSorted(ks, cs);
    if idx + 1 < |ks| {
      assert ks[idx] <= ks[idx + 1];
    }
    ReplaceKeyAt(ks, idx, g);
    UpdateIsSplice(ks, idx, g);
  }

  lemma UpdateIsSplice(ks: seq<int>, i: nat, k: int)
    requires i < |ks|
    ensures ks[..i] + [k] + ks[i + 1..] == ks[i := k]
  {
  }

  /** The weave of a node around key `idx`, with child `idx` ending in `g`. */
  lemma WeaveAtKey(ks: seq<int>, cs: seq<Node>, idx: nat, rest: Node, g: int)
    requires |cs| == |ks| + 1 && idx < |ks| && Elements(cs[idx]) == Elements(rest) + [g]
    ensures Weave(ks, cs)
         == Weave(ks[..idx], cs[..idx]) + Elements(rest) + [g] + [ks[idx]] + Weave(ks[idx + 1..], cs[idx + 1..])
  {
    ChildElements(ks, cs, idx);
  }

  /** The weave of a node with key `idx` replaced by `g` and child `idx` by `rest`. */
  lemma WeaveReplacedKey(ks: seq<int>, cs: seq<Node>, idx: nat, rest: Node, g: int)
    requires |cs| == |ks| + 1 && idx < |ks|
    ensures Weave(ks[idx := g], cs[idx := rest])
         == Weave(ks[..idx], cs[..idx]) + Elements(rest) + [g] + Weave(ks[idx + 1..], cs[idx + 1..])
  {
    var ks' := ks[idx := g];
    ReplaceChildElements(ks', cs, idx, rest);
    assert ks'[..idx] == ks[..idx] && ks'[idx + 1..] == ks[idx + 1..];
  }

  /** Key `idx` replaced by the greatest key `g` under child `idx`, taken out of that child: exactly key `idx` leaves the weave. */
  lemma HereElements(ks: seq<int>, cs: seq<Node>, idx: nat, rest: Node, g: int)
    requires |cs| == |ks| + 1 && idx < |ks| && Increasing(Weave(ks, cs))
    requires Elements(cs[idx]) == Elements(rest) + [g]
    ensures Increasing(Weave(ks[idx := g], cs[idx := rest]))
    ensures multiset(Weave(ks[idx := g], cs[idx := rest])) == multiset(Weave(ks, cs)) - multiset{ks[idx]}
  {
    WeaveAtKey(ks, cs, idx, rest, g);
    WeaveReplacedKey(ks, cs, idx, rest, g);
    DropOne(Weave(ks[..idx], cs[..idx]) + Elements(rest) + [g], ks[idx], Weave(ks[idx + 1..], cs[idx + 1..]));
  }

  /**
   * RemoveFromSpec at an internal node holding `v`, given RemoveGreatestSpec
   * for the child before `v`: the greatest key below takes `v`'s place.
   */
  lemma RemoveHereCase(n: Node, v: int, m: nat, lo: int, h: nat)
    requires 1 <= m && 1 <= lo && Shaped(n, m, lo, 2 * m, h) && Linked(n) && Increasing(Elements(n))
    requires SearchStep(n, v).Here? && n.children != []
    requires TakenWell(n.children[Find(n.keys, v)], m, m, h - 1, RemoveGreatest(n.children[Find(n.keys, v)], m))
    ensures RemovedWell(n, v, m, lo, h, RemoveFrom(n, v, m))
  {
    var ks, cs := n.keys, n.children;
    var idx := Find(ks, v);
    var t := RemoveGreatest(cs[idx], m);
    assert t.key in Elements(cs[idx]);
    HereKeys(ks, cs, idx, t.key);
    var p := Node(ks[idx := t.key], cs[idx := t.rest]);
    assert RemoveFrom(n, v, m) == Fix(p, idx, m);
    HereElements(ks, cs, idx, t.rest, t.key);
    ReplacedShortAt(n, ks[idx := t.key], idx, t.rest, m, lo, h);
    FixSpec(p, idx, m, lo, h);
  }

  /** Child `i`, between keys that bracket `v` strictly, losing exactly `v` takes exactly `v` out of the weave. */
  lemma DownElements(ks: seq<int>, cs: seq<Node>, i: nat, c: Node, v: int)
    requires |cs| == |ks| + 1 && i < |cs| && Increasing(Weave(ks, cs))
    requires 0 < i ==> ks[i - 1] < v
    requires i < |ks| ==> v < ks[i]
    requires Increasing(Elements(c)) && multiset(Elements(c)) == multiset(Elements(cs[i])) - multiset{v}
    ensures Increasing(Weave(ks, cs[i := c]))
    ensures multiset(Weave(ks, cs[i := c])) == multiset(Weave(ks, cs)) - multiset{v}
  {
    IncreasingIsSorted(Weave(ks, cs));
    ChildWindow(ks, cs, i);
    ReplaceChildElements(ks, cs, i, c);
    ShrinkMiddle(Weave(ks[..i], cs[..i]), Elements(cs[i]), After(ks, cs, i), Elements(c), v);
  }

  /** RemoveFromSpec where the search goes down to child `i`, given it for that child. */
  lemma RemoveDownCase(n: Node, v: int, m: nat, lo: int, h: nat, i: nat)
    requires 1 <= m && 1 <= lo && Shaped(n, m, lo, 2 * m, h) && Linked(n) && Increasing(Elements(n))
    requires SearchStep(n, v) == Down(i)
    requires RemovedWell(n.children[i], v, m, m, h - 1, RemoveFrom(n.children[i], v, m))
    ensures RemovedWell(n, v, m, lo, h, RemoveFrom(n, v, m))
  {
    var ks, cs := n.keys, n.children;
    var c := RemoveFrom(cs[i], v, m);
    var p := Node(ks, cs[i := c]);
    DownElements(ks, cs, i, c, v);
    ReplacedShortAt(n, ks, i, c, m, lo, h);
    FixSpec(p, i, m, lo, h);
    RemoveDownUnfold(n, v, m, i, c, p);
  }

  lemma RemoveDownUnfold(n: Node, v: int, m: nat, i: nat, c: Node, p: Node)
    requires Linked(n) && SearchStep(n, v) == Down(i) && c == RemoveFrom(n.children[i], v, m)
    requires p == Node(n.keys, n.children[i := c]) && Combinable(p, i)
    ensures RemoveFrom(n, v, m) == Fix(p, i, m)
  {
  }

  /**
   * Removing `v` from a shaped subtree with strictly increasing in-order
   * keys takes exactly `v` out of them, if present, and leaves a subtree at
   * most one key short at its top.
   */
  lemma {:induction false} RemoveFromSpec(n: Node, v: int, m: nat, lo: int, h: nat)
    requires 1 <= m && 1 <= lo && Shaped(n, m, lo, 2 * m, h) && Linked(n) && Increasing(Elements(n))
    ensures RemovedWell(n, v, m, lo, h, RemoveFrom(n, v, m))
    decreases n
  {
    var ks, cs := n.keys, n.children;
    match SearchStep(n, v)
    case Missing =>
      RemoveMissingCase(n, v, m, lo, h);
    case Here =>
      if cs == [] {
        RemoveLeafCase(n, v, m, lo, h);
      } else {
        var idx := Find(ks, v);
        ChildBoundsStrict(ks, cs, idx);
        RemoveGreatestSpec(cs[idx], m, m, h - 1);
        RemoveHereCase(n, v, m, lo, h);
      }
    case Down(i) =>
      ChildBoundsStrict(ks, cs, i);
      RemoveFromSpec(cs[i], v, m, m, h - 1);
      RemoveDownCase(n, v, m, lo, h, i);
  }

  /** The reference for remove: the in-order keys with the first occurrence of `v` taken out, if any. */
  function Without(s: seq<int>, v: int): seq<int>
  {
    if v in s then RemoveAt(s, Find(s, v)) else s
  }

  /** Without keeps sorted keys sorted and takes exactly `v` out of them, if present. */
  lemma WithoutSpec(s: seq<int>, v: int)
    requires Sorted(s)
    ensures Sorted(Without(s, v))
    ensures multiset(Without(s, v)) == multiset(s) - multiset{v}
    ensures |Without(s, v)| == if v in s then |s| - 1 else |s|
  {
    if v in s {
      RemoveAtSorted(s, Find(s, v));
      RemoveAtMultiset(s, Find(s, v));
    } else {
      assert v !in multiset(s);
    }
  }

  /** A root left without keys but with a child: the child is a valid tree one level lower, holding the same keys. */
  lemma RootEmptied(r: Node, m: nat, h: nat)
    requires 1 <= m && Shaped(r, m, 0, 2 * m, h) && |r.keys| == 0 && r.children != [] && Increasing(Elements(r))
    ensures ValidTree(Some(r.children[0]), m) && Elements(r.children[0]) == Elements(r)
  {
    var c := r.children[0];
    assert Elements(r) == Elements(c);
    assert Shaped(c, m, m, 2 * m, h - 1);
    ShapedHeight(c, m, m, 2 * m, h - 1);
    ShapedWeaken(c, m, m, 2 * m, 1, 2 * m, h - 1);
    IncreasingIsSorted(Elements(c));
  }

  /** A root that keeps a key is a valid tree. */
  lemma RootKept(r: Node, m: nat, h: nat)
    requires 1 <= m && Shaped(r, m, 0, 2 * m, h) && 1 <= |r.keys| && Increasing(Elements(r))
    ensures ValidTree(Some(r), m)
  {
    assert Shaped(r, m, 1, 2 * m, h);
    ShapedHeight(r, m, 1, 2 * m, h);
    IncreasingIsSorted(Elements(r));
  }

  /** remove on a root holding `v`: a root left without keys gives way to its only child, or to no tree. */
  lemma RemoveRootFound(r: Node, v: int, m: nat)
    requires ValidTree(Some(r), m) && Linked(r) && Increasing(Elements(r)) && Search(r, v).Some?
    ensures ValidTree(RemoveTree(Some(r), v, m), m)
    ensures Increasing(TreeElements(RemoveTree(Some(r), v, m)))
    ensures multiset(TreeElements(RemoveTree(Some(r), v, m))) == multiset(Elements(r)) - multiset{v}
  {
    var r' := RemoveFrom(r, v, m);
    RemoveFromSpec(r, v, m, 1, Height(r));
    if |r'.keys| == 0 {
      if r'.children != [] {
        RootEmptied(r', m, Height(r));
      }
    } else {
      RootKept(r', m, Height(r));
    }
  }

  /**
   * remove keeps a tree with strictly increasing in-order keys valid and
   * strictly increasing, and takes exactly `v` out of its in-order keys,
   * so the tree holds one key fewer exactly when it held `v`.
   */
  lemma RemoveTreeSpec(root: Option<Node>, v: int, m: nat)
    requires ValidTree(root, m) && (root.Some? ==> Linked(root.value)) && Increasing(TreeElements(root))
    ensures ValidTree(RemoveTree(root, v, m), m)
    ensures Increasing(TreeElements(RemoveTree(root, v, m)))
    ensures TreeElements(RemoveTree(root, v, m)) == Without(TreeElements(root), v)
    ensures |TreeElements(RemoveTree(root, v, m))|
         == if v in TreeElements(root) then |TreeElements(root)| - 1 else |TreeElements(root)|
  {
    var t := RemoveTree(root, v, m);
    var s := TreeElements(root);
    IncreasingIsSorted(s);
    if root.Some? {
      var r := root.value;
      SearchTreeFinds(root, v);
      if Search(r, v).Some? {
        RemoveRootFound(r, v, m);
      } else {
        assert v !in multiset(s);
      }
    }
    IncreasingIsSorted(TreeElements(t));
    WithoutSpec(s, v);
    SortedUnique(TreeElements(t), Without(s, v));
  }
}
