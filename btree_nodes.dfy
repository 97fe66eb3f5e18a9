/**
 * The tree the B-tree of src/btree/BTree.java keeps below its root, as a
 * value: each node is the used part of a BNode's key array and child array.
 * The shape rules (key and child counts, leaves at one depth) and the
 * in-order key sequence that visit produces are defined here, with the
 * sequence algebra the insert and remove proofs share.
 */
module BTreeNodes {
  import opened Wrappers
  import opened SortedSeqs

  /** A node: its used keys and its used children, both in array order. */
  datatype Node = Node(keys: seq<int>, children: seq<Node>)

  /**
   * The keys under `n` in the order visit adds them: child 0, then every key
   * followed by the child after it.
   */
  function Elements(n: Node): seq<int>
    decreases n
  {
    Weave(n.keys, n.children)
  }

  /**
   * Child 0 of `cs`, then each key of `ks` followed by the rest woven the
   * same way.  Once the children run out the remaining keys follow on their
   * own (visit skips a null child), and children beyond the keys are never
   * reached.
   */
  function Weave(ks: seq<int>, cs: seq<Node>): seq<int>
    decreases cs
  {
    if cs == [] then ks
    else if ks == [] then Elements(cs[0])
    else Elements(cs[0]) + [ks[0]] + Weave(ks[1..], cs[1..])
  }

  /** Weaving splits at any point where the keys and children seen so far are equally many. */
  lemma {:induction false} WeaveAppend(ka: seq<int>, ca: seq<Node>, kb: seq<int>, cb: seq<Node>)
    requires |ka| == |ca|
    ensures Weave(ka + kb, ca + cb) == Weave(ka, ca) + Weave(kb, cb)
  {
    if ka != [] {
      assert (ka + kb)[1..] == ka[1..] + kb;
      assert (ca + cb)[1..] == ca[1..] + cb;
      WeaveAppend(ka[1..], ca[1..], kb, cb);
    } else {
      assert ka + kb == kb && ca + cb == cb;
    }
  }

  /** A node with one child more than keys: its last child closes its weave. */
  lemma {:induction false} WeaveLast(ks: seq<int>, cs: seq<Node>)
    requires |cs| == |ks| + 1
    ensures Weave(ks, cs) == Weave(ks, cs[..|ks|]) + Elements(cs[|ks|])
  {
    if ks == [] {
      assert cs[..0] == [];
    } else {
      WeaveLast(ks[1..], cs[1..]);
      assert cs[1..][..|ks| - 1] == cs[..|ks|][1..];
      assert cs[1..][|ks| - 1] == cs[|ks|];
    }
  }

  /**
   * Two woven runs around a key: `ks1` with one child more than keys, then
   * `k`, then the rest.
   */
  lemma WeaveJoin(ks1: seq<int>, k: int, ks2: seq<int>, cs1: seq<Node>, cs2: seq<Node>)
    requires |cs1| == |ks1| + 1
    ensures Weave(ks1 + [k] + ks2, cs1 + cs2) == Weave(ks1, cs1) + [k] + Weave(ks2, cs2)
  {
    var ca := cs1[..|ks1|];
    var c := cs1[|ks1|];
    assert ks1 + [k] + ks2 == ks1 + ([k] + ks2);
    assert cs1 + cs2 == ca + ([c] + cs2);
    WeaveAppend(ks1, ca, [k] + ks2, [c] + cs2);
    assert ([k] + ks2)[1..] == ks2 && ([c] + cs2)[1..] == cs2;
    WeaveLast(ks1, cs1);
  }

  /** What follows child `j` in the weave of `ks`, `cs`: key `j` and the rest, if any. */
  function After(ks: seq<int>, cs: seq<Node>, j: nat): seq<int>
    requires j < |cs| && |cs| == |ks| + 1
  {
    if j < |ks| then [ks[j]] + Weave(ks[j + 1..], cs[j + 1..]) else []
  }

  /** A run with one child more than keys, followed by more keys and children in equal numbers. */
  lemma WeaveClose(K: seq<int>, C: seq<Node>, R: seq<int>, D: seq<Node>)
    requires |C| == |K| + 1 && |R| == |D|
    ensures Weave(K + R, C + D) == Weave(K, C) + (if R == [] then [] else [R[0]] + Weave(R[1..], D))
  {
    var C', c := C[..|K|], C[|K|];
    assert C + D == C' + ([c] + D);
    WeaveAppend(K, C', R, [c] + D);
    assert ([c] + D)[0] == c && ([c] + D)[1..] == D;
    WeaveLast(K, C);
  }

  /**
   * Replacing the window of children `i..j` and the keys between them by
   * `C` and `K` (one child more than keys) changes only the window's part
   * of the weave.
   */
  lemma SpliceElements(ks: seq<int>, cs: seq<Node>, i: nat, j: nat, K: seq<int>, C: seq<Node>)
    requires |cs| == |ks| + 1 && i <= j < |cs| && |C| == |K| + 1
    ensures Weave(ks[..i] + K + ks[j..], cs[..i] + C + cs[j + 1..])
         == Weave(ks[..i], cs[..i]) + Weave(K, C) + After(ks, cs, j)
  {
    var R, D := ks[j..], cs[j + 1..];
    assert ks[..i] + K + R == ks[..i] + (K + R);
    assert cs[..i] + C + D == cs[..i] + (C + D);
    WeaveAppend(ks[..i], cs[..i], K + R, C + D);
    WeaveClose(K, C, R, D);
    if j < |ks| {
      assert R[0] == ks[j] && R[1..] == ks[j + 1..];
    }
  }

  /** The weave of a node seen around its window of children `i..j`. */
  lemma WindowElements(ks: seq<int>, cs: seq<Node>, i: nat, j: nat)
    requires |cs| == |ks| + 1 && i <= j < |cs|
    ensures Weave(ks, cs) == Weave(ks[..i], cs[..i]) + Weave(ks[i..j], cs[i..j + 1]) + After(ks, cs, j)
  {
    Reassemble(ks, i, j);
    Reassemble(cs, i, j + 1);
    SpliceElements(ks, cs, i, j, ks[i..j], cs[i..j + 1]);
  }

  /** The weave of a node seen around its child `i`. */
  lemma ChildElements(ks: seq<int>, cs: seq<Node>, i: nat)
    requires |cs| == |ks| + 1 && i < |cs|
    ensures Weave(ks, cs) == Weave(ks[..i], cs[..i]) + Elements(cs[i]) + After(ks, cs, i)
  {
    WindowElements(ks, cs, i, i);
    assert ks[i..i] == [] && cs[i..i + 1] == [cs[i]];
  }

  /** The prefix of the weave before child `i + 1` ends with key `i`. */
  lemma BeforeEndsWithKey(ks: seq<int>, cs: seq<Node>, i: nat)
    requires i < |ks| && i < |cs|
    ensures Weave(ks[..i + 1], cs[..i + 1]) == Weave(ks[..i], cs[..i]) + Elements(cs[i]) + [ks[i]]
  {
    assert ks[..i + 1] == ks[..i] + [ks[i]] && cs[..i + 1] == cs[..i] + [cs[i]];
    WeaveAppend(ks[..i], cs[..i], [ks[i]], [cs[i]]);
  }

  /** Key `i - 1` ends the part of the weave before child `i`. */
  lemma KeyBeforeChild(ks: seq<int>, cs: seq<Node>, i: nat)
    requires |cs| == |ks| + 1 && 0 < i < |cs|
    ensures ks[i - 1] in Weave(ks[..i], cs[..i])
  {
    BeforeEndsWithKey(ks, cs, i - 1);
  }

  /** Key `i` starts the part of the weave after child `i`. */
  lemma KeyAfterChild(ks: seq<int>, cs: seq<Node>, i: nat)
    requires |cs| == |ks| + 1 && i < |ks|
    ensures ks[i] in After(ks, cs, i)
  {
  }

  /**
   * In a node with sorted in-order keys, each child's keys are sorted and lie
   * between the keys on either side of it, and those two keys are in order.
   */
  lemma ChildBounds(ks: seq<int>, cs: seq<Node>, i: nat)
    requires |cs| == |ks| + 1 && i < |cs| && Sorted(Weave(ks, cs))
    ensures Sorted(Elements(cs[i]))
    ensures 0 < i ==> forall x :: x in Elements(cs[i]) ==> ks[i - 1] <= x
    ensures i < |ks| ==> forall x :: x in Elements(cs[i]) ==> x <= ks[i]
    ensures 0 < i < |ks| ==> ks[i - 1] <= ks[i]
  {
    var pre, post := Weave(ks[..i], cs[..i]), After(ks, cs, i);
    ChildElements(ks, cs, i);
    SortedMiddle(pre, Elements(cs[i]), post);
    if 0 < i {
      KeyBeforeChild(ks, cs, i);
    }
    if i < |ks| {
      KeyAfterChild(ks, cs, i);
    }
  }

  /**
   * The weave of a node around its child `i` with the bounds the keys on
   * either side put on the parts before and after the child.
   */
  lemma ChildWindow(ks: seq<int>, cs: seq<Node>, i: nat)
    requires |cs| == |ks| + 1 && i < |cs| && Sorted(Weave(ks, cs))
    ensures Weave(ks, cs) == Weave(ks[..i], cs[..i]) + Elements(cs[i]) + After(ks, cs, i)
    ensures i == 0 ==> Weave(ks[..i], cs[..i]) == []
    ensures 0 < i ==> forall x :: x in Weave(ks[..i], cs[..i]) ==> x <= ks[i - 1]
    ensures i < |ks| ==> forall y :: y in After(ks, cs, i) ==> ks[i] <= y
    ensures i == |ks| ==> After(ks, cs, i) == []
  {
    var pre, post := Weave(ks[..i], cs[..i]), After(ks, cs, i);
    ChildElements(ks, cs, i);
    SortedOuter(pre, Elements(cs[i]), post);
    if 0 < i {
      var w := Weave(ks[..i - 1], cs[..i - 1]) + Elements(cs[i - 1]);
      BeforeEndsWithKey(ks, cs, i - 1);
      assert pre == w + [ks[i - 1]];
      SortedEndsWith(w, ks[i - 1]);
    } else {
      assert ks[..0] == [] && cs[..0] == [];
    }
    if i < |ks| {
      SortedStartsWith(ks[i], Weave(ks[i + 1..], cs[i + 1..]));
    }
  }

  /** The in-order keys of a strictly increasing node: the same facts, strictly. */
  lemma ChildBoundsStrict(ks: seq<int>, cs: seq<Node>, i: nat)
    requires |cs| == |ks| + 1 && i < |cs| && Increasing(Weave(ks, cs))
    ensures Increasing(Elements(cs[i]))
    ensures 0 < i ==> forall x :: x in Elements(cs[i]) ==> ks[i - 1] < x
    ensures i < |ks| ==> forall x :: x in Elements(cs[i]) ==> x < ks[i]
  {
    var pre, post := Weave(ks[..i], cs[..i]), After(ks, cs, i);
    ChildElements(ks, cs, i);
    IncreasingMiddle(pre, Elements(cs[i]), post);
    if 0 < i {
      KeyBeforeChild(ks, cs, i);
    }
    if i < |ks| {
      KeyAfterChild(ks, cs, i);
    }
  }

  /** Sorted in-order keys make each node's own keys sorted. */
  lemma {:induction false} KeysSorted(ks: seq<int>, cs: seq<Node>)
    requires cs == [] || |cs| == |ks| + 1
    requires Sorted(Weave(ks, cs))
    ensures Sorted(ks)
  {
    if cs != [] {
      forall a, b | 0 <= a < b < |ks| ensures ks[a] <= ks[b] {
        KeyBelowLaterKeys(ks, cs, a, b);
      }
    }
  }

  /** Key `a` is at most key `b` for `a < b`, by the children between them. */
  lemma {:induction false} KeyBelowLaterKeys(ks: seq<int>, cs: seq<Node>, a: nat, b: nat)
    requires |cs| == |ks| + 1 && a < b < |ks| && Sorted(Weave(ks, cs))
    ensures ks[a] <= ks[b]
    decreases b - a
  {
    ChildBounds(ks, cs, a + 1);
    if a + 1 < b {
      KeyBelowLaterKeys(ks, cs, a + 1, b);
    }
  }

  /** A node's own keys all occur in its in-order keys. */
  lemma KeysInElements(n: Node, x: int)
    requires n.children == [] || |n.children| == |n.keys| + 1
    requires x in n.keys
    ensures x in Elements(n)
  {
    var i :| 0 <= i < |n.keys| && n.keys[i] == x;
    if n.children != [] {
      ChildElements(n.keys, n.children, i);
    }
  }

  /**
   * The shape rules: `lo <= keys <= hi` for the node itself, `m <= keys <= 2m`
   * below it, every internal node one child more than keys, and all leaves
   * `h` levels down.
   */
  predicate Shaped(n: Node, m: nat, lo: int, hi: int, h: nat)
    decreases n
  {
    lo <= |n.keys| <= hi
    && (h == 0 ==> n.children == [])
    && (0 < h ==> |n.children| == |n.keys| + 1
                  && forall i :: 0 <= i < |n.children| ==> Shaped(n.children[i], m, m, 2 * m, h - 1))
  }

  /** Every node of `cs` is shaped as a non-root node with leaves `h` levels down. */
  predicate AllShaped(cs: seq<Node>, m: nat, h: nat)
  {
    forall j :: 0 <= j < |cs| ==> Shaped(cs[j], m, m, 2 * m, h)
  }

  /** An internal node is shaped when its key count is within bounds and its children are shaped. */
  lemma ShapedInternal(n: Node, m: nat, lo: int, hi: int, h: nat)
    requires 0 < h && lo <= |n.keys| <= hi && |n.children| == |n.keys| + 1
    requires AllShaped(n.children, m, h - 1)
    ensures Shaped(n, m, lo, hi, h)
  {
  }

  /** Both sides of a cut of shaped children are shaped. */
  lemma AllShapedCut(cs: seq<Node>, a: nat, m: nat, h: nat)
    requires AllShaped(cs, m, h) && a <= |cs|
    ensures AllShaped(cs[..a], m, h) && AllShaped(cs[a..], m, h)
  {
    assert forall j :: 0 <= j < |cs| - a ==> cs[a..][j] == cs[a + j];
  }

  /** Shaped children put together are shaped. */
  lemma AllShapedJoin(a: seq<Node>, b: seq<Node>, m: nat, h: nat)
    requires AllShaped(a, m, h) && AllShaped(b, m, h)
    ensures AllShaped(a + b, m, h)
  {
    assert forall j :: |a| <= j < |a + b| ==> (a + b)[j] == b[j - |a|];
  }

  /** Levels below `n`, counted along its first children. */
  function Height(n: Node): nat
  {
    if n.children == [] then 0 else 1 + Height(n.children[0])
  }

  /** A shaped node's height is the level its leaves are at. */
  lemma ShapedHeight(n: Node, m: nat, lo: int, hi: int, h: nat)
    requires Shaped(n, m, lo, hi, h)
    ensures Height(n) == h
    decreases h
  {
    if 0 < h {
      ShapedHeight(n.children[0], m, m, 2 * m, h - 1);
    }
  }

  /** Looser key bounds keep a node shaped. */
  lemma ShapedWeaken(n: Node, m: nat, lo: int, hi: int, lo': int, hi': int, h: nat)
    requires Shaped(n, m, lo, hi, h) && lo' <= lo && hi <= hi'
    ensures Shaped(n, m, lo', hi', h)
  {
  }

  /**
   * The tree the BTree keeps: no root, or a root with at least one key whose
   * subtree is shaped (the root may hold from 1 to 2m keys) and whose
   * in-order keys are sorted.
   */
  predicate ValidTree(root: Option<Node>, m: nat)
  {
    1 <= m &&
    (root.Some? ==>
      1 <= |root.value.keys| && Shaped(root.value, m, 1, 2 * m, Height(root.value))
      && Sorted(Elements(root.value)))
  }

  /** Every node holds a key and an internal node one child more than keys. */
  predicate Linked(n: Node)
    decreases n
  {
    1 <= |n.keys|
    && (n.children == [] || |n.children| == |n.keys| + 1)
    && forall i :: 0 <= i < |n.children| ==> Linked(n.children[i])
  }

  /** A shaped node with a key, under a positive minimum, is linked. */
  lemma ShapedLinked(n: Node, m: nat, lo: int, hi: int, h: nat)
    requires 1 <= m && Shaped(n, m, lo, hi, h) && 1 <= |n.keys|
    ensures Linked(n)
    decreases h
  {
    if 0 < h {
      forall i | 0 <= i < |n.children| ensures Linked(n.children[i]) {
        ShapedLinked(n.children[i], m, m, 2 * m, h - 1);
      }
    }
  }
}
