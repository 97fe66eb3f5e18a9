/**
 * validate() and validateBNode of src/btree/BTree.java as predicates on node
 * values, and the proof that every tree satisfying the model's invariant
 * passes them.
 */
module BTreeValidation {
  import opened Wrappers
  import opened SortedSeqs
  import opened BTreeNodes

  /**
   * What validateBNode reads without failing: an internal node has a key and
   * at least one child per key, and every child has a key.
   */
  predicate Inspectable(n: Node)
    decreases n
  {
    n.children != [] ==>
      1 <= |n.keys| <= |n.children|
      && forall i :: 0 <= i < |n.children| ==> 1 <= |n.children[i].keys| && Inspectable(n.children[i])
  }

  /** The key-order loop of validateBNode: no key is larger than the next. */
  predicate KeysInOrder(ks: seq<int>)
  {
    forall i :: 1 <= i < |ks| ==> ks[i - 1] <= ks[i]
  }

  /** validateBNode(n), with `isRoot` for `n.parent == null` and `m` for minKeySize. */
  predicate ValidateNode(n: Node, m: nat, isRoot: bool)
    requires Inspectable(n)
    decreases n, 1
  {
    KeysInOrder(n.keys)
    && if isRoot then
         |n.keys| <= 2 * m
         && (n.children == [] || (2 <= |n.children| <= 2 * m + 1 && ValidateChildren(n, m)))
       else
         m <= |n.keys| <= 2 * m
         && (n.children == []
             || (|n.keys| == |n.children| - 1 && m + 1 <= |n.children| <= 2 * m + 1
                 && ValidateChildren(n, m)))
  }

  /**
   * The checks validateBNode makes after the size checks: the first child's
   * last key is at most key 0, the last child's first key at least the last
   * key, each middle child's first and last keys within the keys around it,
   * and every child valid as a non-root node.
   */
  predicate ValidateChildren(n: Node, m: nat)
    requires Inspectable(n) && n.children != []
    decreases n, 0
  {
    var ks, cs := n.keys, n.children;
    cs[0].keys[|cs[0].keys| - 1] <= ks[0]
    && ks[|ks| - 1] <= cs[|cs| - 1].keys[0]
    && (forall i :: 1 <= i < |ks| ==> ks[i - 1] <= cs[i].keys[0] && cs[i].keys[|cs[i].keys| - 1] <= ks[i])
    && (forall i :: 0 <= i < |cs| ==> ValidateNode(cs[i], m, false))
  }

  /** validate(): an empty tree passes, otherwise the root is checked as the root. */
  predicate Validate(root: Option<Node>, m: nat)
    requires root.Some? ==> Inspectable(root.value)
  {
    root.None? || ValidateNode(root.value, m, true)
  }

  /** A shaped node under a positive minimum can be inspected. */
  lemma ShapedInspectable(n: Node, m: nat, lo: int, h: nat)
    requires 1 <= m && Shaped(n, m, lo, 2 * m, h) && 1 <= |n.keys|
    ensures Inspectable(n)
    decreases h
  {
    if 0 < h {
      forall i | 0 <= i < |n.children| ensures 1 <= |n.children[i].keys| && Inspectable(n.children[i]) {
        ShapedInspectable(n.children[i], m, m, h - 1);
      }
    }
  }

  /** Sorted keys pass the key-order loop. */
  lemma SortedInOrder(ks: seq<int>)
    requires Sorted(ks)
    ensures KeysInOrder(ks)
  {
  }

  /** A child's own first and last keys lie within the bounds of all its in-order keys. */
  lemma ChildEndKeys(ks: seq<int>, cs: seq<Node>, i: nat)
    requires |cs| == |ks| + 1 && i < |cs| && Sorted(Weave(ks, cs))
    requires 1 <= |cs[i].keys| && (cs[i].children == [] || |cs[i].children| == |cs[i].keys| + 1)
    ensures Sorted(Elements(cs[i]))
    ensures 0 < i ==> ks[i - 1] <= cs[i].keys[0]
    ensures i < |ks| ==> cs[i].keys[|cs[i].keys| - 1] <= ks[i]
  {
    ChildBounds(ks, cs, i);
    KeysInElements(cs[i], cs[i].keys[0]);
    KeysInElements(cs[i], cs[i].keys[|cs[i].keys| - 1]);
  }

  /** The child checks of validateBNode hold for a shaped internal node with sorted in-order keys. */
  lemma {:induction false} ShapedChildrenValidate(n: Node, m: nat, lo: int, h: nat)
    requires 1 <= m && 0 < h && Shaped(n, m, lo, 2 * m, h) && 1 <= |n.keys| && Sorted(Elements(n))
    ensures Inspectable(n) && ValidateChildren(n, m)
    decreases h, 0
  {
    ShapedInspectable(n, m, lo, h);
    var ks, cs := n.keys, n.children;
    forall i | 0 <= i < |cs|
      ensures Sorted(Elements(cs[i]))
      ensures 0 < i ==> ks[i - 1] <= cs[i].keys[0]
      ensures i < |ks| ==> cs[i].keys[|cs[i].keys| - 1] <= ks[i]
    {
      ChildEndKeys(ks, cs, i);
    }
    forall i | 0 <= i < |cs| ensures ValidateNode(cs[i], m, false) {
      ShapedValidates(cs[i], m, m, h - 1, false);
    }
  }

  /**
   * Every node of a shaped tree with sorted in-order keys passes
   * validateBNode; a non-root node must carry the full minimum of keys.
   */
  lemma {:induction false} ShapedValidates(n: Node, m: nat, lo: int, h: nat, isRoot: bool)
    requires 1 <= m && Shaped(n, m, lo, 2 * m, h) && 1 <= |n.keys| && Sorted(Elements(n))
    requires !isRoot ==> lo == m
    ensures Inspectable(n) && ValidateNode(n, m, isRoot)
    decreases h, 1
  {
    ShapedInspectable(n, m, lo, h);
    KeysSorted(n.keys, n.children);
    SortedInOrder(n.keys);
    if 0 < h {
      ShapedChildrenValidate(n, m, lo, h);
    }
  }

  /** Every tree the model keeps passes validate(). */
  lemma ValidTreeValidates(root: Option<Node>, m: nat)
    requires ValidTree(root, m)
    ensures root.Some? ==> Inspectable(root.value)
    ensures Validate(root, m)
  {
    if root.Some? {
      ShapedValidates(root.value, m, 1, Height(root.value), true);
    }
  }
}
