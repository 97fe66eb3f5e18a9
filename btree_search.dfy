/**
 * getBNode of src/btree/BTree.java (behind contains and search) on node
 * values: one step per node visited, and the proof that in a tree with
 * sorted in-order keys it finds a node exactly when the key is present.
 */
module BTreeSearch {
  import opened Wrappers
  import opened SortedSeqs
  import opened BTreeNodes

  /** What getBNode does at one node: stop here, go down to a child, or give up. */
  datatype Step = Here | Down(child: nat) | Missing

  /**
   * The inner loop of getBNode from key `i` on, entered with key `i` at most
   * `v` and `v` at most the last key: stop at a key equal to `v`, go down
   * between two keys that bracket `v` strictly (or give up when that child
   * is missing), and otherwise move to the next key.
   */
  function KeyStep(n: Node, v: int, i: nat): (s: Step)
    requires i < |n.keys| && n.keys[i] <= v <= n.keys[|n.keys| - 1]
    ensures s.Here? ==> v in n.keys
    ensures s.Down? ==> 0 < s.child < |n.keys| && s.child < |n.children|
    ensures s.Down? ==> n.keys[s.child - 1] < v < n.keys[s.child]
    ensures s.Missing? ==> |n.children| < |n.keys|
    decreases |n.keys| - i
  {
    if n.keys[i] == v then Here
    else if n.keys[i + 1] > v then
      if i + 1 < |n.children| then Down(i + 1) else Missing
    else KeyStep(n, v, i + 1)
  }

  /**
   * One pass of getBNode's outer loop: below the first key go to child 0,
   * above the last key go to the child after it, each only when that child
   * exists, and otherwise scan the keys.
   */
  function SearchStep(n: Node, v: int): (s: Step)
    requires n.keys != []
    ensures s.Here? ==> v in n.keys
    ensures s.Down? ==> s.child < |n.children| && s.child <= |n.keys|
    ensures s.Down? && 0 < s.child ==> n.keys[s.child - 1] < v
    ensures s.Down? && s.child < |n.keys| ==> v < n.keys[s.child]
  {
    if v < n.keys[0] then
      if |n.children| > 0 then Down(0) else Missing
    else if v > n.keys[|n.keys| - 1] then
      if |n.children| > |n.keys| then Down(|n.keys|) else Missing
    else KeyStep(n, v, 0)
  }

  /** getBNode below `n`: the node where the search stops on `v`, if any. */
  function Search(n: Node, v: int): Option<Node>
    requires Linked(n)
    decreases n
  {
    match SearchStep(n, v)
    case Here => Some(n)
    case Down(i) => Search(n.children[i], v)
    case Missing => None
  }

  /** getBNode on the whole tree: nothing is found in an empty tree. */
  function SearchTree(root: Option<Node>, v: int): Option<Node>
    requires root.Some? ==> Linked(root.value)
  {
    match root
    case None => None
    case Some(r) => Search(r, v)
  }

  /** In a leaf with sorted keys, a search that gives up has no key equal to `v`. */
  lemma MissingLeaf(n: Node, v: int)
    requires Linked(n) && SearchStep(n, v).Missing? && Sorted(n.keys)
    ensures n.children == [] && v !in n.keys
  {
    var ks := n.keys;
    if v < ks[0] {
    } else if v > ks[|ks| - 1] {
    } else {
      var j := MissingBetween(n, v, 0);
      forall k | 0 <= k < |ks| ensures ks[k] != v {
        if k <= j {
          assert ks[k] <= ks[j];
        } else {
          assert ks[j + 1] <= ks[k];
        }
      }
    }
  }

  /** Where the key scan gives up, `v` lies strictly between two neighbouring keys. */
  lemma MissingBetween(n: Node, v: int, i: nat) returns (j: nat)
    requires i < |n.keys| && n.keys[i] <= v <= n.keys[|n.keys| - 1] && KeyStep(n, v, i).Missing?
    ensures i <= j && j + 1 < |n.keys| && n.keys[j] < v < n.keys[j + 1]
    decreases |n.keys| - i
  {
    if n.keys[i] != v && n.keys[i + 1] > v {
      j := i;
    } else {
      j := MissingBetween(n, v, i + 1);
    }
  }

  /** Going down to child `i` loses nothing: `v` is in the node's keys exactly when it is in the child's. */
  lemma DownKeeps(n: Node, v: int, i: nat)
    requires |n.children| == |n.keys| + 1 && i < |n.children| && Sorted(Elements(n))
    requires 0 < i ==> n.keys[i - 1] < v
    requires i < |n.keys| ==> v < n.keys[i]
    ensures v in Elements(n) <==> v in Elements(n.children[i])
  {
    var ks, cs := n.keys, n.children;
    ChildWindow(ks, cs, i);
  }

  /**
   * getBNode in a subtree with sorted in-order keys stops at a node exactly
   * when `v` is among the keys, and the node it stops at holds `v`.
   */
  lemma {:induction false} SearchFinds(n: Node, v: int)
    requires Linked(n) && Sorted(Elements(n))
    ensures Search(n, v).Some? <==> v in Elements(n)
    ensures Search(n, v).Some? ==> v in Search(n, v).value.keys
    decreases n
  {
    KeysSorted(n.keys, n.children);
    match SearchStep(n, v)
    case Here =>
      KeysInElements(n, v);
    case Down(i) =>
      ChildBounds(n.keys, n.children, i);
      SearchFinds(n.children[i], v);
      DownKeeps(n, v, i);
    case Missing =>
      MissingLeaf(n, v);
  }

  /** contains(value) on a valid tree answers whether the tree holds the key. */
  lemma SearchTreeFinds(root: Option<Node>, v: int)
    requires root.Some? ==> Linked(root.value) && Sorted(Elements(root.value))
    ensures SearchTree(root, v).Some? <==> (root.Some? && v in Elements(root.value))
    ensures SearchTree(root, v).Some? ==> v in SearchTree(root, v).value.keys
  {
    if root.Some? {
      SearchFinds(root.value, v);
    }
  }
}
