/**
 * The node buffer of src/btree/BNode.java: a key array and a child array,
 * each with a used count and one slot of room beyond the node's maximum.
 * Each operation is proved against a function on the used prefix of its
 * array; the functions are the ones the B-tree model in btree.dfy applies
 * to its node values.
 */
module BNodes {
  import opened Wrappers
  import opened SortedSeqs

  /** First index of `x` in `s`, or -1 when `x` does not occur. */
  function Find<T(==)>(s: seq<T>, x: T): (i: int)
    ensures -1 <= i < |s|
    ensures i == -1 <==> x !in s
    ensures 0 <= i ==> s[i] == x && x !in s[..i]
  {
    if s == [] then -1
    else if s[0] == x then 0
    else
      var j := Find(s[1..], x);
      assert s == [s[0]] + s[1..];
      if j == -1 then -1
      else
        assert s[..j + 1] == [s[0]] + s[1..][..j];
        j + 1
  }

  /** An occurrence with none before it is the one `Find` reports. */
  lemma FindIsFirst<T>(s: seq<T>, x: T, i: nat)
    requires i < |s| && s[i] == x && x !in s[..i]
    ensures Find(s, x) == i
  {
    var f := Find(s, x);
    assert s[i] in s[..f + 1];
    assert s[f] in s[..i + 1];
  }

  /** `s` without its entry at `i`, the others kept in order. */
  function RemoveAt<T>(s: seq<T>, i: nat): seq<T>
    requires i < |s|
  {
    s[..i] + s[i + 1..]
  }

  /** Removing an entry takes exactly that entry out of the multiset. */
  lemma RemoveAtMultiset<T>(s: seq<T>, i: nat)
    requires i < |s|
    ensures |RemoveAt(s, i)| == |s| - 1
    ensures multiset(RemoveAt(s, i)) == multiset(s) - multiset{s[i]}
  {
    assert s == s[..i] + [s[i]] + s[i + 1..];
  }

  /** Removing an entry keeps a sorted sequence sorted. */
  lemma RemoveAtSorted(s: seq<int>, i: nat)
    requires i < |s| && Sorted(s)
    ensures Sorted(RemoveAt(s, i))
  {
    var r := RemoveAt(s, i);
    forall a, b | 0 <= a < b < |r| ensures r[a] <= r[b] {
      var a' := if a < i then a else a + 1;
      var b' := if b < i then b else b + 1;
      assert r[a] == s[a'] && r[b] == s[b'];
    }
  }

  /** The slot a stable sort gives a new key `k` in a sorted `s`: after every key at most `k`. */
  function SlotFor(s: seq<int>, k: int): (p: nat)
    ensures p <= |s|
  {
    if s == [] || k < s[0] then 0 else 1 + SlotFor(s[1..], k)
  }

  /** In a sorted sequence that slot separates the keys at most `k` from the larger ones. */
  lemma {:induction false} SlotForSplits(s: seq<int>, k: int)
    requires Sorted(s)
    ensures SplitsAt(s, SlotFor(s, k), k)
  {
    if s == [] {
    } else if k < s[0] {
      assert forall i :: 0 <= i < |s| ==> s[0] <= s[i];
    } else {
      assert Sorted(s[1..]) by {
        forall a, b | 0 <= a < b < |s| - 1 ensures s[1..][a] <= s[1..][b] {
          assert s[1..][a] == s[a + 1] && s[1..][b] == s[b + 1];
        }
      }
      SlotForSplits(s[1..], k);
      var q := SlotFor(s[1..], k);
      forall i | 0 <= i < 1 + q ensures s[i] <= k {
        if i > 0 {
          assert s[i] == s[1..][i - 1];
        }
      }
      forall i | 1 + q <= i < |s| ensures k < s[i] {
        assert s[i] == s[1..][i - 1];
      }
    }
  }

  /** A sequence has at most one split point for a key. */
  lemma SplitPointUnique(s: seq<int>, p: nat, q: nat, k: int)
    requires SplitsAt(s, p, k) && SplitsAt(s, q, k)
    ensures p == q
  {
    var m := if p < q then p else q;
    if m < |s| {
      assert m < p <==> s[m] <= k;
      assert m < q <==> s[m] <= k;
    }
  }

  /** A sorted `s` with the key `k` placed in its stable-sort slot. */
  function InsertSorted(s: seq<int>, k: int): seq<int>
  {
    s[..SlotFor(s, k)] + [k] + s[SlotFor(s, k)..]
  }

  /** Sorted insertion keeps the keys sorted and adds exactly `k` to them. */
  lemma InsertSortedProperties(s: seq<int>, k: int)
    requires Sorted(s)
    ensures Sorted(InsertSorted(s, k))
    ensures multiset(InsertSorted(s, k)) == multiset(s) + multiset{k}
    ensures |InsertSorted(s, k)| == |s| + 1
  {
    SlotForSplits(s, k);
    SortedInsertAt(s, SlotFor(s, k), k);
    SpliceKeys(s, SlotFor(s, k), k);
  }

  /** A key not yet present goes strictly between its neighbours, so distinct keys stay distinct. */
  lemma InsertSortedIncreasing(s: seq<int>, k: int)
    requires Increasing(s) && k !in s
    ensures Increasing(InsertSorted(s, k))
  {
    var p := SlotFor(s, k);
    SlotStrictlySplits(s, k);
    assert s == s[..p] + s[p..];
    IncreasingSplit(s[..p], s[p..]);
    IncreasingAroundKey(s[..p], k, s[p..]);
  }

  /** For a key not present, the slot has every key before it below `k` and every key from it on above. */
  lemma SlotStrictlySplits(s: seq<int>, k: int)
    requires Increasing(s) && k !in s
    ensures forall x :: x in s[..SlotFor(s, k)] ==> x < k
    ensures forall y :: y in s[SlotFor(s, k)..] ==> k < y
  {
    var p := SlotFor(s, k);
    IncreasingIsSorted(s);
    SlotForSplits(s, k);
    forall x | x in s[..p] ensures x < k {
      var i :| 0 <= i < p && s[i] == x;
    }
    forall y | y in s[p..] ensures k < y {
      var i :| 0 <= i < |s| - p && s[p..][i] == y;
      assert y == s[p + i];
    }
  }

  /** The smallest element of a non-empty sorted sequence is its head. */
  lemma SortedHeadIsLeast(a: seq<int>, x: int)
    requires Sorted(a) && x in multiset(a)
    ensures a[0] <= x
  {
    var i :| 0 <= i < |a| && a[i] == x;
    assert a[0] <= a[i];
  }

  /** The tail of a sorted sequence is sorted. */
  lemma SortedDrop(a: seq<int>)
    requires Sorted(a) && a != []
    ensures Sorted(a[1..])
  {
    forall i, j | 0 <= i < j < |a| - 1 ensures a[1..][i] <= a[1..][j] {
      assert a[1..][i] == a[i + 1] && a[1..][j] == a[j + 1];
    }
  }

  /** Two sorted sequences with the same elements start with the same element. */
  lemma SortedSameHead(a: seq<int>, b: seq<int>)
    requires Sorted(a) && Sorted(b) && multiset(a) == multiset(b) && a != []
    ensures b != [] && a[0] == b[0]
  {
    assert a[0] in multiset(a);
    assert b != [];
    SortedHeadIsLeast(b, a[0]);
    assert b[0] in multiset(b);
    SortedHeadIsLeast(a, b[0]);
  }

  /** Sequences with the same elements and the same head have tails with the same elements. */
  lemma SameTailElements(a: seq<int>, b: seq<int>)
    requires a != [] && b != [] && a[0] == b[0] && multiset(a) == multiset(b)
    ensures multiset(a[1..]) == multiset(b[1..])
  {
    assert a == [a[0]] + a[1..];
    assert b == [b[0]] + b[1..];
    assert multiset(a[1..]) == multiset(a) - multiset{a[0]};
    assert multiset(b[1..]) == multiset(b) - multiset{b[0]};
  }

  /** Two sorted sequences with the same elements are equal. */
  lemma {:induction false} SortedUnique(a: seq<int>, b: seq<int>)
    requires Sorted(a) && Sorted(b) && multiset(a) == multiset(b)
    ensures a == b
  {
    if a == [] {
      assert |b| == |multiset(b)| == 0;
    } else {
      SortedSameHead(a, b);
      SameTailElements(a, b);
      SortedDrop(a);
      SortedDrop(b);
      SortedUnique(a[1..], b[1..]);
      assert a == [a[0]] + a[1..] && b == [b[0]] + b[1..];
    }
  }

  /**
   * Sorting the used keys after appending `k` (what addKey does) gives
   * exactly the sorted insertion of `k`: a sorted sequence is fixed by its
   * elements.
   */
  lemma SortingIsInsertion(s: seq<int>, k: int, t: seq<int>)
    requires Sorted(s) && Sorted(t) && multiset(t) == multiset(s + [k])
    ensures t == InsertSorted(s, k)
  {
    InsertSortedProperties(s, k);
    SortedUnique(t, InsertSorted(s, k));
  }

  /**
   * What the shifting loop of removeKey(value) and removeChild(child) leaves
   * in the first |s|-1 slots once it has found `x` first at `f`: from `f` on,
   * a slot takes the next entry unless that entry is `x` again.
   */
  function ShiftOut<T(==)>(s: seq<T>, x: T, f: nat): (r: seq<T>)
    requires f < |s|
    ensures |r| == |s| - 1
  {
    seq(|s| - 1, j requires 0 <= j < |s| - 1 => ShiftOutAt(s, x, f, j))
  }

  /** Slot `j` of `ShiftOut(s, x, f)`. */
  function ShiftOutAt<T(==)>(s: seq<T>, x: T, f: nat, j: nat): T
    requires j + 1 < |s|
  {
    if f <= j && s[j + 1] != x then s[j + 1] else s[j]
  }

  /** A sequence that agrees slot by slot with `ShiftOut(s, x, f)` is that sequence. */
  lemma ShiftOutFromSlots<T>(t: seq<T>, s: seq<T>, x: T, f: nat)
    requires f < |s| && |t| == |s| - 1
    requires forall j :: 0 <= j < |t| ==> t[j] == ShiftOutAt(s, x, f, j)
    ensures t == ShiftOut(s, x, f)
  {
  }

  /**
   * The state of the shifting loop after `i` entries of `s`, held in `a`:
   * once `x` has been found (first at `f`), the slots before `i - 1` hold
   * their `ShiftOut` values, and the slots from the loop's write point on
   * are untouched.
   */
  ghost predicate Shifting<T>(a: seq<T>, s: seq<T>, x: T, f: nat, i: nat, found: bool)
  {
    i <= |s| <= |a| && (found <==> x in s[..i]) && (found ==> f < i) &&
    (forall j :: (if found then i - 1 else 0) <= j < |s| ==> a[j] == s[j]) &&
    (found ==> forall j :: 0 <= j < i - 1 ==> a[j] == ShiftOutAt(s, x, f, j))
  }

  /** The pass that first meets `x`: every earlier slot keeps its entry, which is its `ShiftOut` value. */
  lemma ShiftingFirst<T>(a: seq<T>, s: seq<T>, x: T, f: nat, i: nat)
    requires Shifting(a, s, x, f, i, false) && i < |s| && s[i] == x
    requires f == Find(s, x)
    ensures Shifting(a, s, x, f, i + 1, true)
  {
    assert s[..i + 1] == s[..i] + [s[i]];
    FindIsFirst(s, x, i);
    forall j | 0 <= j < i ensures a[j] == ShiftOutAt(s, x, f, j) {
      assert a[j] == s[j];
    }
  }

  /** A later pass that meets `x` again: the slot before it already holds its `ShiftOut` value. */
  lemma ShiftingAgain<T>(a: seq<T>, s: seq<T>, x: T, f: nat, i: nat)
    requires Shifting(a, s, x, f, i, true) && i < |s| && s[i] == x
    ensures Shifting(a, s, x, f, i + 1, true)
  {
    assert s[..i + 1] == s[..i] + [s[i]];
    assert a[i - 1] == s[i - 1] == ShiftOutAt(s, x, f, i - 1);
  }

  /** A pass after `x` was found that meets another entry moves it down one slot. */
  lemma ShiftingMove<T>(a: seq<T>, s: seq<T>, x: T, f: nat, i: nat)
    requires Shifting(a, s, x, f, i, true) && i < |s| && s[i] != x
    ensures 0 < i && Shifting(a[i - 1 := a[i]], s, x, f, i + 1, true)
  {
    assert s[..i + 1] == s[..i] + [s[i]];
  }

  /** A pass before `x` was found that meets another entry changes nothing. */
  lemma ShiftingSkip<T>(a: seq<T>, s: seq<T>, x: T, f: nat, i: nat)
    requires Shifting(a, s, x, f, i, false) && i < |s| && s[i] != x
    ensures Shifting(a, s, x, f, i + 1, false)
  {
    assert s[..i + 1] == s[..i] + [s[i]];
  }

  /** At the end of the loop `Shifting` gives the `ShiftOut` result. */
  lemma ShiftingDone<T>(a: seq<T>, s: seq<T>, x: T, f: nat, found: bool)
    requires Shifting(a, s, x, f, |s|, found)
    ensures found <==> x in s
    ensures !found ==> a[..|s|] == s
    ensures found ==> a[..|s| - 1] == ShiftOut(s, x, f)
  {
    assert s[..|s|] == s;
    if found {
      ShiftOutFromSlots(a[..|s| - 1], s, x, f);
    }
  }

  /** The occurrences of `x` from `f` on form one block. */
  ghost predicate Contiguous<T>(s: seq<T>, x: T, f: nat)
  {
    forall i, j :: f <= i < j < |s| && s[j] == x ==> s[i] == x
  }

  /** When the occurrences of `x` are one block, the shifting loop removes exactly the first. */
  lemma ShiftOutRemovesFirst<T>(s: seq<T>, x: T)
    requires x in s && Contiguous(s, x, Find(s, x))
    ensures ShiftOut(s, x, Find(s, x)) == RemoveAt(s, Find(s, x))
  {
    var f := Find(s, x);
    var a, b := ShiftOut(s, x, f), RemoveAt(s, f);
    forall j | 0 <= j < |a| ensures a[j] == b[j] {
      assert a[j] == ShiftOutAt(s, x, f, j);
      if j < f {
        assert b[j] == s[..f][j];
      } else {
        assert b[j] == s[f + 1..][j - f];
        if s[j + 1] == x {
          assert s[j] == x;
        }
      }
    }
  }

  /** In a sorted sequence the copies of a key form one block. */
  lemma SortedContiguous(s: seq<int>, x: int)
    requires Sorted(s) && x in s
    ensures Contiguous(s, x, Find(s, x))
  {
    var f := Find(s, x);
    forall i, j | f <= i < j < |s| && s[j] == x ensures s[i] == x {
      assert s[f] <= s[i] <= s[j];
    }
  }

  /** No entry occurs twice. */
  ghost predicate Distinct<T>(s: seq<T>)
  {
    forall i, j :: 0 <= i < j < |s| ==> s[i] != s[j]
  }

  /** With no repeated entries there is a single occurrence, trivially one block. */
  lemma DistinctContiguous<T>(s: seq<T>, x: T)
    requires Distinct(s) && x in s
    ensures Contiguous(s, x, Find(s, x))
  {
  }

  /**
   * Where an insertion from the end stops (at the front, or behind a key at
   * most `k`, with only larger keys passed) is the stable-sort slot of `k`.
   */
  lemma SlotIsStableInsertion(s: seq<int>, j: nat, k: int)
    requires Sorted(s) && j <= |s| && (j == 0 || s[j - 1] <= k)
    requires forall i :: j <= i < |s| ==> k < s[i]
    ensures SlotFor(s, k) == j
    ensures InsertSorted(s, k) == s[..j] + [k] + s[j..]
  {
    assert SplitsAt(s, j, k) by {
      forall i | 0 <= i < j ensures s[i] <= k {
        assert s[i] <= s[j - 1];
      }
    }
    SlotForSplits(s, k);
    SplitPointUnique(s, j, SlotFor(s, k), k);
  }

  /** A sequence that agrees with `s` before `j`, holds `c` at `j` and `s` shifted up after it. */
  lemma SplicedFromParts<T>(t: seq<T>, s: seq<T>, j: nat, c: T)
    requires |t| == |s| + 1 && j <= |s| && t[j] == c
    requires forall i :: 0 <= i < j ==> t[i] == s[i]
    requires forall i :: j < i < |t| ==> t[i] == s[i - 1]
    ensures t == s[..j] + [c] + s[j..]
  {
  }

  /** The shifting loop only moves entries, so it brings in no null. */
  lemma ShiftOutNoNull(s: seq<BNode?>, x: BNode?, f: nat)
    requires f < |s| && forall i :: 0 <= i < |s| ==> s[i] != null
    ensures forall j :: 0 <= j < |s| - 1 ==> ShiftOut(s, x, f)[j] != null
  {
    forall j | 0 <= j < |s| - 1 ensures ShiftOut(s, x, f)[j] != null {
      assert ShiftOut(s, x, f)[j] == ShiftOutAt(s, x, f, j);
    }
  }

  class BNode {
    const keys: array<int>
    var keysSize: nat
    const children: array<BNode?>
    var childrenSize: nat
    var parent: BNode?

    /**
     * The used slots are within the arrays, the used keys are sorted, the
     * used child slots hold nodes and the free child slots hold null.
     */
    ghost predicate Valid()
      reads this, keys, children
    {
      keysSize <= keys.Length && childrenSize <= children.Length &&
      Sorted(keys[..keysSize]) &&
      (forall i :: 0 <= i < childrenSize ==> children[i] != null) &&
      (forall i :: childrenSize <= i < children.Length ==> children[i] == null)
    }

    /** A new node is empty and has room for one key and one child beyond the maxima. */
    constructor (parent: BNode?, maxKeySize: nat, maxChildrenSize: nat)
      ensures Valid() && this.parent == parent
      ensures keys.Length == maxKeySize + 1 && keysSize == 0
      ensures children.Length == maxChildrenSize + 1 && childrenSize == 0
      ensures fresh(keys) && fresh(children)
    {
      this.parent := parent;
      keys := new int[maxKeySize + 1];
      keysSize := 0;
      children := new BNode?[maxChildrenSize + 1](_ => null);
      childrenSize := 0;
    }

    /** getKey(index): a used slot's key; a free slot holds null. */
    method GetKey(index: nat) returns (k: Option<int>)
      requires index < keys.Length
      ensures index < keysSize ==> k == Some(keys[index])
      ensures keysSize <= index ==> k == None
    {
      if index < keysSize {
        k := Some(keys[index]);
      } else {
        k := None;
      }
    }

    /** indexOf(value): the first used slot holding `value`, or -1. */
    method IndexOf(value: int) returns (i: int)
      requires Valid()
      ensures i == Find(keys[..keysSize], value)
    {
      i := 0;
      while i < keysSize
        invariant 0 <= i <= keysSize
        invariant value !in keys[..i]
      {
        if keys[i] == value {
          FindIsFirst(keys[..keysSize], value, i);
          assert keys[..keysSize][..i] == keys[..i];
          return;
        }
        assert keys[..i + 1] == keys[..i] + [keys[i]];
        i := i + 1;
      }
      assert keys[..keysSize] == keys[..i];
      i := -1;
    }

    /**
     * addKey: the key is written into the first free slot and the used keys
     * are sorted again; since they were sorted before, the sort moves the new
     * key down past the larger keys, which is how it is computed here.
     */
    method AddKey(value: int)
      requires Valid() && keysSize < keys.Length
      modifies this`keysSize, keys
      ensures Valid()
      ensures keysSize == old(keysSize) + 1
      ensures keys[..keysSize] == InsertSorted(old(keys[..keysSize]), value)
    {
      ghost var s := keys[..keysSize];
      var j := MoveUpLargerKeys(value);
      SlotIsStableInsertion(s, j, value);
      keys[j] := value;
      keysSize := keysSize + 1;
      SplicedFromParts(keys[..keysSize], s, j, value);
      InsertSortedProperties(s, value);
    }

    /** Moves the used keys larger than `value`, from the last one down, up one slot and returns the slot they leave. */
    method MoveUpLargerKeys(value: int) returns (j: nat)
      requires keysSize < keys.Length
      modifies keys
      ensures j <= keysSize && (j == 0 || old(keys[j - 1]) <= value)
      ensures forall i :: j <= i < keysSize ==> value < old(keys[i])
      ensures forall i :: 0 <= i < j ==> keys[i] == old(keys[i])
      ensures forall i :: j < i <= keysSize ==> keys[i] == old(keys[i - 1])
    {
      j := keysSize;
      while j > 0 && keys[j - 1] > value
        invariant j <= keysSize
        invariant forall i :: 0 <= i < j ==> keys[i] == old(keys[i])
        invariant forall i :: j < i <= keysSize ==> keys[i] == old(keys[i - 1])
        invariant forall i :: j <= i < keysSize ==> value < old(keys[i])
      {
        keys[j] := keys[j - 1];
        j := j - 1;
      }
    }

    /**
     * removeKey(value): when the value is among the used keys, its first
     * copy is removed, the later keys move down one slot and the value is
     * returned; otherwise null is returned and nothing changes.
     */
    method RemoveKey(value: int) returns (removed: Option<int>)
      requires Valid()
      modifies this`keysSize, keys
      ensures Valid()
      ensures value !in old(keys[..keysSize]) ==>
        removed == None && keysSize == old(keysSize) && keys[..keysSize] == old(keys[..keysSize])
      ensures value in old(keys[..keysSize]) ==>
        removed == Some(value) && keysSize == old(keysSize) - 1 &&
        keys[..keysSize] == RemoveAt(old(keys[..keysSize]), Find(old(keys[..keysSize]), value))
    {
      if keysSize == 0 {
        return None;
      }
      ghost var s := keys[..keysSize];
      var found;
      found, removed := ShiftKeysOver(value);
      if found {
        keysSize := keysSize - 1;
        SortedContiguous(s, value);
        ShiftOutRemovesFirst(s, value);
        RemoveAtSorted(s, Find(s, value));
      }
    }

    /**
     * The loop of removeKey(value): every used key after the first copy of
     * `value` that is not itself `value` moves down one slot.
     */
    method ShiftKeysOver(value: int) returns (found: bool, removed: Option<int>)
      requires 0 < keysSize <= keys.Length
      modifies keys
      ensures found <==> value in old(keys[..keysSize])
      ensures removed == if found then Some(value) else None
      ensures !found ==> keys[..keysSize] == old(keys[..keysSize])
      ensures found ==> keys[..keysSize - 1] == ShiftOut(old(keys[..keysSize]), value, Find(old(keys[..keysSize]), value))
    {
      ghost var s := keys[..keysSize];
      ghost var f := if value in s then Find(s, value) else 0;
      removed := None;
      found := false;
      var i := 0;
      while i < keysSize
        invariant Shifting(keys[..], s, value, f, i, found)
        invariant removed == if found then Some(value) else None
      {
        if keys[i] == value {
          if found {
            ShiftingAgain(keys[..], s, value, f, i);
          } else {
            ShiftingFirst(keys[..], s, value, f, i);
          }
          found := true;
          removed := Some(keys[i]);
        } else if found {
          ShiftingMove(keys[..], s, value, f, i);
          keys[i - 1] := keys[i];
        } else {
          ShiftingSkip(keys[..], s, value, f, i);
        }
        i := i + 1;
      }
      ShiftingDone(keys[..], s, value, f, found);
    }

    /**
     * removeKey(index): for a used slot, its key is returned and the later
     * keys move down one slot; past the used slots null is returned and
     * nothing changes.
     */
    method RemoveKeyAt(index: nat) returns (removed: Option<int>)
      requires Valid()
      modifies this`keysSize, keys
      ensures Valid()
      ensures old(keysSize) <= index ==>
        removed == None && keysSize == old(keysSize) && keys[..keysSize] == old(keys[..keysSize])
      ensures index < old(keysSize) ==>
        removed == Some(old(keys[index])) && keysSize == old(keysSize) - 1 &&
        keys[..keysSize] == RemoveAt(old(keys[..keysSize]), index)
    {
      if index >= keysSize {
        return None;
      }
      ghost var s := keys[..keysSize];
      removed := Some(keys[index]);
      var i := index + 1;
      while i < keysSize
        modifies keys
        invariant index + 1 <= i <= keysSize
        invariant forall j :: 0 <= j < i - 1 ==> keys[j] == RemoveAt(s, index)[j]
        invariant forall j :: i - 1 <= j < keysSize ==> keys[j] == s[j]
      {
        keys[i - 1] := keys[i];
        i := i + 1;
      }
      keysSize := keysSize - 1;
      assert keys[..keysSize] == RemoveAt(s, index);
      RemoveAtSorted(s, index);
    }

    /** numberOfKeys: the used key count. */
    method NumberOfKeys() returns (n: nat)
      ensures n == keysSize
    {
      n := keysSize;
    }

    /** numberOfChildren: the used child count. */
    method NumberOfChildren() returns (n: nat)
      ensures n == childrenSize
    {
      n := childrenSize;
    }

    /** getChild(index): a used slot's child, or null past the used slots. */
    method GetChild(index: nat) returns (c: BNode?)
      requires Valid()
      ensures index < childrenSize ==> c == children[index] && c != null
      ensures childrenSize <= index ==> c == null
    {
      if index >= childrenSize {
        return null;
      }
      c := children[index];
    }

    /** indexOf(child): the first used slot holding this very node, or -1. */
    method IndexOfChild(child: BNode?) returns (i: int)
      requires Valid()
      ensures i == Find(children[..childrenSize], child)
    {
      i := 0;
      while i < childrenSize
        invariant 0 <= i <= childrenSize
        invariant child !in children[..i]
      {
        if children[i] == child {
          FindIsFirst(children[..childrenSize], child, i);
          assert children[..childrenSize][..i] == children[..i];
          return;
        }
        assert children[..i + 1] == children[..i] + [children[i]];
        i := i + 1;
      }
      assert children[..childrenSize] == children[..i];
      i := -1;
    }

    /**
     * addChild: the child's parent becomes this node, the child is written
     * into the first free slot and the used children are sorted again by
     * their first keys (the comparator of BNode).  The used children are
     * ordered by first key already (their first keys are `firstKeys`), so
     * the stable sort moves the new child down past those with a larger
     * first key, which is how it is computed here.
     */
    method AddChild(child: BNode, ghost firstKeys: seq<int>)
      requires Valid() && childrenSize < children.Length && child.keys.Length > 0
      requires |firstKeys| == childrenSize && Sorted(firstKeys)
      requires forall i :: 0 <= i < childrenSize ==> children[i] != null && children[i].keys.Length > 0 && children[i].keys[0] == firstKeys[i]
      modifies this`childrenSize, children, child`parent
      ensures Valid()
      ensures child.parent == this
      ensures childrenSize == old(childrenSize) + 1
      ensures children[..childrenSize] ==
        old(children[..childrenSize])[..SlotFor(firstKeys, child.keys[0])] + [child] +
        old(children[..childrenSize])[SlotFor(firstKeys, child.keys[0])..]
    {
      child.parent := this;
      ghost var s, ks := children[..childrenSize], keys[..keysSize];
      var j := MoveUpLaterChildren(child.keys[0], firstKeys);
      children[j] := child;
      childrenSize := childrenSize + 1;
      assert keys[..keysSize] == ks;
      assert forall i :: 0 <= i < childrenSize ==> children[i] != null by {
        forall i | 0 <= i < childrenSize ensures children[i] != null {
          if i > j {
            assert children[i] == old(children[i - 1]);
          }
        }
      }
      SplicedFromParts(children[..childrenSize], s, j, child);
    }

    /** Moves the used children whose first key is larger than `k` up one slot and returns the slot they leave. */
    method MoveUpLaterChildren(k: int, ghost firstKeys: seq<int>) returns (j: nat)
      requires childrenSize < children.Length && (forall i :: childrenSize <= i < children.Length ==> children[i] == null)
      requires |firstKeys| == childrenSize && Sorted(firstKeys)
      requires forall i :: 0 <= i < childrenSize ==> children[i] != null && children[i].keys.Length > 0 && children[i].keys[0] == firstKeys[i]
      modifies children
      ensures j <= childrenSize && InsertSorted(firstKeys, k) == firstKeys[..j] + [k] + firstKeys[j..]
      ensures j == SlotFor(firstKeys, k)
      ensures forall i :: 0 <= i < j ==> children[i] == old(children[i])
      ensures forall i :: j < i <= childrenSize ==> children[i] == old(children[i - 1])
      ensures forall i :: childrenSize < i < children.Length ==> children[i] == null
    {
      ghost var s := children[..childrenSize];
      j := childrenSize;
      while j > 0 && children[j - 1].keys[0] > k
        invariant j <= childrenSize
        invariant forall i :: 0 <= i < j ==> children[i] == s[i]
        invariant forall i :: j < i <= childrenSize ==> children[i] == s[i - 1]
        invariant forall i :: childrenSize < i < children.Length ==> children[i] == null
        invariant forall i :: j <= i < childrenSize ==> k < firstKeys[i]
      {
        children[j] := children[j - 1];
        j := j - 1;
      }
      SlotIsStableInsertion(firstKeys, j, k);
    }

    /**
     * removeChild(child): when this very node is a used child, its slot is
     * emptied by moving the later children down one slot, the last used slot
     * is nulled and true is returned; otherwise false and nothing changes.
     */
    method RemoveChild(child: BNode?) returns (found: bool)
      requires Valid()
      modifies this`childrenSize, children
      ensures Valid()
      ensures found <==> child in old(children[..childrenSize])
      ensures !found ==> childrenSize == old(childrenSize) && children[..childrenSize] == old(children[..childrenSize])
      ensures found ==> (childrenSize == old(childrenSize) - 1 &&
        children[..childrenSize] == ShiftOut(old(children[..childrenSize]), child, Find(old(children[..childrenSize]), child)))
      ensures found && Distinct(old(children[..childrenSize])) ==>
        children[..childrenSize] == RemoveAt(old(children[..childrenSize]), Find(old(children[..childrenSize]), child))
    {
      if childrenSize == 0 {
        return false;
      }
      ghost var s := children[..childrenSize];
      found := ShiftChildrenOver(child);
      if found {
        ghost var t := children[..childrenSize - 1];
        ShiftOutNoNull(s, child, Find(s, child));
        childrenSize := childrenSize - 1;
        children[childrenSize] := null;
        assert children[..childrenSize] == t;
        assert forall i :: 0 <= i < childrenSize ==> children[i] == t[i];
        if Distinct(s) {
          DistinctContiguous(s, child);
          ShiftOutRemovesFirst(s, child);
        }
      }
    }

    /**
     * The loop of removeChild(child): every used child after the first
     * occurrence of `child` that is not `child` again moves down one slot.
     */
    method ShiftChildrenOver(child: BNode?) returns (found: bool)
      requires 0 < childrenSize <= children.Length
      modifies children
      ensures found <==> child in old(children[..childrenSize])
      ensures !found ==> children[..childrenSize] == old(children[..childrenSize])
      ensures found ==> children[..childrenSize - 1] == ShiftOut(old(children[..childrenSize]), child, Find(old(children[..childrenSize]), child))
      ensures forall j :: childrenSize <= j < children.Length ==> children[j] == old(children[j])
    {
      ghost var s := children[..childrenSize];
      ghost var f := if child in s then Find(s, child) else 0;
      found := false;
      var i := 0;
      while i < childrenSize
        invariant Shifting(children[..], s, child, f, i, found)
        invariant forall j :: childrenSize <= j < children.Length ==> children[j] == old(children[j])
      {
        if children[i] == child {
          if found {
            ShiftingAgain(children[..], s, child, f, i);
          } else {
            ShiftingFirst(children[..], s, child, f, i);
          }
          found := true;
        } else if found {
          ShiftingMove(children[..], s, child, f, i);
          children[i - 1] := children[i];
        } else {
          ShiftingSkip(children[..], s, child, f, i);
        }
        i := i + 1;
      }
      ShiftingDone(children[..], s, child, f, found);
    }

    /**
     * removeChild(index): for a used slot, its child is returned, the later
     * children move down one slot and the last used slot is nulled; past the
     * used slots null is returned and nothing changes.
     */
    method RemoveChildAt(index: nat) returns (removed: BNode?)
      requires Valid()
      modifies this`childrenSize, children
      ensures Valid()
      ensures old(childrenSize) <= index ==>
        removed == null && childrenSize == old(childrenSize) && children[..] == old(children[..])
      ensures index < old(childrenSize) ==>
        removed == old(children[index]) && removed != null && childrenSize == old(childrenSize) - 1 &&
        children[..childrenSize] == RemoveAt(old(children[..childrenSize]), index)
    {
      if index >= childrenSize {
        return null;
      }
      ghost var s := children[..childrenSize];
      removed := children[index];
      children[index] := null;
      var i := index + 1;
      while i < childrenSize
        modifies children
        invariant index + 1 <= i <= childrenSize
        invariant forall j :: 0 <= j < i - 1 ==> children[j] == RemoveAt(s, index)[j]
        invariant forall j :: i <= j < children.Length ==> children[j] == old(children[j])
      {
        children[i - 1] := children[i];
        i := i + 1;
      }
      childrenSize := childrenSize - 1;
      children[childrenSize] := null;
      assert children[..childrenSize] == RemoveAt(s, index);
    }
  }
}
