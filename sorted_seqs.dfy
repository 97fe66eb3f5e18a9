/** Order facts about sequences of keys, shared by the three trees. */
module SortedSeqs {

  /** Non-decreasing order of a sequence of keys. */
  predicate Sorted(s: seq<int>)
  {
    forall i, j :: 0 <= i < j < |s| ==> s[i] <= s[j]
  }

  /** A sorted `a + [x] + b` has sorted parts, with `x` between them. */
  lemma SortedAroundParts(a: seq<int>, x: int, b: seq<int>)
    requires Sorted(a + [x] + b)
    ensures Sorted(a) && Sorted(b) && (forall y :: y in a ==> y <= x) && (forall y :: y in b ==> x <= y)
  {
    var s := a + [x] + b;
    assert forall i :: 0 <= i < |a| ==> s[i] == a[i];
    assert forall i :: 0 <= i < |b| ==> s[|a| + 1 + i] == b[i];
    assert s[|a|] == x;
  }

  /** Sorted parts with `x` between them make `a + [x] + b` sorted. */
  lemma SortedAroundWhole(a: seq<int>, x: int, b: seq<int>)
    requires Sorted(a) && Sorted(b) && (forall y :: y in a ==> y <= x) && (forall y :: y in b ==> x <= y)
    ensures Sorted(a + [x] + b)
  {
    var s := a + [x] + b;
    forall i, j | 0 <= i < j < |s| ensures s[i] <= s[j] {
      if j < |a| {
        assert s[i] == a[i] && s[j] == a[j];
      } else if j == |a| {
        assert s[i] == a[i] && a[i] in a;
      } else if i < |a| {
        assert s[i] == a[i] && a[i] in a;
        assert s[j] == b[j - |a| - 1] && b[j - |a| - 1] in b;
      } else if i == |a| {
        assert s[j] == b[j - |a| - 1] && b[j - |a| - 1] in b;
      } else {
        assert s[i] == b[i - |a| - 1] && s[j] == b[j - |a| - 1];
      }
    }
  }

  /** Sortedness of `a + [x] + b` splits into its parts and the bounds around `x`. */
  lemma SortedAround(a: seq<int>, x: int, b: seq<int>)
    ensures Sorted(a + [x] + b) <==>
      Sorted(a) && Sorted(b) && (forall y :: y in a ==> y <= x) && (forall y :: y in b ==> x <= y)
  {
    if Sorted(a + [x] + b) {
      SortedAroundParts(a, x, b);
    }
    if Sorted(a) && Sorted(b) && (forall y :: y in a ==> y <= x) && (forall y :: y in b ==> x <= y) {
      SortedAroundWhole(a, x, b);
    }
  }

  /** Position `p` of `s` has every element at most `k` before it and every larger one from it on. */
  predicate SplitsAt(s: seq<int>, p: nat, k: int)
  {
    p <= |s| && (forall i :: 0 <= i < p ==> s[i] <= k) && (forall i :: p <= i < |s| ==> k < s[i])
  }

  /** A split point of the left part of `sl + [x] + sr` splits the whole when `k < x <= sr`. */
  lemma SplitsLeft(sl: seq<int>, x: int, sr: seq<int>, p: nat, k: int)
    requires SplitsAt(sl, p, k) && k < x && (forall y :: y in sr ==> x <= y)
    ensures SplitsAt(sl + [x] + sr, p, k)
  {
    var s := sl + [x] + sr;
    forall i | p <= i < |s| ensures k < s[i] {
      if i > |sl| {
        assert s[i] == sr[i - |sl| - 1];
        assert s[i] in sr;
      }
    }
  }

  /** A split point of the right part of `sl + [x] + sr` splits the whole when `sl <= x <= k`. */
  lemma SplitsRight(sl: seq<int>, x: int, sr: seq<int>, q: nat, k: int)
    requires SplitsAt(sr, q, k) && x <= k && (forall y :: y in sl ==> y <= x)
    ensures SplitsAt(sl + [x] + sr, |sl| + 1 + q, k)
  {
    var s := sl + [x] + sr;
    forall i | 0 <= i < |sl| + 1 + q ensures s[i] <= k {
      if i < |sl| {
        assert s[i] == sl[i];
        assert s[i] in sl;
      } else if i > |sl| {
        assert s[i] == sr[i - |sl| - 1];
      }
    }
    forall i | |sl| + 1 + q <= i < |s| ensures k < s[i] {
      assert s[i] == sr[i - |sl| - 1];
    }
  }

  /** A key placed after every element at most it and before every larger one keeps a sequence sorted. */
  lemma SortedInsertAt(s: seq<int>, p: nat, k: int)
    requires Sorted(s) && SplitsAt(s, p, k)
    ensures Sorted(s[..p] + [k] + s[p..])
  {
    var u := s[..p] + [k] + s[p..];
    forall i, j | 0 <= i < j < |u| ensures u[i] <= u[j] {
      if j < p {
        assert u[i] == s[i] && u[j] == s[j];
      } else if j == p {
        assert u[i] == s[i];
      } else if i < p {
        assert u[i] == s[i] && u[j] == s[j - 1];
      } else if i == p {
        assert u[j] == s[j - 1];
      } else {
        assert u[i] == s[i - 1] && u[j] == s[j - 1];
      }
    }
  }

  /** Splicing a key into a sequence adds exactly that key to its multiset. */
  lemma SpliceKeys(s: seq<int>, p: nat, k: int)
    requires p <= |s|
    ensures multiset(s[..p] + [k] + s[p..]) == multiset(s) + multiset{k}
  {
    assert s == s[..p] + s[p..];
  }

  /** Strictly increasing order: sorted with no key repeated. */
  predicate Increasing(s: seq<int>)
  {
    forall i, j :: 0 <= i < j < |s| ==> s[i] < s[j]
  }

  /** Every element of `a` is at most every element of `b`. */
  predicate Below(a: seq<int>, b: seq<int>)
  {
    forall x, y :: x in a && y in b ==> x <= y
  }

  /** A sorted concatenation has sorted parts, the first below the second. */
  lemma SortedSplit(a: seq<int>, b: seq<int>)
    requires Sorted(a + b)
    ensures Sorted(a) && Sorted(b) && Below(a, b)
  {
    var s := a + b;
    assert forall i :: 0 <= i < |a| ==> s[i] == a[i];
    assert forall j :: 0 <= j < |b| ==> s[|a| + j] == b[j];
  }

  /** Sorted parts, the first below the second, make a sorted concatenation. */
  lemma SortedJoin(a: seq<int>, b: seq<int>)
    requires Sorted(a) && Sorted(b) && Below(a, b)
    ensures Sorted(a + b)
  {
    var s := a + b;
    forall i, j | 0 <= i < j < |s| ensures s[i] <= s[j] {
      if j < |a| {
        assert s[i] == a[i] && s[j] == a[j];
      } else if |a| <= i {
        assert s[i] == b[i - |a|] && s[j] == b[j - |a|];
      } else {
        assert s[i] == a[i] && s[j] == b[j - |a|];
        assert a[i] in a && b[j - |a|] in b;
      }
    }
  }

  /** A strictly increasing concatenation has strictly increasing parts with nothing shared. */
  lemma IncreasingSplit(a: seq<int>, b: seq<int>)
    requires Increasing(a + b)
    ensures Increasing(a) && Increasing(b) && forall x, y :: x in a && y in b ==> x < y
  {
    var s := a + b;
    assert forall i :: 0 <= i < |a| ==> s[i] == a[i];
    assert forall j :: 0 <= j < |b| ==> s[|a| + j] == b[j];
  }

  /** Strictly increasing keys are sorted. */
  lemma IncreasingIsSorted(s: seq<int>)
    requires Increasing(s)
    ensures Sorted(s)
  {
  }

  /** Three consecutive slices put back together give the sequence. */
  lemma Reassemble<T>(s: seq<T>, i: nat, j: nat)
    requires i <= j <= |s|
    ensures s[..i] + s[i..j] + s[j..] == s
  {
  }

  /** The middle of a sorted `pre + e + post` is sorted and lies between the other two. */
  lemma SortedMiddle(pre: seq<int>, e: seq<int>, post: seq<int>)
    requires Sorted(pre + e + post)
    ensures Sorted(e) && Below(pre, e) && Below(e, post) && Below(pre, post)
  {
    var s := pre + e + post;
    assert forall i :: 0 <= i < |pre| ==> s[i] == pre[i];
    assert forall i :: 0 <= i < |e| ==> s[|pre| + i] == e[i];
    assert forall i :: 0 <= i < |post| ==> s[|pre| + |e| + i] == post[i];
  }

  /** The middle of a strictly increasing `pre + e + post`: the same facts, strictly. */
  lemma IncreasingMiddle(pre: seq<int>, e: seq<int>, post: seq<int>)
    requires Increasing(pre + e + post)
    ensures Increasing(e)
    ensures forall x, y :: x in pre && y in e ==> x < y
    ensures forall x, y :: x in e && y in post ==> x < y
  {
    var s := pre + e + post;
    assert forall i :: 0 <= i < |pre| ==> s[i] == pre[i];
    assert forall i :: 0 <= i < |e| ==> s[|pre| + i] == e[i];
    assert forall i :: 0 <= i < |post| ==> s[|pre| + |e| + i] == post[i];
  }

  /** Replacing entry `i` is splicing the new entry between the parts around it. */
  lemma SpliceOne<T>(s: seq<T>, i: nat, x: T)
    requires i < |s|
    ensures s[..i] + [x] + s[i + 1..] == s[i := x]
  {
  }

  /** A sequence is its parts around entry `i` with that entry between them. */
  lemma AroundEntry<T>(s: seq<T>, i: nat)
    requires i < |s|
    ensures s[..i] + [s[i]] + s[i + 1..] == s
  {
  }

  /** A sequence is its prefix and suffix at `i`, with or without an empty middle. */
  lemma TakeDrop<T>(s: seq<T>, i: nat)
    requires i <= |s|
    ensures s[..i] + s[i..] == s && s[..i] + [] + s[i..] == s
  {
  }

  /** The outer parts of a sorted `a + b + c` are sorted. */
  lemma SortedOuter(a: seq<int>, b: seq<int>, c: seq<int>)
    requires Sorted(a + b + c)
    ensures Sorted(a) && Sorted(c)
  {
    var s := a + b + c;
    assert forall i :: 0 <= i < |a| ==> s[i] == a[i];
    assert forall i :: 0 <= i < |c| ==> s[|a| + |b| + i] == c[i];
  }

  /** The last entry of a sorted sequence is its largest. */
  lemma SortedEndsWith(a: seq<int>, x: int)
    requires Sorted(a + [x])
    ensures forall y :: y in a + [x] ==> y <= x
  {
    var s := a + [x];
    assert s[|a|] == x;
  }

  /** The first entry of a sorted sequence is its smallest. */
  lemma SortedStartsWith(x: int, b: seq<int>)
    requires Sorted([x] + b)
    ensures forall y :: y in [x] + b ==> x <= y
  {
    var s := [x] + b;
    assert s[0] == x;
  }

  /**
   * Replacing the middle `e` of a sorted `pre + e + post` by a sorted `e2`
   * holding `e` and one more key `v`, where `v` fits between `pre` and
   * `post`, keeps the whole sorted and adds exactly `v`.
   */
  lemma ReplaceMiddle(pre: seq<int>, e: seq<int>, post: seq<int>, e2: seq<int>, v: int)
    requires Sorted(pre + e + post) && Sorted(e2) && multiset(e2) == multiset(e) + multiset{v}
    requires forall x :: x in pre ==> x <= v
    requires forall y :: y in post ==> v <= y
    ensures Sorted(pre + e2 + post)
    ensures multiset(pre + e2 + post) == multiset(pre + e + post) + multiset{v}
  {
    SortedMiddle(pre, e, post);
    SortedOuter(pre, e, post);
    forall x, y | x in pre && y in e2 ensures x <= y {
      assert y in multiset(e2);
      if y != v {
        assert y in multiset(e);
        assert y in e;
      }
    }
    forall x, y | x in e2 && y in post ensures x <= y {
      assert x in multiset(e2);
      if x != v {
        assert x in multiset(e);
        assert x in e;
      }
    }
    SortedJoin(pre, e2);
    forall x, y | x in pre + e2 && y in post ensures x <= y {
      if x in pre {
        assert Below(pre, post);
      }
    }
    SortedJoin(pre + e2, post);
  }

  /** A key no smaller than the entry before `i` and no larger than the one at `i` keeps a sequence sorted there. */
  lemma SortedInsertBetween(s: seq<int>, i: nat, k: int)
    requires Sorted(s) && i <= |s|
    requires 0 < i ==> s[i - 1] <= k
    requires i < |s| ==> k <= s[i]
    ensures Sorted(s[..i] + [k] + s[i..])
  {
    var t := s[..i] + [k] + s[i..];
    forall a, b | 0 <= a < b < |t| ensures t[a] <= t[b] {
      if b < i {
        assert t[a] == s[a] && t[b] == s[b];
      } else if b == i {
        assert t[a] == s[a] && s[a] <= s[i - 1];
      } else if a < i {
        assert t[a] == s[a] && t[b] == s[b - 1];
      } else if a == i {
        assert t[b] == s[b - 1] && s[i] <= s[b - 1];
      } else {
        assert t[a] == s[a - 1] && t[b] == s[b - 1];
      }
    }
  }

  /** Strictly increasing parts, every element of the first below every element of the second, join strictly increasing. */
  lemma IncreasingJoin(a: seq<int>, b: seq<int>)
    requires Increasing(a) && Increasing(b) && forall x, y :: x in a && y in b ==> x < y
    ensures Increasing(a + b)
  {
    var s := a + b;
    forall i, j | 0 <= i < j < |s| ensures s[i] < s[j] {
      if j < |a| {
        assert s[i] == a[i] && s[j] == a[j];
      } else if |a| <= i {
        assert s[i] == b[i - |a|] && s[j] == b[j - |a|];
      } else {
        assert s[i] == a[i] && s[j] == b[j - |a|];
        assert a[i] in a && b[j - |a|] in b;
      }
    }
  }

  /** Dropping one element from a strictly increasing sequence keeps it increasing and takes exactly that element out. */
  lemma DropOne(a: seq<int>, v: int, b: seq<int>)
    requires Increasing(a + [v] + b)
    ensures Increasing(a + b)
    ensures multiset(a + b) == multiset(a + [v] + b) - multiset{v}
  {
    IncreasingSplit(a + [v], b);
    IncreasingSplit(a, [v]);
    forall x, y | x in a && y in b ensures x < y {
      assert x in a + [v];
    }
    IncreasingJoin(a, b);
  }

  /**
   * Replacing the middle `e` of a strictly increasing `pre + e + post` by a
   * strictly increasing `e2` holding `e` without `v`, where `v` lies
   * strictly between `pre` and `post`, keeps the whole increasing and takes
   * exactly `v` out of it.
   */
  lemma ShrinkMiddle(pre: seq<int>, e: seq<int>, post: seq<int>, e2: seq<int>, v: int)
    requires Increasing(pre + e + post) && Increasing(e2) && multiset(e2) == multiset(e) - multiset{v}
    requires forall x :: x in pre ==> x < v
    requires forall y :: y in post ==> v < y
    ensures Increasing(pre + e2 + post)
    ensures multiset(pre + e2 + post) == multiset(pre + e + post) - multiset{v}
  {
    IncreasingMiddle(pre, e, post);
    IncreasingSplit(pre + e, post);
    IncreasingSplit(pre, e);
    forall y | y in e2 ensures y in e {
      assert y in multiset(e2);
    }
    IncreasingJoin(pre, e2);
    forall x, y | x in pre + e2 && y in post ensures x < y {
      if x in pre {
        assert x < v < y;
      }
    }
    IncreasingJoin(pre + e2, post);
    MultisetShrinkMiddle(pre, e, post, e2, v);
  }

  /** The elements of `pre + e + post` with `e` shrunk by `v`, where neither `pre` nor `post` holds `v`. */
  lemma MultisetShrinkMiddle(pre: seq<int>, e: seq<int>, post: seq<int>, e2: seq<int>, v: int)
    requires multiset(e2) == multiset(e) - multiset{v}
    requires forall x :: x in pre ==> x < v
    requires forall y :: y in post ==> v < y
    ensures multiset(pre + e2 + post) == multiset(pre + e + post) - multiset{v}
  {
    assert forall x :: x in pre ==> x != v;
    assert forall y :: y in post ==> y != v;
    assert v !in pre && v !in post;
    assert v !in multiset(pre) && v !in multiset(post);
    assert multiset(pre + e2 + post) == multiset(pre) + multiset(e2) + multiset(post);
    assert multiset(pre + e + post) == multiset(pre) + multiset(e) + multiset(post);
  }

  /** Around a key of a strictly increasing `a + [k] + b`: sorted parts, below and above the key. */
  lemma IncreasingAround(a: seq<int>, k: int, b: seq<int>)
    requires Increasing(a + [k] + b)
    ensures Sorted(a) && Sorted(b)
    ensures forall x :: x in a ==> x < k
    ensures forall y :: y in b ==> k < y
  {
    IncreasingSplit(a + [k], b);
    IncreasingSplit(a, [k]);
    assert k in [k] && k in a + [k];
    IncreasingIsSorted(a);
    IncreasingIsSorted(b);
  }

  /** Strictly increasing parts below and above a key join around it strictly increasing. */
  lemma IncreasingAroundKey(a: seq<int>, k: int, b: seq<int>)
    requires Increasing(a) && Increasing(b)
    requires forall x :: x in a ==> x < k
    requires forall y :: y in b ==> k < y
    ensures Increasing(a + [k] + b)
  {
    IncreasingJoin(a, [k]);
    forall x, y | x in a + [k] && y in b ensures x < y {
      if x in a {
        assert x < k < y;
      }
    }
    IncreasingJoin(a + [k], b);
  }
}
