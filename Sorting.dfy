/** list.sort(key=...): Python's list sort is stable, so elements with the
    same key keep their input order. The loader sorts its projects this way by
    their number of months. */
module Sorting {

  predicate SortedByKey<T>(s: seq<T>, key: T -> nat) {
    forall i, j :: 0 <= i < j < |s| ==> key(s[i]) <= key(s[j])
  }

  /** The elements of s whose key is c, in their order in s. */
  function WithKey<T>(s: seq<T>, key: T -> nat, c: nat): (r: seq<T>)
    ensures |r| <= |s|
  {
    if s == [] then []
    else
      var last := s[|s| - 1];
      WithKey(s[..|s| - 1], key, c) + (if key(last) == c then [last] else [])
  }

  /** b is the stable sort of a: sorted by key, a permutation of a, and for
      every key the elements with that key in the order they have in a. */
  ghost predicate StablySorted<T>(b: seq<T>, a: seq<T>, key: T -> nat) {
    && SortedByKey(b, key)
    && multiset(b) == multiset(a)
    && forall c: nat :: WithKey(b, key, c) == WithKey(a, key, c)
  }

  lemma {:induction false} WithKeyAppend<T>(a: seq<T>, b: seq<T>, key: T -> nat, c: nat)
    ensures WithKey(a + b, key, c) == WithKey(a, key, c) + WithKey(b, key, c)
    decreases |b|
  {
    if b == [] {
      assert a + b == a;
    } else {
      var n := |b| - 1;
      assert (a + b)[..|a + b| - 1] == a + b[..n];
      WithKeyAppend(a, b[..n], key, c);
    }
  }

  /** A sequence without elements of key c has none to keep. */
  lemma {:induction false} WithKeyNone<T>(s: seq<T>, key: T -> nat, c: nat)
    requires forall k :: 0 <= k < |s| ==> key(s[k]) != c
    ensures WithKey(s, key, c) == []
  {
    if s != [] {
      WithKeyNone(s[..|s| - 1], key, c);
    }
  }

  /** One step of the insertion sort: x goes after every element whose key is
      at most its own, so it follows the equal ones already placed. */
  method InsertByKey<T>(b: seq<T>, x: T, key: T -> nat) returns (r: seq<T>)
    requires SortedByKey(b, key)
    ensures SortedByKey(r, key)
    ensures multiset(r) == multiset(b) + multiset{x}
    ensures forall c: nat :: WithKey(r, key, c) == WithKey(b, key, c) + WithKey([x], key, c)
  {
    var j := |b|;
    while j > 0 && key(b[j - 1]) > key(x)
      invariant 0 <= j <= |b|
      invariant forall k :: j <= k < |b| ==> key(b[k]) > key(x)
    {
      j := j - 1;
    }
    r := b[..j] + [x] + b[j..];
    assert b == b[..j] + b[j..];
    assert multiset(r) == multiset(b[..j]) + multiset{x} + multiset(b[j..]);
    InsertSorted(b, x, j, key);
    forall c: nat
      ensures WithKey(r, key, c) == WithKey(b, key, c) + WithKey([x], key, c)
    {
      InsertWithKey(b, x, j, key, c);
    }
  }

  lemma InsertSorted<T>(b: seq<T>, x: T, j: int, key: T -> nat)
    requires SortedByKey(b, key) && 0 <= j <= |b|
    requires j > 0 ==> key(b[j - 1]) <= key(x)
    requires forall k :: j <= k < |b| ==> key(b[k]) > key(x)
    ensures SortedByKey(b[..j] + [x] + b[j..], key)
  {
    var r := b[..j] + [x] + b[j..];
    forall i, k | 0 <= i < k < |r|
      ensures key(r[i]) <= key(r[k])
    {
      if k < j {
        assert r[i] == b[i] && r[k] == b[k];
      } else if k == j {
        assert r[i] == b[i] && key(b[i]) <= key(b[j - 1]);
      } else if i < j {
        assert r[i] == b[i] && r[k] == b[k - 1];
      } else if i == j {
        assert r[k] == b[k - 1];
      } else {
        assert r[i] == b[i - 1] && r[k] == b[k - 1];
      }
    }
  }

  lemma InsertWithKey<T>(b: seq<T>, x: T, j: int, key: T -> nat, c: nat)
    requires 0 <= j <= |b|
    requires forall k :: j <= k < |b| ==> key(b[k]) > key(x)
    ensures WithKey(b[..j] + [x] + b[j..], key, c) == WithKey(b, key, c) + WithKey([x], key, c)
  {
    var left, right := b[..j], b[j..];
    WithKeyAround(left, x, right, key, c);
    WithKeySplit(b, j, key, c);
    if c == key(x) {
      forall k | 0 <= k < |right|
        ensures key(right[k]) != c
      {
        assert right[k] == b[j + k];
      }
      WithKeyNone(right, key, c);
    } else {
      WithKeyNone([x], key, c);
    }
    Interleave(WithKey(left, key, c), WithKey([x], key, c), WithKey(right, key, c), WithKey(b, key, c));
  }

  /** When one of the middle or last pieces is empty, the middle may move to
      the end. */
  lemma Interleave<T>(l: seq<T>, m: seq<T>, r: seq<T>, whole: seq<T>)
    requires whole == l + r && (m == [] || r == [])
    ensures l + m + r == whole + m
  {
  }

  lemma WithKeyAround<T>(left: seq<T>, x: T, right: seq<T>, key: T -> nat, c: nat)
    ensures WithKey(left + [x] + right, key, c) ==
      WithKey(left, key, c) + WithKey([x], key, c) + WithKey(right, key, c)
  {
    WithKeyAppend(left + [x], right, key, c);
    WithKeyAppend(left, [x], key, c);
  }

  lemma WithKeySplit<T>(b: seq<T>, j: int, key: T -> nat, c: nat)
    requires 0 <= j <= |b|
    ensures WithKey(b, key, c) == WithKey(b[..j], key, c) + WithKey(b[j..], key, c)
  {
    assert b == b[..j] + b[j..];
    WithKeyAppend(b[..j], b[j..], key, c);
  }

  /** list.sort(key=key), as an insertion sort: a stable sort has only one
      possible result (StableSortUnique), so any stable algorithm yields it. */
  method SortByKey<T>(a: seq<T>, key: T -> nat) returns (b: seq<T>)
    ensures StablySorted(b, a, key)
  {
    b := [];
    for i := 0 to |a|
      invariant SortedByKey(b, key)
      invariant multiset(b) == multiset(a[..i])
      invariant forall c: nat :: WithKey(b, key, c) == WithKey(a[..i], key, c)
    {
      assert a[..i + 1] == a[..i] + [a[i]];
      b := InsertByKey(b, a[i], key);
      forall c: nat
        ensures WithKey(b, key, c) == WithKey(a[..i + 1], key, c)
      {
        WithKeyAppend(a[..i], [a[i]], key, c);
      }
    }
    assert a[..|a|] == a;
  }

  /** The last element of a sorted sequence has the largest key. */
  lemma LastIsLargest<T>(s: seq<T>, x: T, key: T -> nat)
    requires SortedByKey(s, key) && x in multiset(s)
    ensures key(x) <= key(s[|s| - 1])
  {
    var k :| 0 <= k < |s| && s[k] == x;
  }

  /** A stable sort is unique: two sequences that are both stable sorts of the
      same sequence are equal. */
  lemma {:induction false} StableSortUnique<T>(b1: seq<T>, b2: seq<T>, a: seq<T>, key: T -> nat)
    requires StablySorted(b1, a, key) && StablySorted(b2, a, key)
    ensures b1 == b2
    decreases |b1|
  {
    assert |b1| == |multiset(a)| == |b2|;
    if |b1| > 0 {
      var n := |b1| - 1;
      SameLast(b1, b2, a, key);
      var x := b1[n];
      assert b1 == b1[..n] + [x] && b2 == b2[..n] + [x];
      DropLast(b1[..n], b2[..n], x, a, key);
      StableSortUnique(b1[..n], b2[..n], b1[..n], key);
      assert b1 == b1[..n] + [b1[n]] && b2 == b2[..n] + [b2[n]];
    }
  }

  /** Two stable sorts of the same sequence end with the same element. */
  lemma SameLast<T>(b1: seq<T>, b2: seq<T>, a: seq<T>, key: T -> nat)
    requires StablySorted(b1, a, key) && StablySorted(b2, a, key)
    requires |b1| > 0
    ensures |b2| == |b1| && b1[|b1| - 1] == b2[|b2| - 1]
  {
    assert |b1| == |multiset(a)| == |b2|;
    var n := |b1| - 1;
    var x1, x2 := b1[n], b2[n];
    assert x1 in multiset(b2) && x2 in multiset(b1);
    LastIsLargest(b2, x1, key);
    LastIsLargest(b1, x2, key);
    var c := key(x1);
    assert WithKey(b1, key, c) == WithKey(a, key, c) == WithKey(b2, key, c);
    DropLastWithKey(b1, key, c);
    DropLastWithKey(b2, key, c);
    SameLastElement(WithKey(b1[..n], key, c), x1, WithKey(b2[..n], key, c), x2);
  }

  lemma SameLastElement<T>(u: seq<T>, x: T, v: seq<T>, y: T)
    requires u + [x] == v + [y]
    ensures x == y
  {
    assert x == (u + [x])[|u + [x]| - 1];
    assert y == (v + [y])[|v + [y]| - 1];
  }

  /** Dropping the common last element leaves a stable sort of the rest. */
  lemma DropLast<T>(p1: seq<T>, p2: seq<T>, x: T, a: seq<T>, key: T -> nat)
    requires StablySorted(p1 + [x], a, key) && StablySorted(p2 + [x], a, key)
    ensures StablySorted(p1, p1, key)
    ensures StablySorted(p2, p1, key)
  {
    SortedWithoutLast(p1, x, key);
    SortedWithoutLast(p2, x, key);
    assert multiset(p1 + [x]) == multiset(a) == multiset(p2 + [x]);
    assert multiset(p1) == multiset(p1 + [x]) - multiset{x};
    assert multiset(p2) == multiset(p2 + [x]) - multiset{x};
    forall d: nat
      ensures WithKey(p2, key, d) == WithKey(p1, key, d)
    {
      assert WithKey(p1 + [x], key, d) == WithKey(a, key, d) == WithKey(p2 + [x], key, d);
      DropLastWithKeys(p1, p2, x, key, d);
    }
  }

  lemma SortedWithoutLast<T>(p: seq<T>, x: T, key: T -> nat)
    requires SortedByKey(p + [x], key)
    ensures SortedByKey(p, key)
  {
    forall i, j | 0 <= i < j < |p|
      ensures key(p[i]) <= key(p[j])
    {
      assert (p + [x])[i] == p[i] && (p + [x])[j] == p[j];
    }
  }

  lemma DropLastWithKeys<T>(p1: seq<T>, p2: seq<T>, x: T, key: T -> nat, d: nat)
    requires WithKey(p1 + [x], key, d) == WithKey(p2 + [x], key, d)
    ensures WithKey(p1, key, d) == WithKey(p2, key, d)
  {
    WithKeyAppend(p1, [x], key, d);
    WithKeyAppend(p2, [x], key, d);
    CancelSuffix(WithKey(p1, key, d), WithKey(p2, key, d), WithKey([x], key, d));
  }

  lemma DropLastWithKey<T>(s: seq<T>, key: T -> nat, d: nat)
    requires |s| > 0
    ensures var x := s[|s| - 1];
      WithKey(s, key, d) == WithKey(s[..|s| - 1], key, d) + (if key(x) == d then [x] else [])
  {
  }

  lemma CancelSuffix<T>(u1: seq<T>, u2: seq<T>, t: seq<T>)
    requires u1 + t == u2 + t
    ensures u1 == u2
  {
    assert u1 == (u1 + t)[..|u1|];
    assert u2 == (u2 + t)[..|u2|];
  }
}
