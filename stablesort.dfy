/**
 * `Array.prototype.sort` called with the comparator `(a, b) => key(b) - key(a)`.
 * Since the 2019 edition, ECMA-262 requires the sort to be stable, so its result is
 * fixed: non-increasing by `key`, and elements with equal keys keep their input order.
 * `Sort` gives that result as a function; `SortInPlace` computes it on an array.
 */
module StableSort {

  /** `s` is in non-increasing order of `key` (newest first). */
  ghost predicate NonIncreasing<T>(s: seq<T>, key: T -> int)
  {
    forall i, j :: 0 <= i < j < |s| ==> key(s[j]) <= key(s[i])
  }

  /** Every element of `s` has a key of at least `b`. */
  ghost predicate AllAtLeast<T>(s: seq<T>, key: T -> int, b: int)
  {
    forall i :: 0 <= i < |s| ==> b <= key(s[i])
  }

  /**
   * Inserts `x`, which comes after every element of `s` in the input, into the sorted `s`:
   * `x` goes after every element whose key is at least its own.
   */
  function Insert<T>(x: T, s: seq<T>, key: T -> int): (r: seq<T>)
    decreases |s|
    ensures |r| == |s| + 1
  {
    if s == [] || key(x) <= key(s[|s| - 1]) then s + [x]
    else Insert(x, s[..|s| - 1], key) + [s[|s| - 1]]
  }

  /** The stable, newest-first order of `s`. */
  function Sort<T>(s: seq<T>, key: T -> int): (r: seq<T>)
    ensures |r| == |s|
  {
    if s == [] then [] else Insert(s[|s| - 1], Sort(s[..|s| - 1], key), key)
  }

  /** The elements of `s` whose key is `v`, in the order of `s`. */
  function WithKey<T>(s: seq<T>, key: T -> int, v: int): seq<T>
  {
    if s == [] then []
    else WithKey(s[..|s| - 1], key, v) + (if key(s[|s| - 1]) == v then [s[|s| - 1]] else [])
  }

  /** A reference definition of the selection: the index of the first element with the largest key. */
  function FirstMax<T>(s: seq<T>, key: T -> int): (k: nat)
    requires |s| > 0
    ensures k < |s|
    ensures forall i :: 0 <= i < |s| ==> key(s[i]) <= key(s[k])
    ensures forall i :: 0 <= i < k ==> key(s[i]) < key(s[k])
  {
    if |s| == 1 then 0
    else
      var k := FirstMax(s[..|s| - 1], key);
      if key(s[k]) < key(s[|s| - 1]) then |s| - 1 else k
  }

  lemma {:induction false} InsertAtLeast<T>(x: T, s: seq<T>, key: T -> int, b: int)
    requires AllAtLeast(s, key, b) && b <= key(x)
    ensures AllAtLeast(Insert(x, s, key), key, b)
    decreases |s|
  {
    if s == [] || key(x) <= key(s[|s| - 1]) {
    } else {
      InsertAtLeast(x, s[..|s| - 1], key, b);
    }
  }

  lemma {:induction false} InsertNonIncreasing<T>(x: T, s: seq<T>, key: T -> int)
    requires NonIncreasing(s, key)
    ensures NonIncreasing(Insert(x, s, key), key)
    decreases |s|
  {
    if s == [] || key(x) <= key(s[|s| - 1]) {
    } else {
      var init, last := s[..|s| - 1], s[|s| - 1];
      InsertNonIncreasing(x, init, key);
      InsertAtLeast(x, init, key, key(last));
    }
  }

  /** The result of `Sort` is newest first. */
  lemma {:induction false} SortNonIncreasing<T>(s: seq<T>, key: T -> int)
    ensures NonIncreasing(Sort(s, key), key)
  {
    if s != [] {
      SortNonIncreasing(s[..|s| - 1], key);
      InsertNonIncreasing(s[|s| - 1], Sort(s[..|s| - 1], key), key);
    }
  }

  lemma {:induction false} InsertMultiset<T>(x: T, s: seq<T>, key: T -> int)
    ensures multiset(Insert(x, s, key)) == multiset(s) + multiset{x}
    decreases |s|
  {
    if s == [] || key(x) <= key(s[|s| - 1]) {
    } else {
      var init, last := s[..|s| - 1], s[|s| - 1];
      InsertMultiset(x, init, key);
      assert s == init + [last];
    }
  }

  /** `Sort` reorders and neither drops nor duplicates an element. */
  lemma {:induction false} SortPermutation<T>(s: seq<T>, key: T -> int)
    ensures multiset(Sort(s, key)) == multiset(s)
  {
    if s != [] {
      var init := s[..|s| - 1];
      SortPermutation(init, key);
      InsertMultiset(s[|s| - 1], Sort(init, key), key);
      assert s == init + [s[|s| - 1]];
    }
  }

  /** No element occurs twice in `s`. */
  ghost predicate Distinct<T>(s: seq<T>)
  {
    forall i, j :: 0 <= i < j < |s| ==> s[i] != s[j]
  }

  lemma {:induction false} DistinctOnce<T>(s: seq<T>, x: T)
    requires Distinct(s)
    ensures multiset(s)[x] <= 1
  {
    if s != [] {
      var init, last := s[..|s| - 1], s[|s| - 1];
      assert s == init + [last];
      DistinctOnce(init, x);
      assert x == last ==> x !in init;
    }
  }

  lemma RepeatTwice<T>(s: seq<T>, i: nat, j: nat)
    requires i < j < |s| && s[i] == s[j]
    ensures multiset(s)[s[i]] >= 2
  {
    assert s == s[..j] + [s[j]] + s[j + 1..];
    assert s[..j][i] == s[i];
    assert s[i] in multiset(s[..j]);
  }

  /** Sorting a sequence without repetitions gives one without repetitions. */
  lemma SortDistinct<T>(s: seq<T>, key: T -> int)
    requires Distinct(s)
    ensures Distinct(Sort(s, key))
  {
    var r := Sort(s, key);
    SortPermutation(s, key);
    forall i, j | 0 <= i < j < |r| ensures r[i] != r[j] {
      if r[i] == r[j] {
        RepeatTwice(r, i, j);
        DistinctOnce(s, r[i]);
      }
    }
  }

  /** `Sort(s)` holds exactly the elements of `s`. */
  lemma SortMembers<T>(s: seq<T>, key: T -> int)
    ensures forall x :: x in Sort(s, key) <==> x in s
  {
    SortPermutation(s, key);
    assert forall x :: x in Sort(s, key) <==> x in multiset(Sort(s, key));
    assert forall x :: x in s <==> x in multiset(s);
  }

  lemma {:induction false} InsertWithKey<T>(x: T, s: seq<T>, key: T -> int, v: int)
    ensures WithKey(Insert(x, s, key), key, v) == WithKey(s, key, v) + WithKey([x], key, v)
    decreases |s|
  {
    if s == [] || key(x) <= key(s[|s| - 1]) {
      var r := s + [x];
      assert r[..|r| - 1] == s;
    } else {
      var init, last := s[..|s| - 1], s[|s| - 1];
      InsertWithKey(x, init, key, v);
      var r := Insert(x, init, key) + [last];
      assert r[..|r| - 1] == Insert(x, init, key);
    }
  }

  /** Stability: among elements with equal keys, `Sort` keeps the input order. */
  lemma {:induction false} SortStable<T>(s: seq<T>, key: T -> int, v: int)
    ensures WithKey(Sort(s, key), key, v) == WithKey(s, key, v)
  {
    if s != [] {
      var init, last := s[..|s| - 1], s[|s| - 1];
      SortStable(init, key, v);
      InsertWithKey(last, Sort(init, key), key, v);
    }
  }

  lemma {:induction false} InsertHead<T>(x: T, s: seq<T>, key: T -> int)
    requires s != [] && NonIncreasing(s, key)
    ensures Insert(x, s, key)[0] == if key(s[0]) < key(x) then x else s[0]
    decreases |s|
  {
    if key(x) <= key(s[|s| - 1]) {
    } else if |s| > 1 {
      InsertHead(x, s[..|s| - 1], key);
    }
  }

  /** The head of the sorted order is the first element, in input order, with the largest key. */
  lemma {:induction false} SortHead<T>(s: seq<T>, key: T -> int)
    requires |s| > 0
    ensures Sort(s, key)[0] == s[FirstMax(s, key)]
  {
    var init, last := s[..|s| - 1], s[|s| - 1];
    if |s| > 1 {
      SortHead(init, key);
      SortNonIncreasing(init, key);
      InsertHead(last, Sort(init, key), key);
    }
  }

  lemma {:induction false} WithKeyOccurs<T>(s: seq<T>, key: T -> int, v: int) returns (i: nat)
    requires WithKey(s, key, v) != []
    ensures i < |s| && key(s[i]) == v
  {
    var init := s[..|s| - 1];
    if key(s[|s| - 1]) == v {
      i := |s| - 1;
    } else {
      i := WithKeyOccurs(init, key, v);
      assert s[i] == init[i];
    }
  }

  lemma {:induction false} WithKeyOfLast<T>(s: seq<T>, key: T -> int)
    requires s != []
    ensures WithKey(s, key, key(s[|s| - 1])) != []
  {
  }

  /** What `WithKey` keeps of `s` without its last element. */
  lemma WithKeyInit<T>(s: seq<T>, key: T -> int, v: int)
    requires s != []
    ensures var f := WithKey(s, key, v);
      if key(s[|s| - 1]) == v
      then f != [] && f[|f| - 1] == s[|s| - 1] && WithKey(s[..|s| - 1], key, v) == f[..|f| - 1]
      else WithKey(s[..|s| - 1], key, v) == f
  {
    var f, g := WithKey(s, key, v), WithKey(s[..|s| - 1], key, v);
    if key(s[|s| - 1]) == v {
      assert f == g + [s[|s| - 1]];
      assert f[..|f| - 1] == g;
    } else {
      assert f == g + [];
    }
  }

  lemma DropLastAgree<T>(u: seq<T>, w: seq<T>, ui: seq<T>, wi: seq<T>, key: T -> int)
    requires u != [] && w != [] && key(u[|u| - 1]) == key(w[|w| - 1])
    requires ui == u[..|u| - 1] && wi == w[..|w| - 1]
    requires forall v :: WithKey(u, key, v) == WithKey(w, key, v)
    ensures u[|u| - 1] == w[|w| - 1]
    ensures forall v :: WithKey(ui, key, v) == WithKey(wi, key, v)
  {
    WithKeyInit(u, key, key(u[|u| - 1]));
    WithKeyInit(w, key, key(u[|u| - 1]));
    forall v ensures WithKey(ui, key, v) == WithKey(wi, key, v) {
      WithKeyInit(u, key, v);
      WithKeyInit(w, key, v);
    }
  }

  /** In two agreeing newest-first orders, the last (oldest) elements have the same key. */
  lemma LastKeysAgree<T>(u: seq<T>, w: seq<T>, key: T -> int)
    requires u != [] && w != []
    requires NonIncreasing(u, key) && NonIncreasing(w, key)
    requires forall v :: WithKey(u, key, v) == WithKey(w, key, v)
    ensures key(u[|u| - 1]) == key(w[|w| - 1])
  {
    var mu, mw := key(u[|u| - 1]), key(w[|w| - 1]);
    WithKeyOfLast(u, key);
    WithKeyOfLast(w, key);
    assert WithKey(u, key, mw) == WithKey(w, key, mw);
    assert WithKey(w, key, mu) == WithKey(u, key, mu);
    var i := WithKeyOccurs(u, key, mw);
    var j := WithKeyOccurs(w, key, mu);
    assert i < |u| - 1 ==> key(u[|u| - 1]) <= key(u[i]);
    assert j < |w| - 1 ==> key(w[|w| - 1]) <= key(w[j]);
  }

  /** Two newest-first orders that agree on the order of each key's elements are equal. */
  lemma {:induction false} SortedOrdersAgree<T>(u: seq<T>, w: seq<T>, key: T -> int)
    requires NonIncreasing(u, key) && NonIncreasing(w, key)
    requires forall v :: WithKey(u, key, v) == WithKey(w, key, v)
    ensures u == w
    decreases |u|
  {
    if u == [] && w != [] {
      WithKeyOfLast(w, key);
    } else if u != [] && w == [] {
      WithKeyOfLast(u, key);
    } else if u != [] {
      LastKeysAgree(u, w, key);
      var ui, wi := u[..|u| - 1], w[..|w| - 1];
      DropLastAgree(u, w, ui, wi, key);
      SortedOrdersAgree(ui, wi, key);
      assert u == ui + [u[|u| - 1]];
      assert w == wi + [w[|w| - 1]];
    }
  }

  /**
   * Every stable newest-first reordering of `s` is `Sort(s)`: whatever algorithm the
   * JavaScript engine uses, a conforming sort produces exactly this order.
   */
  lemma StableSortIsUnique<T>(s: seq<T>, r: seq<T>, key: T -> int)
    requires NonIncreasing(r, key)
    requires forall v :: WithKey(r, key, v) == WithKey(s, key, v)
    ensures r == Sort(s, key)
  {
    SortNonIncreasing(s, key);
    forall v ensures WithKey(r, key, v) == WithKey(Sort(s, key), key, v) {
      SortStable(s, key, v);
    }
    SortedOrdersAgree(r, Sort(s, key), key);
  }

  /** `Insert` places `x` at index `j` when exactly the elements from `j` on have smaller keys. */
  lemma {:induction false} InsertAt<T>(x: T, s: seq<T>, key: T -> int, j: nat)
    requires j <= |s|
    requires j == 0 || key(x) <= key(s[j - 1])
    requires forall k :: j <= k < |s| ==> key(s[k]) < key(x)
    ensures Insert(x, s, key) == s[..j] + [x] + s[j..]
    decreases |s|
  {
    if j < |s| {
      var init, last := s[..|s| - 1], s[|s| - 1];
      InsertAt(x, init, key, j);
      assert init[..j] == s[..j];
      assert init[j..] + [last] == s[j..];
    }
  }

  /** One step of insertion sort: moves `a[i]` into place within `a[..i + 1]`. */
  method InsertLast<T>(a: array<T>, i: nat, key: T -> int)
    requires i < a.Length
    modifies a
    ensures a[..i + 1] == Insert(old(a[i]), old(a[..i]), key)
    ensures a[i + 1..] == old(a[i + 1..])
  {
    ghost var t := a[..i];
    var x := a[i];
    var j := i;
    while j > 0 && key(a[j - 1]) < key(x)
      invariant 0 <= j <= i
      invariant forall k :: 0 <= k < j ==> a[k] == t[k]
      invariant forall k :: j < k <= i ==> a[k] == t[k - 1]
      invariant forall k :: j <= k < i ==> key(t[k]) < key(x)
      invariant forall k :: i < k < a.Length ==> a[k] == old(a[k])
    {
      a[j] := a[j - 1];
      j := j - 1;
    }
    a[j] := x;
    InsertAt(x, t, key, j);
    ghost var r := t[..j] + [x] + t[j..];
    assert forall k :: 0 <= k <= i ==> a[k] == r[k];
    assert a[..i + 1] == r;
  }

  /** Insertion sort, in place; the result is the stable newest-first order. */
  method SortInPlace<T>(a: array<T>, key: T -> int)
    modifies a
    ensures a[..] == Sort(old(a[..]), key)
  {
    ghost var s := a[..];
    var i := 0;
    while i < a.Length
      invariant 0 <= i <= a.Length
      invariant a[..i] == Sort(s[..i], key)
      invariant a[i..] == s[i..]
    {
      InsertLast(a, i, key);
      assert s[..i + 1][..i] == s[..i];
      i := i + 1;
    }
    assert a[..] == a[..a.Length] && s == s[..a.Length];
  }
}
