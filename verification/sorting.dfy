/**
 * A fixed total order on strings (lexicographic on character codes), which
 * stands in for `String.prototype.localeCompare`, and the stable sort by a
 * string key that `Array.prototype.sort` performs with a comparator built on it.
 */
module Sorting {

  /** `a` comes strictly before `b`: the first differing character is smaller, or `a` is a proper prefix. */
  predicate LexLess(a: string, b: string)
    decreases |a|
  {
    if a == [] then b != []
    else if b == [] then false
    else if a[0] != b[0] then a[0] < b[0]
    else LexLess(a[1..], b[1..])
  }

  predicate LexLe(a: string, b: string) {
    a == b || LexLess(a, b)
  }

  lemma {:induction false} LexLessIrreflexive(a: string)
    ensures !LexLess(a, a)
    decreases |a|
  {
    if a != [] { LexLessIrreflexive(a[1..]); }
  }

  lemma {:induction false} LexLessAsymmetric(a: string, b: string)
    ensures !(LexLess(a, b) && LexLess(b, a))
    decreases |a|
  {
    if a != [] && b != [] && a[0] == b[0] { LexLessAsymmetric(a[1..], b[1..]); }
  }

  lemma {:induction false} LexLessTransitive(a: string, b: string, c: string)
    requires LexLess(a, b) && LexLess(b, c)
    ensures LexLess(a, c)
    decreases |a|
  {
    if a != [] && a[0] == b[0] && b[0] == c[0] {
      LexLessTransitive(a[1..], b[1..], c[1..]);
    }
  }

  lemma {:induction false} LexLessTotal(a: string, b: string)
    ensures a == b || LexLess(a, b) || LexLess(b, a)
    decreases |a|
  {
    if a != [] && b != [] && a[0] == b[0] {
      LexLessTotal(a[1..], b[1..]);
      if a[1..] == b[1..] {
        assert a == [a[0]] + a[1..] && b == [b[0]] + b[1..];
      }
    }
  }

  /** Keys `ka`, `kb` may appear in this order: ascending, or descending for newest-first lists. */
  predicate InOrder(ka: string, kb: string, descending: bool) {
    if descending then LexLe(kb, ka) else LexLe(ka, kb)
  }

  lemma InOrderTotal(ka: string, kb: string, descending: bool)
    ensures InOrder(ka, kb, descending) || InOrder(kb, ka, descending)
  {
    LexLessTotal(ka, kb);
  }

  lemma InOrderTransitive(ka: string, kb: string, kc: string, descending: bool)
    requires InOrder(ka, kb, descending) && InOrder(kb, kc, descending)
    ensures InOrder(ka, kc, descending)
  {
    if ka != kb && kb != kc {
      if descending { LexLessTransitive(kc, kb, ka); } else { LexLessTransitive(ka, kb, kc); }
    }
  }

  ghost predicate SortedBy<T>(xs: seq<T>, key: T -> string, descending: bool) {
    forall i, j :: 0 <= i < j < |xs| ==> InOrder(key(xs[i]), key(xs[j]), descending)
  }

  /** Places `x` before the first element it may precede, so that equal keys keep their order. */
  function Insert<T>(x: T, ys: seq<T>, key: T -> string, descending: bool): (r: seq<T>)
    ensures multiset(r) == multiset(ys) + multiset{x}
    ensures SortedBy(ys, key, descending) ==> SortedBy(r, key, descending)
    decreases |ys|
  {
    if ys == [] || InOrder(key(x), key(ys[0]), descending) then
      var r := [x] + ys;
      assert SortedBy(ys, key, descending) ==> SortedBy(r, key, descending) by {
        if SortedBy(ys, key, descending) {
          forall i, j | 0 <= i < j < |r| ensures InOrder(key(r[i]), key(r[j]), descending) {
            if i == 0 && j > 1 { InOrderTransitive(key(x), key(ys[0]), key(ys[j - 1]), descending); }
          }
        }
      }
      r
    else
      var rest := Insert(x, ys[1..], key, descending);
      var r := [ys[0]] + rest;
      assert ys == [ys[0]] + ys[1..];
      assert SortedBy(ys, key, descending) ==> SortedBy(r, key, descending) by {
        if SortedBy(ys, key, descending) {
          assert SortedBy(ys[1..], key, descending) by {
            forall i, j | 0 <= i < j < |ys[1..]| ensures InOrder(key(ys[1..][i]), key(ys[1..][j]), descending) {
              assert ys[1..][i] == ys[i + 1] && ys[1..][j] == ys[j + 1];
            }
          }
          InOrderTotal(key(x), key(ys[0]), descending);
          forall j | 0 < j < |r| ensures InOrder(key(ys[0]), key(r[j]), descending) {
            assert r[j] in multiset(rest);
            if r[j] != x {
              assert r[j] in multiset(ys[1..]);
              var k :| 0 <= k < |ys[1..]| && ys[1..][k] == r[j];
              assert ys[k + 1] == r[j];
            }
          }
        }
      }
      r
  }

  /** `Array.prototype.sort` with a comparator on `key`: a stable insertion sort. */
  function SortByKey<T>(xs: seq<T>, key: T -> string, descending: bool): (r: seq<T>)
    ensures multiset(r) == multiset(xs)
    ensures SortedBy(r, key, descending)
    decreases |xs|
  {
    if xs == [] then []
    else
      assert xs == [xs[0]] + xs[1..];
      Insert(xs[0], SortByKey(xs[1..], key, descending), key, descending)
  }

  /** The elements of `xs` whose key is `k`, in their order in `xs`. */
  function WithKey<T>(xs: seq<T>, key: T -> string, k: string): seq<T>
    decreases |xs|
  {
    if xs == [] then []
    else (if key(xs[0]) == k then [xs[0]] else []) + WithKey(xs[1..], key, k)
  }

  lemma WithKeyCons<T>(x: T, ys: seq<T>, key: T -> string, k: string)
    ensures WithKey([x] + ys, key, k) == (if key(x) == k then [x] else []) + WithKey(ys, key, k)
  {
    assert ([x] + ys)[1..] == ys;
  }

  /** Moving `x` behind an element `y` with a different key does not change the elements with key `k`. */
  lemma WithKeyPassOver<T>(x: T, y: T, tail: seq<T>, rest: seq<T>, key: T -> string, k: string)
    requires key(x) != key(y)
    requires WithKey(rest, key, k) == (if key(x) == k then [x] else []) + WithKey(tail, key, k)
    ensures WithKey([y] + rest, key, k) == (if key(x) == k then [x] else []) + WithKey([y] + tail, key, k)
  {
    WithKeyCons(y, rest, key, k);
    WithKeyCons(y, tail, key, k);
    if key(x) == k {
      assert WithKey([y] + rest, key, k) == WithKey(rest, key, k);
      assert WithKey([y] + tail, key, k) == WithKey(tail, key, k);
    } else {
      assert WithKey(rest, key, k) == WithKey(tail, key, k);
    }
  }

  /** Inserting `x` puts it in front of every element that has its key. */
  lemma {:induction false} InsertWithKey<T>(x: T, ys: seq<T>, key: T -> string, descending: bool, k: string)
    ensures WithKey(Insert(x, ys, key, descending), key, k) ==
      (if key(x) == k then [x] else []) + WithKey(ys, key, k)
    decreases |ys|
  {
    if ys == [] || InOrder(key(x), key(ys[0]), descending) {
      WithKeyCons(x, ys, key, k);
    } else {
      var y, tail := ys[0], ys[1..];
      var rest := Insert(x, tail, key, descending);
      assert Insert(x, ys, key, descending) == [y] + rest;
      assert ys == [y] + tail;
      InsertWithKey(x, tail, key, descending, k);
      WithKeyPassOver(x, y, tail, rest, key, k);
    }
  }

  /** The sort is stable: elements with equal keys keep their relative order. */
  lemma {:induction false} SortStable<T>(xs: seq<T>, key: T -> string, descending: bool, k: string)
    ensures WithKey(SortByKey(xs, key, descending), key, k) == WithKey(xs, key, k)
    decreases |xs|
  {
    if xs != [] {
      SortStable(xs[1..], key, descending, k);
      InsertWithKey(xs[0], SortByKey(xs[1..], key, descending), key, descending, k);
    }
  }

  /** Sorting a list that is already in order leaves it as it is (the sort is stable). */
  lemma {:induction false} SortSortedIsIdentity<T>(xs: seq<T>, key: T -> string, descending: bool)
    requires SortedBy(xs, key, descending)
    ensures SortByKey(xs, key, descending) == xs
    decreases |xs|
  {
    if xs != [] {
      var tail := xs[1..];
      assert SortedBy(tail, key, descending) by {
        forall i, j | 0 <= i < j < |tail| ensures InOrder(key(tail[i]), key(tail[j]), descending) {
          assert tail[i] == xs[i + 1] && tail[j] == xs[j + 1];
        }
      }
      SortSortedIsIdentity(tail, key, descending);
      if tail != [] {
        assert tail[0] == xs[1];
      }
      assert [xs[0]] + tail == xs;
    }
  }

  /** The identity key, for sorting strings by themselves. */
  function Id(s: string): string { s }

  predicate Distinct<T(==)>(xs: seq<T>) {
    forall i, j :: 0 <= i < j < |xs| ==> xs[i] != xs[j]
  }

  /** Two equal entries at different positions count twice. */
  lemma {:induction false} RepeatCountsTwice<T>(xs: seq<T>, i: int, j: int)
    requires 0 <= i < j < |xs| && xs[i] == xs[j]
    ensures multiset(xs)[xs[i]] >= 2
    decreases i
  {
    assert xs == [xs[0]] + xs[1..];
    if i == 0 {
      assert xs[1..][j - 1] == xs[j];
      assert xs[j] in multiset(xs[1..]);
    } else {
      assert xs[1..][i - 1] == xs[i] && xs[1..][j - 1] == xs[j];
      RepeatCountsTwice(xs[1..], i - 1, j - 1);
    }
  }

  lemma {:induction false} DistinctCountsOne<T>(xs: seq<T>)
    requires Distinct(xs)
    ensures forall x :: multiset(xs)[x] <= 1
    decreases |xs|
  {
    if xs != [] {
      var tail := xs[1..];
      assert Distinct(tail) by {
        forall i, j | 0 <= i < j < |tail| ensures tail[i] != tail[j] {
          assert tail[i] == xs[i + 1] && tail[j] == xs[j + 1];
        }
      }
      DistinctCountsOne(tail);
      assert xs == [xs[0]] + tail;
      assert xs[0] !in tail by {
        forall k | 0 <= k < |tail| ensures tail[k] != xs[0] { assert tail[k] == xs[k + 1]; }
      }
    }
  }

  /** Rearranging a duplicate-free list leaves it duplicate-free. */
  lemma PermutationKeepsDistinct<T>(a: seq<T>, b: seq<T>)
    requires multiset(a) == multiset(b) && Distinct(a)
    ensures Distinct(b)
  {
    DistinctCountsOne(a);
    forall i, j | 0 <= i < j < |b| ensures b[i] != b[j] {
      if b[i] == b[j] {
        RepeatCountsTwice(b, i, j);
      }
    }
  }

  /** An ascending list without duplicates is strictly increasing. */
  lemma SortedDistinctIsStrict(xs: seq<string>, i: int, j: int)
    requires SortedBy(xs, Id, false) && Distinct(xs)
    requires 0 <= i < j < |xs|
    ensures LexLess(xs[i], xs[j])
  {
    assert InOrder(Id(xs[i]), Id(xs[j]), false);
  }

  /** A set of strings has exactly one ascending duplicate-free listing. */
  lemma {:induction false} SortedListingUnique(a: seq<string>, b: seq<string>)
    requires SortedBy(a, Id, false) && Distinct(a)
    requires SortedBy(b, Id, false) && Distinct(b)
    requires forall x :: x in a <==> x in b
    ensures a == b
    decreases |a|
  {
    if a != [] {
      assert a[0] in a;
      assert b != [];
      assert b[0] in b;
      if a[0] != b[0] {
        var k :| 0 <= k < |b| && b[k] == a[0];
        var m :| 0 <= m < |a| && a[m] == b[0];
        SortedDistinctIsStrict(b, 0, k);
        SortedDistinctIsStrict(a, 0, m);
        LexLessAsymmetric(a[0], b[0]);
      }
      var a', b' := a[1..], b[1..];
      assert SortedBy(a', Id, false) && Distinct(a') by {
        forall i, j | 0 <= i < j < |a'| ensures InOrder(Id(a'[i]), Id(a'[j]), false) && a'[i] != a'[j] {
          assert a'[i] == a[i + 1] && a'[j] == a[j + 1];
        }
      }
      assert SortedBy(b', Id, false) && Distinct(b') by {
        forall i, j | 0 <= i < j < |b'| ensures InOrder(Id(b'[i]), Id(b'[j]), false) && b'[i] != b'[j] {
          assert b'[i] == b[i + 1] && b'[j] == b[j + 1];
        }
      }
      forall x ensures x in a' <==> x in b' {
        if x in a' {
          var i :| 0 <= i < |a'| && a'[i] == x;
          assert a[i + 1] == x && x != a[0];
          assert x in b;
          var j :| 0 <= j < |b| && b[j] == x;
          assert j != 0;
          assert b'[j - 1] == x;
        }
        if x in b' {
          var i :| 0 <= i < |b'| && b'[i] == x;
          assert b[i + 1] == x && x != b[0];
          assert x in a;
          var j :| 0 <= j < |a| && a[j] == x;
          assert j != 0;
          assert a'[j - 1] == x;
        }
      }
      SortedListingUnique(a', b');
      assert a == [a[0]] + a' && b == [b[0]] + b';
    }
  }
}
