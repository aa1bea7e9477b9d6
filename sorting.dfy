/**
 Python's built-in `sorted(items, key=..., reverse=...)`, which the program
 uses twice: to order matches by ascending descriptor distance
 (mirror_symmetry.py:95) and to order hexbin cells by descending vote count
 (mirror_symmetry.py:180). Python's sort is stable, and `reverse=True` keeps
 it stable: items with equal keys stay in their original relative order.
 Here it is a stable insertion sort, with its three properties proved:
 the result is ordered, a permutation of the input, and stable.
 */
module Sorting {

  /** x may stand before y in the output: keys non-decreasing, or non-increasing when reversed. */
  predicate InOrder<T>(key: T -> real, reverse: bool, x: T, y: T)
  {
    if reverse then key(x) >= key(y) else key(x) <= key(y)
  }

  /** Every earlier element may stand before every later one. */
  ghost predicate Ordered<T>(s: seq<T>, key: T -> real, reverse: bool)
  {
    forall i, j :: 0 <= i < j < |s| ==> InOrder(key, reverse, s[i], s[j])
  }

  /** The elements of s whose key is c, in the order s has them. */
  function WithKey<T>(s: seq<T>, key: T -> real, c: real): (w: seq<T>)
    ensures |w| <= |s|
  {
    if s == [] then []
    else (if key(s[0]) == c then [s[0]] else []) + WithKey(s[1..], key, c)
  }

  /** Places x in front of the first element it may stand before. */
  function Insert<T>(x: T, s: seq<T>, key: T -> real, reverse: bool): (r: seq<T>)
    ensures |r| == |s| + 1
  {
    if s == [] || InOrder(key, reverse, x, s[0]) then [x] + s
    else [s[0]] + Insert(x, s[1..], key, reverse)
  }

  /** Python's `sorted(s, key=key, reverse=reverse)`. */
  function Sorted<T>(s: seq<T>, key: T -> real, reverse: bool): (r: seq<T>)
    ensures |r| == |s|
  {
    if s == [] then [] else Insert(s[0], Sorted(s[1..], key, reverse), key, reverse)
  }

  lemma {:induction false} InsertPermutes<T>(x: T, s: seq<T>, key: T -> real, reverse: bool)
    ensures multiset(Insert(x, s, key, reverse)) == multiset{x} + multiset(s)
  {
    if s != [] && !InOrder(key, reverse, x, s[0]) {
      InsertPermutes(x, s[1..], key, reverse);
      assert s == [s[0]] + s[1..];
    }
  }

  lemma {:induction false} InsertOrdered<T>(x: T, s: seq<T>, key: T -> real, reverse: bool)
    requires Ordered(s, key, reverse)
    ensures Ordered(Insert(x, s, key, reverse), key, reverse)
  {
    var r := Insert(x, s, key, reverse);
    if s == [] {
    } else if InOrder(key, reverse, x, s[0]) {
      forall i, j | 0 <= i < j < |r| ensures InOrder(key, reverse, r[i], r[j]) {
        if i > 0 {
          assert r[i] == s[i - 1] && r[j] == s[j - 1];
        } else {
          assert r[j] == s[j - 1];
          assert InOrder(key, reverse, s[0], s[j - 1]) || j - 1 == 0;
        }
      }
    } else {
      var rest := Insert(x, s[1..], key, reverse);
      InsertOrdered(x, s[1..], key, reverse);
      InsertPermutes(x, s[1..], key, reverse);
      assert r == [s[0]] + rest;
      forall j | 0 <= j < |rest| ensures InOrder(key, reverse, s[0], rest[j]) {
        assert rest[j] in multiset(rest);
        assert rest[j] == x || rest[j] in multiset(s[1..]);
        if rest[j] != x {
          var k :| 0 <= k < |s[1..]| && s[1..][k] == rest[j];
          assert InOrder(key, reverse, s[0], s[k + 1]);
        }
      }
      forall i, j | 0 <= i < j < |r| ensures InOrder(key, reverse, r[i], r[j]) {
        if i == 0 {
          assert r[j] == rest[j - 1];
        } else {
          assert r[i] == rest[i - 1] && r[j] == rest[j - 1];
        }
      }
    }
  }

  /** Inserting x keeps, for every key, the order of the elements with that key; x comes first among its equals. */
  lemma {:induction false} InsertStable<T>(x: T, s: seq<T>, key: T -> real, reverse: bool, c: real)
    ensures WithKey(Insert(x, s, key, reverse), key, c) == WithKey([x] + s, key, c)
  {
    var xs := [x] + s;
    assert xs[1..] == s;
    if s != [] && !InOrder(key, reverse, x, s[0]) {
      var r := Insert(x, s, key, reverse);
      var rest := Insert(x, s[1..], key, reverse);
      assert r == [s[0]] + rest;
      assert r[1..] == rest;
      InsertStable(x, s[1..], key, reverse, c);
      var xt := [x] + s[1..];
      assert xt[1..] == s[1..];
      assert key(s[0]) != key(x);
      assert WithKey(s, key, c) == (if key(s[0]) == c then [s[0]] else []) + WithKey(s[1..], key, c);
    }
  }

  /** The sorted sequence is ordered by key. */
  lemma {:induction false} SortedOrdered<T>(s: seq<T>, key: T -> real, reverse: bool)
    ensures Ordered(Sorted(s, key, reverse), key, reverse)
  {
    if s != [] {
      SortedOrdered(s[1..], key, reverse);
      InsertOrdered(s[0], Sorted(s[1..], key, reverse), key, reverse);
    }
  }

  /** The sorted sequence holds the same elements, each as often. */
  lemma {:induction false} SortedPermutes<T>(s: seq<T>, key: T -> real, reverse: bool)
    ensures multiset(Sorted(s, key, reverse)) == multiset(s)
  {
    if s != [] {
      SortedPermutes(s[1..], key, reverse);
      InsertPermutes(s[0], Sorted(s[1..], key, reverse), key, reverse);
      assert s == [s[0]] + s[1..];
    }
  }

  /** The sort is stable: the elements that share a key keep their relative order. */
  lemma {:induction false} SortedStable<T>(s: seq<T>, key: T -> real, reverse: bool, c: real)
    ensures WithKey(Sorted(s, key, reverse), key, c) == WithKey(s, key, c)
  {
    if s != [] {
      var t := Sorted(s[1..], key, reverse);
      SortedStable(s[1..], key, reverse, c);
      InsertStable(s[0], t, key, reverse, c);
      var xt := [s[0]] + t;
      assert xt[1..] == t;
    }
  }
}
