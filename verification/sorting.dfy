/**
 * `Array.prototype.sort` with the comparator `(a, b) => key(a) - key(b)`:
 * a stable sort (ECMAScript 2019 and later), ascending by an integer key.
 */
module Sorting {
  import Seqs

  ghost predicate SortedBy<T>(key: T -> int, s: seq<T>) {
    forall i, j :: 0 <= i < j < |s| ==> key(s[i]) <= key(s[j])
  }

  lemma SortedAt<T>(key: T -> int, s: seq<T>, i: nat, j: nat)
    requires SortedBy(key, s) && i < j < |s|
    ensures key(s[i]) <= key(s[j])
  {
  }

  /** Inserts `x` before the first element whose key is not smaller. */
  function Insert<T>(key: T -> int, x: T, s: seq<T>): seq<T> {
    if s == [] || key(x) <= key(s[0]) then [x] + s else [s[0]] + Insert(key, x, s[1..])
  }

  /** Insertion sort: stable, ascending by `key`. */
  function SortBy<T>(key: T -> int, s: seq<T>): seq<T> {
    if s == [] then [] else Insert(key, s[0], SortBy(key, s[1..]))
  }

  lemma {:induction false} InsertPermutation<T>(key: T -> int, x: T, s: seq<T>)
    ensures multiset(Insert(key, x, s)) == multiset{x} + multiset(s)
  {
    if s != [] && key(x) > key(s[0]) {
      InsertPermutation(key, x, s[1..]);
      assert s == [s[0]] + s[1..];
    }
  }

  /** Every key in `s` is at least `b`. */
  ghost predicate KeysAtLeast<T>(key: T -> int, b: int, s: seq<T>) {
    forall i :: 0 <= i < |s| ==> b <= key(s[i])
  }

  /** A sorted sequence stays sorted behind an element whose key bounds it from below. */
  lemma ConsSorted<T>(key: T -> int, y: T, t: seq<T>)
    requires SortedBy(key, t) && KeysAtLeast(key, key(y), t)
    ensures SortedBy(key, [y] + t)
  {
    var r := [y] + t;
    forall i, j | 0 <= i < j < |r| ensures key(r[i]) <= key(r[j]) {
      assert r[j] == t[j - 1];
      if i > 0 {
        assert r[i] == t[i - 1];
      }
    }
  }

  /** Inserting an element above a lower bound keeps the bound. */
  lemma {:induction false} InsertKeepsBound<T>(key: T -> int, b: int, x: T, s: seq<T>)
    requires KeysAtLeast(key, b, s) && b <= key(x)
    ensures KeysAtLeast(key, b, Insert(key, x, s))
  {
    if s != [] && key(x) > key(s[0]) {
      InsertKeepsBound(key, b, x, s[1..]);
      assert KeysAtLeast(key, b, s[1..]) by {
        forall i | 0 <= i < |s| - 1 ensures b <= key(s[1..][i]) {
          assert s[1..][i] == s[i + 1];
        }
      }
      var t := Insert(key, x, s[1..]);
      assert Insert(key, x, s) == [s[0]] + t;
      forall i | 0 <= i < |t| + 1 ensures b <= key(([s[0]] + t)[i]) {
        if i > 0 {
          assert ([s[0]] + t)[i] == t[i - 1];
        }
      }
    } else {
      forall i | 0 <= i < |s| + 1 ensures b <= key(([x] + s)[i]) {
        if i > 0 {
          assert ([x] + s)[i] == s[i - 1];
        }
      }
    }
  }

  lemma {:induction false} InsertSorted<T>(key: T -> int, x: T, s: seq<T>)
    requires SortedBy(key, s)
    ensures SortedBy(key, Insert(key, x, s))
  {
    if s == [] || key(x) <= key(s[0]) {
      forall i | 0 <= i < |s| ensures key(x) <= key(s[i]) {
        if i > 0 {
          SortedAt(key, s, 0, i);
        }
      }
      ConsSorted(key, x, s);
    } else {
      var rest := s[1..];
      assert SortedBy(key, rest) by {
        forall i, j | 0 <= i < j < |rest| ensures key(rest[i]) <= key(rest[j]) {
          SortedAt(key, s, i + 1, j + 1);
        }
      }
      forall i | 0 <= i < |rest| ensures key(s[0]) <= key(rest[i]) {
        SortedAt(key, s, 0, i + 1);
      }
      InsertSorted(key, x, rest);
      InsertKeepsBound(key, key(s[0]), x, rest);
      ConsSorted(key, s[0], Insert(key, x, rest));
    }
  }

  /** Sorting only rearranges. */
  lemma {:induction false} SortByPermutation<T>(key: T -> int, s: seq<T>)
    ensures multiset(SortBy(key, s)) == multiset(s)
    ensures |SortBy(key, s)| == |s|
  {
    if s != [] {
      SortByPermutation(key, s[1..]);
      InsertPermutation(key, s[0], SortBy(key, s[1..]));
      assert s == [s[0]] + s[1..];
    }
    assert |multiset(SortBy(key, s))| == |multiset(s)|;
  }

  /** The result is ascending by `key`. */
  lemma {:induction false} SortBySorted<T>(key: T -> int, s: seq<T>)
    ensures SortedBy(key, SortBy(key, s))
  {
    if s != [] {
      SortBySorted(key, s[1..]);
      InsertSorted(key, s[0], SortBy(key, s[1..]));
    }
  }

  /** The elements whose key is `t`. */
  function KeyIs<T>(key: T -> int, t: int): T -> bool {
    x => key(x) == t
  }

  lemma FilterCons<T>(p: T -> bool, x: T, s: seq<T>)
    ensures Seqs.Filter(p, [x] + s) == (if p(x) then [x] else []) + Seqs.Filter(p, s)
  {
    assert ([x] + s)[1..] == s;
  }

  lemma {:induction false} InsertStable<T>(key: T -> int, x: T, s: seq<T>, t: int)
    ensures Seqs.Filter(KeyIs(key, t), Insert(key, x, s)) == Seqs.Filter(KeyIs(key, t), [x] + s)
  {
    if s != [] && key(x) > key(s[0]) {
      var p := KeyIs(key, t);
      var rest := s[1..];
      var fx := if p(x) then [x] else [];
      var f0 := if p(s[0]) then [s[0]] else [];
      assert fx == [] || f0 == [];
      InsertStable(key, x, rest, t);
      FilterCons(p, s[0], Insert(key, x, rest));
      FilterCons(p, x, rest);
      FilterCons(p, x, s);
      FilterCons(p, s[0], rest);
      assert s == [s[0]] + rest;
      calc {
        Seqs.Filter(p, Insert(key, x, s));
        f0 + Seqs.Filter(p, Insert(key, x, rest));
        f0 + (fx + Seqs.Filter(p, rest));
        fx + (f0 + Seqs.Filter(p, rest));
        Seqs.Filter(p, [x] + s);
      }
    }
  }

  /** Stability: the elements with equal keys keep their original relative order. */
  lemma {:induction false} SortByStable<T>(key: T -> int, s: seq<T>, t: int)
    ensures Seqs.Filter(KeyIs(key, t), SortBy(key, s)) == Seqs.Filter(KeyIs(key, t), s)
  {
    if s != [] {
      var p := KeyIs(key, t);
      SortByStable(key, s[1..], t);
      InsertStable(key, s[0], SortBy(key, s[1..]), t);
      FilterCons(p, s[0], SortBy(key, s[1..]));
      FilterCons(p, s[0], s[1..]);
      assert s == [s[0]] + s[1..];
    }
  }
}
