/** `Array.prototype.filter`, `find`/`findIndex` and first-appearance de-duplication. */
module Seqs {
  import opened Wrappers

  /** `s.filter(p)`. */
  function Filter<T>(p: T -> bool, s: seq<T>): (r: seq<T>)
    ensures |r| <= |s|
  {
    if s == [] then [] else (if p(s[0]) then [s[0]] else []) + Filter(p, s[1..])
  }

  /** Filtering keeps the original order: it distributes over concatenation. */
  lemma {:induction false} FilterConcat<T>(p: T -> bool, a: seq<T>, b: seq<T>)
    ensures Filter(p, a + b) == Filter(p, a) + Filter(p, b)
  {
    if a == [] {
      assert a + b == b;
    } else {
      var head := if p(a[0]) then [a[0]] else [];
      assert (a + b)[1..] == a[1..] + b;
      assert Filter(p, a + b) == head + Filter(p, a[1..] + b);
      FilterConcat(p, a[1..], b);
    }
  }

  /** Filtering keeps every element that satisfies `p` as often as it occurs, and drops the rest. */
  lemma {:induction false} FilterCount<T>(p: T -> bool, s: seq<T>, x: T)
    ensures multiset(Filter(p, s))[x] == if p(x) then multiset(s)[x] else 0
  {
    if s != [] {
      FilterCount(p, s[1..], x);
      assert s == [s[0]] + s[1..];
    }
  }

  /** An element survives filtering exactly when it is in `s` and satisfies `p`. */
  lemma FilterMember<T>(p: T -> bool, s: seq<T>, x: T)
    ensures x in Filter(p, s) <==> x in s && p(x)
  {
    FilterCount(p, s, x);
    assert x in Filter(p, s) <==> x in multiset(Filter(p, s));
    assert x in s <==> x in multiset(s);
  }

  /** Filtering by a predicate and by its negation splits a sequence in two. */
  lemma {:induction false} FilterPartition<T>(p: T -> bool, q: T -> bool, s: seq<T>)
    requires forall x :: q(x) == !p(x)
    ensures multiset(Filter(p, s)) + multiset(Filter(q, s)) == multiset(s)
  {
    if s != [] {
      var x := s[0];
      FilterPartition(p, q, s[1..]);
      assert s == [x] + s[1..];
      assert multiset(s) == multiset{x} + multiset(s[1..]);
      assert q(x) == !p(x);
      if p(x) {
        assert multiset(Filter(p, s)) == multiset{x} + multiset(Filter(p, s[1..]));
        assert Filter(q, s) == Filter(q, s[1..]);
      } else {
        assert Filter(p, s) == Filter(p, s[1..]);
        assert multiset(Filter(q, s)) == multiset{x} + multiset(Filter(q, s[1..]));
      }
    }
  }

  /** `s.findIndex(p)`, `None` standing for -1: the first position whose element satisfies `p`. */
  function FindIndex<T>(p: T -> bool, s: seq<T>): (r: Option<nat>)
    ensures r.Some? ==> r.value < |s| && p(s[r.value]) && forall j :: 0 <= j < r.value ==> !p(s[j])
    ensures r.None? ==> forall j :: 0 <= j < |s| ==> !p(s[j])
  {
    if s == [] then None
    else if p(s[0]) then Some(0)
    else match FindIndex(p, s[1..])
      case None => None
      case Some(i) => Some(i + 1)
  }

  /** `s.find(p)`, `None` standing for `undefined`. */
  function Find<T>(p: T -> bool, s: seq<T>): Option<T> {
    match FindIndex(p, s)
    case None => None
    case Some(i) => Some(s[i])
  }

  predicate NoDup<T(==)>(s: seq<T>) {
    forall i, j :: 0 <= i < j < |s| ==> s[i] != s[j]
  }

  /** A sequence has no duplicate exactly when every element occurs at most once in its multiset. */
  lemma {:induction false} NoDupIff<T>(s: seq<T>)
    ensures NoDup(s) <==> forall x :: multiset(s)[x] <= 1
  {
    if s != [] {
      var t := s[1..];
      NoDupIff(t);
      assert s == [s[0]] + t;
      if NoDup(s) {
        assert s[0] !in t;
        assert NoDup(t) by {
          forall i, j | 0 <= i < j < |t| ensures t[i] != t[j] {
            assert s[i + 1] != s[j + 1];
          }
        }
      }
      if forall x :: multiset(s)[x] <= 1 {
        assert forall x :: multiset(t)[x] <= multiset(s)[x];
        assert multiset(t)[s[0]] == 0;
        forall i, j | 0 <= i < j < |s| ensures s[i] != s[j] {
          if i == 0 {
            assert s[j] in t;
          } else {
            assert t[i - 1] != t[j - 1];
          }
        }
      }
    }
  }

  /** A rearrangement of a sequence without duplicates has none. */
  lemma NoDupPermutation<T>(a: seq<T>, b: seq<T>)
    requires NoDup(a) && multiset(a) == multiset(b)
    ensures NoDup(b)
  {
    NoDupIff(a);
    NoDupIff(b);
  }

  /** The first position of `x` in `s`: `s.indexOf(x)`. */
  function IndexOf<T(==)>(s: seq<T>, x: T): (r: nat)
    requires x in s
    ensures r < |s| && s[r] == x && forall k :: 0 <= k < r ==> s[k] != x
  {
    if s[0] == x then 0 else 1 + IndexOf(s[1..], x)
  }

  /** The distinct elements of `s`, each at its first appearance. */
  function Distinct<T(==)>(s: seq<T>): (r: seq<T>)
    ensures |r| <= |s|
    ensures NoDup(r)
  {
    if s == [] then []
    else
      var r := Distinct(s[..|s| - 1]);
      if s[|s| - 1] in r then r else r + [s[|s| - 1]]
  }

  /** `Distinct` keeps exactly the elements of `s`. */
  lemma {:induction false} DistinctMember<T>(s: seq<T>, x: T)
    ensures x in Distinct(s) <==> x in s
  {
    if s != [] {
      var p := s[..|s| - 1];
      DistinctMember(p, x);
      assert s == p + [s[|s| - 1]];
    }
  }

  /** The first position of an element found in a prefix is its first position in the whole. */
  lemma {:induction false} IndexOfPrefix<T>(s: seq<T>, n: nat, x: T)
    requires n <= |s| && x in s[..n]
    ensures IndexOf(s, x) == IndexOf(s[..n], x)
  {
    if s[0] != x {
      var t := s[..n];
      assert t[0] == s[0] && t[1..] == s[1..][..n - 1];
      assert x in t[1..];
      IndexOfPrefix(s[1..], n - 1, x);
    }
  }

  /** `Distinct` lists the elements in the order of their first appearance. */
  lemma {:induction false} DistinctFirstAppearance<T>(s: seq<T>, i: nat, j: nat)
    requires i < j < |Distinct(s)|
    ensures Distinct(s)[i] in s && Distinct(s)[j] in s
    ensures IndexOf(s, Distinct(s)[i]) < IndexOf(s, Distinct(s)[j])
  {
    DistinctMember(s, Distinct(s)[i]);
    DistinctMember(s, Distinct(s)[j]);
    var n := |s| - 1;
    var p := s[..n];
    var r := Distinct(s);
    var rp := Distinct(p);
    assert r[i] in p by {
      assert i < |rp|;
      assert r[i] == rp[i];
      DistinctMember(p, r[i]);
    }
    IndexOfPrefix(s, n, r[i]);
    if j < |rp| {
      assert r[i] == rp[i] && r[j] == rp[j];
      DistinctFirstAppearance(p, i, j);
      IndexOfPrefix(s, n, r[j]);
    } else {
      DistinctMember(p, s[n]);
      assert r[j] == s[n] && s[n] !in p;
    }
  }
}
