/**
 * A plain JavaScript object used as a dictionary (`const m = {}`), and the
 * order in which `Object.entries` visits its keys: ECMA-262's
 * OrdinaryOwnPropertyKeys (section 10.1.11.1) lists the keys that are array
 * indices in ascending numeric order, then the other string keys in the
 * order they were created.
 */
module JsObject {
  import Numbers
  import Seqs
  import Sorting

  /** An array index: the canonical numeral of an integer below 2^32 - 1. */
  predicate IsArrayIndex(k: string) {
    Numbers.IsCanonical(k) && Numbers.DecimalValue(k) < 0xFFFF_FFFF
  }

  predicate IsNamedKey(k: string) {
    !IsArrayIndex(k)
  }

  predicate AllIndices(s: seq<string>) {
    forall i :: 0 <= i < |s| ==> IsArrayIndex(s[i])
  }

  /** The numeric value of an array index; other keys are never compared by it. */
  function IndexValue(k: string): int {
    if IsArrayIndex(k) then Numbers.DecimalValue(k) else 0
  }

  /** Distinct array indices have distinct values. */
  lemma IndexValueInjective(a: string, b: string)
    ensures IsArrayIndex(a) && IsArrayIndex(b) && IndexValue(a) == IndexValue(b) ==> a == b
  {
    if IsArrayIndex(a) && IsArrayIndex(b) {
      Numbers.CanonicalRoundTrip(a);
      Numbers.CanonicalRoundTrip(b);
    }
  }

  /** OrdinaryOwnPropertyKeys for string keys created in the order `created`. */
  function OwnKeys(created: seq<string>): seq<string> {
    Sorting.SortBy(IndexValue, Seqs.Filter(IsArrayIndex, created)) + Seqs.Filter(IsNamedKey, created)
  }

  /**
   * `Object.entries` visits each created key exactly as often as it was
   * created, all array indices first in ascending numeric order, then the
   * other keys in creation order.
   */
  lemma OwnKeysSpec(created: seq<string>)
    ensures multiset(OwnKeys(created)) == multiset(created)
    ensures var n := |Seqs.Filter(IsArrayIndex, created)|;
      && n <= |OwnKeys(created)|
      && AllIndices(OwnKeys(created)[..n])
      && Sorting.SortedBy(IndexValue, OwnKeys(created)[..n])
      && OwnKeys(created)[n..] == Seqs.Filter(IsNamedKey, created)
  {
    Seqs.FilterPartition(IsArrayIndex, IsNamedKey, created);
    var indices := Seqs.Filter(IsArrayIndex, created);
    var sorted := Sorting.SortBy(IndexValue, indices);
    Sorting.SortByPermutation(IndexValue, indices);
    Sorting.SortBySorted(IndexValue, indices);
    assert OwnKeys(created)[..|indices|] == sorted;
    forall i | 0 <= i < |sorted| ensures IsArrayIndex(sorted[i]) {
      assert sorted[i] in multiset(indices);
      Seqs.FilterMember(IsArrayIndex, created, sorted[i]);
    }
  }

  /** Distinct array indices are visited in strictly ascending numeric order. */
  lemma OwnKeysStrict(created: seq<string>, i: nat, j: nat)
    requires Seqs.NoDup(created)
    requires i < j < |OwnKeys(created)| && IsArrayIndex(OwnKeys(created)[j])
    ensures IsArrayIndex(OwnKeys(created)[i])
    ensures IndexValue(OwnKeys(created)[i]) < IndexValue(OwnKeys(created)[j])
  {
    var r := OwnKeys(created);
    OwnKeysSpec(created);
    Seqs.NoDupPermutation(created, r);
    var n := |Seqs.Filter(IsArrayIndex, created)|;
    if j >= n {
      assert r[j] in Seqs.Filter(IsNamedKey, created);
      Seqs.FilterMember(IsNamedKey, created, r[j]);
      assert false;
    }
    var prefix := r[..n];
    assert r[i] == prefix[i] && r[j] == prefix[j];
    assert IsArrayIndex(prefix[i]);
    Sorting.SortedAt(IndexValue, prefix, i, j);
    assert IndexValue(r[i]) <= IndexValue(r[j]);
    assert r[i] != r[j];
    IndexValueInjective(r[i], r[j]);
    assert IndexValue(r[i]) != IndexValue(r[j]);
  }

  /** A plain object used as a dictionary: its own keys in creation order, and their values. */
  datatype Dict<V> = Dict(created: seq<string>, vals: map<string, V>) {

    ghost predicate Valid() {
      Seqs.NoDup(created) && forall k :: k in vals <==> k in created
    }

    /** `obj[k] = v`: a new key is created last, an existing key keeps its place. */
    function Put(k: string, v: V): Dict<V> {
      Dict(if k in vals then created else created + [k], vals[k := v])
    }

    /** Assignment keeps the keys and the creation order in step, without duplicates. */
    lemma PutValid(k: string, v: V)
      requires Valid()
      ensures Put(k, v).Valid()
    {
    }

    /** A second assignment to the same key overrides the first and keeps its place. */
    lemma PutTwice(k: string, a: V, b: V)
      ensures Put(k, a).Put(k, b) == Put(k, b)
    {
      assert vals[k := a][k := b] == vals[k := b];
    }

    /** The keys `Object.entries(obj)` visits, in its order. */
    function EntryKeys(): seq<string> {
      OwnKeys(created)
    }

    /** Every key `Object.entries(obj)` visits holds a value. */
    lemma EntryKeysHeld()
      requires Valid()
      ensures forall i :: 0 <= i < |EntryKeys()| ==> EntryKeys()[i] in vals
    {
      OwnKeysSpec(created);
      forall i | 0 <= i < |EntryKeys()| ensures EntryKeys()[i] in vals {
        assert EntryKeys()[i] in multiset(created);
      }
    }

    /** `Object.entries(obj)`: each key with its value, in key order. */
    function Entries(): (es: seq<(string, V)>)
      requires Valid()
      ensures |es| == |EntryKeys()|
      ensures forall i :: 0 <= i < |es| ==> es[i].0 == EntryKeys()[i] && es[i].0 in vals && es[i].1 == vals[es[i].0]
    {
      EntryKeysHeld();
      var keys := EntryKeys();
      seq(|keys|, i requires 0 <= i < |keys| => (keys[i], vals[keys[i]]))
    }
  }

  /** `{}`. */
  function Empty<V>(): (d: Dict<V>)
    ensures d.Valid() && d.vals == map[]
  {
    Dict([], map[])
  }
}
