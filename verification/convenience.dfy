/**
 * The convenience category: factory methods, bulk additions and removals,
 * content equality and positional access for the ordered variants.
 */
module Convenience {
  import opened Wrappers
  import opened Sequences
  import opened Bijections
  import opened Mutable

  /** `dictionary`: a new empty dictionary. */
  function Dictionary<K, V>(): (r: Bijection<K, V>)
    ensures Valid(r) && Count(r) == 0
    ensures Keys(r) == {} && Objects(r) == {} && OrderedKeys(r) == []
  {
    Empty()
  }

  /** `dictionaryWithObjects:keys:`: the same dictionary `initWithObjects:keys:` builds. */
  function DictionaryWithObjects<K, V>(objects: seq<V>, keys: seq<K>): (r: Result<Bijection<K, V>>)
    requires Distinct(objects) && Distinct(keys)
    ensures r == InitWithObjects(Some(objects), Some(keys))
  {
    if |objects| != |keys| then Failure(InvalidArgument) else Success(Pair(objects, keys))
  }

  /**
   * A receiver entry `k` outlives setting the pairs of `ks` from `other`
   * when neither `k` nor its object is among them.
   */
  ghost predicate Survives<K, V>(b: Bijection<K, V>, other: Bijection<K, V>, ks: seq<K>, k: K)
    requires k in b.forward
  {
    k !in ks && !(b.forward[k] in other.inverse && other.inverse[b.forward[k]] in ks)
  }

  /** Every key listed in `ks` is in `r` with the object it has in `other`. */
  ghost predicate Copied<K, V>(other: Bijection<K, V>, ks: seq<K>, r: Bijection<K, V>) {
    forall i | 0 <= i < |ks| :: ks[i] in other.forward && ks[i] in r.forward && r.forward[ks[i]] == other.forward[ks[i]]
  }

  /** Every surviving entry of `b` is in `r` unchanged. */
  ghost predicate Kept<K, V>(b: Bijection<K, V>, other: Bijection<K, V>, ks: seq<K>, r: Bijection<K, V>) {
    forall k | k in b.forward && Survives(b, other, ks, k) :: k in r.forward && r.forward[k] == b.forward[k]
  }

  /** `r` has no keys besides those of `ks` and the survivors of `b`. */
  ghost predicate NothingElse<K, V>(b: Bijection<K, V>, other: Bijection<K, V>, ks: seq<K>, r: Bijection<K, V>) {
    forall k | k in r.forward :: k in ks || (k in b.forward && Survives(b, other, ks, k))
  }

  /** Sets, one after the other, the pairs of `other` whose keys are listed in `ks`. */
  function SetAll<K, V>(b: Bijection<K, V>, other: Bijection<K, V>, ks: seq<K>): (r: Bijection<K, V>)
    requires Valid(b) && Valid(other) && Distinct(ks)
    requires forall i | 0 <= i < |ks| :: ks[i] in other.forward
    ensures Valid(r)
    ensures Copied(other, ks, r) && Kept(b, other, ks, r) && NothingElse(b, other, ks, r)
    decreases |ks|
  {
    if |ks| == 0 then b
    else
      var n := |ks| - 1;
      PrefixDistinct(ks, n);
      var r0 := SetAll(b, other, ks[..n]);
      var r := Set(r0, other.forward[ks[n]], ks[n]);
      SetAllCopied(b, other, ks, r0);
      SetAllKept(b, other, ks, r0);
      SetAllNothingElse(b, other, ks, r0);
      r
  }

  /** Setting the last pair of `ks` keeps the earlier pairs copied. */
  lemma SetAllCopied<K, V>(b: Bijection<K, V>, other: Bijection<K, V>, ks: seq<K>, r0: Bijection<K, V>)
    requires Valid(other) && Distinct(ks) && |ks| > 0 && ks[|ks| - 1] in other.forward
    requires Valid(r0) && Copied(other, ks[..|ks| - 1], r0)
    ensures Copied(other, ks, Set(r0, other.forward[ks[|ks| - 1]], ks[|ks| - 1]))
  {
    var n := |ks| - 1;
    var p := ks[..n];
    var k := ks[n];
    var r := Set(r0, other.forward[k], k);
    forall i | 0 <= i < |ks|
      ensures ks[i] in other.forward && ks[i] in r.forward && r.forward[ks[i]] == other.forward[ks[i]]
    {
      if i < n {
        assert p[i] == ks[i];
        assert ks[i] != k;
        assert other.inverse[other.forward[ks[i]]] == ks[i];
      }
    }
  }

  /** Setting the last pair of `ks` keeps the survivors of the whole of `ks`. */
  lemma SetAllKept<K, V>(b: Bijection<K, V>, other: Bijection<K, V>, ks: seq<K>, r0: Bijection<K, V>)
    requires Valid(other) && |ks| > 0 && ks[|ks| - 1] in other.forward
    requires Valid(r0) && Kept(b, other, ks[..|ks| - 1], r0)
    ensures Kept(b, other, ks, Set(r0, other.forward[ks[|ks| - 1]], ks[|ks| - 1]))
  {
    var n := |ks| - 1;
    var p := ks[..n];
    var k := ks[n];
    var o := other.forward[k];
    var r := Set(r0, o, k);
    LastMembership(ks);
    assert other.inverse[o] == k;
    forall k' | k' in b.forward && Survives(b, other, ks, k')
      ensures k' in r.forward && r.forward[k'] == b.forward[k']
    {
      assert k' !in p && k' != k;
      assert Survives(b, other, p, k');
      assert k' in r0.forward && r0.forward[k'] == b.forward[k'];
      assert b.forward[k'] != o;
    }
  }

  /** Setting the last pair of `ks` adds no key besides it. */
  lemma SetAllNothingElse<K, V>(b: Bijection<K, V>, other: Bijection<K, V>, ks: seq<K>, r0: Bijection<K, V>)
    requires Valid(other) && |ks| > 0 && ks[|ks| - 1] in other.forward
    requires Valid(r0) && Kept(b, other, ks[..|ks| - 1], r0) && NothingElse(b, other, ks[..|ks| - 1], r0)
    ensures NothingElse(b, other, ks, Set(r0, other.forward[ks[|ks| - 1]], ks[|ks| - 1]))
  {
    var n := |ks| - 1;
    var p := ks[..n];
    var k := ks[n];
    var o := other.forward[k];
    var r := Set(r0, o, k);
    LastMembership(ks);
    assert other.inverse[o] == k;
    forall k' | k' in r.forward
      ensures k' in ks || (k' in b.forward && Survives(b, other, ks, k'))
    {
      if k' != k && k' !in p {
        assert k' in r0.forward && r0.forward[k'] != o;
        assert k' in b.forward && Survives(b, other, p, k');
        assert r0.forward[k'] == b.forward[k'];
      }
    }
  }

  /**
   * `addEntriesFromDictionary:`: sets every pair of `other`, in `other`'s
   * order. Afterwards every pair of `other` is in the receiver, and of the
   * receiver's own pairs exactly those whose key and object both stay clear
   * of `other` remain.
   */
  function AddEntries<K, V>(b: Bijection<K, V>, other: Bijection<K, V>): (r: Bijection<K, V>)
    requires Valid(b) && Valid(other)
    ensures Valid(r)
    ensures forall k | k in other.forward :: k in r.forward && r.forward[k] == other.forward[k]
    ensures forall k | k in b.forward && k !in other.forward && b.forward[k] !in other.inverse ::
              k in r.forward && r.forward[k] == b.forward[k]
    ensures forall k | k in r.forward && k !in other.forward ::
              k in b.forward && b.forward[k] !in other.inverse && r.forward[k] == b.forward[k]
  {
    var r := SetAll(b, other, other.order);
    AllCopied(other, r);
    UnionKept(b, other, r);
    UnionNothingElse(b, other, r);
    r
  }

  lemma AllCopied<K, V>(other: Bijection<K, V>, r: Bijection<K, V>)
    requires Valid(other) && Copied(other, other.order, r)
    ensures forall k | k in other.forward :: k in r.forward && r.forward[k] == other.forward[k]
  {
    forall k | k in other.forward ensures k in r.forward && r.forward[k] == other.forward[k] {
      assert other.order[IndexOf(other.order, k)] == k;
    }
  }

  /**
   * `bijectiveDictionaryByAddingEntriesFromDictionary:`: a new dictionary
   * with every pair of `other`, plus each receiver pair whose key and object
   * both stay clear of `other`; nothing else.
   */
  function Union<K, V>(b: Bijection<K, V>, other: Bijection<K, V>): (r: Bijection<K, V>)
    requires Valid(b) && Valid(other)
    ensures Valid(r)
    ensures forall k | k in other.forward :: k in r.forward && r.forward[k] == other.forward[k]
    ensures forall k | k in b.forward && k !in other.forward && b.forward[k] !in other.inverse ::
              k in r.forward && r.forward[k] == b.forward[k]
    ensures forall k | k in r.forward && k !in other.forward ::
              k in b.forward && b.forward[k] !in other.inverse && r.forward[k] == b.forward[k]
  {
    AddEntries(b, other)
  }

  lemma UnionKept<K, V>(b: Bijection<K, V>, other: Bijection<K, V>, r: Bijection<K, V>)
    requires Valid(other) && Kept(b, other, other.order, r)
    ensures forall k | k in b.forward && k !in other.forward && b.forward[k] !in other.inverse ::
              k in r.forward && r.forward[k] == b.forward[k]
  {
    forall k | k in b.forward && k !in other.forward && b.forward[k] !in other.inverse
      ensures Survives(b, other, other.order, k)
    {
    }
  }

  lemma UnionNothingElse<K, V>(b: Bijection<K, V>, other: Bijection<K, V>, r: Bijection<K, V>)
    requires Valid(other) && Kept(b, other, other.order, r) && NothingElse(b, other, other.order, r)
    ensures forall k | k in r.forward && k !in other.forward ::
              k in b.forward && b.forward[k] !in other.inverse && r.forward[k] == b.forward[k]
  {
    forall k | k in r.forward && k !in other.forward
      ensures k in b.forward && b.forward[k] !in other.inverse && r.forward[k] == b.forward[k]
    {
      assert k !in other.order;
      assert Survives(b, other, other.order, k);
    }
  }

  /** The union with an empty dictionary has the receiver's contents. */
  lemma UnionWithEmpty<K, V>(b: Bijection<K, V>)
    requires Valid(b)
    ensures Union(b, Empty()).forward == b.forward
  {
    var r := Union(b, Empty());
    assert r.forward.Keys == b.forward.Keys;
  }

  /** The union of a dictionary with itself has the same contents. */
  lemma UnionWithSelf<K, V>(b: Bijection<K, V>)
    requires Valid(b)
    ensures Union(b, b).forward == b.forward
  {
    var r := Union(b, b);
    SameEntries(b.forward, r.forward);
  }

  /** Two maps with the same keys and the same value at each key are equal. */
  lemma SameEntries<X, Y>(m: map<X, Y>, n: map<X, Y>)
    requires forall x | x in m :: x in n && n[x] == m[x]
    requires forall x | x in n :: x in m
    ensures m == n
  {
    assert m.Keys == n.Keys;
  }

  /** Removes, one after the other, the keys listed in `ks`. */
  function RemoveAll<K, V>(b: Bijection<K, V>, ks: seq<K>): (r: Bijection<K, V>)
    requires Valid(b)
    ensures Valid(r)
    ensures forall k | k in r.forward :: k in b.forward && k !in ks && r.forward[k] == b.forward[k]
    ensures forall k | k in b.forward && k !in ks :: k in r.forward
    ensures r.order == Except(b.order, ks)
    decreases |ks|
  {
    if |ks| == 0 then
      ExceptNone(b.order, ks);
      b
    else
      var n := |ks| - 1;
      var r0 := RemoveAll(b, ks[..n]);
      RemoveAllStep(b, ks, r0);
      RemoveAllOrder(b, ks, r0);
      Remove(r0, ks[n])
  }

  lemma RemoveAllStep<K, V>(b: Bijection<K, V>, ks: seq<K>, r0: Bijection<K, V>)
    requires Valid(b) && Valid(r0) && |ks| > 0
    requires forall k | k in r0.forward :: k in b.forward && k !in ks[..|ks| - 1] && r0.forward[k] == b.forward[k]
    requires forall k | k in b.forward && k !in ks[..|ks| - 1] :: k in r0.forward
    ensures var r := Remove(r0, ks[|ks| - 1]);
            && (forall k | k in r.forward :: k in b.forward && k !in ks && r.forward[k] == b.forward[k])
            && (forall k | k in b.forward && k !in ks :: k in r.forward)
  {
    var n := |ks| - 1;
    assert ks == ks[..n] + [ks[n]];
  }

  /** Removing the last listed key keeps the surviving keys in their relative order. */
  lemma RemoveAllOrder<K, V>(b: Bijection<K, V>, ks: seq<K>, r0: Bijection<K, V>)
    requires Valid(r0) && |ks| > 0 && r0.order == Except(b.order, ks[..|ks| - 1])
    ensures Remove(r0, ks[|ks| - 1]).order == Except(b.order, ks)
  {
    var k := ks[|ks| - 1];
    ExceptLast(b.order, ks);
    WithoutIsExcept(r0.order, k);
    if k !in r0.forward {
      assert k !in Elements(r0.order);
    }
  }

  /**
   * `removeEntriesFromDictionary:`: removes every key of `other`; the
   * entries whose keys `other` lacks stay as they were, in the same
   * relative order.
   */
  function RemoveEntries<K, V>(b: Bijection<K, V>, other: Bijection<K, V>): (r: Bijection<K, V>)
    requires Valid(b) && Valid(other)
    ensures Valid(r)
    ensures forall k | k in r.forward :: k in b.forward && k !in other.forward && r.forward[k] == b.forward[k]
    ensures forall k | k in b.forward && k !in other.forward :: k in r.forward
    ensures r.order == Except(b.order, other.order)
  {
    RemoveAll(b, other.order)
  }

  /** `removeAllObjects`: empties the dictionary. */
  function RemoveAllObjects<K, V>(b: Bijection<K, V>): (r: Bijection<K, V>)
    ensures Valid(r) && Count(r) == 0 && r.order == [] && r.inverse == map[]
  {
    Empty()
  }

  /** Removing the entries of the receiver itself is the same as removing all objects. */
  lemma RemoveOwnEntries<K, V>(b: Bijection<K, V>)
    requires Valid(b)
    ensures RemoveEntries(b, b) == RemoveAllObjects(b)
  {
    var r := RemoveEntries(b, b);
    assert r.forward == map[];
    assert |r.order| == 0;
    assert r.inverse == map[];
  }

  /**
   * `isEqualToBijectiveDictionary:`: the counts agree and every key of the
   * receiver maps to the same object in `other`. The order is not compared.
   */
  function IsEqual<K, V>(a: Bijection<K, V>, b: Bijection<K, V>): (r: bool)
    ensures r <==> a.forward == b.forward
  {
    var r := Count(a) == Count(b) && forall k | k in a.forward :: k in b.forward && a.forward[k] == b.forward[k];
    if r then
      SubsetOfSameSize(a.forward.Keys, b.forward.Keys);
      r
    else r
  }

  lemma SubsetOfSameSize<T>(s: set<T>, t: set<T>)
    requires s <= t && |s| == |t|
    ensures s == t
  {
    assert |t - s| == |t| - |s|;
  }

  /** Content equality is reflexive and symmetric. */
  lemma IsEqualReflexiveSymmetric<K, V>(a: Bijection<K, V>, b: Bijection<K, V>)
    ensures IsEqual(a, a)
    ensures IsEqual(a, b) == IsEqual(b, a)
  {
  }

  /** `keyAtIndex:`: the key at `index`; NSRangeException from `count` on. */
  function KeyAtIndex<K, V>(b: Bijection<K, V>, index: nat): (r: Result<K>)
    requires Valid(b)
    ensures r.Failure? <==> index >= Count(b)
    ensures r.Failure? ==> r.error == Range
    ensures r.Success? ==> r.value in Keys(b) && r.value == OrderedKeys(b)[index]
  {
    if index < |b.order| then Success(b.order[index]) else Failure(Range)
  }

  /** `indexOfKey:`: the position of `k` in the order, or NSNotFound (None). */
  function IndexOfKey<K, V>(b: Bijection<K, V>, k: K): (r: Option<nat>)
    requires Valid(b)
    ensures r.None? <==> k !in Keys(b)
    ensures r.Some? ==> r.value < Count(b) && OrderedKeys(b)[r.value] == k
    ensures r.Some? ==> forall j | 0 <= j < Count(b) && OrderedKeys(b)[j] == k :: j == r.value
  {
    if k in b.order then Some(IndexOf(b.order, k)) else None
  }

  /** `indexOfKey:` undoes `keyAtIndex:` and vice versa. */
  lemma KeyIndexRoundTrip<K, V>(b: Bijection<K, V>, index: nat, k: K)
    requires Valid(b)
    ensures index < Count(b) ==> IndexOfKey(b, KeyAtIndex(b, index).value) == Some(index)
    ensures IndexOfKey(b, k) == Some(index) ==> KeyAtIndex(b, index) == Success(k)
  {
    if index < Count(b) {
      IndexOfUnique(b.order, index);
    }
  }

  /** Block enumeration: visits exactly the entries, in order, once each. */
  method Enumerate<K, V>(b: Bijection<K, V>) returns (entries: seq<(K, V)>)
    requires Valid(b)
    ensures |entries| == Count(b)
    ensures forall i | 0 <= i < |entries| ::
              entries[i].0 == b.order[i] && entries[i].0 in b.forward && entries[i].1 == b.forward[entries[i].0]
    ensures forall k | k in b.forward :: (k, b.forward[k]) in entries
  {
    entries := [];
    var i := 0;
    while i < |b.order|
      invariant i <= |b.order|
      invariant |entries| == i
      invariant forall j | 0 <= j < i ::
                  entries[j].0 == b.order[j] && entries[j].0 in b.forward && entries[j].1 == b.forward[entries[j].0]
    {
      var k := b.order[i];
      entries := entries + [(k, b.forward[k])];
      i := i + 1;
    }
    forall k | k in b.forward ensures (k, b.forward[k]) in entries {
      assert entries[IndexOf(b.order, k)] == (k, b.forward[k]);
    }
  }
}
