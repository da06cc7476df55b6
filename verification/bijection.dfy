/**
 * The immutable bijective dictionary: a key -> object map, its inverse
 * object -> key map and the position order of the keys. The unordered
 * variants have the same state; they do not expose the order through
 * `orderedKeys` or an index, but their enumeration and bulk operations
 * follow it.
 */
module Bijections {
  import opened Wrappers
  import opened Sequences

  datatype Bijection<K, V> = Bijection(forward: map<K, V>, inverse: map<V, K>, order: seq<K>)

  /** Every entry of `f` is undone by `g`. */
  ghost predicate Undoes<K, V>(f: map<K, V>, g: map<V, K>) {
    forall k | k in f :: f[k] in g && g[f[k]] == k
  }

  /** The representation invariant every dictionary keeps between calls. */
  ghost predicate Valid<K, V>(b: Bijection<K, V>) {
    // the two maps are mutual inverses of the same size
    && Undoes(b.forward, b.inverse)
    && Undoes(b.inverse, b.forward)
    && |b.forward| == |b.inverse|
    // the order lists every key exactly once
    && |b.order| == |b.forward|
    && Distinct(b.order)
    && Elements(b.order) == b.forward.Keys
  }

  /** The dictionary with no entries. */
  function Empty<K, V>(): (b: Bijection<K, V>)
    ensures Valid(b) && Count(b) == 0 && b.order == []
  {
    Bijection(map[], map[], [])
  }

  /** The number of entries (`count`). */
  function Count<K, V>(b: Bijection<K, V>): (n: nat)
    ensures Valid(b) ==> n == |b.inverse| && n == |b.order|
  {
    |b.forward|
  }

  /** The set of keys (`keys`). */
  function Keys<K, V>(b: Bijection<K, V>): (ks: set<K>)
    ensures Valid(b) ==> |ks| == Count(b) && ks == Elements(b.order)
  {
    b.forward.Keys
  }

  /** The set of objects (`objects`). */
  function Objects<K, V>(b: Bijection<K, V>): (os: set<V>)
    ensures Valid(b) ==> |os| == Count(b)
    ensures Valid(b) ==> forall k | k in b.forward :: b.forward[k] in os
    ensures Valid(b) ==> forall v | v in os :: v in b.inverse && b.inverse[v] in b.forward && b.forward[b.inverse[v]] == v
  {
    b.inverse.Keys
  }

  /** The keys in order (`orderedKeys`). */
  function OrderedKeys<K, V>(b: Bijection<K, V>): (ks: seq<K>)
    ensures Valid(b) ==> |ks| == Count(b) && Distinct(ks)
    ensures Valid(b) ==> forall i | 0 <= i < |ks| :: ks[i] in b.forward
  {
    b.order
  }

  /** The objects in the order of their keys (`orderedObjects`). */
  function OrderedObjects<K, V>(b: Bijection<K, V>): (s: seq<V>)
    requires Valid(b)
    ensures |s| == |b.order|
    ensures forall i | 0 <= i < |s| :: b.order[i] in b.forward && s[i] == b.forward[b.order[i]]
    ensures Distinct(s)
    ensures Elements(s) == b.inverse.Keys
  {
    var s := seq(|b.order|, i requires 0 <= i < |b.order| => b.forward[b.order[i]]);
    ObjectsDistinct(b, s);
    ObjectsElements(b, s);
    s
  }

  lemma ObjectsDistinct<K, V>(b: Bijection<K, V>, s: seq<V>)
    requires Valid(b) && |s| == |b.order|
    requires forall i | 0 <= i < |s| :: b.order[i] in b.forward && s[i] == b.forward[b.order[i]]
    ensures Distinct(s)
  {
    forall i, j | 0 <= i < j < |s| ensures s[i] != s[j] {
      assert b.inverse[s[i]] == b.order[i] && b.inverse[s[j]] == b.order[j];
    }
  }

  lemma ObjectsElements<K, V>(b: Bijection<K, V>, s: seq<V>)
    requires Valid(b) && |s| == |b.order|
    requires forall i | 0 <= i < |s| :: b.order[i] in b.forward && s[i] == b.forward[b.order[i]]
    ensures Elements(s) == b.inverse.Keys
  {
    forall v | v in b.inverse ensures v in s {
      var i := IndexOf(b.order, b.inverse[v]);
      assert s[i] == v;
    }
  }

  /** The object for key `k`, or nil (`objectForKeyedSubscript:`). */
  function Get<K, V>(b: Bijection<K, V>, k: K): (r: Option<V>)
    requires Valid(b)
    ensures r.Some? <==> k in Keys(b)
    ensures r.Some? ==> r.value in Objects(b) && b.inverse[r.value] == k
    ensures r.Some? ==> b.forward[k] == r.value
  {
    if k in b.forward then Some(b.forward[k]) else None
  }

  /** The dictionary with keys and objects swapped (`inverse`); its order is `orderedObjects`. */
  function Inverse<K, V>(b: Bijection<K, V>): (r: Bijection<V, K>)
    requires Valid(b)
    ensures Valid(r)
    ensures Count(r) == Count(b)
    ensures forall k | k in b.forward :: b.forward[k] in r.forward && r.forward[b.forward[k]] == k
    ensures forall v | v in r.forward :: r.forward[v] in b.forward && b.forward[r.forward[v]] == v
    ensures r.order == OrderedObjects(b)
  {
    Bijection(b.inverse, b.forward, OrderedObjects(b))
  }

  /**
   * Installs a pair whose key and object are both absent at position `p` of
   * the order; the keys at `p` and beyond move up by one.
   */
  function Insert<K, V>(b: Bijection<K, V>, o: V, k: K, p: nat): (r: Bijection<K, V>)
    requires Valid(b) && k !in b.forward && o !in b.inverse && p <= |b.order|
    ensures Valid(r)
    ensures k in r.forward && r.forward[k] == o
    ensures forall k' | k' in r.forward && k' != k :: k' in b.forward
    ensures forall k' | k' in b.forward :: k' in r.forward && r.forward[k'] == b.forward[k']
    ensures forall v | v in r.inverse && v != o :: v in b.inverse
    ensures Count(r) == Count(b) + 1
    ensures r.order == InsertAt(b.order, p, k)
  {
    InsertKeepsValid(b, o, k, p);
    Bijection(b.forward[k := o], b.inverse[o := k], InsertAt(b.order, p, k))
  }

  lemma InsertKeepsValid<K, V>(b: Bijection<K, V>, o: V, k: K, p: nat)
    requires Valid(b) && k !in b.forward && o !in b.inverse && p <= |b.order|
    ensures Valid(Bijection(b.forward[k := o], b.inverse[o := k], InsertAt(b.order, p, k)))
  {
    InsertKeepsOrder(b, o, k, p);
    UndoesUpdate(b.forward, b.inverse, o, k);
    UndoesUpdate(b.inverse, b.forward, k, o);
  }

  lemma InsertKeepsOrder<K, V>(b: Bijection<K, V>, o: V, k: K, p: nat)
    requires Valid(b) && k !in b.forward && o !in b.inverse && p <= |b.order|
    ensures Distinct(InsertAt(b.order, p, k))
    ensures Elements(InsertAt(b.order, p, k)) == b.forward[k := o].Keys
  {
    InsertAtElements(b.order, p, k);
  }

  lemma UndoesUpdate<K, V>(f: map<K, V>, g: map<V, K>, o: V, k: K)
    requires Undoes(f, g) && k !in f && o !in g
    ensures Undoes(f[k := o], g[o := k])
  {
  }

  /**
   * Pairs `keys[i]` with `objects[i]` for every `i`, keeping the keys' order
   * (what `initWithObjects:keys:` builds once the lengths agree).
   */
  function Pair<K, V>(objects: seq<V>, keys: seq<K>): (b: Bijection<K, V>)
    requires |objects| == |keys| && Distinct(objects) && Distinct(keys)
    ensures Valid(b)
    ensures b.order == keys
    ensures Count(b) == |keys|
    ensures forall i | 0 <= i < |keys| :: keys[i] in b.forward && b.forward[keys[i]] == objects[i]
  {
    var b := Bijection(Zip(keys, objects), Zip(objects, keys), keys);
    PairValid(objects, keys);
    b
  }

  /** The map sending `xs[i]` to `ys[i]`. */
  function Zip<X, Y>(xs: seq<X>, ys: seq<Y>): (m: map<X, Y>)
    requires |xs| == |ys| && Distinct(xs)
    ensures m.Keys == Elements(xs)
    ensures forall i | 0 <= i < |xs| :: m[xs[i]] == ys[i]
  {
    var m := map i | 0 <= i < |xs| :: xs[i] := ys[i];
    assert forall x | x in m :: x in xs;
    m
  }

  lemma PairValid<K, V>(objects: seq<V>, keys: seq<K>)
    requires |objects| == |keys| && Distinct(objects) && Distinct(keys)
    ensures Valid(Bijection(Zip(keys, objects), Zip(objects, keys), keys))
    ensures |Zip(keys, objects)| == |keys|
  {
    var f := Zip(keys, objects);
    var g := Zip(objects, keys);
    assert Undoes(f, g) by {
      forall k | k in f ensures f[k] in g && g[f[k]] == k {
        var i := IndexOf(keys, k);
        assert f[k] == objects[i];
      }
    }
    assert Undoes(g, f) by {
      forall v | v in g ensures g[v] in f && f[g[v]] == v {
        var i := IndexOf(objects, v);
        assert g[v] == keys[i];
      }
    }
    DistinctCardinality(keys);
    DistinctCardinality(objects);
    assert |f| == |f.Keys|;
  }

  /**
   * `initWithObjects:keys:`: the two ordered sets (nil counts as empty) must
   * have the same number of elements, otherwise NSInvalidArgumentException.
   */
  function InitWithObjects<K, V>(objects: Option<seq<V>>, keys: Option<seq<K>>): (r: Result<Bijection<K, V>>)
    requires objects.Some? ==> Distinct(objects.value)
    requires keys.Some? ==> Distinct(keys.value)
    ensures var os := if objects.Some? then objects.value else [];
            var ks := if keys.Some? then keys.value else [];
            && (r.Failure? <==> |os| != |ks|)
            && (r.Failure? ==> r.error == InvalidArgument)
            && (r.Success? ==> && Valid(r.value) && Count(r.value) == |ks| && r.value.order == ks
                               && forall i | 0 <= i < |ks| :: Get(r.value, ks[i]) == Some(os[i]))
  {
    var os := if objects.Some? then objects.value else [];
    var ks := if keys.Some? then keys.value else [];
    if |os| != |ks| then Failure(InvalidArgument) else Success(Pair(os, ks))
  }

  /** The ordered sets a dictionary was built from read back unchanged. */
  lemma PairRoundTrip<K, V>(objects: seq<V>, keys: seq<K>)
    requires |objects| == |keys| && Distinct(objects) && Distinct(keys)
    ensures OrderedKeys(Pair(objects, keys)) == keys
    ensures OrderedObjects(Pair(objects, keys)) == objects
  {
    var b := Pair(objects, keys);
    var s := OrderedObjects(b);
    forall i | 0 <= i < |s| ensures s[i] == objects[i] {
      assert b.order[i] == keys[i];
    }
    Pointwise(s, objects);
  }

  /** In a valid dictionary `count`, `keys`, `objects` and `orderedKeys` all agree in size. */
  lemma CountAgrees<K, V>(b: Bijection<K, V>)
    requires Valid(b)
    ensures |Keys(b)| == Count(b)
    ensures |Objects(b)| == Count(b)
    ensures |OrderedKeys(b)| == Count(b)
    ensures Objects(b) == b.forward.Values
  {
    DistinctCardinality(b.order);
    assert Elements(b.order) == b.forward.Keys;
  }

  /** `inverse[v] == k` exactly when `self[k] == v`. */
  lemma InverseLookup<K, V>(b: Bijection<K, V>, k: K, v: V)
    requires Valid(b)
    ensures Get(Inverse(b), v) == Some(k) <==> Get(b, k) == Some(v)
  {
  }

  /** Inverting twice gives back the same dictionary, order included. */
  lemma InverseInvolution<K, V>(b: Bijection<K, V>)
    requires Valid(b)
    ensures Inverse(Inverse(b)) == b
  {
    var r := Inverse(Inverse(b));
    assert r.order == b.order;
  }

  /** `orderedKeys` of the inverse is `orderedObjects` of the receiver, and vice versa. */
  lemma InverseOrder<K, V>(b: Bijection<K, V>)
    requires Valid(b)
    ensures OrderedKeys(Inverse(b)) == OrderedObjects(b)
    ensures OrderedObjects(Inverse(b)) == OrderedKeys(b)
  {
    InverseInvolution(b);
  }
}
