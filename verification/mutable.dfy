/**
 * The mutating operations of the mutable (ordered) bijective dictionary,
 * as pure functions from the old state to the new one.
 */
module Mutable {
  import opened Wrappers
  import opened Sequences
  import opened Bijections

  /**
   * `removeObjectForKey:`: drops `k` and its object from both directions and
   * splices `k` out of the order; a no-op when `k` is absent.
   */
  function Remove<K, V>(b: Bijection<K, V>, k: K): (r: Bijection<K, V>)
    requires Valid(b)
    ensures Valid(r)
    ensures k !in r.forward
    ensures k in b.forward ==> b.forward[k] !in r.inverse
    ensures forall k' | k' in b.forward && k' != k :: k' in r.forward && r.forward[k'] == b.forward[k']
    ensures forall k' | k' in r.forward :: k' in b.forward
    ensures forall v | v in r.inverse :: v in b.inverse
    ensures k !in b.forward ==> r == b
    ensures k in b.forward ==> Count(r) == Count(b) - 1 && r.order == Without(b.order, k)
  {
    if k !in b.forward then b
    else
      RemoveKeepsValid(b, k);
      Bijection(b.forward - {k}, b.inverse - {b.forward[k]}, Without(b.order, k))
  }

  lemma RemoveKeepsValid<K, V>(b: Bijection<K, V>, k: K)
    requires Valid(b) && k in b.forward
    ensures Valid(Bijection(b.forward - {k}, b.inverse - {b.forward[k]}, Without(b.order, k)))
    ensures |b.forward - {k}| == |b.forward| - 1
  {
    WithoutElements(b.order, k);
    var v := b.forward[k];
    assert (b.forward - {k}).Keys == b.forward.Keys - {k};
    assert (b.inverse - {v}).Keys == b.inverse.Keys - {v};
  }

  lemma UpdateThenRemove<X, Y>(m: map<X, Y>, x: X, y: Y)
    requires x !in m
    ensures m[x := y] - {x} == m
  {
  }

  lemma RemoveThenUpdate<X, Y>(m: map<X, Y>, x: X, y: Y)
    requires x in m && m[x] == y
    ensures (m - {x})[x := y] == m
  {
  }

  /** Removing a key moves every key after it down by one position. */
  lemma RemoveShiftsOrder<K, V>(b: Bijection<K, V>, k: K)
    requires Valid(b) && k in b.forward
    ensures var i := IndexOf(b.order, k);
            var r := Remove(b, k).order;
            && |r| == |b.order| - 1
            && (forall j | 0 <= j < i :: r[j] == b.order[j])
            && (forall j | i <= j < |r| :: r[j] == b.order[j + 1])
  {
    RemoveAtShifts(b.order, IndexOf(b.order, k));
  }

  /** The receiver without the entry of a key other than `k` that holds `o`. */
  function DropHolder<K, V>(b: Bijection<K, V>, o: V, k: K): (r: Bijection<K, V>)
    requires Valid(b)
    ensures Valid(r)
  {
    if o in b.inverse && b.inverse[o] != k then Remove(b, b.inverse[o]) else b
  }

  /**
   * Frees both `k` and `o` for a new pair: first the entry of another key
   * that holds `o` goes, then `k`'s own entry.
   */
  function Evict<K, V>(b: Bijection<K, V>, o: V, k: K): (r: Bijection<K, V>)
    requires Valid(b)
    ensures Valid(r)
    ensures k !in r.forward && o !in r.inverse
    ensures forall k' | k' in r.forward :: k' in b.forward && r.forward[k'] == b.forward[k']
    ensures forall k' | k' in b.forward && k' != k && b.forward[k'] != o :: k' in r.forward
    ensures Count(r) <= Count(b)
  {
    Remove(DropHolder(b, o, k), k)
  }

  /**
   * Where the plain set puts the pair in the order. The header only says the
   * new mapping "takes the previous mapping's place"; this model decides:
   * - when `k` is already a key, the pair stays at `k`'s place (the entry of
   *   another key holding `o` is spliced out of the order);
   * - when only `o` is present, `k` takes the slot of the key that held `o`;
   * - otherwise the pair is appended.
   */
  function Place<K, V>(b: Bijection<K, V>, o: V, k: K): (p: nat)
    requires Valid(b)
    ensures p <= |b.order|
    ensures k in b.forward ==>
              var d := DropHolder(b, o, k).order;
              p < |d| && d[p] == k
    ensures k !in b.forward && o in b.inverse ==> p < |b.order| && b.order[p] == b.inverse[o]
    ensures k !in b.forward && o !in b.inverse ==> p == |b.order|
  {
    if k in b.forward then
      assert k in DropHolder(b, o, k).order;
      IndexOf(DropHolder(b, o, k).order, k)
    else if o in b.inverse then IndexOf(b.order, b.inverse[o])
    else |b.order|
  }

  lemma PlaceFits<K, V>(b: Bijection<K, V>, o: V, k: K)
    requires Valid(b)
    ensures Place(b, o, k) <= |Evict(b, o, k).order|
  {
    var d := DropHolder(b, o, k);
    if k in b.forward {
      assert k in d.forward;
      assert |Evict(b, o, k).order| == |d.order| - 1;
    } else if o in b.inverse {
      assert Evict(b, o, k) == d;
      assert |d.order| == |b.order| - 1;
    }
  }

  /**
   * `setObject:forKeyedSubscript:`: installs `k -> o`, evicting the previous
   * object of `k` and the previous key of `o`.
   */
  function Set<K, V>(b: Bijection<K, V>, o: V, k: K): (r: Bijection<K, V>)
    requires Valid(b)
    ensures Valid(r)
    ensures k in r.forward && r.forward[k] == o
    ensures forall k' | k' in r.forward && k' != k :: k' in b.forward && r.forward[k'] == b.forward[k'] && b.forward[k'] != o
    ensures forall k' | k' in b.forward && k' != k && b.forward[k'] != o :: k' in r.forward
    ensures o in b.inverse && b.inverse[o] != k ==> b.inverse[o] !in r.forward
    ensures k in b.forward && b.forward[k] != o ==> b.forward[k] !in r.inverse
  {
    PlaceFits(b, o, k);
    Insert(Evict(b, o, k), o, k, Place(b, o, k))
  }

  /**
   * `setObject:forKey:atIndex:`. The header asks for an index not greater
   * than the count; this model checks it against the count BEFORE any
   * eviction (the count the caller sees) and raises NSRangeException beyond
   * it. When the eviction shortened the order below `index`, the pair is
   * appended.
   */
  function SetAtIndex<K, V>(b: Bijection<K, V>, o: V, k: K, index: nat): (r: Result<Bijection<K, V>>)
    requires Valid(b)
    ensures r.Failure? <==> index > Count(b)
    ensures r.Failure? ==> r.error == Range
    ensures r.Success? ==> Valid(r.value)
    ensures r.Success? ==> r.value.forward == Set(b, o, k).forward && r.value.inverse == Set(b, o, k).inverse
  {
    if index > Count(b) then Failure(Range)
    else
      var e := Evict(b, o, k);
      Success(Insert(e, o, k, Min(index, |e.order|)))
  }

  /** Where the plain set leaves the order, case by case (see Place). */
  lemma SetOrder<K, V>(b: Bijection<K, V>, o: V, k: K)
    requires Valid(b)
    ensures k in b.forward && o in b.inverse && b.inverse[o] != k ==>
              Set(b, o, k).order == Without(b.order, b.inverse[o])
    ensures k in b.forward && !(o in b.inverse && b.inverse[o] != k) ==>
              Set(b, o, k).order == b.order
    ensures k !in b.forward && o in b.inverse ==>
              Set(b, o, k).order == b.order[IndexOf(b.order, b.inverse[o]) := k]
    ensures k !in b.forward && o !in b.inverse ==>
              Set(b, o, k).order == b.order + [k]
  {
    if k in b.forward {
      SetOrderKeyPresent(b, o, k);
    } else if o in b.inverse {
      SetOrderObjectPresent(b, o, k);
    } else {
      FreshSetAppends(b, o, k);
      InsertAtEnd(b.order, k);
    }
  }

  lemma SetOrderKeyPresent<K, V>(b: Bijection<K, V>, o: V, k: K)
    requires Valid(b) && k in b.forward
    ensures Set(b, o, k).order == DropHolder(b, o, k).order
  {
    var d := DropHolder(b, o, k);
    assert k in d.forward;
    assert Set(b, o, k) == Insert(Remove(d, k), o, k, IndexOf(d.order, k));
    ReinsertWithout(d.order, k);
  }

  lemma SetOrderObjectPresent<K, V>(b: Bijection<K, V>, o: V, k: K)
    requires Valid(b) && k !in b.forward && o in b.inverse
    ensures Set(b, o, k).order == b.order[IndexOf(b.order, b.inverse[o]) := k]
  {
    var h := b.inverse[o];
    var d := Remove(b, h);
    assert Evict(b, o, k) == d;
    assert Set(b, o, k) == Insert(d, o, k, IndexOf(b.order, h));
    ReplaceWithout(b.order, h, k);
  }

  /** Setting a pair that is already present changes nothing. */
  lemma SetPresentPair<K, V>(b: Bijection<K, V>, o: V, k: K)
    requires Valid(b) && k in b.forward && b.forward[k] == o
    ensures Set(b, o, k) == b
  {
    SetOrder(b, o, k);
    assert Set(b, o, k) == Insert(Remove(b, k), o, k, Place(b, o, k));
    RemoveThenUpdate(b.forward, k, o);
    RemoveThenUpdate(b.inverse, o, k);
  }

  /** Setting the same pair twice is the same as setting it once. */
  lemma SetIdempotent<K, V>(b: Bijection<K, V>, o: V, k: K)
    requires Valid(b)
    ensures Set(Set(b, o, k), o, k) == Set(b, o, k)
  {
    SetPresentPair(Set(b, o, k), o, k);
  }

  /** Removing a freshly set key gives back the receiver. */
  lemma RemoveUndoesFreshSet<K, V>(b: Bijection<K, V>, o: V, k: K)
    requires Valid(b) && k !in b.forward && o !in b.inverse
    ensures Remove(Set(b, o, k), k) == b
  {
    FreshSetAppends(b, o, k);
    RemoveUndoesAppend(b, o, k);
  }

  lemma FreshSetAppends<K, V>(b: Bijection<K, V>, o: V, k: K)
    requires Valid(b) && k !in b.forward && o !in b.inverse
    ensures Set(b, o, k) == Insert(b, o, k, |b.order|)
  {
    assert Evict(b, o, k) == b;
  }

  lemma RemoveUndoesAppend<K, V>(b: Bijection<K, V>, o: V, k: K)
    requires Valid(b) && k !in b.forward && o !in b.inverse
    ensures Remove(Insert(b, o, k, |b.order|), k) == b
  {
    InsertAtEnd(b.order, k);
    WithoutLast(b.order, k);
    UpdateThenRemove(b.forward, k, o);
    UpdateThenRemove(b.inverse, o, k);
  }

  /**
   * The positional set puts `k` at `min(index, n)` of the evicted order (of
   * length `n`): keys before it stay, keys from it on move up by one.
   */
  lemma SetAtIndexShifts<K, V>(b: Bijection<K, V>, o: V, k: K, index: nat)
    requires Valid(b) && index <= Count(b)
    ensures var e := Evict(b, o, k).order;
            var p := Min(index, |e|);
            var r := SetAtIndex(b, o, k, index).value.order;
            && |r| == |e| + 1
            && r[p] == k
            && (forall j | 0 <= j < p :: r[j] == e[j])
            && (forall j | p <= j < |e| :: r[j + 1] == e[j])
  {
    var e := Evict(b, o, k);
    var p := Min(index, |e.order|);
    assert SetAtIndex(b, o, k, index) == Success(Insert(e, o, k, p));
    InsertAtShifts(e.order, p, k);
  }

  /**
   * The header's promise for a new key and a new object: `k` lands exactly
   * at `index`, the entries at `index` and beyond each move up by one.
   */
  lemma SetAtIndexFresh<K, V>(b: Bijection<K, V>, o: V, k: K, index: nat)
    requires Valid(b) && k !in b.forward && o !in b.inverse && index <= Count(b)
    ensures var r := SetAtIndex(b, o, k, index).value;
            && Count(r) == Count(b) + 1
            && r.order[index] == k
            && (forall j | 0 <= j < index :: r.order[j] == b.order[j])
            && (forall j | index <= j < |b.order| :: r.order[j + 1] == b.order[j])
  {
    CountAgrees(b);
    assert Evict(b, o, k) == b;
    SetAtIndexShifts(b, o, k, index);
  }

  /** Setting an existing pair at an index moves it there without duplicating it. */
  lemma SetAtIndexMoves<K, V>(b: Bijection<K, V>, o: V, k: K, index: nat)
    requires Valid(b) && k in b.forward && b.forward[k] == o && index <= Count(b)
    ensures var r := SetAtIndex(b, o, k, index).value;
            var rest := Without(b.order, k);
            && r.forward == b.forward
            && r.order == InsertAt(rest, Min(index, |rest|), k)
  {
    SetPresentPair(b, o, k);
    assert Evict(b, o, k) == Remove(b, k);
  }

  /** The plain set is the positional set at Place. */
  lemma SetIsSetAtPlace<K, V>(b: Bijection<K, V>, o: V, k: K)
    requires Valid(b)
    ensures Place(b, o, k) <= Count(b)
    ensures SetAtIndex(b, o, k, Place(b, o, k)) == Success(Set(b, o, k))
  {
    PlaceFits(b, o, k);
  }

  function Min(a: nat, b: nat): nat {
    if a <= b then a else b
  }
}
