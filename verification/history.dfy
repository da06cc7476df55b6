/**
 * Any sequence of mutations of the mutable ordered dictionary keeps the
 * representation invariant, so the order stays a duplicate-free listing of
 * exactly the current keys and positional lookup stays consistent.
 */
module Histories {
  import opened Wrappers
  import opened Sequences
  import opened Bijections
  import opened Mutable
  import opened Convenience

  /** One call on a mutable ordered dictionary. */
  datatype Mutation<K, V> =
    | SetPair(o: V, k: K)
    | SetPairAt(o: V, k: K, index: nat)
    | RemoveKey(k: K)
    | AddEntriesOf(entries: Bijection<K, V>)
    | RemoveEntriesOf(entries: Bijection<K, V>)
    | RemoveEverything

  /** The argument dictionaries of a mutation are themselves valid. */
  ghost predicate WellFormed<K, V>(m: Mutation<K, V>) {
    match m
    case AddEntriesOf(e) => Valid(e)
    case RemoveEntriesOf(e) => Valid(e)
    case _ => true
  }

  /** Performs one mutation; a positional set past the count raises NSRangeException and changes nothing. */
  function Apply<K, V>(b: Bijection<K, V>, m: Mutation<K, V>): (r: Result<Bijection<K, V>>)
    requires Valid(b) && WellFormed(m)
    ensures r.Success? ==> Valid(r.value)
    ensures r.Failure? <==> m.SetPairAt? && m.index > Count(b)
  {
    match m
    case SetPair(o, k) => Success(Set(b, o, k))
    case SetPairAt(o, k, index) => SetAtIndex(b, o, k, index)
    case RemoveKey(k) => Success(Remove(b, k))
    case AddEntriesOf(e) => Success(AddEntries(b, e))
    case RemoveEntriesOf(e) => Success(RemoveEntries(b, e))
    case RemoveEverything => Success(RemoveAllObjects(b))
  }

  /** Performs the mutations in turn, stopping at the first exception. */
  function ApplyAll<K, V>(b: Bijection<K, V>, ms: seq<Mutation<K, V>>): (r: Result<Bijection<K, V>>)
    requires Valid(b)
    requires forall i | 0 <= i < |ms| :: WellFormed(ms[i])
    ensures r.Success? ==> Valid(r.value)
    ensures r.Failure? ==> r.error == Range
    decreases |ms|
  {
    if |ms| == 0 then Success(b)
    else
      var r0 := Apply(b, ms[0]);
      if r0.Failure? then r0 else ApplyAll(r0.value, ms[1..])
  }

  /**
   * After any history of mutations the order lists every key exactly once,
   * and `indexOfKey:` and `keyAtIndex:` undo each other at every position.
   */
  lemma HistoryKeepsOrder<K, V>(b: Bijection<K, V>, ms: seq<Mutation<K, V>>)
    requires Valid(b)
    requires forall i | 0 <= i < |ms| :: WellFormed(ms[i])
    ensures var r := ApplyAll(b, ms);
            r.Success? ==>
              && Distinct(OrderedKeys(r.value))
              && Elements(OrderedKeys(r.value)) == Keys(r.value)
              && |Keys(r.value)| == Count(r.value) && |Objects(r.value)| == Count(r.value)
              && forall i | 0 <= i < Count(r.value) :: IndexOfKey(r.value, KeyAtIndex(r.value, i).value) == Some(i)
  {
    var r := ApplyAll(b, ms);
    if r.Success? {
      CountAgrees(r.value);
      forall i | 0 <= i < Count(r.value)
        ensures IndexOfKey(r.value, KeyAtIndex(r.value, i).value) == Some(i)
      {
        KeyIndexRoundTrip(r.value, i, r.value.order[i]);
      }
    }
  }
}
