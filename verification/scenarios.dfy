/**
 * Walk-throughs of the documented behaviour on small dictionaries. The keys
 * are arbitrary; the objects are small integers.
 */
module Scenarios {
  import opened Wrappers
  import opened Sequences
  import opened Bijections
  import opened Mutable
  import opened Convenience

  /** Setting d -> 4 at index 1 of the order [a, b, c] gives [a, d, b, c]. */
  lemma PositionalInsert<K>(b: Bijection<K, int>, ka: K, kb: K, kc: K, kd: K)
    requires Valid(b) && |b.order| == 3 && b.order[0] == ka && b.order[1] == kb && b.order[2] == kc && kd !in b.forward && 4 !in b.inverse
    ensures var r := SetAtIndex(b, 4, kd, 1);
            && r.Success?
            && OrderedKeys(r.value) == [ka, kd, kb, kc]
            && KeyAtIndex(r.value, 1) == Success(kd)
            && IndexOfKey(r.value, kb) == Some(2)
            && Get(r.value, kd) == Some(4)
  {
    SetAtIndexFresh(b, 4, kd, 1);
    var r := SetAtIndex(b, 4, kd, 1).value;
    ListsFour(r.order, ka, kd, kb, kc);
    IndexOfUnique(r.order, 2);
  }

  /**
   * Re-setting the pair of a at index 2 of [a, b, c, d] gives [b, c, a, d]:
   * the index counts in the order after a has left it, so c moves down from
   * position 2 to position 1.
   */
  lemma MoveForward<K>(b: Bijection<K, int>, ka: K, kb: K, kc: K, kd: K)
    requires Valid(b) && |b.order| == 4
    requires b.order[0] == ka && b.order[1] == kb && b.order[2] == kc && b.order[3] == kd
    requires Get(b, ka) == Some(1)
    ensures var r := SetAtIndex(b, 1, ka, 2);
            && r.Success?
            && OrderedKeys(r.value) == [kb, kc, ka, kd]
            && IndexOfKey(r.value, kc) == Some(1)
  {
    SetAtIndexMoves(b, 1, ka, 2);
    IndexOfUnique(b.order, 0);
    var rest := Without(b.order, ka);
    RemoveAtShifts(b.order, 0);
    InsertAtShifts(rest, 2, ka);
    var r := SetAtIndex(b, 1, ka, 2).value;
    assert r.order == InsertAt(rest, 2, ka);
    ListsFour(r.order, kb, kc, ka, kd);
    IndexOfUnique(r.order, 1);
  }

  /** With three keys, position 3 holds no key, and a positional set accepts 3 but not 4. */
  lemma OutOfRange<K>(b: Bijection<K, int>, kd: K)
    requires Valid(b) && Count(b) == 3
    ensures KeyAtIndex(b, 3) == Failure(Range)
    ensures SetAtIndex(b, 4, kd, 4) == Failure(Range)
    ensures SetAtIndex(b, 4, kd, 3).Success?
  {
  }

  /** For a -> 1, b -> 2 the inverse sends 1 to a and 2 to b. */
  lemma InverseScenario<K>(b: Bijection<K, int>, ka: K, kb: K)
    requires Valid(b) && Get(b, ka) == Some(1) && Get(b, kb) == Some(2)
    ensures Get(Inverse(b), 1) == Some(ka) && Get(Inverse(b), 2) == Some(kb)
  {
    InverseLookup(b, ka, 1);
    InverseLookup(b, kb, 2);
  }

  /** Setting the same object under a second key takes it away from the first. */
  lemma ConflictEviction<K, V>(b: Bijection<K, V>, k1: K, k2: K, v: V)
    requires Valid(b) && k1 != k2
    ensures var r := Set(Set(b, v, k1), v, k2);
            Get(r, k1) == None && Get(r, k2) == Some(v)
  {
  }

  /** Moving object 2 from b to a new key y in [a, b, c]: y takes b's slot. */
  lemma ConflictOrder<K>(b: Bijection<K, int>, ka: K, kb: K, kc: K, ky: K)
    requires Valid(b) && |b.order| == 3 && b.order[0] == ka && b.order[1] == kb && b.order[2] == kc && Get(b, kb) == Some(2) && ky !in b.forward
    ensures var r := Set(b, 2, ky);
            OrderedKeys(r) == [ka, ky, kc] && Get(r, kb) == None && Get(r, ky) == Some(2)
  {
    SetOrder(b, 2, ky);
    IndexOfUnique(b.order, 1);
    assert b.inverse[2] == kb;
    var s := Set(b, 2, ky).order;
    assert s == b.order[1 := ky];
    ListsThree(s, ka, ky, kc);
  }

  /** A sequence of three given elements is their display. */
  lemma ListsThree<T>(s: seq<T>, a: T, b: T, c: T)
    requires |s| == 3 && s[0] == a && s[1] == b && s[2] == c
    ensures s == [a, b, c]
  {
  }

  /** A sequence of four given elements is their display. */
  lemma ListsFour<T>(s: seq<T>, a: T, b: T, c: T, d: T)
    requires |s| == 4 && s[0] == a && s[1] == b && s[2] == c && s[3] == d
    ensures s == [a, b, c, d]
  {
  }

  /** Three keys and two objects do not pair up. */
  lemma ConstructionMismatch()
    ensures InitWithObjects(Some([1, 2]), Some(['a', 'b', 'c'])) == Failure(InvalidArgument)
  {
    assert Distinct([1, 2]) && Distinct(['a', 'b', 'c']);
  }
}
