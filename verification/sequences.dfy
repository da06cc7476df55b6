/** Sequence helpers for the insertion order of the ordered dictionaries. */
module Sequences {

  /** No element of `s` occurs twice (the shape of an NSOrderedSet). */
  ghost predicate Distinct<T>(s: seq<T>) {
    forall i, j | 0 <= i < j < |s| :: s[i] != s[j]
  }

  /** The set of elements of `s`. */
  ghost function Elements<T>(s: seq<T>): set<T> {
    set x | x in s
  }

  /** The position of the first occurrence of `x` in `s`. */
  function IndexOf<T(==)>(s: seq<T>, x: T): (i: nat)
    requires x in s
    ensures i < |s| && s[i] == x
    ensures forall j | 0 <= j < i :: s[j] != x
  {
    FirstOccurrence(s, x);
    var i :| 0 <= i < |s| && s[i] == x && forall j | 0 <= j < i :: s[j] != x;
    i
  }

  /** Every element of a sequence has a first occurrence. */
  lemma {:induction false} FirstOccurrence<T>(s: seq<T>, x: T)
    requires x in s
    ensures exists i :: 0 <= i < |s| && s[i] == x && forall j | 0 <= j < i :: s[j] != x
  {
    if s[0] != x {
      var t := s[1..];
      assert x in t;
      FirstOccurrence(t, x);
      var i :| 0 <= i < |t| && t[i] == x && forall j | 0 <= j < i :: t[j] != x;
      assert forall j | 0 <= j < i + 1 :: s[j] != x by {
        forall j | 0 <= j < i + 1 ensures s[j] != x {
          if j > 0 { assert s[j] == t[j - 1]; }
        }
      }
    }
  }

  /** `s` without its element at position `i`; later elements move down by one. */
  function RemoveAt<T>(s: seq<T>, i: nat): (r: seq<T>)
    requires i < |s|
    ensures |r| == |s| - 1
  {
    s[..i] + s[i + 1..]
  }

  /** After RemoveAt the elements before `i` stay put and the later ones move down by one. */
  lemma RemoveAtShifts<T>(s: seq<T>, i: nat)
    requires i < |s|
    ensures forall j | 0 <= j < i :: RemoveAt(s, i)[j] == s[j]
    ensures forall j | i <= j < |s| - 1 :: RemoveAt(s, i)[j] == s[j + 1]
  {
  }

  /** `s` with `x` inserted at position `i`; elements at `i` and beyond move up by one. */
  function InsertAt<T>(s: seq<T>, i: nat, x: T): (r: seq<T>)
    requires i <= |s|
    ensures |r| == |s| + 1
    ensures r[i] == x
  {
    s[..i] + [x] + s[i..]
  }

  /** After InsertAt the elements before `i` stay put and those at `i` and beyond move up by one. */
  lemma InsertAtShifts<T>(s: seq<T>, i: nat, x: T)
    requires i <= |s|
    ensures forall j | 0 <= j < i :: InsertAt(s, i, x)[j] == s[j]
    ensures forall j | i <= j < |s| :: InsertAt(s, i, x)[j + 1] == s[j]
  {
  }

  /** `s` without `x`; unchanged when `x` does not occur. */
  function Without<T(==)>(s: seq<T>, x: T): (r: seq<T>)
    ensures x !in s ==> r == s
    ensures x in s ==> r == RemoveAt(s, IndexOf(s, x))
  {
    if x in s then RemoveAt(s, IndexOf(s, x)) else s
  }

  /** Every prefix of a duplicate-free sequence is duplicate-free. */
  lemma PrefixDistinct<T>(s: seq<T>, n: nat)
    requires Distinct(s) && n <= |s|
    ensures Distinct(s[..n])
    ensures forall j | n <= j < |s| :: s[j] !in s[..n]
  {
  }

  /** In a duplicate-free sequence an element's only position is the one IndexOf finds. */
  lemma IndexOfUnique<T>(s: seq<T>, j: nat)
    requires Distinct(s) && j < |s|
    ensures IndexOf(s, s[j]) == j
  {
  }

  /** Taking out one position keeps a duplicate-free sequence duplicate-free and loses exactly that element. */
  lemma RemoveAtElements<T>(s: seq<T>, i: nat)
    requires Distinct(s) && i < |s|
    ensures Distinct(RemoveAt(s, i))
    ensures forall y :: y in RemoveAt(s, i) <==> y in s && y != s[i]
    ensures Elements(RemoveAt(s, i)) == Elements(s) - {s[i]}
  {
    var r := RemoveAt(s, i);
    RemoveAtShifts(s, i);
    forall y
      ensures y in r <==> y in s && y != s[i]
    {
      if y in r {
        var j :| 0 <= j < |r| && r[j] == y;
        if j < i { assert s[j] == y; } else { assert s[j + 1] == y; }
      }
      if y in s && y != s[i] {
        var j :| 0 <= j < |s| && s[j] == y;
        if j < i { assert r[j] == y; } else { assert r[j - 1] == y; }
      }
    }
  }

  /** Removing `x` from a duplicate-free sequence loses exactly `x`. */
  lemma WithoutElements<T>(s: seq<T>, x: T)
    requires Distinct(s)
    ensures Distinct(Without(s, x))
    ensures forall y :: y in Without(s, x) <==> y in s && y != x
    ensures Elements(Without(s, x)) == Elements(s) - {x}
    ensures x in s ==> |Without(s, x)| == |s| - 1
  {
    if x in s {
      RemoveAtElements(s, IndexOf(s, x));
    }
  }

  /** Inserting a new element keeps a sequence duplicate-free and adds exactly that element. */
  lemma InsertAtElements<T>(s: seq<T>, i: nat, x: T)
    requires Distinct(s) && x !in s && i <= |s|
    ensures Distinct(InsertAt(s, i, x))
    ensures forall y :: y in InsertAt(s, i, x) <==> y in s || y == x
    ensures Elements(InsertAt(s, i, x)) == Elements(s) + {x}
  {
    var r := InsertAt(s, i, x);
    InsertAtShifts(s, i, x);
    forall a, b | 0 <= a < b < |r|
      ensures r[a] != r[b]
    {
      if a < i && b > i {
        assert r[b] == s[b - 1];
      } else if a > i {
        assert r[a] == s[a - 1] && r[b] == s[b - 1];
      }
    }
    forall y
      ensures y in r <==> y in s || y == x
    {
      if y in r {
        var j :| 0 <= j < |r| && r[j] == y;
        if j < i { assert s[j] == y; } else if j > i { assert s[j - 1] == y; }
      }
      if y in s {
        var j :| 0 <= j < |s| && s[j] == y;
        if j < i { assert r[j] == y; } else { assert r[j + 1] == y; }
      }
    }
  }

  /** Putting an element back where it was taken out restores the sequence. */
  lemma InsertRemoveAt<T>(s: seq<T>, i: nat)
    requires i < |s|
    ensures InsertAt(RemoveAt(s, i), i, s[i]) == s
  {
    assert s[..i] + [s[i]] + s[i + 1..] == s;
  }

  /** Putting a different element where one was taken out overwrites that slot. */
  lemma InsertRemoveAtReplaces<T>(s: seq<T>, i: nat, x: T)
    requires i < |s|
    ensures InsertAt(RemoveAt(s, i), i, x) == s[i := x]
  {
  }

  /** Putting `x` back at its old position undoes taking it out. */
  lemma ReinsertWithout<T>(s: seq<T>, x: T)
    requires x in s
    ensures InsertAt(Without(s, x), IndexOf(s, x), x) == s
  {
    InsertRemoveAt(s, IndexOf(s, x));
  }

  /** Putting `x` at the old position of `y` overwrites `y` with `x`. */
  lemma ReplaceWithout<T>(s: seq<T>, y: T, x: T)
    requires y in s
    ensures InsertAt(Without(s, y), IndexOf(s, y), x) == s[IndexOf(s, y) := x]
  {
    InsertRemoveAtReplaces(s, IndexOf(s, y), x);
  }

  /** Inserting at the end appends. */
  lemma InsertAtEnd<T>(s: seq<T>, x: T)
    ensures InsertAt(s, |s|, x) == s + [x]
  {
    assert s[..|s|] == s;
  }

  /** Taking a new last element back out restores the sequence. */
  lemma WithoutLast<T>(s: seq<T>, x: T)
    requires x !in s
    ensures Without(s + [x], x) == s
  {
    assert IndexOf(s + [x], x) == |s|;
    assert (s + [x])[..|s|] == s;
  }

  /** A duplicate-free sequence has as many elements as its length. */
  lemma {:induction false} DistinctCardinality<T>(s: seq<T>)
    requires Distinct(s)
    ensures |Elements(s)| == |s|
  {
    if |s| > 0 {
      var t := s[1..];
      assert Distinct(t) by {
        forall i, j | 0 <= i < j < |t| ensures t[i] != t[j] { assert t[i] == s[i + 1] && t[j] == s[j + 1]; }
      }
      DistinctCardinality(t);
      assert Elements(s) == {s[0]} + Elements(t) by {
        forall y ensures y in Elements(s) <==> y == s[0] || y in Elements(t) {
          if y in s && y != s[0] {
            var j :| 0 <= j < |s| && s[j] == y;
            assert t[j - 1] == y;
          }
        }
      }
      assert s[0] !in Elements(t);
    }
  }

  /** A member of a non-empty sequence is its last element or a member of the rest. */
  lemma LastMembership<T>(s: seq<T>)
    requires |s| > 0
    ensures forall x :: x in s <==> x in s[..|s| - 1] || x == s[|s| - 1]
  {
    assert s == s[..|s| - 1] + [s[|s| - 1]];
  }

  /** Sequences that agree at every position are equal. */
  lemma Pointwise<T>(s: seq<T>, t: seq<T>)
    requires |s| == |t| && forall i | 0 <= i < |s| :: s[i] == t[i]
    ensures s == t
  {
  }

  /** The elements of `s` that do not occur in `xs`, in their order in `s`. */
  function Except<T(==)>(s: seq<T>, xs: seq<T>): (r: seq<T>)
    ensures forall i | 0 <= i < |r| :: r[i] in s && r[i] !in xs
    ensures forall i | 0 <= i < |s| && s[i] !in xs :: s[i] in r
    ensures |r| <= |s|
  {
    if |s| == 0 then []
    else if s[0] in xs then Except(s[1..], xs)
    else [s[0]] + Except(s[1..], xs)
  }

  /** Filtering distributes over concatenation. */
  lemma {:induction false} ExceptConcat<T>(a: seq<T>, b: seq<T>, xs: seq<T>)
    ensures Except(a + b, xs) == Except(a, xs) + Except(b, xs)
  {
    if |a| == 0 {
      assert a + b == b;
    } else {
      assert (a + b)[0] == a[0];
      assert (a + b)[1..] == a[1..] + b;
      ExceptConcat(a[1..], b, xs);
    }
  }

  /** Filtering out elements that do not occur changes nothing. */
  lemma {:induction false} ExceptNone<T>(s: seq<T>, xs: seq<T>)
    requires forall i | 0 <= i < |s| :: s[i] !in xs
    ensures Except(s, xs) == s
  {
    if |s| > 0 {
      ExceptNone(s[1..], xs);
      assert s == [s[0]] + s[1..];
    }
  }

  /** Filtering out a list is filtering out all but its last element, then the last. */
  lemma {:induction false} ExceptLast<T>(s: seq<T>, xs: seq<T>)
    requires |xs| > 0
    ensures Except(s, xs) == Except(Except(s, xs[..|xs| - 1]), [xs[|xs| - 1]])
  {
    LastMembership(xs);
    if |s| > 0 {
      ExceptLast(s[1..], xs);
      var t := Except(s[1..], xs[..|xs| - 1]);
      if s[0] !in xs[..|xs| - 1] {
        assert Except(s, xs[..|xs| - 1]) == [s[0]] + t;
        assert ([s[0]] + t)[0] == s[0] && ([s[0]] + t)[1..] == t;
      }
    }
  }

  /** In a duplicate-free sequence, removing `x` is filtering `x` out. */
  lemma WithoutIsExcept<T>(s: seq<T>, x: T)
    requires Distinct(s)
    ensures Without(s, x) == Except(s, [x])
  {
    if x !in s {
      ExceptNone(s, [x]);
    } else {
      var i := IndexOf(s, x);
      var a, b := s[..i], s[i + 1..];
      assert s == a + ([x] + b);
      ExceptConcat(a, [x] + b, [x]);
      ExceptConcat([x], b, [x]);
      assert Except([x], [x]) == [];
      ExceptNone(a, [x]);
      assert forall j | 0 <= j < |b| :: b[j] == s[i + 1 + j];
      ExceptNone(b, [x]);
    }
  }
}
