# Bijective dictionary, modelled in Dafny

OPCBijectiveDictionary is an Objective-C container holding a strict
one-to-one pairing between keys and objects. Every key has one object and
every object has one key, so the dictionary can be looked up in both
directions. There are mutable variants, ordered variants (which keep the keys
in a position order) and thread-safe variants, plus a convenience category
with factories, bulk additions and removals, content equality and positional
access.

This project models the sequential semantics of those operations as pure
functions over one immutable state:

- `Bijections.Bijection(forward, inverse, order)` holds the key -> object
  map, the object -> key map and the keys in position order. The unordered
  variants have the same state. They do not expose the order through
  `orderedKeys` or an index. Their enumeration and bulk operations, whose
  order the headers leave open, follow it.
- `Bijections.Valid` is the invariant every operation keeps:
  - the two maps undo each other and have the same size;
  - `order` lists every key exactly once.

The files are:

- `wrappers.dfy`: `Option`, `Result` and the two Foundation exceptions.
  - NSInvalidArgumentException is `InvalidArgument`.
  - NSRangeException is `Range`.
  - NSNotFound is `None`.
- `sequences.dfy`: duplicate-free sequences and positional insertion and removal.
- `bijection.dfy`: the immutable dictionary.
  - Accessors: `count`, `keys`, `objects`, `orderedKeys`, `orderedObjects`.
  - Lookup, `inverse` and `initWithObjects:keys:`.
- `mutable.dfy`: the mutations.
  - `setObject:forKeyedSubscript:`, `removeObjectForKey:` and `setObject:forKey:atIndex:`.
  - Each mutation maps the old state to the new one.
- `convenience.dfy`: the convenience category.
- `history.dfy`: arbitrary sequences of mutations.
- `scenarios.dfy`: small worked examples.

Choices the headers leave open:

- **Where a plain set puts the pair in the order.** The header says only that
  the new mapping "takes the previous mapping's place". This model decides:
  - If the key was present, the pair keeps the key's position. Another key that held the object is spliced out.
  - If only the object was present, the new key takes the slot of the key that held it.
  - Otherwise the pair is appended.

  The header could also be read as appending whenever the key is new. This
  model takes "the previous mapping's place" literally for the object's old
  entry too (see `Mutable.Place` and `Mutable.SetOrder`).
- **What `setObject:forKey:atIndex:` checks the index against.** The header
  requires an index "not greater than the count".
  - The model compares the index with the count before any eviction, which
    is the count the caller sees.
  - Past that count it raises NSRangeException.
  - The index is a position in the order after eviction. The entries
    already at that position and beyond move up by one, as the header says.
  - If the key itself or the key that held the object sat before the index,
    its slot is gone first. The entries between that slot and the index then
    move down by one (see `Scenarios.MoveForward`). The header's "shifted by
    adding 1" describes only a fresh pair.
  - If the eviction shortened the order below the index, the pair is
    appended.
- **`keyAtIndex:` at index `count`.** The header names only indexes
  "greater than the count" as raising NSRangeException. There is no key at
  position `count`, so the model raises there as well.
- **`removeEntriesFromDictionary:` removes by key.** Every key of the
  argument is removed together with its object, whatever object the argument
  pairs it with.
- **`bijectiveDictionaryByAddingEntriesFromDictionary:` and `addEntriesFromDictionary:`**
  set the argument's pairs one by one in its order. So a receiver entry
  survives only when neither its key nor its object occurs in the argument.
- **The ordered-set arguments of `initWithObjects:keys:`** are duplicate-free
  sequences (a requires). A nil ordered set counts as empty.
- **Equality of keys and objects (`isEqual:`)** is Dafny equality.

## Model

| member | source | states |
|---|---|---|
| Bijections.Count | Pod/Classes/OPCBijectiveDictionary.h:31-34 | in a valid dictionary the number of entries is also the number of objects and the length of the key order |
| Bijections.Keys | Pod/Classes/OPCBijectiveDictionary.h:16-19 | in a valid dictionary the key set has `count` elements and is exactly the set of keys in the order |
| Bijections.Objects | Pod/Classes/OPCBijectiveDictionary.h:21-24 | in a valid dictionary the object set has `count` elements, holds the object of every key, and each of its objects maps back to its key |
| Bijections.OrderedKeys | Pod/Classes/OPCBijectiveDictionary.h:118-121 | in a valid dictionary the ordered keys are `count` distinct keys of the dictionary |
| Bijections.CountAgrees | Pod/Classes/OPCBijectiveDictionary.h:16-34 | the `keys` set, the `objects` set and the ordered keys each have exactly `count` elements, and the objects are the values of the key map |
| Bijections.Get | Pod/Classes/OPCBijectiveDictionary.h:52-59 | lookup yields an object exactly when the key is present; that object maps back to the key in the inverse direction; nil otherwise |
| Bijections.Inverse | Pod/Classes/OPCBijectiveDictionary.h:36-39 | the inverse is a valid dictionary of the same count sending each object to its key and vice versa, ordered as `orderedObjects` |
| Bijections.InverseLookup | Pod/Classes/OPCBijectiveDictionary.h:36-39 | `inverse[v] == k` if and only if `self[k] == v` |
| Bijections.InverseInvolution | Pod/Classes/OPCBijectiveDictionary.h:36-39 | inverting twice gives back the same dictionary, order included |
| Bijections.InverseOrder | Pod/Classes/OPCBijectiveDictionary.h:118-126 | the ordered keys of the inverse are the ordered objects of the receiver and the other way round |
| Bijections.OrderedObjects | Pod/Classes/OPCBijectiveDictionary.h:123-126 | the ordered objects are the objects of the ordered keys, position by position, with no repeats, and are exactly the object set |
| Bijections.Pair | Pod/Classes/OPCBijectiveDictionary.h:41-42 | pairing two equal-length duplicate-free sequences gives a valid dictionary with `keys[i] -> objects[i]`, count `|keys|`, keys in the given order |
| Bijections.InitWithObjects | Pod/Classes/OPCBijectiveDictionary.h:41-50 | fails with NSInvalidArgumentException exactly when the element counts differ (nil counting as empty); otherwise pairs index by index |
| Bijections.PairRoundTrip | Pod/Classes/OPCBijectiveDictionary.h:41-50 | the ordered keys and ordered objects of a dictionary built from two ordered sets are those two sets |
| Bijections.Insert | Pod/Classes/OPCBijectiveDictionary.h:138 | a pair of new key and new object placed at a position keeps the invariant, adds exactly that entry and splices the key into the order there |
| Mutable.Remove | Pod/Classes/OPCBijectiveDictionary.h:105-110 | the key and its object leave both directions, every other entry stays, the count drops by one; an absent key leaves the dictionary unchanged |
| Mutable.RemoveShiftsOrder | Pod/Classes/OPCBijectiveDictionary.h:105-110 | removal keeps the keys before the removed one in place and moves the keys after it down by one |
| Mutable.RemoveUndoesFreshSet | Pod/Classes/OPCBijectiveDictionary.h:85-90 | removing a key just set with a new object gives back the original dictionary |
| Mutable.Place | Pod/Classes/OPCBijectiveDictionary.h:96-97 | the position a plain set gives the pair: the key's own slot when the key is present, the slot of the object's old key when only the object is present, the end otherwise |
| Mutable.Evict | Pod/Classes/OPCBijectiveDictionary.h:77 | clearing room for a pair frees both the key and the object and keeps every entry involving neither |
| Mutable.Set | Pod/Classes/OPCBijectiveDictionary.h:96-103 | after a set the key maps to the object, the object's previous key and the key's previous object are unmapped, and no other entry changes |
| Mutable.SetOrder | Pod/Classes/OPCBijectiveDictionary.h:76-83 | where the pair lands in the order in each of the four cases of which of key and object were present |
| Mutable.SetPresentPair | Pod/Classes/OPCBijectiveDictionary.h:96-103 | setting a pair that is already present changes nothing |
| Mutable.SetIdempotent | Pod/Classes/OPCBijectiveDictionary.h:96-103 | setting the same pair twice equals setting it once |
| Mutable.SetAtIndex | Pod/Classes/OPCBijectiveDictionary.h:152-161 | raises NSRangeException exactly when the index exceeds the count; otherwise it has the same pairs as the plain set |
| Mutable.SetAtIndexShifts | Pod/Classes/OPCBijectiveDictionary.h:153 | the positional set puts the key at the index (capped by the evicted length), keeps the keys before it and moves the ones from it on up by one |
| Mutable.SetAtIndexFresh | Pod/Classes/OPCBijectiveDictionary.h:137-146 | for a new key and object the key lands exactly at the index and the entries at the index and beyond move up by one |
| Mutable.SetAtIndexMoves | Pod/Classes/OPCBijectiveDictionary.h:153 | re-setting a present pair at an index moves its key there without duplicating it or changing any pair |
| Mutable.SetIsSetAtPlace | Pod/Classes/OPCBijectiveDictionary.h:137-138 | the plain set is the positional set at the position the pair takes, which is always in range |
| Convenience.Dictionary | Pod/Classes/OPCBijectiveDictionary+Convenience.h:15-20 | a new valid dictionary with count 0 and no keys or objects |
| Convenience.DictionaryWithObjects | Pod/Classes/OPCBijectiveDictionary+Convenience.h:40-49 | the factory gives what `initWithObjects:keys:` gives on the same ordered sets |
| Convenience.SetAll | Pod/Classes/OPCBijectiveDictionary+Convenience.h:112-117 | setting the listed pairs one after another leaves each listed key with the argument's object, keeps exactly the receiver entries whose key and object are clear of them, and adds nothing else |
| Convenience.AddEntries | Pod/Classes/OPCBijectiveDictionary+Convenience.h:112-117 | afterwards every entry of the argument is in the receiver; of the receiver's own entries exactly those whose key and object both stay clear of the argument remain, unchanged; nothing else appears |
| Convenience.Union | Pod/Classes/OPCBijectiveDictionary+Convenience.h:69-76 | the union holds every entry of the argument, plus exactly those receiver entries whose key and object both stay clear of the argument |
| Convenience.UnionWithEmpty | Pod/Classes/OPCBijectiveDictionary+Convenience.h:69-76 | the union with an empty dictionary has the receiver's contents |
| Convenience.UnionWithSelf | Pod/Classes/OPCBijectiveDictionary+Convenience.h:69-76 | the union of a dictionary with itself has the same contents |
| Convenience.RemoveAll | Pod/Classes/OPCBijectiveDictionary+Convenience.h:105-110 | removing a list of keys leaves exactly the other entries, unchanged, and the remaining keys in their previous relative order |
| Convenience.RemoveEntries | Pod/Classes/OPCBijectiveDictionary+Convenience.h:105-110 | every key of the argument is gone, every entry whose key the argument lacks stays as it was, and the remaining keys keep their relative order |
| Convenience.RemoveAllObjects | Pod/Classes/OPCBijectiveDictionary+Convenience.h:100-103 | the dictionary is left valid with count 0 and empty key map, object map and order |
| Convenience.RemoveOwnEntries | Pod/Classes/OPCBijectiveDictionary+Convenience.h:100-110 | removing a dictionary's own entries from it is the same as removing all objects |
| Convenience.IsEqual | Pod/Classes/OPCBijectiveDictionary+Convenience.h:78-85 | equal counts and agreement at every key of the receiver hold exactly when the two dictionaries have the same entries |
| Convenience.IsEqualReflexiveSymmetric | Pod/Classes/OPCBijectiveDictionary+Convenience.h:78-85 | content equality is reflexive and symmetric |
| Convenience.Enumerate | Pod/Classes/OPCBijectiveDictionary+Convenience.h:87-92 | enumeration visits every entry exactly once, key with its object, in key order |
| Convenience.KeyAtIndex | Pod/Classes/OPCBijectiveDictionary+Convenience.h:137-144 | the key at a position below the count; NSRangeException exactly from the count on |
| Convenience.IndexOfKey | Pod/Classes/OPCBijectiveDictionary+Convenience.h:146-153 | the unique position of a present key; NSNotFound exactly for an absent key |
| Convenience.KeyIndexRoundTrip | Pod/Classes/OPCBijectiveDictionary+Convenience.h:137-153 | `indexOfKey:` undoes `keyAtIndex:` at every valid position, and `keyAtIndex:` undoes `indexOfKey:` |
| Histories.Apply | Pod/Classes/OPCBijectiveDictionary.h:150-161 | every single mutation keeps the invariant; only a positional set past the count raises |
| Histories.ApplyAll | Pod/Classes/OPCBijectiveDictionary.h:135-161 | any sequence of mutations keeps the invariant or stops with NSRangeException |
| Histories.HistoryKeepsOrder | Pod/Classes/OPCBijectiveDictionary.h:116-126 | after any history of mutations the order lists each key exactly once, and `keys`, `objects` and the order agree with `count` |
| Scenarios.PositionalInsert | Pod/Classes/OPCBijectiveDictionary.h:152-153 | setting `d -> 4` at index 1 of `[a, b, c]` gives the order `[a, d, b, c]`, `keyAtIndex: 1` is `d` and `indexOfKey: b` is 2 |
| Scenarios.MoveForward | Pod/Classes/OPCBijectiveDictionary.h:152-153 | re-setting the pair of `a` at index 2 of `[a, b, c, d]` gives `[b, c, a, d]`, so `c` moves from position 2 down to 1 |
| Scenarios.OutOfRange | Pod/Classes/OPCBijectiveDictionary.h:157 | with three keys, position 3 holds no key and a positional set accepts index 3 but raises at index 4 |
| Scenarios.InverseScenario | Pod/Classes/OPCBijectiveDictionary.h:36-39 | for `a -> 1, b -> 2` the inverse maps 1 to `a` and 2 to `b` |
| Scenarios.ConflictEviction | Pod/Classes/OPCBijectiveDictionary.h:96-103 | setting one object under `k1` and then under `k2` leaves `k1` unmapped and `k2` holding the object |
| Scenarios.ConflictOrder | Pod/Classes/OPCBijectiveDictionary.h:97 | moving object 2 from `b` to a new key `y` in `[a, b, c]` leaves the order `[a, y, c]` |
| Scenarios.ConstructionMismatch | Pod/Classes/OPCBijectiveDictionary.h:42 | two objects and three keys raise NSInvalidArgumentException |

## Left out

- The thread-safe subclasses (Pod/Classes/OPCBijectiveDictionary.h:165-171) are not modelled. They add only locking, and their sequential behaviour is that of the mutable ordered dictionary.
- `NSSecureCoding`, `NSCopying`, `NSMutableCopying` and `NSFastEnumeration` are not modelled. Nor are the copy protocols of Pod/Classes/OPCCopying.h. They are Foundation plumbing with no documented semantics beyond returning a copy.
- The `mapTable` property is not modelled. Nor are `dictionaryWithDictionary:`, `dictionaryWithMapTable:`, `initWithDictionary:` and `initWithMapTable:`. They convert from Foundation containers, and the headers do not say how a source with repeated objects is handled.
- `initWithCapacity:` and `dictionaryWithCapacity:` are not modelled. The capacity is a performance hint with no observable effect.
- Reference counting, nullability and the `__covariant`/`__kindof` annotations are not modelled. They are memory and type-system concerns with no effect on the contents.
- `NSUInteger` width is not modelled: counts and indexes are unbounded naturals. No dictionary can hold enough entries to reach the limit.
- Mutable.SetAtIndex: when the key or the object's old key sat before the index, the keys between its slot and the index move down by one. The header's "the mapping at index and beyond are shifted by adding 1" is not promised in that case, because the index counts in the order after eviction.
- Convenience.AddEntries: the order of the result is not stated. It follows from setting the argument's pairs one by one, as `Mutable.SetOrder` describes for each set.
- Convenience.Union: the order of the result is not stated, for the same reason as for `Convenience.AddEntries`.
- Convenience.Enumerate returns the visited entries in order rather than calling a block. The block itself is code the model cannot see.
