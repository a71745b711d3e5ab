# SmallCollections in Dafny

SmallCollections provides a `java.util.Map` and a `java.util.Set` with a
small memory footprint, at the price of linear-time operations.

- `SmallMap` keeps its entries in two parallel `ArrayList`s, `keyArray` and
  `valueArray`. Index `i` of the one belongs with index `i` of the other, in
  insertion order. The current SmallMap allocates the two arrays lazily: they
  stay `null` until the first `put` or the bulk constructor needs them. The
  original SmallMap, kept in the older source tree, allocates them eagerly.
- `SmallSet` keeps its elements in a single `ArrayList`, `arrList`.

Each class writes only a few operations itself: `put`/`add`, the bulk
constructor, `size`, and the cursor behind `entrySet().iterator()` or
`iterator()`, with `hasNext`, `next` and `remove`. Everything else
(`get`, `containsKey`, `contains`, `remove(key)`, `clear`) is inherited from
the JDK's AbstractMap and AbstractCollection. Those reach the arrays only
through that cursor.

The model has five modules:

- `ParallelArrays` holds the `ArrayList` operations the classes use
  (`indexOf`, `remove(int)`) and the two static helpers `putInternal` and
  `putAllInternal`. The helpers are the same text in both map files, so they
  are defined once here. It also holds the views that give the arrays a
  meaning: the entries `Zip`, the mapping `AsMap`, and the fold `Overlay`.
- `SmallMap` is the lazy map. An unallocated array is `None`. The inherited
  operations are written as recursive scans over the cursor, as the JDK
  writes them.
- `SmallSet` is the set, with its cursor and the inherited scans.
- `LegacySmallMap` is the eager map.
- `LazyEagerEquivalence` shows that the lazy map refines the eager one: every
  constructor, `put` and cursor step corresponds. Any session of `put`,
  `size` and cursor calls, with one cursor open at a time, gets the same
  answers from both. The inherited `get`, `containsKey`, `remove(key)` and
  `clear` enter such a session only as a fresh cursor (`Restart`) followed by
  cursor calls; two cursors open at once are not modelled.

A cursor is an immutable record: the collection it walks, the position, and
whether the last call on it was `next`. Each call returns the new cursor;
after `remove`, the new cursor's `owner` is the changed collection. Java `null` as "no mapping"
is `Option.None`.

## Model

| member | source | states |
|---|---|---|
| ParallelArrays.IndexOf | src/main/java/com/github/zteve/smallcollections/SmallMap.java:80 | `ArrayList.indexOf`: -1 exactly when the key is absent; otherwise an index holding the key with no earlier occurrence |
| ParallelArrays.RemoveAt | src/main/java/com/github/zteve/smallcollections/SmallMap.java:121-122 | `ArrayList.remove(int)`: one shorter; elements before the index stay put, later ones shift down by one |
| ParallelArrays.RemoveAtElements | src/main/java/com/github/zteve/smallcollections/SmallMap.java:118-123 | removing an index keeps a duplicate-free array duplicate-free and drops exactly the element stored there |
| ParallelArrays.AsMap | src/main/java/com/github/zteve/smallcollections/SmallMap.java:37-38 | parallel arrays with unique keys stand for the map whose keys are the key array's elements and which binds `ks[i]` to `vs[i]` |
| ParallelArrays.PutInternal | src/main/java/com/github/zteve/smallcollections/SmallMap.java:78-88 | arrays stay equally long; afterwards the key is present and keys stay unique; an absent key is appended to both arrays and the answer is null; a present key keeps the key array unchanged, its value slot is overwritten, and the answer is the old value |
| ParallelArrays.PutInternalUpdates | src/main/java/com/github/zteve/smallcollections/SmallMap.java:78-88 | on unique keys, `putInternal` is the map update `m[key := value]`, and it answers the key's previous value, or null when there was none |
| ParallelArrays.PutAllInternal | src/main/java/com/github/zteve/smallcollections/SmallMap.java:69-76 | the loop keeps the arrays equally long and the keys unique |
| ParallelArrays.PutAllInternalOverlays | src/main/java/com/github/zteve/smallcollections/SmallMap.java:69-76 | the loop overlays the source's entries on the mapping in iteration order, later entries winning |
| ParallelArrays.PutAllInternalAppends | src/main/java/com/github/zteve/smallcollections/SmallMap.java:69-76 | when the source's keys are distinct and new, the loop appends them and their values in source order |
| ParallelArrays.OverlayKeys | src/main/java/com/github/zteve/smallcollections/SmallMap.java:69-76 | the keys bound after overlaying entries are the old keys plus every key among the entries, however often each occurs |
| ParallelArrays.AsMapRemoveAt | src/main/java/com/github/zteve/smallcollections/SmallMap.java:118-123 | removing index `i` from both arrays unmaps exactly `ks[i]`; keys stay unique |
| SmallMap.Size | src/main/java/com/github/zteve/smallcollections/SmallMap.java:127-130 | `size()` is 0 while the key array is unallocated, otherwise the key array's length |
| SmallMap.SizeCountsKeys | src/main/java/com/github/zteve/smallcollections/SmallMap.java:127-130 | the size equals the number of keys mapped |
| SmallMap.New | src/main/java/com/github/zteve/smallcollections/SmallMap.java:37-38 | a new map has both arrays unallocated, size 0 and the empty mapping |
| SmallMap.AllocKeys | src/main/java/com/github/zteve/smallcollections/SmallMap.java:40-44 | `keyArray()` leaves the key array allocated with its contents, and the value array untouched |
| SmallMap.AllocValues | src/main/java/com/github/zteve/smallcollections/SmallMap.java:45-49 | `valueArray()` leaves the value array allocated with its contents, and the key array untouched |
| SmallMap.Put | src/main/java/com/github/zteve/smallcollections/SmallMap.java:90-93 | afterwards the arrays are allocated and the mapping is updated; the answer is the previous value or null; a new key is appended and the size grows by one; a present key keeps its position, only its value slot changes, and the size stays the same |
| SmallMap.PutAll | src/main/java/com/github/zteve/smallcollections/SmallMap.java:90-93 | AbstractMap.putAll as one `put` per entry in order: the map stays valid, and after at least one entry both arrays are allocated |
| SmallMap.PutKeepsOrder | src/main/java/com/github/zteve/smallcollections/SmallMap.java:78-93 | one `put` keeps the old keys as a prefix of the new key array, in their order |
| SmallMap.PutAllKeepsOrder | src/main/java/com/github/zteve/smallcollections/SmallMap.java:78-93 | any sequence of puts keeps the old keys as a prefix, in their order: a key never moves once inserted |
| SmallMap.SizeAfterPuts | src/test/java/com/github/zteve/smallcollections/SmallMapTests.java:81-91 | after putting entries into a new map, the size is the number of distinct keys put, however many times each was put |
| SmallMap.PutAllOverlays | src/test/java/com/github/zteve/smallcollections/SmallMapTests.java:126-131 | a sequence of puts overlays its entries on the mapping, later ones winning |
| SmallMap.PutAllAppends | src/test/java/com/github/zteve/smallcollections/SmallMapTests.java:157-167 | puts of new, distinct keys append them, so a full pass sees them in insertion order |
| SmallMap.FromMap | src/main/java/com/github/zteve/smallcollections/SmallMap.java:65-67 | the bulk constructor allocates both arrays, even for an empty source; the result maps what the source maps, later duplicates winning; a source with distinct keys is copied entry for entry, in order |
| SmallMap.RoundTrip | src/test/java/com/github/zteve/smallcollections/SmallMapTests.java:133-148 | building a SmallMap from another's entries gives back exactly those entries, in the same order |
| SmallMap.FromMapIsPutAll | src/main/java/com/github/zteve/smallcollections/SmallMap.java:65-76 | copying a source gives the same entries as putting its entries one by one into an empty map; for a non-empty source it gives the same map |
| SmallMap.PutAllInternalIsPutAll | src/main/java/com/github/zteve/smallcollections/SmallMap.java:69-93 | on allocated arrays, `putAllInternal` is the same as `put` of each entry |
| SmallMap.UnallocatedIsEmpty | src/main/java/com/github/zteve/smallcollections/SmallMap.java:37-49 | an unallocated map and an allocated empty one have the same size, entries and mapping; a `put` turns both into the same map |
| SmallMap.Iterator | src/main/java/com/github/zteve/smallcollections/SmallMap.java:100-103 | a fresh cursor has visited nothing and has every entry, in insertion order, still to come |
| SmallMap.HasNext | src/main/java/com/github/zteve/smallcollections/SmallMap.java:105-108 | `hasNext()` is true exactly when entries remain |
| SmallMap.Next | src/main/java/com/github/zteve/smallcollections/SmallMap.java:110-116 | `next()` produces the first remaining entry, read from both arrays; it moves from the remaining entries to the visited ones and leaves `remove()` allowed |
| SmallMap.Remove | src/main/java/com/github/zteve/smallcollections/SmallMap.java:118-123 | `remove()` deletes the entry just produced from both arrays; the remaining entries and their order are unchanged, the visited ones lose their last, and the size drops by one |
| SmallMap.RemoveUnmaps | src/main/java/com/github/zteve/smallcollections/SmallMap.java:118-123 | the cursor's `remove()` unmaps exactly the key just produced |
| SmallMap.Seek | src/main/java/com/github/zteve/smallcollections/SmallMap.java:105-116 | the inherited search loop finds an entry for the key exactly when the key is among the remaining entries; when found, it is that entry and the cursor has just produced it |
| SmallMap.Get | src/test/java/com/github/zteve/smallcollections/SmallMapTests.java:60-91 | the inherited `get` answers the mapped value, or null when the key is unmapped |
| SmallMap.ContainsKey | src/test/java/com/github/zteve/smallcollections/SmallMapTests.java:60-91 | the inherited `containsKey` is true exactly when the key is mapped |
| SmallMap.RemoveKey | src/test/java/com/github/zteve/smallcollections/SmallMapTests.java:93-116 | the inherited `remove(key)` on a present key answers its value, unmaps it, shrinks the size by one and keeps the other entries in order; on an absent key it answers null and changes nothing |
| SmallMap.ClearFrom | src/main/java/com/github/zteve/smallcollections/SmallMap.java:105-123 | the inherited clear loop, `next()` then `remove()` while `hasNext()`, leaves exactly the entries already visited, and the arrays' allocation unchanged |
| SmallMap.Clear | src/test/java/com/github/zteve/smallcollections/SmallMapTests.java:118-123 | after the inherited `clear` the map is empty, and allocated arrays stay allocated |
| SmallMap.EntriesInOrder | src/test/java/com/github/zteve/smallcollections/SmallMapTests.java:157-167 | a full pass of `next()` calls produces every entry once, in insertion order |
| SmallMap.RemoveWhereFrom | src/main/java/com/github/zteve/smallcollections/SmallMap.java:110-123 | calling `remove()` after selected entries still produces every remaining entry exactly once, in order, and removes exactly the selected ones |
| SmallMap.RemoveWhere | src/main/java/com/github/zteve/smallcollections/SmallMap.java:100-123 | a full such pass produces every original entry, in order, and keeps exactly the unselected entries in their original order |
| SmallSet.Size | src/main/java/com/github/zteve/smallcollections/SmallSet.java:84-87 | on a valid set, `size()` equals the number of distinct elements held |
| SmallSet.New | src/main/java/com/github/zteve/smallcollections/SmallSet.java:20-26 | a new set is empty, with size 0 |
| SmallSet.PutInternal | src/main/java/com/github/zteve/smallcollections/SmallSet.java:47-52 | true exactly when the value was absent, in which case it is appended; otherwise the array is unchanged; the elements afterwards are the old ones plus the value, still without duplicates |
| SmallSet.Add | src/main/java/com/github/zteve/smallcollections/SmallSet.java:54-57 | `add` answers true exactly when the value was not an element; the elements become the old ones plus the value, a new one going last and growing the size by one; a present one changes nothing |
| SmallSet.AddIdempotent | src/test/java/com/github/zteve/smallcollections/SmallSetTests.java:35-40 | a second `add` of the same value answers false and changes nothing |
| SmallSet.PutAllInternal | src/main/java/com/github/zteve/smallcollections/SmallSet.java:41-45 | the loop keeps the array duplicate-free and adds exactly the source's elements |
| SmallSet.PutAllInternalAppends | src/main/java/com/github/zteve/smallcollections/SmallSet.java:41-45 | distinct, new source elements are appended in the source's order |
| SmallSet.FromSet | src/main/java/com/github/zteve/smallcollections/SmallSet.java:37-39 | the copy holds exactly the source's elements, once each; a source without repetitions is copied element for element, in order |
| SmallSet.FromSetCountsDistinct | src/test/java/com/github/zteve/smallcollections/SmallSetTests.java:95-100 | the copy's size is the number of distinct source elements |
| SmallSet.RoundTrip | src/test/java/com/github/zteve/smallcollections/SmallSetTests.java:86-100 | building a SmallSet from another's elements gives back the same set, element for element |
| SmallSet.Iterator | src/main/java/com/github/zteve/smallcollections/SmallSet.java:60-63 | a fresh cursor has visited nothing and has every element, in insertion order, still to come |
| SmallSet.HasNext | src/main/java/com/github/zteve/smallcollections/SmallSet.java:65-68 | `hasNext()` is true exactly when elements remain |
| SmallSet.Next | src/main/java/com/github/zteve/smallcollections/SmallSet.java:70-74 | `next()` produces the first remaining element, moves it to the visited ones and leaves `remove()` allowed |
| SmallSet.Remove | src/main/java/com/github/zteve/smallcollections/SmallSet.java:76-80 | `remove()` deletes the element just produced, and only that element; the remaining elements are unchanged and the size drops by one |
| SmallSet.Seek | src/main/java/com/github/zteve/smallcollections/SmallSet.java:65-74 | the inherited search loop finds the value exactly when it is among the remaining elements, and then the cursor has just produced it |
| SmallSet.Contains | src/test/java/com/github/zteve/smallcollections/SmallSetTests.java:31-47 | the inherited `contains` is true exactly when the value is an element |
| SmallSet.RemoveElement | src/test/java/com/github/zteve/smallcollections/SmallSetTests.java:49-69 | the inherited `remove(value)` answers true exactly when the value was an element; then it is gone, the size shrinks by one and the rest keep their order; otherwise nothing changes |
| SmallSet.ClearFrom | src/main/java/com/github/zteve/smallcollections/SmallSet.java:65-80 | the inherited clear loop leaves exactly the elements already visited |
| SmallSet.Clear | src/test/java/com/github/zteve/smallcollections/SmallSetTests.java:71-76 | after the inherited `clear` the set is empty |
| SmallSet.ElementsInOrder | src/main/java/com/github/zteve/smallcollections/SmallSet.java:60-74 | a full pass of `next()` calls produces every element once, in insertion order |
| SmallSet.RemoveWhereFrom | src/main/java/com/github/zteve/smallcollections/SmallSet.java:70-80 | calling `remove()` after selected elements still produces every remaining element exactly once, in order, and removes exactly the selected ones |
| SmallSet.RemoveWhere | src/main/java/com/github/zteve/smallcollections/SmallSet.java:60-82 | a full such pass produces every original element, in order, and keeps exactly the unselected ones in their original order |
| LegacySmallMap.Size | src/com/github/zteve/smallcollections/SmallMap.java:102-105 | `entrySet().size()` is the number of entries a full pass of the cursor produces |
| LegacySmallMap.SizeCountsKeys | src/com/github/zteve/smallcollections/SmallMap.java:102-105 | the size, the key array's length, equals the number of keys mapped |
| LegacySmallMap.New | src/com/github/zteve/smallcollections/SmallMap.java:22-29 | a new map has two allocated, empty arrays, size 0 and the empty mapping |
| LegacySmallMap.Put | src/com/github/zteve/smallcollections/SmallMap.java:65-68 | the mapping is updated and the answer is the previous value or null; a new key is appended and the size grows by one; a present key keeps its position and only its value slot changes |
| LegacySmallMap.FromMap | src/com/github/zteve/smallcollections/SmallMap.java:40-51 | the copy maps what the source maps, later duplicates winning; a source with distinct keys is copied entry for entry, in order |
| LegacySmallMap.Iterator | src/com/github/zteve/smallcollections/SmallMap.java:75-78 | a fresh cursor has every entry, in insertion order, still to come |
| LegacySmallMap.HasNext | src/com/github/zteve/smallcollections/SmallMap.java:80-83 | `hasNext()` is true exactly when entries remain |
| LegacySmallMap.Next | src/com/github/zteve/smallcollections/SmallMap.java:85-91 | `next()` produces the first remaining entry and moves it to the visited ones |
| LegacySmallMap.Remove | src/com/github/zteve/smallcollections/SmallMap.java:93-98 | `remove()` deletes the entry just produced from both arrays; the remaining entries are unchanged and the size drops by one |
| LegacySmallMap.RemoveUnmaps | src/com/github/zteve/smallcollections/SmallMap.java:93-98 | the cursor's `remove()` unmaps exactly the key just produced |
| LazyEagerEquivalence.LowerObserves | src/main/java/com/github/zteve/smallcollections/SmallMap.java:127-130 | a lazy map, with unallocated arrays read as empty, has the eager map's entries, mapping and size |
| LazyEagerEquivalence.NewCorresponds | src/main/java/com/github/zteve/smallcollections/SmallMap.java:37-54 | the lazy map's unallocated arrays stand for the eager map's empty ones |
| LazyEagerEquivalence.FromMapCorresponds | src/main/java/com/github/zteve/smallcollections/SmallMap.java:65-67 | both bulk constructors build the same arrays |
| LazyEagerEquivalence.PutCorresponds | src/main/java/com/github/zteve/smallcollections/SmallMap.java:90-93 | `put` changes both maps alike and gives the same answer |
| LazyEagerEquivalence.IteratorCorresponds | src/main/java/com/github/zteve/smallcollections/SmallMap.java:100-103 | the fresh cursors correspond |
| LazyEagerEquivalence.CursorCorresponds | src/main/java/com/github/zteve/smallcollections/SmallMap.java:105-123 | `hasNext`, `next` and `remove` agree on corresponding cursors and leave corresponding cursors |
| LazyEagerEquivalence.StepCorresponds | src/main/java/com/github/zteve/smallcollections/SmallMap.java:90-123 | any single call of a session answers alike on both maps and leaves corresponding states |
| LazyEagerEquivalence.RunsCorrespond | src/main/java/com/github/zteve/smallcollections/SmallMap.java:90-130 | from corresponding states, every session of `put`, `size` and cursor calls gets the same answers from both maps |
| LazyEagerEquivalence.ObservablyEquivalent | src/com/github/zteve/smallcollections/SmallMap.java:20-108 | built by either constructor from the same arguments, the lazy and the eager map answer every session of `put`, `size` and cursor calls alike |

## Left out

- Java's `null` return conflates "no mapping" with "mapped to null". The model answers `Option.None` only for "no mapping"; a stored value is always `Some`. `get` on a key mapped to `null` is therefore not distinguished from an absent key the way Java clients would see it.
- Java `equals` is modelled as Dafny `==`: the `equals` calls inside `ArrayList.indexOf`, `ArrayList.contains` and the inherited `get`, `containsKey` and `remove`, including their separate branches for a `null` argument, all become one equality test. Keys and elements with a user-defined `equals` that differs from identity of value are not modelled.
- Cursor misuse is not modelled as behaviour: calling `next()` when `hasNext()` is false, or `remove()` other than right after `next()`, is a precondition. In the sessions of `LazyEagerEquivalence`, such a call ends the session.
- `SimpleEntry` write-through (`Entry.setValue`) is not modelled: `next()` returns the key and value as a pair.
- Integer overflow of `size()` and of the positions is not modelled: integers are unbounded. A Java `ArrayList` cannot hold more than `Integer.MAX_VALUE` elements anyway.
- `ArrayList` capacity, `NullPointerException` on a null source in the bulk constructors, and concurrent modification are not modelled.
- A bulk constructor's source is its iteration order as a sequence. For `FromMap` and `FromSet` the sequence may contain repeated keys or elements, which is more general than a `java.util.Map` or `java.util.Set`.
- The inherited `equals`, `hashCode`, `toString`, `isEmpty`, `putAll`, `containsValue`, `keySet` and `values` are not modelled: they are not part of the classes' own code. `SmallMap.PutAll` stands for a sequence of `put` calls, which is what AbstractMap.putAll does.
- `LegacySmallMap` has no inherited `get`, `containsKey`, `remove(key)` or `clear` of its own. They are the same JDK loops over the same cursor calls, and `LazyEagerEquivalence` proves those calls correspond step by step to the lazy map's, whose scans are modelled.
- The memory measurements, benchmarks and their helpers (`MemSnapshot` and the `*MemTests` classes) are not part of this model.
- `clear`: a description of the classes might suggest that clearing drops the arrays back to unallocated. The code does not: AbstractCollection.clear removes the entries one by one through the cursor, so allocated arrays stay allocated and empty. The model follows the code (`SmallMap.Clear`).
