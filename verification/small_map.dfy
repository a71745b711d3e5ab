/** The insertion-ordered SmallMap whose two parallel arrays are allocated
    lazily: `keyArray` and `valueArray` stay `null` until the first `put` or
    the bulk constructor needs them. The inherited AbstractMap operations
    (`get`, `containsKey`, `remove`, `clear`) are scans over the entry-set
    cursor, as the JDK writes them. */
module SmallMap {
  import opened ParallelArrays

  /** `None` is an array that was never allocated. */
  datatype SmallMap<K, V> = SmallMap(keyArray: Option<seq<K>>, valueArray: Option<seq<V>>)

  /** The keys, in insertion order; an unallocated array holds none. */
  function Keys<K, V>(m: SmallMap<K, V>): seq<K> {
    if m.keyArray.Some? then m.keyArray.value else []
  }

  /** The values, index-aligned with `Keys`. */
  function Values<K, V>(m: SmallMap<K, V>): seq<V> {
    if m.valueArray.Some? then m.valueArray.value else []
  }

  /** The class invariant: the arrays are allocated together, are parallel,
      and hold each key at most once. */
  predicate Valid<K(==), V>(m: SmallMap<K, V>) {
    && m.keyArray.Some? == m.valueArray.Some?
    && |Keys(m)| == |Values(m)|
    && NoDuplicates(Keys(m))
  }

  /** The entries in index order: what a full pass of the cursor sees. */
  function Entries<K, V>(m: SmallMap<K, V>): seq<(K, V)>
    requires |Keys(m)| == |Values(m)|
  {
    Zip(Keys(m), Values(m))
  }

  /** The key-to-value mapping the map stands for. */
  function Mapping<K(==), V>(m: SmallMap<K, V>): map<K, V>
    requires Valid(m)
  {
    AsMap(Keys(m), Values(m))
  }

  /** `entrySet().size()`, which is also the map's `size()`: 0 while the key
      array is unallocated, its length otherwise. */
  function Size<K, V>(m: SmallMap<K, V>): (n: int)
    ensures n == |Keys(m)|
  {
    if m.keyArray == None then 0 else |m.keyArray.value|
  }

  /** The size is the number of distinct keys mapped. */
  lemma SizeCountsKeys<K, V>(m: SmallMap<K, V>)
    requires Valid(m)
    ensures Size(m) == |Mapping(m)|
  {
    NoDuplicatesCardinality(Keys(m));
  }

  /** `new SmallMap()`: nothing is allocated and nothing is mapped. */
  function New<K(==), V>(): (m: SmallMap<K, V>)
    ensures Valid(m) && Size(m) == 0 && Mapping(m) == map[]
    ensures m.keyArray == None && m.valueArray == None
  {
    SmallMap(None, None)
  }

  /** The `keyArray()` accessor: allocates an empty key array on first use.
      Allocation is invisible: the keys read the same before and after. */
  function AllocKeys<K, V>(m: SmallMap<K, V>): (r: SmallMap<K, V>)
    ensures r.keyArray.Some? && Keys(r) == Keys(m) && r.valueArray == m.valueArray
  {
    if m.keyArray == None then m.(keyArray := Some([])) else m
  }

  /** The `valueArray()` accessor, likewise for the value array. */
  function AllocValues<K, V>(m: SmallMap<K, V>): (r: SmallMap<K, V>)
    ensures r.valueArray.Some? && Values(r) == Values(m) && r.keyArray == m.keyArray
  {
    if m.valueArray == None then m.(valueArray := Some([])) else m
  }

  /** `put(key, value)`: allocates both arrays, then `putInternal`. A new key
      goes at the end of both arrays and the answer is `null`; a present key
      keeps its place, only its value changes, and the answer is the old
      value. Either way the mapping afterwards binds `key` to `value`. */
  function Put<K(==), V>(m: SmallMap<K, V>, key: K, value: V): (r: (SmallMap<K, V>, Option<V>))
    requires Valid(m)
    ensures Valid(r.0) && r.0.keyArray.Some?
    ensures Mapping(r.0) == Mapping(m)[key := value]
    ensures r.1 == if key in Mapping(m) then Some(Mapping(m)[key]) else None
    ensures key !in Keys(m) ==>
              && Keys(r.0) == Keys(m) + [key]
              && Values(r.0) == Values(m) + [value]
              && Size(r.0) == Size(m) + 1
    ensures key in Keys(m) ==>
              && Keys(r.0) == Keys(m)
              && Size(r.0) == Size(m)
              && var i := IndexOf(Keys(m), key);
                 Values(r.0) == Values(m)[i := value] && r.1 == Some(Values(m)[i])
  {
    var a := AllocValues(AllocKeys(m));
    var p := PutInternal(a.keyArray.value, a.valueArray.value, key, value);
    PutInternalUpdates(a.keyArray.value, a.valueArray.value, key, value);
    (SmallMap(Some(p.keyArray), Some(p.valueArray)), p.previous)
  }

  /** A sequence of `put` calls, one per entry in order: AbstractMap.putAll,
      or a caller populating the map. */
  function PutAll<K(==), V>(m: SmallMap<K, V>, es: seq<(K, V)>): (r: SmallMap<K, V>)
    requires Valid(m)
    ensures Valid(r)
    ensures |es| > 0 ==> r.keyArray.Some?
    decreases |es|
  {
    if |es| == 0 then m else PutAll(Put(m, es[0].0, es[0].1).0, es[1..])
  }

  /** Puts never move a key already held: the old keys stay a prefix, in
      their order. */
  lemma {:induction false} PutAllKeepsOrder<K, V>(m: SmallMap<K, V>, es: seq<(K, V)>)
    requires Valid(m)
    ensures |Keys(m)| <= |Keys(PutAll(m, es))|
    ensures Keys(PutAll(m, es))[..|Keys(m)|] == Keys(m)
    decreases |es|
  {
    if |es| > 0 {
      var m' := Put(m, es[0].0, es[0].1).0;
      PutKeepsOrder(m, es[0].0, es[0].1);
      PutAllKeepsOrder(m', es[1..]);
      PrefixOfPrefix(Keys(m), Keys(m'), Keys(PutAll(m, es)));
    }
  }

  /** One `put` keeps the old keys as a prefix. */
  lemma PutKeepsOrder<K, V>(m: SmallMap<K, V>, key: K, value: V)
    requires Valid(m)
    ensures |Keys(m)| <= |Keys(Put(m, key, value).0)|
    ensures Keys(Put(m, key, value).0)[..|Keys(m)|] == Keys(m)
  {
    if key !in Keys(m) {
      assert (Keys(m) + [key])[..|Keys(m)|] == Keys(m);
    }
  }

  /** However many times each key is put, the size afterwards is the number
      of distinct keys put. */
  lemma SizeAfterPuts<K, V>(es: seq<(K, V)>)
    ensures Size(PutAll(New(), es)) == |ToSet(KeysOf(es))|
  {
    PutAllOverlays(New(), es);
    SizeCountsKeys(PutAll(New(), es));
    OverlayKeys(map[], es);
  }

  /** Putting entries overlays them on the mapping, later ones winning. */
  lemma {:induction false} PutAllOverlays<K, V>(m: SmallMap<K, V>, es: seq<(K, V)>)
    requires Valid(m)
    ensures Mapping(PutAll(m, es)) == Overlay(Mapping(m), es)
    decreases |es|
  {
    if |es| > 0 {
      PutAllOverlays(Put(m, es[0].0, es[0].1).0, es[1..]);
    }
  }

  /** Putting entries with new, distinct keys appends them in order: after N
      such puts into an empty map a full pass sees exactly those N entries,
      in insertion order. */
  lemma {:induction false} PutAllAppends<K, V>(m: SmallMap<K, V>, es: seq<(K, V)>)
    requires Valid(m) && FreshKeys(Keys(m), es)
    ensures Entries(PutAll(m, es)) == Entries(m) + es
    decreases |es|
  {
    if |es| > 0 {
      var m' := Put(m, es[0].0, es[0].1).0;
      FreshKeysTail(Keys(m), es);
      assert Entries(m') == Entries(m) + [es[0]] by {
        ZipSnoc(Keys(m), Values(m), es[0].0, es[0].1);
      }
      PutAllAppends(m', es[1..]);
      AppendHead(Entries(m), es);
    }
  }

  /** `new SmallMap(m)`: allocates both arrays, then `putAllInternal` of the
      source's entries in the source's iteration order. The result maps what
      the source's entries map, later duplicates winning; a source whose keys
      are distinct (any java.util.Map) is copied entry for entry, in order. */
  function FromMap<K(==), V>(source: seq<(K, V)>): (r: SmallMap<K, V>)
    ensures Valid(r) && r.keyArray.Some?
    ensures Mapping(r) == Overlay(map[], source)
    ensures FreshKeys([], source) ==> Entries(r) == source
  {
    var a := AllocValues(AllocKeys(New<K, V>()));
    var p := PutAllInternal(a.keyArray.value, a.valueArray.value, source);
    PutAllInternalOverlays([], [], source);
    if FreshKeys([], source) then
      PutAllInternalAppends([], [], source);
      ZipKeysValues(source);
      SmallMap(Some(p.0), Some(p.1))
    else
      SmallMap(Some(p.0), Some(p.1))
  }

  /** Copying a SmallMap into a new one gives its entries back, in its order. */
  lemma RoundTrip<K, V>(m: SmallMap<K, V>)
    requires Valid(m)
    ensures Entries(FromMap(Entries(m))) == Entries(m)
  {
    var es := Entries(m);
    forall i, j | 0 <= i < j < |es|
      ensures es[i].0 != es[j].0
    {
      assert es[i].0 == Keys(m)[i] && es[j].0 == Keys(m)[j];
    }
    assert FreshKeys([], es);
  }

  /** Copying a map's entries into a new map, or putting them one by one into
      an empty one, gives the same map, up to whether the arrays of an empty
      result are allocated. */
  lemma {:induction false} FromMapIsPutAll<K, V>(source: seq<(K, V)>)
    ensures Entries(FromMap(source)) == Entries(PutAll(New(), source))
    ensures |source| > 0 ==> FromMap(source) == PutAll(New(), source)
  {
    var a := SmallMap(Some([]), Some([]));
    PutAllInternalIsPutAll(a, source);
    if |source| > 0 {
      assert Put(New(), source[0].0, source[0].1) == Put(a, source[0].0, source[0].1);
    }
  }

  /** Once allocated, `putAllInternal` on the arrays is the same as `put` of
      each entry on the map. */
  lemma {:induction false} PutAllInternalIsPutAll<K, V>(m: SmallMap<K, V>, es: seq<(K, V)>)
    requires Valid(m) && m.keyArray.Some?
    ensures var p := PutAllInternal(Keys(m), Values(m), es);
            PutAll(m, es) == SmallMap(Some(p.0), Some(p.1))
    decreases |es|
  {
    if |es| > 0 {
      PutAllInternalIsPutAll(Put(m, es[0].0, es[0].1).0, es[1..]);
    }
  }

  /** An unallocated map and an allocated empty one cannot be told apart:
      the same size, entries and mapping, and any `put` turns both into the
      same map. */
  lemma UnallocatedIsEmpty<K, V>(key: K, value: V)
    ensures var lazy, eager := New<K, V>(), SmallMap(Some([]), Some([]));
            && Valid(eager) && Size(lazy) == Size(eager)
            && Entries(lazy) == Entries(eager) && Mapping(lazy) == Mapping(eager)
            && Put(lazy, key, value) == Put(eager, key, value)
  {
  }

  // The entry-set cursor.

  /** The `entrySet().iterator()` cursor: the map it walks, `posNext`, and
      whether the last call on it was `next` (only then is `remove` allowed). */
  datatype EntryIterator<K, V> = EntryIterator(owner: SmallMap<K, V>, posNext: int, lastWasNext: bool)

  /** Every cursor reachable through `next` and `remove` from a fresh one. */
  predicate IteratorValid<K(==), V>(it: EntryIterator<K, V>) {
    && Valid(it.owner)
    && 0 <= it.posNext <= Size(it.owner)
    && (it.lastWasNext ==> 1 <= it.posNext)
  }

  /** The entries before the cursor: produced and not removed. */
  function Visited<K(==), V>(it: EntryIterator<K, V>): seq<(K, V)>
    requires IteratorValid(it)
  {
    Entries(it.owner)[..it.posNext]
  }

  /** The entries the cursor has still to produce. */
  function Remaining<K(==), V>(it: EntryIterator<K, V>): seq<(K, V)>
    requires IteratorValid(it)
  {
    Entries(it.owner)[it.posNext..]
  }

  /** `entrySet().iterator()`: a cursor with every entry still to come. */
  function Iterator<K(==), V>(m: SmallMap<K, V>): (it: EntryIterator<K, V>)
    requires Valid(m)
    ensures IteratorValid(it) && it.owner == m && !it.lastWasNext
    ensures Visited(it) == [] && Remaining(it) == Entries(m)
  {
    EntryIterator(m, 0, false)
  }

  /** `hasNext()`: compares the position with the live size. */
  function HasNext<K(==), V>(it: EntryIterator<K, V>): (b: bool)
    requires IteratorValid(it)
    ensures b <==> Remaining(it) != []
  {
    it.posNext < Size(it.owner)
  }

  /** `next()`: the entry at `posNext`, read from both arrays, and the cursor
      moved one past it. Calling it when `hasNext()` is false is not modelled. */
  function Next<K(==), V>(it: EntryIterator<K, V>): (r: ((K, V), EntryIterator<K, V>))
    requires IteratorValid(it) && HasNext(it)
    ensures IteratorValid(r.1) && r.1.owner == it.owner && r.1.lastWasNext
    ensures r.0 == Entries(it.owner)[it.posNext] && r.1.posNext == it.posNext + 1
    ensures Remaining(it) == [r.0] + Remaining(r.1)
    ensures Visited(r.1) == Visited(it) + [r.0]
  {
    var pos := it.posNext;
    assert it.owner.keyArray.value == Keys(it.owner) && it.owner.valueArray.value == Values(it.owner);
    var e := (it.owner.keyArray.value[pos], it.owner.valueArray.value[pos]);
    NextEntry(Entries(it.owner), pos);
    (e, it.(posNext := pos + 1, lastWasNext := true))
  }

  /** Producing the entry at `pos` moves it from the remaining to the visited part. */
  lemma NextEntry<T>(es: seq<T>, pos: int)
    requires 0 <= pos < |es|
    ensures es[pos..] == [es[pos]] + es[pos + 1..]
    ensures es[..pos + 1] == es[..pos] + [es[pos]]
  {
  }

  /** `remove()` right after `next()`: steps `posNext` back and deletes that
      index from both arrays, so the entry just produced is gone, the rest
      keep their order, and the next `next()` produces the entry that came
      after it. Calling it in any other state is not modelled. */
  function Remove<K(==), V>(it: EntryIterator<K, V>): (r: EntryIterator<K, V>)
    requires IteratorValid(it) && it.lastWasNext
    ensures IteratorValid(r) && !r.lastWasNext
    ensures Remaining(r) == Remaining(it)
    ensures Visited(r) == Visited(it)[..it.posNext - 1]
    ensures Entries(r.owner) == RemoveAt(Entries(it.owner), it.posNext - 1)
    ensures Size(r.owner) == Size(it.owner) - 1
    ensures r.owner.keyArray.Some?
  {
    var pos := it.posNext - 1;
    var ks, vs := it.owner.keyArray.value, it.owner.valueArray.value;
    RemoveAtElements(ks, pos);
    ZipRemoveAt(ks, vs, pos);
    EntryIterator(SmallMap(Some(RemoveAt(ks, pos)), Some(RemoveAt(vs, pos))), pos, false)
  }

  /** The cursor's `remove()` unmaps exactly the key of the entry just produced. */
  lemma RemoveUnmaps<K, V>(it: EntryIterator<K, V>)
    requires IteratorValid(it) && it.lastWasNext
    ensures Mapping(Remove(it).owner) == Mapping(it.owner) - {Keys(it.owner)[it.posNext - 1]}
  {
    AsMapRemoveAt(Keys(it.owner), Values(it.owner), it.posNext - 1);
  }

  // AbstractMap's operations, which reach the arrays only through the cursor.

  /** The search loop of AbstractMap's `get`, `containsKey` and `remove`:
      `next()` until an entry for `key` comes out or `hasNext()` fails. When
      found, the cursor has just produced that entry. */
  function Seek<K(==), V>(it: EntryIterator<K, V>, key: K): (r: (Option<(K, V)>, EntryIterator<K, V>))
    requires IteratorValid(it)
    ensures IteratorValid(r.1) && r.1.owner == it.owner
    ensures r.0.None? <==> key !in Keys(it.owner)[it.posNext..]
    ensures r.0.Some? ==>
              && r.1.lastWasNext
              && r.0.value == Entries(it.owner)[r.1.posNext - 1]
              && r.0.value.0 == key
    decreases Size(it.owner) - it.posNext
  {
    if !HasNext(it) then (None, it)
    else
      var (e, it') := Next(it);
      if e.0 == key then (Some(e), it')
      else
        assert Keys(it.owner)[it.posNext..] == [e.0] + Keys(it.owner)[it'.posNext..];
        Seek(it', key)
  }

  /** AbstractMap.get: the value mapped to `key`, or `null`. */
  function Get<K(==), V>(m: SmallMap<K, V>, key: K): (r: Option<V>)
    requires Valid(m)
    ensures r == if key in Mapping(m) then Some(Mapping(m)[key]) else None
  {
    var (found, it) := Seek(Iterator(m), key);
    assert Keys(m)[0..] == Keys(m);
    if found.Some? then Some(found.value.1) else None
  }

  /** AbstractMap.containsKey. */
  function ContainsKey<K(==), V>(m: SmallMap<K, V>, key: K): (b: bool)
    requires Valid(m)
    ensures b <==> key in Mapping(m)
  {
    var (found, _) := Seek(Iterator(m), key);
    assert Keys(m)[0..] == Keys(m);
    found.Some?
  }

  /** AbstractMap.remove(key): the search loop, then the cursor's `remove()`.
      A present key loses its entry, the rest keep their order, and the answer
      is the value it had; an absent key leaves the map as it was and the
      answer is `null`. */
  function RemoveKey<K(==), V>(m: SmallMap<K, V>, key: K): (r: (SmallMap<K, V>, Option<V>))
    requires Valid(m)
    ensures Valid(r.0)
    ensures key in Mapping(m) ==>
              && r.1 == Some(Mapping(m)[key])
              && Mapping(r.0) == Mapping(m) - {key}
              && Size(r.0) == Size(m) - 1
              && Entries(r.0) == RemoveAt(Entries(m), IndexOf(Keys(m), key))
    ensures key !in Mapping(m) ==> r == (m, None)
  {
    var (found, it) := Seek(Iterator(m), key);
    assert Keys(m)[0..] == Keys(m);
    if found.Some? then
      var i := it.posNext - 1;
      assert Keys(m)[i] == key;
      assert IndexOf(Keys(m), key) == i;
      RemoveUnmaps(it);
      (Remove(it).owner, Some(found.value.1))
    else
      (m, None)
  }

  /** The loop of AbstractCollection.clear on the entry set: `next()` then
      `remove()` while `hasNext()`. Everything from the cursor on is removed. */
  function ClearFrom<K(==), V>(it: EntryIterator<K, V>): (r: SmallMap<K, V>)
    requires IteratorValid(it) && !it.lastWasNext
    ensures Valid(r)
    ensures Entries(r) == Visited(it)
    ensures r.keyArray.Some? == it.owner.keyArray.Some?
    decreases Size(it.owner) - it.posNext
  {
    if !HasNext(it) then
      assert Entries(it.owner) == Visited(it) + Remaining(it);
      it.owner
    else
      ClearFrom(Remove(Next(it).1))
  }

  /** AbstractMap.clear: afterwards the map is empty. Arrays that were
      allocated stay allocated (and empty); unallocated ones stay unallocated. */
  function Clear<K(==), V>(m: SmallMap<K, V>): (r: SmallMap<K, V>)
    requires Valid(m)
    ensures Valid(r) && Size(r) == 0 && Mapping(r) == map[]
    ensures r.keyArray.Some? == m.keyArray.Some?
  {
    ClearFrom(Iterator(m))
  }

  // Full passes of the cursor.

  /** A full pass of `next()` calls produces every entry once, in index
      (that is, insertion) order. */
  method EntriesInOrder<K(==), V>(m: SmallMap<K, V>) returns (es: seq<(K, V)>)
    requires Valid(m)
    ensures es == Entries(m)
  {
    var it := Iterator(m);
    es := [];
    while HasNext(it)
      invariant IteratorValid(it) && it.owner == m
      invariant es == Visited(it)
      decreases Size(m) - it.posNext
    {
      var step := Next(it);
      es := es + [step.0];
      it := step.1;
    }
    assert Entries(m) == Visited(it) + Remaining(it);
  }

  /** The rest of a pass that calls `remove()` right after each produced
      entry that `drop` selects (the loop of Collection.removeIf): it produces
      every remaining entry exactly once, in order, and of those exactly the
      selected ones are gone. Entries already passed are untouched. */
  function RemoveWhereFrom<K(==), V>(it: EntryIterator<K, V>, drop: ((K, V)) -> bool)
    : (r: (seq<(K, V)>, SmallMap<K, V>))
    requires IteratorValid(it)
    ensures Valid(r.1)
    ensures r.0 == Remaining(it)
    ensures Entries(r.1) == Visited(it) + Retained(Remaining(it), drop)
    decreases Size(it.owner) - it.posNext
  {
    if !HasNext(it) then
      assert Entries(it.owner) == Visited(it) + Remaining(it);
      ([], it.owner)
    else
      var (e, it1) := Next(it);
      var it2 := if drop(e) then Remove(it1) else it1;
      var (rest, m) := RemoveWhereFrom(it2, drop);
      assert Remaining(it2) == Remaining(it)[1..];
      assert Visited(it2) == Visited(it) + (if drop(e) then [] else [e]);
      RetainedStep(Visited(it), Remaining(it), e, drop);
      ([e] + rest, m)
  }

  /** A full such pass from a fresh cursor: every original entry is produced
      once, in order, and the map keeps exactly the unselected entries, in
      their original order. */
  function RemoveWhere<K(==), V>(m: SmallMap<K, V>, drop: ((K, V)) -> bool)
    : (r: (seq<(K, V)>, SmallMap<K, V>))
    requires Valid(m)
    ensures Valid(r.1)
    ensures r.0 == Entries(m)
    ensures Entries(r.1) == Retained(Entries(m), drop)
  {
    RemoveWhereFrom(Iterator(m), drop)
  }
}
