/** The original, eager SmallMap: both parallel arrays are allocated when the
    map is constructed and stay allocated. `putInternal` and
    `putAllInternal` are the same helpers the lazy map uses. */
module LegacySmallMap {
  import opened ParallelArrays

  datatype SmallMap<K, V> = SmallMap(keyArray: seq<K>, valueArray: seq<V>)

  /** The class invariant: equally long arrays, no key held twice. */
  predicate Valid<K(==), V>(m: SmallMap<K, V>) {
    |m.keyArray| == |m.valueArray| && NoDuplicates(m.keyArray)
  }

  /** The entries in array (insertion) order. */
  function Entries<K, V>(m: SmallMap<K, V>): seq<(K, V)>
    requires |m.keyArray| == |m.valueArray|
  {
    Zip(m.keyArray, m.valueArray)
  }

  /** The mathematical map the SmallMap stands for. */
  function Mapping<K(==), V>(m: SmallMap<K, V>): map<K, V>
    requires Valid(m)
  {
    AsMap(m.keyArray, m.valueArray)
  }

  /** `size()`, through `entrySet().size()`: the length of the key array,
      which is the number of entries a full pass of the cursor produces. */
  function Size<K, V>(m: SmallMap<K, V>): (n: int)
    ensures |m.keyArray| == |m.valueArray| ==> n == |Entries(m)|
  {
    |m.keyArray|
  }

  /** The size is the number of keys mapped. */
  lemma SizeCountsKeys<K, V>(m: SmallMap<K, V>)
    requires Valid(m)
    ensures Size(m) == |Mapping(m)|
  {
    NoDuplicatesCardinality(m.keyArray);
  }

  /** `new SmallMap()`: two allocated, empty arrays. */
  function New<K(==), V>(): (m: SmallMap<K, V>)
    ensures Valid(m) && Size(m) == 0 && Mapping(m) == map[]
  {
    SmallMap([], [])
  }

  /** `put(key, value)`: `putInternal` on the two arrays. A new key goes at
      the end of both arrays and the answer is `null`; a present key keeps
      its place, only its value changes, and the answer is the old value. */
  function Put<K(==), V>(m: SmallMap<K, V>, key: K, value: V): (r: (SmallMap<K, V>, Option<V>))
    requires Valid(m)
    ensures Valid(r.0)
    ensures Mapping(r.0) == Mapping(m)[key := value]
    ensures r.1 == if key in Mapping(m) then Some(Mapping(m)[key]) else None
    ensures key !in m.keyArray ==>
              && r.0.keyArray == m.keyArray + [key]
              && r.0.valueArray == m.valueArray + [value]
              && Size(r.0) == Size(m) + 1
    ensures key in m.keyArray ==>
              && r.0.keyArray == m.keyArray
              && Size(r.0) == Size(m)
              && var i := IndexOf(m.keyArray, key);
                 r.0.valueArray == m.valueArray[i := value] && r.1 == Some(m.valueArray[i])
  {
    var p := PutInternal(m.keyArray, m.valueArray, key, value);
    PutInternalUpdates(m.keyArray, m.valueArray, key, value);
    (SmallMap(p.keyArray, p.valueArray), p.previous)
  }

  /** `new SmallMap(m)`: `putAllInternal` of the source's entries into the
      fresh arrays. The result maps what the source's entries map, later
      duplicates winning; a source whose keys are distinct (any
      java.util.Map) is copied entry for entry, in order. */
  function FromMap<K(==), V>(source: seq<(K, V)>): (r: SmallMap<K, V>)
    ensures Valid(r)
    ensures Mapping(r) == Overlay(map[], source)
    ensures FreshKeys([], source) ==> Entries(r) == source
  {
    var p := PutAllInternal([], [], source);
    PutAllInternalOverlays([], [], source);
    if FreshKeys([], source) then
      PutAllInternalAppends([], [], source);
      ZipKeysValues(source);
      SmallMap(p.0, p.1)
    else
      SmallMap(p.0, p.1)
  }

  // The entry-set cursor.

  /** The `entrySet().iterator()` cursor: the map it walks, `position`, and
      whether the last call on it was `next` (only then is `remove` allowed). */
  datatype EntryIterator<K, V> = EntryIterator(owner: SmallMap<K, V>, position: int, lastWasNext: bool)

  /** Every cursor reachable through `next` and `remove` from a fresh one. */
  predicate IteratorValid<K(==), V>(it: EntryIterator<K, V>) {
    && Valid(it.owner)
    && 0 <= it.position <= Size(it.owner)
    && (it.lastWasNext ==> 1 <= it.position)
  }

  /** The entries before the cursor: produced and not removed. */
  function Visited<K(==), V>(it: EntryIterator<K, V>): seq<(K, V)>
    requires IteratorValid(it)
  {
    Entries(it.owner)[..it.position]
  }

  /** The entries the cursor has still to produce. */
  function Remaining<K(==), V>(it: EntryIterator<K, V>): seq<(K, V)>
    requires IteratorValid(it)
  {
    Entries(it.owner)[it.position..]
  }

  /** `entrySet().iterator()`: a cursor with every entry still to come. */
  function Iterator<K(==), V>(m: SmallMap<K, V>): (it: EntryIterator<K, V>)
    requires Valid(m)
    ensures IteratorValid(it) && it.owner == m && !it.lastWasNext
    ensures Visited(it) == [] && Remaining(it) == Entries(m)
  {
    EntryIterator(m, 0, false)
  }

  /** `hasNext()`: compares the position with the map's live size. */
  function HasNext<K(==), V>(it: EntryIterator<K, V>): (b: bool)
    requires IteratorValid(it)
    ensures b <==> Remaining(it) != []
  {
    it.position < Size(it.owner)
  }

  /** `next()`: the entry at `position`, read from both arrays, and the
      cursor moved one past it. Calling it when `hasNext()` is false is not
      modelled. */
  function Next<K(==), V>(it: EntryIterator<K, V>): (r: ((K, V), EntryIterator<K, V>))
    requires IteratorValid(it) && HasNext(it)
    ensures IteratorValid(r.1) && r.1.owner == it.owner && r.1.lastWasNext
    ensures Remaining(it) == [r.0] + Remaining(r.1)
    ensures Visited(r.1) == Visited(it) + [r.0]
  {
    var pos := it.position;
    ((it.owner.keyArray[pos], it.owner.valueArray[pos]),
     it.(position := pos + 1, lastWasNext := true))
  }

  /** `remove()` right after `next()`: steps `position` back and deletes
      that index from both arrays, so the entry just produced is gone, the
      rest keep their order, and the next `next()` produces the entry that
      came after it. Calling it in any other state is not modelled. */
  function Remove<K(==), V>(it: EntryIterator<K, V>): (r: EntryIterator<K, V>)
    requires IteratorValid(it) && it.lastWasNext
    ensures IteratorValid(r) && !r.lastWasNext
    ensures Remaining(r) == Remaining(it)
    ensures Visited(r) == Visited(it)[..it.position - 1]
    ensures Entries(r.owner) == RemoveAt(Entries(it.owner), it.position - 1)
    ensures Size(r.owner) == Size(it.owner) - 1
  {
    var pos := it.position - 1;
    var ks, vs := it.owner.keyArray, it.owner.valueArray;
    RemoveAtElements(ks, pos);
    ZipRemoveAt(ks, vs, pos);
    EntryIterator(SmallMap(RemoveAt(ks, pos), RemoveAt(vs, pos)), pos, false)
  }

  /** The cursor's `remove()` unmaps exactly the key of the entry just produced. */
  lemma RemoveUnmaps<K, V>(it: EntryIterator<K, V>)
    requires IteratorValid(it) && it.lastWasNext
    ensures Mapping(Remove(it).owner) == Mapping(it.owner) - {it.owner.keyArray[it.position - 1]}
  {
    AsMapRemoveAt(it.owner.keyArray, it.owner.valueArray, it.position - 1);
  }
}
