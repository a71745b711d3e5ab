/** The lazy SmallMap refines the eager one: reading an unallocated array as
    an empty one, every operation of the lazy map does what the eager map
    does, and any session of `put`, `size` and entry-set cursor calls (one
    cursor at a time) observes the same answers from both. The inherited
    `get`, `containsKey`, `remove(key)` and `clear` are such cursor calls
    after a fresh `iterator()`; they are not session calls of their own. */
module LazyEagerEquivalence {
  import opened ParallelArrays
  import Lazy = SmallMap
  import Eager = LegacySmallMap

  /** The eager map a lazy one stands for: an unallocated array is empty. */
  function Lower<K, V>(m: Lazy.SmallMap<K, V>): Eager.SmallMap<K, V> {
    Eager.SmallMap(Lazy.Keys(m), Lazy.Values(m))
  }

  /** The eager cursor a lazy one stands for. */
  function LowerIterator<K, V>(it: Lazy.EntryIterator<K, V>): Eager.EntryIterator<K, V> {
    Eager.EntryIterator(Lower(it.owner), it.posNext, it.lastWasNext)
  }

  /** The two maps agree on validity, entries, mapping and size. */
  lemma LowerObserves<K, V>(m: Lazy.SmallMap<K, V>)
    requires Lazy.Valid(m)
    ensures Eager.Valid(Lower(m))
    ensures Eager.Entries(Lower(m)) == Lazy.Entries(m)
    ensures Eager.Mapping(Lower(m)) == Lazy.Mapping(m)
    ensures Eager.Size(Lower(m)) == Lazy.Size(m)
  {
  }

  /** `new SmallMap()`: the lazy map's unallocated arrays stand for the
      eager map's empty ones. */
  lemma NewCorresponds<K, V>()
    ensures Lower(Lazy.New<K, V>()) == Eager.New<K, V>()
  {
  }

  /** `new SmallMap(m)` builds the same arrays in both. */
  lemma FromMapCorresponds<K, V>(source: seq<(K, V)>)
    ensures Lower(Lazy.FromMap(source)) == Eager.FromMap(source)
  {
  }

  /** `put` changes both maps alike and gives the same answer. */
  lemma PutCorresponds<K, V>(m: Lazy.SmallMap<K, V>, key: K, value: V)
    requires Lazy.Valid(m)
    ensures Eager.Valid(Lower(m))
    ensures Lower(Lazy.Put(m, key, value).0) == Eager.Put(Lower(m), key, value).0
    ensures Lazy.Put(m, key, value).1 == Eager.Put(Lower(m), key, value).1
  {
  }

  /** A fresh cursor on the lazy map stands for a fresh one on the eager map. */
  lemma IteratorCorresponds<K, V>(m: Lazy.SmallMap<K, V>)
    requires Lazy.Valid(m)
    ensures Eager.Valid(Lower(m))
    ensures LowerIterator(Lazy.Iterator(m)) == Eager.Iterator(Lower(m))
  {
  }

  /** `hasNext`, `next` and `remove` of the two cursors agree, and leave
      cursors that still correspond. */
  lemma CursorCorresponds<K, V>(it: Lazy.EntryIterator<K, V>)
    requires Lazy.IteratorValid(it)
    ensures Eager.IteratorValid(LowerIterator(it))
    ensures Eager.HasNext(LowerIterator(it)) == Lazy.HasNext(it)
    ensures Lazy.HasNext(it) ==>
              && Eager.Next(LowerIterator(it)).0 == Lazy.Next(it).0
              && Eager.Next(LowerIterator(it)).1 == LowerIterator(Lazy.Next(it).1)
    ensures it.lastWasNext ==> Eager.Remove(LowerIterator(it)) == LowerIterator(Lazy.Remove(it))
  {
  }

  // Sessions: a client holding a map and a cursor over it.

  /** One call a client makes: on the map, or on its entry-set cursor.
      `Restart` opens a fresh cursor. */
  datatype Call<K, V> = Put(key: K, value: V) | Size | Restart | HasNext | Next | Remove

  /** What a call answers; `Done` for the calls that answer nothing. */
  datatype Answer<K, V> = Previous(previous: Option<V>) | Count(n: int) | More(more: bool) | Entry(entry: (K, V)) | Done

  /** One call on the lazy map, with the cursor's owner as the map: the
      cursor reads the live arrays, so a `put` between cursor calls is seen
      by it. A call outside the cursor's contract answers None. */
  function LazyStep<K(==), V>(it: Lazy.EntryIterator<K, V>, c: Call<K, V>): (r: Option<(Answer<K, V>, Lazy.EntryIterator<K, V>)>)
    requires Lazy.IteratorValid(it)
    ensures r.Some? ==> Lazy.IteratorValid(r.value.1)
    ensures r.None? <==> (c.Next? && !Lazy.HasNext(it)) || (c.Remove? && !it.lastWasNext)
  {
    match c
    case Put(key, value) =>
      var p := Lazy.Put(it.owner, key, value);
      Some((Previous(p.1), it.(owner := p.0)))
    case Size => Some((Count(Lazy.Size(it.owner)), it))
    case Restart => Some((Done, Lazy.Iterator(it.owner)))
    case HasNext => Some((More(Lazy.HasNext(it)), it))
    case Next =>
      if Lazy.HasNext(it) then
        var (e, it') := Lazy.Next(it);
        Some((Entry(e), it'))
      else None
    case Remove => if it.lastWasNext then Some((Done, Lazy.Remove(it))) else None
  }

  /** The same call on the eager map. */
  function EagerStep<K(==), V>(it: Eager.EntryIterator<K, V>, c: Call<K, V>): (r: Option<(Answer<K, V>, Eager.EntryIterator<K, V>)>)
    requires Eager.IteratorValid(it)
    ensures r.Some? ==> Eager.IteratorValid(r.value.1)
    ensures r.None? <==> (c.Next? && !Eager.HasNext(it)) || (c.Remove? && !it.lastWasNext)
  {
    match c
    case Put(key, value) =>
      var p := Eager.Put(it.owner, key, value);
      Some((Previous(p.1), it.(owner := p.0)))
    case Size => Some((Count(Eager.Size(it.owner)), it))
    case Restart => Some((Done, Eager.Iterator(it.owner)))
    case HasNext => Some((More(Eager.HasNext(it)), it))
    case Next =>
      if Eager.HasNext(it) then
        var (e, it') := Eager.Next(it);
        Some((Entry(e), it'))
      else None
    case Remove => if it.lastWasNext then Some((Done, Eager.Remove(it))) else None
  }

  /** The answers to a session of calls on the lazy map; the session ends at
      the first call outside the cursor's contract. */
  function LazyRun<K(==), V>(it: Lazy.EntryIterator<K, V>, calls: seq<Call<K, V>>): (r: seq<Answer<K, V>>)
    requires Lazy.IteratorValid(it)
    ensures |r| <= |calls|
    decreases |calls|
  {
    if |calls| == 0 then []
    else match LazyStep(it, calls[0])
      case None => []
      case Some((a, it')) => [a] + LazyRun(it', calls[1..])
  }

  /** The answers to a session of calls on the eager map. */
  function EagerRun<K(==), V>(it: Eager.EntryIterator<K, V>, calls: seq<Call<K, V>>): (r: seq<Answer<K, V>>)
    requires Eager.IteratorValid(it)
    ensures |r| <= |calls|
    decreases |calls|
  {
    if |calls| == 0 then []
    else match EagerStep(it, calls[0])
      case None => []
      case Some((a, it')) => [a] + EagerRun(it', calls[1..])
  }

  /** The eager outcome a lazy step's outcome stands for. */
  function LowerOutcome<K, V>(r: Option<(Answer<K, V>, Lazy.EntryIterator<K, V>)>): Option<(Answer<K, V>, Eager.EntryIterator<K, V>)> {
    match r
    case None => None
    case Some((a, it)) => Some((a, LowerIterator(it)))
  }

  /** A single call answers alike on corresponding cursors and leaves
      corresponding cursors. */
  lemma StepCorresponds<K, V>(it: Lazy.EntryIterator<K, V>, c: Call<K, V>)
    requires Lazy.IteratorValid(it)
    ensures Eager.IteratorValid(LowerIterator(it))
    ensures EagerStep(LowerIterator(it), c) == LowerOutcome(LazyStep(it, c))
  {
    CursorCorresponds(it);
    match c
    case Put(key, value) => PutStepCorresponds(it, key, value);
    case Restart => IteratorCorresponds(it.owner);
    case Next => NextStepCorresponds(it);
    case Remove => RemoveStepCorresponds(it);
    case _ =>
  }

  /** The `put` call of a session. */
  lemma PutStepCorresponds<K, V>(it: Lazy.EntryIterator<K, V>, key: K, value: V)
    requires Lazy.IteratorValid(it)
    ensures Eager.IteratorValid(LowerIterator(it))
    ensures EagerStep(LowerIterator(it), Put(key, value)) == LowerOutcome(LazyStep(it, Put(key, value)))
  {
    PutCorresponds(it.owner, key, value);
  }

  /** The `next` call of a session. */
  lemma NextStepCorresponds<K, V>(it: Lazy.EntryIterator<K, V>)
    requires Lazy.IteratorValid(it)
    ensures Eager.IteratorValid(LowerIterator(it))
    ensures EagerStep(LowerIterator(it), Next) == LowerOutcome(LazyStep(it, Next))
  {
    CursorCorresponds(it);
  }

  /** The `remove` call of a session. */
  lemma RemoveStepCorresponds<K, V>(it: Lazy.EntryIterator<K, V>)
    requires Lazy.IteratorValid(it)
    ensures Eager.IteratorValid(LowerIterator(it))
    ensures EagerStep(LowerIterator(it), Remove) == LowerOutcome(LazyStep(it, Remove))
  {
    CursorCorresponds(it);
  }

  /** From corresponding cursors, every session gets the same answers. */
  lemma {:induction false} RunsCorrespond<K, V>(it: Lazy.EntryIterator<K, V>, calls: seq<Call<K, V>>)
    requires Lazy.IteratorValid(it)
    ensures Eager.IteratorValid(LowerIterator(it))
    ensures LazyRun(it, calls) == EagerRun(LowerIterator(it), calls)
    decreases |calls|
  {
    CursorCorresponds(it);
    if |calls| > 0 {
      StepCorresponds(it, calls[0]);
      match LazyStep(it, calls[0])
      case None =>
      case Some((_, it')) => RunsCorrespond(it', calls[1..]);
    }
  }

  /** The lazy and the eager SmallMap are observably equivalent: built by
      either constructor from the same arguments, any session of calls on
      the map and its cursor gets the same answers from both. */
  lemma ObservablyEquivalent<K, V>(source: seq<(K, V)>, calls: seq<Call<K, V>>)
    ensures LazyRun(Lazy.Iterator(Lazy.New()), calls) == EagerRun(Eager.Iterator(Eager.New()), calls)
    ensures LazyRun(Lazy.Iterator(Lazy.FromMap(source)), calls)
              == EagerRun(Eager.Iterator(Eager.FromMap(source)), calls)
  {
    NewCorresponds<K, V>();
    RunsCorrespond(Lazy.Iterator(Lazy.New<K, V>()), calls);
    FromMapCorresponds(source);
    RunsCorrespond(Lazy.Iterator(Lazy.FromMap(source)), calls);
  }
}
