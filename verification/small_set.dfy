/** The insertion-ordered SmallSet: a single array of elements, allocated
    eagerly when the set is constructed. The inherited AbstractCollection
    operations (`contains`, `remove`, `clear`) are scans over the cursor, as
    the JDK writes them. */
module SmallSet {
  import opened ParallelArrays

  datatype SmallSet<E> = SmallSet(arrList: seq<E>)

  /** The class invariant: no element is held twice. */
  predicate Valid<E(==)>(s: SmallSet<E>) {
    NoDuplicates(s.arrList)
  }

  /** The mathematical set the set stands for. */
  function Elements<E>(s: SmallSet<E>): set<E> {
    ToSet(s.arrList)
  }

  /** `size()`: the length of the array, which on a valid set is the number
      of distinct elements held. */
  function Size<E(==)>(s: SmallSet<E>): (n: int)
    ensures Valid(s) ==> n == |Elements(s)|
  {
    if Valid(s) then
      NoDuplicatesCardinality(s.arrList);
      |s.arrList|
    else
      |s.arrList|
  }

  /** `new SmallSet()`: an allocated, empty array. */
  function New<E(==)>(): (s: SmallSet<E>)
    ensures Valid(s) && Size(s) == 0 && Elements(s) == {}
  {
    SmallSet([])
  }

  /** `putInternal(al, value)`: `al.contains(value)` scans the array; a
      present value is left alone and the answer is false, a new one is
      appended and the answer is true. */
  function PutInternal<E(==)>(al: seq<E>, value: E): (r: (seq<E>, bool))
    ensures r.1 <==> value !in al
    ensures r.1 ==> r.0 == al + [value]
    ensures !r.1 ==> r.0 == al
    ensures ToSet(r.0) == ToSet(al) + {value}
    ensures NoDuplicates(al) ==> NoDuplicates(r.0)
  {
    if value in al then (al, false)
    else
      assert ToSet(al + [value]) == ToSet(al) + {value};
      (al + [value], true)
  }

  /** `add(value)`: true exactly when `value` was not yet an element; the
      elements afterwards are the old ones plus `value`, a new one going last. */
  function Add<E(==)>(s: SmallSet<E>, value: E): (r: (SmallSet<E>, bool))
    requires Valid(s)
    ensures Valid(r.0)
    ensures Elements(r.0) == Elements(s) + {value}
    ensures r.1 <==> value !in Elements(s)
    ensures r.1 ==> r.0.arrList == s.arrList + [value] && Size(r.0) == Size(s) + 1
    ensures !r.1 ==> r.0 == s
  {
    var (al, added) := PutInternal(s.arrList, value);
    (SmallSet(al), added)
  }

  /** Adding an element twice is adding it once: the second `add` answers
      false and changes nothing. */
  lemma AddIdempotent<E>(s: SmallSet<E>, value: E)
    requires Valid(s)
    ensures Add(Add(s, value).0, value) == (Add(s, value).0, false)
  {
    assert value in Elements(Add(s, value).0);
  }

  /** `putAllInternal(al, s)`: `putInternal` of each source element in the
      source's iteration order. The elements afterwards are the old ones
      together with the source's. */
  function PutAllInternal<E(==)>(al: seq<E>, source: seq<E>): (r: seq<E>)
    ensures NoDuplicates(al) ==> NoDuplicates(r)
    ensures ToSet(r) == ToSet(al) + ToSet(source)
    decreases |source|
  {
    if |source| == 0 then al
    else
      var p := PutInternal(al, source[0]);
      assert ToSet(source) == {source[0]} + ToSet(source[1..]);
      PutAllInternal(p.0, source[1..])
  }

  /** When the source's elements are distinct and new, `putAllInternal`
      appends them in the source's order. */
  lemma {:induction false} PutAllInternalAppends<E>(al: seq<E>, source: seq<E>)
    requires NoDuplicates(al + source)
    ensures PutAllInternal(al, source) == al + source
    decreases |source|
  {
    if |source| > 0 {
      var x := source[0];
      forall j | 0 <= j < |al|
        ensures al[j] != x
      {
        assert (al + source)[j] == al[j] && (al + source)[|al|] == x;
      }
      assert (al + [x]) + source[1..] == al + source;
      PutAllInternalAppends(al + [x], source[1..]);
    }
  }

  /** `new SmallSet(s)`: the source's elements added in its iteration order.
      The result holds exactly the source's elements, once each; a source
      without repetitions (any java.util.Set) is copied element for element,
      in order. */
  function FromSet<E(==)>(source: seq<E>): (r: SmallSet<E>)
    ensures Valid(r)
    ensures Elements(r) == ToSet(source)
    ensures NoDuplicates(source) ==> r.arrList == source
  {
    var al := New<E>().arrList;
    if NoDuplicates(source) then
      PutAllInternalAppends(al, source);
      SmallSet(PutAllInternal(al, source))
    else
      SmallSet(PutAllInternal(al, source))
  }

  /** However often an element occurs in the source, the copy's size is the
      number of distinct elements. */
  lemma FromSetCountsDistinct<E>(source: seq<E>)
    ensures Size(FromSet(source)) == |ToSet(source)|
  {
  }

  /** Copying a SmallSet into a new one gives it back, element for element. */
  lemma RoundTrip<E>(s: SmallSet<E>)
    requires Valid(s)
    ensures FromSet(s.arrList) == s
  {
  }

  // The cursor.

  /** The `iterator()` cursor: the set it walks, `position`, and whether the
      last call on it was `next` (only then is `remove` allowed). */
  datatype ElementIterator<E> = ElementIterator(owner: SmallSet<E>, position: int, lastWasNext: bool)

  /** Every cursor reachable through `next` and `remove` from a fresh one. */
  predicate IteratorValid<E(==)>(it: ElementIterator<E>) {
    && Valid(it.owner)
    && 0 <= it.position <= Size(it.owner)
    && (it.lastWasNext ==> 1 <= it.position)
  }

  /** The elements before the cursor: produced and not removed. */
  function Visited<E(==)>(it: ElementIterator<E>): seq<E>
    requires IteratorValid(it)
  {
    it.owner.arrList[..it.position]
  }

  /** The elements the cursor has still to produce. */
  function Remaining<E(==)>(it: ElementIterator<E>): seq<E>
    requires IteratorValid(it)
  {
    it.owner.arrList[it.position..]
  }

  /** `iterator()`: a cursor with every element still to come. */
  function Iterator<E(==)>(s: SmallSet<E>): (it: ElementIterator<E>)
    requires Valid(s)
    ensures IteratorValid(it) && it.owner == s && !it.lastWasNext
    ensures Visited(it) == [] && Remaining(it) == s.arrList
  {
    ElementIterator(s, 0, false)
  }

  /** `hasNext()`: compares the position with the live size. */
  function HasNext<E(==)>(it: ElementIterator<E>): (b: bool)
    requires IteratorValid(it)
    ensures b <==> Remaining(it) != []
  {
    it.position < Size(it.owner)
  }

  /** `next()`: the element at `position`, and the cursor moved one past it.
      Calling it when `hasNext()` is false is not modelled. */
  function Next<E(==)>(it: ElementIterator<E>): (r: (E, ElementIterator<E>))
    requires IteratorValid(it) && HasNext(it)
    ensures IteratorValid(r.1) && r.1.owner == it.owner && r.1.lastWasNext
    ensures Remaining(it) == [r.0] + Remaining(r.1)
    ensures Visited(r.1) == Visited(it) + [r.0]
  {
    var pos := it.position;
    (it.owner.arrList[pos], it.(position := pos + 1, lastWasNext := true))
  }

  /** `remove()` right after `next()`: steps `position` back and deletes that
      index, so the element just produced is gone, the rest keep their order,
      and the next `next()` produces the element that came after it. Calling
      it in any other state is not modelled. */
  function Remove<E(==)>(it: ElementIterator<E>): (r: ElementIterator<E>)
    requires IteratorValid(it) && it.lastWasNext
    ensures IteratorValid(r) && !r.lastWasNext
    ensures Remaining(r) == Remaining(it)
    ensures Visited(r) == Visited(it)[..it.position - 1]
    ensures r.owner.arrList == RemoveAt(it.owner.arrList, it.position - 1)
    ensures Elements(r.owner) == Elements(it.owner) - {it.owner.arrList[it.position - 1]}
    ensures Size(r.owner) == Size(it.owner) - 1
  {
    var pos := it.position - 1;
    var al := it.owner.arrList;
    RemoveAtElements(al, pos);
    var r := ElementIterator(SmallSet(RemoveAt(al, pos)), pos, false);
    assert RemoveAt(al, pos)[pos..] == al[pos + 1..];
    assert RemoveAt(al, pos)[..pos] == al[..pos];
    r
  }

  // AbstractCollection's operations, which reach the array only through the cursor.

  /** The search loop of AbstractCollection's `contains` and `remove`:
      `next()` until `value` comes out or `hasNext()` fails. When found, the
      cursor has just produced it. */
  function Seek<E(==)>(it: ElementIterator<E>, value: E): (r: (bool, ElementIterator<E>))
    requires IteratorValid(it)
    ensures IteratorValid(r.1) && r.1.owner == it.owner
    ensures r.0 <==> value in Remaining(it)
    ensures r.0 ==> r.1.lastWasNext && it.owner.arrList[r.1.position - 1] == value
    decreases Size(it.owner) - it.position
  {
    if !HasNext(it) then (false, it)
    else
      var (e, it') := Next(it);
      if e == value then (true, it') else Seek(it', value)
  }

  /** AbstractCollection.contains. */
  function Contains<E(==)>(s: SmallSet<E>, value: E): (b: bool)
    requires Valid(s)
    ensures b <==> value in Elements(s)
  {
    Seek(Iterator(s), value).0
  }

  /** AbstractCollection.remove(value): the search loop, then the cursor's
      `remove()`. A present element is taken out, the rest keep their order,
      and the answer is true; an absent one leaves the set as it was and the
      answer is false. */
  function RemoveElement<E(==)>(s: SmallSet<E>, value: E): (r: (SmallSet<E>, bool))
    requires Valid(s)
    ensures Valid(r.0)
    ensures r.1 <==> value in Elements(s)
    ensures r.1 ==>
              && Elements(r.0) == Elements(s) - {value}
              && Size(r.0) == Size(s) - 1
              && r.0.arrList == RemoveAt(s.arrList, IndexOf(s.arrList, value))
    ensures !r.1 ==> r.0 == s
  {
    var (found, it) := Seek(Iterator(s), value);
    if found then
      assert IndexOf(s.arrList, value) == it.position - 1;
      (Remove(it).owner, true)
    else
      (s, false)
  }

  /** The loop of AbstractCollection.clear: `next()` then `remove()` while
      `hasNext()`. Everything from the cursor on is removed. */
  function ClearFrom<E(==)>(it: ElementIterator<E>): (r: SmallSet<E>)
    requires IteratorValid(it) && !it.lastWasNext
    ensures Valid(r)
    ensures r.arrList == Visited(it)
    decreases Size(it.owner) - it.position
  {
    if !HasNext(it) then
      assert it.owner.arrList == Visited(it) + Remaining(it);
      it.owner
    else
      ClearFrom(Remove(Next(it).1))
  }

  /** AbstractCollection.clear: afterwards the set is empty. */
  function Clear<E(==)>(s: SmallSet<E>): (r: SmallSet<E>)
    requires Valid(s)
    ensures Valid(r) && Size(r) == 0 && Elements(r) == {}
  {
    ClearFrom(Iterator(s))
  }

  // Full passes of the cursor.

  /** A full pass of `next()` calls produces every element once, in insertion
      order. */
  method ElementsInOrder<E(==)>(s: SmallSet<E>) returns (es: seq<E>)
    requires Valid(s)
    ensures es == s.arrList
  {
    var it := Iterator(s);
    es := [];
    while HasNext(it)
      invariant IteratorValid(it) && it.owner == s
      invariant es == Visited(it)
      decreases Size(s) - it.position
    {
      var step := Next(it);
      es := es + [step.0];
      it := step.1;
    }
    assert s.arrList == Visited(it) + Remaining(it);
  }

  /** The rest of a pass that calls `remove()` right after each produced
      element that `drop` selects (the loop of Collection.removeIf): every
      remaining element is produced exactly once, in order, and of those
      exactly the selected ones are gone. */
  function RemoveWhereFrom<E(==)>(it: ElementIterator<E>, drop: E -> bool): (r: (seq<E>, SmallSet<E>))
    requires IteratorValid(it)
    ensures Valid(r.1)
    ensures r.0 == Remaining(it)
    ensures r.1.arrList == Visited(it) + Retained(Remaining(it), drop)
    decreases Size(it.owner) - it.position
  {
    if !HasNext(it) then
      assert it.owner.arrList == Visited(it) + Remaining(it);
      ([], it.owner)
    else
      var (e, it1) := Next(it);
      var it2 := if drop(e) then Remove(it1) else it1;
      var (rest, s) := RemoveWhereFrom(it2, drop);
      assert Remaining(it2) == Remaining(it)[1..];
      assert Visited(it2) == Visited(it) + (if drop(e) then [] else [e]);
      RetainedStep(Visited(it), Remaining(it), e, drop);
      ([e] + rest, s)
  }

  /** A full such pass from a fresh cursor: every original element is
      produced once, in order, and the set keeps exactly the unselected
      elements, in their original order. */
  function RemoveWhere<E(==)>(s: SmallSet<E>, drop: E -> bool): (r: (seq<E>, SmallSet<E>))
    requires Valid(s)
    ensures Valid(r.1)
    ensures r.0 == s.arrList
    ensures r.1.arrList == Retained(s.arrList, drop)
  {
    RemoveWhereFrom(Iterator(s), drop)
  }
}
