/** Building blocks shared by the small containers: the java.util.ArrayList
    operations `indexOf` and `remove(int)` (`contains` and `set` are written
    inline as `in` and `[i := v]`), the two static
    helpers `putInternal` and `putAllInternal` that both map classes define
    identically, and the mapping a pair of parallel arrays stands for. */
module ParallelArrays {

  /** An optional value; `None` is the Java `null` that `put`, `get` and
      `remove` return when there was no mapping. */
  datatype Option<T> = None | Some(value: T)

  /** No element occurs at two different indices. */
  predicate NoDuplicates<T(==)>(s: seq<T>) {
    forall i, j | 0 <= i < j < |s| :: s[i] != s[j]
  }

  /** The elements of a sequence, forgetting order and repetition. */
  function ToSet<T>(s: seq<T>): set<T> {
    set x | x in s
  }

  /** Without repetitions, a sequence has as many distinct elements as it is long. */
  lemma {:induction false} NoDuplicatesCardinality<T>(s: seq<T>)
    requires NoDuplicates(s)
    ensures |ToSet(s)| == |s|
  {
    if |s| > 0 {
      var init := s[..|s| - 1];
      assert NoDuplicates(init);
      NoDuplicatesCardinality(init);
      assert ToSet(s) == ToSet(init) + {s[|s| - 1]};
      assert s[|s| - 1] !in ToSet(init);
    }
  }

  /** ArrayList.indexOf: the first index holding `x`, or -1 when there is none. */
  function IndexOf<T(==)>(s: seq<T>, x: T): (r: int)
    ensures -1 <= r < |s|
    ensures r == -1 <==> x !in s
    ensures 0 <= r ==> s[r] == x && forall j | 0 <= j < r :: s[j] != x
  {
    if |s| == 0 then -1
    else if s[0] == x then 0
    else
      var i := IndexOf(s[1..], x);
      if i == -1 then -1 else i + 1
  }

  /** ArrayList.remove(int): the element at `i` goes and later ones shift down. */
  function RemoveAt<T>(s: seq<T>, i: int): (r: seq<T>)
    requires 0 <= i < |s|
    ensures |r| == |s| - 1
    ensures forall j | 0 <= j < i :: r[j] == s[j]
    ensures forall j | i <= j < |r| :: r[j] == s[j + 1]
  {
    s[..i] + s[i + 1..]
  }

  /** Removing an index keeps a duplicate-free sequence duplicate-free, and
      drops exactly the element that was there. */
  lemma RemoveAtElements<T>(s: seq<T>, i: int)
    requires 0 <= i < |s| && NoDuplicates(s)
    ensures NoDuplicates(RemoveAt(s, i))
    ensures ToSet(RemoveAt(s, i)) == ToSet(s) - {s[i]}
  {
    var r := RemoveAt(s, i);
    forall x | x in s && x != s[i]
      ensures x in r
    {
      var j :| 0 <= j < |s| && s[j] == x;
      var k := if j < i then j else j - 1;
      assert r[k] == x;
    }
    forall x | x in r
      ensures x in s && x != s[i]
    {
      var j :| 0 <= j < |r| && r[j] == x;
      var k := if j < i then j else j + 1;
      assert s[k] == x;
    }
  }

  /** The (key, value) pairs of two parallel arrays, index by index. */
  function Zip<K, V>(ks: seq<K>, vs: seq<V>): (r: seq<(K, V)>)
    requires |ks| == |vs|
    ensures |r| == |ks|
    ensures forall i | 0 <= i < |r| :: r[i] == (ks[i], vs[i])
  {
    seq(|ks|, i requires 0 <= i < |ks| => (ks[i], vs[i]))
  }

  /** The keys of a sequence of entries, in order. */
  function KeysOf<K, V>(es: seq<(K, V)>): (r: seq<K>)
    ensures |r| == |es|
    decreases |es|
  {
    if |es| == 0 then [] else [es[0].0] + KeysOf(es[1..])
  }

  /** The values of a sequence of entries, in order. */
  function ValuesOf<K, V>(es: seq<(K, V)>): (r: seq<V>)
    ensures |r| == |es|
    decreases |es|
  {
    if |es| == 0 then [] else [es[0].1] + ValuesOf(es[1..])
  }

  /** Zipping the keys and values of a sequence of entries gives it back. */
  lemma {:induction false} ZipKeysValues<K, V>(es: seq<(K, V)>)
    ensures Zip(KeysOf(es), ValuesOf(es)) == es
    decreases |es|
  {
    if |es| > 0 {
      ZipKeysValues(es[1..]);
      assert Zip(KeysOf(es), ValuesOf(es)) == [es[0]] + Zip(KeysOf(es[1..]), ValuesOf(es[1..]));
    }
  }

  /** Zipping commutes with removing an index from both arrays. */
  lemma ZipRemoveAt<K, V>(ks: seq<K>, vs: seq<V>, i: int)
    requires |ks| == |vs| && 0 <= i < |ks|
    ensures Zip(RemoveAt(ks, i), RemoveAt(vs, i)) == RemoveAt(Zip(ks, vs), i)
    ensures Zip(RemoveAt(ks, i), RemoveAt(vs, i))[..i] == Zip(ks, vs)[..i]
    ensures Zip(RemoveAt(ks, i), RemoveAt(vs, i))[i..] == Zip(ks, vs)[i + 1..]
  {
    var e, r := Zip(ks, vs), Zip(RemoveAt(ks, i), RemoveAt(vs, i));
    assert r == RemoveAt(e, i);
    assert r[..i] == e[..i];
  }

  /** Elements in `s` that `drop` does not select, in their original order. */
  function Retained<T>(s: seq<T>, drop: T -> bool): (r: seq<T>)
    ensures |r| <= |s|
    decreases |s|
  {
    if |s| == 0 then [] else (if drop(s[0]) then [] else [s[0]]) + Retained(s[1..], drop)
  }

  /** One step of a filtering pass: producing `e` off the front of what
      remains and keeping it or not extends the filtered prefix accordingly. */
  lemma {:induction false} RetainedStep<T>(done: seq<T>, remaining: seq<T>, e: T, drop: T -> bool)
    requires |remaining| > 0 && remaining[0] == e
    ensures done + Retained(remaining, drop)
            == (done + (if drop(e) then [] else [e])) + Retained(remaining[1..], drop)
  {
    var kept := if drop(e) then [] else [e];
    assert Retained(remaining, drop) == kept + Retained(remaining[1..], drop);
    assert done + (kept + Retained(remaining[1..], drop)) == (done + kept) + Retained(remaining[1..], drop);
  }

  /** Moving the head of `s` onto the end of `a` leaves the concatenation alone. */
  lemma AppendHead<T>(a: seq<T>, s: seq<T>)
    requires |s| > 0
    ensures (a + [s[0]]) + s[1..] == a + s
  {
    assert s == [s[0]] + s[1..];
  }

  /** Zipping commutes with appending one key and one value. */
  lemma ZipSnoc<K, V>(ks: seq<K>, vs: seq<V>, k: K, v: V)
    requires |ks| == |vs|
    ensures Zip(ks + [k], vs + [v]) == Zip(ks, vs) + [(k, v)]
  {
  }

  /** Being a prefix is transitive. */
  lemma PrefixOfPrefix<T>(a: seq<T>, b: seq<T>, c: seq<T>)
    requires |a| <= |b| <= |c| && b[..|a|] == a && c[..|b|] == b
    ensures c[..|a|] == a
  {
    assert c[..|a|] == c[..|b|][..|a|];
  }

  /** The mapping a pair of parallel arrays with unique keys stands for. */
  function AsMap<K(==), V>(ks: seq<K>, vs: seq<V>): (r: map<K, V>)
    requires |ks| == |vs| && NoDuplicates(ks)
    ensures r.Keys == ToSet(ks)
    ensures forall i | 0 <= i < |ks| :: r[ks[i]] == vs[i]
  {
    map i | 0 <= i < |ks| :: ks[i] := vs[i]
  }

  /** The mapping a source's entries produce when `put` one after another
      into `acc`: a later entry for a key overrides an earlier one. */
  function Overlay<K, V>(acc: map<K, V>, es: seq<(K, V)>): map<K, V>
    decreases |es|
  {
    if |es| == 0 then acc else Overlay(acc[es[0].0 := es[0].1], es[1..])
  }

  /** The keys an overlay binds: the old ones and every key among the entries,
      however often it occurs. */
  lemma {:induction false} OverlayKeys<K, V>(acc: map<K, V>, es: seq<(K, V)>)
    ensures Overlay(acc, es).Keys == acc.Keys + ToSet(KeysOf(es))
    decreases |es|
  {
    if |es| > 0 {
      OverlayKeys(acc[es[0].0 := es[0].1], es[1..]);
      assert ToSet(KeysOf(es)) == {es[0].0} + ToSet(KeysOf(es[1..]));
    }
  }

  /** The state `putInternal` leaves its two arrays in, and what it returns. */
  datatype PutResult<K, V> = PutResult(keyArray: seq<K>, valueArray: seq<V>, previous: Option<V>)

  /** `putInternal(ka, va, key, value)`: a linear `indexOf` scan for `key`;
      an absent key is appended to both arrays and the call answers `null`,
      a present key has only its value replaced and the call answers the
      value it had. */
  function PutInternal<K(==), V>(ka: seq<K>, va: seq<V>, key: K, value: V): (r: PutResult<K, V>)
    requires |ka| == |va|
    ensures |r.keyArray| == |r.valueArray|
    ensures key in r.keyArray
    ensures NoDuplicates(ka) ==> NoDuplicates(r.keyArray)
    ensures key !in ka ==>
              && r.keyArray == ka + [key]
              && r.valueArray == va + [value]
              && r.previous == None
    ensures key in ka ==> r.keyArray == ka && |r.valueArray| == |va| && r.previous.Some?
    ensures forall i | 0 <= i < |ka| && ka[i] == key && NoDuplicates(ka) ::
              && r.valueArray == va[i := value]
              && r.previous == Some(va[i])
  {
    var ind := IndexOf(ka, key);
    if -1 == ind then
      PutResult(ka + [key], va + [value], None)
    else
      PutResult(ka, va[ind := value], Some(va[ind]))
  }

  /** Appending a new key to both arrays adds that one mapping. */
  lemma AsMapAppend<K, V>(ks: seq<K>, vs: seq<V>, k: K, v: V)
    requires |ks| == |vs| && NoDuplicates(ks) && k !in ks
    ensures NoDuplicates(ks + [k])
    ensures AsMap(ks + [k], vs + [v]) == AsMap(ks, vs)[k := v]
  {
    var before := AsMap(ks, vs);
    var after := AsMap(ks + [k], vs + [v]);
    assert ToSet(ks + [k]) == ToSet(ks) + {k};
    forall x | x in after
      ensures after[x] == before[k := v][x]
    {
      var j :| 0 <= j < |ks + [k]| && (ks + [k])[j] == x;
      if j < |ks| { assert ks[j] == x; }
    }
  }

  /** Overwriting the value at index `i` rebinds only the key stored there. */
  lemma AsMapSet<K, V>(ks: seq<K>, vs: seq<V>, i: int, v: V)
    requires |ks| == |vs| && NoDuplicates(ks) && 0 <= i < |ks|
    ensures AsMap(ks, vs[i := v]) == AsMap(ks, vs)[ks[i] := v]
  {
    var before := AsMap(ks, vs);
    var after := AsMap(ks, vs[i := v]);
    forall x | x in after
      ensures after[x] == before[ks[i] := v][x]
    {
      var j :| 0 <= j < |ks| && ks[j] == x;
    }
  }

  /** Removing index `i` from both arrays drops exactly the mapping of `ks[i]`. */
  lemma AsMapRemoveAt<K, V>(ks: seq<K>, vs: seq<V>, i: int)
    requires |ks| == |vs| && NoDuplicates(ks) && 0 <= i < |ks|
    ensures NoDuplicates(RemoveAt(ks, i))
    ensures AsMap(RemoveAt(ks, i), RemoveAt(vs, i)) == AsMap(ks, vs) - {ks[i]}
  {
    RemoveAtElements(ks, i);
    var after := AsMap(RemoveAt(ks, i), RemoveAt(vs, i));
    assert after.Keys == AsMap(ks, vs).Keys - {ks[i]};
    forall x | x in after
      ensures after[x] == AsMap(ks, vs)[x]
    {
      AsMapRemoveAtValue(ks, vs, i, x);
    }
  }

  /** A key that survives the removal of index `i` keeps its value. */
  lemma AsMapRemoveAtValue<K, V>(ks: seq<K>, vs: seq<V>, i: int, x: K)
    requires |ks| == |vs| && NoDuplicates(ks) && 0 <= i < |ks|
    requires NoDuplicates(RemoveAt(ks, i)) && x in AsMap(RemoveAt(ks, i), RemoveAt(vs, i))
    ensures x in AsMap(ks, vs)
    ensures AsMap(RemoveAt(ks, i), RemoveAt(vs, i))[x] == AsMap(ks, vs)[x]
  {
    var rk, rv := RemoveAt(ks, i), RemoveAt(vs, i);
    var j :| 0 <= j < |rk| && rk[j] == x;
    var k := if j < i then j else j + 1;
    assert rk[j] == ks[k] && rv[j] == vs[k];
  }

  /** On unique keys, `putInternal` behaves as a map update whose answer is
      the key's previous value. */
  lemma PutInternalUpdates<K, V>(ka: seq<K>, va: seq<V>, key: K, value: V)
    requires |ka| == |va| && NoDuplicates(ka)
    ensures AsMap(PutInternal(ka, va, key, value).keyArray, PutInternal(ka, va, key, value).valueArray)
            == AsMap(ka, va)[key := value]
    ensures PutInternal(ka, va, key, value).previous
            == if key in AsMap(ka, va) then Some(AsMap(ka, va)[key]) else None
  {
    if key in ka {
      var i := IndexOf(ka, key);
      AsMapSet(ka, va, i, value);
    } else {
      AsMapAppend(ka, va, key, value);
    }
  }

  /** `putAllInternal(ka, va, m)`: `putInternal` of each of the source's
      entries, in the source's own iteration order. */
  function PutAllInternal<K(==), V>(ka: seq<K>, va: seq<V>, m: seq<(K, V)>): (r: (seq<K>, seq<V>))
    requires |ka| == |va|
    ensures |r.0| == |r.1|
    ensures NoDuplicates(ka) ==> NoDuplicates(r.0)
    decreases |m|
  {
    if |m| == 0 then (ka, va)
    else
      var p := PutInternal(ka, va, m[0].0, m[0].1);
      var r := PutAllInternal(p.keyArray, p.valueArray, m[1..]);
      r
  }

  /** On unique keys, `putAllInternal` overlays the source's entries onto the
      mapping the arrays held, later entries winning. */
  lemma {:induction false} PutAllInternalOverlays<K, V>(ka: seq<K>, va: seq<V>, m: seq<(K, V)>)
    requires |ka| == |va| && NoDuplicates(ka)
    ensures AsMap(PutAllInternal(ka, va, m).0, PutAllInternal(ka, va, m).1) == Overlay(AsMap(ka, va), m)
    decreases |m|
  {
    if |m| > 0 {
      var p := PutInternal(ka, va, m[0].0, m[0].1);
      PutInternalUpdates(ka, va, m[0].0, m[0].1);
      PutAllInternalOverlays(p.keyArray, p.valueArray, m[1..]);
    }
  }

  /** Entries whose keys are pairwise distinct and absent from `ka`. */
  predicate FreshKeys<K(==), V>(ka: seq<K>, m: seq<(K, V)>) {
    && (forall i | 0 <= i < |m| :: m[i].0 !in ka)
    && (forall i, j | 0 <= i < j < |m| :: m[i].0 != m[j].0)
  }

  /** After the first entry is appended, the rest of the source is still fresh. */
  lemma FreshKeysTail<K, V>(ka: seq<K>, m: seq<(K, V)>)
    requires |m| > 0 && FreshKeys(ka, m)
    ensures m[0].0 !in ka
    ensures FreshKeys(ka + [m[0].0], m[1..])
  {
    var rest := m[1..];
    forall i | 0 <= i < |rest|
      ensures rest[i].0 !in ka + [m[0].0]
    {
      assert rest[i] == m[i + 1];
      assert m[0].0 != m[i + 1].0;
    }
    forall i, j | 0 <= i < j < |rest|
      ensures rest[i].0 != rest[j].0
    {
      assert rest[i] == m[i + 1] && rest[j] == m[j + 1];
    }
  }

  /** `putAllInternal` of a source whose first key is new appends that entry,
      then carries on with the rest. */
  lemma PutAllInternalStep<K, V>(ka: seq<K>, va: seq<V>, m: seq<(K, V)>)
    requires |ka| == |va| && |m| > 0 && m[0].0 !in ka
    ensures PutAllInternal(ka, va, m) == PutAllInternal(ka + [m[0].0], va + [m[0].1], m[1..])
  {
    assert PutInternal(ka, va, m[0].0, m[0].1) == PutResult(ka + [m[0].0], va + [m[0].1], None);
  }

  /** When every source key is new, `putAllInternal` appends the source's
      entries, in order, to the end of both arrays. */
  lemma {:induction false} PutAllInternalAppends<K, V>(ka: seq<K>, va: seq<V>, m: seq<(K, V)>)
    requires |ka| == |va| && FreshKeys(ka, m)
    ensures PutAllInternal(ka, va, m) == (ka + KeysOf(m), va + ValuesOf(m))
    decreases |m|
  {
    if |m| == 0 {
      assert ka + KeysOf(m) == ka && va + ValuesOf(m) == va;
    } else {
      var k, v, rest := m[0].0, m[0].1, m[1..];
      FreshKeysTail(ka, m);
      PutAllInternalStep(ka, va, m);
      PutAllInternalAppends(ka + [k], va + [v], rest);
      assert (ka + [k]) + KeysOf(rest) == ka + ([k] + KeysOf(rest));
      assert (va + [v]) + ValuesOf(rest) == va + ([v] + ValuesOf(rest));
    }
  }
}
