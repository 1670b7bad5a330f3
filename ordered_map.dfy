/**
 * The ordered map and its iteration cursor.
 *
 * A `Map` keeps a Go map `m` from key to value, a slice `keys` of the live
 * keys kept strictly sorted, and a counter `iter` of open `MapIterator`s.
 * Writes are refused while the counter is nonzero; every operation is
 * refused on a map that did not come from `NewMap`.  Go panics are modelled
 * as the outcome `Panic(fault)`, so the guards can be stated in contracts.
 */
module Ordered {
  import opened Order

  /** The comparison function handed to `NewMap`: nil, or Go's `<` on strings. */
  datatype LessFunc = NilLess | StringLess

  /** Read-only or read-write operation, as annotated on each invariant check. */
  datatype Op = ReadOnly | ReadWrite

  /** The reasons the source panics. */
  datatype Fault =
    | NilLessFunc            // NewMap(nil)
    | NotConstructed         // a Map that did not come from NewMap
    | WriteWhileIterating    // Set, Delete or Reset while a MapIterator is open
    | CloseWhileNotOpen      // Close drove the open-iterator counter below zero
    | IteratorNotConstructed // a MapIterator that did not come from Iter

  datatype Result<T> = Ok(value: T) | Panic(fault: Fault)

  datatype Option<T> = None | Some(value: T)

  /** A key/value pair produced by Range, Next and All. */
  datatype KeyValue<V> = KeyValue(key: string, value: V)

  /** Go's `int32`, the type of the open-iterator counter. */
  newtype int32 = x: int | -0x8000_0000 <= x < 0x8000_0000

  /**
   * `atomic.AddInt32`: the two's-complement sum, which wraps around at the
   * ends of the `int32` range.
   */
  function AddInt32(a: int32, d: int32): (r: int32)
    ensures (r as int - (a as int + d as int)) % 0x1_0000_0000 == 0
    ensures -0x8000_0000 <= a as int + d as int < 0x8000_0000 ==> r as int == a as int + d as int
  {
    var s := a as int + d as int;
    if s >= 0x8000_0000 then (s - 0x1_0000_0000) as int32
    else if s < -0x8000_0000 then (s + 0x1_0000_0000) as int32
    else s as int32
  }

  /** Every key of the slice is stored in the map. */
  ghost predicate Covered<V>(keys: seq<string>, m: map<string, V>) {
    forall k :: k in keys ==> k in m
  }

  /** The pairs `(keys[j], m[keys[j]])` in slice order. */
  function Pairs<V>(keys: seq<string>, m: map<string, V>): (kvs: seq<KeyValue<V>>)
    requires Covered(keys, m)
    ensures |kvs| == |keys|
    decreases |keys|
  {
    if |keys| == 0 then [] else [KeyValue(keys[0], m[keys[0]])] + Pairs(keys[1..], m)
  }

  lemma {:induction false} PairsAt<V>(keys: seq<string>, m: map<string, V>)
    requires Covered(keys, m)
    ensures |Pairs(keys, m)| == |keys|
    ensures forall j :: 0 <= j < |keys| ==> Pairs(keys, m)[j] == KeyValue(keys[j], m[keys[j]])
    decreases |keys|
  {
    if |keys| > 0 {
      PairsAt(keys[1..], m);
    }
  }

  /**
   * Splicing the position of `k` out of a sorted key slice that matches the
   * keys of `m`, if it occurs, leaves a sorted slice that matches `m - {k}`.
   */
  lemma SpliceOut<V>(keys: seq<string>, m: map<string, V>, k: string)
    requires StrictlySorted(keys) && forall x :: x in keys <==> x in m
    ensures var i := IndexOf(keys, k);
            var rest := if i == -1 then keys else keys[..i] + keys[i + 1..];
            && (i != -1 <==> k in m)
            && StrictlySorted(rest)
            && (forall x :: x in rest <==> x in m - {k})
            && (forall x :: x in rest <==> x in keys && x != k)
            && (k in m ==> |rest| == |keys| - 1)
            && (k !in m ==> rest == keys)
  {
    var i := IndexOf(keys, k);
    if i != -1 {
      RemoveAtSorted(keys, i);
    }
  }

  /**
   * Appending a key new to `m` and re-sorting gives a sorted slice that
   * matches `m[k := v]`, with `k` placed after the keys below it.
   */
  lemma AppendNew<V>(keys: seq<string>, m: map<string, V>, k: string, v: V)
    requires StrictlySorted(keys) && (forall x :: x in keys <==> x in m) && k !in m
    ensures Distinct(keys + [k])
    ensures var sorted := SortKeys(keys + [k]);
            var p := Rank(keys, k);
            && StrictlySorted(sorted)
            && (forall x :: x in sorted <==> x in m[k := v])
            && sorted == keys[..p] + [k] + keys[p..]
            && |sorted| == |keys| + 1
            && multiset(sorted) == multiset(keys) + multiset{k}
  {
    AppendThenSort(keys, k);
    SameMembers(SortKeys(keys + [k]), keys + [k]);
  }

  class Map<V> {
    /** False for a zero `Map`, whose `less` is nil. */
    var constructed: bool
    var keys: seq<string>
    var m: map<string, V>
    /** The number of open MapIterators; it may drop below zero. */
    var iter: int32
    /** The zero value of `V`, which Go returns for an absent key. */
    const zero: V

    /** `keys` is sorted, duplicate-free and holds exactly the keys of `m`. */
    ghost predicate Valid()
      reads this
    {
      StrictlySorted(keys) && forall k :: k in keys <==> k in m
    }

    /** The zero value `Map[K, V]{}`: no less function, no entries. */
    constructor Zero(zero: V)
      ensures !constructed && keys == [] && m == map[] && iter == 0 && this.zero == zero
      ensures Valid()
    {
      constructed := false;
      keys := [];
      m := map[];
      iter := 0;
      this.zero := zero;
    }

    /** The composite literal NewMap returns once its check has passed. */
    constructor WithLess(zero: V)
      ensures constructed && keys == [] && m == map[] && iter == 0 && this.zero == zero
      ensures Valid()
    {
      constructed := true;
      keys := [];
      m := map[];
      iter := 0;
      this.zero := zero;
    }

    /** Refuses a nil less function; otherwise an empty, constructed map. */
    static method NewMap(less: LessFunc, zero: V) returns (r: Result<Map<V>>)
      ensures r.Panic? <==> less == NilLess
      ensures r.Panic? ==> r.fault == NilLessFunc
      ensures r.Ok? ==> fresh(r.value) && r.value.Valid() && r.value.zero == zero
      ensures r.Ok? ==> r.value.constructed && r.value.keys == [] && r.value.m == map[] && r.value.iter == 0
    {
      if less == NilLess {
        return Panic(NilLessFunc);
      }
      var mp := new Map.WithLess(zero);
      return Ok(mp);
    }

    /**
     * The invariant check run first by every Map operation: an unconstructed
     * map fails every operation, and a write fails while iterators are open.
     */
    function Check(op: Op): (r: Result<()>)
      reads this
      ensures r.Panic? <==> !constructed || (op == ReadWrite && iter != 0)
      ensures r.Panic? && !constructed ==> r.fault == NotConstructed
      ensures r.Panic? && constructed ==> r.fault == WriteWhileIterating
      ensures op == ReadOnly ==> (r.Ok? <==> constructed)
    {
      if !constructed then Panic(NotConstructed)
      else if op == ReadWrite && iter != 0 then Panic(WriteWhileIterating)
      else Ok(())
    }

    /** The value stored for `k`, or the zero value. */
    function Get(k: string): (r: Result<V>)
      reads this
      ensures r.Panic? <==> !constructed
      ensures r.Panic? ==> r.fault == NotConstructed
      ensures r.Ok? && k in m ==> r.value == m[k]
      ensures r.Ok? && k !in m ==> r.value == zero
    {
      match Check(ReadOnly)
      case Panic(f) => Panic(f)
      case Ok(_) => Ok(if k in m then m[k] else zero)
    }

    /** The value stored for `k` and whether `k` is present. */
    function TryGet(k: string): (r: Result<(V, bool)>)
      reads this
      requires Valid()
      ensures r.Panic? <==> !constructed
      ensures r.Panic? ==> r.fault == NotConstructed
      ensures r.Ok? ==> (r.value.1 <==> k in keys)
      ensures r.Ok? ==> r.value.0 == (if k in m then m[k] else zero)
    {
      match Check(ReadOnly)
      case Panic(f) => Panic(f)
      case Ok(_) => if k in m then Ok((m[k], true)) else Ok((zero, false))
    }

    /** The number of entries: the length of `keys`, which is also the size of `m`. */
    function Len(): (r: Result<int>)
      reads this
      requires Valid()
      ensures r.Panic? <==> !constructed
      ensures r.Panic? ==> r.fault == NotConstructed
      ensures r.Ok? ==> r.value == |keys| && r.value == |m|
    {
      match Check(ReadOnly)
      case Panic(f) => Panic(f)
      case Ok(_) =>
        SortedCardinality(keys);
        assert m.Keys == set x | x in keys;
        Ok(|keys|)
    }

    /** Inserts or updates `k`; a new key is appended and the keys re-sorted. */
    method Set(k: string, v: V) returns (r: Result<()>)
      requires Valid()
      modifies this
      ensures Valid()
      ensures r == old(Check(ReadWrite))
      ensures r.Panic? ==> keys == old(keys) && m == old(m)
      ensures r.Ok? ==> m == old(m)[k := v]
      ensures r.Ok? && k in old(m) ==> keys == old(keys)
      ensures r.Ok? && k !in old(m) ==>
                var p := Rank(old(keys), k);
                keys == old(keys)[..p] + [k] + old(keys)[p..]
      ensures r.Ok? && k !in old(m) ==>
                |keys| == |old(keys)| + 1 && multiset(keys) == multiset(old(keys)) + multiset{k}
      ensures constructed == old(constructed) && iter == old(iter)
    {
      r := Check(ReadWrite);
      if r.Panic? {
        return;
      }
      if k !in m {
        AppendNew(keys, m, k, v);
        keys := SortKeys(keys + [k]);
      }
      m := m[k := v];
    }

    /** Removes `k` from `keys` and from `m`; absent keys are ignored. */
    method Delete(k: string) returns (r: Result<()>)
      requires Valid()
      modifies this
      ensures Valid()
      ensures r == old(Check(ReadWrite))
      ensures r.Panic? ==> keys == old(keys) && m == old(m)
      ensures r.Ok? ==> m == old(m) - {k}
      ensures r.Ok? && k in old(m) ==>
                var i := IndexOf(old(keys), k);
                keys == old(keys)[..i] + old(keys)[i + 1..] && |keys| == |old(keys)| - 1
      ensures r.Ok? && k !in old(m) ==> keys == old(keys)
      ensures r.Ok? ==> forall x :: x in keys <==> x in old(keys) && x != k
      ensures constructed == old(constructed) && iter == old(iter)
    {
      r := Check(ReadWrite);
      if r.Panic? {
        return;
      }
      SpliceOut(keys, m, k);
      var i := IndexOf(keys, k);
      if i != -1 {
        keys := keys[..i] + keys[i + 1..];
      }
      m := m - {k};
    }

    /** Removes every entry; the open-iterator counter is left alone. */
    method Reset() returns (r: Result<()>)
      requires Valid()
      modifies this
      ensures Valid()
      ensures r == old(Check(ReadWrite))
      ensures r.Panic? ==> keys == old(keys) && m == old(m)
      ensures r.Ok? ==> keys == [] && m == map[]
      ensures r.Ok? ==> Len() == Ok(0) && forall k :: TryGet(k) == Ok((zero, false))
      ensures constructed == old(constructed) && iter == old(iter)
    {
      r := Check(ReadWrite);
      if r.Panic? {
        return;
      }
      keys := [];
      m := map[];
    }

    /** All pairs in key order, gathered into a new slice. */
    method Range() returns (r: Result<seq<KeyValue<V>>>)
      requires Valid()
      ensures r.Panic? <==> !constructed
      ensures r.Panic? ==> r.fault == NotConstructed
      ensures r.Ok? ==> |r.value| == |keys|
      ensures r.Ok? ==> forall j :: 0 <= j < |keys| ==> r.value[j] == KeyValue(keys[j], m[keys[j]])
      ensures r.Ok? ==> forall i, j :: 0 <= i < j < |r.value| ==> Less(r.value[i].key, r.value[j].key)
      ensures r.Ok? ==> r.value == Pairs(keys, m)
    {
      var c := Check(ReadOnly);
      if c.Panic? {
        return Panic(c.fault);
      }
      var kvs: seq<KeyValue<V>> := [];
      var j := 0;
      while j < |keys|
        invariant 0 <= j <= |keys|
        invariant |kvs| == j
        invariant forall t :: 0 <= t < j ==> kvs[t] == KeyValue(keys[t], m[keys[t]])
      {
        kvs := kvs + [KeyValue(keys[j], m[keys[j]])];
        j := j + 1;
      }
      PairsAt(keys, m);
      return Ok(kvs);
    }

    /** Opens a new cursor at the first key and counts it as open. */
    method Iter() returns (r: Result<MapIterator<V>>)
      modifies this`iter
      ensures r.Panic? <==> !constructed
      ensures r.Panic? ==> r.fault == NotConstructed && iter == old(iter)
      ensures r.Ok? ==> fresh(r.value) && r.value.m == this && r.value.i == 0
      ensures r.Ok? ==> iter == AddInt32(old(iter), 1)
    {
      var c := Check(ReadOnly);
      if c.Panic? {
        return Panic(c.fault);
      }
      iter := AddInt32(iter, 1);
      var it := new MapIterator.Over(this);
      return Ok(it);
    }
  }

  /**
   * The point lookups agree with Range: a key is found exactly when some
   * pair of Range carries it, and Get then returns that pair's value.
   */
  lemma LookupMatchesRange<V>(mp: Map<V>, k: string)
    requires mp.Valid() && mp.constructed
    ensures mp.TryGet(k).value.1 <==> exists j :: 0 <= j < |mp.keys| && Pairs(mp.keys, mp.m)[j].key == k
    ensures forall j :: 0 <= j < |mp.keys| && Pairs(mp.keys, mp.m)[j].key == k ==>
              mp.Get(k).Ok? && mp.Get(k).value == Pairs(mp.keys, mp.m)[j].value
  {
    PairsAt(mp.keys, mp.m);
    if k in mp.keys {
      var j :| 0 <= j < |mp.keys| && mp.keys[j] == k;
      assert Pairs(mp.keys, mp.m)[j].key == k;
    }
  }

  class MapIterator<V> {
    /** The map iterated over; null for a zero MapIterator. */
    const m: Map?<V>
    /** The position in `m.keys` of the next pair. */
    var i: nat

    /** The zero value `MapIterator[K, V]{}`. */
    constructor Zero()
      ensures m == null && i == 0
    {
      m := null;
      i := 0;
    }

    /** The cursor built by Iter. */
    constructor Over(mp: Map<V>)
      ensures m == mp && i == 0
    {
      m := mp;
      i := 0;
    }

    /** The invariant check run first by every MapIterator operation. */
    function Check(): (r: Result<()>)
      reads this
      ensures r.Panic? <==> m == null
      ensures r.Panic? ==> r.fault == IteratorNotConstructed
    {
      if m == null then Panic(IteratorNotConstructed) else Ok(())
    }

    /**
     * The pair at the cursor, advancing it; `None` with no change once the
     * cursor has passed the last key.  Reads the live map on every call.
     */
    method Next() returns (r: Result<Option<KeyValue<V>>>)
      requires m != null ==> m.Valid()
      modifies this
      ensures r.Panic? <==> m == null
      ensures r.Panic? ==> r.fault == IteratorNotConstructed && i == old(i)
      ensures r.Ok? && old(i) >= |m.keys| ==> r.value == None && i == old(i)
      ensures r.Ok? && old(i) < |m.keys| ==>
                r.value == Some(KeyValue(m.keys[old(i)], m.m[m.keys[old(i)]])) && i == old(i) + 1
    {
      var c := Check();
      if c.Panic? {
        return Panic(c.fault);
      }
      if i >= |m.keys| {
        return Ok(None);
      }
      var k := m.keys[i];
      i := i + 1;
      return Ok(Some(KeyValue(k, m.m[k])));
    }

    /**
     * Counts this cursor as closed.  The counter is decremented before it is
     * tested, so a Close that fails leaves it below zero.  The cursor itself
     * is not invalidated.
     */
    method Close() returns (r: Result<()>)
      modifies m
      ensures m == null ==> r == Panic(IteratorNotConstructed)
      ensures m != null ==> m.iter == AddInt32(old(m.iter), -1)
      ensures m != null ==> (r.Panic? <==> m.iter < 0)
      ensures m != null && r.Panic? ==> r.fault == CloseWhileNotOpen
      ensures m != null ==> m.keys == old(m.keys) && m.m == old(m.m) && m.constructed == old(m.constructed)
      ensures i == old(i)
    {
      var c := Check();
      if c.Panic? {
        return Panic(c.fault);
      }
      m.iter := AddInt32(m.iter, -1);
      if m.iter < 0 {
        return Panic(CloseWhileNotOpen);
      }
      return Ok(());
    }
  }
}
