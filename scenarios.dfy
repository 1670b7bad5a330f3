/**
 * Client programs for the ordered map, checked against the contracts alone.
 *
 * The examples and tests of the map use the keys "bar", "baz" and "foo"
 * (and "zzz"), in that order.  Each program here takes any keys ordered the
 * same way, so it covers the tests' keys (TestKeysOrdered) and every other
 * choice alike.
 */
module Scenarios {
  import opened Order
  import opened Ordered
  import opened RangeFunc

  ghost predicate Ascending(a: string, b: string, c: string) {
    Less(a, b) && Less(b, c)
  }

  /** The keys of the tests are in the order the programs below assume. */
  lemma TestKeysOrdered()
    ensures Ascending("bar", "baz", "foo") && Less("foo", "zzz")
  {
  }

  lemma AscendingFacts(a: string, b: string, c: string)
    requires Ascending(a, b, c)
    ensures a != b && b != c && a != c
    ensures Less(a, c) && !Less(b, a) && !Less(c, a) && !Less(c, b)
  {
    LessTransitive(a, b, c);
    LessIrreflexive(a);
    LessIrreflexive(b);
    LessAsymmetric(a, b);
    LessAsymmetric(a, c);
    LessAsymmetric(b, c);
  }

  /** Set of a key not yet present, on a map with no open iterator. */
  method SetNew(mp: Map<int>, k: string, v: int, p: nat)
    requires mp.Valid() && mp.constructed && mp.iter == 0 && k !in mp.keys
    requires p == Rank(mp.keys, k)
    modifies mp
    ensures mp.Valid() && mp.constructed && mp.iter == 0
    ensures mp.keys == old(mp.keys[..p]) + [k] + old(mp.keys[p..]) && mp.m == old(mp.m)[k := v]
  {
    var r := mp.Set(k, v);
  }

  /**
   * The documented loop `for kv := mi.Next(); kv != nil; kv = mi.Next()`:
   * from its position, a cursor yields exactly the remaining pairs of Range,
   * and afterwards every Next answers nil.
   */
  method Drain<V>(it: MapIterator<V>) returns (kvs: seq<KeyValue<V>>)
    requires it.m != null && it.m.Valid()
    modifies it
    ensures old(it.i) < |it.m.keys| ==> kvs == Pairs(it.m.keys, it.m.m)[old(it.i)..] && it.i == |it.m.keys|
    ensures old(it.i) >= |it.m.keys| ==> kvs == [] && it.i == old(it.i)
  {
    var start := it.i;
    var keys := it.m.keys;
    PairsAt(keys, it.m.m);
    kvs := [];
    while true
      invariant it.m.keys == keys && it.m.Valid()
      invariant start <= it.i
      invariant start < |keys| ==> it.i <= |keys| && kvs == Pairs(keys, it.m.m)[start..it.i]
      invariant start >= |keys| ==> kvs == [] && it.i == start
      decreases |keys| - it.i
    {
      var r := it.Next();
      if r.value.None? {
        break;
      }
      kvs := kvs + [r.value.value];
    }
  }

  /** `testMap`: foo, bar and baz inserted into a new map, in that order. */
  method TestMap(bar: string, baz: string, foo: string) returns (mp: Map<int>)
    requires Ascending(bar, baz, foo)
    ensures fresh(mp) && mp.Valid() && mp.constructed && mp.iter == 0 && mp.zero == 0
    ensures mp.keys == [bar, baz, foo] && mp.m == map[foo := 1, bar := 2, baz := 3]
  {
    AscendingFacts(bar, baz, foo);
    var made := Map.NewMap(StringLess, 0);
    mp := made.value;
    SetNew(mp, foo, 1, 0);
    SetNew(mp, bar, 2, 0);
    assert Rank([bar, foo], baz) == 1 + Rank([foo], baz);
    SetNew(mp, baz, 3, 1);
  }

  /** Set of a key already present, on a map with no open iterator. */
  method SetExisting(mp: Map<int>, k: string, v: int)
    requires mp.Valid() && mp.constructed && mp.iter == 0 && k in mp.m
    modifies mp
    ensures mp.Valid() && mp.constructed && mp.iter == 0
    ensures mp.keys == old(mp.keys) && mp.m == old(mp.m)[k := v]
  {
    var r := mp.Set(k, v);
  }

  /** Delete of the smallest key, on a map with no open iterator. */
  method DeleteFirst(mp: Map<int>)
    requires mp.Valid() && mp.constructed && mp.iter == 0 && |mp.keys| > 0
    modifies mp
    ensures mp.Valid() && mp.constructed && mp.iter == 0
    ensures mp.keys == old(mp.keys[1..]) && mp.m == old(mp.m) - {old(mp.keys[0])}
  {
    var r := mp.Delete(mp.keys[0]);
    assert IndexOf(old(mp.keys), old(mp.keys[0])) == 0;
  }

  lemma ExampleValues(bar: string, baz: string, foo: string)
    requires bar != baz && bar != foo && baz != foo
    ensures map[foo := 1, bar := 2, baz := 3][foo := 10] - {bar} == map[baz := 3, foo := 10]
  {
  }

  /** A key above every key of a slice ranks after all of them. */
  lemma {:induction false} RankAbove(s: seq<string>, k: string)
    requires forall i :: 0 <= i < |s| ==> Less(s[i], k)
    ensures Rank(s, k) == |s|
    decreases |s|
  {
    if |s| > 0 {
      RankAbove(s[1..], k);
    }
  }

  /** The writes of `ExampleMap`: foo overwritten with 10, then bar deleted. */
  method ExampleWrites(bar: string, baz: string, foo: string) returns (mp: Map<int>)
    requires Ascending(bar, baz, foo)
    ensures fresh(mp) && mp.Valid() && mp.constructed && mp.iter == 0 && mp.zero == 0
    ensures mp.keys == [baz, foo] && mp.m == map[baz := 3, foo := 10]
  {
    mp := TestMap(bar, baz, foo);
    AscendingFacts(bar, baz, foo);
    SetExisting(mp, foo, 10);
    DeleteFirst(mp);
    ExampleValues(bar, baz, foo);
  }

  /** `ExampleMap`: a missing key reads as zero, then baz and foo come out in order. */
  method ExampleMap(bar: string, baz: string, foo: string, notfound: string)
    requires Ascending(bar, baz, foo) && notfound !in [bar, baz, foo]
  {
    var mp := ExampleWrites(bar, baz, foo);
    assert mp.TryGet(notfound) == Ok((0, false));
    assert mp.Len() == Ok(2);

    var it := mp.Iter();
    var mi := it.value;
    var kvs := Drain(mi);
    PairsAt(mp.keys, mp.m);
    assert kvs == [KeyValue(baz, 3), KeyValue(foo, 10)];
    var closed := mi.Close();
    assert closed.Ok? && mp.iter == 0;
  }

  /** The lookups of `TestMapBasics` on the test map, and the overwrite of foo. */
  method BasicsLookups(bar: string, baz: string, foo: string, notfound: string) returns (mp: Map<int>)
    requires Ascending(bar, baz, foo) && notfound !in [bar, baz, foo]
    ensures fresh(mp) && mp.Valid() && mp.constructed && mp.iter == 0
    ensures mp.keys == [bar, baz, foo] && mp.m[foo] == 10 && mp.zero == 0
  {
    mp := TestMap(bar, baz, foo);
    AscendingFacts(bar, baz, foo);
    assert mp.Len() == Ok(3);
    assert mp.Get(foo) == Ok(1) && mp.Get(notfound) == Ok(0);
    assert mp.TryGet(foo).value.1 && !mp.TryGet(notfound).value.1;
    SetExisting(mp, foo, 10);
    assert mp.Get(foo) == Ok(10);
  }

  /** `TestMapBasics`: lookups, an overwrite, two deletes and Reset. */
  method MapBasics(bar: string, baz: string, foo: string, notfound: string)
    requires Ascending(bar, baz, foo) && notfound !in [bar, baz, foo]
  {
    var mp := BasicsLookups(bar, baz, foo, notfound);
    DeleteFirst(mp);
    DeleteFirst(mp);
    assert mp.keys == [foo];
    assert mp.Len() == Ok(1);

    var r := mp.Reset();
    assert r.Ok?;
    assert mp.Get(foo) == Ok(0) && mp.Len() == Ok(0);
  }

  /** `TestMapRange` and `ExampleMapAll`: the pairs come out sorted by key. */
  method MapRange(bar: string, baz: string, foo: string)
    requires Ascending(bar, baz, foo)
  {
    var mp := TestMap(bar, baz, foo);
    AscendingFacts(bar, baz, foo);
    var kvs := mp.Range();
    assert kvs.Ok? && kvs.value == [KeyValue(bar, 2), KeyValue(baz, 3), KeyValue(foo, 1)];
    assert forall j :: 0 <= j < |kvs.value| ==> mp.Get(kvs.value[j].key) == Ok(kvs.value[j].value);

    var everything := (k: string, v: int) => true;
    AllMatchesRange(mp, everything);
    assert All(mp, everything) == kvs.value;
  }

  /** `All` with a loop body that breaks at baz: bar and baz are yielded, foo is not. */
  method AllBreaks(bar: string, baz: string, foo: string)
    requires Ascending(bar, baz, foo)
  {
    var mp := TestMap(bar, baz, foo);
    AscendingFacts(bar, baz, foo);
    var untilBaz := (k: string, v: int) => k != baz;
    PairsAt(mp.keys, mp.m);
    assert Pairs(mp.keys, mp.m) == [KeyValue(bar, 2), KeyValue(baz, 3), KeyValue(foo, 1)];
    assert FirstRejected(Pairs(mp.keys, mp.m), untilBaz) == 1;
    AllStopsAtFirstFalse(mp, untilBaz);
    assert All(mp, untilBaz) == [KeyValue(bar, 2), KeyValue(baz, 3)];
    assert mp.iter == 0;
  }

  /** `testMap` with zzz added after the other keys. */
  method TestMapWithZzz(bar: string, baz: string, foo: string, zzz: string) returns (mp: Map<int>)
    requires Ascending(bar, baz, foo) && Less(foo, zzz)
    ensures fresh(mp) && mp.Valid() && mp.constructed && mp.iter == 0
    ensures mp.keys == [bar, baz, foo, zzz]
  {
    mp := TestMap(bar, baz, foo);
    AscendingFacts(bar, baz, foo);
    AscendingFacts(baz, foo, zzz);
    AscendingFacts(bar, foo, zzz);
    RankAbove([bar, baz, foo], zzz);
    SetNew(mp, zzz, 999, 3);
  }

  /**
   * `TestMapIterate`: after zzz is added the loop stops after three pairs, but
   * its last post statement has already taken zzz; every later Next is nil.
   */
  method MapIterate(bar: string, baz: string, foo: string, zzz: string)
    requires Ascending(bar, baz, foo) && Less(foo, zzz)
  {
    var mp := TestMapWithZzz(bar, baz, foo, zzz);
    var it := mp.Iter();
    var mi := it.value;
    var got: seq<string> := [];
    var i := 0;
    var kv := mi.Next();
    while i < 3 && kv.value.Some?
      invariant 0 <= i <= 3 && mi.i == i + 1 && mi.m == mp
      invariant mp.keys == [bar, baz, foo, zzz] && mp.Valid()
      invariant kv == Ok(Some(KeyValue(mp.keys[i], mp.m[mp.keys[i]])))
      invariant got == mp.keys[..i]
      modifies mi
    {
      got := got + [kv.value.value.key];
      i := i + 1;
      kv := mi.Next();
    }
    assert got == [bar, baz, foo] && mi.i == 4;

    var n := 0;
    while n < 10
      invariant mi.i == 4 && mp.keys == [bar, baz, foo, zzz] && mp.Valid()
      modifies mi
    {
      kv := mi.Next();
      assert kv == Ok(None);
      n := n + 1;
    }
    var closed := mi.Close();
    assert closed.Ok?;
  }

  /**
   * The loop `for kv0, kv1 := mi0.Next(), mi1.Next(); kv0 != nil && kv1 != nil; ...`
   * over two fresh cursors of one map: each pass takes the next key from both.
   */
  method Interleave<V>(mi0: MapIterator<V>, mi1: MapIterator<V>) returns (got: seq<string>)
    requires mi0 != mi1 && mi0.m != null && mi1.m == mi0.m && mi0.m.Valid()
    requires mi0.i == 0 && mi1.i == 0
    modifies mi0, mi1
    ensures |got| == 2 * |mi0.m.keys|
    ensures forall t :: 0 <= t < |mi0.m.keys| ==> got[2 * t] == mi0.m.keys[t] && got[2 * t + 1] == mi0.m.keys[t]
    ensures mi0.i == |mi0.m.keys| && mi1.i == |mi0.m.keys|
  {
    var keys := mi0.m.keys;
    got := [];
    var j := 0;
    var kv0 := mi0.Next();
    var kv1 := mi1.Next();
    while kv0.value.Some? && kv1.value.Some?
      invariant 0 <= j <= |keys| && mi0.m.keys == keys && mi0.m.Valid()
      invariant mi0.i == (if j < |keys| then j + 1 else |keys|) && mi1.i == mi0.i
      invariant kv0.Ok? && (kv0.value.Some? <==> j < |keys|) && (j < |keys| ==> kv0.value.value.key == keys[j])
      invariant kv1.Ok? && (kv1.value.Some? <==> j < |keys|) && (j < |keys| ==> kv1.value.value.key == keys[j])
      invariant |got| == 2 * j
      invariant forall t :: 0 <= t < j ==> got[2 * t] == keys[t] && got[2 * t + 1] == keys[t]
      decreases |keys| - j
    {
      got := got + [kv0.value.value.key, kv1.value.value.key];
      j := j + 1;
      kv0 := mi0.Next();
      kv1 := mi1.Next();
    }
  }

  /**
   * `TestMapIterateMultiple`: two cursors advanced in the same loop each yield
   * bar, baz and foo, so the keys come out as bar, bar, baz, baz, foo, foo.
   */
  method MapIterateMultiple(bar: string, baz: string, foo: string)
    requires Ascending(bar, baz, foo)
  {
    var mp := TestMap(bar, baz, foo);
    var it0 := mp.Iter();
    var it1 := mp.Iter();
    var mi0, mi1 := it0.value, it1.value;
    assert mp.iter == 2;

    var got := Interleave(mi0, mi1);
    assert mi0.m == mp && mp.keys[0] == bar && mp.keys[1] == baz && mp.keys[2] == foo;
    assert got == [bar, bar, baz, baz, foo, foo];

    var n := 0;
    while n < 10
      invariant mi0.i == 3 && mp.keys == [bar, baz, foo] && mp.Valid() && mp.iter == 2
      modifies mi0
    {
      var kv0 := mi0.Next();
      assert kv0.Ok? && kv0.value.None?;
      n := n + 1;
    }

    var w := mp.Set(foo, 0);
    assert w == Panic(WriteWhileIterating);
    var c0 := mi0.Close();
    var c1 := mi1.Close();
    assert c0.Ok? && c1.Ok? && mp.iter == 0;
    w := mp.Set(foo, 0);
    assert w.Ok?;
  }

  /** `TestMapIterateEmpty`: nothing to range over, and Next is nil at once. */
  method MapIterateEmpty() {
    var made := Map.NewMap(StringLess, 0);
    var mp := made.value;
    var kvs := mp.Range();
    assert kvs == Ok([]);
    var it := mp.Iter();
    var mi := it.value;
    var kv := mi.Next();
    assert kv == Ok(None) && mi.i == 0;
  }

  /** `TestMapZeroPanics`: a zero map panics on use, and NewMap(nil) panics. */
  method MapZeroPanics(k: string) {
    var m1 := new Map.Zero(0);
    assert m1.Len() == Panic(NotConstructed);
    assert m1.Get(k) == Panic(NotConstructed);
    var kvs := m1.Range();
    assert kvs == Panic(NotConstructed);
    var it := m1.Iter();
    assert it == Panic(NotConstructed) && m1.iter == 0;
    var made := Map<int>.NewMap(NilLess, 0);
    assert made == Panic(NilLessFunc);
  }

  /**
   * `All` runs no invariant check: on a zero map, where every other operation
   * panics, it walks the empty key slice and makes no call.
   */
  method ZeroMapAll(accept: (string, int) -> bool) {
    var z := new Map.Zero(0);
    assert z.Len() == Panic(NotConstructed);
    assert All(z, accept) == [];
  }

  /** `TestMapMethodPanics`: writes while an iterator is open, a double Close, a zero iterator. */
  method MapMethodPanics(bar: string, baz: string, foo: string, key: string)
    requires Ascending(bar, baz, foo)
  {
    var mp := TestMap(bar, baz, foo);
    var it := mp.Iter();
    var mi := it.value;
    var w := mp.Set(key, 0);
    assert w == Panic(WriteWhileIterating);
    w := mp.Delete(key);
    assert w == Panic(WriteWhileIterating);
    w := mp.Reset();
    assert w == Panic(WriteWhileIterating);
    assert mp.keys == [bar, baz, foo];

    var c := mi.Close();
    assert c.Ok?;
    c := mi.Close();
    assert c == Panic(CloseWhileNotOpen) && mp.iter == -1;

    var zero := new MapIterator<int>.Zero();
    var kv := zero.Next();
    assert kv == Panic(IteratorNotConstructed);
    c := zero.Close();
    assert c == Panic(IteratorNotConstructed);
  }

  /**
   * Close does not invalidate the cursor: Next still works after it, and with
   * two iterators open one can be closed twice without a panic.
   */
  method CloseKeepsCursor(bar: string, baz: string, foo: string)
    requires Ascending(bar, baz, foo)
  {
    var mp := TestMap(bar, baz, foo);
    AscendingFacts(bar, baz, foo);
    var it0 := mp.Iter();
    var it1 := mp.Iter();
    var mi0 := it0.value;
    var c := mi0.Close();
    assert c.Ok?;
    c := mi0.Close();
    assert c.Ok? && mp.iter == 0;
    var kv := mi0.Next();
    assert kv == Ok(Some(KeyValue(bar, 2)));
    var w := mp.Set(foo, 0);
    assert w.Ok?;
  }
}
