/**
 * `Map.All`: the push-style traversal for Go's range-over-func loops.
 *
 * The returned function walks `keys` in order and hands each pair to
 * `accept`, stopping right after the first call that answers false.  It
 * neither runs the map's invariant check nor counts itself as an open
 * iterator.  The callback is a pure predicate here, and the model of a call
 * is the sequence of pairs that `accept` receives.
 */
module RangeFunc {
  import opened Order
  import opened Ordered

  /** The pairs handed to `accept` while walking `keys`, in call order. */
  function Yields<V>(keys: seq<string>, m: map<string, V>, accept: (string, V) -> bool): seq<KeyValue<V>>
    requires Covered(keys, m)
    decreases |keys|
  {
    if |keys| == 0 then []
    else if !accept(keys[0], m[keys[0]]) then [KeyValue(keys[0], m[keys[0]])]
    else [KeyValue(keys[0], m[keys[0]])] + Yields(keys[1..], m, accept)
  }

  /** The pairs `accept` receives when the function returned by `mp.All()` is called. */
  function All<V>(mp: Map<V>, accept: (string, V) -> bool): (calls: seq<KeyValue<V>>)
    reads mp
    requires mp.Valid()
    ensures |calls| <= |mp.keys|
    ensures calls == Pairs(mp.keys, mp.m)[..|calls|]
  {
    YieldsPrefix(mp.keys, mp.m, accept);
    Yields(mp.keys, mp.m, accept)
  }

  /** The index of the first pair `accept` rejects, or the length if it accepts all. */
  function FirstRejected<V>(kvs: seq<KeyValue<V>>, accept: (string, V) -> bool): (f: nat)
    ensures f <= |kvs|
    ensures forall j :: 0 <= j < f ==> accept(kvs[j].key, kvs[j].value)
    ensures f < |kvs| ==> !accept(kvs[f].key, kvs[f].value)
    decreases |kvs|
  {
    if |kvs| == 0 then 0
    else if !accept(kvs[0].key, kvs[0].value) then 0
    else 1 + FirstRejected(kvs[1..], accept)
  }

  /** Every call hands `accept` the next pair of the key order. */
  lemma {:induction false} YieldsPrefix<V>(keys: seq<string>, m: map<string, V>, accept: (string, V) -> bool)
    requires Covered(keys, m)
    ensures |Yields(keys, m, accept)| <= |keys|
    ensures Yields(keys, m, accept) == Pairs(keys, m)[..|Yields(keys, m, accept)|]
    decreases |keys|
  {
    if |keys| > 0 && accept(keys[0], m[keys[0]]) {
      YieldsPrefix(keys[1..], m, accept);
      var n := |Yields(keys[1..], m, accept)|;
      assert Pairs(keys, m)[..n + 1] == [KeyValue(keys[0], m[keys[0]])] + Pairs(keys[1..], m)[..n];
    }
  }

  /** Walking stops right after the first rejected pair, or at the end of the keys. */
  lemma {:induction false} YieldsCount<V>(keys: seq<string>, m: map<string, V>, accept: (string, V) -> bool)
    requires Covered(keys, m)
    ensures var f := FirstRejected(Pairs(keys, m), accept);
            |Yields(keys, m, accept)| == if f < |keys| then f + 1 else |keys|
    decreases |keys|
  {
    PairsAt(keys, m);
    if |keys| > 0 && accept(keys[0], m[keys[0]]) {
      YieldsCount(keys[1..], m, accept);
    }
  }

  /** All calls `accept` once per pair up to and including the first false answer. */
  lemma AllStopsAtFirstFalse<V>(mp: Map<V>, accept: (string, V) -> bool)
    requires mp.Valid()
    ensures var f := FirstRejected(Pairs(mp.keys, mp.m), accept);
            |All(mp, accept)| == if f < |mp.keys| then f + 1 else |mp.keys|
    ensures forall j :: 0 <= j < |All(mp, accept)| - 1 ==> accept(All(mp, accept)[j].key, All(mp, accept)[j].value)
  {
    YieldsCount(mp.keys, mp.m, accept);
    PairsAt(mp.keys, mp.m);
  }

  /** When `accept` never stops the walk, it receives exactly the pairs Range returns. */
  lemma AllMatchesRange<V>(mp: Map<V>, accept: (string, V) -> bool)
    requires mp.Valid()
    requires forall k :: k in mp.m ==> accept(k, mp.m[k])
    ensures All(mp, accept) == Pairs(mp.keys, mp.m)
  {
    PairsAt(mp.keys, mp.m);
    YieldsCount(mp.keys, mp.m, accept);
    YieldsPrefix(mp.keys, mp.m, accept);
  }
}
