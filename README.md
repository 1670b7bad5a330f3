# ordered — a verified model of a key-ordered map

This project models the Go package `ordered` in Dafny. The package provides a
generic `Map[K, V]` that keeps its keys sorted by a caller-supplied `less`
function, so that `Range`, `Iter` and `All` produce the pairs in key order.

A `Map` holds three pieces of state:

- a Go map `m` from key to value;
- a slice `keys` with the live keys, kept sorted;
- a counter `iter` of open `MapIterator`s, an atomic `int32`.

Writes (`Set`, `Delete`, `Reset`) panic while the counter is nonzero. Every
operation except `All` panics on a map that did not come from `NewMap`. A `MapIterator` is
a cursor `i` into `keys` that reads the live map on every `Next`.

The model is split into four modules:

- `Order` (`order.dfy`): the key order, Go's `<` on strings, proved to be a
  strict total order. It also holds the two slice routines the map calls:
  - `slices.SortFunc`, as the insertion sort `SortKeys`, plus the lemma
    `SortedUnique` showing that any correct sort gives the same slice on
    distinct keys;
  - `slices.Index`, as `IndexOf`.
- `Ordered` (`ordered_map.dfy`): the classes `Map` and `MapIterator`, their
  field updates in place, and the invariant `Map.Valid()`. The invariant says
  `keys` is strictly sorted (so duplicate-free) and holds exactly the keys of
  `m`. A Go panic is the outcome `Panic(fault)` of a `Result`, so the guards
  can be stated in contracts. The counter wraps around like `atomic.AddInt32`.
- `RangeFunc` (`range_func.dfy`): `Map.All`, as the sequence of pairs its
  callback receives.
- `Scenarios` (`scenarios.dfy`): client programs checked against the
  contracts alone. They use any three keys ordered like the tests'
  "bar" < "baz" < "foo", and `TestKeysOrdered` shows the tests' own keys are
  such keys. The package's examples and tests replayed are:
  - `ExampleMap`, `MapBasics`, `MapRange` (also `ExampleMapAll`);
  - `MapIterate`, `MapIterateMultiple`, `MapIterateEmpty`;
  - `MapZeroPanics`, `MapMethodPanics`.

  The package has no tests for the following behaviours of the code; these
  scenarios are the model's own:
  - `AllBreaks`: a callback that answers false at baz ends `All` there
    (map_go122.go:13-15), so foo is never handed over.
  - `CloseKeepsCursor`: `Close` does not invalidate the cursor, so `Next`
    still works after it; and with two iterators open, closing one of them
    twice does not panic (map.go:179-183).
  - `ZeroMapAll`: `All` runs no check (map_go122.go:10-18), so on a zero map
    it makes no call instead of panicking.

  `MapIterateMultiple` advances both cursors in one loop, as the test does.

  `MapIterate` shows that the test loop's last post statement consumes "zzz"
  before the loop stops.

`Map.Valid()` holds for every map: both constructors establish it and `Set`,
`Delete` and `Reset` keep it. The map operations take it as a precondition
in place of an invariant over all reachable maps.

The type's documentation says that a `Map` not built by `NewMap` makes "its
methods" panic (map.go:24-25). `All` is an exception in the code: it never
calls `check`, and the model follows the code (`ZeroMapAll`).

The type's documentation says that after `Close` a `MapIterator` "can no
longer be used" (map.go:155-156). The code does not enforce this: `Close`
only sets its own receiver variable to nil (map.go:183). The model follows
the code, so `Next` keeps working after `Close`.

Keys are `string` and values are any type `V`. Go's zero value of `V` is the
field `zero`, fixed when the map is created.

## Model

| member | source | states |
|---|---|---|
| Order.Less | map.go:43 | Go's `a < b` on strings: lexicographic by character, a proper prefix first |
| Order.LessIrreflexive | map.go:43 | no key sorts before itself |
| Order.LessAsymmetric | map.go:43 | `a < b` excludes `b < a` |
| Order.LessTransitive | map.go:43 | `a < b` and `b < c` give `a < c` |
| Order.LessTotal | map.go:43 | any two distinct keys are ordered one way or the other |
| Order.SortedIsDistinct | map.go:84-88 | a strictly sorted key slice has no duplicates |
| Order.InsertSorted | map.go:87 | inserting a new key into a sorted slice keeps it sorted and adds exactly that key to its multiset |
| Order.SortKeys | map.go:87 | the slice after `slices.SortFunc(keys, less)` is strictly sorted and a permutation of its input |
| Order.SortedUnique | map.go:87 | two strictly sorted slices with the same keys are equal, so any correct sort gives `SortKeys`'s result |
| Order.Rank | map.go:87 | the number of leading keys below `k`, at most the slice length |
| Order.RankSplits | map.go:87 | in a sorted slice, the keys before `Rank` sort below `k` and the rest sort above it |
| Order.InsertAtRankSorted | map.go:86-87 | placing `k` at its rank keeps the slice strictly sorted |
| Order.AppendThenSort | map.go:86-87 | appending a new key and sorting puts it right after the smaller keys and keeps the others in order |
| Order.IndexOf | map.go:97 | `slices.Index`: -1 exactly when the key is absent, otherwise its first position |
| Order.RemoveAtSorted | map.go:97-101 | splicing out one position of a sorted slice keeps it sorted, removes exactly that key and shortens it by one |
| Order.SortedCardinality | map.go:75-78 | a strictly sorted slice has as many elements as distinct keys |
| Ordered.AddInt32 | map.go:169 | the two's-complement `int32` sum: congruent to the true sum modulo 2^32, equal to it when in range |
| Ordered.Pairs | map.go:137-143 | the pairs `(keys[j], m[keys[j]])` in slice order, one per key |
| Ordered.PairsAt | map.go:138-143 | the j-th pair is `(keys[j], m[keys[j]])` |
| Ordered.SpliceOut | map.go:97-103 | Delete's splice on a valid map leaves a sorted slice matching `m - {k}`, unchanged for an absent key |
| Ordered.AppendNew | map.go:84-90 | Set's append-and-sort of a new key gives a sorted slice matching `m[k := v]`, one longer |
| Ordered.Map.Zero | map.go:28-39 | the zero `Map` has no `less` and no entries |
| Ordered.Map.WithLess | map.go:53-56 | the map NewMap returns: constructed, empty, counter zero |
| Ordered.Map.NewMap | map.go:48-57 | panics exactly for a nil `less`; otherwise a fresh, valid, constructed, empty map with `iter == 0` |
| Ordered.Map.Check | map.go:116-124 | panics exactly when the map is unconstructed, or for a write while `iter != 0`; reads never fail on the counter |
| Ordered.Map.Get | map.go:61-64 | panics exactly on an unconstructed map; otherwise the stored value, or the zero value for an absent key |
| Ordered.Map.TryGet | map.go:68-72 | panics exactly on an unconstructed map; otherwise found exactly when the key is in `keys`, with its value or zero |
| Ordered.Map.Len | map.go:75-78 | panics exactly on an unconstructed map; otherwise the number of keys, which equals the size of `m` |
| Ordered.Map.Set | map.go:81-91 | returns the write guard's outcome and changes nothing on panic; otherwise `m[k] := v`, `keys` unchanged for an existing key, a new key inserted at its rank, the invariant kept |
| Ordered.Map.Delete | map.go:94-104 | returns the write guard's outcome and changes nothing on panic; otherwise `k` leaves `m` and `keys`, the other keys keep their order, an absent key changes nothing |
| Ordered.Map.Reset | map.go:108-113 | returns the write guard's outcome; otherwise no entries, `Len` is 0 and `TryGet` finds nothing, with `iter` untouched |
| Ordered.Map.Range | map.go:134-146 | panics exactly on an unconstructed map; otherwise one pair per key, the j-th being `(keys[j], m[keys[j]])`, keys strictly increasing |
| Ordered.LookupMatchesRange | map.go:61-72 | a key is found exactly when a pair of Range carries it, and Get returns that pair's value |
| Ordered.Map.Iter | map.go:165-171 | panics exactly on an unconstructed map; otherwise a fresh cursor at position 0 over this map, the counter incremented |
| Ordered.MapIterator.Zero | map.go:159-162 | the zero `MapIterator` has no map |
| Ordered.MapIterator.Over | map.go:170 | the cursor Iter builds: this map, position 0 |
| Ordered.MapIterator.Check | map.go:213-217 | panics exactly when the cursor has no map |
| Ordered.MapIterator.Next | map.go:195-210 | the pair at the cursor and one step forward, or nil with no change once past the last key |
| Ordered.MapIterator.Close | map.go:174-184 | decrements the counter first and panics exactly when the result is negative; the cursor and the map's entries are unchanged |
| RangeFunc.Yields | map_go122.go:11-17 | the pairs handed to the callback walking `keys`, up to and including the first rejected one |
| RangeFunc.All | map_go122.go:10-18 | the callback receives a prefix of the pairs in key order, at most one per key; as a function it changes no map state and leaves `iter` alone |
| RangeFunc.FirstRejected | map_go122.go:13-15 | the index of the first pair the callback rejects: all before it accepted, the one at it rejected |
| RangeFunc.YieldsPrefix | map_go122.go:12-13 | each call receives the next pair of the key order |
| RangeFunc.YieldsCount | map_go122.go:13-15 | the number of calls is the first rejected index plus one, or the number of keys |
| RangeFunc.AllStopsAtFirstFalse | map_go122.go:13-15 | All makes min(number of keys, first false + 1) calls, and every call but the last was accepted |
| RangeFunc.AllMatchesRange | map_go122.go:10-18 | when the callback accepts every pair, it receives exactly the pairs Range returns |
| Scenarios.Drain | map.go:186-194 | the documented `for kv := mi.Next(); kv != nil; kv = mi.Next()` loop yields exactly the remaining pairs of Range |
| Scenarios.TestKeysOrdered | map_test.go:101 | the tests' keys "bar", "baz", "foo", "zzz" are in ascending order |
| Scenarios.TestMap | map_test.go:271-278 | inserting foo, bar, baz gives the keys bar, baz, foo with values 2, 3, 1 |
| Scenarios.ExampleWrites | map_test.go:15-22 | overwriting foo and deleting bar leaves baz with 3 and foo with 10, in that order |
| Scenarios.BasicsLookups | map_test.go:48-76 | leaves the test map with keys bar, baz, foo and foo overwritten to 10; its body proves Len 3 and the foo and notfound lookups of Get and TryGet before the overwrite |
| Scenarios.Interleave | map_test.go:162-165 | advancing two fresh cursors of one map in the same loop yields every key twice in a row, in key order |
| Scenarios.TestMapWithZzz | map_test.go:120-121 | adding zzz to the test map appends it after foo |

## Left out

- Concurrency: the counter's atomic operations are plain updates, since the type is documented as not safe for concurrent use.
- Generic keys: the keys are strings and `less` is Go's `<` on strings. A caller-supplied `less` that is not a strict total order is not modelled.
- Nil receivers: a nil `*Map` or nil `*MapIterator` cannot be written as a Dafny receiver. The zero values `Map.Zero` and `MapIterator.Zero` take the same failing branch of the checks.
- Capacity reuse in Reset (`m.keys[:0]`, `maps.Clear`) is an allocation detail and is not observable.
- Ordered.Map.Set: the sort is specified by its result, a sorted permutation. `SortKeys` is an insertion sort, not the pattern-defeating quicksort behind `slices.SortFunc`.
- RangeFunc.All: the callback is a pure predicate. A callback that writes to the map is not modelled, and `All` returns the trace of calls rather than a Go function value.
- The `panics`/`recover` test helper and printing in the examples are not modelled. The examples' printed output is stated as values.
- Order.Less: Go compares strings byte by byte. A Go string that is not valid UTF-8 cannot be written as a Dafny string, so such keys are not modelled; on valid UTF-8 the two orders agree.
- The `stdcmp.Compare` comparator passed in the tests returns an `int`, not a `bool`; the model uses the boolean `<` that the tests expect.
