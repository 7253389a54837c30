# Functional equivalence of the idiomatic-rust-performance bench variants

The repository compares, with criterion benchmarks, several ways of doing
the same small job in Rust. A timing comparison only means something if the
variants compute the same thing. This project models the variant functions
of the four bench files and proves that they agree, together with the basic
facts about what they compute.

- `CountCmp` (benches/count_cmp.rs): counting the odd elements of a slice,
  by a `for` loop that increments a counter (`PlainCount`) and by
  `filter(..).count()` (`FilterCount`).
- `VecmapCmp` (benches/vecmap_cmp.rs): the vector of squares of a slice, by
  pushing into a `Vec::new()` (`PlainPush`), into a
  `Vec::with_capacity(len)` (`CapacityPush`), and by `map(..).collect()`
  (`Chain`). `n * n` on `usize` wraps modulo 2^64 (`MulUsize`).
- `ListfmtCmp` (benches/listfmt_cmp.rs): rendering a slice as decimal
  numbers separated by commas, by a push loop with a `first` flag
  (`PlainString`, `PreallocString`), by `join(",")` over the
  `to_string()` renderings (`JoinString`) and by itertools'
  `format_with` (`FormatString`).
- `MapinsertCmp` (benches/mapinsert_cmp.rs): building a HashMap, IndexMap or
  BTreeMap from `(String, usize)` pairs, by an insert loop
  (`HashmapInsert`, `IndexmapInsert`, `BtreemapInsert`) or by `from_iter`
  (`HashmapFrom`, `IndexmapFrom`, `BtreemapFrom`), and the bench input
  `("key_{v}", v)` for `v` in `0..1000` (`KeyedEntries`) with its slices.
- `Decimal`: `usize::to_string()` / `{:?}` as `NatToDecimal`, with its
  inverse `DecimalValue`.
- `StrOrder`: the lexicographic order of `String` keys that a BTreeMap
  iterates in.
- `Common`: `usize` as `Usize` (naturals below 2^64), the input
  `(0..n).collect()` as `Range`, and `Option`.

Mutated locals of the source (`count`, the `Vec` `d`, the `String` `res` and
its `first` flag, the map `result`) are locals of value type that the loops
reassign. A HashMap is its key/value contents (`map<string, Usize>`). An
IndexMap is its keys in insertion order beside the contents. A BTreeMap is
its strictly key-sorted list of pairs, which is also its iteration order.
Each imperative variant is a method proved equal to the declarative variant's
function; the properties are stated about the functions.

## Model

| member | source | states |
|---|---|---|
| `Common.Range` | benches/count_cmp.rs:21 | definition of `(0..n).collect()`; characterised by `CountRange`, `BenchNoOverflow` and `BenchCommas` |
| `CountCmp.IsOdd` | benches/count_cmp.rs:9 | definition of the test `v % 2 == 1` (on non-negative `usize` values Rust's `%` agrees with Dafny's); characterised through `OddElementsMultiset` and `CountRange` |
| `CountCmp.OddElements` | benches/count_cmp.rs:17 | the filtered elements are all odd, all come from the slice, every odd element of the slice is among them, and there are at most as many as slice elements |
| `CountCmp.OddElementsMultiset` | benches/count_cmp.rs:17 | the filter keeps each odd value exactly as often as it occurs in the slice, and no even value |
| `CountCmp.OddElementsSingle` | benches/count_cmp.rs:17 | a one-element slice keeps its element exactly when it is odd; with `OddElementsAppend` this fixes the filtered sequence, order included, for every slice |
| `CountCmp.FilterCount` | benches/count_cmp.rs:16-18 | the count is at most the slice length and is 0 for an empty slice |
| `CountCmp.PlainCount` | benches/count_cmp.rs:6-14 | the loop's count equals `FilterCount` for every slice (after each prefix, `count` is the number of odd elements of that prefix), and never exceeds the length |
| `CountCmp.OddElementsAppend` | benches/count_cmp.rs:17 | filtering a concatenation is the concatenation of the filtered parts |
| `CountCmp.CountAppend` | benches/count_cmp.rs:8-12 | the count of a concatenation is the sum of the counts of its parts |
| `CountCmp.CountRange` | benches/count_cmp.rs:9 | over the input `0..n` the count is n/2 rounded down |
| `CountCmp.BenchCount` | benches/count_cmp.rs:21 | the bench input `0..1000` has 500 odd elements, and `[0, 1, 2, 3, 4]` has 2 |
| `VecmapCmp.MulUsize` | benches/vecmap_cmp.rs:9 | definition of `n * n` on a 64-bit `usize`, wrapping modulo 2^64; characterised by `SquareExact` |
| `VecmapCmp.SquareExact` | benches/vecmap_cmp.rs:9 | below 2^32 the wrapping `usize` square is the exact square |
| `VecmapCmp.Chain` | benches/vecmap_cmp.rs:22-24 | the result has the input's length (so empty for an empty input) and element i is the `usize` square of input element i |
| `VecmapCmp.PlainPush` | benches/vecmap_cmp.rs:6-12 | the push loop returns the same vector as `chain`; after k iterations `d` holds the squares of the first k elements |
| `VecmapCmp.CapacityPush` | benches/vecmap_cmp.rs:14-20 | the push loop over a pre-sized vector returns the same vector as `chain`, so the capacity hint does not change the contents |
| `VecmapCmp.BenchNoOverflow` | benches/vecmap_cmp.rs:27 | on the bench input `0..1000` no square wraps: element i is exactly i*i and at most 999*999 |
| `Decimal.NatToDecimal` | benches/listfmt_cmp.rs:15 | the rendering is non-empty, all decimal digits (so no comma), and has no leading zero except for 0 itself |
| `Decimal.DecimalRoundTrip` | benches/listfmt_cmp.rs:35 | reading the rendering back as a decimal number gives the number |
| `Decimal.NatToDecimalInjective` | benches/mapinsert_cmp.rs:53 | distinct numbers have distinct decimal renderings |
| `ListfmtCmp.Renderings` | benches/listfmt_cmp.rs:34-36 | one rendering per element, element i's rendering at position i |
| `ListfmtCmp.Join` | benches/listfmt_cmp.rs:37 | definition of `join(",")`: the parts with one comma between neighbours; characterised through `JoinString` by `JoinStringShape` and `SplitJoinString` |
| `ListfmtCmp.JoinString` | benches/listfmt_cmp.rs:33-38 | the joined string is empty exactly when the slice is empty |
| `ListfmtCmp.JoinStringSnoc` | benches/listfmt_cmp.rs:11-15 | appending an element to a non-empty slice appends a comma and the element's rendering |
| `ListfmtCmp.FormatString` | benches/listfmt_cmp.rs:40-44 | definition of `format_string`: the first rendering, then a comma and a rendering for each further element; characterised by `FormatEqualsJoin` |
| `ListfmtCmp.FormatTail` | benches/listfmt_cmp.rs:42 | definition of the separator-then-element part of `format_with`; characterised by `FormatTailSnoc` |
| `ListfmtCmp.FormatTailSnoc` | benches/listfmt_cmp.rs:42 | one more element appends a comma and that element's rendering to the tail |
| `ListfmtCmp.FormatEqualsJoin` | benches/listfmt_cmp.rs:40-44 | `format_string` returns the same string as `join_string` for every slice |
| `ListfmtCmp.PlainString` | benches/listfmt_cmp.rs:7-18 | the push loop returns the same string as `join_string`; the `first` flag is set exactly before the first element |
| `ListfmtCmp.PreallocString` | benches/listfmt_cmp.rs:20-31 | the push loop over a 4000-byte pre-sized string returns the same string as `join_string` |
| `ListfmtCmp.Split` | benches/listfmt_cmp.rs:37 | definition of `str::split(',')`, empty pieces kept, so `""` splits into `[""]`; characterised by `SplitCommaFree` and `SplitAtComma` |
| `ListfmtCmp.SplitCommaFree` | benches/listfmt_cmp.rs:15 | a comma-free string splits into itself alone |
| `ListfmtCmp.SplitAtComma` | benches/listfmt_cmp.rs:37 | splitting `a + "," + b` on commas is splitting `a` followed by splitting `b` |
| `ListfmtCmp.SplitJoinString` | benches/listfmt_cmp.rs:35-37 | splitting the output of a non-empty slice on ',' gives back the element renderings in order |
| `ListfmtCmp.JoinStringShape` | benches/listfmt_cmp.rs:10-16 | for n > 0 elements the output has exactly n-1 commas, does not start or end with a comma, and is as long as the digits of all elements plus n-1 |
| `ListfmtCmp.BenchCommas` | benches/listfmt_cmp.rs:47 | the rendering of the bench input `0..1000` has 999 commas |
| `StrOrder.Less` | benches/mapinsert_cmp.rs:40-50 | definition of `Ord for str`: characters compared one by one, a proper prefix first; characterised by `LessIrreflexive`, `LessTransitive`, `LessTotal`, `LessAsymmetric` and `LessCommonPrefix` |
| `StrOrder.LessIrreflexive` | benches/mapinsert_cmp.rs:40-50 | no key sorts before itself |
| `StrOrder.LessTransitive` | benches/mapinsert_cmp.rs:40-50 | the key order is transitive |
| `StrOrder.LessTotal` | benches/mapinsert_cmp.rs:40-50 | any two distinct keys are ordered one way or the other |
| `StrOrder.LessAsymmetric` | benches/mapinsert_cmp.rs:40-50 | two keys are never ordered both ways |
| `StrOrder.LessCommonPrefix` | benches/mapinsert_cmp.rs:53 | keys with a common prefix (`"key_"`) compare as their remainders |
| `MapinsertCmp.HashmapFrom` | benches/mapinsert_cmp.rs:20-22 | the map's keys are exactly the entries' keys, and each key maps to the value of its last entry |
| `MapinsertCmp.HashmapInsert` | benches/mapinsert_cmp.rs:8-18 | the insert loop gives the same map as `from_iter`, whichever way `alloc` is set |
| `MapinsertCmp.HashmapSize` | benches/mapinsert_cmp.rs:14-16 | with distinct keys the map has one entry per input entry |
| `MapinsertCmp.IndexInsert` | benches/mapinsert_cmp.rs:31 | insert keeps the IndexMap well formed (keys distinct and equal to the contents' keys), updates the value, keeps the position of a present key and appends a new key |
| `MapinsertCmp.IndexMap.Iter` | benches/mapinsert_cmp.rs:24-38 | definition of IndexMap iteration (the keys in order, each with its value); characterised by `IndexmapIterContents` and `IndexmapIterRoundTrip` |
| `MapinsertCmp.IndexmapIterContents` | benches/mapinsert_cmp.rs:24-38 | iterating an IndexMap yields each key once, with exactly the map's key/value contents |
| `MapinsertCmp.IndexmapFrom` | benches/mapinsert_cmp.rs:36-38 | `from_iter` yields a well-formed IndexMap |
| `MapinsertCmp.IndexmapInsert` | benches/mapinsert_cmp.rs:24-34 | the insert loop gives the same IndexMap (order and contents) as `from_iter`, whichever way `alloc` is set |
| `MapinsertCmp.IndexmapContents` | benches/mapinsert_cmp.rs:24-38 | an IndexMap holds the same key/value pairs as the HashMap built from the same entries |
| `MapinsertCmp.IndexmapOrder` | benches/mapinsert_cmp.rs:30-32 | with distinct keys the IndexMap's key order is the input order |
| `MapinsertCmp.IndexmapIterRoundTrip` | benches/mapinsert_cmp.rs:24-38 | with distinct keys iterating the IndexMap gives back exactly the input entries |
| `MapinsertCmp.PairsToMap` | benches/mapinsert_cmp.rs:40-50 | the contents of a pair list have exactly the list's keys |
| `MapinsertCmp.PairsToMapAt` | benches/mapinsert_cmp.rs:40-50 | in a pair list with distinct keys each key maps to its own pair's value |
| `MapinsertCmp.SortedInsert` | benches/mapinsert_cmp.rs:43 | definition of `BTreeMap::insert` on the sorted pairs; characterised by `SortedInsertKeys`, `SortedInsertValid` and `SortedInsertContents` |
| `MapinsertCmp.SortedInsertKeys` | benches/mapinsert_cmp.rs:43 | BTreeMap insert adds the key and keeps all others |
| `MapinsertCmp.SortedInsertValid` | benches/mapinsert_cmp.rs:43 | BTreeMap insert keeps the pairs strictly sorted by key |
| `MapinsertCmp.SortedInsertContents` | benches/mapinsert_cmp.rs:43 | BTreeMap insert changes the contents exactly as a map update of that key |
| `MapinsertCmp.BtreemapFrom` | benches/mapinsert_cmp.rs:48-50 | `from_iter` yields pairs in strictly increasing key order |
| `MapinsertCmp.BtreemapInsert` | benches/mapinsert_cmp.rs:40-46 | the insert loop gives the same BTreeMap as `from_iter` |
| `MapinsertCmp.BtreemapContents` | benches/mapinsert_cmp.rs:40-50 | a BTreeMap holds the same key/value pairs as the HashMap built from the same entries |
| `MapinsertCmp.BtreemapUnique` | benches/mapinsert_cmp.rs:48-50 | two strictly sorted BTreeMaps with the same key/value contents are equal, so sortedness plus `BtreemapContents` fix the result of `from_iter` whatever way it is built |
| `MapinsertCmp.BtreemapIterOrder` | benches/mapinsert_cmp.rs:40-50 | in BTreeMap iteration a smaller key comes before a larger one |
| `MapinsertCmp.Key` | benches/mapinsert_cmp.rs:53 | definition of `format!("key_{v}")`; characterised by `KeyInjective` and `KeyTenBeforeKeyTwo` |
| `MapinsertCmp.KeyInjective` | benches/mapinsert_cmp.rs:53 | distinct numbers give distinct keys `"key_{v}"` |
| `MapinsertCmp.KeyedEntries` | benches/mapinsert_cmp.rs:53 | definition of the input of pairs `("key_{v}", v)` for `v` in `0..n`; characterised by `KeyedEntriesDistinct`, `SliceKeyedEntries` and `BenchMapContents` |
| `MapinsertCmp.KeyedEntriesDistinct` | benches/mapinsert_cmp.rs:53 | the generated keys are pairwise distinct |
| `MapinsertCmp.Slice` | benches/mapinsert_cmp.rs:58 | definition of `vec[0..size]`, `None` standing for the panic when size exceeds the length; characterised by `SliceKeyedEntries` |
| `MapinsertCmp.SliceKeyedEntries` | benches/mapinsert_cmp.rs:53-58 | every in-bounds slice `vec[0..size]` of the generated input of length n is the generated input of length `size` |
| `MapinsertCmp.BenchSizes` | benches/mapinsert_cmp.rs:54 | definition of the sweep `[1, 5, 25, 125, vec.len()]`; characterised by `BenchSlicesInBounds` |
| `MapinsertCmp.BenchSlicesInBounds` | benches/mapinsert_cmp.rs:54-58 | every slice for `size` in `[1, 5, 25, 125, vec.len()]` is in bounds and equals the generated input of that size |
| `MapinsertCmp.BenchMapContents` | benches/mapinsert_cmp.rs:53-90 | the map built from the first `size` generated entries has `size` entries, maps each `"key_i"` to i, and the IndexMap and BTreeMap hold the same pairs, the IndexMap in input order |
| `MapinsertCmp.KeyTenBeforeKeyTwo` | benches/mapinsert_cmp.rs:53 | `"key_10"` sorts before `"key_2"` |
| `MapinsertCmp.BenchBtreemapOrder` | benches/mapinsert_cmp.rs:69-73 | for a size of at least 11 the BTreeMap iterates `"key_10"` before `"key_2"` |

## Left out

- The criterion benchmark framework (`criterion_group!`, `criterion_main!`, `bench_function`, `b.iter`, warm-up, sampling, statistics): a foreign timing library working on wall-clock time and floating point.
- `black_box`: an optimiser barrier without functional content, taken as the identity.
- The benchmark labels built with `format!` (for example benches/mapinsert_cmp.rs:56): report text only.
- Capacity and reallocation (`Vec::with_capacity`, `String::with_capacity(4000)`, `HashMap::with_capacity`, `IndexMap::with_capacity`): they affect performance only, so the model records no capacity, and the `alloc` flag is a parameter the map methods accept and do not use.
- HashMap hashing, `RandomState` and iteration order: unspecified and randomised, so a HashMap is only its contents.
- `MapinsertCmp.BtreemapFrom`: `BTreeMap::from_iter` sorts and bulk-builds; it is defined by the sequence of inserts, and `BtreemapUnique` shows that any strictly sorted result with the contents `BtreemapContents` states is this one.
- `ListfmtCmp.FormatString`: the internals of itertools' `format_with` and `format_args!` are modelled only by their output, the first element then a comma and an element for each further one.
- `usize` is taken as 64 bits wide, and `n * n` as wrapping (the release profile that benches build with has overflow checks off); a debug build would panic instead.
- Strings are sequences of Unicode scalar values rather than UTF-8 bytes; comparing them one character at a time orders them as Rust's byte-wise comparison does.
- `ListfmtCmp.SplitJoinString`: stated for non-empty input only, because the empty output `""` splits into one empty piece, not into no pieces.
