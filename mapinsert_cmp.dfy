/** benches/mapinsert_cmp.rs: populating a HashMap, an IndexMap or a BTreeMap
    from `(key, value)` pairs, by an insert loop or by `from_iter`. */
module MapinsertCmp {
  import opened Common
  import opened Decimal
  import opened StrOrder

  /** One `(String, usize)` pair of the input slice. */
  type Entry = (string, Usize)

  predicate DistinctKeys(entries: seq<Entry>) {
    forall i, j :: 0 <= i < j < |entries| ==> entries[i].0 != entries[j].0
  }

  function KeySet(entries: seq<Entry>): set<string> {
    set i | 0 <= i < |entries| :: entries[i].0
  }

  /** No later entry has the same key as entry i: its value is the one a map
      keeps after all the inserts. */
  predicate IsLastWithKey(entries: seq<Entry>, i: nat)
    requires i < |entries|
  {
    forall j :: i < j < |entries| ==> entries[j].0 != entries[i].0
  }

  // ---------------------------------------------------------------- HashMap

  /** hashmap_from: `HashMap::from_iter(entries.iter().cloned())`. Hashing and
      iteration order are unspecified, so a HashMap is its key/value contents.
      Its keys are the entries' keys, and each maps to its last value. */
  function HashmapFrom(entries: seq<Entry>): (r: map<string, Usize>)
    ensures r.Keys == KeySet(entries)
    ensures forall i :: 0 <= i < |entries| && IsLastWithKey(entries, i) ==>
      r[entries[i].0] == entries[i].1
  {
    if entries == [] then map[]
    else
      var init, last := entries[..|entries| - 1], entries[|entries| - 1];
      assert forall i :: 0 <= i < |init| ==> init[i] == entries[i];
      assert KeySet(entries) == KeySet(init) + {last.0};
      HashmapFrom(init)[last.0 := last.1]
  }

  /** hashmap_insert: `alloc` only chooses `HashMap::with_capacity` over
      `HashMap::new`; both start empty, so the model ignores it. */
  method HashmapInsert(entries: seq<Entry>, alloc: bool) returns (result: map<string, Usize>)
    ensures result == HashmapFrom(entries)
  {
    result := map[];
    for i := 0 to |entries|
      invariant result == HashmapFrom(entries[..i])
    {
      assert entries[..i + 1][..i] == entries[..i];
      var (k, v) := entries[i];
      result := result[k := v];
    }
    assert entries[..|entries|] == entries;
  }

  /** With distinct keys nothing is overwritten: one map entry per input entry. */
  lemma {:induction false} HashmapSize(entries: seq<Entry>)
    requires DistinctKeys(entries)
    ensures |HashmapFrom(entries)| == |entries|
  {
    if entries != [] {
      var init := entries[..|entries| - 1];
      assert DistinctKeys(init);
      HashmapSize(init);
      assert entries[|entries| - 1].0 !in KeySet(init);
    }
  }

  // --------------------------------------------------------------- IndexMap

  /** An IndexMap: the keys in insertion order beside the key/value contents. */
  datatype IndexMap = IndexMap(keys: seq<string>, values: map<string, Usize>) {
    predicate Valid() {
      (forall i, j :: 0 <= i < j < |keys| ==> keys[i] != keys[j]) &&
      (set i | 0 <= i < |keys| :: keys[i]) == values.Keys
    }

    /** Iteration: the pairs in key order. */
    function Iter(): (r: seq<Entry>)
      requires Valid()
      ensures |r| == |keys|
      ensures forall i :: 0 <= i < |keys| ==> r[i] == (keys[i], values[keys[i]])
    {
      seq(|keys|, i requires 0 <= i < |keys| => (keys[i], values[keys[i]]))
    }
  }

  /** `IndexMap::insert`: a present key keeps its position and takes the new
      value; a new key goes last. */
  function IndexInsert(m: IndexMap, k: string, v: Usize): (r: IndexMap)
    requires m.Valid()
    ensures r.Valid()
    ensures r.values == m.values[k := v]
    ensures k in m.values ==> r.keys == m.keys
    ensures k !in m.values ==> r.keys == m.keys + [k]
  {
    if k in m.values then IndexMap(m.keys, m.values[k := v])
    else
      var keys := m.keys + [k];
      assert (set i | 0 <= i < |keys| :: keys[i]) == (set i | 0 <= i < |m.keys| :: m.keys[i]) + {k} by {
        assert forall i :: 0 <= i < |m.keys| ==> keys[i] == m.keys[i];
        assert keys[|m.keys|] == k;
      }
      IndexMap(keys, m.values[k := v])
  }

  /** indexmap_from: `IndexMap::from_iter(entries.iter().cloned())`. */
  function IndexmapFrom(entries: seq<Entry>): (r: IndexMap)
    ensures r.Valid()
  {
    if entries == [] then IndexMap([], map[])
    else
      var last := entries[|entries| - 1];
      IndexInsert(IndexmapFrom(entries[..|entries| - 1]), last.0, last.1)
  }

  /** indexmap_insert: as for the HashMap, `alloc` changes only the capacity. */
  method IndexmapInsert(entries: seq<Entry>, alloc: bool) returns (result: IndexMap)
    ensures result.Valid()
    ensures result == IndexmapFrom(entries)
  {
    result := IndexMap([], map[]);
    for i := 0 to |entries|
      invariant result == IndexmapFrom(entries[..i])
    {
      assert entries[..i + 1][..i] == entries[..i];
      var (k, v) := entries[i];
      result := IndexInsert(result, k, v);
    }
    assert entries[..|entries|] == entries;
  }

  /** An IndexMap holds the same key/value pairs as a HashMap built from the
      same entries. */
  lemma {:induction false} IndexmapContents(entries: seq<Entry>)
    ensures IndexmapFrom(entries).values == HashmapFrom(entries)
  {
    if entries != [] {
      IndexmapContents(entries[..|entries| - 1]);
    }
  }

  function KeysInOrder(entries: seq<Entry>): seq<string> {
    seq(|entries|, i requires 0 <= i < |entries| => entries[i].0)
  }

  /** With distinct keys every insert appends: the IndexMap's order is the
      input order. */
  lemma {:induction false} IndexmapOrder(entries: seq<Entry>)
    requires DistinctKeys(entries)
    ensures IndexmapFrom(entries).keys == KeysInOrder(entries)
  {
    if entries != [] {
      var init := entries[..|entries| - 1];
      assert DistinctKeys(init);
      IndexmapOrder(init);
      IndexmapContents(init);
      assert entries[|entries| - 1].0 !in KeySet(init);
      assert KeysInOrder(entries) == KeysInOrder(init) + [entries[|entries| - 1].0];
    }
  }

  /** With distinct keys, iterating the IndexMap gives back the input entries. */
  lemma IndexmapIterRoundTrip(entries: seq<Entry>)
    requires DistinctKeys(entries)
    ensures IndexmapFrom(entries).Iter() == entries
  {
    IndexmapOrder(entries);
    IndexmapContents(entries);
    var it := IndexmapFrom(entries).Iter();
    forall i | 0 <= i < |entries| ensures it[i] == entries[i] {
      assert IsLastWithKey(entries, i);
    }
  }

  // --------------------------------------------------------------- BTreeMap

  /** A BTreeMap, seen through its iteration: the pairs in strictly increasing
      key order. */
  datatype BTreeMap = BTreeMap(pairs: seq<Entry>) {
    predicate Valid() {
      forall i, j :: 0 <= i < j < |pairs| ==> Less(pairs[i].0, pairs[j].0)
    }
  }

  function PairKeys(pairs: seq<Entry>): set<string> {
    set i | 0 <= i < |pairs| :: pairs[i].0
  }

  lemma PairKeysCons(pairs: seq<Entry>)
    requires pairs != []
    ensures PairKeys(pairs) == PairKeys(pairs[1..]) + {pairs[0].0}
  {
    assert forall i :: 0 < i < |pairs| ==> pairs[i] == pairs[1..][i - 1];
  }

  /** The key/value contents of a list of pairs with distinct keys. */
  function PairsToMap(pairs: seq<Entry>): (r: map<string, Usize>)
    ensures r.Keys == PairKeys(pairs)
  {
    if pairs == [] then map[]
    else
      PairKeysCons(pairs);
      PairsToMap(pairs[1..])[pairs[0].0 := pairs[0].1]
  }

  /** In a list with distinct keys each key maps to the value of its pair. */
  lemma {:induction false} PairsToMapAt(pairs: seq<Entry>, i: nat)
    requires DistinctKeys(pairs)
    requires i < |pairs|
    ensures pairs[i].0 in PairsToMap(pairs) && PairsToMap(pairs)[pairs[i].0] == pairs[i].1
  {
    if i > 0 {
      assert pairs[1..][i - 1] == pairs[i];
      assert DistinctKeys(pairs[1..]);
      PairsToMapAt(pairs[1..], i - 1);
    }
  }

  /** Iterating an IndexMap yields each key once, with exactly the map's
      contents. */
  lemma IndexmapIterContents(m: IndexMap)
    requires m.Valid()
    ensures DistinctKeys(m.Iter())
    ensures PairsToMap(m.Iter()) == m.values
  {
    var r := m.Iter();
    assert PairKeys(r) == m.values.Keys by {
      assert forall i :: 0 <= i < |r| ==> r[i].0 == m.keys[i];
    }
    forall k | k in m.values ensures PairsToMap(r)[k] == m.values[k] {
      var i :| 0 <= i < |m.keys| && m.keys[i] == k;
      PairsToMapAt(r, i);
    }
  }

  /** `BTreeMap::insert` on the sorted pairs: replace the value of an equal
      key, else put the pair before the first greater key. */
  function SortedInsert(pairs: seq<Entry>, k: string, v: Usize): seq<Entry> {
    if pairs == [] then [(k, v)]
    else if k == pairs[0].0 then [(k, v)] + pairs[1..]
    else if Less(k, pairs[0].0) then [(k, v)] + pairs
    else [pairs[0]] + SortedInsert(pairs[1..], k, v)
  }

  /** Inserting adds k to the keys and keeps every other key. */
  lemma {:induction false} SortedInsertKeys(pairs: seq<Entry>, k: string, v: Usize)
    ensures PairKeys(SortedInsert(pairs, k, v)) == PairKeys(pairs) + {k}
  {
    var r := SortedInsert(pairs, k, v);
    if pairs == [] {
      assert r[0].0 == k;
    } else {
      PairKeysCons(pairs);
      PairKeysCons(r);
      if k == pairs[0].0 {
        assert r[1..] == pairs[1..];
      } else if Less(k, pairs[0].0) {
        assert r[1..] == pairs;
      } else {
        assert r[1..] == SortedInsert(pairs[1..], k, v);
        SortedInsertKeys(pairs[1..], k, v);
      }
    }
  }

  /** Inserting keeps the pairs strictly sorted. */
  lemma {:induction false} SortedInsertValid(pairs: seq<Entry>, k: string, v: Usize)
    requires BTreeMap(pairs).Valid()
    ensures BTreeMap(SortedInsert(pairs, k, v)).Valid()
  {
    if pairs != [] && k != pairs[0].0 {
      if Less(k, pairs[0].0) {
        forall j | 0 < j < |pairs| ensures Less(k, pairs[j].0) {
          LessTransitive(k, pairs[0].0, pairs[j].0);
        }
      } else {
        LessTotal(k, pairs[0].0);
        var rest := SortedInsert(pairs[1..], k, v);
        assert BTreeMap(pairs[1..]).Valid();
        SortedInsertValid(pairs[1..], k, v);
        SortedInsertKeys(pairs[1..], k, v);
        forall j | 0 <= j < |rest| ensures Less(pairs[0].0, rest[j].0) {
          var key := rest[j].0;
          assert key in PairKeys(rest);
          if key != k {
            var m :| 0 <= m < |pairs[1..]| && pairs[1..][m].0 == key;
            assert pairs[m + 1].0 == key;
          }
        }
      }
    }
  }

  /** Inserting updates the contents exactly as a map insert does. */
  lemma {:induction false} SortedInsertContents(pairs: seq<Entry>, k: string, v: Usize)
    ensures PairsToMap(SortedInsert(pairs, k, v)) == PairsToMap(pairs)[k := v]
  {
    var r := SortedInsert(pairs, k, v);
    if pairs == [] {
      assert r[1..] == [];
    } else if k == pairs[0].0 {
      assert r[1..] == pairs[1..];
    } else if Less(k, pairs[0].0) {
      assert r[1..] == pairs;
    } else {
      assert r[1..] == SortedInsert(pairs[1..], k, v);
      SortedInsertContents(pairs[1..], k, v);
    }
  }

  /** btreemap_from: `BTreeMap::from_iter(entries.iter().cloned())`, by what
      it yields: the same map as inserting the entries one after another. */
  function BtreemapFrom(entries: seq<Entry>): (r: BTreeMap)
    ensures r.Valid()
  {
    if entries == [] then BTreeMap([])
    else
      var last := entries[|entries| - 1];
      var init := BtreemapFrom(entries[..|entries| - 1]);
      SortedInsertValid(init.pairs, last.0, last.1);
      BTreeMap(SortedInsert(init.pairs, last.0, last.1))
  }

  /** btreemap_insert: an insert loop over `BTreeMap::new()`. */
  method BtreemapInsert(entries: seq<Entry>) returns (result: BTreeMap)
    ensures result.Valid()
    ensures result == BtreemapFrom(entries)
  {
    result := BTreeMap([]);
    for i := 0 to |entries|
      invariant result == BtreemapFrom(entries[..i])
    {
      assert entries[..i + 1][..i] == entries[..i];
      var (k, v) := entries[i];
      result := BTreeMap(SortedInsert(result.pairs, k, v));
    }
    assert entries[..|entries|] == entries;
  }

  /** A BTreeMap holds the same key/value pairs as a HashMap built from the
      same entries. */
  lemma {:induction false} BtreemapContents(entries: seq<Entry>)
    ensures PairsToMap(BtreemapFrom(entries).pairs) == HashmapFrom(entries)
  {
    if entries != [] {
      var last := entries[|entries| - 1];
      BtreemapContents(entries[..|entries| - 1]);
      SortedInsertContents(BtreemapFrom(entries[..|entries| - 1]).pairs, last.0, last.1);
    }
  }

  /** Strictly sorted pairs have distinct keys. */
  lemma SortedDistinct(m: BTreeMap)
    requires m.Valid()
    ensures DistinctKeys(m.pairs)
  {
    forall i, j | 0 <= i < j < |m.pairs| ensures m.pairs[i].0 != m.pairs[j].0 {
      LessIrreflexive(m.pairs[i].0);
    }
  }

  /** The first pair of a sorted list holds its least key. */
  lemma SortedFirstLeast(m: BTreeMap, k: string)
    requires m.Valid()
    requires k in PairKeys(m.pairs)
    ensures k == m.pairs[0].0 || Less(m.pairs[0].0, k)
  {
    var j :| 0 <= j < |m.pairs| && m.pairs[j].0 == k;
  }

  /** Taking the first pair off a sorted list leaves a sorted list whose
      contents are the old contents less the first key. */
  lemma SortedTail(m: BTreeMap)
    requires m.Valid() && m.pairs != []
    ensures BTreeMap(m.pairs[1..]).Valid()
    ensures PairsToMap(m.pairs)[m.pairs[0].0] == m.pairs[0].1
    ensures PairsToMap(m.pairs[1..]) == PairsToMap(m.pairs) - {m.pairs[0].0}
  {
    var p := m.pairs;
    SortedDistinct(m);
    PairsToMapAt(p, 0);
    PairKeysCons(p);
    assert forall j :: 0 <= j < |p[1..]| ==> p[1..][j].0 == p[j + 1].0 != p[0].0;
    assert p[0].0 !in PairKeys(p[1..]);
  }

  lemma FirstKeyPresent(pairs: seq<Entry>)
    ensures pairs != [] ==> pairs[0].0 in PairKeys(pairs)
  {
  }

  /** Two sorted lists with the same keys start with the same key. */
  lemma SortedSameFirst(a: BTreeMap, b: BTreeMap)
    requires a.Valid() && b.Valid() && a.pairs != [] && b.pairs != []
    requires PairKeys(a.pairs) == PairKeys(b.pairs)
    ensures a.pairs[0].0 == b.pairs[0].0
  {
    var ka, kb := a.pairs[0].0, b.pairs[0].0;
    assert ka in PairKeys(a.pairs) && kb in PairKeys(b.pairs);
    SortedFirstLeast(a, kb);
    SortedFirstLeast(b, ka);
    if ka != kb {
      LessAsymmetric(ka, kb);
    }
  }

  /** A BTreeMap is determined by its contents: two strictly sorted pair lists
      with the same key/value contents are equal. So any `from_iter` that
      yields sorted pairs with the contents of BtreemapContents yields
      exactly BtreemapFrom. */
  lemma {:induction false} BtreemapUnique(a: BTreeMap, b: BTreeMap)
    requires a.Valid() && b.Valid()
    requires PairsToMap(a.pairs) == PairsToMap(b.pairs)
    ensures a == b
    decreases |a.pairs|
  {
    var p, q := a.pairs, b.pairs;
    if p == [] || q == [] {
      FirstKeyPresent(p);
      FirstKeyPresent(q);
    } else {
      SortedSameFirst(a, b);
      SortedTail(a);
      SortedTail(b);
      BtreemapUnique(BTreeMap(p[1..]), BTreeMap(q[1..]));
      assert p[0] == q[0];
      assert p == [p[0]] + p[1..] && q == [q[0]] + q[1..];
    }
  }

  /** In a BTreeMap iteration, a smaller key comes before a larger one. */
  lemma BtreemapIterOrder(m: BTreeMap, i: nat, j: nat)
    requires m.Valid()
    requires i < |m.pairs| && j < |m.pairs|
    requires Less(m.pairs[i].0, m.pairs[j].0)
    ensures i < j
  {
    if j < i {
      LessAsymmetric(m.pairs[i].0, m.pairs[j].0);
    } else if i == j {
      LessIrreflexive(m.pairs[i].0);
    }
  }

  // ------------------------------------------------------- the bench inputs

  /** `format!("key_{v}")`. */
  function Key(v: nat): string {
    "key_" + NatToDecimal(v)
  }

  lemma KeyInjective(a: nat, b: nat)
    ensures Key(a) == Key(b) ==> a == b
  {
    if Key(a) == Key(b) {
      assert Key(a)[4..] == NatToDecimal(a);
      assert Key(b)[4..] == NatToDecimal(b);
      NatToDecimalInjective(a, b);
    }
  }

  /** `(0..n).map(|v| (format!("key_{v}"), v)).collect()`. */
  function KeyedEntries(n: nat): seq<Entry>
    requires n <= UsizeModulus
  {
    seq(n, v requires 0 <= v < n => (Key(v), v as Usize))
  }

  /** The `n` generated keys are pairwise distinct. */
  lemma KeyedEntriesDistinct(n: nat)
    requires n <= UsizeModulus
    ensures DistinctKeys(KeyedEntries(n))
  {
    forall i, j | 0 <= i < j < n ensures KeyedEntries(n)[i].0 != KeyedEntries(n)[j].0 {
      KeyInjective(i, j);
    }
  }

  /** `vec[0..size]`, which panics (None) when size exceeds the length. */
  function Slice(vec: seq<Entry>, size: nat): (r: Option<seq<Entry>>)
    ensures r.Some? <==> size <= |vec|
    ensures r.Some? ==> |r.value| == size && r.value == vec[..size]
  {
    if size <= |vec| then Some(vec[0..size]) else None
  }

  /** The sizes the bench sweeps over, `[1, 5, 25, 125, vec.len()]`. */
  function BenchSizes(len: nat): seq<nat> {
    [1, 5, 25, 125, len]
  }

  /** Any in-bounds prefix of the generated input is the generated input of
      that size. */
  lemma SliceKeyedEntries(n: nat, size: nat)
    requires size <= n <= UsizeModulus
    ensures Slice(KeyedEntries(n), size) == Some(KeyedEntries(size))
  {
    assert KeyedEntries(n)[..size] == KeyedEntries(size);
  }

  /** Every slice the bench takes is in bounds, and is itself the generated
      input of that size. */
  lemma BenchSlicesInBounds()
    ensures forall k :: 0 <= k < 5 ==>
      var size := BenchSizes(|KeyedEntries(BenchLen)|)[k];
      Slice(KeyedEntries(BenchLen), size) == Some(KeyedEntries(size))
  {
    var vec := KeyedEntries(BenchLen);
    forall k | 0 <= k < 5
      ensures Slice(vec, BenchSizes(|vec|)[k]) == Some(KeyedEntries(BenchSizes(|vec|)[k]))
    {
      SliceKeyedEntries(BenchLen, BenchSizes(|vec|)[k]);
    }
  }

  /** Whatever the container, a map built from the first `size` generated
      entries has `size` entries and maps each "key_i" to i; the IndexMap
      keeps them in input order. */
  lemma BenchMapContents(size: nat)
    requires size <= BenchLen
    ensures |HashmapFrom(KeyedEntries(size))| == size
    ensures forall v :: 0 <= v < size ==>
      Key(v) in HashmapFrom(KeyedEntries(size)) && HashmapFrom(KeyedEntries(size))[Key(v)] == v
    ensures IndexmapFrom(KeyedEntries(size)).values == HashmapFrom(KeyedEntries(size))
    ensures IndexmapFrom(KeyedEntries(size)).Iter() == KeyedEntries(size)
    ensures PairsToMap(BtreemapFrom(KeyedEntries(size)).pairs) == HashmapFrom(KeyedEntries(size))
  {
    var e := KeyedEntries(size);
    KeyedEntriesDistinct(size);
    HashmapSize(e);
    IndexmapContents(e);
    IndexmapIterRoundTrip(e);
    BtreemapContents(e);
    forall v | 0 <= v < size ensures Key(v) in HashmapFrom(e) && HashmapFrom(e)[Key(v)] == v {
      assert e[v] == (Key(v), v as Usize);
      assert IsLastWithKey(e, v);
    }
  }

  /** "key_10" sorts before "key_2": the strings first differ at '1' < '2'. */
  lemma KeyTenBeforeKeyTwo()
    ensures Key(10) == "key_10" && Key(2) == "key_2"
    ensures Less(Key(10), Key(2))
  {
    assert NatToDecimal(10) == "10";
    LessCommonPrefix("key_", "10", "2");
  }

  /** BTreeMap iteration is in string order, not numeric order: once "key_10"
      is present it comes before "key_2". */
  lemma BenchBtreemapOrder(size: nat)
    requires 11 <= size <= BenchLen
    ensures var pairs := BtreemapFrom(KeyedEntries(size)).pairs;
      exists i, j :: 0 <= i < j < |pairs| && pairs[i].0 == "key_10" && pairs[j].0 == "key_2"
  {
    var e := KeyedEntries(size);
    var m := BtreemapFrom(e);
    BtreemapContents(e);
    KeyTenBeforeKeyTwo();
    assert e[10].0 == Key(10) && e[2].0 == Key(2);
    assert Key(10) in PairKeys(m.pairs) && Key(2) in PairKeys(m.pairs);
    var i :| 0 <= i < |m.pairs| && m.pairs[i].0 == Key(10);
    var j :| 0 <= j < |m.pairs| && m.pairs[j].0 == Key(2);
    BtreemapIterOrder(m, i, j);
  }
}
