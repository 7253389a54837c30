/** benches/count_cmp.rs: two ways of counting the odd elements of a slice. */
module CountCmp {
  import opened Common

  /** The test both variants apply, `v % 2 == 1` (usize values are never
      negative, so Rust's and Dafny's `%` agree). */
  predicate IsOdd(v: Usize) {
    v % 2 == 1
  }

  /** `vec.iter().filter(|&v| v % 2 == 1)`: the odd elements, in order. */
  function OddElements(vec: seq<Usize>): (r: seq<Usize>)
    ensures |r| <= |vec|
    ensures forall i :: 0 <= i < |r| ==> IsOdd(r[i]) && r[i] in vec
    ensures forall i :: 0 <= i < |vec| && IsOdd(vec[i]) ==> vec[i] in r
  {
    if vec == [] then []
    else (if IsOdd(vec[0]) then [vec[0]] else []) + OddElements(vec[1..])
  }

  /** The filter keeps every odd element as often as it occurs, and drops
      every even one. */
  lemma {:induction false} OddElementsMultiset(vec: seq<Usize>)
    ensures forall x: Usize ::
              multiset(OddElements(vec))[x] == (if IsOdd(x) then multiset(vec)[x] else 0)
  {
    if vec != [] {
      OddElementsMultiset(vec[1..]);
      assert vec == [vec[0]] + vec[1..];
    }
  }

  /** The filter keeps the elements in order: a one-element slice keeps its
      element exactly when it is odd and, with OddElementsAppend, this fixes
      the filter of every slice. */
  lemma OddElementsSingle(x: Usize)
    ensures OddElements([x]) == if IsOdd(x) then [x] else []
  {
    assert [x][1..] == [];
  }

  /** filter_count: `vec.iter().filter(|&v| v % 2 == 1).count()`. */
  function FilterCount(vec: seq<Usize>): (r: nat)
    ensures r <= |vec|
    ensures vec == [] ==> r == 0
  {
    |OddElements(vec)|
  }

  /** Filtering distributes over concatenation. */
  lemma {:induction false} OddElementsAppend(a: seq<Usize>, b: seq<Usize>)
    ensures OddElements(a + b) == OddElements(a) + OddElements(b)
  {
    if a == [] {
      assert a + b == b;
    } else {
      assert (a + b)[0] == a[0];
      assert (a + b)[1..] == a[1..] + b;
      OddElementsAppend(a[1..], b);
    }
  }

  /** Counting over a concatenation is the sum of the counts of the parts. */
  lemma CountAppend(a: seq<Usize>, b: seq<Usize>)
    ensures FilterCount(a + b) == FilterCount(a) + FilterCount(b)
  {
    OddElementsAppend(a, b);
  }

  /** plain_count: a `for` loop that increments `count` on each odd element.
      `count` never exceeds the slice length, so `count += 1` cannot overflow. */
  method PlainCount(vec: seq<Usize>) returns (count: nat)
    ensures count == FilterCount(vec)
    ensures count <= |vec|
  {
    count := 0;
    for i := 0 to |vec|
      invariant count == FilterCount(vec[..i])
    {
      assert vec[..i + 1] == vec[..i] + [vec[i]];
      CountAppend(vec[..i], [vec[i]]);
      if vec[i] % 2 == 1 {
        count := count + 1;
      }
    }
    assert vec[..|vec|] == vec;
  }

  /** Over the bench input `0..n` exactly the floor of n/2 elements are odd. */
  lemma {:induction false} CountRange(n: nat)
    requires n <= UsizeModulus
    ensures FilterCount(Range(n)) == n / 2
  {
    if n > 0 {
      CountRange(n - 1);
      RangeSnoc(n - 1);
      CountAppend(Range(n - 1), [(n - 1) as Usize]);
    }
  }

  /** The bench input `(0..1000)` has 500 odd elements; `[0, 1, 2, 3, 4]` has 2. */
  lemma BenchCount()
    ensures FilterCount(Range(BenchLen)) == 500
    ensures FilterCount(Range(5)) == 2
  {
    CountRange(BenchLen);
    CountRange(5);
  }
}
