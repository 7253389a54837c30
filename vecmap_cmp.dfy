/** benches/vecmap_cmp.rs: three ways of building the vector of squares of a
    slice. */
module VecmapCmp {
  import opened Common

  /** `n * n` on `usize`. The benches are built with the release profile, where
      overflow checks are off and the product wraps modulo 2^64. */
  function MulUsize(a: Usize, b: Usize): Usize {
    (a * b) % UsizeModulus
  }

  /** Below 2^32 a square does not wrap. */
  lemma SquareExact(n: Usize)
    requires n < 0x1_0000_0000
    ensures MulUsize(n, n) == n * n
  {
    SquareBelow(n, 0x1_0000_0000);
    assert 0x1_0000_0000 * 0x1_0000_0000 == UsizeModulus;
  }

  /** n < m implies n * n < m * m, for naturals. */
  lemma SquareBelow(n: nat, m: nat)
    requires n < m
    ensures n * n < m * m
  {
    assert n * n <= n * m;
    assert n * m < m * m;
  }

  /** chain: `vec.iter().map(|&n| n * n).collect()`. */
  function Chain(vec: seq<Usize>): (r: seq<Usize>)
    ensures |r| == |vec|
    ensures forall i :: 0 <= i < |vec| ==> r[i] == MulUsize(vec[i], vec[i])
  {
    if vec == [] then []
    else Chain(vec[..|vec| - 1]) + [MulUsize(vec[|vec| - 1], vec[|vec| - 1])]
  }

  /** plain_push: push each square onto an initially empty `Vec`. */
  method PlainPush(vec: seq<Usize>) returns (d: seq<Usize>)
    ensures d == Chain(vec)
  {
    d := [];
    for i := 0 to |vec|
      invariant d == Chain(vec[..i])
    {
      assert vec[..i + 1][..i] == vec[..i];
      d := d + [MulUsize(vec[i], vec[i])];
    }
    assert vec[..|vec|] == vec;
  }

  /** capacity_push: the same loop over a `Vec::with_capacity(vec.len())`. The
      reserved capacity only changes when the buffer reallocates, never what
      it holds, so the model has nothing to record for it. */
  method CapacityPush(vec: seq<Usize>) returns (d: seq<Usize>)
    ensures d == Chain(vec)
  {
    d := [];
    for i := 0 to |vec|
      invariant |d| == i
      invariant forall j :: 0 <= j < i ==> d[j] == MulUsize(vec[j], vec[j])
    {
      d := d + [MulUsize(vec[i], vec[i])];
    }
  }

  /** On the bench input `0..1000` no square wraps: element i is exactly i*i,
      at most 999*999. */
  lemma BenchNoOverflow()
    ensures |Chain(Range(BenchLen))| == BenchLen
    ensures forall i :: 0 <= i < BenchLen ==>
      Chain(Range(BenchLen))[i] == i * i <= 999 * 999
  {
    var c := Chain(Range(BenchLen));
    forall i | 0 <= i < BenchLen
      ensures c[i] == i * i <= 999 * 999
    {
      assert Range(BenchLen)[i] == i;
      SquareExact(i as Usize);
      if i < 999 { SquareBelow(i, 999); }
    }
  }
}
