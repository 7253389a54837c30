/** Values shared by the four benchmark files: Rust's 64-bit `usize`, the
    bench inputs `(0..n).collect()`, and an Option for operations that panic. */
module Common {

  /** 2^64: `usize` on a 64-bit target, as assumed throughout. */
  const UsizeModulus: nat := 0x1_0000_0000_0000_0000

  type Usize = x: nat | x < UsizeModulus

  datatype Option<+T> = None | Some(value: T)

  /** `(0..n).collect::<Vec<usize>>()`. */
  function Range(n: nat): (r: seq<Usize>)
    requires n <= UsizeModulus
  {
    seq(n, i requires 0 <= i < n => i as Usize)
  }

  /** The `n` used by every bench input, `0..1000`. */
  const BenchLen: nat := 1000

  /** Range(n + 1) extends Range(n) by n: the step every induction over a
      bench input takes. */
  lemma RangeSnoc(n: nat)
    requires n < UsizeModulus
    ensures Range(n + 1) == Range(n) + [n as Usize]
  {
    assert Range(n + 1)[..n] == Range(n);
  }
}
