/** Vector stores that overrun on purpose: whole registers are written, and the surplus is overwritten or ignored. */
module WideStore {
  import opened RunLength

  /** `SIMD_EXTRA_BYTES` of the SIMD build: four 256-bit registers. */
  const SIMD_EXTRA_BYTES: nat := 128

  /** `SIMD_EXTRA_ELEMENTS(INTEGER)`. */
  const SIMD_EXTRA_INTS: nat := 32

  /** Lanes of a 256-bit register. */
  const LANES_32: nat := 8
  const LANES_64: nat := 4

  /** `_mm256_storeu`: writes one register holding the same value in every lane. */
  method StoreRegister<T>(dest: array<T>, at: nat, v: T, lanes: nat)
    requires at + lanes <= dest.Length
    modifies dest
    ensures forall i :: 0 <= i < dest.Length ==> dest[i] == if at <= i < at + lanes then v else old(dest[i])
  {
    forall k | at <= k < at + lanes {
      dest[k] := v;
    }
  }

  /** The stores of one run: from `at` in steps of a register until `at + count` is reached. */
  method StoreRun<T>(dest: array<T>, at: nat, v: T, count: nat, lanes: nat)
    requires 1 <= lanes && at + count + lanes - 1 <= dest.Length
    modifies dest
    ensures forall i :: at <= i < at + count ==> dest[i] == v
    ensures forall i :: 0 <= i < at || at + count + lanes - 1 <= i < dest.Length ==> dest[i] == old(dest[i])
  {
    var write := at;
    while write < at + count
      invariant at <= write < at + count + lanes
      invariant forall i :: at <= i < write && i < dest.Length ==> dest[i] == v
      invariant forall i :: 0 <= i < at || at + count + lanes - 1 <= i < dest.Length ==> dest[i] == old(dest[i])
    {
      StoreRegister(dest, write, v, lanes);
      write := write + lanes;
    }
  }

  /**
    * `TRLE::decompressColumn`, SIMD loop (8 lanes for INTEGER, 4 for DOUBLE; one lane is the scalar loop): every run
    * spills into the next one, the result is the scalar expansion, and at most `lanes - 1` elements past the end are
    * touched.
    */
  method DecodeRunsWide<T>(dest: array<T>, values: array<T>, counts: array<int>, runs: nat, lanes: nat)
    requires 1 <= lanes && runs <= values.Length && runs <= counts.Length
    requires dest != values && dest as object != counts
    requires NonNegative(counts[..runs])
    requires Total(counts[..runs]) + lanes - 1 <= dest.Length
    modifies dest
    ensures 0 <= Total(counts[..runs])
    ensures dest[..Total(counts[..runs])] == Expand(values[..runs], counts[..runs])
    ensures forall i :: Total(counts[..runs]) + lanes - 1 <= i < dest.Length ==> dest[i] == old(dest[i])
  {
    ghost var vs, cs := values[..runs], counts[..runs];
    var write, run := 0, 0;
    StartMonotone(cs, 0, runs);
    while run < runs
      invariant 0 <= run <= runs && write == Start(cs, run) && 0 <= write <= Total(cs)
      invariant values[..runs] == vs && counts[..runs] == cs
      invariant dest[..write] == ExpandTo(vs, cs, run)
      invariant forall i :: Total(cs) + lanes - 1 <= i < dest.Length ==> dest[i] == old(dest[i])
    {
      assert counts[run] == cs[run] && values[run] == vs[run];
      StartMonotone(cs, run + 1, runs);
      ghost var done := dest[..write];
      StoreRun(dest, write, values[run], counts[run], lanes);
      assert dest[..write + counts[run]] == done + Repeat(vs[run], cs[run]);
      write := write + counts[run];
      run := run + 1;
    }
  }
}
