/** The inverse transform's ranges under the harness's contract alone, every product any value from -2^23
    up to 2^23: proof/mldsa_stubs.h:13-46 and proof/mldsa_ntt_harness.c. */
module Ranges {
  import opened WideMul
  import opened Layers

  const EDGE: int := 0x80_0000

  /** x is a sum of n values of the contract. */
  ghost predicate Within(x: int, n: nat) { -(n * EDGE) <= x <= n * (EDGE - 1) }

  /** stub_reduce32, stub_mul_zeta: whatever the contract permits. */
  method Coefficient() returns (r: Int32)
    ensures Within(r, 1)
  {
    var x: int := *;
    r := if -EDGE <= x < EDGE then x else 0;
  }

  /** One butterfly: neither the sum nor the difference leaves int32_t. */
  method Pair(x: Int32, y: Int32, ghost n: nat) returns (lo: Int32, hi: Int32)
    requires 1 <= n <= 128 && Within(x, n) && Within(y, n)
    ensures Within(lo, 2 * n) && Within(hi, 2 * n)
  {
    lo := x + y;
    var difference: Int32 := x - y;
    hi := Coefficient();
  }

  method Block(w: array<Int32>, start: nat, len: nat)
    requires 1 <= len <= 128 && start + 2 * len <= w.Length
    requires forall k {:trigger w[k]} :: start <= k < start + 2 * len ==> Within(w[k], len)
    modifies w
    ensures forall k {:trigger w[k]} :: start <= k < start + 2 * len ==> Within(w[k], 2 * len)
    ensures forall k {:trigger w[k]} :: 0 <= k < start || start + 2 * len <= k < w.Length ==> w[k] == old(w[k])
  {
    for j := start to start + len
      invariant forall k {:trigger w[k]} :: start <= k < j || start + len <= k < j + len ==> Within(w[k], 2 * len)
      invariant forall k {:trigger w[k]} :: j <= k < start + len || j + len <= k < start + 2 * len ==> Within(w[k], len)
      invariant forall k {:trigger w[k]} :: 0 <= k < start || start + 2 * len <= k < w.Length ==> w[k] == old(w[k])
    {
      w[j], w[j + len] := Pair(w[j], w[j + len], len);
    }
  }

  method Layer(w: array<Int32>, len: nat, ghost blocks: nat)
    requires 1 <= len <= 128 && w.Length == Reps(blocks, 2 * len)
    requires forall k {:trigger w[k]} :: 0 <= k < w.Length ==> Within(w[k], len)
    modifies w
    ensures forall k {:trigger w[k]} :: 0 <= k < w.Length ==> Within(w[k], 2 * len)
  {
    var start := 0;
    ghost var left := blocks;
    while start < w.Length
      invariant start <= w.Length && w.Length - start == Reps(left, 2 * len)
      invariant forall k {:trigger w[k]} :: 0 <= k < start ==> Within(w[k], 2 * len)
      invariant forall k {:trigger w[k]} :: start <= k < w.Length ==> Within(w[k], len)
    {
      Block(w, start, len);
      start := start + 2 * len;
      left := left - 1;
    }
  }

  lemma {:induction false} BlocksOf(c: nat, d: nat)
    ensures Reps(2 * c, d) == Reps(c, 2 * d)
  {
    if c > 0 {
      BlocksOf(c - 1, d);
      assert Reps(2 * c, d) == d + (d + Reps(2 * c - 2, d));
    }
  }

  lemma {:induction false} OnesOf(c: nat, one: nat)
    requires one == 1
    ensures Reps(c, one) == c
  {
    if c > 0 { OnesOf(c - 1, one); }
  }

  /** All eight layers, whatever the coefficients were: nothing leaves int32_t, and a last sum is one of 256
      contract values. */
  method EightLayers(w: array<Int32>)
    requires w.Length == 256
    modifies w
    ensures forall k {:trigger w[k]} :: 0 <= k < 256 ==> -0x8000_0000 <= w[k] < 0x8000_0000 - 255
  {
    for i := 0 to 256
      invariant forall k {:trigger w[k]} :: 0 <= k < i ==> Within(w[k], 1)
    {
      w[i] := Coefficient();
    }
    var len: nat := 1;
    ghost var c: nat := 256;
    OnesOf(c, len);
    while len < 256
      invariant 1 <= len <= 256 && Reps(c, len) == 256
      invariant len in {1, 2, 4, 8, 16, 32, 64, 128, 256} && c == 256 / len
      invariant forall k {:trigger w[k]} :: 0 <= k < 256 ==> Within(w[k], len)
    {
      BlocksOf(c / 2, len);
      Layer(w, len, c / 2);
      len := 2 * len;
      c := c / 2;
    }
  }
}
