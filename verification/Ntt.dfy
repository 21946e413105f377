/** The transforms of src/mldsa_poly.c, in place on 256 coefficients: no sum leaves int32_t from any
    input, the results are the transform's modulo q, and the product through them is the product
    modulo X^256 + 1. */
module Ntt {
  import opened Common
  import opened WideMul
  import opened Residues
  import opened Twiddles
  import opened Zetas
  import opened Transform
  import opened Layers

  /** x is a modulo q, within the bound. */
  ghost predicate Lies(x: int, a: int, bound: int) { Eq(x, a) && -bound <= x <= bound }

  /** mld_poly_reduce. */
  method ReduceAll(w: array<Int32>)
    modifies w
    ensures forall k {:trigger w[k]} :: 0 <= k < w.Length ==> Lies(w[k], old(w[k]), 6291200)
  {
    for i := 0 to w.Length
      invariant forall k {:trigger w[k]} :: 0 <= k < i ==> Lies(w[k], old(w[k]), 6291200)
      invariant forall k {:trigger w[k]} :: i <= k < w.Length ==> w[k] == old(w[k])
    {
      w[i] := Reduce32(w[i]);
    }
  }

  /** A product with a table entry is a product with the twiddle. */
  lemma OutOfRadix(r: int, zeta: int, t: int, y: int, b: int)
    requires Eq(r * R, zeta * y) && Eq(zeta, t * R) && Eq(y, b)
    ensures Eq(r, t * b)
  {
    EqMul(zeta, t * R, y, b);
    EqTrans(r * R, zeta * y, (t * R) * b);
    assert (t * R) * b == (t * b) * R by { Turn(t, R, b); }
    CancelRadix(r, t * b);
  }

  lemma Turn(x: int, y: int, z: int)
    ensures (x * y) * z == (x * z) * y
  {}

  /** One butterfly of mld_poly_ntt. */
  method PairDown(x: Int32, y: Int32, zeta: int, ghost t: int, ghost a: int, ghost b: int, ghost bound: int)
    returns (lo: Int32, hi: Int32)
    requires -(Q - 1) / 2 <= zeta <= (Q - 1) / 2 && Eq(zeta, t * R) && Eq(x, a) && Eq(y, b)
    requires -bound <= x <= bound && bound + Q < 0x8000_0000
    ensures Eq(lo, a + t * b) && Eq(hi, a + -t * b)
    ensures -(bound + Q) <= lo <= bound + Q && -(bound + Q) <= hi <= bound + Q
  {
    var product := MulZeta(zeta, y);
    OutOfRadix(product, zeta, t, y, b);
    lo := x as int + product;
    hi := x as int - product;
    assert Eq(lo, a + t * b) && Eq(hi, a + -t * b) by {
      EqAdd(x, a, product, t * b);
      assert -t * b == -(t * b);
    }
  }

  /** v's block at start is u's after a butterfly with t. */
  ghost predicate SplitPairs(u: seq<int>, v: seq<int>, start: nat, len: nat, t: int) {
    && |v| == |u| && start + 2 * len <= |u|
    && (forall k {:trigger v[k]} :: start <= k < start + len ==> v[k] == u[k] + t * u[k + len])
    && (forall k {:trigger v[k]} :: start + len <= k < start + 2 * len ==> v[k] == u[k - len] + -t * u[k])
  }

  /** A block going down: the inner loop of mld_poly_ntt. */
  method DownBlock(w: array<Int32>, start: nat, len: nat, zeta: int, ghost t: int, ghost u: seq<int>, ghost v: seq<int>,
                   ghost bound: int)
    requires |u| == w.Length && SplitPairs(u, v, start, len, t) && bound + Q < 0x8000_0000
    requires forall k {:trigger w[k]} :: start <= k < start + 2 * len ==> Lies(w[k], u[k], bound)
    requires -(Q - 1) / 2 <= zeta <= (Q - 1) / 2 && Eq(zeta, t * R)
    modifies w
    ensures forall k {:trigger w[k]} :: start <= k < start + 2 * len ==> Lies(w[k], v[k], bound + Q)
    ensures forall k {:trigger w[k]} :: 0 <= k < start || start + 2 * len <= k < w.Length ==> w[k] == old(w[k])
  {
    for j := start to start + len
      invariant forall k {:trigger w[k]} :: start <= k < j || start + len <= k < j + len ==> Lies(w[k], v[k], bound + Q)
      invariant forall k {:trigger w[k]} ::
                  0 <= k < start || j <= k < start + len || j + len <= k < w.Length ==> w[k] == old(w[k])
    {
      var x, y := PairDown(w[j], w[j + len], zeta, t, u[j], u[j + len], bound);
      w[j + len] := y;
      w[j] := x;
    }
  }

  /** The table's entry is the twiddle in the Montgomery domain. */
  ghost predicate InTable(tw: nat -> int) {
    forall m: nat {:trigger Zeta(m)} :: 1 <= m < 256 ==> Eq(Zeta(m), tw(m) * R)
  }

  /** MLD_ZETAS[m]. */
  method ZetaAt(m: nat, ghost tw: nat -> int) returns (zeta: int)
    requires InTable(tw) && 1 <= m < 256
    ensures -(Q - 1) / 2 <= zeta <= (Q - 1) / 2 && Eq(zeta, tw(m) * R)
  {
    zeta := Zeta(m);
  }

  lemma ShippedInTable()
    ensures InTable(Shipped(ZETA))
  {}

  /** From start on, v's blocks are u's after a layer going down, the first one at node m. */
  ghost predicate SplitFrom(tw: nat -> int, u: seq<int>, v: seq<int>, start: nat, m: nat, len: nat)
    decreases |u| - start
  {
    && |v| == |u|
    && (start < |u| && len > 0 ==>
          && SplitPairs(u, v, start, len, tw(m))
          && SplitFrom(tw, u, v, start + 2 * len, m + 1, len))
  }

  /** From start on, v is u's blocks after a layer. The fact stands behind Look, so that only the steps
      that need it open it. */
  ghost predicate Rest(f: Step, u: seq<int>, v: seq<int>, start: nat, m: int, d: nat, s: int)
    requires 0 < d && start <= |u| == |v| && KeepsLength(f)
  {
    forall x: int {:trigger Look(x)} :: Look(x) ==> v[start..] == Blockwise(f, u[start..], m, d, s)
  }

  /** The first block of a layer's rest, and what comes after it. */
  lemma {:induction false} HeadBlock(f: Step, u: seq<int>, v: seq<int>, start: nat, m: int, d: nat, s: int)
    requires |v| == |u| && 0 < d && start + d <= |u| && KeepsLength(f)
    requires Rest(f, u, v, start, m, d, s)
    ensures v[start..start + d] == f(m, u[start..start + d])
    ensures Rest(f, u, v, start + d, m + s, d, s)
  {
    assert Look(0);
    assert u[start..][..d] == u[start..start + d] && u[start..][d..] == u[start + d..];
    assert v[start..][..d] == v[start..start + d] && v[start..][d..] == v[start + d..];
  }

  lemma {:induction false} HeadSplit(tw: nat -> int, u: seq<int>, v: seq<int>, start: nat, m: nat, len: nat)
    requires |v| == |u| && 0 < len && start + 2 * len <= |u|
    requires Rest(Splits(tw), u, v, start, m, 2 * len, 1)
    ensures SplitPairs(u, v, start, len, tw(m))
    ensures Rest(Splits(tw), u, v, start + 2 * len, m + 1, 2 * len, 1)
  {
    HeadBlock(Splits(tw), u, v, start, m, 2 * len, 1);
    assert SplitPairs(u[start..start + 2 * len], v[start..start + 2 * len], 0, len, tw(m)) by {
      SplitsApplied(tw, m, u[start..start + 2 * len]);
      BlockSplits(tw, m, u[start..start + 2 * len], v[start..start + 2 * len], len);
    }
    SplitShift(u, v, start, len, tw(m));
  }

  lemma {:induction false} SplitsApplied(tw: nat -> int, m: nat, b: seq<int>)
    ensures Splits(tw)(m, b) == SplitBlock(tw, m, b)
  {}

  lemma {:induction false} LayerSplits(tw: nat -> int, u: seq<int>, v: seq<int>, start: nat, m: nat, len: nat, c: nat)
    requires |v| == |u| && len > 0 && start <= |u| && |u| - start == Reps(c, 2 * len)
    requires Rest(Splits(tw), u, v, start, m, 2 * len, 1)
    ensures SplitFrom(tw, u, v, start, m, len)
    decreases c
  {
    if c > 0 {
      HeadSplit(tw, u, v, start, m, len);
      LayerSplits(tw, u, v, start + 2 * len, m + 1, len, c - 1);
      SplitMore(tw, u, v, start, m, len);
    } else {
      assert start == |u|;
    }
  }

  lemma {:induction false} SplitMore(tw: nat -> int, u: seq<int>, v: seq<int>, start: nat, m: nat, len: nat)
    requires SplitPairs(u, v, start, len, tw(m)) && SplitFrom(tw, u, v, start + 2 * len, m + 1, len)
    ensures SplitFrom(tw, u, v, start, m, len)
  {}

  lemma {:induction false} BlockSplits(tw: nat -> int, m: nat, b: seq<int>, r: seq<int>, n: nat)
    requires |b| == 2 * n && r == SplitBlock(tw, m, b)
    ensures SplitPairs(b, r, 0, n, tw(m))
  {}

  lemma {:induction false} SplitShift(u: seq<int>, v: seq<int>, start: nat, len: nat, t: int)
    requires |v| == |u| && start + 2 * len <= |u|
    requires SplitPairs(u[start..start + 2 * len], v[start..start + 2 * len], 0, len, t)
    ensures SplitPairs(u, v, start, len, t)
  {
    var b, r := u[start..start + 2 * len], v[start..start + 2 * len];
    forall k {:trigger v[k]} | start <= k < start + len
      ensures v[k] == u[k] + t * u[k + len]
    {
      assert r[k - start] == v[k] && b[k - start] == u[k] && b[k - start + len] == u[k + len];
    }
    forall k {:trigger v[k]} | start + len <= k < start + 2 * len
      ensures v[k] == u[k - len] + -t * u[k]
    {
      assert r[k - start] == v[k] && b[k - start] == u[k] && b[k - start - len] == u[k - len];
    }
  }

  /** One layer of mld_poly_ntt. */
  method DownLayer(w: array<Int32>, len: nat, m0: nat, ghost tw: nat -> int, ghost u: seq<int>, ghost v: seq<int>,
                   ghost bound: int, ghost c: nat)
    returns (m: nat)
    requires |u| == w.Length == Reps(c, 2 * len) && len > 0 && bound + Q < 0x8000_0000 && InTable(tw)
    requires m0 + c < 256 && SplitFrom(tw, u, v, 0, m0 + 1, len)
    requires forall k {:trigger w[k]} :: 0 <= k < w.Length ==> Lies(w[k], u[k], bound)
    modifies w
    ensures m == m0 + c
    ensures |v| == w.Length && forall k {:trigger w[k]} :: 0 <= k < w.Length ==> Lies(w[k], v[k], bound + Q)
  {
    m := m0;
    var start := 0;
    ghost var left := c;
    while start < w.Length
      invariant 0 <= start <= w.Length && w.Length - start == Reps(left, 2 * len) && m + left == m0 + c
      invariant SplitFrom(tw, u, v, start, m + 1, len)
      invariant forall k {:trigger w[k]} :: 0 <= k < start ==> Lies(w[k], v[k], bound + Q)
      invariant forall k {:trigger w[k]} :: start <= k < w.Length ==> Lies(w[k], u[k], bound)
    {
      m := m + 1;
      var zeta := ZetaAt(m, tw);
      DownBlock(w, start, len, zeta, tw(m), u, v, bound);
      start := start + 2 * len;
      left := left - 1;
    }
  }

  /** u has the layers above height h of p's transform done, and node index m comes next. */
  ghost predicate Descended(tw: nat -> int, p: seq<int>, u: seq<int>, H: nat, h: nat, m: nat) {
    && |p| == |u| == TwoTo(H) && h <= H && m == First(1, H - h, 1)
    && Finish(tw, u, 1, H, h) == Forward(tw, p, 1, H)
  }

  /** One layer further down. */
  lemma {:induction false} Descends(tw: nat -> int, p: seq<int>, u: seq<int>, v: seq<int>, H: nat, h: nat, m: nat,
                                    len: nat)
    requires Descended(tw, p, u, H, h, m) && h > 0 && len == TwoTo(h - 1) > 0
    requires v == Blockwise(Splits(tw), u, m, 2 * len, 1)
    ensures Reps(TwoTo(H - h), 2 * len) == |u| && SplitFrom(tw, u, v, 0, m, len)
    ensures Descended(tw, p, v, H, h - 1, m + TwoTo(H - h))
  {
    RepsTwoTo(H - h, h);
    assert u[0..] == u && v[0..] == v;
    LayerSplits(tw, u, v, 0, m, len, TwoTo(H - h));
    BlockwiseIsTreewise(Splits(tw), u, 1, H, h, 1, m, 2 * len);
    SplitFinishes(tw, u, 1, H, h);
    FirstRight(1, H - h, 1);
  }

  /** The nodes of a layer are entries of the table. */
  lemma {:induction false} NodesInTable(d: nat, m: int)
    requires d <= 7 && m == First(1, d, 1)
    ensures m + TwoTo(d) <= 256
  {
    FirstUp(1, d);
    assert TwoTo(7) == 128;
    TwoToMonotone(d, 7);
  }

  lemma {:induction false} FirstUp(k: int, d: nat)
    ensures First(k, d, 1) == k * TwoTo(d)
    decreases d
  {
    if d > 0 {
      FirstUp(2 * k, d - 1);
      assert (2 * k) * TwoTo(d - 1) == k * TwoTo(d);
    }
  }

  lemma {:induction false} TwoToMonotone(a: nat, b: nat)
    requires a <= b
    ensures TwoTo(a) <= TwoTo(b)
  {
    if a < b { TwoToMonotone(a, b - 1); }
  }

  /** One layer of the transform of p: from u to the returned v. */
  method DownStep(w: array<Int32>, len: nat, m0: nat, ghost tw: nat -> int, ghost p: seq<int>, ghost u: seq<int>,
                  ghost H: nat, ghost h: nat, ghost bound: int)
    returns (m: nat, ghost v: seq<int>)
    requires Descended(tw, p, u, H, h, m0 + 1) && 0 < h <= H <= 8 && len == TwoTo(h - 1) > 0
    requires |u| == w.Length && bound + Q < 0x8000_0000 && InTable(tw)
    requires forall k {:trigger w[k]} :: 0 <= k < w.Length ==> Lies(w[k], u[k], bound)
    modifies w
    ensures Descended(tw, p, v, H, h - 1, m + 1) && |v| == w.Length
    ensures forall k {:trigger w[k]} :: 0 <= k < w.Length ==> Lies(w[k], v[k], bound + Q)
  {
    v := Blockwise(Splits(tw), u, m0 + 1, 2 * len, 1);
    Descends(tw, p, u, v, H, h, m0 + 1, len);
    NodesInTable(H - h, m0 + 1);
    m := DownLayer(w, len, m0, tw, u, v, bound, TwoTo(H - h));
  }

  /** The eight layers of mld_poly_ntt. */
  method DownAll(w: array<Int32>, ghost tw: nat -> int, ghost p: seq<int>)
    requires w.Length == |p| == 256 == TwoTo(8) && InTable(tw)
    requires forall k {:trigger w[k]} :: 0 <= k < 256 ==> Lies(w[k], p[k], 6291200)
    modifies w
    ensures forall k {:trigger w[k]} :: 0 <= k < 256 ==> Lies(w[k], Forward(tw, p, 1, 8)[k], 6291200 + 8 * Q)
  {
    ghost var u: seq<int>, h: nat, bound := p, 8, 6291200;
    assert TwoTo(7) == 128;
    var m, len := 0, 128;
    while len >= 1
      invariant h <= 8 && len == if h == 0 then 0 else TwoTo(h - 1)
      invariant Descended(tw, p, u, 8, h, m + 1) && bound == 6291200 + (8 - h) * Q
      invariant forall k {:trigger w[k]} :: 0 <= k < 256 ==> Lies(w[k], u[k], bound)
    {
      m, u := DownStep(w, len, m, tw, p, u, 8, h, bound);
      len := len / 2;
      h, bound := h - 1, bound + Q;
    }
    FinishDone(tw, u, 1, 8);
  }

  /** mld_poly_ntt: from any coefficients, the transform modulo q, and no sum leaves int32_t. */
  method PolyNtt(w: array<Int32>)
    requires w.Length == 256
    modifies w
    ensures TwoTo(8) == 256
    ensures forall k {:trigger w[k]} ::
              0 <= k < 256 ==> Lies(w[k], Forward(Shipped(ZETA), old(w[..]), 1, 8)[k], 6291200 + 8 * Q)
  {
    ghost var p := w[..];
    ShippedInTable();
    ReduceAll(w);
    DownAll(w, Shipped(ZETA), p);
  }
}
