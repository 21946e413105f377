/** The inverse transform of src/mldsa_poly.c, and the products through both transforms. */
module InvNtt {
  import opened WideMul
  import opened Residues
  import opened Twiddles
  import opened Transform
  import opened Layers
  import opened Ntt

  /** One butterfly of mld_poly_invntt_tomont. */
  method PairUp(x: Int32, y: Int32, zeta: int, ghost t: int, ghost a: int, ghost b: int, ghost bound: int)
    returns (lo: Int32, hi: Int32)
    requires -(Q - 1) / 2 <= zeta <= (Q - 1) / 2 && Eq(zeta, t * R) && Eq(x, a) && Eq(y, b)
    requires -bound <= x <= bound && -bound <= y <= bound && Q <= 2 * bound < 0x8000_0000
    ensures Eq(lo, a + b) && Eq(hi, t * (a - b))
    ensures -(2 * bound) <= lo <= 2 * bound && -(2 * bound) <= hi <= 2 * bound
  {
    lo := x as int + y;
    var difference: Int32 := x as int - y;
    hi := MulZeta(zeta, difference);
    EqAdd(x, a, y, b);
    OutOfRadix(hi, zeta, t, difference, a - b);
  }

  /** v's block at start is u's two halves joined with t. */
  ghost predicate JoinPairs(u: seq<int>, v: seq<int>, start: nat, len: nat, t: int) {
    && |v| == |u| && start + 2 * len <= |u|
    && (forall k {:trigger v[k]} :: start <= k < start + len ==> v[k] == u[k] + u[k + len])
    && (forall k {:trigger v[k]} :: start + len <= k < start + 2 * len ==> v[k] == t * (u[k - len] - u[k]))
  }

  /** A block going up: the inner loop of mld_poly_invntt_tomont. */
  method UpBlock(w: array<Int32>, start: nat, len: nat, zeta: int, ghost t: int, ghost u: seq<int>, ghost v: seq<int>,
                 ghost bound: int)
    requires |u| == w.Length && JoinPairs(u, v, start, len, t) && Q <= 2 * bound < 0x8000_0000
    requires forall k {:trigger w[k]} :: start <= k < start + 2 * len ==> Lies(w[k], u[k], bound)
    requires -(Q - 1) / 2 <= zeta <= (Q - 1) / 2 && Eq(zeta, t * R)
    modifies w
    ensures forall k {:trigger w[k]} :: start <= k < start + 2 * len ==> Lies(w[k], v[k], 2 * bound)
    ensures forall k {:trigger w[k]} :: 0 <= k < start || start + 2 * len <= k < w.Length ==> w[k] == old(w[k])
  {
    for j := start to start + len
      invariant forall k {:trigger w[k]} :: start <= k < j || start + len <= k < j + len ==> Lies(w[k], v[k], 2 * bound)
      invariant forall k {:trigger w[k]} ::
                  0 <= k < start || j <= k < start + len || j + len <= k < w.Length ==> w[k] == old(w[k])
    {
      var x, y := PairUp(w[j], w[j + len], zeta, t, u[j], u[j + len], bound);
      w[j] := x;
      w[j + len] := y;
    }
  }

  /** From start on, v's blocks are u's after a layer going up, the first one at node m. */
  ghost predicate JoinFrom(tw: nat -> int, u: seq<int>, v: seq<int>, start: nat, m: int, len: nat)
    decreases |u| - start
  {
    && |v| == |u|
    && (start < |u| && len > 0 ==>
          && m >= 0
          && JoinPairs(u, v, start, len, -tw(m))
          && JoinFrom(tw, u, v, start + 2 * len, m - 1, len))
  }

  lemma {:induction false} BlockJoins(tw: nat -> int, m: nat, b: seq<int>, r: seq<int>, n: nat)
    requires |b| == 2 * n && r == JoinBlock(tw, m, b)
    ensures JoinPairs(b, r, 0, n, -tw(m))
  {
    assert b[..n] + b[n..] == b;
    forall k {:trigger r[k]} | 0 <= k < n
      ensures r[k] == b[k] + b[k + n]
    {
      JoinAt(b[..n], b[n..], -tw(m), k);
    }
    forall k {:trigger r[k]} | n <= k < 2 * n
      ensures r[k] == -tw(m) * (b[k - n] - b[k])
    {
      JoinAt(b[..n], b[n..], -tw(m), k - n);
    }
  }

  lemma {:induction false} JoinShift(u: seq<int>, v: seq<int>, start: nat, len: nat, t: int)
    requires |v| == |u| && start + 2 * len <= |u|
    requires JoinPairs(u[start..start + 2 * len], v[start..start + 2 * len], 0, len, t)
    ensures JoinPairs(u, v, start, len, t)
  {
    var b, r := u[start..start + 2 * len], v[start..start + 2 * len];
    forall k {:trigger v[k]} | start <= k < start + len
      ensures v[k] == u[k] + u[k + len]
    {
      assert r[k - start] == v[k] && b[k - start] == u[k] && b[k - start + len] == u[k + len];
    }
    forall k {:trigger v[k]} | start + len <= k < start + 2 * len
      ensures v[k] == t * (u[k - len] - u[k])
    {
      assert r[k - start] == v[k] && b[k - start] == u[k] && b[k - start - len] == u[k - len];
    }
  }

  lemma {:induction false} JoinsApplied(tw: nat -> int, m: nat, b: seq<int>)
    ensures Joins(tw)(m, b) == JoinBlock(tw, m, b)
  {}

  lemma {:induction false} HeadJoin(tw: nat -> int, u: seq<int>, v: seq<int>, start: nat, m: nat, len: nat)
    requires |v| == |u| && 0 < len && start + 2 * len <= |u|
    requires Rest(Joins(tw), u, v, start, m, 2 * len, -1)
    ensures JoinPairs(u, v, start, len, -tw(m))
    ensures Rest(Joins(tw), u, v, start + 2 * len, m - 1, 2 * len, -1)
  {
    HeadBlock(Joins(tw), u, v, start, m, 2 * len, -1);
    assert JoinPairs(u[start..start + 2 * len], v[start..start + 2 * len], 0, len, -tw(m)) by {
      JoinsApplied(tw, m, u[start..start + 2 * len]);
      BlockJoins(tw, m, u[start..start + 2 * len], v[start..start + 2 * len], len);
    }
    JoinShift(u, v, start, len, -tw(m));
  }

  lemma {:induction false} JoinMore(tw: nat -> int, u: seq<int>, v: seq<int>, start: nat, m: nat, len: nat)
    requires JoinPairs(u, v, start, len, -tw(m)) && JoinFrom(tw, u, v, start + 2 * len, m - 1, len)
    ensures JoinFrom(tw, u, v, start, m, len)
  {}

  lemma {:induction false} LayerJoins(tw: nat -> int, u: seq<int>, v: seq<int>, start: nat, m: int, len: nat, c: nat)
    requires |v| == |u| && len > 0 && start <= |u| && |u| - start == Reps(c, 2 * len) && c <= m + 1
    requires Rest(Joins(tw), u, v, start, m, 2 * len, -1)
    ensures JoinFrom(tw, u, v, start, m, len)
    decreases c
  {
    if c > 0 {
      HeadJoin(tw, u, v, start, m, len);
      LayerJoins(tw, u, v, start + 2 * len, m - 1, len, c - 1);
      JoinMore(tw, u, v, start, m, len);
    } else {
      assert start == |u|;
    }
  }

  lemma NegatedEntry(zeta: int, t: int)
    requires Eq(zeta, t * R)
    ensures Eq(-zeta, -t * R)
  {}

  /** The block of node m, under the table's entry with its sign changed. */
  method UpNode(w: array<Int32>, start: nat, len: nat, m: nat, ghost tw: nat -> int, ghost u: seq<int>,
                ghost v: seq<int>, ghost bound: int)
    requires InTable(tw) && 1 <= m < 256
    requires |u| == w.Length && JoinPairs(u, v, start, len, -tw(m)) && Q <= 2 * bound < 0x8000_0000
    requires forall k {:trigger w[k]} :: start <= k < start + 2 * len ==> Lies(w[k], u[k], bound)
    modifies w
    ensures forall k {:trigger w[k]} :: start <= k < start + 2 * len ==> Lies(w[k], v[k], 2 * bound)
    ensures forall k {:trigger w[k]} :: 0 <= k < start || start + 2 * len <= k < w.Length ==> w[k] == old(w[k])
  {
    var zeta := ZetaAt(m, tw);
    NegatedEntry(zeta, tw(m));
    UpBlock(w, start, len, -zeta, -tw(m), u, v, bound);
  }

  /** One layer of mld_poly_invntt_tomont. */
  method UpLayer(w: array<Int32>, len: nat, m0: nat, ghost tw: nat -> int, ghost u: seq<int>, ghost v: seq<int>,
                 ghost bound: int, ghost c: nat)
    returns (m: nat)
    requires |u| == w.Length == Reps(c, 2 * len) && len > 0 && Q <= 2 * bound < 0x8000_0000 && InTable(tw)
    requires c < m0 <= 256 && JoinFrom(tw, u, v, 0, m0 - 1, len)
    requires forall k {:trigger w[k]} :: 0 <= k < w.Length ==> Lies(w[k], u[k], bound)
    modifies w
    ensures m == m0 - c
    ensures |v| == w.Length && forall k {:trigger w[k]} :: 0 <= k < w.Length ==> Lies(w[k], v[k], 2 * bound)
  {
    m := m0;
    var start := 0;
    ghost var left := c;
    while start < w.Length
      invariant 0 <= start <= w.Length && w.Length - start == Reps(left, 2 * len) && m - left == m0 - c >= 0
      invariant JoinFrom(tw, u, v, start, m - 1, len)
      invariant forall k {:trigger w[k]} :: 0 <= k < start ==> Lies(w[k], v[k], 2 * bound)
      invariant forall k {:trigger w[k]} :: start <= k < w.Length ==> Lies(w[k], u[k], bound)
    {
      m := m - 1;
      UpNode(w, start, len, m, tw, u, v, bound);
      start := start + 2 * len;
      left := left - 1;
    }
  }

  /** u has the layers up to height h of p's inverse done, and m is one past the next node. */
  ghost predicate Ascended(tw: nat -> int, p: seq<int>, u: seq<int>, H: nat, h: nat, m: nat) {
    && |p| == |u| == TwoTo(H) && h <= H && (h < H ==> m == First(1, H - h - 1, -1) + 1)
    && Rise(tw, u, 1, H, h) == Backward(tw, p, 1, H)
  }

  lemma {:induction false} FirstDown(k: int, d: nat)
    ensures First(k, d, -1) + 1 == First(k + 1, d, 1)
    decreases d
  {
    if d > 0 { FirstDown(2 * k + 1, d - 1); }
  }

  /** A layer of the inverse walks nodes 2^(d+1) - 1 down to 2^d. */
  lemma {:induction false} NodesLeft(d: nat)
    ensures First(1, d, -1) + 1 == 2 * TwoTo(d) && TwoTo(d) > 0
    ensures d > 0 ==> First(1, d - 1, -1) + 1 == TwoTo(d)
  {
    FirstDown(1, d);
    FirstUp(2, d);
    TwoToMonotone(0, d);
    if d > 0 {
      FirstDown(1, d - 1);
      FirstUp(2, d - 1);
    }
  }

  /** One layer further up, through the tree. */
  lemma {:induction false} Rises(tw: nat -> int, u: seq<int>, v: seq<int>, H: nat, h: nat, m: int, len: nat)
    requires |u| == TwoTo(H) && h < H && len == TwoTo(h) > 0 && m == First(1, H - h - 1, -1)
    requires v == Blockwise(Joins(tw), u, m, 2 * len, -1)
    ensures |v| == |u| && Rise(tw, v, 1, H, h + 1) == Rise(tw, u, 1, H, h)
  {
    BlockwiseIsTreewise(Joins(tw), u, 1, H, h + 1, -1, m, 2 * len);
    JoinRises(tw, u, 1, H, h + 1);
  }

  /** The blocks of the layer. */
  lemma {:induction false} JoinsLayer(tw: nat -> int, u: seq<int>, v: seq<int>, d: nat, h: nat, m: int, len: nat)
    requires |u| == TwoTo(d + h + 1) && len == TwoTo(h) > 0 && m == First(1, d, -1)
    requires v == Blockwise(Joins(tw), u, m, 2 * len, -1)
    ensures Reps(TwoTo(d), 2 * len) == |u| && JoinFrom(tw, u, v, 0, m, len)
  {
    RepsTwoTo(d, h + 1);
    NodesLeft(d);
    assert u[0..] == u && v[0..] == v;
    LayerJoins(tw, u, v, 0, m, len, TwoTo(d));
  }

  /** One layer further up. */
  lemma {:induction false} Ascends(tw: nat -> int, p: seq<int>, u: seq<int>, v: seq<int>, H: nat, h: nat, m: nat,
                                   len: nat)
    requires Ascended(tw, p, u, H, h, m) && h < H && len == TwoTo(h) > 0 && m > 0
    requires v == Blockwise(Joins(tw), u, m - 1, 2 * len, -1)
    ensures Reps(TwoTo(H - h - 1), 2 * len) == |u| && m == 2 * TwoTo(H - h - 1) && JoinFrom(tw, u, v, 0, m - 1, len)
    ensures Ascended(tw, p, v, H, h + 1, m - TwoTo(H - h - 1))
  {
    Rises(tw, u, v, H, h, m - 1, len);
    JoinsLayer(tw, u, v, H - h - 1, h, m - 1, len);
    NodesLeft(H - h - 1);
  }

  /** One layer of the inverse of p: from u to the returned v. */
  method UpStep(w: array<Int32>, len: nat, m0: nat, ghost tw: nat -> int, ghost p: seq<int>, ghost u: seq<int>,
                ghost H: nat, ghost h: nat, ghost bound: int)
    returns (m: nat, ghost v: seq<int>)
    requires Ascended(tw, p, u, H, h, m0) && h < H <= 8 && len == TwoTo(h) > 0 && m0 > 0
    requires |u| == w.Length && Q <= 2 * bound < 0x8000_0000 && InTable(tw)
    requires forall k {:trigger w[k]} :: 0 <= k < w.Length ==> Lies(w[k], u[k], bound)
    modifies w
    ensures Ascended(tw, p, v, H, h + 1, m) && |v| == w.Length
    ensures forall k {:trigger w[k]} :: 0 <= k < w.Length ==> Lies(w[k], v[k], 2 * bound)
  {
    v := Blockwise(Joins(tw), u, m0 - 1, 2 * len, -1);
    Ascends(tw, p, u, v, H, h, m0, len);
    NodesLeft(H - h - 1);
    assert TwoTo(7) == 128;
    TwoToMonotone(H - h - 1, 7);
    m := UpLayer(w, len, m0, tw, u, v, bound, TwoTo(H - h - 1));
  }

  /** The eight layers of mld_poly_invntt_tomont: the bound doubles, and stays below 2^31. */
  method UpAll(w: array<Int32>, ghost tw: nat -> int, ghost p: seq<int>)
    requires w.Length == |p| == 256 == TwoTo(8) && InTable(tw)
    requires forall k {:trigger w[k]} :: 0 <= k < 256 ==> Lies(w[k], p[k], 6291200)
    modifies w
    ensures forall k {:trigger w[k]} :: 0 <= k < 256 ==> Lies(w[k], Backward(tw, p, 1, 8)[k], 256 * 6291200)
  {
    ghost var u: seq<int>, h: nat, bound := p, 0, 6291200;
    StartOfAscent(tw, p);
    var m, len := 256, 1;
    while len < 256
      invariant h <= 8 && len == TwoTo(h) && (h < 8 ==> 0 < m && len <= 128)
      invariant Ascended(tw, p, u, 8, h, m) && bound == len * 6291200
      invariant forall k {:trigger w[k]} :: 0 <= k < 256 ==> Lies(w[k], u[k], bound)
      decreases 8 - h
    {
      m, u := UpStep(w, len, m, tw, p, u, 8, h, bound);
      len := 2 * len;
      h, bound := h + 1, 2 * bound;
      StillAscending(h, m);
    }
  }

  lemma StartOfAscent(tw: nat -> int, p: seq<int>)
    requires |p| == 256 == TwoTo(8)
    ensures Ascended(tw, p, p, 8, 0, 256)
  {
    RiseFromLeaves(tw, p, 1, 8);
    FirstDown(1, 7);
  }

  lemma StillAscending(h: nat, m: int)
    requires h <= 8 && (h < 8 ==> m == First(1, 8 - h - 1, -1) + 1)
    ensures h < 8 ==> 0 < m && TwoTo(h) <= 128
    ensures h == 8 ==> TwoTo(h) == 256
  {}

  /** The last pass: 41978 is 2^64 / 256 modulo q. */
  lemma ScaledBack(r: int, x: int, b: int)
    requires Eq(r * R, 41978 * x) && Eq(x, b)
    ensures Eq(r * 256, b * R)
  {
    EqScale(x, b, 41978);
    EqTrans(r * R, 41978 * x, 41978 * b);
    EqScale(r * R, 41978 * b, 256);
    assert (r * R) * 256 == (r * 256) * R;
    assert Eq(41978 * 256, R * R);
    EqScale(41978 * 256, R * R, b);
    assert (41978 * b) * 256 == (41978 * 256) * b && (R * R) * b == (b * R) * R;
    EqTrans((r * 256) * R, (41978 * b) * 256, (b * R) * R);
    CancelRadix(r * 256, b * R);
  }

  /** x is 2^32 / 256 times b modulo q, and under q. */
  ghost predicate Undone(x: int, b: int) { Eq(x * 256, b * R) && -Q < x < Q }

  /** mld_poly_invntt_tomont: from any coefficients, 2^32 / 256 times the inverse's sums modulo q,
      and no sum leaves int32_t. */
  method PolyInvNtt(w: array<Int32>)
    requires w.Length == 256
    modifies w
    ensures TwoTo(8) == 256
    ensures forall k {:trigger w[k]} :: 0 <= k < 256 ==>
              Undone(w[k], Backward(Shipped(ZETA), old(w[..]), 1, 8)[k])
  {
    ghost var p, tw := w[..], Shipped(ZETA);
    ShippedInTable();
    ReduceAll(w);
    UpAll(w, tw, p);
    ScaleAll(w, Backward(tw, p, 1, 8));
  }

  method ScaleAll(w: array<Int32>, ghost b: seq<int>)
    requires |b| == w.Length && forall k {:trigger w[k]} :: 0 <= k < w.Length ==> Lies(w[k], b[k], 256 * 6291200)
    modifies w
    ensures forall k {:trigger w[k]} :: 0 <= k < w.Length ==> Undone(w[k], b[k])
  {
    for j := 0 to w.Length
      invariant forall k {:trigger w[k]} :: 0 <= k < j ==> Undone(w[k], b[k])
      invariant forall k {:trigger w[k]} :: j <= k < w.Length ==> w[k] == old(w[k])
    {
      var x := w[j];
      w[j] := MulZeta(41978, x);
      ScaledBack(w[j], x, b[j]);
    }
  }

  lemma Cancel256(x: int, y: int)
    requires Eq(x * 256, y * 256)
    ensures Eq(x, y)
  {}

  lemma UndoneBy(out: int, b: int, scale: int, p: int)
    requires Undone(out, b) && Eq(scale * b, 256 * p)
    ensures Eq(out * scale, p * R)
  {
    EqScale(out * 256, b * R, scale);
    EqScale(scale * b, 256 * p, R);
    assert (out * 256) * scale == (out * scale) * 256 && (b * R) * scale == (scale * b) * R
      && (256 * p) * R == (p * R) * 256;
    EqTrans((out * scale) * 256, (scale * b) * R, (p * R) * 256);
    Cancel256(out * scale, p * R);
  }

  /** The inverse of a multiple of p's transform: scale times the result is 2^32 p. */
  lemma {:induction false} Inverts(tw: nat -> int, p: seq<int>, f: seq<int>, out: seq<int>, scale: int, H: nat, k: nat)
    requires |p| == |f| == |out| == TwoTo(H) == 256 && k < 256 && Lawful(tw) && InTree(1, H)
    requires Scaled(scale, f, 1, Forward(tw, p, 1, H))
    requires Undone(out[k], Backward(tw, f, 1, H)[k])
    ensures Eq(out[k] * scale, p[k] * R)
  {
    OppositeRoot();
    Undoes(tw, p, f, 1, 1, H, scale);
    UndoneBy(out[k], Backward(tw, f, 1, H)[k], scale, p[k]);
  }

  /** mld_poly_pointwise. */
  method PolyPointwise(r: array<Int32>, a: array<Int32>, b: array<Int32>)
    requires r.Length == a.Length == b.Length
    modifies r
    ensures forall k {:trigger r[k]} :: 0 <= k < r.Length ==> IsProduct(r[k], old(a[k]), old(b[k]))
  {
    for i := 0 to r.Length
      invariant forall k {:trigger r[k]} :: 0 <= k < i ==> IsProduct(r[k], old(a[k]), old(b[k]))
      invariant forall k {:trigger r[k]} :: i <= k < r.Length ==> r[k] == old(r[k])
      invariant r != a ==> a[..] == old(a[..])
      invariant r != b ==> b[..] == old(b[..])
    {
      assert a[i] == old(a[i]) && b[i] == old(b[i]);
      r[i] := MulReduced(a[i], b[i]);
    }
  }

  /** r is a b 2^-32 modulo q, and under q. */
  ghost predicate IsProduct(r: int, a: int, b: int) { Eq(r * R, a * b) && -Q < r < Q }
}
