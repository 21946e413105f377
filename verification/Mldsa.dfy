/** What ML-DSA takes from its transforms: values at the roots, a round trip, and products modulo
    X^256 + 1. */
module Mldsa {
  import opened Arith
  import opened WideMul
  import opened Residues
  import opened Twiddles
  import opened Transform
  import opened Ntt
  import opened InvNtt

  /** The tree over 256 leaves. */
  lemma {:induction false} WholeTree(H: nat)
    requires H == 8
    ensures TwoTo(H) == 256 && InTree(1, H) && Leaf(1, H) == 256
  {}

  lemma {:induction false} SameValue(p: seq<int>, x: int, y: int)
    requires Eq(x, y)
    ensures Eq(Eval(p, x), Eval(p, y))
  {
    if p == [] {
      EqSelf(0);
    } else {
      SameValue(p[1..], x, y);
      EqMul(x, y, Eval(p[1..], x), Eval(p[1..], y));
      EqSelf(p[0]);
      EqAdd(p[0], p[0], x * Eval(p[1..], x), y * Eval(p[1..], y));
    }
  }

  /** Leaf i's point is zeta^(2 brv(i) + 1). */
  lemma {:induction false} PointIsRoot(z: Root, H: nat, i: nat, j: nat)
    requires H == 8 && i < 256 == TwoTo(H) && (i == 2 * j || i == 2 * j + 1)
    ensures Eq(Point(Shipped(z), 1, H, i), Pow(z, 2 * Rev(i, 8) + 1))
  {
    WholeTree(H);
    PointLeaf(Shipped(z), 1, H, i);
    ChildModulus(Shipped(z), 128 + j);
    if i == 2 * j { EvenRoot(z, j); } else { OddRoot(z, j); }
  }

  /** FIPS 204 section 7.5: output i of the transform is the value at zeta^(2 brv(i) + 1). */
  lemma {:induction false} ForwardValue(z: Root, p: seq<int>, H: nat, i: nat)
    requires H == 8 && |p| == 256 == TwoTo(H) && i < 256
    ensures Eq(Forward(Shipped(z), p, 1, H)[i], Eval(p, Pow(z, 2 * Rev(i, 8) + 1)))
  {
    var tw, x := Shipped(z), Pow(z, 2 * Rev(i, 8) + 1);
    var y, v := Point(tw, 1, H, i), Forward(tw, p, 1, H)[i];
    WholeTree(H);
    ShippedLawful(z);
    Evaluates(tw, p, 1, H, i, v);
    EqSym(Eval(p, y), v);
    PointIsRoot(z, H, i, i / 2);
    SameValue(p, y, x);
    EqTrans(v, Eval(p, y), Eval(p, x));
  }

  /** The transforms undo each other up to the factor 2^32. */
  method RoundTrip(w: array<Int32>)
    requires w.Length == 256
    modifies w
    ensures forall k {:trigger w[k]} :: 0 <= k < 256 ==> Eq(w[k], old(w[k]) * R)
  {
    ghost var p, tw := w[..], Shipped(ZETA);
    PolyNtt(w);
    ghost var f := w[..];
    PolyInvNtt(w);
    ShippedLawful(ZETA);
    RoundTripped(tw, p, f, w[..], 8);
  }

  lemma {:induction false} RoundTripped(tw: nat -> int, p: seq<int>, f: seq<int>, out: seq<int>, H: nat)
    requires H == 8 && |p| == |f| == |out| == 256 == TwoTo(H) && Lawful(tw)
    requires forall k {:trigger f[k]} :: 0 <= k < 256 ==> Eq(f[k], Forward(tw, p, 1, H)[k])
    requires forall k {:trigger out[k]} :: 0 <= k < 256 ==> Undone(out[k], Backward(tw, f, 1, H)[k])
    ensures forall k {:trigger out[k]} :: 0 <= k < 256 ==> Eq(out[k], p[k] * R)
  {
    WholeTree(H);
    forall k {:trigger out[k]} | 0 <= k < 256
      ensures Eq(out[k], p[k] * R)
    {
      Inverts(tw, p, f, out, 1, H, k);
    }
  }

  /** Both transforms, the product at the points and the inverse: the product modulo X^256 + 1. */
  method Multiply(r: array<Int32>, a: array<Int32>, b: array<Int32>)
    requires r.Length == a.Length == b.Length == 256 && r != a && r != b && a != b
    modifies r, a, b
    ensures forall k {:trigger r[k]} :: 0 <= k < 256 ==> Eq(r[k], Product(old(a[..]), old(b[..]))[k])
  {
    ghost var p, q, tw := a[..], b[..], Shipped(ZETA);
    PolyNtt(a);
    PolyNtt(b);
    ghost var fa, fb := a[..], b[..];
    PolyPointwise(r, a, b);
    ghost var v := r[..];
    PolyInvNtt(r);
    ShippedLawful(ZETA);
    Multiplied(tw, p, q, fa, fb, v, r[..], 8);
  }

  /** One point of the product, out of the Montgomery domain. */
  lemma PointProduct(v: int, fa: int, fb: int, ta: int, tb: int, tc: int)
    requires Eq(v * R, fa * fb) && Eq(fa, ta) && Eq(fb, tb) && Eq(tc, ta * tb)
    ensures Eq(R * v, 1 * tc)
  {
    EqMul(fa, ta, fb, tb);
    EqTrans(v * R, fa * fb, ta * tb);
    EqSym(tc, ta * tb);
    EqTrans(v * R, ta * tb, tc);
  }

  lemma {:induction false} Multiplied(tw: nat -> int, a: seq<int>, b: seq<int>, fa: seq<int>, fb: seq<int>, v: seq<int>,
                                      out: seq<int>, H: nat)
    requires H == 8 && |a| == |b| == |fa| == |fb| == |v| == |out| == 256 == TwoTo(H) && Lawful(tw)
    requires forall k {:trigger fa[k]} :: 0 <= k < 256 ==> Eq(fa[k], Forward(tw, a, 1, H)[k])
    requires forall k {:trigger fb[k]} :: 0 <= k < 256 ==> Eq(fb[k], Forward(tw, b, 1, H)[k])
    requires forall k {:trigger v[k]} :: 0 <= k < 256 ==> Eq(v[k] * R, fa[k] * fb[k])
    requires forall k {:trigger out[k]} :: 0 <= k < 256 ==> Undone(out[k], Backward(tw, v, 1, H)[k])
    ensures forall k {:trigger out[k]} :: 0 <= k < 256 ==> Eq(out[k], Product(a, b)[k])
  {
    var c := Product(a, b);
    WholeTree(H);
    forall k {:trigger v[k]} | 0 <= k < 256
      ensures Eq(R * v[k], 1 * Forward(tw, c, 1, H)[k])
    {
      TransformOfProduct(tw, a, b, 1, H, k);
      PointProduct(v[k], fa[k], fb[k], Forward(tw, a, 1, H)[k], Forward(tw, b, 1, H)[k], Forward(tw, c, 1, H)[k]);
    }
    forall k {:trigger out[k]} | 0 <= k < 256
      ensures Eq(out[k], c[k])
    {
      Inverts(tw, c, v, out, R, H, k);
      CancelRadix(out[k], c[k]);
    }
  }
}
