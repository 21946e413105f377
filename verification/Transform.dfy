/** The number theoretic transform of FIPS 204 section 7.5 over the integers: a tree of splits of
    X^256 + 1 into linear factors. It evaluates a polynomial at 256 roots, its inverse undoes it,
    and products at the roots are products modulo X^256 + 1. */
module Transform {
  import opened Arith
  import opened Residues
  import opened Twiddles

  /** The halves a, b of p combined as a + t b. */
  ghost function Fold(p: seq<int>, t: int): (r: seq<int>)
    ensures |r| == |p| / 2
  {
    seq(|p| / 2, i requires 0 <= i < |p| / 2 => p[i] + t * p[|p| / 2 + i])
  }

  /** What X^size reduces to at a node: -1 at the root, and plus or minus the parent's twiddle. */
  ghost function Modulus(tw: nat -> int, k: nat): int {
    if k < 2 then -1 else if k % 2 == 0 then tw(k / 2) else -tw(k / 2)
  }

  /** What the transforms need of the twiddles: a node's squares to its modulus, and those of
      opposite nodes are inverse up to the sign. */
  ghost predicate Lawful(tw: nat -> int) {
    && (forall k {:trigger Modulus(tw, k)} :: 1 <= k < 256 ==> Eq(tw(k) * tw(k), Modulus(tw, k)))
    && (forall k, o {:trigger Opposite(k, o)} :: Opposite(k, o) ==> Eq(tw(k) * tw(o), -1))
  }

  /** The transform of node k's polynomial: p modulo X^n - t and modulo X^n + t, and on. */
  ghost function Forward(tw: nat -> int, p: seq<int>, k: nat, h: nat): (r: seq<int>)
    requires |p| == TwoTo(h)
    ensures |r| == |p|
    decreases h, p
  {
    if h == 0 then p
    else Forward(tw, Fold(p, tw(k)), 2 * k, h - 1) + Forward(tw, Fold(p, -tw(k)), 2 * k + 1, h - 1)
  }

  ghost function Eval(p: seq<int>, x: int): int {
    if p == [] then 0 else p[0] + x * Eval(p[1..], x)
  }

  lemma {:induction false} EvalSplit(a: seq<int>, b: seq<int>, x: int)
    ensures Eval(a + b, x) == Eval(a, x) + Pow(x, |a|) * Eval(b, x)
  {
    if a == [] {
      assert a + b == b;
    } else {
      assert (a + b)[1..] == a[1..] + b;
      EvalSplit(a[1..], b, x);
      Horner(a[0], x, Eval(a[1..], x), Pow(x, |a| - 1), Eval(b, x));
    }
  }

  lemma {:induction false} Horner(a: int, x: int, e: int, w: int, f: int)
    ensures a + x * (e + w * f) == (a + x * e) + (x * w) * f
  {
    Distribute(x, e, w * f);
    MulAssoc(x, w, f);
  }

  lemma {:induction false} EvalLinear(a: seq<int>, b: seq<int>, c: seq<int>, t: int, x: int)
    requires |a| == |b| == |c|
    requires forall i :: 0 <= i < |a| ==> c[i] == a[i] + t * b[i]
    ensures Eval(c, x) == Eval(a, x) + t * Eval(b, x)
  {
    if a != [] {
      EvalLinear(a[1..], b[1..], c[1..], t, x);
      LinearStep(a[0], b[0], Eval(a[1..], x), Eval(b[1..], x), t, x);
    }
  }

  lemma {:induction false} LinearStep(a: int, b: int, e: int, f: int, t: int, x: int)
    ensures (a + t * b) + x * (e + t * f) == (a + x * e) + t * (b + x * f)
  {
    Distribute(x, e, t * f);
    Distribute(t, b, x * f);
    MulAssoc(x, t, f);
    MulAssoc(t, x, f);
  }

  /** At a root of X^n - t, a fold keeps the value. */
  lemma {:induction false} FoldKeepsValue(p: seq<int>, t: int, x: int)
    requires |p| % 2 == 0 && Eq(Pow(x, |p| / 2), t)
    ensures Eq(Eval(p, x), Eval(Fold(p, t), x))
  {
    var n := |p| / 2;
    assert p == p[..n] + p[n..];
    EvalSplit(p[..n], p[n..], x);
    EvalLinear(p[..n], p[n..], Fold(p, t), t, x);
    EqScale(Pow(x, n), t, Eval(p[n..], x));
    EqSelf(Eval(p[..n], x));
    EqAdd(Eval(p[..n], x), Eval(p[..n], x), Pow(x, n) * Eval(p[n..], x), t * Eval(p[n..], x));
  }

  lemma {:induction false} ValueThroughFold(p: seq<int>, t: int, x: int, v: int)
    requires |p| % 2 == 0 && Eq(Pow(x, |p| / 2), t) && Eq(Eval(Fold(p, t), x), v)
    ensures Eq(Eval(p, x), v)
  {
    FoldKeepsValue(p, t, x);
    EqTrans(Eval(p, x), Eval(Fold(p, t), x), v);
  }

  /** The index of the first leaf under a node. */
  ghost function Leaf(k: nat, h: nat): nat
    decreases h, k
  {
    if h == 0 then k else Leaf(2 * k, h - 1)
  }

  lemma {:induction false} LeafRight(k: nat, h: nat)
    ensures Leaf(k + 1, h) == Leaf(k, h) + TwoTo(h)
    decreases h
  {
    if h > 0 {
      LeafRight(2 * k, h - 1);
      LeafRight(2 * k + 1, h - 1);
    }
  }

  lemma {:induction false} LeafAtLeast(k: nat, h: nat)
    ensures Leaf(k, h) >= k
    decreases h
  {
    if h > 0 { LeafAtLeast(2 * k, h - 1); }
  }

  /** Node k of height h sits in the tree over the leaves 256 to 511. */
  ghost predicate InTree(k: nat, h: nat) { k >= 1 && Leaf(k + 1, h) <= 512 }

  lemma {:induction false} ChildrenInTree(k: nat, h: nat)
    requires InTree(k, h) && h > 0
    ensures InTree(2 * k, h - 1) && InTree(2 * k + 1, h - 1) && k < 256
  {
    assert Leaf(k + 1, h) == Leaf(2 * k + 2, h - 1);
    LeafRight(2 * k + 1, h - 1);
    LeafAtLeast(2 * k + 2, h - 1);
  }

  /** The point at which leaf i under node k evaluates. */
  ghost function Point(tw: nat -> int, k: nat, h: nat, i: nat): int
    requires i < TwoTo(h)
    decreases h, i
  {
    if h == 0 then Modulus(tw, k)
    else if i < TwoTo(h - 1) then Point(tw, 2 * k, h - 1, i)
    else Point(tw, 2 * k + 1, h - 1, i - TwoTo(h - 1))
  }

  lemma {:induction false} ChildModulus(tw: nat -> int, k: nat)
    requires k >= 1
    ensures Modulus(tw, 2 * k) == tw(k) && Modulus(tw, 2 * k + 1) == -tw(k)
  {
    assert (2 * k + 1) / 2 == k && (2 * k) / 2 == k;
  }

  /** Every leaf's point under a node is a root of X^size - modulus. */
  lemma {:induction false} PointPower(tw: nat -> int, k: nat, h: nat, i: nat)
    requires Lawful(tw) && i < TwoTo(h) && InTree(k, h)
    ensures Eq(Pow(Point(tw, k, h, i), TwoTo(h)), Modulus(tw, k))
    decreases h
  {
    var x := Point(tw, k, h, i);
    if h == 0 {
      assert Pow(x, 1) == x * Pow(x, 0) == x;
      EqSelf(x);
    } else {
      ChildrenInTree(k, h);
      if i < TwoTo(h - 1) {
        PointPower(tw, 2 * k, h - 1, i);
      } else {
        PointPower(tw, 2 * k + 1, h - 1, i - TwoTo(h - 1));
      }
      ChildModulus(tw, k);
      assert Eq(tw(k) * tw(k), Modulus(tw, k));
      DoublePower(x, TwoTo(h - 1), tw(k), Modulus(tw, k));
    }
  }

  lemma {:induction false} DoublePower(x: int, n: nat, t: int, m: int)
    requires (Eq(Pow(x, n), t) || Eq(Pow(x, n), -t)) && Eq(t * t, m)
    ensures Eq(Pow(x, 2 * n), m)
  {
    PowAdd(x, n, n);
    var s := if Eq(Pow(x, n), t) then t else -t;
    EqMul(Pow(x, n), s, Pow(x, n), s);
    assert s * s == t * t;
    EqTrans(Pow(x, 2 * n), t * t, m);
  }

  lemma {:induction false} ForwardAt(tw: nat -> int, p: seq<int>, k: nat, h: nat, i: nat)
    requires |p| == TwoTo(h) && h > 0 && i < TwoTo(h)
    ensures Forward(tw, p, k, h)[i] == if i < TwoTo(h - 1)
                                      then Forward(tw, Fold(p, tw(k)), 2 * k, h - 1)[i]
                                      else Forward(tw, Fold(p, -tw(k)), 2 * k + 1, h - 1)[i - TwoTo(h - 1)]
  {}

  /** Each output of the transform is the polynomial's value at that leaf's point. */
  lemma {:induction false} Evaluates(tw: nat -> int, p: seq<int>, k: nat, h: nat, i: nat, v: int)
    requires Lawful(tw) && |p| == TwoTo(h) && InTree(k, h) && i < TwoTo(h) && v == Forward(tw, p, k, h)[i]
    ensures Eq(Eval(p, Point(tw, k, h, i)), v)
    decreases h
  {
    var x, t := Point(tw, k, h, i), tw(k);
    if h == 0 {
      assert Eval(p, x) == p[0] + x * Eval(p[1..], x) == p[0];
      EqSelf(p[0]);
    } else {
      ChildrenInTree(k, h);
      ChildModulus(tw, k);
      ForwardAt(tw, p, k, h, i);
      var n := TwoTo(h - 1);
      if i < n {
        PointPower(tw, 2 * k, h - 1, i);
        Evaluates(tw, Fold(p, t), 2 * k, h - 1, i, v);
        ValueThroughFold(p, t, x, v);
      } else {
        PointPower(tw, 2 * k + 1, h - 1, i - n);
        Evaluates(tw, Fold(p, -t), 2 * k + 1, h - 1, i - n, v);
        ValueThroughFold(p, -t, x, v);
      }
    }
  }

  lemma {:induction false} PointLeaf(tw: nat -> int, k: nat, h: nat, i: nat)
    requires i < TwoTo(h)
    ensures Point(tw, k, h, i) == Modulus(tw, Leaf(k, h) + i)
    decreases h
  {
    if h > 0 {
      var n := TwoTo(h - 1);
      if i < n {
        PointLeaf(tw, 2 * k, h - 1, i);
      } else {
        PointLeaf(tw, 2 * k + 1, h - 1, i - n);
        LeafRight(2 * k, h - 1);
        assert Leaf(2 * k + 1, h - 1) + (i - n) == Leaf(k, h) + i;
      }
    }
  }

  /** One step up: the sums, and the differences times y. */
  ghost function Join(a: seq<int>, b: seq<int>, y: int): (r: seq<int>)
    requires |a| == |b|
    ensures |r| == |a| + |b|
  {
    seq(|a|, i requires 0 <= i < |a| => a[i] + b[i]) + seq(|a|, i requires 0 <= i < |a| => y * (a[i] - b[i]))
  }

  /** The inverse: the tree mirrored, so the left child carries the odd index. */
  ghost function Backward(tw: nat -> int, u: seq<int>, o: nat, h: nat): (r: seq<int>)
    requires |u| == TwoTo(h)
    ensures |r| == |u|
    decreases h, u
  {
    if h == 0 then u
    else
      var n := TwoTo(h - 1);
      Join(Backward(tw, u[..n], 2 * o + 1, h - 1), Backward(tw, u[n..], 2 * o, h - 1), -tw(o))
  }

  /** b u and g v agree modulo q, coefficient by coefficient. */
  ghost predicate Scaled(b: int, u: seq<int>, g: int, v: seq<int>) {
    |u| == |v| && forall i :: 0 <= i < |u| ==> Eq(b * u[i], g * v[i])
  }

  /** One coefficient pair of the undoing. */
  lemma {:induction false} UndoPair(b: int, u: int, v: int, g: int, x: int, y: int, t: int, s: int)
    requires Eq(b * u, g * (x + t * y)) && Eq(b * v, g * (x + -t * y)) && Eq(t * s, -1)
    ensures Eq(b * (u + v), (2 * g) * x) && Eq(b * (-s * (u - v)), (2 * g) * y)
  {
    EqAdd(b * u, g * (x + t * y), b * v, g * (x + -t * y));
    assert b * (u + v) == b * u + b * v && b * (u - v) == b * u - b * v;
    assert g * (x + t * y) + g * (x + -t * y) == (2 * g) * x by { Distribute(g, x + t * y, x + -t * y); }
    var w := g * (x + t * y) - g * (x + -t * y);
    assert w == (2 * g) * (t * y) by { Distribute(g, x + t * y, -(x + -t * y)); }
    EqScale(b * (u - v), w, -s);
    assert -s * (b * (u - v)) == b * (-s * (u - v)) by { Swap(-s, b, u - v); }
    TurnBack(2 * g, t, s, y);
    EqTrans(b * (-s * (u - v)), -s * w, (2 * g) * y);
  }

  lemma {:induction false} Swap(x: int, y: int, z: int)
    ensures x * (y * z) == y * (x * z)
  {
    MulAssoc(x, y, z);
    MulAssoc(y, x, z);
  }

  lemma {:induction false} TurnBack(g: int, t: int, s: int, y: int)
    requires Eq(t * s, -1)
    ensures Eq(-s * (g * (t * y)), g * y)
  {
    EqScale(t * s, -1, -(g * y));
    assert (t * s) * -(g * y) == -s * (g * (t * y)) by {
      Swap(g, t, y);
      MulAssoc(-s, t, g * y);
    }
  }

  lemma {:induction false} OppositeBelow(k: nat, o: nat, h: nat)
    requires InTree(k, h) && InTree(o, h) && h > 0 && Opposite(k, o)
    ensures InTree(2 * k, h - 1) && InTree(2 * k + 1, h - 1) && InTree(2 * o, h - 1) && InTree(2 * o + 1, h - 1)
    ensures h > 1 ==> Opposite(2 * k, 2 * o + 1) && Opposite(2 * k + 1, 2 * o)
  {
    ChildrenInTree(k, h);
    ChildrenInTree(o, h);
    if h > 1 {
      ChildrenInTree(2 * k, h - 1);
      ChildrenInTree(2 * o, h - 1);
      OppositeChildren(k, o);
    }
  }

  lemma {:induction false} ScaledSplit(b: int, u: seq<int>, v: seq<int>, w: seq<int>)
    requires Scaled(b, u, 1, v + w)
    ensures Scaled(b, u[..|v|], 1, v) && Scaled(b, u[|v|..], 1, w)
  {
    forall i | 0 <= i < |w|
      ensures Eq(b * u[|v|..][i], 1 * w[i])
    {
      assert (v + w)[|v| + i] == w[i];
    }
  }

  /** The inverse undoes the transform up to the factor of its doublings: if b u is the transform of
      p, then b times the inverse of u is 2^h p. */
  lemma {:induction false} Undoes(tw: nat -> int, p: seq<int>, u: seq<int>, k: nat, o: nat, h: nat, b: int)
    requires Lawful(tw) && |p| == |u| == TwoTo(h) && InTree(k, h) && InTree(o, h) && (h > 0 ==> Opposite(k, o))
    requires Scaled(b, u, 1, Forward(tw, p, k, h))
    ensures Scaled(b, Backward(tw, u, o, h), TwoTo(h), p)
    decreases h
  {
    if h > 0 {
      var n, t, s := TwoTo(h - 1), tw(k), tw(o);
      OppositeBelow(k, o, h);
      ScaledSplit(b, u, Forward(tw, Fold(p, t), 2 * k, h - 1), Forward(tw, Fold(p, -t), 2 * k + 1, h - 1));
      Undoes(tw, Fold(p, t), u[..n], 2 * k, 2 * o + 1, h - 1, b);
      Undoes(tw, Fold(p, -t), u[n..], 2 * k + 1, 2 * o, h - 1, b);
      assert Opposite(k, o);
      UndoesJoin(b, Backward(tw, u[..n], 2 * o + 1, h - 1), Backward(tw, u[n..], 2 * o, h - 1), n, p, t, s);
    }
  }

  lemma {:induction false} JoinAt(u: seq<int>, v: seq<int>, y: int, j: nat)
    requires |u| == |v| && j < |u|
    ensures Join(u, v, y)[j] == u[j] + v[j] && Join(u, v, y)[|u| + j] == y * (u[j] - v[j])
  {}

  lemma {:induction false} FoldAt(p: seq<int>, t: int, j: nat)
    requires j < |p| / 2
    ensures Fold(p, t)[j] == p[j] + t * p[|p| / 2 + j]
  {}

  lemma {:induction false} UndoesAt(b: int, u: seq<int>, v: seq<int>, g: nat, p: seq<int>, t: int, s: int, j: nat)
    requires |p| == 2 * g && Eq(t * s, -1) && j < g
    requires Scaled(b, u, g, Fold(p, t)) && Scaled(b, v, g, Fold(p, -t))
    ensures Eq(b * Join(u, v, -s)[j], (2 * g) * p[j]) && Eq(b * Join(u, v, -s)[g + j], (2 * g) * p[g + j])
  {
    FoldAt(p, t, j);
    FoldAt(p, -t, j);
    JoinAt(u, v, -s, j);
    UndoPair(b, u[j], v[j], g, p[j], p[g + j], t, s);
  }

  lemma {:induction false} UndoesJoin(b: int, u: seq<int>, v: seq<int>, g: nat, p: seq<int>, t: int, s: int)
    requires |p| == 2 * g && Eq(t * s, -1)
    requires Scaled(b, u, g, Fold(p, t)) && Scaled(b, v, g, Fold(p, -t))
    ensures Scaled(b, Join(u, v, -s), 2 * g, p)
  {
    forall i | 0 <= i < |p|
      ensures Eq(b * Join(u, v, -s)[i], (2 * g) * p[i])
    {
      UndoesAt(b, u, v, g, p, t, s, if i < g then i else i - g);
    }
  }

  /** X times p, modulo X^n + 1. */
  ghost function TimesX(p: seq<int>): (r: seq<int>)
    requires p != []
    ensures |r| == |p|
  {
    [-p[|p| - 1]] + p[..|p| - 1]
  }

  /** The product of a and b modulo X^n + 1, by Horner's rule. */
  ghost function Product(a: seq<int>, b: seq<int>): (r: seq<int>)
    requires b != []
    ensures |r| == |b|
  {
    if a == [] then seq(|b|, i => 0)
    else
      var rest := TimesX(Product(a[1..], b));
      seq(|b|, i requires 0 <= i < |b| => rest[i] + a[0] * b[i])
  }

  /** b's coefficient j, continued below 0 with the sign of X^n = -1. */
  ghost function Wrapped(b: seq<int>, j: int): int {
    if 0 <= j < |b| then b[j] else if -|b| <= j < 0 then -b[j + |b|] else 0
  }

  /** The coefficient sum of a negacyclic convolution. */
  ghost function Convolved(a: seq<int>, b: seq<int>, k: int): int {
    if a == [] then 0 else Convolved(a[1..], b, k - 1) + a[0] * Wrapped(b, k)
  }

  lemma {:induction false} WrapsAround(a: seq<int>, b: seq<int>, k: int)
    requires |a| <= k + 1 <= |b|
    ensures Convolved(a, b, k - |b|) == -Convolved(a, b, k)
  {
    if a != [] {
      WrapsAround(a[1..], b, k - 1);
      assert Wrapped(b, k - |b|) == -Wrapped(b, k);
      assert a[0] * -Wrapped(b, k) == -(a[0] * Wrapped(b, k));
    }
  }

  lemma {:induction false} ProductAt(a: seq<int>, b: seq<int>, k: nat)
    requires a != [] && k < |b|
    ensures Product(a, b)[k] == Before(Product(a[1..], b), k) + a[0] * b[k]
  {
    assert TimesX(Product(a[1..], b))[k] == Before(Product(a[1..], b), k);
  }

  /** The coefficient that a multiplication by X brings to k. */
  ghost function Before(p: seq<int>, k: nat): int
    requires k < |p|
  {
    if k == 0 then -p[|p| - 1] else p[k - 1]
  }

  lemma {:induction false} ConvolvedAt(a: seq<int>, b: seq<int>, k: nat)
    requires a != [] && |a| <= |b| && k < |b|
    ensures Convolved(a, b, k)
         == (if k == 0 then -Convolved(a[1..], b, |b| - 1) else Convolved(a[1..], b, k - 1)) + a[0] * b[k]
  {
    if k == 0 { WrapsAround(a[1..], b, |b| - 1); }
  }

  /** Horner's rule gives the convolution sums. */
  lemma {:induction false} ProductIsConvolution(a: seq<int>, b: seq<int>, p: seq<int>, k: nat)
    requires |a| <= |b| && k < |b| && p == Product(a, b)
    ensures p[k] == Convolved(a, b, k)
  {
    if a == [] {
    } else {
      ProductIsConvolution(a[1..], b, Product(a[1..], b), if k == 0 then |b| - 1 else k - 1);
      ProductAt(a, b, k);
      ConvolvedAt(a, b, k);
    }
  }

  lemma {:induction false} ValueOfTimesX(p: seq<int>, x: int)
    requires p != [] && Eq(Pow(x, |p|), -1)
    ensures Eq(Eval(TimesX(p), x), x * Eval(p, x))
  {
    var n, last := |p| - 1, p[|p| - 1];
    assert p == p[..n] + [last];
    EvalSplit(p[..n], [last], x);
    assert Eval([last], x) == last by { assert [last][1..] == []; assert x * Eval([], x) == 0; }
    assert TimesX(p)[1..] == p[..n];
    Wraparound(Eval(p[..n], x), x, Pow(x, n), last);
  }

  lemma {:induction false} Wraparound(e: int, x: int, w: int, last: int)
    requires Eq(x * w, -1)
    ensures Eq(-last + x * e, x * (e + w * last))
  {
    Distribute(x, e, w * last);
    MulAssoc(x, w, last);
    EqScale(x * w, -1, last);
    EqSelf(x * e);
    EqAdd(x * e, x * e, (x * w) * last, -last);
    EqSym(x * (e + w * last), -last + x * e);
  }

  /** At a root of X^n + 1 the product's value is the product of the values. */
  lemma {:induction false} ValueOfProduct(a: seq<int>, b: seq<int>, x: int)
    requires b != [] && Eq(Pow(x, |b|), -1)
    ensures Eq(Eval(Product(a, b), x), Eval(a, x) * Eval(b, x))
  {
    if a == [] {
      ValueOfZeros(Product(a, b), x);
      EqSelf(0);
    } else {
      var tail := Product(a[1..], b);
      var e, f := Eval(a[1..], x), Eval(b, x);
      ValueOfProduct(a[1..], b, x);
      ValueOfTimesX(tail, x);
      EvalLinear(TimesX(tail), b, Product(a, b), a[0], x);
      EqScale(Eval(tail, x), e * f, x);
      EqTrans(Eval(TimesX(tail), x), x * Eval(tail, x), x * (e * f));
      EqSelf(a[0] * f);
      EqAdd(Eval(TimesX(tail), x), x * (e * f), a[0] * f, a[0] * f);
      ProductStep(a[0], x, e, f);
    }
  }

  lemma {:induction false} ProductStep(a: int, x: int, e: int, f: int)
    ensures x * (e * f) + a * f == (a + x * e) * f
  {
    MulAssoc(x, e, f);
    Distribute(f, a, x * e);
  }

  lemma {:induction false} ValueOfZeros(p: seq<int>, x: int)
    requires forall i :: 0 <= i < |p| ==> p[i] == 0
    ensures Eval(p, x) == 0
  {
    if p != [] { ValueOfZeros(p[1..], x); }
  }

  /** The transform of a product is the product of the transforms, point by point. */
  lemma {:induction false} TransformOfProduct(tw: nat -> int, a: seq<int>, b: seq<int>, k: nat, h: nat, i: nat)
    requires Lawful(tw) && |a| == |b| == TwoTo(h) && InTree(k, h) && k < 2 && i < |a|
    ensures Eq(Forward(tw, Product(a, b), k, h)[i], Forward(tw, a, k, h)[i] * Forward(tw, b, k, h)[i])
  {
    var x, c := Point(tw, k, h, i), Product(a, b);
    var fa, fb, fc := Forward(tw, a, k, h)[i], Forward(tw, b, k, h)[i], Forward(tw, c, k, h)[i];
    PointPower(tw, k, h, i);
    Evaluates(tw, a, k, h, i, fa);
    Evaluates(tw, b, k, h, i, fb);
    Evaluates(tw, c, k, h, i, fc);
    ValueOfProduct(a, b, x);
    EqMul(Eval(a, x), fa, Eval(b, x), fb);
    EqSym(Eval(c, x), fc);
    EqTrans(fc, Eval(c, x), Eval(a, x) * Eval(b, x));
    EqTrans(fc, Eval(a, x) * Eval(b, x), fa * fb);
  }

  /** The twiddles of mldsa_zetas.h, out of the Montgomery domain. */
  ghost function Shipped(z: Root): nat -> int { (k: nat) => Twiddle(z, k) }

  lemma {:induction false} ShippedSquares(z: Root, j: nat, c: nat)
    requires 1 <= j < 128 && (c == 2 * j || c == 2 * j + 1)
    ensures Eq(Twiddle(z, c) * Twiddle(z, c), Modulus(Shipped(z), c))
  {
    ChildModulus(Shipped(z), j);
    ChildSquares(z, j);
  }

  lemma {:induction false} ChildSquares(z: Root, j: nat)
    requires j < 128
    ensures Eq(Twiddle(z, 2 * j) * Twiddle(z, 2 * j), Twiddle(z, j))
    ensures Eq(Twiddle(z, 2 * j + 1) * Twiddle(z, 2 * j + 1), -Twiddle(z, j))
  {
    ChildExponents(j);
    LeftSquared(z, j, 2 * j);
    RightSquared(z, j, 2 * j + 1);
  }

  lemma {:induction false} ShippedLawful(z: Root)
    ensures Lawful(Shipped(z))
  {
    var tw := Shipped(z);
    forall k {:trigger Modulus(tw, k)} | 1 <= k < 256
      ensures Eq(tw(k) * tw(k), Modulus(tw, k))
    {
      if k == 1 { RootSquared(z, k); } else { ShippedSquares(z, k / 2, k); }
    }
    forall k, o {:trigger Opposite(k, o)} | Opposite(k, o)
      ensures Eq(tw(k) * tw(o), -1)
    {
      OppositeTwiddles(z, k, o);
    }
  }
}
