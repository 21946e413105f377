/** Arithmetic modulo ML-DSA's q: the reductions of src/mldsa_poly.h on 32-bit coefficients. */
module Residues {
  import opened Arith
  import opened Words
  import opened WideMul

  const Q: int := 8380417
  /** q^-1 modulo 2^32. */
  const QINV: int := 58728449
  /** The Montgomery radix 2^32, and its inverse modulo q. */
  const R: int := 0x1_0000_0000
  const RINV: int := 8265825

  /** Equal modulo q. */
  ghost predicate Eq(x: int, y: int) { Cong(x, y, Q) }

  lemma EqSelf(x: int)
    ensures Eq(x, x)
  {
    CongIntro(x, x, 0, Q);
  }

  lemma EqTrans(x: int, y: int, z: int)
    requires Eq(x, y) && Eq(y, z)
    ensures Eq(x, z)
  {
    CongTrans(x, y, z, Q);
  }

  lemma EqSym(x: int, y: int)
    requires Eq(x, y)
    ensures Eq(y, x)
  {
    CongSym(x, y, Q);
  }

  lemma EqAdd(x: int, x': int, y: int, y': int)
    requires Eq(x, x') && Eq(y, y')
    ensures Eq(x + y, x' + y') && Eq(x - y, x' - y')
  {
    CongAdd(x, x', y, y', Q);
  }

  lemma EqMul(x: int, x': int, y: int, y': int)
    requires Eq(x, x') && Eq(y, y')
    ensures Eq(x * y, x' * y')
  {
    CongMul(x, x', y, y', Q);
  }

  lemma EqScale(x: int, y: int, k: int)
    requires Eq(x, y)
    ensures Eq(x * k, y * k) && Eq(k * x, k * y)
  {
    EqSelf(k);
    EqMul(x, y, k, k);
  }

  /** A unit modulo q cancels. */
  lemma Cancel(x: int, y: int, unit: int, inverse: int)
    requires Eq(x * unit, y * unit) && Eq(unit * inverse, 1)
    ensures Eq(x, y)
  {
    EqScale(x * unit, y * unit, inverse);
    Unscaled(x, unit, inverse);
    Unscaled(y, unit, inverse);
    EqSym(x * unit * inverse, x);
    EqTrans(x, x * unit * inverse, y * unit * inverse);
    EqTrans(x, y * unit * inverse, y);
  }

  lemma Unscaled(x: int, unit: int, inverse: int)
    requires Eq(unit * inverse, 1)
    ensures Eq(x * unit * inverse, x)
  {
    EqScale(unit * inverse, 1, x);
    MulAssoc(x, unit, inverse);
  }

  lemma CancelRadix(x: int, y: int)
    requires Eq(x * R, y * R)
    ensures Eq(x, y)
  {
    assert Eq(R * RINV, 1);
    Cancel(x, y, R, RINV);
  }

  /** mld_reduce32: for every int32_t, a congruent value within 6291200. */
  method Reduce32(a: Int32) returns (r: Int32)
    ensures Eq(r, a) && -6291200 <= r <= 6291200
  {
    var t := (a as int + 0x40_0000) / 0x80_0000;
    assert -256 <= t <= 256;
    r := a as int - t * Q;
    CongIntro(r, a, -t, Q);
  }

  /** The low word of a q^-1 times q is a's low word. */
  lemma LowWord(a: int, t: int)
    requires Cong(t, a * QINV, R)
    ensures (a - t * Q) % R == 0
  {
    CongIntro(Q, Q, 0, R);
    CongMul(t, a * QINV, Q, Q, R);
    var k := (QINV * Q - 1) / R;
    assert QINV * Q - 1 == k * R;
    MulAssoc(a, QINV, Q);
    assert a * (QINV * Q) - a == a * (k * R) by { Distribute(a, QINV * Q, -1); }
    MulAssoc(a, k, R);
    CongIntro(a * QINV * Q, a, a * k, R);
    CongTrans(t * Q, a * QINV * Q, a, R);
    CongSym(t * Q, a, R);
  }

  /** (int32_t)(uint32_t)((uint64_t)a * QINV). */
  method LowProduct(a: int) returns (t: Int32)
    ensures Cong(t, a * QINV, R)
  {
    var product := U64(U64(a) * QINV);
    CongIntro(U64(a), a, -(a / 0x1_0000_0000_0000_0000) * 0x1_0000_0000, R);
    CongIntro(QINV, QINV, 0, R);
    CongMul(U64(a), a, QINV, QINV, R);
    var k := U64(a) * QINV / 0x1_0000_0000_0000_0000;
    CongIntro(product, U64(a) * QINV, -k * 0x1_0000_0000, R);
    CongTrans(product, U64(a) * QINV, a * QINV, R);
    t := S32(U32(product));
    TruncCong(product);
    CongIntro(t, U32(product), if U32(product) < 0x8000_0000 then 0 else -1, R);
    CongTrans(t, U32(product), product, R);
    CongTrans(t, product, a * QINV, R);
  }

  /** mld_montgomery_reduce: times 2^32 it is the argument again, modulo q. The argument 2^31 q gives q, and
      every other one up to it, of either sign, gives less than q. */
  method MontgomeryReduce(a: int) returns (r: Int32)
    requires -0x4000_0000_0000_0000 < a < 0x4000_0000_0000_0000
    ensures Eq(r * R, a)
    ensures -0x8000_0000 * Q <= a <= 0x8000_0000 * Q ==> -Q < r <= Q && (r < Q <==> a != 0x8000_0000 * Q)
  {
    var t := LowProduct(a);
    LowWord(a, t);
    r := (a - t * Q) / R;
    assert r * R == a - t * Q;
    CongIntro(r * R, a, -t, Q);
    if a == 0x8000_0000 * Q {
      LowestLow(t);
    }
  }

  lemma LowestLow(t: Int32)
    requires Cong(t, 0x8000_0000 * Q * QINV, R)
    ensures t == -0x8000_0000
  {
    var k := (0x8000_0000 * Q * QINV + 0x8000_0000) / R;
    assert 0x8000_0000 * Q * QINV + 0x8000_0000 == k * R;
    CongIntro(0x8000_0000 * Q * QINV, -0x8000_0000, k, R);
    CongTrans(t, 0x8000_0000 * Q * QINV, -0x8000_0000, R);
    var j := Quotient(t, -0x8000_0000, R);
  }

  lemma ProductWithin(x: int, y: int, bx: int, by_: int)
    requires -bx <= x <= bx && -by_ <= y <= by_
    ensures -(bx * by_) <= x * y <= bx * by_
  {
    var ax, ay := if x < 0 then -x else x, if y < 0 then -y else y;
    MulLe(ax, bx, ay);
    MulLe(ay, by_, bx);
    assert x * y == ax * ay || x * y == -(ax * ay);
  }

  /** mld_mul_zeta: zeta a 2^-32 modulo q, under q for every int32_t a. */
  method MulZeta(zeta: int, a: Int32) returns (r: Int32)
    requires -(Q - 1) / 2 <= zeta <= (Q - 1) / 2
    ensures Eq(r * R, zeta * a) && -Q < r < Q
  {
    ProductWithin(zeta, a, (Q - 1) / 2, 0x8000_0000);
    r := MontgomeryReduce(zeta * a);
  }

  /** mld_mul_reduced: a b 2^-32 modulo q, for every pair. */
  method MulReduced(a: Int32, b: Int32) returns (r: Int32)
    ensures Eq(r * R, a * b) && -Q < r < Q
  {
    var x := Reduce32(a);
    var y := Reduce32(b);
    var product := x as int * y;
    ProductWithin(x, y, 6291200, 6291200);
    r := MontgomeryReduce(product);
    assert Eq(r * R, a * b) by {
      EqMul(x, a, y, b);
      EqTrans(r * R, product, a * b);
    }
  }
}
