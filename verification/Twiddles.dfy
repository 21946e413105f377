/** The twiddle factors of src/mldsa_zetas.h: powers of 1753 in bit-reversed order, in the
    Montgomery domain, and the square and inverse laws the two transforms rest on. */
module Twiddles {
  import opened Arith
  import opened Residues

  const ZETA: Root := 1753

  /** Any integer that stands for the 512th root of unity. */
  type Root = z: int | (z - 1753) % Q == 0 witness 1753

  /** The low b bits of k, reversed. */
  function Rev(k: nat, b: nat): nat {
    if b == 0 then 0 else (if k % 2 == 1 then TwoTo(b - 1) else 0) + Rev(k / 2, b - 1)
  }

  function TwoTo(b: nat): nat { if b == 0 then 1 else 2 * TwoTo(b - 1) }

  /** The twiddle of node k of the transform's tree: node 1 is the root, node k's children are 2k
      and 2k + 1. */
  ghost function Twiddle(z: Root, k: nat): int { Pow(z, Rev(k, 8)) }

  /** zeta squared n times, modulo q. */
  function Squares(n: nat): nat {
    if n == 0 then 1753 else Squares(n - 1) * Squares(n - 1) % Q
  }

  lemma SquareStep(p: int, x: nat)
    requires Eq(p, x)
    ensures Eq(p * p, x * x % Q)
  {
    EqMul(p, x, p, x);
    CongIntro(x * x, x * x % Q, x * x / Q, Q);
    EqTrans(p * p, x * x, x * x % Q);
  }

  lemma {:induction false} SquaresArePowers(z: Root, n: nat)
    ensures Eq(Pow(z, TwoTo(n)), Squares(n))
  {
    if n == 0 {
      assert Pow(z, 1) == z * Pow(z, 0);
    } else {
      var e := TwoTo(n - 1);
      SquaresArePowers(z, n - 1);
      PowAdd(z, e, e);
      SquareStep(Pow(z, e), Squares(n - 1));
    }
  }

  lemma SquaresNext(n: nat, x: nat)
    requires n > 0 && Squares(n - 1) == x
    ensures Squares(n) == x * x % Q
  {}

  lemma AllSquares()
    ensures Squares(0) == 1753 && Squares(1) == 3073009 && Squares(2) == 3602218 && Squares(3) == 5010068
    ensures Squares(4) == 7778734 && Squares(5) == 5178923 && Squares(6) == 3765607
    ensures Squares(7) == 4808194 && Squares(8) == 8380416
  {
    SquaresNext(1, 1753);
    SquaresNext(2, 3073009);
    SquaresNext(3, 3602218);
    SquaresNext(4, 5010068);
    SquaresNext(5, 7778734);
    SquaresNext(6, 5178923);
    SquaresNext(7, 3765607);
    SquaresNext(8, 4808194);
  }

  /** zeta^128 is a square root of -1. */
  lemma RootOfUnity(z: Root)
    ensures Eq(Pow(z, 128), 4808194) && Eq(Pow(z, 256), -1)
  {
    assert TwoTo(7) == 128 && TwoTo(8) == 256;
    AllSquares();
    SquaresArePowers(z, 7);
    SquaresArePowers(z, 8);
    EqTrans(Pow(z, 256), 8380416, -1);
  }

  /** Reversing one bit more doubles what was reversed, when the bit is clear. */
  lemma {:induction false} RevWider(k: nat, b: nat)
    requires k < TwoTo(b)
    ensures Rev(k, b + 1) == 2 * Rev(k, b)
  {
    if b > 0 {
      RevWider(k / 2, b - 1);
      assert Rev(k, b + 1) == (if k % 2 == 1 then TwoTo(b) else 0) + Rev(k / 2, b);
    } else {
      assert k == 0 && Rev(0, 1) == Rev(0, 0);
    }
  }

  /** And one more, when the bit is set. */
  lemma {:induction false} RevTop(k: nat, b: nat)
    requires k < TwoTo(b)
    ensures Rev(k + TwoTo(b), b + 1) == 2 * Rev(k, b) + 1
  {
    var n := k + TwoTo(b);
    assert Rev(n, b + 1) == (if n % 2 == 1 then TwoTo(b) else 0) + Rev(n / 2, b);
    if b > 0 {
      RevTop(k / 2, b - 1);
      assert n / 2 == k / 2 + TwoTo(b - 1) && n % 2 == k % 2;
    } else {
      assert n == 1 && Rev(0, 0) == 0;
    }
  }

  lemma {:induction false} RevEven(k: nat, b: nat)
    ensures Rev(2 * k, b + 1) == Rev(k, b)
  {
    assert (2 * k) / 2 == k;
  }

  lemma {:induction false} RevOdd(k: nat, b: nat)
    ensures Rev(2 * k + 1, b + 1) == TwoTo(b) + Rev(k, b)
  {
    assert (2 * k + 1) / 2 == k;
  }

  /** The children's exponents are half the parent's, and half a turn past that. */
  lemma {:induction false} ChildExponents(k: nat)
    requires k < 128
    ensures 2 * Rev(2 * k, 8) == Rev(k, 8) && 2 * Rev(2 * k + 1, 8) == Rev(k, 8) + 256
  {
    RevWider(k, 7);
    RevEven(k, 7);
    RevOdd(k, 7);
  }

  lemma {:induction false} RevZero(b: nat)
    ensures Rev(0, b) == 0
  {
    if b > 0 { RevZero(b - 1); }
  }

  lemma {:induction false} RevOne(one: nat, b: nat)
    requires one == 1
    ensures Rev(one, b + 1) == TwoTo(b)
  {
    RevZero(b);
  }

  lemma SquareOf(z: Root, e: nat, f: nat)
    requires 2 * e == f
    ensures Eq(Pow(z, e) * Pow(z, e), Pow(z, f))
  {
    PowAdd(z, e, e);
    EqSelf(Pow(z, f));
  }

  /** Half a turn more changes the sign. */
  lemma SquareTurned(z: Root, e: nat, f: nat)
    requires 2 * e == f + 256
    ensures Eq(Pow(z, e) * Pow(z, e), -Pow(z, f))
  {
    PowAdd(z, e, e);
    RootOfUnity(z);
    PowAdd(z, f, 256);
    EqSelf(Pow(z, f));
    EqMul(Pow(z, f), Pow(z, f), Pow(z, 256), -1);
  }

  lemma RootSquared(z: Root, one: nat)
    requires one == 1
    ensures Eq(Twiddle(z, one) * Twiddle(z, one), -1)
  {
    RevOne(one, 7);
    SquareOf(z, Rev(one, 8), 256);
    RootOfUnity(z);
    EqTrans(Twiddle(z, one) * Twiddle(z, one), Pow(z, 256), -1);
  }

  lemma {:induction false} LeftSquared(z: Root, k: nat, c: nat)
    requires 2 * Rev(c, 8) == Rev(k, 8)
    ensures Eq(Twiddle(z, c) * Twiddle(z, c), Twiddle(z, k))
  {
    SquareOf(z, Rev(c, 8), Rev(k, 8));
  }

  lemma {:induction false} RightSquared(z: Root, k: nat, c: nat)
    requires 2 * Rev(c, 8) == Rev(k, 8) + 256
    ensures Eq(Twiddle(z, c) * Twiddle(z, c), -Twiddle(z, k))
  {
    SquareTurned(z, Rev(c, 8), Rev(k, 8));
  }

  /** The inverse walks the tree mirrored: the node opposite k carries minus the inverse twiddle. */
  ghost predicate Opposite(k: nat, o: nat) { Rev(k, 8) + Rev(o, 8) == 256 }

  lemma OppositeRoot()
    ensures Opposite(1, 1)
  {
    RevOne(1, 7);
  }

  lemma OppositeChildren(k: nat, o: nat)
    requires Opposite(k, o) && k < 128 && o < 128
    ensures Opposite(2 * k, 2 * o + 1) && Opposite(2 * k + 1, 2 * o)
  {
    ChildExponents(k);
    ChildExponents(o);
  }

  lemma OppositeTwiddles(z: Root, k: nat, o: nat)
    requires Opposite(k, o)
    ensures Eq(Twiddle(z, k) * Twiddle(z, o), -1)
  {
    PowAdd(z, Rev(k, 8), Rev(o, 8));
    RootOfUnity(z);
  }

  lemma {:induction false} LeafTwiddle(z: Root, j: nat)
    requires j < 128
    ensures Twiddle(z, 128 + j) == Pow(z, 2 * Rev(j, 7) + 1)
  {
    RevTop(j, 7);
  }

  lemma {:induction false} HalfTurn(z: Root, e: nat)
    ensures Eq(-Pow(z, e), Pow(z, e + 256))
  {
    PowAdd(z, e, 256);
    RootOfUnity(z);
    EqSelf(Pow(z, e));
    EqMul(Pow(z, e), Pow(z, e), Pow(z, 256), -1);
    EqSym(Pow(z, e + 256), -Pow(z, e));
  }

  /** FIPS 204's order of roots: leaves 2j and 2j + 1 are the values at zeta^(2 brv(i) + 1). */
  lemma {:induction false} EvenRoot(z: Root, j: nat)
    requires j < 128
    ensures Eq(Twiddle(z, 128 + j), Pow(z, 2 * Rev(2 * j, 8) + 1))
  {
    LeafTwiddle(z, j);
    RevEven(j, 7);
    EqSelf(Twiddle(z, 128 + j));
  }

  lemma {:induction false} OddRoot(z: Root, j: nat)
    requires j < 128
    ensures Eq(-Twiddle(z, 128 + j), Pow(z, 2 * Rev(2 * j + 1, 8) + 1))
  {
    var e, f := 2 * Rev(j, 7) + 1, 2 * Rev(2 * j + 1, 8) + 1;
    assert f == e + 256 by { RevOdd(j, 7); }
    assert Twiddle(z, 128 + j) == Pow(z, e) by { LeafTwiddle(z, j); }
    HalfTurn(z, e);
  }
}
