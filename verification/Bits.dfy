/** C's &, | and ^ on unsigned values, as digit-by-digit functions on naturals, and the few facts
    about masks that branch-free code rests on. */
module Bits {
  import opened Arith

  function And(x: nat, y: nat): nat {
    if x == 0 || y == 0 then 0
    else 2 * And(x / 2, y / 2) + if x % 2 == 1 && y % 2 == 1 then 1 else 0
  }

  function Or(x: nat, y: nat): nat {
    if x == 0 then y else if y == 0 then x
    else 2 * Or(x / 2, y / 2) + if x % 2 == 1 || y % 2 == 1 then 1 else 0
  }

  function Xor(x: nat, y: nat): nat {
    if x == 0 then y else if y == 0 then x
    else 2 * Xor(x / 2, y / 2) + if x % 2 != y % 2 then 1 else 0
  }

  /** x >> i. */
  function Shr(x: nat, i: nat): nat {
    if i == 0 then x else Shr(x, i - 1) / 2
  }

  /** x << i, unbounded. */
  function Shl(x: int, i: nat): int {
    if i == 0 then x else 2 * Shl(x, i - 1)
  }

  /** The low i bits of x. */
  function LowBits(x: nat, i: nat): nat {
    if i == 0 then 0 else x % 2 + 2 * LowBits(x / 2, i - 1)
  }

  /** Bit i of x. */
  function Bit(x: nat, i: nat): nat {
    Shr(x, i) % 2
  }

  lemma {:induction false} ShrIsDiv(x: nat, i: nat)
    ensures Pow(2, i) > 0 && Shr(x, i) == x / Pow(2, i)
  {
    PowPositive(2, i);
    if i > 0 {
      ShrIsDiv(x, i - 1);
      DivDiv(x, Pow(2, i - 1), 2);
    }
  }

  /** All ones in n bits. */
  function Ones(n: nat): nat {
    PowPositive(2, n);
    Pow(2, n) - 1
  }

  /** A mask of n ones keeps the low n bits. */
  lemma {:induction false} AndOnes(x: nat, n: nat)
    ensures Pow(2, n) > 0 && And(x, Ones(n)) == x % Pow(2, n)
  {
    PowPositive(2, n);
    if n == 0 {
    } else if x == 0 {
    } else {
      PowPositive(2, n - 1);
      AndOnes(x / 2, n - 1);
      assert Ones(n) / 2 == Ones(n - 1) && Ones(n) % 2 == 1;
      ModDouble(x, Pow(2, n - 1));
    }
  }

  lemma ModDouble(x: nat, d: nat)
    requires d > 0
    ensures x % (2 * d) == 2 * ((x / 2) % d) + x % 2
  {
    var q, r := (x / 2) / d, (x / 2) % d;
    assert x / 2 == q * d + r;
    assert x == 2 * (q * d + r) + x % 2 == q * (2 * d) + (2 * r + x % 2);
    DivUnique(x, 2 * d, q, 2 * r + x % 2);
  }

  lemma AndKeep(x: nat, n: nat)
    requires x < Pow(2, n)
    ensures And(x, Ones(n)) == x
  {
    AndOnes(x, n);
    DivUnique(x, Pow(2, n), 0, x);
  }

  lemma {:induction false} OrGe(x: nat, y: nat)
    ensures Or(x, y) >= x && Or(x, y) >= y
  {
    if x > 0 && y > 0 { OrGe(x / 2, y / 2); }
  }

  /** The low n bits of x and the bits of y above them meet without a carry. */
  lemma {:induction false} OrDisjoint(x: nat, y: nat, n: nat)
    requires x < Pow(2, n)
    ensures Shl(y, n) >= 0 && Or(x, Shl(y, n)) == x + Shl(y, n)
  {
    if n > 0 { OrDisjoint(x / 2, y, n - 1); }
  }

  lemma {:induction false} ShlIsMul(x: int, i: nat)
    ensures Shl(x, i) == x * Pow(2, i)
  {
    if i > 0 { ShlIsMul(x, i - 1); MulAssoc(x, 2, Pow(2, i - 1)); }
  }

  lemma {:induction false} ShlAdd(x: int, y: int, i: nat)
    ensures Shl(x + y, i) == Shl(x, i) + Shl(y, i) && Shl(x - y, i) == Shl(x, i) - Shl(y, i)
  {
    if i > 0 { ShlAdd(x, y, i - 1); }
  }

  lemma {:induction false} ShlShl(x: int, i: nat, j: nat)
    ensures Shl(Shl(x, i), j) == Shl(x, i + j)
  {
    if j > 0 { ShlShl(x, i, j - 1); }
  }

  lemma {:induction false} ShrShr(x: nat, i: nat, j: nat)
    ensures Shr(Shr(x, i), j) == Shr(x, i + j)
  {
    if j > 0 { ShrShr(x, i, j - 1); }
  }

  lemma {:induction false} ShrZero(i: nat)
    ensures Shr(0, i) == 0
  {
    if i > 0 { ShrZero(i - 1); }
  }

  /** A number is its low bits and the rest shifted back. */
  lemma {:induction false} SplitBits(x: nat, i: nat)
    ensures x == LowBits(x, i) + Shl(Shr(x, i), i)
  {
    if i > 0 {
      SplitBits(x / 2, i - 1);
      ShrShr(x, 1, i - 1);
      assert Shr(x, 1) == Shr(x, 0) / 2;
    }
  }

  /** The low i + j bits: i of them, and the next j above. */
  lemma {:induction false} LowBitsSplit(x: nat, i: nat, j: nat)
    ensures LowBits(x, i + j) == LowBits(x, i) + Shl(LowBits(Shr(x, i), j), i)
  {
    if i > 0 {
      LowBitsSplit(x / 2, i - 1, j);
      ShrShr(x, 1, i - 1);
      assert Shr(x, 1) == Shr(x, 0) / 2;
    }
  }

  lemma {:induction false} LowBitsBound(x: nat, i: nat)
    ensures LowBits(x, i) < Pow(2, i)
  {
    if i > 0 { LowBitsBound(x / 2, i - 1); }
  }

  lemma {:induction false} OrBound(x: nat, y: nat, n: nat)
    requires x < Pow(2, n) && y < Pow(2, n)
    ensures Or(x, y) < Pow(2, n)
  {
    if x > 0 && y > 0 { OrBound(x / 2, y / 2, n - 1); }
  }

  lemma {:induction false} XorBound(x: nat, y: nat, n: nat)
    requires x < Pow(2, n) && y < Pow(2, n)
    ensures Xor(x, y) < Pow(2, n)
  {
    if x > 0 && y > 0 { XorBound(x / 2, y / 2, n - 1); }
  }

  /** Exclusive or with all ones is the complement. */
  lemma {:induction false} XorOnes(x: nat, n: nat)
    requires x < Pow(2, n)
    ensures Xor(x, Ones(n)) == Ones(n) - x
  {
    if n > 0 && x > 0 {
      PowPositive(2, n - 1);
      assert Ones(n) / 2 == Ones(n - 1) && Ones(n) % 2 == 1;
      XorOnes(x / 2, n - 1);
    }
  }

  lemma {:induction false} XorZeroIff(x: nat, y: nat)
    ensures Xor(x, y) == 0 <==> x == y
  {
    if x > 0 && y > 0 { XorZeroIff(x / 2, y / 2); }
  }

  /** x ^ (x ^ y) is y: the exchange of a masked swap, both ways. */
  lemma {:induction false} XorCancel(x: nat, y: nat)
    ensures Xor(x, Xor(x, y)) == y && Xor(y, Xor(x, y)) == x
  {
    if x > 0 && y > 0 {
      XorCancel(x / 2, y / 2);
      XorZeroIff(x, y);
      var z := Xor(x, y);
      assert z / 2 == Xor(x / 2, y / 2);
      assert z % 2 == if x % 2 != y % 2 then 1 else 0;
    } else if x > 0 {
      XorZeroIff(x, x);
    } else {
      XorZeroIff(y, y);
    }
  }

  lemma {:induction false} XorComm(x: nat, y: nat)
    ensures Xor(x, y) == Xor(y, x)
  {
    if x > 0 && y > 0 { XorComm(x / 2, y / 2); }
  }

  lemma {:induction false} BitOfHalf(x: nat, i: nat)
    ensures Bit(x, i + 1) == Bit(x / 2, i)
  {
    ShrShr(x, 1, i);
    assert Shr(x, 1) == Shr(x, 0) / 2;
  }

  lemma NoBits(i: nat)
    ensures Bit(0, i) == 0
  {
    ShrZero(i);
  }

  /** Bit by bit, ^ is the sum modulo 2. */
  lemma {:induction false} XorBits(x: nat, y: nat, i: nat)
    ensures Bit(Xor(x, y), i) == (Bit(x, i) + Bit(y, i)) % 2
  {
    NoBits(i);
    if x > 0 && y > 0 {
      var z := Xor(x, y);
      assert z / 2 == Xor(x / 2, y / 2) && z % 2 == (x % 2 + y % 2) % 2;
      if i > 0 {
        XorBits(x / 2, y / 2, i - 1);
        BitOfHalf(x, i - 1);
        BitOfHalf(y, i - 1);
        BitOfHalf(z, i - 1);
      }
    }
  }

  /** & is the product. */
  lemma {:induction false} AndBits(x: nat, y: nat, i: nat)
    ensures Bit(And(x, y), i) == Bit(x, i) * Bit(y, i)
  {
    NoBits(i);
    if x > 0 && y > 0 {
      var z := And(x, y);
      assert z / 2 == And(x / 2, y / 2) && z % 2 == (x % 2) * (y % 2);
      if i > 0 {
        AndBits(x / 2, y / 2, i - 1);
        BitOfHalf(x, i - 1);
        BitOfHalf(y, i - 1);
        BitOfHalf(z, i - 1);
      }
    }
  }

  /** | is the larger. */
  lemma {:induction false} OrBits(x: nat, y: nat, i: nat)
    ensures Bit(Or(x, y), i) == if Bit(x, i) == 1 then 1 else Bit(y, i)
  {
    NoBits(i);
    if x > 0 && y > 0 {
      var z := Or(x, y);
      assert z / 2 == Or(x / 2, y / 2) && z % 2 == if x % 2 == 1 then 1 else y % 2;
      if i > 0 {
        OrBits(x / 2, y / 2, i - 1);
        BitOfHalf(x, i - 1);
        BitOfHalf(y, i - 1);
        BitOfHalf(z, i - 1);
      }
    }
  }

  /** A number is decided by its bits, so each law above decides its operator. */
  lemma {:induction false} SameBits(x: nat, y: nat)
    requires forall i: nat {:trigger Bit(x, i)} :: Bit(x, i) == Bit(y, i)
    ensures x == y
    decreases x + y
  {
    assert Bit(x, 0) == Bit(y, 0) && Shr(x, 0) == x && Shr(y, 0) == y;
    if x > 0 || y > 0 {
      forall i: nat {:trigger Bit(x / 2, i)}
        ensures Bit(x / 2, i) == Bit(y / 2, i)
      {
        BitOfHalf(x, i);
        BitOfHalf(y, i);
        assert Bit(x, i + 1) == Bit(y, i + 1);
      }
      SameBits(x / 2, y / 2);
    }
  }
}
