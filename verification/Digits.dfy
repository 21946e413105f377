/** The signed odd window digits of src/p256_wide_mul.c: for any width and any window count that
    covers the scalar, the digits weighted by their windows sum to k | 1. */
module Digits {
  import opened Arith
  import opened Bits
  import opened Words
  import opened Field

  /** k | 1. */
  function OddOf(k: nat): (odd: nat)
    ensures odd % 2 == 1 && odd / 2 == k / 2
  {
    assert Or(k / 2, 0) == k / 2;
    Or(k, 1)
  }

  /** The lowest bit of a window. */
  ghost function Low(bits: nat, window: nat): nat {
    if window == 0 then 0 else Low(bits, window - 1) + bits
  }

  lemma {:induction false} LowIsProduct(bits: nat, window: nat)
    ensures Low(bits, window) == bits * window
  {
    if window > 0 {
      LowIsProduct(bits, window - 1);
      Distribute(bits, window - 1, 1);
    }
  }

  lemma {:induction false} LowMonotone(bits: nat, i: nat, j: nat)
    requires i <= j
    ensures Low(bits, i) <= Low(bits, j)
  {
    if i < j { LowMonotone(bits, i, j - 1); }
  }

  /** The windows cover n bits, and the sign bit of every window but the top one is inside them. */
  ghost predicate Covers(n: nat, bits: nat, windows: nat) {
    bits > 0 && windows > 0 && Low(bits, windows - 1) < n <= Low(bits, windows)
  }

  /** The digit of the window at low: 2v + 1 for the bits v above its lowest, less 2^w when the bit
      above the window is clear. The top window's digit is positive. */
  ghost function DigitAt(k: nat, low: nat, bits: nat, top: bool): int
    requires bits > 0
  {
    2 * LowBits(Shr(k, low + 1), bits - 1) + 1 - if !top && Bit(k, low + bits) == 0 then Shl(1, bits) else 0
  }

  ghost function DigitOf(k: nat, window: nat, bits: nat, windows: nat): int
    requires bits > 0
  {
    DigitAt(k, Low(bits, window), bits, window + 1 >= windows)
  }

  /** The digits of the windows below j, each at its window's weight. */
  ghost function DigitSum(k: nat, j: nat, bits: nat, windows: nat): int
    requires bits > 0
  {
    if j == 0 then 0 else
      DigitSum(k, j - 1, bits, windows) + Shl(DigitOf(k, j - 1, bits, windows), Low(bits, j - 1))
  }

  /** k | 1 and k agree above bit 0. */
  lemma OddShr(k: nat, i: nat)
    ensures Shr(OddOf(k), i + 1) == Shr(k, i + 1)
  {
    ShrShr(k, 1, i);
    ShrShr(OddOf(k), 1, i);
    assert Shr(k, 1) == Shr(k, 0) / 2 && Shr(OddOf(k), 1) == Shr(OddOf(k), 0) / 2;
  }

  lemma NextBit(x: nat, i: nat)
    ensures LowBits(x, i + 1) == LowBits(x, i) + Shl(Bit(x, i), i)
  {
    LowBitsSplit(x, i, 1);
    var y := Shr(x, i);
    assert LowBits(y, 1) == y % 2 + 2 * LowBits(y / 2, 0);
  }

  /** One digit moves the telescoped sum up one window. */
  lemma DigitStep(k: nat, low: nat, bits: nat)
    requires bits > 0
    ensures LowBits(OddOf(k), low + bits + 1) - Shl(1, low + bits)
            == LowBits(OddOf(k), low + 1) - Shl(1, low) + Shl(DigitAt(k, low, bits, false), low)
  {
    var odd, y := OddOf(k), Shr(k, low + 1);
    var v, b := LowBits(y, bits - 1), Bit(k, low + bits);
    assert LowBits(odd, low + 1 + bits) == LowBits(odd, low + 1) + Shl(LowBits(y, bits), low + 1) by {
      LowBitsSplit(odd, low + 1, bits);
      OddShr(k, low);
    }
    assert LowBits(y, bits) == v + Shl(b, bits - 1) by {
      ShrShr(k, low + 1, bits - 1);
      NextBit(y, bits - 1);
    }
    assert Shl(v + Shl(b, bits - 1), low + 1) == Shl(v, low + 1) + Shl(b, low + bits) by {
      ShlAdd(v, Shl(b, bits - 1), low + 1);
      ShlShl(b, bits - 1, low + 1);
    }
    DigitWeight(v, b, low, bits);
  }

  lemma DigitWeight(v: int, b: int, low: nat, bits: nat)
    requires 0 <= b <= 1
    ensures Shl(v, low + 1) + Shl(b, low + bits) - Shl(1, low + bits)
            == -Shl(1, low) + Shl(2 * v + 1 - (if b == 0 then Shl(1, bits) else 0), low)
  {
    OddWeight(v, low);
    ShlShl(1, bits, low);
    ShlAdd(2 * v + 1, Shl(1, bits), low);
    ShlAdd(0, 0, low + bits);
  }

  /** Below the top window the digits telescope: they sum to the low bits of k | 1 less the weight
      of the next window. */
  lemma {:induction false} PartialSum(k: nat, j: nat, bits: nat, windows: nat)
    requires bits > 0 && j < windows
    ensures DigitSum(k, j, bits, windows) == LowBits(OddOf(k), Low(bits, j) + 1) - Shl(1, Low(bits, j))
  {
    if j == 0 {
      assert LowBits(OddOf(k), 1) == OddOf(k) % 2 + 2 * LowBits(OddOf(k) / 2, 0);
    } else {
      PartialSum(k, j - 1, bits, windows);
      DigitStep(k, Low(bits, j - 1), bits);
    }
  }

  /** All the weighted digits together are k with its low bit set. */
  lemma DigitsSum(k: nat, n: nat, bits: nat, windows: nat)
    requires Covers(n, bits, windows) && Shr(k, n) == 0
    ensures DigitSum(k, windows, bits, windows) == OddOf(k)
  {
    var low := Low(bits, windows - 1);
    PartialSum(k, windows - 1, bits, windows);
    TopBits(k, n, low, bits);
    OddShr(k, low);
    SplitBits(OddOf(k), low + 1);
    OddWeight(Shr(k, low + 1), low);
  }

  /** The top window reads every bit that is left. */
  lemma TopBits(k: nat, n: nat, low: nat, bits: nat)
    requires bits > 0 && n <= low + bits && Shr(k, n) == 0
    ensures LowBits(Shr(k, low + 1), bits - 1) == Shr(k, low + 1)
  {
    SplitBits(Shr(k, low + 1), bits - 1);
    ShrShr(k, low + 1, bits - 1);
    ShrShr(k, n, low + bits - n);
    ShrZero(low + bits - n);
    ShlAdd(0, 0, bits - 1);
  }

  lemma OddWeight(v: int, low: nat)
    ensures Shl(2 * v + 1, low) == Shl(v, low + 1) + Shl(1, low)
  {
    ShlAdd(2 * v, 1, low);
    ShlShl(v, 1, low);
    assert Shl(v, 1) == 2 * Shl(v, 0);
  }

  /** scalar_bit: bit i of the scalar's words, read without a guard. */
  method ScalarBit(k: seq<Word>, i: nat) returns (b: nat)
    requires i < 32 * |k|
    ensures b == Bit(Value(k), i)
  {
    BitOfWords(k, i / 32, i % 32);
    b := Bit(k[i / 32], i % 32);
  }

  /** scalar_bit_or_zero: the bit, and zero past the words. */
  method ScalarBitOrZero(k: seq<Word>, i: nat) returns (b: nat)
    ensures b == Bit(Value(k), i)
  {
    if i >= 32 * |k| {
      NoBitsLeft(k);
      ShrShr(Value(k), 32 * |k|, i - 32 * |k|);
      ShrZero(i - 32 * |k|);
      return 0;
    }
    b := ScalarBit(k, i);
  }

  const ONES64: nat := 0xffff_ffff_ffff_ffff
  const TOP64: nat := 0x8000_0000_0000_0000

  /** p256_wide_mask: 2^63 times the bit, read as signed, divided by 2^63 rounding down. */
  function WideMask(bit: nat): (mask: nat)
    requires bit <= 1
    ensures mask == if bit == 1 then ONES64 else 0
  {
    var top := bit * TOP64;
    var signed := if top >= TOP64 then top - 2 * TOP64 else top;
    (signed / TOP64) % (2 * TOP64)
  }

  /** window_digit: the digit's index among the odd multiples, and its sign as a mask. */
  method WindowDigit(k: seq<Word>, window: nat, bits: nat, windows: nat) returns (index: nat, negative: nat)
    requires Covers(32 * |k|, bits, windows) && window < windows && bits <= 64
    ensures index < Pow(2, bits - 1)
    ensures negative == 0 || negative == ONES64
    ensures window + 1 == windows ==> negative == 0
    ensures (if negative == 0 then 2 * index + 1 else -(2 * index + 1)) == DigitOf(Value(k), window, bits, windows)
  {
    LowIsProduct(bits, window);
    var low := bits * window;
    var size := WindowBits(k, low, bits);
    var positive := 1;
    if window + 1 < windows {
      LowMonotone(bits, window + 1, windows - 1);
      positive := ScalarBit(k, low + bits);
    }
    negative := WideMask(1 - positive);
    ShlIsMul(1, bits);
    index := IndexOf(size, negative, bits);
  }

  /** The bits of a window above its lowest, gathered one by one. */
  method WindowBits(k: seq<Word>, low: nat, bits: nat) returns (size: nat)
    requires bits > 0
    ensures size == LowBits(Shr(Value(k), low + 1), bits - 1) < Pow(2, bits - 1)
  {
    ghost var x := Shr(Value(k), low + 1);
    size := 0;
    for t := 1 to bits
      invariant size == LowBits(x, t - 1)
    {
      var bit := ScalarBitOrZero(k, low + t);
      NextBit(x, t - 1);
      ShrShr(Value(k), low + 1, t - 1);
      LowBitsBound(x, t - 1);
      OrDisjoint(size, bit, t - 1);
      size := Or(size, Shl(bit, t - 1));
    }
    LowBitsBound(x, bits - 1);
  }

  /** size ^ (negative & largest_index). */
  function IndexOf(size: nat, negative: nat, bits: nat): (index: nat)
    requires 0 < bits <= 64 && size < Pow(2, bits - 1) && (negative == 0 || negative == ONES64)
    ensures index < Pow(2, bits - 1)
    ensures index == if negative == 0 then size else Pow(2, bits - 1) - 1 - size
  {
    assert Ones(64) == ONES64 by { PowAdd(2, 32, 32); Pow32(); }
    AndMasks(64, bits - 1);
    XorOnes(size, bits - 1);
    Xor(size, And(negative, Ones(bits - 1)))
  }

  lemma {:induction false} AndMasks(m: nat, n: nat)
    requires n <= m
    ensures And(Ones(m), Ones(n)) == Ones(n)
  {
    if n > 0 {
      PowPositive(2, n - 1);
      PowPositive(2, m - 1);
      assert Ones(n) / 2 == Ones(n - 1) && Ones(m) / 2 == Ones(m - 1);
      AndMasks(m - 1, n - 1);
    }
  }
}
