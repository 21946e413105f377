/** The widening multiplies of src/ct.h built from 16-bit halves: every sum is a 32-bit sum and
    truncates as uint32_t does. */
module WideMul {
  import opened Arith
  import opened Bits
  import opened Words

  const HALF: int := 0x1_0000

  /** int32_t and int64_t, and the reading of a bit pattern as one of them. */
  type Int32 = x: int | -0x8000_0000 <= x < 0x8000_0000
  function S32(x: Word): Int32 { if x < 0x8000_0000 then x else x - BASE }

  lemma HalfProduct(x: int, y: int)
    requires 0 <= x < HALF && 0 <= y < HALF
    ensures 0 <= x * y <= 0xFFFE_0001
  {
    MulLe(x, HALF - 1, y);
    MulLe(0, x, y);
  }

  /** (hi << 32) | lo. */
  function Join(hi: Word, lo: Word): (r: nat)
    ensures r == hi * BASE + lo
  {
    Pow32();
    OrDisjoint(lo, hi, 32);
    ShlIsMul(hi, 32);
    Or(lo, Shl(hi, 32))
  }

  /** (w << 16) | l in 32 bits. */
  function JoinHalf(w: Word, l: nat): (r: Word)
    requires l < HALF
    ensures r == (w % HALF) * HALF + l
  {
    assert Pow(2, 16) == HALF by { PowAdd(2, 8, 8); }
    OrDisjoint(l, w % HALF, 16);
    ShlIsMul(w % HALF, 16);
    assert U32(w * HALF) == (w % HALF) * HALF by {
      assert w * HALF == (w / HALF) * BASE + (w % HALF) * HALF;
      DivUnique(w * HALF, BASE, w / HALF, (w % HALF) * HALF);
    }
    Or(l, U32(w * HALF))
  }

  lemma SplitProduct(a: int, b: int)
    ensures var al, ah, bl, bh := a % HALF, a / HALF, b % HALF, b / HALF;
            a * b == al * bl + HALF * (al * bh) + HALF * (ah * bl) + BASE * (ah * bh)
  {
    var al, ah, bl, bh := a % HALF, a / HALF, b % HALF, b / HALF;
    assert a == ah * HALF + al && b == bh * HALF + bl;
    assert a * b == (ah * HALF + al) * (bh * HALF + bl);
    assert (ah * HALF) * (bh * HALF) == BASE * (ah * bh);
  }

  lemma Fits(x: int)
    requires 0 <= x < BASE
    ensures U32(x) == x
  {}

  /** Three splits into halves and the two sums between them keep the weighted total. */
  lemma LadderTotal(ll: int, lh: int, hl: int, hh: int, t: int, w: int)
    requires t == hl + ll / HALF && w == t % HALF + lh
    ensures (hh + t / HALF + w / HALF) * BASE + (w % HALF) * HALF + ll % HALF
            == ll + HALF * lh + HALF * hl + BASE * hh
  {
    var l1, l0, t1, t0, w1, w0 := ll / HALF, ll % HALF, t / HALF, t % HALF, w / HALF, w % HALF;
    assert ll == l1 * HALF + l0;
    assert t == t1 * HALF + t0;
    assert w == w1 * HALF + w0;
  }

  /** The recombination of ct_widemul: Hacker's Delight's mulhu ladder on the four products. */
  function Ladder(ll: Word, lh: Word, hl: Word, hh: Word): (r: nat)
    requires ll <= 0xFFFE_0001 && lh <= 0xFFFE_0001 && hl <= 0xFFFE_0001 && hh <= 0xFFFE_0001
    ensures r == ll + HALF * lh + HALF * hl + BASE * hh
  {
    Fits(hl + ll / HALF);
    var t := U32(hl + ll / HALF);
    Fits(t % HALF + lh);
    var w1 := U32(t % HALF + lh);
    LadderTotal(ll, lh, hl, hh, t, w1);
    Fits(hh + t / HALF + w1 / HALF);
    var hi := U32(hh + t / HALF + w1 / HALF);
    Join(hi, JoinHalf(w1, ll % HALF))
  }

  /** The recombination of ct_widemul_opaque: its two carries are compares. */
  function CompareCarries(ll: Word, lh: Word, hl: Word, hh: Word): (r: nat)
    requires ll + HALF * lh + HALF * hl + BASE * hh < BASE * BASE
    ensures r == ll + HALF * lh + HALF * hl + BASE * hh
  {
    CompareCarry(lh, hl);
    var mid := U32(lh + hl);
    var midCarry := if mid < lh then 1 else 0;
    ShiftedHalf(mid);
    CompareCarry(ll, U32(mid * HALF));
    var lo := U32(ll + U32(mid * HALF));
    var loCarry := if lo < ll then 1 else 0;
    assert (hh + mid / HALF + midCarry * HALF + loCarry) * BASE + lo == ll + HALF * lh + HALF * hl + BASE * hh;
    Fits(hh + mid / HALF + midCarry * HALF + loCarry);
    Join(U32(hh + mid / HALF + midCarry * HALF + loCarry), lo)
  }

  /** sum < addend is the carry. */
  lemma CompareCarry(x: Word, y: Word)
    ensures x + y == U32(x + y) + if U32(x + y) < x then BASE else 0
  {}

  lemma ShiftedHalf(mid: Word)
    ensures mid * HALF == (mid / HALF) * BASE + U32(mid * HALF)
  {
    DivUnique(mid * HALF, BASE, mid / HALF, (mid % HALF) * HALF);
  }

  lemma HalfProducts(a: Word, b: Word)
    ensures var al, ah, bl, bh := a % HALF, a / HALF, b % HALF, b / HALF;
            && U32(al * bl) == al * bl <= 0xFFFE_0001 && U32(al * bh) == al * bh <= 0xFFFE_0001
            && U32(ah * bl) == ah * bl <= 0xFFFE_0001 && U32(ah * bh) == ah * bh <= 0xFFFE_0001
            && a * b == al * bl + HALF * (al * bh) + HALF * (ah * bl) + BASE * (ah * bh)
            && a * b < BASE * BASE
  {
    HalfProduct(a % HALF, b % HALF);
    HalfProduct(a % HALF, b / HALF);
    HalfProduct(a / HALF, b % HALF);
    HalfProduct(a / HALF, b / HALF);
    Fits((a % HALF) * (b % HALF));
    Fits((a % HALF) * (b / HALF));
    Fits((a / HALF) * (b % HALF));
    Fits((a / HALF) * (b / HALF));
    SplitProduct(a, b);
    MulLe(a, BASE - 1, b);
  }

  /** ct_widemul: the unsigned ladder is the exact product. */
  function Wide(a: Word, b: Word): (r: nat)
    ensures r == a * b
  {
    var al, ah, bl, bh := a % HALF, a / HALF, b % HALF, b / HALF;
    HalfProducts(a, b);
    Ladder(U32(al * bl), U32(al * bh), U32(ah * bl), U32(ah * bh))
  }

  /** ct_widemul_opaque: the same product. */
  function WideOpaque(a: Word, b: Word): (r: nat)
    ensures r == a * b
  {
    var al, ah, bl, bh := a % HALF, a / HALF, b % HALF, b / HALF;
    HalfProducts(a, b);
    CompareCarries(U32(al * bl), U32(al * bh), U32(ah * bl), U32(ah * bh))
  }

  /** ct_mulsmall: the low 64 bits of a 64-by-32 product. */
  function MulSmall(a: nat, k: Word): (r: nat)
    requires a < 0x1_0000_0000_0000_0000
    ensures r == U64(a * k)
  {
    SmallSum(a, k);
    U64(Wide(U32(a), k) + U32(U32(a / BASE) * k) * BASE)
  }

  lemma SmallSum(a: nat, k: Word)
    requires a < 0x1_0000_0000_0000_0000
    ensures U64(U32(a) * k + U32(U32(a / BASE) * k) * BASE) == U64(a * k)
  {
    var al, ah := a % BASE, a / BASE;
    assert U32(a / BASE) == ah;
    var q, r := (ah * k) / BASE, (ah * k) % BASE;
    calc {
      a * k;
      (ah * BASE + al) * k;
      (ah * k) * BASE + al * k;
      (q * BASE + r) * BASE + al * k;
      q * 0x1_0000_0000_0000_0000 + (al * k + r * BASE);
    }
    CongIntro(a * k, al * k + r * BASE, q, 0x1_0000_0000_0000_0000);
    SameRemainder(a * k, al * k + r * BASE, 0x1_0000_0000_0000_0000);
  }

  lemma SameRemainder(x: int, y: int, m: int)
    requires m > 0 && Cong(x, y, m)
    ensures x % m == y % m
  {
    var k := Quotient(x, y, m);
    assert x == (y / m) * m + y % m + k * m == (y / m + k) * m + y % m;
    DivUnique(x, m, y / m + k, y % m);
  }

  /** int64_t from its bit pattern. */
  function S64(x: nat): int
    requires x < 0x1_0000_0000_0000_0000
  {
    if x < 0x8000_0000_0000_0000 then x else x - 0x1_0000_0000_0000_0000
  }

  /** A sum of patterns is the pattern of the sum. */
  lemma SignedSum(x: int, xs: int, y: int, ys: int)
    requires Cong(x, xs, BASE) && Cong(y, ys, BASE) && -0x8000_0000 <= xs + ys < 0x8000_0000
    ensures S32(U32(x + y)) == xs + ys
  {
    CongAdd(x, xs, y, ys, BASE);
    SameRemainder(x + y, xs + ys, BASE);
  }

  lemma PatternCong(x: Word)
    ensures Cong(x, S32(x), BASE)
  {}

  lemma LowHalf(x: Word)
    ensures S32(x) % HALF == x % HALF
  {}

  lemma TruncCong(x: int)
    ensures Cong(U32(x), x, BASE)
  {
    CongIntro(U32(x), x, -(x / BASE), BASE);
  }

  lemma HighSum(hh: Word, ts: int, ws: int)
    requires -0x8000_0000 <= S32(hh) + ts + ws < 0x8000_0000
    ensures S32(U32(hh + U32(ts) + U32(ws))) == S32(hh) + ts + ws
  {
    PatternCong(hh);
    TruncCong(ts);
    TruncCong(ws);
    CongAdd(hh, S32(hh), U32(ts), ts, BASE);
    SignedSum(hh + U32(ts), S32(hh) + ts, U32(ws), ws);
  }

  lemma HalfSum(x: Word, y: int)
    requires 0 <= y < HALF && S32(x) <= 0x7FFE_8001
    ensures S32(U32(y + x)) == y + S32(x)
  {
    PatternCong(x);
    SignedSum(y, y, x, S32(x));
  }

  lemma JoinSigned(hi: Word, lo: Word)
    ensures S64(hi * BASE + lo) == S32(hi) * BASE + lo
  {}

  /** The recombination of ct_widemul_s on uint32_t patterns: t and w1 shift as signed values.
      Dafny's / rounds down, as an arithmetic right shift does. */
  function SignedLadder(ll: Word, lh: Word, hl: Word, hh: Word): (r: int)
    requires ll <= 0xFFFE_0001
    requires -0x7FFF_8000 <= S32(lh) <= 0x7FFE_8001 && -0x7FFF_8000 <= S32(hl) <= 0x7FFE_8001
    requires -0x4000_0000 <= S32(hh) <= 0x4000_0000
    ensures r == ll + HALF * S32(lh) + HALF * S32(hl) + BASE * S32(hh)
  {
    HalfSum(hl, ll / HALF);
    var t := U32(ll / HALF + hl);
    LowHalf(t);
    HalfSum(lh, t % HALF);
    var w1 := U32(t % HALF + lh);
    LowHalf(w1);
    LadderTotal(ll, S32(lh), S32(hl), S32(hh), S32(t), S32(w1));
    HighSum(hh, S32(t) / HALF, S32(w1) / HALF);
    var hi := U32(hh + U32(S32(t) / HALF) + U32(S32(w1) / HALF));
    JoinSigned(hi, JoinHalf(w1, ll % HALF));
    S64(Join(hi, JoinHalf(w1, ll % HALF)))
  }

  /** The product of two patterns is the pattern of the product. */
  lemma PatternProduct(x: int, y: int)
    requires -0x8000_0000 <= x * y < 0x8000_0000
    ensures S32(U32(U32(x) * U32(y))) == x * y
  {
    CongIntro(x, U32(x), x / BASE, BASE);
    CongIntro(y, U32(y), y / BASE, BASE);
    CongMul(x, U32(x), y, U32(y), BASE);
    SameRemainder(x * y, U32(x) * U32(y), BASE);
  }

  lemma SignedHalves(x: int, y: int)
    requires 0 <= x < HALF && -0x8000 <= y < 0x8000
    ensures -0x7FFF_8000 <= x * y <= 0x7FFE_8001
  {
    if y >= 0 {
      MulLe(x, HALF - 1, y);
      MulLe(y, 0x7FFF, HALF - 1);
    } else {
      MulLe(x, HALF - 1, -y);
      MulLe(-y, 0x8000, HALF - 1);
    }
  }

  lemma SignedHigh(x: int, y: int)
    requires -0x8000 <= x < 0x8000 && -0x8000 <= y < 0x8000
    ensures -0x4000_0000 <= x * y <= 0x4000_0000
  {
    var ax, ay := if x < 0 then -x else x, if y < 0 then -y else y;
    MulLe(ax, 0x8000, ay);
    MulLe(ay, 0x8000, 0x8000);
    assert ax * ay == x * y || ax * ay == -(x * y);
  }

  lemma LowHigh(x: int, y: int)
    requires 0 <= x < HALF && -0x8000 <= y < 0x8000
    ensures S32(U32(x * U32(y))) == x * y && -0x7FFF_8000 <= x * y <= 0x7FFE_8001
  {
    SignedHalves(x, y);
    Fits(x);
    PatternProduct(x, y);
  }

  lemma SignedProducts(al: int, ah: int, bl: int, bh: int)
    requires 0 <= al < HALF && 0 <= bl < HALF && -0x8000 <= ah < 0x8000 && -0x8000 <= bh < 0x8000
    ensures U32(al * bl) == al * bl <= 0xFFFE_0001
    ensures S32(U32(al * U32(bh))) == al * bh && -0x7FFF_8000 <= al * bh <= 0x7FFE_8001
    ensures S32(U32(U32(ah) * bl)) == ah * bl && -0x7FFF_8000 <= ah * bl <= 0x7FFE_8001
    ensures S32(U32(U32(ah) * U32(bh))) == ah * bh && -0x4000_0000 <= ah * bh <= 0x4000_0000
  {
    HalfProduct(al, bl);
    Fits(al * bl);
    LowHigh(al, bh);
    LowHigh(bl, ah);
    assert bl * U32(ah) == U32(ah) * bl && bl * ah == ah * bl;
    SignedHigh(ah, bh);
    PatternProduct(ah, bh);
  }

  lemma LowOfPattern(a: Int32)
    ensures U32(a) % HALF == a % HALF
  {}

  /** ct_widemul_s: the signed ladder is the exact product, for both signs. */
  function WideSigned(a: Int32, b: Int32): (r: int)
    ensures r == a * b
  {
    var al, ah, bl, bh := U32(a) % HALF, U32(a / HALF), U32(b) % HALF, U32(b / HALF);
    LowOfPattern(a);
    LowOfPattern(b);
    SignedProducts(a % HALF, a / HALF, b % HALF, b / HALF);
    SplitProduct(a, b);
    SignedLadder(U32(al * bl), U32(al * bh), U32(ah * bl), U32(ah * bh))
  }
}
