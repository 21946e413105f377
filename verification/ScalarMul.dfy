/** The two scalar multiplications: the Montgomery ladder of src/p256_point.c, and the signed
    window walk of src/p256_wide_mul.c, whose additions are incomplete. */
module ScalarMul {
  import opened Arith
  import opened Bits
  import opened Words
  import opened Digits
  import opened Groups

  /** ladder_round: a clear bit doubles r0 and moves r1 up to r0 + r1, a set bit does it the other way around. */
  method LadderRound<G(!new)>(g: Group<G>, r0: G, r1: G, b: nat) returns (s0: G, s1: G)
    requires b <= 1
    ensures b == 0 ==> s0 == g.add(r0, r0) && s1 == g.add(r0, r1)
    ensures b == 1 ==> s0 == g.add(r1, r0) && s1 == g.add(r1, r1)
  {
    s0, s1 := r0, r1;
    if b == 1 { s0, s1 := s1, s0; }
    var sum := g.add(s0, s1);
    s0 := g.add(s0, s0);
    s1 := sum;
    if b == 1 { s0, s1 := s1, s0; }
  }

  /** p256_point_mul: after every round r0 is (the leading bits of k) p and r1 is r0 + p, so the
      walk over all bits yields k p, with two additions a round whatever the bit. */
  method Ladder<G(!new)>(g: Group<G>, k: seq<Word>, p: G) returns (o: G)
    requires Abelian(g)
    ensures o == Times(g, Value(k), p)
  {
    var r0, r1 := g.zero, p;
    var i := 32 * |k|;
    Field.NoBitsLeft(k);
    Unit(g, p);
    while i > 0
      invariant 0 <= i <= 32 * |k|
      invariant r0 == Times(g, Shr(Value(k), i), p)
      invariant r1 == g.add(r0, p)
    {
      i := i - 1;
      var bit := ScalarBit(k, i);
      LadderStep(g, Shr(Value(k), i + 1), bit, p);
      assert Shr(Value(k), i) == 2 * Shr(Value(k), i + 1) + bit;
      r0, r1 := LadderRound(g, r0, r1, bit);
    }
    o := r0;
  }

  lemma LadderStep<G(!new)>(g: Group<G>, x: nat, b: nat, p: G)
    requires Abelian(g) && b <= 1
    ensures var r0 := Times(g, x, p);
            var r1 := g.add(r0, p);
            && Times(g, 2 * x + b, p) == (if b == 0 then g.add(r0, r0) else g.add(r1, r0))
            && g.add(Times(g, 2 * x + b, p), p) == (if b == 0 then g.add(r0, r1) else g.add(r1, r1))
  {
    TimesNext(g, x, p);
    TimesAdd(g, x, x, p);
    TimesAdd(g, x, x + 1, p);
    TimesAdd(g, x + 1, x, p);
    TimesAdd(g, x + 1, x + 1, p);
    TimesNext(g, 2 * x, p);
    TimesNext(g, 2 * x + 1, p);
  }

  /** What an incomplete addition promises: the sum of two finite points that are neither equal nor
      opposite, and the point at infinity where an operand is infinite (Z3 = Z1 Z2 h). */
  ghost predicate Incomplete<G(!new)>(g: Group<G>, inc: (G, G) -> G) {
    forall a, b :: if a == g.zero || b == g.zero then inc(a, b) == g.zero
                   else a != b && a != g.neg(b) ==> inc(a, b) == g.add(a, b)
  }

  /** Only multiples of n send p to infinity. */
  ghost predicate OrderAtLeast<G(!new)>(g: Group<G>, p: G, n: int) {
    n > 0 && forall j :: Times(g, j, p) == g.zero ==> j % n == 0
  }

  ghost predicate Between(j: int, n: int) { j != 0 && -n < j < n }

  lemma NotMultiple(j: int, n: int)
    requires n > 0 && Between(j, n)
    ensures j % n != 0
  {}

  /** The incomplete addition is the addition, on multiples that n keeps apart. */
  lemma IncompleteAdds<G(!new)>(g: Group<G>, inc: (G, G) -> G, p: G, n: int, j: int, k: int)
    requires Abelian(g) && Incomplete(g, inc) && (p == g.zero || OrderAtLeast(g, p, n))
    requires Between(j, n) && Between(k, n) && Between(j - k, n) && Between(j + k, n)
    ensures inc(Times(g, j, p), Times(g, k, p)) == Times(g, j + k, p)
  {
    TimesAdd(g, j, k, p);
    if p == g.zero {
      TimesOfZero(g, j);
      TimesOfZero(g, k);
      TimesOfZero(g, j + k);
    } else {
      NotMultiple(j, n);
      NotMultiple(k, n);
      NotMultiple(j - k, n);
      NotMultiple(j + k, n);
      if Times(g, j, p) == Times(g, k, p) { SameMultiple(g, j, k, p); }
      TimesNeg(g, k, p);
      if Times(g, j, p) == Times(g, -k, p) { SameMultiple(g, j, -k, p); }
    }
  }

  /** A digit is odd and below 2^w in size. */
  lemma DigitShape(k: nat, low: nat, bits: nat, top: bool)
    requires bits > 0
    ensures DigitAt(k, low, bits, top) % 2 != 0 && -Shl(1, bits) < DigitAt(k, low, bits, top) < Shl(1, bits)
  {
    LowBitsBound(Shr(k, low + 1), bits - 1);
    ShlIsMul(1, bits);
    assert Pow(2, bits) == 2 * Pow(2, bits - 1);
    assert Shl(1, bits) == 2 * Shl(1, bits - 1);
  }

  /** The digits from window i up, as the walk from the top accumulates them. */
  ghost function TopSum(k: nat, i: nat, bits: nat, windows: nat): int
    requires bits > 0
    decreases windows - i
  {
    if i >= windows then 0 else Shl(TopSum(k, i + 1, bits, windows), bits) + DigitOf(k, i, bits, windows)
  }

  lemma {:induction false} TopSumTotal(k: nat, i: nat, bits: nat, windows: nat)
    requires bits > 0 && i <= windows
    ensures DigitSum(k, i, bits, windows) + Shl(TopSum(k, i, bits, windows), Low(bits, i))
            == DigitSum(k, windows, bits, windows)
    decreases windows - i
  {
    if i == windows {
      ShlAdd(0, 0, Low(bits, i));
    } else {
      TopSumTotal(k, i + 1, bits, windows);
      var t := TopSum(k, i + 1, bits, windows);
      ShlAdd(Shl(t, bits), DigitOf(k, i, bits, windows), Low(bits, i));
      ShlShl(t, bits, Low(bits, i));
    }
  }

  /** From window i up the sum is odd and below 2^(w (windows - i)) in size. */
  lemma {:induction false} TopSumShape(k: nat, i: nat, bits: nat, windows: nat)
    requires bits > 0 && i < windows
    ensures var t, size := TopSum(k, i, bits, windows), Shl(1, Low(bits, windows - i));
            t % 2 != 0 && -size < t < size
    decreases windows - i
  {
    DigitShape(k, Low(bits, i), bits, i + 1 >= windows);
    var t, size := TopSum(k, i + 1, bits, windows), Shl(1, Low(bits, windows - i - 1));
    if i + 1 < windows { TopSumShape(k, i + 1, bits, windows); }
    ScaledBound(t, size, bits);
    if t != 0 { ScaledEven(t, bits); } else { ShlAdd(0, 0, bits); }
    ShlShl(1, Low(bits, windows - i - 1), bits);
  }

  lemma ScaledBound(t: int, size: int, bits: nat)
    requires -size < t < size
    ensures -Shl(size, bits) + Shl(1, bits) <= Shl(t, bits) <= Shl(size, bits) - Shl(1, bits)
  {}

  /** A nonzero number shifted up is nonzero, and even. */
  lemma {:induction false} ScaledEven(t: int, bits: nat)
    requires t != 0
    ensures Shl(t, bits) != 0 && (bits > 0 ==> Shl(t, bits) % 2 == 0)
  {
    if bits > 0 {
      ScaledEven(t, bits - 1);
      var half := Shl(t, bits - 1);
      assert Shl(t, bits) == 2 * half;
    }
  }

  /** An odd x and an even, nonzero y whose sizes add up to less than n. */
  lemma OddAndEven(x: int, y: int, size: int, n: int)
    requires x % 2 != 0 && -size < x < size && y % 2 == 0 && y != 0 && -n + size <= y <= n - size
    ensures Between(x, n) && Between(y, n) && Between(x - y, n) && Between(x + y, n) && Between(y - x, n)
            && Between(y + x, n)
  {}

  lemma {:induction false} ShlOneMonotone(i: nat, j: nat)
    requires i <= j
    ensures 0 < Shl(1, i) <= Shl(1, j)
  {
    if i == j {
      if i > 0 { ShlOneMonotone(i - 1, i - 1); }
    } else {
      ShlOneMonotone(i, j - 1);
    }
  }

  /** At window i the running sum and the entry, added and subtracted, stay off the multiples of n. */
  lemma WindowApart(k: nat, i: nat, bits: nat, windows: nat, n: int)
    requires bits > 0 && 1 <= i && i + 1 < windows && Shl(1, Low(bits, windows - 1)) <= n
    ensures var t, d := Shl(TopSum(k, i + 1, bits, windows), bits), DigitOf(k, i, bits, windows);
            Between(t, n) && Between(d, n) && Between(t - d, n) && Between(t + d, n)
  {
    var t, size := TopSum(k, i + 1, bits, windows), Shl(1, Low(bits, windows - i - 1));
    TopSumShape(k, i + 1, bits, windows);
    DigitShape(k, Low(bits, i), bits, false);
    ScaledBound(t, size, bits);
    ScaledEven(t, bits);
    ShlShl(1, Low(bits, windows - i - 1), bits);
    LowMonotone(bits, windows - i, windows - 1);
    ShlOneMonotone(Low(bits, windows - i), Low(bits, windows - 1));
    OddAndEven(DigitOf(k, i, bits, windows), Shl(t, bits), Shl(1, bits), n);
  }

  /** The odd multiples p, 3p, 5p and so on, each from the one before by an incomplete addition of 2p. */
  method OddMultiples<G(!new)>(g: Group<G>, inc: (G, G) -> G, p: G, entries: nat, ghost n: int)
    returns (multiple: seq<G>)
    requires Abelian(g) && Incomplete(g, inc) && (p == g.zero || OrderAtLeast(g, p, n))
    requires 0 < entries && 2 * entries <= n
    ensures |multiple| == entries
    ensures forall j :: 0 <= j < entries ==> multiple[j] == Times(g, 2 * j + 1, p)
  {
    Unit(g, p);
    assert Times(g, 1, p) == g.add(Times(g, 0, p), p);
    TimesAdd(g, 1, 1, p);
    var twice := g.add(p, p);
    multiple := [p];
    for i := 1 to entries
      invariant |multiple| == i
      invariant forall j :: 0 <= j < i ==> multiple[j] == Times(g, 2 * j + 1, p)
    {
      IncompleteAdds(g, inc, p, n, 2 * (i - 1) + 1, 2);
      multiple := multiple + [inc(multiple[i - 1], twice)];
    }
  }

  /** A row of odd multiples of q, shifted: entry j is (2j + 1) 2^shift q. */
  ghost predicate IsRow<G>(g: Group<G>, row: seq<G>, bits: nat, shift: nat, q: G)
    requires bits > 0
  {
    |row| == Pow(2, bits - 1) && forall j :: 0 <= j < |row| ==> row[j] == Times(g, Shl(2 * j + 1, shift), q)
  }

  /** What one window adds: the multiple at the digit's index, negated for a negative digit. */
  method DigitMultiple<G(!new)>(g: Group<G>, multiple: seq<G>, k: seq<Word>, window: nat, bits: nat, windows: nat,
                                ghost q: G, ghost shift: nat)
    returns (entry: G)
    requires Abelian(g) && Covers(32 * |k|, bits, windows) && window < windows && bits <= 64
    requires IsRow(g, multiple, bits, shift, q)
    ensures entry == Times(g, Shl(DigitOf(Value(k), window, bits, windows), shift), q)
  {
    var index, negative := WindowDigit(k, window, bits, windows);
    entry := multiple[index];
    if negative != 0 {
      TimesNeg(g, Shl(2 * index + 1, shift), q);
      ShlAdd(0, 2 * index + 1, shift);
      ShlAdd(0, 0, shift);
      entry := g.neg(entry);
    }
  }

  method DoubleWindow<G(!new)>(g: Group<G>, s: G, bits: nat, ghost t: int, ghost p: G) returns (o: G)
    requires Abelian(g) && s == Times(g, t, p)
    ensures o == Times(g, Shl(t, bits), p)
  {
    o := s;
    for i := 0 to bits
      invariant o == Times(g, Shl(t, i), p)
    {
      TimesAdd(g, Shl(t, i), Shl(t, i), p);
      o := g.add(o, o);
    }
  }

  /** From (k | 1) P to k P: one subtraction of P when k is even. */
  method Correct<G(!new)>(g: Group<G>, total: G, k: seq<Word>, p: G) returns (o: G)
    requires Abelian(g) && k != [] && total == Times(g, OddOf(Value(k)), p)
    ensures o == Times(g, Value(k), p)
  {
    var corrected := g.add(total, g.neg(p));
    var bit := ScalarBit(k, 0);
    o := if bit == 0 then corrected else total;
    TimesNext(g, OddOf(Value(k)) - 1, p);
    var before := Times(g, OddOf(Value(k)) - 1, p);
    Assoc(g, before, p, g.neg(p));
    Unit(g, p);
    Unit(g, before);
    assert Shr(Value(k), 0) == Value(k);
  }

  /** p256_wide_mul: k p for every scalar k and for the point at infinity too, although every
      addition but the last two is incomplete. */
  method WindowMul<G(!new)>(g: Group<G>, inc: (G, G) -> G, k: seq<Word>, p: G, bits: nat, windows: nat, ghost n: int)
    returns (o: G)
    requires Abelian(g) && Incomplete(g, inc) && (p == g.zero || OrderAtLeast(g, p, n))
    requires Covers(32 * |k|, bits, windows) && 2 <= bits <= 64 && 2 <= windows
    requires Shl(1, Low(bits, windows - 1)) <= n
    ensures o == Times(g, Value(k), p)
  {
    ghost var kv := Value(k);
    EntriesFit(bits, windows, n);
    var multiple := OddMultiples(g, inc, p, Pow(2, bits - 1), n);
    assert IsRow(g, multiple, bits, 0, p);
    var sum := DigitMultiple(g, multiple, k, windows - 1, bits, windows, p, 0);
    TopDigit(kv, bits, windows);
    var window := windows - 1;
    while window > 1
      invariant 1 <= window < windows
      invariant sum == Times(g, TopSum(kv, window, bits, windows), p)
    {
      window := window - 1;
      sum := WindowStep(g, inc, multiple, sum, k, p, window, bits, windows, n);
    }
    sum := DoubleWindow(g, sum, bits, TopSum(kv, 1, bits, windows), p);
    var last := DigitMultiple(g, multiple, k, 0, bits, windows, p, 0);
    TimesAdd(g, Shl(TopSum(kv, 1, bits, windows), bits), DigitOf(kv, 0, bits, windows), p);
    WholeSum(k, bits, windows);
    o := Correct(g, g.add(sum, last), k, p);
  }

  /** One window of the walk: the doublings, then the window's entry by an incomplete addition. */
  method WindowStep<G(!new)>(g: Group<G>, inc: (G, G) -> G, multiple: seq<G>, s: G, k: seq<Word>, p: G,
                             window: nat, bits: nat, windows: nat, ghost n: int)
    returns (o: G)
    requires Abelian(g) && Incomplete(g, inc) && (p == g.zero || OrderAtLeast(g, p, n))
    requires Covers(32 * |k|, bits, windows) && bits <= 64 && 1 <= window && window + 1 < windows
    requires Shl(1, Low(bits, windows - 1)) <= n && IsRow(g, multiple, bits, 0, p)
    requires s == Times(g, TopSum(Value(k), window + 1, bits, windows), p)
    ensures o == Times(g, TopSum(Value(k), window, bits, windows), p)
  {
    ghost var t, d := TopSum(Value(k), window + 1, bits, windows), DigitOf(Value(k), window, bits, windows);
    var sum := DoubleWindow(g, s, bits, t, p);
    var entry := DigitMultiple(g, multiple, k, window, bits, windows, p, 0);
    WindowApart(Value(k), window, bits, windows, n);
    IncompleteAdds(g, inc, p, n, Shl(t, bits), d);
    o := inc(sum, entry);
  }

  lemma EntriesFit(bits: nat, windows: nat, n: int)
    requires 2 <= bits && 2 <= windows && Shl(1, Low(bits, windows - 1)) <= n
    ensures 0 < Pow(2, bits - 1) && 2 * Pow(2, bits - 1) <= n
  {
    PowPositive(2, bits - 1);
    ShlIsMul(1, bits);
    LowMonotone(bits, 1, windows - 1);
    assert Low(bits, 1) == Low(bits, 0) + bits;
    ShlOneMonotone(bits, Low(bits, windows - 1));
  }

  lemma TopDigit(k: nat, bits: nat, windows: nat)
    requires bits > 0 && windows > 0
    ensures TopSum(k, windows - 1, bits, windows) == DigitOf(k, windows - 1, bits, windows)
  {
    ShlAdd(0, 0, bits);
    assert TopSum(k, windows, bits, windows) == 0;
  }

  lemma WholeSum(k: seq<Word>, bits: nat, windows: nat)
    requires Covers(32 * |k|, bits, windows)
    ensures TopSum(Value(k), 0, bits, windows) == OddOf(Value(k))
  {
    Field.NoBitsLeft(k);
    DigitsSum(Value(k), 32 * |k|, bits, windows);
    TopSumTotal(Value(k), 0, bits, windows);
  }

  /** Below window i the digits sum to an odd number smaller than the window's weight. */
  lemma DigitSumShape(k: nat, i: nat, bits: nat, windows: nat)
    requires bits > 0 && 1 <= i < windows
    ensures var s, size := DigitSum(k, i, bits, windows), Shl(1, Low(bits, i));
            s % 2 != 0 && -size < s < size
  {
    PartialSum(k, i, bits, windows);
    OddLowBits(OddOf(k), Low(bits, i));
    ScaledEven(1, Low(bits, i));
  }

  lemma OddLowBits(x: nat, low: nat)
    requires x % 2 == 1
    ensures LowBits(x, low + 1) % 2 == 1 && 0 < LowBits(x, low + 1) < 2 * Shl(1, low)
  {
    assert LowBits(x, low + 1) == 1 + 2 * LowBits(x / 2, low);
    LowBitsBound(x / 2, low);
    ShlIsMul(1, low);
  }

  /** The window's entry d 2^low and the sum below it are kept apart from the multiples of n. */
  lemma TableApart(k: nat, i: nat, bits: nat, windows: nat, n: int)
    requires bits > 0 && 1 <= i && i + 1 < windows && Shl(1, Low(bits, windows - 1)) <= n
    ensures var s, e := DigitSum(k, i, bits, windows), Shl(DigitOf(k, i, bits, windows), Low(bits, i));
            Between(s, n) && Between(e, n) && Between(s - e, n) && Between(s + e, n)
  {
    WeightFits(i, bits, windows, n);
    DigitSumShape(k, i, bits, windows);
    DigitShape(k, Low(bits, i), bits, false);
    EntryApart(DigitSum(k, i, bits, windows), DigitOf(k, i, bits, windows), bits, Low(bits, i), n);
  }

  lemma WeightFits(i: nat, bits: nat, windows: nat, n: int)
    requires bits > 0 && 1 <= i && i + 1 < windows && Shl(1, Low(bits, windows - 1)) <= n
    ensures 0 < Low(bits, i) && Shl(1, Low(bits, i) + bits) <= n
  {
    assert Low(bits, i + 1) == Low(bits, i) + bits;
    LowMonotone(bits, i + 1, windows - 1);
    ShlOneMonotone(Low(bits, i + 1), Low(bits, windows - 1));
  }

  lemma EntryApart(s: int, d: int, bits: nat, low: nat, n: int)
    requires low > 0 && s % 2 != 0 && -Shl(1, low) < s < Shl(1, low)
    requires d != 0 && -Shl(1, bits) < d < Shl(1, bits) && Shl(1, low + bits) <= n
    ensures var e := Shl(d, low); Between(s, n) && Between(e, n) && Between(s - e, n) && Between(s + e, n)
  {
    ScaledBound(d, Shl(1, bits), low);
    ScaledEven(d, low);
    ShlShl(1, bits, low);
    OddAndEven(s, Shl(d, low), Shl(1, low), n);
  }

  /** p256_wide_base_mul: k times the generator from a table of its odd multiples at every window's
      weight, with incomplete additions below the top window. */
  method TableMul<G(!new)>(g: Group<G>, inc: (G, G) -> G, k: seq<Word>, base: G, table: seq<seq<G>>, bits: nat,
                           ghost n: int)
    returns (o: G)
    requires Abelian(g) && Incomplete(g, inc) && (base == g.zero || OrderAtLeast(g, base, n))
    requires Covers(32 * |k|, bits, |table|) && bits <= 64 && 2 <= |table|
    requires Shl(1, Low(bits, |table| - 1)) <= n
    requires forall w :: 0 <= w < |table| ==> IsRow(g, table[w], bits, Low(bits, w), base)
    ensures o == Times(g, Value(k), base)
  {
    ghost var kv := Value(k);
    var windows := |table|;
    var sum := DigitMultiple(g, table[0], k, 0, bits, windows, base, Low(bits, 0));
    FirstDigit(kv, bits, windows);
    for window := 1 to windows - 1
      invariant sum == Times(g, DigitSum(kv, window, bits, windows), base)
    {
      sum := TableStep(g, inc, table[window], sum, k, base, window, bits, windows, n);
    }
    var top := DigitMultiple(g, table[windows - 1], k, windows - 1, bits, windows, base, Low(bits, windows - 1));
    TopRow(g, k, base, bits, windows);
    o := Correct(g, g.add(sum, top), k, base);
  }

  lemma TopRow<G(!new)>(g: Group<G>, k: seq<Word>, base: G, bits: nat, windows: nat)
    requires Abelian(g) && Covers(32 * |k|, bits, windows)
    ensures var w := windows - 1;
            g.add(Times(g, DigitSum(Value(k), w, bits, windows), base),
                  Times(g, Shl(DigitOf(Value(k), w, bits, windows), Low(bits, w)), base))
            == Times(g, OddOf(Value(k)), base)
  {
    var kv, w := Value(k), windows - 1;
    TimesAdd(g, DigitSum(kv, w, bits, windows), Shl(DigitOf(kv, w, bits, windows), Low(bits, w)), base);
    Field.NoBitsLeft(k);
    DigitsSum(kv, 32 * |k|, bits, windows);
  }

  method TableStep<G(!new)>(g: Group<G>, inc: (G, G) -> G, row: seq<G>, s: G, k: seq<Word>, base: G,
                            window: nat, bits: nat, windows: nat, ghost n: int)
    returns (o: G)
    requires Abelian(g) && Incomplete(g, inc) && (base == g.zero || OrderAtLeast(g, base, n))
    requires Covers(32 * |k|, bits, windows) && bits <= 64 && 1 <= window && window + 1 < windows
    requires Shl(1, Low(bits, windows - 1)) <= n && IsRow(g, row, bits, Low(bits, window), base)
    requires s == Times(g, DigitSum(Value(k), window, bits, windows), base)
    ensures o == Times(g, DigitSum(Value(k), window + 1, bits, windows), base)
  {
    var entry := DigitMultiple(g, row, k, window, bits, windows, base, Low(bits, window));
    ghost var kv, low := Value(k), Low(bits, window);
    TableApart(kv, window, bits, windows, n);
    IncompleteAdds(g, inc, base, n, DigitSum(kv, window, bits, windows), Shl(DigitOf(kv, window, bits, windows), low));
    o := inc(s, entry);
  }

  lemma FirstDigit(k: nat, bits: nat, windows: nat)
    requires bits > 0
    ensures DigitSum(k, 1, bits, windows) == Shl(DigitOf(k, 0, bits, windows), Low(bits, 0))
  {}

  /** The two shipped shapes: 64 four-bit windows and 43 six-bit windows over 256 bits. */
  lemma ShippedWindows()
    ensures Covers(256, 4, 64) && Covers(256, 6, 43)
    ensures Low(4, 63) == 252 && Low(6, 42) == 252
  {
    LowIsProduct(4, 63);
    LowIsProduct(4, 64);
    LowIsProduct(6, 42);
    LowIsProduct(6, 43);
  }
}
