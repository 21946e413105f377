/** The word-by-word (CIOS) Montgomery product of src/p256_field.c and src/p256_scalar.c, for any
    word count and any odd modulus: no carry wraps, the value at loop exit is below twice the
    modulus, and one conditional subtraction leaves a b / R modulo m. */
module Montgomery {
  import opened Arith
  import opened Words
  import opened WideMul

  /** One multiply-accumulate: the 64-bit sum does not wrap and its carry is one word. */
  method MacWord(x: Word, y: Word, t: Word, c: Word) returns (low: Word, high: Word)
    ensures x * y + t + c == low + BASE * high
  {
    var v := U64(Wide(x, y) + t + c);
    MacFits(x, y, t, c);
    low, high := U32(v), v / BASE;
  }

  lemma MacFits(x: Word, y: Word, t: Word, c: Word)
    ensures U64(x * y + t + c) == x * y + t + c < BASE * BASE
    ensures (x * y + t + c) / BASE < BASE
  {
    MulLe(x, BASE - 1, y);
    MulLe(0, x, y);
    DivUnique(x * y + t + c, 0x1_0000_0000_0000_0000, 0, x * y + t + c);
  }

  lemma {:induction false} ScaleMul(x: int, y: int, n: nat)
    ensures Scale(x * y, n) == x * Scale(y, n)
  {
    if n > 0 { ScaleMul(x, y, n - 1); }
  }

  /** One word of a pass, on values: the low words lo and the carry stand for t + x b below word j. */
  lemma MacValues(tv: seq<Word>, bv: seq<Word>, j: nat, x: Word, lo: int, c0: Word, r: Word, c: Word)
    requires j < |tv| && j < |bv|
    requires lo + Scale(c0, j) == Value(tv[..j]) + x * Value(bv[..j])
    requires x * bv[j] + tv[j] + c0 == r + BASE * c
    ensures lo + Scale(r, j) + Scale(c, j + 1) == Value(tv[..j + 1]) + x * Value(bv[..j + 1])
  {
    ValueStep(tv, j);
    ValueStep(bv, j);
    Distribute(x, Value(bv[..j]), Scale(bv[j], j));
    ScaleMul(x, bv[j], j);
    MacScales(x * bv[j], tv[j], c0, r, c, j);
  }

  lemma MacScales(xy: int, t: int, c0: int, r: int, c: int, j: nat)
    requires xy + t + c0 == r + BASE * c
    ensures Scale(r, j) + Scale(c, j + 1) == Scale(xy, j) + Scale(t, j) + Scale(c0, j)
  {
    ScaleAdd(xy, t, j);
    ScaleAdd(xy + t, c0, j);
    ScaleAdd(r, BASE * c, j);
    ScaleUp(c, j);
  }

  /** The inner loop of a round: adds x b into the low words of t and returns the carry. */
  method MultiplyLoop(t: array<Word>, x: Word, b: array<Word>) returns (carry: Word)
    requires t.Length == b.Length + 2
    modifies t
    ensures Value(t[..b.Length]) + Scale(carry, b.Length) == old(Value(t[..b.Length])) + x * old(Value(b[..]))
    ensures t[b.Length..] == old(t[b.Length..])
  {
    ghost var n, tv, bv := b.Length, t[..], b[..];
    carry := 0;
    for j := 0 to b.Length
      invariant MultipliedTo(t[..], tv, bv, x, carry, j)
      invariant t != b ==> b[..] == bv
    {
      ghost var before, carryIn := t[..], carry;
      assert t[j] == t[j..][0] == tv[j];
      var low, high := MacWord(x, b[j], t[j], carry);
      t[j] := low;
      carry := high;
      assert t[..] == before[j := low];
      MultipliedOn(before, tv, bv, x, carryIn, j, low, high);
    }
    assert bv[..n] == bv;
  }

  /** j words of a multiplication, with the carry out of them, and the words above as they were. */
  ghost predicate MultipliedTo(s: seq<Word>, t: seq<Word>, b: seq<Word>, x: Word, c: Word, j: nat) {
    && j <= |b| && |s| == |t| == |b| + 2 && s[j..] == t[j..]
    && Value(s[..j]) + Scale(c, j) == Value(t[..j]) + x * Value(b[..j])
  }

  lemma MultipliedOn(s: seq<Word>, t: seq<Word>, b: seq<Word>, x: Word, c0: Word, j: nat, r: Word, c: Word)
    requires j < |b| && MultipliedTo(s, t, b, x, c0, j) && x * b[j] + t[j] + c0 == r + BASE * c
    ensures MultipliedTo(s[j := r], t, b, x, c, j + 1)
  {
    var o := s[j := r];
    assert o[..j + 1][..j] == s[..j] && o[j + 1..] == s[j..][1..] && t[j + 1..] == t[j..][1..];
    ValueStep(o, j);
    assert o[..j] == s[..j];
    MacValues(t, b, j, x, Value(s[..j]), c0, r, c);
  }

  /** The two words above n of an (n + 2)-word value. */
  lemma TopWords(s: seq<Word>, n: nat)
    requires |s| == n + 2
    ensures Value(s) == Value(s[..n]) + Scale(s[n], n) + Scale(s[n + 1], n + 1)
  {
    ValueStep(s, n);
    ValueStep(s, n + 1);
    assert s[..n + 2] == s;
  }

  /** The tail of a pass, t[n] + carry, spills at most one bit. */
  method TailWord(x: Word, carry: Word) returns (low: Word, high: Word)
    ensures high <= 1 && x + carry == low + BASE * high
  {
    var v := U64(x as int + carry);
    low, high := U32(v), v / BASE;
  }

  /** Adds x b into t, whose top word is free. */
  method MultiplyPass(t: array<Word>, x: Word, b: array<Word>)
    requires t.Length == b.Length + 2 && t[b.Length + 1] == 0
    modifies t
    ensures Value(t[..]) == old(Value(t[..])) + x * old(Value(b[..]))
    ensures t[b.Length + 1] <= 1
  {
    var n := b.Length;
    ghost var tv, xb := t[..], x * Value(b[..]);
    assert tv[..n] == t[..n] && tv[n..] == t[n..];
    var carry := MultiplyLoop(t, x, b);
    ghost var s := t[..];
    assert s[..n] == t[..n] && s[n] == tv[n..][0] && s[n + 1] == tv[n..][1];
    var low, high := TailWord(t[n], carry);
    t[n] := low;
    t[n + 1] := high;
    MultiplyTail(s, tv, t[..], n, carry, xb);
  }

  lemma MultiplyTail(s: seq<Word>, tv: seq<Word>, o: seq<Word>, n: nat, c: Word, xb: int)
    requires |s| == |tv| == |o| == n + 2 && o[..n] == s[..n] && tv[n + 1] == 0
    requires Value(s[..n]) + Scale(c, n) == Value(tv[..n]) + xb
    requires tv[n] + c == o[n] + BASE * o[n + 1]
    ensures Value(o) == Value(tv) + xb
  {
    TopWords(o, n);
    TopWords(tv, n);
    ScaleZero(n + 1);
    ScaleAdd(tv[n], c, n);
    ScaleAdd(o[n], BASE * o[n + 1], n);
    ScaleUp(o[n + 1], n);
  }

  /** The multiplier u that clears the low word, and the carry of the first fold. */
  method FirstFold(t0: Word, m0: Word, inv: Word) returns (u: Word, first: Word)
    requires (m0 * inv + 1) % BASE == 0
    ensures u * m0 + t0 == BASE * first
  {
    u := U32(Wide(t0, inv));
    var low, high := MacWord(u, m0, t0, 0);
    FoldClears(t0, m0, inv, low, high);
    first := high;
  }

  lemma FoldClears(t0: Word, m0: Word, inv: Word, low: Word, high: Word)
    requires (m0 * inv + 1) % BASE == 0 && U32(t0 * inv) * m0 + t0 == low + BASE * high
    ensures low == 0
  {
    var u := U32(t0 * inv);
    TruncCong(t0 * inv);
    CongMul(u, t0 * inv, m0, m0, BASE);
    CongAdd(u * m0, t0 * inv * m0, t0, t0, BASE);
    CongMul(t0, t0, m0 * inv + 1, 0, BASE);
    assert t0 * inv * m0 + t0 == t0 * (m0 * inv + 1) by { MulAssoc(t0, inv, m0); Distribute(t0, inv * m0, 1); }
    CongTrans(u * m0 + t0, t0 * (m0 * inv + 1), 0, BASE);
    DivUnique(u * m0 + t0, BASE, high, low);
  }

  /** The inner loop of a reduction: t + u m, one word down, with the carry left over. */
  method ReduceLoop(t: array<Word>, u: Word, m: array<Word>, first: Word) returns (carry: Word)
    requires 0 < m.Length && t.Length == m.Length + 2 && t != m
    requires u * m[0] + t[0] == BASE * first
    modifies t
    ensures BASE * Value(t[..m.Length - 1]) + Scale(carry, m.Length) == old(Value(t[..m.Length])) + u * Value(m[..])
    ensures t[m.Length..] == old(t[m.Length..])
  {
    ghost var n, tv, mv := m.Length, t[..], m[..];
    carry := first;
    LowestWords(tv, mv, u);
    for j := 1 to m.Length
      invariant ReducedTo(t[..], tv, mv, u, carry, j)
    {
      ghost var before, carryIn := t[..], carry;
      assert t[j] == t[j..][0] == tv[j];
      var low, high := MacWord(u, m[j], t[j], carry);
      t[j - 1] := low;
      carry := high;
      assert t[..] == before[j - 1 := low];
      ReducedOn(before, tv, mv, u, carryIn, j, low, high);
    }
    assert mv[..n] == mv;
  }

  /** j words of a reduction: one word down, with the carry out of them, and the words above as they were. */
  ghost predicate ReducedTo(s: seq<Word>, t: seq<Word>, m: seq<Word>, u: Word, c: Word, j: nat) {
    && 1 <= j <= |m| && |s| == |t| == |m| + 2 && s[j..] == t[j..]
    && BASE * Value(s[..j - 1]) + Scale(c, j) == Value(t[..j]) + u * Value(m[..j])
  }

  lemma ReducedOn(s: seq<Word>, t: seq<Word>, m: seq<Word>, u: Word, c0: Word, j: nat, r: Word, c: Word)
    requires j < |m| && ReducedTo(s, t, m, u, c0, j) && u * m[j] + t[j] + c0 == r + BASE * c
    ensures ReducedTo(s[j - 1 := r], t, m, u, c, j + 1)
  {
    OneWordDown(s, j - 1, r);
    assert s[j + 1..] == s[j..][1..] && t[j + 1..] == t[j..][1..];
    MacValues(t, m, j, u, BASE * Value(s[..j - 1]), c0, r, c);
  }

  lemma OneWordDown(s: seq<Word>, i: nat, r: Word)
    requires i < |s|
    ensures BASE * Value(s[i := r][..i + 1]) == BASE * Value(s[..i]) + Scale(r, i + 1)
    ensures i + 2 <= |s| ==> s[i := r][i + 2..] == s[i + 2..]
  {
    ValueStep(s[i := r], i);
    assert s[i := r][..i] == s[..i];
  }

  lemma LowestWords(t: seq<Word>, m: seq<Word>, u: Word)
    requires t != [] && m != []
    ensures Value(t[..1]) + u * Value(m[..1]) == t[0] + u * m[0]
  {
    ValueStep(t, 0);
    ValueStep(m, 0);
  }

  /** The tail of a reduction: the carry and the two top words move down one word. */
  method ShiftTail(t: array<Word>, n: nat, carry: Word)
    requires 0 < n && t.Length == n + 2 && t[n + 1] <= 1
    modifies t
    ensures BASE * Value(t[..]) == BASE * old(Value(t[..n - 1])) + Scale(carry, n)
                                   + Scale(old(t[n]), n) + Scale(old(t[n + 1]), n + 1)
    ensures t[n + 1] == 0
  {
    ghost var s := t[..];
    var low, high := TailWord(t[n], carry);
    t[n - 1] := low;
    t[n] := U32(t[n + 1] + high);
    t[n + 1] := 0;
    Fits(s[n + 1] + high);
    assert t[..] == s[..n - 1] + [low, s[n + 1] + high, 0] && s[..n - 1] == old(t[..n - 1]);
    ShiftedWords(s[..n - 1], low, high, s[n], s[n + 1], carry);
  }

  lemma ShiftedWords(low: seq<Word>, r: Word, c': Word, tn: Word, top: Word, c: Word)
    requires tn + c == r + BASE * c' && top + c' < BASE
    ensures var n := |low| + 1;
            BASE * Value(low + [r, top + c', 0]) == BASE * Value(low) + Scale(c, n) + Scale(tn, n) + Scale(top, n + 1)
  {
    var n := |low| + 1;
    var o := low + [r, top + c', 0];
    assert o[..n][..n - 1] == low;
    TopWords(o, n);
    ScaleZero(n + 1);
    ScaleAdd(tn, c, n);
    ScaleAdd(r, BASE * c', n);
    ScaleUp(c', n);
    ScaleAdd(top, c', n + 1);
  }

  /** A reduction pass: t and some multiple of m make BASE times the new t. */
  method ReducePass(t: array<Word>, m: array<Word>, inv: Word) returns (ghost u: Word)
    requires 0 < m.Length && t.Length == m.Length + 2 && t != m && t[m.Length + 1] <= 1
    requires (m[0] * inv + 1) % BASE == 0
    modifies t
    ensures BASE * Value(t[..]) == old(Value(t[..])) + u * Value(m[..])
    ensures t[m.Length + 1] == 0
  {
    var n := m.Length;
    ghost var tv := t[..];
    TopWords(tv, n);
    assert tv[..n] == t[..n] && tv[n] == t[n..][0] && tv[n + 1] == t[n..][1];
    var w, first := FirstFold(t[0], m[0], inv);
    u := w;
    var carry := ReduceLoop(t, w, m, first);
    assert t[n] == t[n..][0] && t[n + 1] == t[n..][1];
    ShiftTail(t, n, carry);
  }

  /** The invariant of the rounds: t BASE^i = (the low i words of a) b + k m, with k below BASE^i. */
  ghost predicate AfterRounds(t: int, i: nat, low: int, b: int, k: int, m: int) {
    Scale(t, i) == low * b + k * m && 0 <= k < Radix(i)
  }

  lemma NextRound(t: int, t': int, i: nat, a: seq<Word>, b: int, k: int, u: Word, m: int)
    requires i < |a| && AfterRounds(t, i, Value(a[..i]), b, k, m) && BASE * t' == t + a[i] * b + u * m
    ensures AfterRounds(t', i + 1, Value(a[..i + 1]), b, k + Scale(u, i), m)
  {
    ValueStep(a, i);
    WordWeight(k, u, i);
    NextSum(t, t', i, Value(a[..i]), a[i], Value(a[..i + 1]), b, k, u, k + Scale(u, i), m);
  }

  lemma NextSum(t: int, t': int, i: nat, low: int, x: int, low': int, b: int, k: int, u: int, k': int, m: int)
    requires Scale(t, i) == low * b + k * m && BASE * t' == t + x * b + u * m
    requires low' == low + Scale(x, i) && k' == k + Scale(u, i)
    ensures Scale(t', i + 1) == low' * b + k' * m
  {
    RoundScales(t, t', i, x * b, u * m);
    MoreOf(low, x, i, b);
    MoreOf(k, u, i, m);
  }

  lemma MoreOf(x: int, w: int, i: nat, y: int)
    ensures (x + Scale(w, i)) * y == x * y + Scale(w * y, i)
  {
    ScaledProduct(w, y, i);
    AddProducts(x, Scale(w, i), y);
  }

  lemma RoundScales(t: int, t': int, i: nat, xb: int, um: int)
    requires BASE * t' == t + xb + um
    ensures Scale(t', i + 1) == Scale(t, i) + Scale(xb, i) + Scale(um, i)
  {
    ScaleUp(t', i);
    ScaleAdd(t, xb, i);
    ScaleAdd(t + xb, um, i);
  }

  lemma ScaledProduct(x: int, y: int, n: nat)
    ensures Scale(x * y, n) == Scale(x, n) * y
  {
    ScaleMul(y, x, n);
  }

  lemma AddProducts(x: int, y: int, z: int)
    ensures (x + y) * z == x * z + y * z
  {}

  lemma WordWeight(k: int, u: Word, i: nat)
    requires 0 <= k < Radix(i)
    ensures 0 <= k + Scale(u, i) < Radix(i + 1)
  {
    ScaleLe(0, u, i);
    ScaleZero(i);
    ScaleLe(u, BASE - 1, i);
    ScaleAdd(BASE * 1, 1, i);
    ScaleUp(1, i);
  }

  /** The invariant bounds t by b + m. */
  lemma RoundBound(t: int, i: nat, a: int, b: int, k: int, m: int)
    requires AfterRounds(t, i, a, b, k, m) && 0 <= a < Radix(i) && 0 <= b && 0 < m
    ensures t < b + m
  {
    var p := Radix(i);
    ScaleIsMul(t, i);
    assert a * b <= p * b - b by { MulLe(a, p - 1, b); AddProducts(p, -1, b); }
    assert k * m <= p * m - m by { MulLe(k, p - 1, m); AddProducts(p, -1, m); }
    assert t * p < (b + m) * p by { AddProducts(b, m, p); }
    RadixPositive(i);
    Cancel(t, b + m, p);
  }

  lemma Cancel(x: int, y: int, p: int)
    requires x * p < y * p && p > 0
    ensures x < y
  {
    if y <= x { MulLe(y, x, p); }
  }

  /** An (n + 2)-word value below 2 R with a clear top word has at most one bit above n. */
  lemma OverflowBit(s: seq<Word>, n: nat)
    requires |s| == n + 2 && s[n + 1] == 0 && Value(s) < 2 * Radix(n)
    ensures s[n] <= 1 && Value(s) == Scale(s[n], n) + Value(s[..n])
  {
    TopWords(s, n);
    ScaleZero(n + 1);
    if s[n] >= 2 {
      ScaleLe(2, s[n], n);
      ScaleAdd(1, 1, n);
    }
  }

  /** One round: t, the word's multiple of b and some multiple of m make BASE times the new t. */
  method Round(t: array<Word>, x: Word, b: array<Word>, m: array<Word>, inv: Word, ghost tv: int, ghost bv: int,
               ghost mv: int)
    returns (ghost u: Word)
    requires 0 < m.Length == b.Length && t.Length == m.Length + 2 && t[m.Length + 1] == 0
    requires (m[0] * inv + 1) % BASE == 0
    requires tv == Value(t[..]) && bv == Value(b[..]) && mv == Value(m[..])
    modifies t
    ensures BASE * Value(t[..]) == tv + x * bv + u * mv && t[m.Length + 1] == 0
  {
    MultiplyPass(t, x, b);
    u := ReducePass(t, m, inv);
  }

  /** The loop over the words of a. */
  method RoundLoop(t: array<Word>, a: array<Word>, b: array<Word>, m: array<Word>, inv: Word,
                   ghost av: seq<Word>, ghost bv: int, ghost mv: int)
    returns (ghost k: int)
    requires 0 < m.Length == a.Length == b.Length && t.Length == m.Length + 2 && t != a && (m[0] * inv + 1) % BASE == 0
    requires av == a[..] && bv == Value(b[..]) && mv == Value(m[..])
    requires Value(t[..]) == 0 && t[m.Length + 1] == 0
    modifies t
    ensures AfterRounds(Value(t[..]), m.Length, Value(av), bv, k, mv) && t[m.Length + 1] == 0
  {
    k := 0;
    for i := 0 to m.Length
      invariant AfterRounds(Value(t[..]), i, Value(av[..i]), bv, k, mv)
      invariant t[m.Length + 1] == 0
    {
      ghost var tv := Value(t[..]);
      ghost var u := Round(t, a[i], b, m, inv, tv, bv, mv);
      NextRound(tv, Value(t[..]), i, av, bv, k, u, mv);
      k := k + Scale(u, i);
    }
    assert av[..m.Length] == av;
  }

  /** mont_mul's rounds, for any operands and modulus of n words: t stays below b + m with at most
      one bit above the n words, and t R = a b + k m for a k below R. */
  method Rounds(a: array<Word>, b: array<Word>, m: array<Word>, inv: Word) returns (t: array<Word>, ghost k: int)
    requires 0 < m.Length == a.Length == b.Length
    requires (m[0] * inv + 1) % BASE == 0
    ensures fresh(t) && t.Length == m.Length + 2 && t[m.Length] <= 1
    ensures var v := Scale(t[m.Length], m.Length) + Value(t[..m.Length]);
            && v < Value(b[..]) + Value(m[..])
            && AfterRounds(v, m.Length, Value(a[..]), Value(b[..]), k, Value(m[..]))
  {
    var n := m.Length;
    t := new Word[n + 2](_ => 0);
    AllZero(t[..]);
    k := RoundLoop(t, a, b, m, inv, a[..], Value(b[..]), Value(m[..]));
    RoundsDone(t[..], a[..], b[..], m[..], inv, k);
    assert t[..][..n] == t[..n];
  }

  lemma RoundsDone(t: seq<Word>, a: seq<Word>, b: seq<Word>, m: seq<Word>, inv: Word, k: int)
    requires 0 < |m| == |a| == |b| && |t| == |m| + 2 && t[|m| + 1] == 0 && (m[0] * inv + 1) % BASE == 0
    requires AfterRounds(Value(t), |m|, Value(a), Value(b), k, Value(m))
    ensures t[|m|] <= 1 && Value(t) == Scale(t[|m|], |m|) + Value(t[..|m|]) < Value(b) + Value(m)
  {
    ModulusPositive(m, inv);
    ValueBound(a);
    ValueBound(b);
    ValueBound(m);
    RoundBound(Value(t), |m|, Value(a), Value(b), k, Value(m));
    OverflowBit(t, |m|);
  }

  lemma ModulusPositive(s: seq<Word>, inv: Word)
    requires s != [] && (s[0] * inv + 1) % BASE == 0
    ensures Value(s) > 0 && Value(s) % 2 == 1
  {
    ValueHead(s);
    OddWord(s[0], inv);
    OddSum(s[0], Value(s[1..]));
  }

  lemma OddSum(x: int, rest: int)
    requires x % 2 == 1
    ensures (x + BASE * rest) % 2 == 1
  {
    assert x + BASE * rest == 2 * (x / 2 + 0x8000_0000 * rest) + 1;
  }

  /** A word with a negated inverse modulo 2^32 is odd. */
  lemma OddWord(x: Word, inv: Word)
    requires (x * inv + 1) % BASE == 0
    ensures x % 2 == 1
  {
    var h, e, q := x / 2, x % 2, (x * inv + 1) / BASE;
    assert x * inv == (2 * h + e) * inv == 2 * (h * inv) + e * inv;
    assert e * inv == 2 * (q * 0x8000_0000 - h * inv) - 1;
  }

  /** o is a b / R modulo m, in [0, m). */
  ghost predicate IsMontgomery(o: int, a: int, b: int, m: int, r: int)
    requires m > 0
  {
    0 <= o < m && Cong(o * r, a * b, m)
  }

  /** p256_fe_mul, p256_scalar's mont_mul: o may alias a or b. */
  method MontMul(o: array<Word>, a: array<Word>, b: array<Word>, m: array<Word>, inv: Word)
    requires 0 < m.Length == a.Length == b.Length == o.Length && o != m
    requires (m[0] * inv + 1) % BASE == 0
    requires Value(b[..]) < Value(m[..])
    modifies o
    ensures IsMontgomery(Value(o[..]), old(Value(a[..])), old(Value(b[..])), Value(m[..]), Radix(m.Length))
  {
    var n := m.Length;
    ghost var av, bv, mv := Value(a[..]), Value(b[..]), Value(m[..]);
    var t;
    ghost var k;
    t, k := Rounds(a, b, m, inv);
    ghost var v, high := Scale(t[n], n) + Value(t[..n]), t[n];
    ValueBound(m[..]);
    BitScale(high, n);
    ReduceOnce(o, t, t[n], m);
    assert Value(o[..]) == if v < mv then v else v - mv;
    FinalValue(v, n, mv, av, bv, k);
  }

  /** One conditional subtraction keeps the class and lands below m. */
  lemma FinalValue(v: int, n: nat, m: int, a: int, b: int, k: int)
    requires 0 < m && 0 <= v < 2 * m && AfterRounds(v, n, a, b, k, m)
    ensures IsMontgomery(if v < m then v else v - m, a, b, m, Radix(n))
  {
    var r := Radix(n);
    ScaleIsMul(v, n);
    CongIntro(v * r, a * b, k, m);
    AddProducts(v, -m, r);
    AddProducts(k, -r, m);
    CongIntro((v - m) * r, a * b, k - r, m);
  }
}
