/** Multi-word arithmetic of src/p256_field.c and src/p256_scalar.c: little-endian arrays of 32-bit
    words, for any word count, with carries taken from 64-bit high words and every choice made by
    a mask. Arrays may alias as a point routine aliases them. */
module Words {
  import opened Arith
  import opened Bits

  const BASE: int := 0x1_0000_0000
  type Word = x: int | 0 <= x < 0x1_0000_0000
  const ONES32: Word := 0xffff_ffff

  /** Truncation to uint32_t and to uint64_t. */
  function U32(x: int): Word { x % BASE }
  function U64(x: int): nat { x % 0x1_0000_0000_0000_0000 }

  /** x BASE^n, by repeated multiplication with a constant. */
  ghost function Scale(x: int, n: nat): int {
    if n == 0 then x else BASE * Scale(x, n - 1)
  }

  /** R = BASE^n. */
  ghost function Radix(n: nat): int { Scale(1, n) }

  lemma {:induction false} ScaleAdd(x: int, y: int, n: nat)
    ensures Scale(x + y, n) == Scale(x, n) + Scale(y, n)
    ensures Scale(x - y, n) == Scale(x, n) - Scale(y, n)
  {
    if n > 0 { ScaleAdd(x, y, n - 1); }
  }

  lemma {:induction false} ScaleUp(x: int, n: nat)
    ensures Scale(BASE * x, n) == Scale(x, n + 1)
  {
    if n > 0 { ScaleUp(x, n - 1); }
  }

  lemma {:induction false} ScaleLe(x: int, y: int, n: nat)
    requires x <= y
    ensures Scale(x, n) <= Scale(y, n)
  {
    if n > 0 { ScaleLe(x, y, n - 1); }
  }

  lemma {:induction false} ScaleZero(n: nat)
    ensures Scale(0, n) == 0
  {
    if n > 0 { ScaleZero(n - 1); }
  }

  lemma {:induction false} RadixPositive(n: nat)
    ensures Radix(n) > 0
  {
    if n > 0 { RadixPositive(n - 1); }
  }

  /** Scaling is multiplication by R. */
  lemma {:induction false} ScaleIsMul(x: int, n: nat)
    ensures Scale(x, n) == x * Radix(n)
  {
    if n > 0 {
      ScaleIsMul(x, n - 1);
      MulAssoc(x, BASE, Radix(n - 1));
    }
  }

  lemma {:induction false} RadixIsPow(n: nat)
    ensures Radix(n) == Pow(BASE, n)
  {
    if n > 0 { RadixIsPow(n - 1); }
  }

  /** The number a word sequence stands for, least significant word first. */
  ghost function Value(s: seq<Word>): (v: int)
    ensures v >= 0
  {
    if s == [] then 0 else
      var i := |s| - 1;
      ScaleLe(0, s[i], i);
      ScaleZero(i);
      Value(s[..i]) + Scale(s[i], i)
  }

  lemma ValueStep(s: seq<Word>, i: nat)
    requires i < |s|
    ensures Value(s[..i + 1]) == Value(s[..i]) + Scale(s[i], i)
  {
    assert s[..i + 1][..i] == s[..i];
  }

  lemma {:induction false} ValueBound(s: seq<Word>)
    ensures Value(s) < Radix(|s|)
  {
    if s != [] {
      var i := |s| - 1;
      ValueBound(s[..i]);
      ScaleLe(s[i], BASE - 1, i);
      ScaleAdd(BASE * 1, 1, i);
      ScaleUp(1, i);
    }
  }

  /** The lowest word, and the rest one word up. */
  lemma {:induction false} ValueHead(s: seq<Word>)
    requires s != []
    ensures Value(s) == s[0] + BASE * Value(s[1..])
  {
    var i := |s| - 1;
    if i > 0 {
      ValueHead(s[..i]);
      assert s[..i][1..] == s[1..][..i - 1];
    }
  }

  lemma {:induction false} AllZero(s: seq<Word>)
    requires forall i :: 0 <= i < |s| ==> s[i] == 0
    ensures Value(s) == 0
  {
    if s != [] { AllZero(s[..|s| - 1]); ScaleZero(|s| - 1); }
  }

  /** One word of add_words: the 64-bit sum never wraps, and carries at most one. */
  function AddWord(x: Word, y: Word, c: Word): (r: (Word, Word))
    requires c <= 1
    ensures r.1 <= 1 && x + y + c == r.0 + BASE * r.1
  {
    var v := U64(x as int + y + c);
    (U32(v), v / BASE)
  }

  /** One word of a carry chain: r and the new carry replace x + y + c0 at weight BASE^i. */
  lemma AddValues(before: seq<Word>, a: seq<Word>, b: seq<Word>, c0: int, r: Word, c: int)
    requires |before| < |a| && |a| == |b|
    requires var i := |before|; Value(before) + Scale(c0, i) == Value(a[..i]) + Value(b[..i])
    requires a[|before|] + b[|before|] + c0 == r + BASE * c
    ensures var i := |before|; Value(before + [r]) + Scale(c, i + 1) == Value(a[..i + 1]) + Value(b[..i + 1])
  {
    var i := |before|;
    assert (before + [r])[..i] == before;
    ValueStep(a, i);
    ValueStep(b, i);
    ScaleAdd(a[i], b[i], i);
    ScaleAdd(a[i] as int + b[i], c0, i);
    ScaleAdd(r, BASE * c, i);
    ScaleUp(c, i);
  }

  method AddWords(o: array<Word>, a: array<Word>, b: array<Word>) returns (carry: Word)
    requires o.Length == a.Length == b.Length
    modifies o
    ensures carry <= 1
    ensures Value(o[..]) + Scale(carry, o.Length) == old(Value(a[..])) + old(Value(b[..]))
  {
    ghost var av, bv := a[..], b[..];
    carry := 0;
    for i := 0 to o.Length
      invariant carry <= 1
      invariant forall j :: i <= j < o.Length ==> a[j] == av[j] && b[j] == bv[j]
      invariant Value(o[..i]) + Scale(carry, i) == Value(av[..i]) + Value(bv[..i])
    {
      ghost var before, carryIn := o[..i], carry;
      var (sum, out) := AddWord(a[i], b[i], carry);
      o[i] := sum;
      carry := out;
      assert o[..i + 1] == before + [sum];
      AddValues(before, av, bv, carryIn, sum, out);
    }
    assert o[..o.Length] == o[..] && av[..o.Length] == av && bv[..o.Length] == bv;
  }

  /** One word of sub_words in wrapping 64-bit arithmetic: the high word is a mask. */
  function SubWord(x: Word, y: Word, borrow: nat): (r: (Word, Word))
    requires borrow <= 1
    ensures r.1 == (if x - y - borrow < 0 then ONES32 else 0)
    ensures x - y - borrow == r.0 - BASE * (if r.1 == 0 then 0 else 1)
  {
    var d := x as int - y - borrow;
    var diff := U64(d);
    assert diff == if d < 0 then d + 0x1_0000_0000_0000_0000 else d;
    DivUnique(diff, BASE, if d < 0 then ONES32 else 0, if d < 0 then d + BASE else d);
    (U32(diff), diff / BASE)
  }

  /** The borrow comes back as a mask: the high word of the last difference. */
  method SubWords(o: array<Word>, a: array<Word>, b: array<Word>, n: nat) returns (mask: Word)
    requires o.Length == b.Length == n && n <= a.Length
    modifies o
    ensures mask == 0 || mask == ONES32
    ensures Value(o[..]) == old(Value(a[..n])) - old(Value(b[..])) + (if mask == 0 then 0 else Radix(n))
    ensures mask == ONES32 <==> old(Value(a[..n])) < old(Value(b[..]))
  {
    ghost var av, bv := a[..n], b[..];
    mask := 0;
    for i := 0 to n
      invariant mask == 0 || mask == ONES32
      invariant forall j {:trigger a[j]} {:trigger b[j]} :: i <= j < n ==> a[j] == av[j] && b[j] == bv[j]
      invariant SubbedTo(o[..], av, bv, i, Borrow(mask))
    {
      ghost var before, borrowIn := o[..], Borrow(mask);
      var (diff, high) := SubWord(a[i], b[i], Borrow(mask));
      o[i] := diff;
      mask := high;
      assert o[..] == before[i := diff];
      SubbedOn(before, av, bv, i, borrowIn, diff, Borrow(mask));
    }
    assert o[..n] == o[..] && av[..n] == av && bv[..n] == bv;
    BorrowMeans(o[..], av, bv, Borrow(mask));
  }

  /** The first i words of a difference, with the borrow out of them. */
  ghost predicate SubbedTo(o: seq<Word>, a: seq<Word>, b: seq<Word>, i: nat, c: int) {
    i <= |o| == |a| == |b| && Value(o[..i]) - Scale(c, i) == Value(a[..i]) - Value(b[..i])
  }

  lemma SubbedOn(o: seq<Word>, a: seq<Word>, b: seq<Word>, i: nat, c0: int, r: Word, c: int)
    requires i < |o| && SubbedTo(o, a, b, i, c0) && a[i] - b[i] - c0 == r - BASE * c
    ensures SubbedTo(o[i := r], a, b, i + 1, c)
  {
    assert o[i := r][..i + 1] == o[..i] + [r];
    SubValues(o[..i], a, b, c0, r, c);
  }

  /** The low bit of the difference's high word, (diff >> 32) & 1. */
  function Borrow(mask: Word): (b: nat)
    requires mask == 0 || mask == ONES32
    ensures b == if mask == 0 then 0 else 1
  {
    assert Pow(2, 1) == 2 && Ones(1) == 1;
    AndOnes(mask, 1);
    And(mask, 1)
  }

  lemma SubValues(before: seq<Word>, a: seq<Word>, b: seq<Word>, c0: int, r: Word, c: int)
    requires |before| < |a| && |a| == |b|
    requires var i := |before|; Value(before) - Scale(c0, i) == Value(a[..i]) - Value(b[..i])
    requires a[|before|] - b[|before|] - c0 == r - BASE * c
    ensures var i := |before|; Value(before + [r]) - Scale(c, i + 1) == Value(a[..i + 1]) - Value(b[..i + 1])
  {
    var i := |before|;
    assert (before + [r])[..i] == before;
    ValueStep(a, i);
    ValueStep(b, i);
    ScaleAdd(a[i], b[i], i);
    ScaleAdd(a[i] as int - b[i], c0, i);
    ScaleAdd(r, BASE * c, i);
    ScaleUp(c, i);
  }

  /** A borrow out says a < b. */
  lemma BorrowMeans(o: seq<Word>, a: seq<Word>, b: seq<Word>, c: int)
    requires |o| == |a| == |b| && 0 <= c <= 1 && Value(o) - Scale(c, |o|) == Value(a) - Value(b)
    ensures Value(o) == Value(a) - Value(b) + if c == 0 then 0 else Radix(|o|)
    ensures c == 1 <==> Value(a) < Value(b)
  {
    ValueBound(o);
    BitScale(c, |o|);
  }

  /** (a & mask) | (b & ~mask). */
  function SelectWord(a: Word, b: Word, mask: Word): (r: nat)
    requires mask == 0 || mask == ONES32
    ensures r == if mask == 0 then b else a
  {
    assert Pow(2, 32) == BASE by { Pow32(); }
    AndKeep(a, 32);
    AndKeep(b, 32);
    Or(And(a, mask), And(b, ONES32 - mask))
  }

  lemma Pow32()
    ensures Pow(2, 32) == BASE && Ones(32) == ONES32
  {
    PowAdd(2, 16, 16);
    PowAdd(2, 8, 8);
  }

  method SelectWords(o: array<Word>, a: array<Word>, b: array<Word>, mask: Word)
    requires o.Length <= a.Length && o.Length <= b.Length
    requires mask == 0 || mask == ONES32
    modifies o
    ensures o[..] == if mask == 0 then old(b[..o.Length]) else old(a[..o.Length])
  {
    ghost var av, bv := a[..], b[..];
    for i := 0 to o.Length
      invariant forall j :: i <= j < o.Length ==> a[j] == av[j] && b[j] == bv[j]
      invariant forall j :: 0 <= j < i ==> o[j] == if mask == 0 then bv[j] else av[j]
    {
      o[i] := SelectWord(a[i], b[i], mask);
    }
  }

  /** One conditional subtraction of m from the value high:t. */
  method ReduceOnce(o: array<Word>, t: array<Word>, high: Word, m: array<Word>)
    requires o.Length == m.Length <= t.Length && o != m && high <= 1
    modifies o
    ensures var v := Scale(high, o.Length) + old(Value(t[..o.Length]));
            var mv := Value(m[..]);
            && (v < mv ==> o[..] == old(t[..o.Length]))
            && (mv <= v < mv + Radix(o.Length) ==> Value(o[..]) == v - mv)
  {
    var n := o.Length;
    var reduced := new Word[n];
    var mask := SubWords(reduced, t, m, n);
    KeepsBelow(reduced[..], t[..n], m[..], high, mask);
    SelectWords(o, reduced, t, KeepMask(high, mask));
    assert reduced[..n] == reduced[..];
  }

  /** high:t is below m exactly when the low subtraction borrowed and no high bit covers it, and
      otherwise the reduced words are high:t - m. */
  lemma KeepsBelow(reduced: seq<Word>, t: seq<Word>, m: seq<Word>, high: Word, mask: Word)
    requires |reduced| == |t| == |m| && high <= 1 && (mask == 0 || mask == ONES32)
    requires Value(reduced) == Value(t) - Value(m) + if mask == 0 then 0 else Radix(|m|)
    ensures var v := Scale(high, |m|) + Value(t);
            && (v < Value(m) <==> high == 0 && mask != 0)
            && (Value(m) <= v < Value(m) + Radix(|m|) ==> Value(reduced) == v - Value(m))
  {
    ValueBound(t);
    ValueBound(m);
    ValueBound(reduced);
    BitScale(high, |m|);
  }

  lemma BitScale(c: int, n: nat)
    requires 0 <= c <= 1
    ensures Scale(c, n) == (if c == 0 then 0 else Radix(n)) && Radix(n) > 0
  {
    ScaleZero(n);
    RadixPositive(n);
  }

  /** The complement of the high word of high - borrow: zero exactly when the low subtraction
      borrowed and no high bit covers it. */
  function KeepMask(high: Word, mask: Word): (keep: Word)
    requires high <= 1 && (mask == 0 || mask == ONES32)
    ensures keep == if high == 0 && mask != 0 then 0 else ONES32
  {
    ONES32 - SubWord(high, Borrow(mask), 0).1
  }

  method FieldAdd(o: array<Word>, a: array<Word>, b: array<Word>, m: array<Word>)
    requires o.Length == a.Length == b.Length == m.Length && o != m
    requires Value(a[..]) < Value(m[..]) && Value(b[..]) < Value(m[..])
    modifies o
    ensures Value(o[..]) == (old(Value(a[..])) + old(Value(b[..]))) % Value(m[..])
  {
    ghost var v, mv := Value(a[..]) + Value(b[..]), Value(m[..]);
    var sum := new Word[o.Length];
    var carry := AddWords(sum, a, b);
    ValueBound(m[..]);
    ValueBound(sum[..]);
    ScaleZero(o.Length);
    assert sum[..o.Length] == sum[..];
    ReduceOnce(o, sum, carry, m);
    DivUnique(v, mv, if v < mv then 0 else 1, Value(o[..]));
  }

  method FieldSub(o: array<Word>, a: array<Word>, b: array<Word>, m: array<Word>)
    requires o.Length == a.Length == b.Length == m.Length && o != m
    requires Value(a[..]) < Value(m[..]) && Value(b[..]) < Value(m[..])
    modifies o
    ensures Value(o[..]) == (old(Value(a[..])) - old(Value(b[..]))) % Value(m[..])
  {
    var n := o.Length;
    ghost var v, mv := Value(a[..]) - Value(b[..]), Value(m[..]);
    assert a[..n] == a[..];
    var diff, wrapped := new Word[n], new Word[n];
    var borrowed := SubWords(diff, a, b, n);
    var carry := AddWords(wrapped, diff, m);
    assert wrapped[..n] == wrapped[..] && diff[..n] == diff[..];
    if borrowed == 0 {
      DivUnique(v, mv, 0, Value(diff[..]));
    } else {
      WrappedBack(wrapped[..], m[..], carry, v);
    }
    SelectWords(o, wrapped, diff, borrowed);
  }

  /** A difference that wrapped by R comes back when the modulus is added once. */
  lemma WrappedBack(w: seq<Word>, m: seq<Word>, carry: Word, v: int)
    requires |w| == |m| && carry <= 1 && -Value(m) < v < 0
    requires Value(w) + Scale(carry, |m|) == v + Radix(|m|) + Value(m)
    ensures Value(w) == v % Value(m)
  {
    ValueBound(w);
    ValueBound(m);
    ScaleZero(|m|);
    assert carry == 1;
    DivUnique(v, Value(m), -1, Value(w));
  }

  /** Any value below twice the modulus reduces in one step. */
  method ScalarReduce(o: array<Word>, a: array<Word>, m: array<Word>)
    requires o.Length == a.Length == m.Length && o != m
    requires 0 < Value(m[..]) && Radix(m.Length) <= 2 * Value(m[..])
    modifies o
    ensures Value(o[..]) == old(Value(a[..])) % Value(m[..])
  {
    ghost var v, mv := Value(a[..]), Value(m[..]);
    assert a[..o.Length] == a[..];
    ValueBound(a[..]);
    ValueBound(m[..]);
    ScaleZero(o.Length);
    ReduceOnce(o, a, 0, m);
    DivUnique(v, mv, if v < mv then 0 else 1, Value(o[..]));
  }
}
