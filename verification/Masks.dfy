/** The masked predicates and movers of src/p256_field.c, and the comparison-based reference
    arithmetic of proof/p256_field_harness.c they are held to. */
module Masks {
  import opened Arith
  import opened Bits
  import opened Words

  /** zero_mask_word: every bit set for zero, none for any other word. */
  function ZeroMaskWord(v: Word): (mask: Word)
    ensures mask == if v == 0 then ONES32 else 0
  {
    var negated := U32(ONES32 - v + 1);
    OrGe(v, negated);
    assert Pow(2, 32) == BASE by { Pow32(); }
    OrBound(v, negated, 32);
    assert v != 0 ==> 0x8000_0000 <= Or(v, negated) < BASE;
    U32(Or(v, negated) / 0x8000_0000 - 1)
  }

  /** p256_fe_zero_mask. */
  method ZeroMask(a: array<Word>) returns (mask: Word)
    ensures mask == if Value(a[..]) == 0 then ONES32 else 0
  {
    var bits: Word := 0;
    for i := 0 to a.Length
      invariant bits == 0 <==> Value(a[..i]) == 0
    {
      assert Pow(2, 32) == BASE by { Pow32(); }
      OrBound(bits, a[i], 32);
      OrGe(bits, a[i]);
      bits := Or(bits, a[i]);
      assert a[..i + 1][..i] == a[..i];
      RadixPositive(i);
      ScaleZero(i);
      ScaleLe(if a[i] == 0 then 0 else 1, a[i], i);
    }
    assert a[..a.Length] == a[..];
    mask := ZeroMaskWord(bits);
  }

  /** p256_fe_equal_mask. */
  method EqualMask(a: array<Word>, b: array<Word>) returns (mask: Word)
    requires a.Length == b.Length
    ensures mask == if a[..] == b[..] then ONES32 else 0
  {
    var bits: Word := 0;
    for i := 0 to a.Length
      invariant bits == 0 <==> a[..i] == b[..i]
    {
      assert Pow(2, 32) == BASE by { Pow32(); }
      XorBound(a[i], b[i], 32);
      XorZeroIff(a[i], b[i]);
      OrBound(bits, Xor(a[i], b[i]), 32);
      OrGe(bits, Xor(a[i], b[i]));
      bits := Or(bits, Xor(a[i], b[i]));
      assert a[..i + 1] == a[..i] + [a[i]] && b[..i + 1] == b[..i] + [b[i]];
    }
    assert a[..a.Length] == a[..] && b[..b.Length] == b[..];
    mask := ZeroMaskWord(bits);
  }

  /** p256_fe_cswap: exchanges under the mask and only then. */
  method CondSwap(a: array<Word>, b: array<Word>, mask: Word)
    requires a.Length == b.Length && a != b && (mask == 0 || mask == ONES32)
    modifies a, b
    ensures a[..] == if mask == 0 then old(a[..]) else old(b[..])
    ensures b[..] == if mask == 0 then old(b[..]) else old(a[..])
  {
    for i := 0 to a.Length
      invariant forall j :: 0 <= j < i ==> a[j] == old(if mask == 0 then a[j] else b[j])
      invariant forall j :: 0 <= j < i ==> b[j] == old(if mask == 0 then b[j] else a[j])
      invariant forall j :: i <= j < a.Length ==> a[j] == old(a[j]) && b[j] == old(b[j])
    {
      var exchange := Exchange(a[i], b[i], mask);
      a[i] := Xor(a[i], exchange);
      b[i] := Xor(b[i], exchange);
    }
  }

  /** (a ^ b) & mask. */
  function Exchange(a: Word, b: Word, mask: Word): (e: nat)
    requires mask == 0 || mask == ONES32
    ensures Xor(a, e) == if mask == 0 then a else b
    ensures Xor(b, e) == if mask == 0 then b else a
  {
    assert Pow(2, 32) == BASE && Ones(32) == ONES32 by { Pow32(); }
    XorBound(a, b, 32);
    AndKeep(Xor(a, b), 32);
    XorCancel(a, b);
    And(Xor(a, b), mask)
  }

  /** p256_fe_neg: m - a, and zero for zero rather than m. */
  method FieldNeg(o: array<Word>, a: array<Word>, m: array<Word>)
    requires o.Length == a.Length == m.Length && o != m
    requires Value(a[..]) < Value(m[..])
    modifies o
    ensures Value(o[..]) == (-old(Value(a[..]))) % Value(m[..])
  {
    var n := o.Length;
    ghost var v, mv := Value(a[..]), Value(m[..]);
    var diff, zero := new Word[n], new Word[n](_ => 0);
    var isZero := ZeroMask(a);
    assert m[..n] == m[..];
    var mask := SubWords(diff, m, a, n);
    assert zero[..n] == zero[..] && diff[..n] == diff[..];
    AllZero(zero[..]);
    SelectWords(o, zero, diff, isZero);
    DivUnique(-v, mv, if v == 0 then 0 else -1, Value(o[..]));
  }

  /** One word of ref_add and of ref_sub: the wrapped result and the carry or borrow out. */
  method RefCarry(x: Word, y: Word, c: Word) returns (sum: Word, out: Word)
    requires c <= 1
    ensures out <= 1 && x + y + c == sum + BASE * out
  {
    sum := U32(x as int + y);
    out := if sum < x then 1 else 0;
    sum := U32(sum as int + c);
    if sum < c { out := 1; }
  }

  method RefBorrow(x: Word, y: Word, c: Word) returns (diff: Word, out: Word)
    requires c <= 1
    ensures out <= 1 && x - y - c == diff - BASE * out
  {
    diff := U32(x as int - y);
    out := if x < y then 1 else 0;
    if diff < c { out := 1; }
    diff := U32(diff as int - c);
  }

  /** ref_add: the carry is a pair of comparisons on wrapped 32-bit sums. */
  method RefAdd(a: array<Word>, b: array<Word>) returns (o: array<Word>, carry: Word)
    requires a.Length == b.Length
    ensures fresh(o) && o.Length == a.Length && carry <= 1
    ensures Value(o[..]) + Scale(carry, a.Length) == Value(a[..]) + Value(b[..])
  {
    o := new Word[a.Length];
    carry := 0;
    for i := 0 to a.Length
      invariant carry <= 1
      invariant Value(o[..i]) + Scale(carry, i) == Value(a[..i]) + Value(b[..i])
    {
      ghost var before, carryIn := o[..i], carry;
      var sum, out := RefCarry(a[i], b[i], carry);
      o[i] := sum;
      carry := out;
      assert o[..i + 1] == before + [sum];
      assert a[..][..i] == a[..i] && a[..][..i + 1] == a[..i + 1] && b[..][..i] == b[..i]
        && b[..][..i + 1] == b[..i + 1];
      AddValues(before, a[..], b[..], carryIn, sum, out);
    }
    assert o[..a.Length] == o[..] && a[..a.Length] == a[..] && b[..a.Length] == b[..];
  }

  /** ref_sub: the borrow is a pair of comparisons. */
  method RefSub(a: array<Word>, b: array<Word>) returns (o: array<Word>, borrow: Word)
    requires a.Length == b.Length
    ensures fresh(o) && o.Length == a.Length && borrow <= 1
    ensures Value(o[..]) - Scale(borrow, a.Length) == Value(a[..]) - Value(b[..])
  {
    o := new Word[a.Length];
    borrow := 0;
    for i := 0 to a.Length
      invariant borrow <= 1
      invariant Value(o[..i]) - Scale(borrow, i) == Value(a[..i]) - Value(b[..i])
    {
      ghost var before, borrowIn := o[..i], borrow;
      var diff, out := RefBorrow(a[i], b[i], borrow);
      o[i] := diff;
      borrow := out;
      assert o[..i + 1] == before + [diff];
      assert a[..][..i] == a[..i] && a[..][..i + 1] == a[..i + 1] && b[..][..i] == b[..i]
        && b[..][..i + 1] == b[..i + 1];
      SubValues(before, a[..], b[..], borrowIn, diff, out);
    }
    assert o[..a.Length] == o[..] && a[..a.Length] == a[..] && b[..a.Length] == b[..];
  }

  /** Two carry chains with one total agree word for word: add_words against ref_add, and
      sub_words against ref_sub. */
  lemma {:induction false} ChainsAgree(s: seq<Word>, c: int, t: seq<Word>, d: int)
    requires |s| == |t| && Value(s) + Scale(c, |s|) == Value(t) + Scale(d, |s|)
    ensures s == t && c == d
  {
    if s != [] {
      ValueHead(s);
      ValueHead(t);
      ChainsAgree(s[1..], c, t[1..], d);
      assert s == [s[0]] + s[1..] && t == [t[0]] + t[1..];
    }
  }
}
