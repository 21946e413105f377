/** What the Montgomery products of src/p256_field.c and src/p256_scalar.c are for: the domain's
    round trip, plain products, and the square-and-multiply power. */
module Field {
  import opened Arith
  import opened Bits
  import opened Words
  import opened WideMul
  import opened Montgomery
  import Fermat

  /** R is a power of two. */
  lemma WordBits(n: nat)
    ensures Radix(n) == Pow(2, 32 * n)
  {
    RadixIsPow(n);
    Pow32();
    PowMul(2, 32, n);
  }

  /** R = BASE^n cancels modulo an odd m. */
  lemma CancelR(x: int, y: int, n: nat, m: int)
    requires m > 0 && m % 2 == 1 && Cong(x * Radix(n), y * Radix(n), m)
    ensures Cong(x, y, m)
  {
    WordBits(n);
    AddProducts(x, -y, Radix(n));
    CancelPow2(x - y, 32 * n, m);
  }

  /** The Montgomery form of a. */
  ghost predicate IsForm(form: int, a: int, m: int, r: int)
    requires m > 0
  {
    0 <= form < m && Cong(form, a * r, m)
  }

  /** Multiplying by R^2 enters the domain (p256_fe_to_mont). */
  lemma Enters(a: int, form: int, rr: int, m: int, n: nat)
    requires m > 0 && m % 2 == 1 && Cong(rr, Radix(n) * Radix(n), m)
    requires IsMontgomery(form, a, rr, m, Radix(n))
    ensures IsForm(form, a, m, Radix(n))
  {
    var r := Radix(n);
    CongMul(a, a, rr, r * r, m);
    CongTrans(form * r, a * rr, a * (r * r), m);
    MulAssoc(a, r, r);
    CancelR(form, a * r, n, m);
  }

  /** Multiplying by 1 leaves it (p256_fe_from_mont): the round trip is the identity. */
  lemma Leaves(a: int, form: int, back: int, m: int, n: nat)
    requires m > 0 && m % 2 == 1 && 0 <= a < m
    requires IsForm(form, a, m, Radix(n)) && IsMontgomery(back, form, 1, m, Radix(n))
    ensures back == a
  {
    FormLeaves(a, form, back, m, n);
    CongUnique(back, a, m);
  }

  /** The product of two forms is the form of the product. */
  lemma FormOfProduct(a: int, b: int, fa: int, fb: int, o: int, m: int, n: nat)
    requires m > 0 && m % 2 == 1
    requires Cong(fa, a * Radix(n), m) && Cong(fb, b * Radix(n), m)
    requires IsMontgomery(o, fa, fb, m, Radix(n))
    ensures IsForm(o, a * b, m, Radix(n))
  {
    var r := Radix(n);
    CongMul(fa, a * r, fb, b * r, m);
    CongTrans(o * r, fa * fb, (a * r) * (b * r), m);
    assert (a * r) * (b * r) == ((a * b) * r) * r by { Rearrange(a, b, r); }
    CancelR(o, (a * b) * r, n, m);
  }

  lemma Rearrange(a: int, b: int, r: int)
    ensures (a * r) * (b * r) == ((a * b) * r) * r
  {
    calc {
      (a * r) * (b * r);
      { MulAssoc(a * r, b, r); }
      ((a * r) * b) * r;
      { MulAssoc(a, r, b); MulAssoc(a, b, r); }
      ((a * b) * r) * r;
    }
  }

  /** p256_scalar_mul: two Montgomery products make the plain product. */
  method ScalarMul(o: array<Word>, a: array<Word>, b: array<Word>, m: array<Word>, rr: array<Word>, inv: Word)
    requires 0 < m.Length == a.Length == b.Length == o.Length == rr.Length && o != m && o != rr
    requires (m[0] * inv + 1) % BASE == 0
    requires Value(b[..]) < Value(m[..]) && Value(rr[..]) < Value(m[..])
    requires Cong(Value(rr[..]), Radix(m.Length) * Radix(m.Length), Value(m[..]))
    modifies o
    ensures Value(o[..]) == (old(Value(a[..])) * old(Value(b[..]))) % Value(m[..])
  {
    ghost var n, mv, av, bv := m.Length, Value(m[..]), Value(a[..]), Value(b[..]);
    ModulusPositive(m[..], inv);
    var t := new Word[m.Length];
    MontMul(t, a, b, m, inv);
    ghost var tv, rv := Value(t[..]), Value(rr[..]);
    MontMul(o, t, rr, m, inv);
    PlainProduct(av, bv, tv, rv, Value(o[..]), mv, n);
  }

  lemma PlainProduct(a: int, b: int, t: int, rr: int, o: int, m: int, n: nat)
    requires m > 0 && m % 2 == 1 && Cong(rr, Radix(n) * Radix(n), m)
    requires IsMontgomery(t, a, b, m, Radix(n)) && IsMontgomery(o, t, rr, m, Radix(n))
    ensures o == (a * b) % m
  {
    Enters(t, o, rr, m, n);
    CongTrans(o, t * Radix(n), a * b, m);
    Remainder(o, a * b, m);
  }

  lemma Remainder(o: int, x: int, m: int)
    requires m > 0 && 0 <= o < m && Cong(o, x, m)
    ensures o == x % m
  {
    SameRemainder(o, x, m);
    DivUnique(o, m, 0, o);
  }

  /** The words from q up are the value divided by BASE^q. */
  lemma {:induction false} DropWords(s: seq<Word>, q: nat)
    requires q <= |s|
    ensures Pow(BASE, q) > 0 && Value(s) / Pow(BASE, q) == Value(s[q..])
  {
    PowPositive(BASE, q);
    if q > 0 {
      ValueHead(s);
      DropWords(s[1..], q - 1);
      assert s[1..][q - 1..] == s[q..];
      PowPositive(BASE, q - 1);
      DivDiv(Value(s), BASE, Pow(BASE, q - 1));
      DivUnique(Value(s), BASE, Value(s[1..]), s[0]);
    }
  }

  /** Bit 32 q + r of the value is bit r of word q. */
  lemma BitOfWords(s: seq<Word>, q: nat, r: nat)
    requires q < |s| && r < 32
    ensures Bit(Value(s), 32 * q + r) == Bit(s[q], r)
  {
    ShrIsDiv(Value(s), 32 * q + r);
    PowPositive(2, r);
    WordBits(q);
    RadixIsPow(q);
    PowAdd(2, 32 * q, r);
    DropWords(s, q);
    DivDiv(Value(s), Pow(BASE, q), Pow(2, r));
    ValueHead(s[q..]);
    LowWordBit(s[q], Value(s[q..][1..]), r);
  }

  lemma LowWordBit(w: Word, high: nat, r: nat)
    requires r < 32
    ensures Pow(2, r) > 0 && ((w + BASE * high) / Pow(2, r)) % 2 == Bit(w, r)
  {
    var p, k := Pow(2, r), Pow(2, 31 - r);
    ShrIsDiv(w, r);
    assert BASE == p * (2 * k) by {
      Pow32();
      PowAdd(2, r, 32 - r);
    }
    assert BASE * high == (2 * (k * high)) * p by {
      calc {
        (p * (2 * k)) * high;
        { MulAssoc(p, 2 * k, high); }
        p * ((2 * k) * high);
        { MulAssoc(2, k, high); }
        (2 * (k * high)) * p;
      }
    }
    HighBits(w, p, k * high);
  }

  /** Adding an even multiple of p leaves the bit of weight p. */
  lemma HighBits(w: nat, p: int, j: int)
    requires p > 0
    ensures ((w + (2 * j) * p) / p) % 2 == (w / p) % 2
  {
    assert w + (2 * j) * p == (w / p + 2 * j) * p + w % p;
    DivUnique(w + (2 * j) * p, p, w / p + 2 * j, w % p);
  }

  /** Squaring a form and multiplying the base in for a set bit appends the bit to the exponent. */
  lemma PowerBit(base: int, e: nat, i: nat)
    ensures var square := Pow(base, Shr(e, i + 1)) * Pow(base, Shr(e, i + 1));
            Pow(base, Shr(e, i)) == if Bit(e, i) == 0 then square else square * base
  {
    var q := Shr(e, i + 1);
    assert Shr(e, i) == 2 * q + Bit(e, i);
    PowAdd(base, q, q);
    assert Pow(base, 2 * q + 1) == base * Pow(base, 2 * q);
  }

  lemma NoBitsLeft(s: seq<Word>)
    ensures Shr(Value(s), 32 * |s|) == 0
  {
    ShrIsDiv(Value(s), 32 * |s|);
    WordBits(|s|);
    ValueBound(s);
    DivUnique(Value(s), Pow(2, 32 * |s|), 0, Value(s));
  }

  /** One round of the walk: square, and multiply when the exponent's bit is set. */
  method PowerRound(acc: array<Word>, a: array<Word>, bit: nat, m: array<Word>, inv: Word, ghost x: int,
                    ghost base: int)
    requires 0 < m.Length == a.Length == acc.Length && acc != m && acc != a && bit <= 1
    requires (m[0] * inv + 1) % BASE == 0
    requires 0 < Value(m[..]) && IsForm(Value(a[..]), base, Value(m[..]), Radix(m.Length))
    requires IsForm(Value(acc[..]), x, Value(m[..]), Radix(m.Length))
    modifies acc
    ensures IsForm(Value(acc[..]), if bit == 0 then x * x else (x * x) * base, Value(m[..]), Radix(m.Length))
  {
    ghost var n, mv, form := m.Length, Value(m[..]), Value(acc[..]);
    ModulusPositive(m[..], inv);
    MontMul(acc, acc, acc, m, inv);
    FormOfProduct(x, x, form, form, Value(acc[..]), mv, n);
    ghost var square := Value(acc[..]);
    if bit == 1 {
      MontMul(acc, acc, a, m, inv);
      FormOfProduct(x * x, base, square, Value(a[..]), Value(acc[..]), mv, n);
    }
  }

  method CopyWords(o: array<Word>, a: array<Word>)
    requires o.Length == a.Length
    modifies o
    ensures o[..] == old(a[..])
  {
    ghost var av := a[..];
    for j := 0 to o.Length
      invariant forall k :: 0 <= k < j ==> o[k] == av[k]
      invariant forall k :: j <= k < o.Length ==> a[k] == av[k]
    {
      o[j] := a[j];
    }
  }

  /** The walk of p256_fe_inv over the bits of an exponent, most significant first: the result is
      the form of base to that exponent. o may alias a or e. */
  method FieldPower(o: array<Word>, a: array<Word>, e: array<Word>, m: array<Word>, one: array<Word>, inv: Word,
                    ghost base: int)
    requires 0 < m.Length == a.Length == e.Length == o.Length == one.Length && o != m
    requires (m[0] * inv + 1) % BASE == 0
    requires 0 < Value(m[..]) && IsForm(Value(a[..]), base, Value(m[..]), Radix(m.Length))
    requires IsForm(Value(one[..]), 1, Value(m[..]), Radix(m.Length))
    modifies o
    ensures IsForm(Value(o[..]), Pow(base, old(Value(e[..]))), Value(m[..]), Radix(m.Length))
  {
    var acc := new Word[m.Length];
    CopyWords(acc, one);
    ghost var av, ev, ms, mv, r := a[..], e[..], m[..], Value(m[..]), Radix(m.Length);
    var i := 32 * m.Length;
    NoBitsLeft(ev);
    while i > 0
      invariant 0 <= i <= 32 * m.Length
      invariant a[..] == av && e[..] == ev && m[..] == ms
      invariant IsForm(Value(acc[..]), Pow(base, Shr(Value(ev), i)), mv, r)
    {
      i := i - 1;
      BitOfWords(ev, i / 32, i % 32);
      PowerBit(base, Value(ev), i);
      assert e[i / 32] == ev[i / 32];
      PowerRound(acc, a, Bit(e[i / 32], i % 32), m, inv, Pow(base, Shr(Value(ev), i + 1)), base);
    }
    CopyWords(o, acc);
  }

  /** For a prime modulus the power to m - 2 is the form of the inverse. */
  lemma PowerIsInverse(x: int, m: int, inverse: int, r: int)
    requires Fermat.Prime(m) && 0 < x < m && IsForm(inverse, Pow(x, m - 2), m, r)
    ensures Cong(inverse * x, r, m)
  {
    Fermat.InversePower(x, m);
    CongMul(inverse, Pow(x, m - 2) * r, x, x, m);
    CongMul(x * Pow(x, m - 2), 1, r, r, m);
    assert (Pow(x, m - 2) * r) * x == (x * Pow(x, m - 2)) * r by { MulAssoc(x, Pow(x, m - 2), r); }
    CongTrans(inverse * x, (x * Pow(x, m - 2)) * r, 1 * r, m);
  }

  /** And zero goes to zero, which is how the affine reader sees the point at infinity. */
  lemma PowerOfZero(m: int, inverse: int, r: int)
    requires m > 2 && IsForm(inverse, Pow(0, m - 2), m, r)
    ensures inverse == 0
  {
    ZeroPower(m - 2);
    CongUnique(inverse, 0, m);
  }

  /** p256_fe_inv on a form: the form of the inverse for a prime modulus, and zero of zero. */
  method FieldInverse(o: array<Word>, a: array<Word>, e: array<Word>, m: array<Word>, one: array<Word>, inv: Word,
                      ghost base: int)
    requires 0 < m.Length == a.Length == e.Length == o.Length == one.Length && o != m
    requires (m[0] * inv + 1) % BASE == 0
    requires 2 < Value(m[..]) == Value(e[..]) + 2 && IsForm(Value(a[..]), base, Value(m[..]), Radix(m.Length))
    requires IsForm(Value(one[..]), 1, Value(m[..]), Radix(m.Length))
    modifies o
    ensures 0 <= Value(o[..]) < Value(m[..])
    ensures Fermat.Prime(Value(m[..])) && 0 < base < Value(m[..]) ==>
              Cong(Value(o[..]) * base, Radix(m.Length), Value(m[..]))
    ensures base == 0 ==> Value(o[..]) == 0
  {
    ghost var mv, r := Value(m[..]), Radix(m.Length);
    FieldPower(o, a, e, m, one, inv, base);
    if base == 0 { PowerOfZero(mv, Value(o[..]), r); }
    if Fermat.Prime(mv) && 0 < base < mv { PowerIsInverse(base, mv, Value(o[..]), r); }
  }

  /** p256_scalar_inverse: into the domain, the walk, and out again. For every odd modulus the result is the power of
      the scalar to m - 2; for a prime it is the inverse, and zero gives zero. */
  method ScalarInverse(o: array<Word>, a: array<Word>, e: array<Word>, m: array<Word>, rr: array<Word>,
                       oneForm: array<Word>, one: array<Word>, inv: Word)
    requires 0 < m.Length == a.Length == e.Length == o.Length == rr.Length == oneForm.Length == one.Length
    requires o != m && (m[0] * inv + 1) % BASE == 0 && 2 < Value(m[..]) == Value(e[..]) + 2
    requires Value(rr[..]) < Value(m[..]) && Cong(Value(rr[..]), Radix(m.Length) * Radix(m.Length), Value(m[..]))
    requires IsForm(Value(oneForm[..]), 1, Value(m[..]), Radix(m.Length)) && Value(one[..]) == 1
    modifies o
    ensures Value(o[..]) == Pow(old(Value(a[..])), Value(m[..]) - 2) % Value(m[..])
    ensures Fermat.Prime(Value(m[..])) && 0 < old(Value(a[..])) < Value(m[..]) ==>
              (Value(o[..]) * old(Value(a[..]))) % Value(m[..]) == 1
    ensures old(Value(a[..])) == 0 ==> Value(o[..]) == 0
  {
    ghost var n, mv, av, rv := m.Length, Value(m[..]), Value(a[..]), Value(rr[..]);
    ModulusPositive(m[..], inv);
    var base := new Word[m.Length];
    MontMul(base, a, rr, m, inv);
    Enters(av, Value(base[..]), rv, mv, n);
    var acc := new Word[m.Length];
    FieldPower(acc, base, e, m, oneForm, inv, av);
    ghost var power := Value(acc[..]);
    MontMul(o, acc, one, m, inv);
    PowerLeaves(av, power, Value(o[..]), mv, n);
  }

  lemma PowerLeaves(a: int, power: int, o: int, m: int, n: nat)
    requires m > 2 && m % 2 == 1 && IsForm(power, Pow(a, m - 2), m, Radix(n))
    requires IsMontgomery(o, power, 1, m, Radix(n))
    ensures o == Pow(a, m - 2) % m
    ensures Fermat.Prime(m) && 0 < a < m ==> (o * a) % m == 1
    ensures a == 0 ==> o == 0
  {
    FormLeaves(Pow(a, m - 2), power, o, m, n);
    Remainder(o, Pow(a, m - 2), m);
    if a == 0 { ZeroPower(m - 2); }
    if Fermat.Prime(m) && 0 < a < m { PrimeInverse(a, o, m); }
  }

  lemma FormLeaves(x: int, form: int, o: int, m: int, n: nat)
    requires m > 0 && m % 2 == 1 && IsForm(form, x, m, Radix(n)) && IsMontgomery(o, form, 1, m, Radix(n))
    ensures Cong(o, x, m)
  {
    CongTrans(o * Radix(n), form * 1, x * Radix(n), m);
    CancelR(o, x, n, m);
  }

  lemma ZeroPower(e: nat)
    requires e > 0
    ensures Pow(0, e) == 0
  {
    assert Pow(0, e) == 0 * Pow(0, e - 1);
  }

  lemma PrimeInverse(a: int, o: int, m: int)
    requires Fermat.Prime(m) && 2 < m && 0 < a < m && Cong(o, Pow(a, m - 2), m)
    ensures (o * a) % m == 1
  {
    var x := Pow(a, m - 2);
    Fermat.InversePower(a, m);
    CongMul(o, x, a, a, m);
    CongTrans(o * a, x * a, 1, m);
    SameRemainder(o * a, 1, m);
    DivUnique(1, m, 0, 1);
  }
}
