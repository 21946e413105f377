/** Fermat's little theorem, which turns the power x^(m - 2) of p256_fe_inv and
    p256_scalar_inverse into an inverse. */
module Fermat {
  import opened Arith

  ghost predicate Prime(m: int) {
    m > 1 && forall d :: 1 < d < m ==> m % d != 0
  }

  /** Euclid's lemma: a prime that divides a b and not a divides b. */
  lemma {:induction false} Euclid(a: int, b: int, m: int)
    requires Prime(m) && 0 < a < m && Cong(a * b, 0, m)
    ensures Cong(b, 0, m)
    decreases a
  {
    if a > 1 {
      var q, r := m / a, m % a;
      assert m == q * a + r;
      calc {
        r * b;
        (m - q * a) * b;
        b * m - q * (a * b);
      }
      CongIntro(b * m, 0, b, m);
      CongMul(q, q, a * b, 0, m);
      CongAdd(b * m, 0, q * (a * b), q * 0, m);
      Euclid(r, b, m);
    }
  }

  /** Pascal's triangle. */
  ghost function Binomial(n: nat, k: nat): nat {
    if k == 0 then 1 else if n == 0 then 0 else Binomial(n - 1, k - 1) + Binomial(n - 1, k)
  }

  lemma {:induction false} BinomialAbove(n: nat, k: nat)
    requires k > n
    ensures Binomial(n, k) == 0
  {
    if n > 0 { BinomialAbove(n - 1, k - 1); BinomialAbove(n - 1, k); }
  }

  lemma {:induction false} BinomialTop(n: nat)
    ensures Binomial(n, n) == 1
  {
    if n > 0 { BinomialTop(n - 1); BinomialAbove(n - 1, n); }
  }

  /** k C(n, k) = n C(n - 1, k - 1). */
  lemma {:induction false} Absorb(n: nat, k: nat)
    requires 0 < k && 0 < n
    ensures k * Binomial(n, k) == n * Binomial(n - 1, k - 1)
  {
    if n == 1 {
      BinomialAbove(0, k);
      if k > 1 { BinomialAbove(0, k - 1); }
    } else {
      Absorb(n - 1, k);
      if k > 1 {
        Absorb(n - 1, k - 1);
        var x, y, z := Binomial(n - 2, k - 2), Binomial(n - 2, k - 1), Binomial(n - 1, k);
        assert Binomial(n - 1, k - 1) == x + y && Binomial(n, k) == (x + y) + z;
        AbsorbSum(n, k, x, y, z);
      }
    }
  }

  lemma AbsorbSum(n: int, k: int, x: int, y: int, z: int)
    requires k * z == (n - 1) * y && (k - 1) * (x + y) == (n - 1) * x
    ensures k * (x + y + z) == n * (x + y)
  {}

  /** The first j terms of (x + 1)^n. */
  ghost function Terms(n: nat, x: int, j: nat): int {
    if j == 0 then 0 else Terms(n, x, j - 1) + Binomial(n, j - 1) * Pow(x, j - 1)
  }

  lemma {:induction false} TermsStep(n: nat, x: int, j: nat)
    ensures Terms(n + 1, x, j + 1) == (x + 1) * Terms(n, x, j) + Binomial(n, j) * Pow(x, j)
  {
    if j > 0 {
      TermsStep(n, x, j - 1);
      var s, c, d, p := Terms(n, x, j - 1), Binomial(n, j - 1), Binomial(n, j), Pow(x, j - 1);
      assert Terms(n + 1, x, j + 1) == Terms(n + 1, x, j) + (c + d) * (x * p);
      assert Terms(n, x, j) == s + c * p;
      TermsAlgebra(x, s, c, d, p);
    }
  }

  lemma TermsAlgebra(x: int, s: int, c: int, d: int, p: int)
    ensures ((x + 1) * s + c * p) + (c + d) * (x * p) == (x + 1) * (s + c * p) + d * (x * p)
  {}

  lemma {:induction false} BinomialTheorem(n: nat, x: int)
    ensures Terms(n, x, n + 1) == Pow(x + 1, n)
  {
    if n == 0 {
      assert Terms(0, x, 0) == 0 && Pow(x, 0) == 1;
    } else {
      BinomialTheorem(n - 1, x);
      TermsStep(n - 1, x, n);
      var c, p := Binomial(n - 1, n), Pow(x, n);
      assert c == 0 by { BinomialAbove(n - 1, n); }
      assert c * p == 0;
      assert Terms(n, x, n + 1) == (x + 1) * Terms(n - 1, x, n) + c * p;
      assert Pow(x + 1, n) == (x + 1) * Pow(x + 1, n - 1);
    }
  }

  /** Modulo a prime the middle terms vanish. */
  lemma {:induction false} MiddleTerms(m: int, x: int, j: nat)
    requires Prime(m) && 1 <= j <= m
    ensures Cong(Terms(m, x, j), 1, m)
  {
    if j == 1 {
      assert Terms(m, x, 0) == 0 && Binomial(m, 0) == 1 && Pow(x, 0) == 1;
    } else {
      MiddleTerms(m, x, j - 1);
      var c, p := Binomial(m, j - 1), Pow(x, j - 1);
      Absorb(m, j - 1);
      CongIntro((j - 1) * c, 0, Binomial(m - 1, j - 2), m);
      Euclid(j - 1, c, m);
      CongMul(c, 0, p, p, m);
      CongAdd(Terms(m, x, j - 1), 1, c * p, 0 * p, m);
    }
  }

  lemma {:induction false} PowerFixes(x: nat, m: int)
    requires Prime(m)
    ensures Cong(Pow(x, m), x, m)
  {
    if x > 0 {
      PowerFixes(x - 1, m);
      BinomialTheorem(m, x - 1);
      MiddleTerms(m, x - 1, m);
      BinomialTop(m);
      CongAdd(Terms(m, x - 1, m), 1, Pow(x - 1, m), x - 1, m);
    } else {
      assert Pow(0, m) == 0 * Pow(0, m - 1);
    }
  }

  /** x^(m - 1) = 1 for a prime m and x in (0, m), so x^(m - 2) is the inverse of x. */
  lemma InversePower(x: int, m: int)
    requires Prime(m) && 0 < x < m
    ensures Cong(x * Pow(x, m - 2), 1, m)
  {
    PowerFixes(x, m);
    var y := Pow(x, m - 1);
    assert x * (y - 1) == Pow(x, m) - x;
    Euclid(x, y - 1, m);
  }
}
