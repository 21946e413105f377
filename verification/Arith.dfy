/** Powers and congruences that the word, digit and transform models share. */
module Arith {

  function Pow(b: int, n: nat): int {
    if n == 0 then 1 else b * Pow(b, n - 1)
  }

  lemma {:induction false} PowPositive(b: int, n: nat)
    requires b > 0
    ensures Pow(b, n) > 0
  {
    if n > 0 { PowPositive(b, n - 1); MulPositive(b, Pow(b, n - 1)); }
  }

  lemma MulPositive(x: int, y: int)
    requires x > 0 && y > 0
    ensures x * y > 0
  {}

  lemma {:induction false} PowAdd(b: int, m: nat, n: nat)
    ensures Pow(b, m + n) == Pow(b, m) * Pow(b, n)
  {
    if m > 0 {
      PowAdd(b, m - 1, n);
      MulAssoc(b, Pow(b, m - 1), Pow(b, n));
    }
  }

  lemma {:induction false} PowMul(b: int, m: nat, n: nat)
    ensures m * n >= 0 && Pow(b, m * n) == Pow(Pow(b, m), n)
  {
    if n > 0 {
      PowMul(b, m, n - 1);
      assert m * n == m + m * (n - 1);
      PowAdd(b, m, m * (n - 1));
    }
  }

  lemma MulAssoc(x: int, y: int, z: int)
    ensures x * (y * z) == (x * y) * z
  {}

  lemma MulLe(x: int, y: int, z: int)
    requires x <= y && z >= 0
    ensures x * z <= y * z
  {}

  /** Division with remainder is unique. */
  lemma DivUnique(x: int, d: int, q: int, r: int)
    requires d > 0 && x == q * d + r && 0 <= r < d
    ensures x / d == q && x % d == r
  {
    var e := x / d - q;
    assert x == (x / d) * d + x % d;
    assert e * d == r - x % d;
    if e >= 1 { MulLe(1, e, d); }
    if e <= -1 { MulLe(e, -1, d); }
  }

  /** x and y leave the same remainder by m. */
  ghost predicate Cong(x: int, y: int, m: int)
    requires m > 0
  {
    (x - y) % m == 0
  }

  /** A congruence is an integer multiple of the modulus. */
  lemma CongIntro(x: int, y: int, k: int, m: int)
    requires m > 0 && x - y == k * m
    ensures Cong(x, y, m)
  {
    DivUnique(x - y, m, k, 0);
  }

  ghost function Quotient(x: int, y: int, m: int): (k: int)
    requires m > 0 && Cong(x, y, m)
    ensures x - y == k * m
  {
    (x - y) / m
  }

  lemma CongTrans(x: int, y: int, z: int, m: int)
    requires m > 0 && Cong(x, y, m) && Cong(y, z, m)
    ensures Cong(x, z, m)
  {
    var j, k := Quotient(x, y, m), Quotient(y, z, m);
    assert x - z == j * m + k * m == (j + k) * m;
    CongIntro(x, z, j + k, m);
  }

  lemma CongSym(x: int, y: int, m: int)
    requires m > 0 && Cong(x, y, m)
    ensures Cong(y, x, m)
  {
    var k := Quotient(x, y, m);
    assert y - x == -(k * m) == (-k) * m;
    CongIntro(y, x, -k, m);
  }

  lemma CongAdd(x: int, x': int, y: int, y': int, m: int)
    requires m > 0 && Cong(x, x', m) && Cong(y, y', m)
    ensures Cong(x + y, x' + y', m) && Cong(x - y, x' - y', m)
  {
    var j, k := Quotient(x, x', m), Quotient(y, y', m);
    assert (x + y) - (x' + y') == j * m + k * m == (j + k) * m;
    assert (x - y) - (x' - y') == j * m - k * m == (j - k) * m;
    CongIntro(x + y, x' + y', j + k, m);
    CongIntro(x - y, x' - y', j - k, m);
  }

  lemma CongMul(x: int, x': int, y: int, y': int, m: int)
    requires m > 0 && Cong(x, x', m) && Cong(y, y', m)
    ensures Cong(x * y, x' * y', m)
  {
    var j, k := Quotient(x, x', m), Quotient(y, y', m);
    calc {
      x * y - x' * y';
      (x - x') * y + x' * (y - y');
      (j * m) * y + x' * (k * m);
      (j * y + x' * k) * m;
    }
    CongIntro(x * y, x' * y', j * y + x' * k, m);
  }

  /** Two residues in [0, m) that are congruent are equal. */
  lemma CongUnique(x: int, y: int, m: int)
    requires m > 0 && Cong(x, y, m) && 0 <= x < m && 0 <= y < m
    ensures x == y
  {
    var k := Quotient(x, y, m);
    if k >= 1 { MulLe(1, k, m); }
    if k <= -1 { MulLe(k, -1, m); }
  }

  /** A power of two cancels modulo an odd number. */
  lemma {:induction false} CancelPow2(d: int, n: nat, m: int)
    requires m > 0 && m % 2 == 1 && Cong(d * Pow(2, n), 0, m)
    ensures Cong(d, 0, m)
  {
    if n > 0 {
      var half := d * Pow(2, n - 1);
      var k := Quotient(d * Pow(2, n), 0, m);
      assert d * Pow(2, n) == half * 2 by { MulAssoc(d, 2, Pow(2, n - 1)); }
      assert half * 2 == k * m;
      OddFactor(k, m, half);
      CongIntro(half, 0, k / 2, m);
      CancelPow2(d, n - 1, m);
    }
  }

  lemma OddFactor(k: int, m: int, half: int)
    requires m % 2 == 1 && half * 2 == k * m
    ensures k % 2 == 0 && half == (k / 2) * m
  {
    var m2 := m / 2;
    assert k * m == k * (2 * m2 + 1) == 2 * (k * m2) + k;
    assert k == 2 * (half - k * m2);
    var k2 := k / 2;
    assert k == 2 * k2;
    assert half * 2 == (2 * k2) * m == 2 * (k2 * m);
  }

  lemma Distribute(x: int, y: int, z: int)
    ensures x * (y + z) == x * y + x * z
  {}

  lemma DivDiv(x: int, a: int, b: int)
    requires x >= 0 && a > 0 && b > 0
    ensures a * b > 0 && x / (a * b) == (x / a) / b
  {
    var y, q := x / a, (x / a) / b;
    MulPositive(a, b);
    assert x == a * y + x % a && y == b * q + y % b;
    var rem := a * (y % b) + x % a;
    assert x == q * (a * b) + rem by {
      assert a * y == a * (b * q) + a * (y % b) by { Distribute(a, b * q, y % b); }
      MulAssoc(a, b, q);
    }
    MulLe(y % b, b - 1, a);
    MulLe(0, y % b, a);
    DivUnique(x, a * b, q, rem);
  }
}
