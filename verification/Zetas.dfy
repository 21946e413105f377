/** The 256 entries of src/mldsa_zetas.h, and that entries 1 to 255 are the twiddle factors. */
module Zetas {
  import opened Arith
  import opened Residues
  import opened Twiddles

  /** Eight entries of MLD_ZETAS at a time. */
  function Row(i: nat): (row: seq<int>)
    ensures |row| == 8
  {
    match i
    case 0 => [0, 25847, -2608894, -518909, 237124, -777960, -876248, 466468]
    case 1 => [1826347, 2353451, -359251, -2091905, 3119733, -2884855, 3111497, 2680103]
    case 2 => [2725464, 1024112, -1079900, 3585928, -549488, -1119584, 2619752, -2108549]
    case 3 => [-2118186, -3859737, -1399561, -3277672, 1757237, -19422, 4010497, 280005]
    case 4 => [2706023, 95776, 3077325, 3530437, -1661693, -3592148, -2537516, 3915439]
    case 5 => [-3861115, -3043716, 3574422, -2867647, 3539968, -300467, 2348700, -539299]
    case 6 => [-1699267, -1643818, 3505694, -3821735, 3507263, -2140649, -1600420, 3699596]
    case 7 => [811944, 531354, 954230, 3881043, 3900724, -2556880, 2071892, -2797779]
    case 8 => [-3930395, -1528703, -3677745, -3041255, -1452451, 3475950, 2176455, -1585221]
    case 9 => [-1257611, 1939314, -4083598, -1000202, -3190144, -3157330, -3632928, 126922]
    case 10 => [3412210, -983419, 2147896, 2715295, -2967645, -3693493, -411027, -2477047]
    case 11 => [-671102, -1228525, -22981, -1308169, -381987, 1349076, 1852771, -1430430]
    case 12 => [-3343383, 264944, 508951, 3097992, 44288, -1100098, 904516, 3958618]
    case 13 => [-3724342, -8578, 1653064, -3249728, 2389356, -210977, 759969, -1316856]
    case 14 => [189548, -3553272, 3159746, -1851402, -2409325, -177440, 1315589, 1341330]
    case 15 => [1285669, -1584928, -812732, -1439742, -3019102, -3881060, -3628969, 3839961]
    case 16 => [2091667, 3407706, 2316500, 3817976, -3342478, 2244091, -2446433, -3562462]
    case 17 => [266997, 2434439, -1235728, 3513181, -3520352, -3759364, -1197226, -3193378]
    case 18 => [900702, 1859098, 909542, 819034, 495491, -1613174, -43260, -522500]
    case 19 => [-655327, -3122442, 2031748, 3207046, -3556995, -525098, -768622, -3595838]
    case 20 => [342297, 286988, -2437823, 4108315, 3437287, -3342277, 1735879, 203044]
    case 21 => [2842341, 2691481, -2590150, 1265009, 4055324, 1247620, 2486353, 1595974]
    case 22 => [-3767016, 1250494, 2635921, -3548272, -2994039, 1869119, 1903435, -1050970]
    case 23 => [-1333058, 1237275, -3318210, -1430225, -451100, 1312455, 3306115, -1962642]
    case 24 => [-1279661, 1917081, -2546312, -1374803, 1500165, 777191, 2235880, 3406031]
    case 25 => [-542412, -2831860, -1671176, -1846953, -2584293, -3724270, 594136, -3776993]
    case 26 => [-2013608, 2432395, 2454455, -164721, 1957272, 3369112, 185531, -1207385]
    case 27 => [-3183426, 162844, 1616392, 3014001, 810149, 1652634, -3694233, -1799107]
    case 28 => [-3038916, 3523897, 3866901, 269760, 2213111, -975884, 1717735, 472078]
    case 29 => [-426683, 1723600, -1803090, 1910376, -1667432, -1104333, -260646, -3833893]
    case 30 => [-2939036, -2235985, -420899, -2286327, 183443, -976891, 1612842, -3545687]
    case _ => [-554416, 3919660, -48306, -1362209, 3937738, 1400424, -846154, 1976782]
  }

  /** MLD_ZETAS[k]. */
  function Entry(k: nat): int
    requires k < 256
  {
    Row(k / 8)[k % 8]
  }

  /** The rows with 2^32, the power to zero, in the place that no transform reads. */
  function LowRow(i: nat): (row: seq<int>)
    ensures |row| == 8
  {
    if i == 0 then [R] + Row(0)[1..] else Row(i)
  }

  /** Each entry of a row is s times the one below it, modulo q. */
  predicate Scaled(row: seq<int>, low: seq<int>, s: int) {
    && |row| == |low| == 8
    && (row[0] - low[0] * s) % Q == 0 && (row[1] - low[1] * s) % Q == 0
    && (row[2] - low[2] * s) % Q == 0 && (row[3] - low[3] * s) % Q == 0
    && (row[4] - low[4] * s) % Q == 0 && (row[5] - low[5] * s) % Q == 0
    && (row[6] - low[6] * s) % Q == 0 && (row[7] - low[7] * s) % Q == 0
  }

  lemma Rows1()
    ensures Scaled(Row(1), LowRow(0), 7778734)
  {}

  lemma Rows2()
    ensures Scaled(Row(2), LowRow(0), 5010068)
    ensures Scaled(Row(3), LowRow(1), 5010068)
  {}

  lemma Rows4()
    ensures Scaled(Row(4), LowRow(0), 3602218)
    ensures Scaled(Row(5), LowRow(1), 3602218)
    ensures Scaled(Row(6), LowRow(2), 3602218)
    ensures Scaled(Row(7), LowRow(3), 3602218)
  {}

  lemma Rows8()
    ensures Scaled(Row(8), LowRow(0), 3073009)
    ensures Scaled(Row(9), LowRow(1), 3073009)
    ensures Scaled(Row(10), LowRow(2), 3073009)
    ensures Scaled(Row(11), LowRow(3), 3073009)
  {}

  lemma Rows12()
    ensures Scaled(Row(12), LowRow(4), 3073009)
    ensures Scaled(Row(13), LowRow(5), 3073009)
    ensures Scaled(Row(14), LowRow(6), 3073009)
    ensures Scaled(Row(15), LowRow(7), 3073009)
  {}

  lemma Rows16()
    ensures Scaled(Row(16), LowRow(0), 1753)
    ensures Scaled(Row(17), LowRow(1), 1753)
    ensures Scaled(Row(18), LowRow(2), 1753)
    ensures Scaled(Row(19), LowRow(3), 1753)
  {}

  lemma Rows20()
    ensures Scaled(Row(20), LowRow(4), 1753)
    ensures Scaled(Row(21), LowRow(5), 1753)
    ensures Scaled(Row(22), LowRow(6), 1753)
    ensures Scaled(Row(23), LowRow(7), 1753)
  {}

  lemma Rows24()
    ensures Scaled(Row(24), LowRow(8), 1753)
    ensures Scaled(Row(25), LowRow(9), 1753)
    ensures Scaled(Row(26), LowRow(10), 1753)
    ensures Scaled(Row(27), LowRow(11), 1753)
  {}

  lemma Rows28()
    ensures Scaled(Row(28), LowRow(12), 1753)
    ensures Scaled(Row(29), LowRow(13), 1753)
    ensures Scaled(Row(30), LowRow(14), 1753)
    ensures Scaled(Row(31), LowRow(15), 1753)
  {}

  lemma RowsBelow8(i: nat, b: nat)
    requires b <= 2 && TwoTo(b) <= i < 2 * TwoTo(b)
    ensures Scaled(Row(i), LowRow(i - TwoTo(b)), Squares(4 - b))
  {
    AllSquares();
    if b == 0 { Rows1(); } else if b == 1 { Rows2(); } else { Rows4(); }
  }

  lemma RowsFrom8(i: nat)
    requires 8 <= i < 16
    ensures Scaled(Row(i), LowRow(i - 8), Squares(1))
  {
    AllSquares();
    if i < 12 { Rows8(); } else { Rows12(); }
  }

  lemma RowsFrom16(i: nat)
    requires 16 <= i < 32
    ensures Scaled(Row(i), LowRow(i - 16), Squares(0))
  {
    if i < 20 { Rows16(); } else if i < 24 { Rows20(); } else if i < 28 { Rows24(); } else { Rows28(); }
  }

  /** The rows from 2^b on are the rows from the front times a power of zeta. */
  lemma RowScaled(i: nat, b: nat)
    requires b <= 4 && TwoTo(b) <= i < 2 * TwoTo(b)
    ensures Scaled(Row(i), LowRow(i - TwoTo(b)), Squares(4 - b))
  {
    assert TwoTo(3) == 8 && TwoTo(4) == 16;
    if b == 4 { RowsFrom16(i); } else if b == 3 { RowsFrom8(i); } else { RowsBelow8(i, b); }
  }

  lemma ScaledAt(row: seq<int>, low: seq<int>, s: int, t: nat)
    requires Scaled(row, low, s) && t < 8
    ensures Eq(row[t], low[t] * s)
  {
    CongIntro(row[t], low[t] * s, (row[t] - low[t] * s) / Q, Q);
  }

  /** Cell t of row i is the one 2^b rows above it times a power of zeta. */
  ghost predicate CellLaw(rows: nat -> seq<int>, i: nat, b: nat, t: nat)
    requires b <= 4 && TwoTo(b) <= i && t < 8
  {
    |rows(i)| == |rows(i - TwoTo(b))| == 8 && Eq(rows(i)[t], rows(i - TwoTo(b))[t] * Squares(4 - b))
  }

  /** And in the first row cell k is the one 2^a cells before it times such a power. */
  ghost predicate FirstLaw(rows: nat -> seq<int>, k: nat, a: nat)
    requires a <= 2 && TwoTo(a) <= k < 8
  {
    |rows(0)| == 8 && Eq(rows(0)[k], rows(0)[k - TwoTo(a)] * Squares(7 - a))
  }

  lemma CellScaled(i: nat, b: nat, t: nat)
    requires b <= 4 && TwoTo(b) <= i < 2 * TwoTo(b) && t < 8
    ensures CellLaw(LowRow, i, b, t)
  {
    RowScaled(i, b);
    ScaledAt(Row(i), LowRow(i - TwoTo(b)), Squares(4 - b), t);
  }

  lemma FirstRow(k: nat, a: nat)
    requires a <= 2 && TwoTo(a) <= k < 2 * TwoTo(a) <= 8
    ensures FirstLaw(LowRow, k, a)
  {
    AllSquares();
    assert TwoTo(1) == 2 && TwoTo(2) == 4;
    var x, y := LowRow(0)[k], LowRow(0)[k - TwoTo(a)] * Squares(7 - a);
    assert (x - y) % Q == 0 by {
      if a == 0 { assert k == 1; } else if a == 1 { assert k == 2 || k == 3; } else { assert 4 <= k <= 7; }
    }
    CongIntro(x, y, (x - y) / Q, Q);
  }

  /** What makes rows a table of twiddles, with 2^32 in front. */
  ghost predicate Lawful(rows: nat -> seq<int>) {
    && |rows(0)| == 8 && rows(0)[0] == R
    && (forall k: nat, a: nat {:trigger FirstLaw(rows, k, a)} ::
          a <= 2 && TwoTo(a) <= k < 2 * TwoTo(a) <= 8 ==> FirstLaw(rows, k, a))
    && (forall i: nat, b: nat, t: nat {:trigger CellLaw(rows, i, b, t)} ::
          b <= 4 && TwoTo(b) <= i < 2 * TwoTo(b) && t < 8 ==> CellLaw(rows, i, b, t))
  }

  lemma TableLawful()
    ensures Lawful(LowRow)
  {
    forall k: nat, a: nat {:trigger FirstLaw(LowRow, k, a)} | a <= 2 && TwoTo(a) <= k < 2 * TwoTo(a) <= 8
      ensures FirstLaw(LowRow, k, a)
    {
      FirstRow(k, a);
    }
    forall i: nat, b: nat, t: nat {:trigger CellLaw(LowRow, i, b, t)} | b <= 4 && TwoTo(b) <= i < 2 * TwoTo(b) && t < 8
      ensures CellLaw(LowRow, i, b, t)
    {
      CellScaled(i, b, t);
    }
  }

  /** The entry at k of a table in rows. */
  function At(rows: nat -> seq<int>, k: nat): int { if |rows(k / 8)| == 8 then rows(k / 8)[k % 8] else 0 }

  lemma Split8(a: nat, r: nat)
    requires 3 <= a && r < TwoTo(a)
    ensures TwoTo(a) + r == 8 * (TwoTo(a - 3) + r / 8) + r % 8 && r / 8 < TwoTo(a - 3)
  {
    var b := a - 3;
    assert TwoTo(b + 1) == 2 * TwoTo(b) && TwoTo(b + 2) == 2 * TwoTo(b + 1);
  }

  /** The entries from 2^a on are those from the front times a power of zeta. */
  lemma EntryScaled(rows: nat -> seq<int>, a: nat, r: nat)
    requires Lawful(rows) && a <= 7 && r < TwoTo(a)
    ensures Eq(At(rows, TwoTo(a) + r), At(rows, r) * Squares(7 - a))
  {
    if a <= 2 {
      assert TwoTo(1) == 2 && TwoTo(2) == 4;
      assert FirstLaw(rows, TwoTo(a) + r, a);
      InFirstRow(rows, a, r);
    } else {
      Split8(a, r);
      assert CellLaw(rows, TwoTo(a - 3) + r / 8, a - 3, r % 8);
      InHighRow(rows, a, r);
    }
  }

  lemma InFirstRow(rows: nat -> seq<int>, a: nat, r: nat)
    requires a <= 2 && TwoTo(a) + r < 8 && FirstLaw(rows, TwoTo(a) + r, a)
    ensures Eq(At(rows, TwoTo(a) + r), At(rows, r) * Squares(7 - a))
  {}

  lemma InHighRow(rows: nat -> seq<int>, a: nat, r: nat)
    requires 3 <= a <= 7 && r < TwoTo(a) && CellLaw(rows, TwoTo(a - 3) + r / 8, a - 3, r % 8)
    ensures Eq(At(rows, TwoTo(a) + r), At(rows, r) * Squares(7 - a))
  {
    Split8(a, r);
  }

  /** A higher bit of an index adds its reversal to the exponent. */
  lemma {:induction false} RevSplit(r: nat, a: nat, b: nat)
    requires r < TwoTo(a) && a < b
    ensures Rev(TwoTo(a) + r, b) == Rev(r, b) + TwoTo(b - 1 - a)
  {
    var k := TwoTo(a) + r;
    if a == 0 {
      assert r == 0 && k == 1;
    } else {
      assert k / 2 == TwoTo(a - 1) + r / 2 && k % 2 == r % 2;
      RevSplit(r / 2, a - 1, b - 1);
    }
  }

  lemma TwiddleSplit(r: nat, a: nat, s: int)
    requires r < TwoTo(a) && a <= 7 && Eq(Pow(ZETA, TwoTo(7 - a)), s)
    ensures Eq(Twiddle(ZETA, TwoTo(a) + r), Twiddle(ZETA, r) * s)
  {
    RevSplit(r, a, 8);
    PowerSplit(Rev(r, 8), TwoTo(7 - a), s);
  }

  lemma PowerSplit(e: nat, f: nat, s: int)
    requires Eq(Pow(ZETA, f), s)
    ensures Eq(Pow(ZETA, e + f), Pow(ZETA, e) * s)
  {
    PowAdd(ZETA, e, f);
    EqScale(Pow(ZETA, f), s, Pow(ZETA, e));
  }

  /** Every entry of such a table is its twiddle times 2^32. */
  lemma {:induction false} EntryIsTwiddle(rows: nat -> seq<int>, k: nat, a: nat)
    requires Lawful(rows) && a <= 8 && k < TwoTo(a)
    ensures Eq(At(rows, k), Twiddle(ZETA, k) * R)
    decreases a
  {
    if k == 0 {
      RevZero(8);
      EqSelf(R);
    } else if k < TwoTo(a - 1) {
      EntryIsTwiddle(rows, k, a - 1);
    } else {
      var r := k - TwoTo(a - 1);
      EntryIsTwiddle(rows, r, a - 1);
      EntryScaled(rows, a - 1, r);
      NextTwiddle(At(rows, k), At(rows, r), a - 1, r);
    }
  }

  lemma NextTwiddle(e: int, e': int, a: nat, r: nat)
    requires a <= 7 && r < TwoTo(a) && Eq(e, e' * Squares(7 - a)) && Eq(e', Twiddle(ZETA, r) * R)
    ensures Eq(e, Twiddle(ZETA, TwoTo(a) + r) * R)
  {
    SquaresArePowers(ZETA, 7 - a);
    TwiddleSplit(r, a, Squares(7 - a));
    Together(e, e', Twiddle(ZETA, TwoTo(a) + r), Twiddle(ZETA, r), Squares(7 - a));
  }

  lemma Together(e: int, e': int, t: int, t': int, s: int)
    requires Eq(e, e' * s) && Eq(t, t' * s) && Eq(e', t' * R)
    ensures Eq(e, t * R)
  {
    EqScale(e', t' * R, s);
    EqTrans(e, e' * s, (t' * R) * s);
    EqScale(t, t' * s, R);
    assert (t' * R) * s == (t' * s) * R;
    EqSym(t * R, (t' * s) * R);
    EqTrans(e, (t' * s) * R, t * R);
  }

  predicate Small(x: int) { -(Q - 1) / 2 <= x <= (Q - 1) / 2 }

  lemma RowSmall(i: nat, t: nat)
    requires t < 8
    ensures Small(Row(i)[t])
  {
    if i < 8 { FirstRowsSmall(i, t); } else if i < 16 { LowRowsSmall(i, t); } else if i < 24 { MiddleRowsSmall(i, t); }
      else { HighRowsSmall(i, t); }
  }

  lemma FirstRowsSmall(i: nat, t: nat)
    requires i < 8 && t < 8
    ensures Small(Row(i)[t])
  {}

  lemma LowRowsSmall(i: nat, t: nat)
    requires 8 <= i < 16 && t < 8
    ensures Small(Row(i)[t])
  {}

  lemma MiddleRowsSmall(i: nat, t: nat)
    requires 16 <= i < 24 && t < 8
    ensures Small(Row(i)[t])
  {}

  lemma HighRowsSmall(i: nat, t: nat)
    requires 24 <= i && t < 8
    ensures Small(Row(i)[t])
  {}

  /** MLD_ZETAS[k], of the entries a transform reads: the twiddle in the Montgomery domain, reduced to (-q/2, q/2]. */
  function Zeta(k: nat): (z: int)
    requires 1 <= k < 256
    ensures Eq(z, Twiddle(ZETA, k) * R) && -(Q - 1) / 2 <= z <= (Q - 1) / 2
  {
    EntryMeans(k);
    RowSmall(k / 8, k % 8);
    Entry(k)
  }

  lemma EntryMeans(k: nat)
    requires 1 <= k < 256
    ensures Eq(Entry(k), Twiddle(ZETA, k) * R)
  {
    assert TwoTo(8) == 256;
    TableLawful();
    EntryIsTwiddle(LowRow, k, 8);
    assert At(LowRow, k) == Entry(k);
  }
}
