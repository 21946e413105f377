/** The P-256 constants: the field prime of src/p256_field.c and the group order of
    src/p256_scalar.c, with what the Montgomery arithmetic asks of each. */
module P256 {
  import opened Arith
  import opened Words
  import opened Field

  const P: seq<Word> := [0xffffffff, 0xffffffff, 0xffffffff, 0x00000000, 0x00000000, 0x00000000, 0x00000001, 0xffffffff]
  const P_RR: seq<Word> :=
    [0x00000003, 0x00000000, 0xffffffff, 0xfffffffb, 0xfffffffe, 0xffffffff, 0xfffffffd, 0x00000004]
  const P_ONE_MONT: seq<Word> :=
    [0x00000001, 0x00000000, 0x00000000, 0xffffffff, 0xffffffff, 0xffffffff, 0xfffffffe, 0x00000000]
  const P_MINUS_2: seq<Word> :=
    [0xfffffffd, 0xffffffff, 0xffffffff, 0x00000000, 0x00000000, 0x00000000, 0x00000001, 0xffffffff]

  const N: seq<Word> := [0xfc632551, 0xf3b9cac2, 0xa7179e84, 0xbce6faad, 0xffffffff, 0xffffffff, 0x00000000, 0xffffffff]
  const N_RR: seq<Word> :=
    [0xbe79eea2, 0x83244c95, 0x49bd6fa6, 0x4699799c, 0x2b6bec59, 0x2845b239, 0xf3d95620, 0x66e12d94]
  const N_ONE_MONT: seq<Word> :=
    [0x039cdaaf, 0x0c46353d, 0x58e8617b, 0x43190552, 0x00000000, 0x00000000, 0xffffffff, 0x00000000]
  const N_MINUS_2: seq<Word> :=
    [0xfc63254f, 0xf3b9cac2, 0xa7179e84, 0xbce6faad, 0xffffffff, 0xffffffff, 0x00000000, 0xffffffff]

  const P0_INV: Word := 1
  const N0_INV: Word := 0xee00bc4f

  /** Eight words as one sum. */
  lemma EightWords(s: seq<Word>)
    requires |s| == 8
    ensures Value(s)
         == s[0] + BASE * (s[1] + BASE * (s[2] + BASE * (s[3]
                 + BASE * (s[4] + BASE * (s[5] + BASE * (s[6] + BASE * s[7]))))))
  {
    assert s[8..] == [] && s[0..] == s;
    Horner(s, 7);
    assert Value(s[7..]) == s[7];
    Horner(s, 6);
    Horner(s, 5);
    Horner(s, 4);
    var top := s[4] + BASE * (s[5] + BASE * (s[6] + BASE * s[7]));
    assert Value(s[4..]) == top;
    Horner(s, 3);
    Horner(s, 2);
    Horner(s, 1);
    Horner(s, 0);
    assert Value(s) == s[0] + BASE * (s[1] + BASE * (s[2] + BASE * (s[3] + BASE * top)));
  }

  lemma Horner(s: seq<Word>, i: nat)
    requires i < |s|
    ensures Value(s[i..]) == s[i] + BASE * Value(s[i + 1..])
  {
    ValueHead(s[i..]);
    assert s[i..][1..] == s[i + 1..];
  }

  lemma EightWordRadix()
    ensures Radix(8) == 0x10000000000000000000000000000000000000000000000000000000000000000
  {}

  /** The field's words: the prime, its negated inverse, the two powers of R and the exponent. */
  lemma FieldConstants()
    ensures Value(P) == 0xffffffff00000001000000000000000000000000ffffffffffffffffffffffff
            && (P[0] * P0_INV + 1) % BASE == 0
    ensures Value(P_RR) < Value(P) && Cong(Value(P_RR), Radix(8) * Radix(8), Value(P))
    ensures IsForm(Value(P_ONE_MONT), 1, Value(P), Radix(8))
    ensures Value(P_MINUS_2) == Value(P) - 2
    ensures Radix(8) <= 2 * Value(P)
  {
    EightWords(P);
    EightWords(P_RR);
    EightWords(P_ONE_MONT);
    EightWords(P_MINUS_2);
    EightWordRadix();
    CongIntro(Value(P_RR), Radix(8) * Radix(8),
              -0x100000000fffffffffffffffefffffffefffffffeffffffff0000000000000003, Value(P));
    CongIntro(Value(P_ONE_MONT), 1 * Radix(8), -1, Value(P));
  }

  /** The group order's words, in the same order. */
  lemma OrderConstants()
    ensures Value(N) == 0xffffffff00000000ffffffffffffffffbce6faada7179e84f3b9cac2fc632551
            && (N[0] * N0_INV + 1) % BASE == 0
    ensures Value(N_RR) < Value(N) && Cong(Value(N_RR), Radix(8) * Radix(8), Value(N))
    ensures IsForm(Value(N_ONE_MONT), 1, Value(N), Radix(8))
    ensures Value(N_MINUS_2) == Value(N) - 2
    ensures Radix(8) <= 2 * Value(N)
  {
    EightWords(N);
    EightWords(N_RR);
    EightWords(N_ONE_MONT);
    EightWords(N_MINUS_2);
    EightWordRadix();
    CongIntro(Value(N_RR), Radix(8) * Radix(8),
              -0x100000000fffffffffffffffeffffffff43190552df1a6c21012ffd85eedf9bfe, Value(N));
    CongIntro(Value(N_ONE_MONT), 1 * Radix(8), -1, Value(N));
  }
}
