/** TLS 1.3 record protection under either AEAD: src/record.c:20-67 and 120-205. */
module RecordLayer {
  import opened Arith
  import opened Bits
  import opened Common
  import opened Framing
  import opened Reader
  import opened Keystreams
  import Aead
  import Gcm

  const LAST: nat := 0xffff_ffff_ffff_ffff

  /** Byte i of a sequence number, from its low end. */
  function SeqByte(n: nat, i: nat): Byte {
    if i == 0 then n % 256 else SeqByte(n / 256, i - 1)
  }

  /** nonce_of: the IV with the sequence number in its low 8 bytes. */
  function Nonce(iv: seq<Byte>, n: nat): (r: seq<Byte>)
    requires |iv| == 12
    ensures |r| == 12
  {
    seq(12, j requires 0 <= j < 12 => if j < 4 then iv[j] else XorByte(iv[j], SeqByte(n, 11 - j)))
  }

  lemma {:induction false} SeqBytesDiffer(m: nat, n: nat, k: nat)
    requires m < Pow(256, k) && n < Pow(256, k) && forall i :: 0 <= i < k ==> SeqByte(m, i) == SeqByte(n, i)
    ensures m == n
  {
    if k > 0 {
      assert SeqByte(m, 0) == SeqByte(n, 0);
      forall i | 0 <= i < k - 1
        ensures SeqByte(m / 256, i) == SeqByte(n / 256, i)
      {
        assert SeqByte(m, i + 1) == SeqByte(n, i + 1);
      }
      SeqBytesDiffer(m / 256, n / 256, k - 1);
    }
  }

  /** Bit t of byte i of a sequence number is its bit 8 i + t. */
  lemma {:induction false} SeqByteBits(n: nat, i: nat, t: nat)
    requires t < 8
    ensures Bit(SeqByte(n, i), t) == Bit(n, 8 * i + t)
  {
    if i == 0 {
      LowByteBits(n, t);
    } else {
      SeqByteBits(n / 256, i - 1, t);
      EightHalves(n);
      ShrShr(n, 8, 8 * (i - 1) + t);
    }
  }

  lemma EightHalves(n: nat)
    ensures Shr(n, 8) == n / 256
  {
    ShrIsDiv(n, 8);
    assert Pow(2, 8) == 256 by { PowAdd(2, 4, 4); }
  }

  lemma {:induction false} LowByteBits(n: nat, t: nat)
    requires t < 8
    ensures Bit(n % 256, t) == Bit(n, t)
  {
    LowBitsAre(n, 8);
    BitsOfLow(n, 8, t);
  }

  lemma LowBitsAre(n: nat, b: nat)
    requires b == 8
    ensures LowBits(n, b) == n % 256
  {
    SplitBits(n, b);
    EightHalves(n);
    ShlIsMul(Shr(n, b), b);
    LowBitsBound(n, b);
    assert Pow(2, b) == 256 by { PowAdd(2, 4, 4); }
    DivUnique(n, 256, n / 256, LowBits(n, b));
  }

  lemma {:induction false} BitsOfLow(n: nat, b: nat, t: nat)
    requires t < b
    ensures Bit(LowBits(n, b), t) == Bit(n, t)
  {
    var low := LowBits(n, b);
    assert low % 2 == n % 2 && low / 2 == LowBits(n / 2, b - 1);
    if t > 0 {
      BitsOfLow(n / 2, b - 1, t - 1);
      BitOfHalf(n, t - 1);
      BitOfHalf(low, t - 1);
    }
  }

  /** The nonce is the IV with the sequence number summed in modulo 2, high byte first, in its last eight bytes. */
  lemma NonceBits(iv: seq<Byte>, n: nat, j: nat, t: nat)
    requires |iv| == 12 && j < 12 && t < 8
    ensures Bit(Nonce(iv, n)[j], t) == if j < 4 then Bit(iv[j], t) else (Bit(iv[j], t) + Bit(n, 8 * (11 - j) + t)) % 2
  {
    if j >= 4 {
      SeqByteBits(n, 11 - j, t);
      XorByteBits(iv[j], SeqByte(n, 11 - j), t);
    }
  }

  /** Under one key no two records share a nonce. */
  lemma {:induction false} NonceInjective(iv: seq<Byte>, m: nat, n: nat)
    requires |iv| == 12 && m < Pow(256, 8) && n < Pow(256, 8) && Nonce(iv, m) == Nonce(iv, n)
    ensures m == n
  {
    forall i | 0 <= i < 8
      ensures SeqByte(m, i) == SeqByte(n, i)
    {
      var x, a, b := iv[11 - i], SeqByte(m, i), SeqByte(n, i);
      assert Nonce(iv, m)[11 - i] == XorByte(x, a) && Nonce(iv, n)[11 - i] == XorByte(x, b);
      XorCancel(x, a);
      XorCancel(x, b);
    }
    SeqBytesDiffer(m, n, 8);
  }

  /** What a record sees of an AEAD: data under the keystream of a key and a nonce, and the tag of a key, a nonce,
      the associated data and the ciphertext. */
  datatype Cipher = Cipher(stream: (seq<Byte>, seq<Byte>, seq<Byte>) -> seq<Byte>,
                           tag: (seq<Byte>, seq<Byte>, seq<Byte>, seq<Byte>) -> seq<Byte>)

  ghost predicate Ciphers(c: Cipher) {
    && (forall k, n, d {:trigger c.stream(k, n, d)} :: |c.stream(k, n, d)| == |d|)
    && (forall k, n, d {:trigger c.stream(k, n, c.stream(k, n, d))} :: c.stream(k, n, c.stream(k, n, d)) == d)
    && (forall k, n, a, t {:trigger c.tag(k, n, a, t)} :: |c.tag(k, n, a, t)| == TAG)
  }

  /** The AEAD a direction runs. */
  datatype Suite = Chacha(p: Aead.Primitives) | AesGcm(g: Gcm.Aes)

  ghost predicate Sound(s: Suite) { match s case Chacha(p) => Aead.Sound(p) case AesGcm(g) => Gcm.Sound(g) }

  ghost function CipherOf(s: Suite): Cipher
    requires Sound(s)
  {
    match s
    case Chacha(p) =>
      Cipher((k, n, d) => Aead.Stream(p, k, n, 1, d), (k, n, a, t) => Aead.Tag(p, k, n, a, t))
    case AesGcm(g) =>
      Cipher((k, n, d) => Gcm.Stream(g, k, n, d), (k, n, a, t) => Gcm.Tag(g, k, n, a, t))
  }

  /** Both AEADs are ciphers in this sense. */
  lemma {:induction false} SuiteCiphers(s: Suite)
    requires Sound(s)
    ensures Ciphers(CipherOf(s))
  {
    var c := CipherOf(s);
    forall k, n, d {:trigger c.stream(k, n, c.stream(k, n, d))}
      ensures c.stream(k, n, c.stream(k, n, d)) == d
    {
      match s
      case Chacha(p) => XorTwice(Aead.KeyBytes(p, k, n, 1), d);
      case AesGcm(g) => XorTwice(Gcm.KeyBytes(g, k, n), d);
    }
  }

  /** The content, its type and no padding. */
  function Inner(kind: Byte, content: seq<Byte>): seq<Byte> { content + [kind] }

  function Header(body: nat): seq<Byte>
    requires body < 0x1_0000
  {
    [APPDATA, 3, 3, body / 256, body % 256]
  }

  /** A header, the plaintext encrypted behind it, and the tag over both. */
  ghost function Shielded(c: Cipher, key: seq<Byte>, nonce: seq<Byte>, head: seq<Byte>, inner: seq<Byte>): seq<Byte> {
    var ct := c.stream(key, nonce, inner);
    head + ct + c.tag(key, nonce, head, ct)
  }

  /** The record rec_seal writes. */
  ghost function Sealed(c: Cipher, key: seq<Byte>, iv: seq<Byte>, n: nat, kind: Byte, content: seq<Byte>): seq<Byte>
    requires |iv| == 12 && |content| + 1 + TAG <= 0x4100
  {
    Shielded(c, key, Nonce(iv, n), Header(|content| + 1 + TAG), Inner(kind, content))
  }

  /** The padding stripped: the last byte that is not zero is the type. */
  function Unpad(inner: seq<Byte>): (o: Opened)
    ensures o.Opened? ==> |o.content| < |inner|
  {
    if inner == [] then Refused
    else if inner[|inner| - 1] == 0 then Unpad(inner[..|inner| - 1])
    else Opened(inner[|inner| - 1], inner[..|inner| - 1])
  }

  /** A record whose header and length rec_open takes. */
  predicate WellFormed(n: nat, r: seq<Byte>) {
    && n < LAST && |r| >= HDR + 1 + TAG && r[0] == APPDATA
    && BodyLength(r) == |r| - HDR && BodyLength(r) - TAG <= 0x4001
  }

  ghost predicate Authentic(c: Cipher, key: seq<Byte>, nonce: seq<Byte>, r: seq<Byte>)
    requires |r| >= HDR + TAG
  {
    r[|r| - TAG..] == c.tag(key, nonce, r[..HDR], r[HDR..|r| - TAG])
  }

  ghost function PlainOf(c: Cipher, key: seq<Byte>, nonce: seq<Byte>, r: seq<Byte>): seq<Byte>
    requires |r| >= HDR + TAG
  {
    c.stream(key, nonce, r[HDR..|r| - TAG])
  }

  /** What rec_open makes of a record. */
  ghost function OpenOf(c: Cipher, key: seq<Byte>, iv: seq<Byte>, n: nat, r: seq<Byte>): Opened
    requires |iv| == 12
  {
    if !WellFormed(n, r) || !Authentic(c, key, Nonce(iv, n), r) then Refused
    else Unpad(PlainOf(c, key, Nonce(iv, n), r))
  }

  /** rec_open as the reader's opener: it leaves room for the type and the tag. */
  lemma {:induction false} OpenShrinks(c: Cipher, key: seq<Byte>, iv: seq<Byte>)
    requires Ciphers(c) && |iv| == 12
    ensures Shrinks((n: nat, r: seq<Byte>) => OpenOf(c, key, iv, n, r))
  {}

  lemma {:induction false} SealedParts(c: Cipher, key: seq<Byte>, iv: seq<Byte>, n: nat, kind: Byte, content: seq<Byte>,
                                       r: seq<Byte>)
    requires Ciphers(c) && |iv| == 12 && |content| + 1 + TAG <= 0x4100 && r == Sealed(c, key, iv, n, kind, content)
    ensures |r| == HDR + |content| + 1 + TAG && BodyLength(r) == |r| - HDR && r[0] == APPDATA
    ensures var ct := c.stream(key, Nonce(iv, n), Inner(kind, content));
            && r[HDR..|r| - TAG] == ct && r[..HDR] == Header(|content| + 1 + TAG)
            && r[|r| - TAG..] == c.tag(key, Nonce(iv, n), r[..HDR], ct)
  {}

  /** What was sealed opens to its type and content exactly when the content is at most 2^14 bytes and
      the type is not zero: a longer one is refused, and a zero type is taken for padding. */
  lemma {:induction false} OpenSealed(c: Cipher, key: seq<Byte>, iv: seq<Byte>, n: nat, kind: Byte, content: seq<Byte>)
    requires Ciphers(c) && |iv| == 12 && |content| + 1 + TAG <= 0x4100 && n < LAST
    ensures OpenOf(c, key, iv, n, Sealed(c, key, iv, n, kind, content))
         == if |content| > 0x4000 then Refused else if kind == 0 then Unpad(content) else Opened(kind, content)
    ensures OpenOf(c, key, iv, n, Sealed(c, key, iv, n, kind, content)) == Opened(kind, content)
       <==> |content| <= 0x4000 && kind != 0
  {
    OpensToInner(c, key, iv, n, kind, content, Sealed(c, key, iv, n, kind, content));
    UnpadInner(kind, content);
    UnpadNeverZero(content);
  }

  lemma {:induction false} OpensToInner(c: Cipher, key: seq<Byte>, iv: seq<Byte>, n: nat, kind: Byte,
                                        content: seq<Byte>, r: seq<Byte>)
    requires Ciphers(c) && |iv| == 12 && |content| + 1 + TAG <= 0x4100 && n < LAST
    requires r == Sealed(c, key, iv, n, kind, content)
    ensures OpenOf(c, key, iv, n, r) == if |content| > 0x4000 then Refused else Unpad(Inner(kind, content))
  {
    SealedParts(c, key, iv, n, kind, content, r);
    assert PlainOf(c, key, Nonce(iv, n), r) == Inner(kind, content);
  }

  lemma {:induction false} UnpadInner(kind: Byte, content: seq<Byte>)
    ensures Unpad(Inner(kind, content)) == if kind == 0 then Unpad(content) else Opened(kind, content)
  {}

  lemma {:induction false} UnpadNeverZero(inner: seq<Byte>)
    ensures Unpad(inner).Opened? ==> Unpad(inner).kind != 0
  {
    if inner != [] { UnpadNeverZero(inner[..|inner| - 1]); }
  }

  /** As Look: a key to Runs alone. */
  predicate Within(m: int) { true }

  /** c is what the suite runs: only the two bodies below open it. */
  ghost predicate Runs(s: Suite, c: Cipher)
    requires Sound(s)
  {
    forall m: int {:trigger Within(m)} :: Within(m) ==> c == CipherOf(s)
  }

  /** What a wrong tag leaves of a buffer: every byte, or under AES-GCM zeros where the plaintext would be. */
  ghost function LeftOf(s: Suite, was: seq<Byte>, to: nat, n: nat): seq<Byte>
    requires to + n <= |was|
  {
    if s.Chacha? then was else Wiped(was, to, n)
  }

  /** s with k bytes at at wiped. */
  ghost function Wiped(s: seq<Byte>, at: nat, k: nat): seq<Byte>
    requires at + k <= |s|
  {
    s[..at] + seq(k, i => 0) + s[at + k..]
  }

  class Direction {
    const suite: Suite
    const key: seq<Byte>
    const iv: seq<Byte>
    ghost const c: Cipher
    var seqNo: nat

    ghost predicate Valid()
      reads this
    {
      Sound(suite) && Runs(suite, c) && Ciphers(c) && |iv| == 12 && seqNo <= LAST
    }

    constructor (suite: Suite, key: seq<Byte>, iv: seq<Byte>)
      requires Sound(suite) && |iv| == 12
      ensures Valid() && seqNo == 0 && this.suite == suite && this.key == key && this.iv == iv && c == CipherOf(suite)
    {
      this.suite, this.key, this.iv, seqNo := suite, key, iv, 0;
      this.c := CipherOf(suite);
      SuiteCiphers(suite);
    }

    /** nonce_of: the IV copied, then eight bytes changed from the low end. */
    method NonceOf() returns (bytes: seq<Byte>)
      requires Valid()
      ensures bytes == Nonce(iv, seqNo)
    {
      var nonce := new Byte[12](j requires 0 <= j < 12 && |iv| == 12 => iv[j]);
      for i := 0 to 8
        invariant forall j {:trigger nonce[j]} :: 0 <= j < 12 - i ==> nonce[j] == iv[j]
        invariant forall j {:trigger nonce[j]} ::
                    12 - i <= j < 12 ==> nonce[j] == XorByte(iv[j], SeqByte(seqNo, 11 - j))
      {
        nonce[11 - i] := XorByte(nonce[11 - i], SeqByte(seqNo, i));
      }
      bytes := nonce[..];
    }

    /** The header, the content moved behind it and the type behind that. */
    method BuildInner(kind: Byte, src: array<Byte>, pt: nat, n: nat, out: array<Byte>, at: nat)
      requires pt + n <= src.Length && at + HDR + n + 1 <= out.Length && n + 1 + TAG < 0x1_0000
      requires src == out ==> pt >= at + HDR || pt + n <= at
      modifies out
      ensures out[at..at + HDR + n + 1] == Header(n + 1 + TAG) + Inner(kind, old(src[pt..pt + n]))
      ensures out[..at] == old(out[..at])
    {
      ghost var was, content, head := out[..], src[pt..pt + n], Header(n + 1 + TAG);
      Place(out, at, Header(n + 1 + TAG));
      ghost var headed := out[..];
      if src == out { SliceKept(was, headed, at, HDR, pt, n); }
      // memmove copies as if through a buffer of its own.
      Place(out, at + HDR, src[pt..pt + n]);
      ghost var filled := out[..];
      out[at + HDR + n] := kind;
      assert out[..] == filled[at + HDR + n := kind];
      LaidOut(was, headed, filled, out[..], at, head, content, kind);
    }

    /** seal_body's AEAD, in place. */
    method SealBody(nonce: seq<Byte>, aad: seq<Byte>, a: array<Byte>, at: nat, n: nat) returns (tag: seq<Byte>)
      requires Valid() && |nonce| == 12 && at + n <= a.Length
      modifies a
      ensures a[at..at + n] == c.stream(key, nonce, old(a[at..at + n])) && tag == c.tag(key, nonce, aad, a[at..at + n])
      ensures a[..at] == old(a[..at]) && a[at + n..] == old(a[at + n..])
    {
      assert Within(0);
      match suite
      case Chacha(p) => tag := Aead.Seal(p, key, nonce, aad, a, at, at, n);
      case AesGcm(g) => tag := Gcm.Seal(g, key, nonce, aad, a, at, at, n);
    }

    /** open_body's AEAD: the two arms differ in what a wrong tag leaves behind. */
    method OpenBody(nonce: seq<Byte>, aad: seq<Byte>, a: array<Byte>, from: nat, to: nat, n: nat, tag: seq<Byte>,
                    ghost was: seq<Byte>, ghost ct: seq<Byte>)
      returns (ok: bool)
      requires Valid() && |nonce| == 12 && to <= from && from + n <= a.Length && was == a[..] && ct == a[from..from + n]
      modifies a
      ensures ok <==> tag == c.tag(key, nonce, aad, ct)
      ensures ok ==> a[to..to + n] == c.stream(key, nonce, ct) && a[..to] == was[..to]
      ensures !ok ==> a[..] == LeftOf(suite, was, to, n)
    {
      assert Within(0);
      match suite
      case Chacha(p) => ok := Aead.Open(p, key, nonce, aad, a, from, to, n, tag);
      case AesGcm(g) =>
        ok := Gcm.Open(g, key, nonce, aad, a, from, to, n, tag);
        ThreeParts(a[..], to, n);
    }

    /** The bytes behind the header are encrypted in place, and the tag follows them. */
    method Protect(out: array<Byte>, at: nat, n: nat, ghost head: seq<Byte>, ghost inner: seq<Byte>)
      requires Valid() && at + HDR + n + TAG <= out.Length
      requires head == out[at..at + HDR] && inner == out[at + HDR..at + HDR + n]
      modifies out
      ensures out[at..at + HDR + n + TAG] == Shielded(c, key, Nonce(iv, seqNo), head, inner)
      ensures out[..at] == old(out[..at])
    {
      ghost var was := out[..];
      var nonce := NonceOf();
      var tag := SealBody(nonce, out[at..at + HDR], out, at + HDR, n);
      ghost var sealed := out[..];
      Place(out, at + HDR + n, tag);
      TagBehind(was, sealed, out[..], at, n, tag);
    }

    /** The record of a content that fits: rec_seal behind its refusals. */
    method SealContent(kind: Byte, src: array<Byte>, pt: nat, n: nat, out: array<Byte>, at: nat,
                       ghost content: seq<Byte>)
      requires Valid() && pt + n <= src.Length && n + 1 + TAG <= 0x4100 && at + HDR + n + 1 + TAG <= out.Length
      requires content == src[pt..pt + n] && (src == out ==> pt >= at + HDR || pt + n <= at)
      modifies out
      ensures out[at..at + HDR + n + 1 + TAG] == Sealed(c, key, iv, seqNo, kind, content)
      ensures out[..at] == old(out[..at])
    {
      BuildInner(kind, src, pt, n, out, at);
      HeadAndInner(out[..], at, n + 1, Header(n + 1 + TAG), Inner(kind, content));
      Protect(out, at, n + 1, Header(n + 1 + TAG), Inner(kind, content));
    }

    /** rec_seal: content from src at pt, or already at its place, to one record in out. */
    method Seal(kind: Byte, src: array<Byte>, pt: nat, n: nat, out: array<Byte>, at: nat, cap: nat)
      returns (ok: bool, outLen: nat)
      requires Valid() && pt + n <= src.Length && at + cap <= out.Length
      requires src == out ==> pt >= at + HDR || pt + n <= at
      modifies this, out
      ensures Valid()
      ensures ok <==> && old(seqNo) < LAST && (suite.AesGcm? ==> old(seqNo) < AES_RECORDS_MAX)
                      && n + 1 + TAG <= 0x4100 && HDR + n + 1 + TAG <= cap
      ensures ok ==> seqNo == old(seqNo) + 1 && outLen == HDR + n + 1 + TAG
      ensures ok ==> out[at..at + outLen] == Sealed(c, key, iv, old(seqNo), kind, old(src[pt..pt + n]))
      ensures ok ==> out[..at] == old(out[..at])
      ensures !ok ==> seqNo == old(seqNo) && out[..] == old(out[..])
    {
      outLen := 0;
      if seqNo == LAST || (suite.AesGcm? && seqNo >= AES_RECORDS_MAX) {
        return false, outLen;
      }
      if n + 1 + TAG > 0x4100 || HDR + n + 1 + TAG > cap {
        return false, outLen;
      }
      SealContent(kind, src, pt, n, out, at, src[pt..pt + n]);
      ok, outLen := true, HDR + n + 1 + TAG;
      seqNo := seqNo + 1;
    }

    /** The length and header rules of rec_open. */
    method CheckRecord(a: array<Byte>, rec: nat, n: nat, cap: nat, ghost r: seq<Byte>) returns (fine: bool, inner: nat)
      requires Valid() && rec + n <= a.Length && r == a[rec..rec + n]
      ensures fine ==> WellFormed(seqNo, r) && inner == n - HDR - TAG <= cap
      ensures !fine && n <= cap ==> !WellFormed(seqNo, r)
    {
      fine, inner := false, 0;
      if seqNo == LAST || n < HDR + 1 + TAG {
        return;
      }
      var body := 256 * (a[rec + 3] as int) + a[rec + 4];
      assert body == BodyLength(r);
      if a[rec] != APPDATA || body != n - HDR || body > 0x4100 {
        return;
      }
      inner := body - TAG;
      fine := inner <= 0x4001 && inner <= cap;
    }

    /** open_body on a record in its three parts. */
    method Uncover(a: array<Byte>, rec: nat, n: nat, pt: nat, ghost was: seq<Byte>, ghost q: nat,
                   ghost head: seq<Byte>, ghost ct: seq<Byte>, ghost tag: seq<Byte>)
      returns (opens: bool)
      requires Valid() && q == seqNo && was == a[..] && IsCut(was, rec, n, head, ct, tag) && pt <= rec + HDR
      modifies a
      ensures opens <==> tag == c.tag(key, Nonce(iv, q), head, ct)
      ensures opens ==> a[..pt] == was[..pt] && a[pt..pt + |ct|] == c.stream(key, Nonce(iv, q), ct)
      ensures !opens ==> a[..] == LeftOf(suite, was, pt, |ct|)
    {
      var nonce := NonceOf();
      assert a[..] == was;
      opens := OpenBody(nonce, a[rec..rec + HDR], a, rec + HDR, pt, n - HDR - TAG, a[rec + n - TAG..rec + n], was, ct);
    }

    /** A record whose header is in order: its plaintext, or none of it. */
    method Decrypt(a: array<Byte>, rec: nat, n: nat, pt: nat, ghost was: seq<Byte>, ghost q: nat, ghost r: seq<Byte>)
      returns (opens: bool, ghost plain: seq<Byte>)
      requires Valid() && rec + n <= a.Length && pt <= rec + HDR && was == a[..] && q == seqNo
      requires r == was[rec..rec + n] && WellFormed(q, r)
      modifies a
      ensures |plain| == n - HDR - TAG && Opens(c, key, iv, q, r, if opens then Unpad(plain) else Refused)
      ensures opens ==> a[..pt] == was[..pt] && a[pt..pt + |plain|] == plain
      ensures !opens ==> a[..] == LeftOf(suite, was, pt, |plain|)
    {
      ghost var head, ct := was[rec..rec + HDR], was[rec + HDR..rec + HDR + (n - HDR - TAG)];
      ghost var tag := was[rec + n - TAG..rec + n];
      plain := c.stream(key, Nonce(iv, q), ct);
      opens := Uncover(a, rec, n, pt, was, q, head, ct, tag);
      Judged(c, key, iv, q, was, rec, n, r, head, ct, tag, opens);
    }

    /** rec_open up to its padding loop. */
    method Reveal(a: array<Byte>, rec: nat, n: nat, pt: nat, cap: nat, ghost r: seq<Byte>)
      returns (opens: bool, inner: nat)
      requires Valid() && rec + n <= a.Length && pt <= rec + HDR && pt + cap <= a.Length && r == a[rec..rec + n]
      modifies a
      ensures opens ==> seqNo < LAST && inner <= cap && a[..pt] == old(a[..pt])
      ensures opens ==> Opens(c, key, iv, seqNo, r, Unpad(a[pt..pt + inner]))
      ensures !opens ==> Shut(old(a[..]), a[..], pt, n)
      ensures !opens && n <= cap ==> Opens(c, key, iv, seqNo, r, Refused)
    {
      opens, inner := CheckRecord(a, rec, n, cap, r);
      if opens {
        ghost var plain;
        opens, plain := Decrypt(a, rec, n, pt, a[..], seqNo, r);
      } else if n <= cap {
        Misshapen(c, key, iv, seqNo, r);
      }
    }

    /** What a refusal leaves: the buffer as it was, or as the AEAD leaves one with a wrong tag. */
    ghost predicate Shut(was: seq<Byte>, now: seq<Byte>, pt: nat, n: nat) {
      now == was || (HDR + TAG <= n && pt + (n - HDR - TAG) <= |was| && now == LeftOf(suite, was, pt, n - HDR - TAG))
    }

    /** rec_open: the inner plaintext at pt, at or below the ciphertext, its padding stripped. */
    method Open(a: array<Byte>, rec: nat, n: nat, pt: nat, cap: nat) returns (ok: bool, kind: Byte, len: nat)
      requires Valid() && rec + n <= a.Length && pt <= rec + HDR && pt + cap <= a.Length
      modifies this, a
      ensures Valid() && a[..pt] == old(a[..pt]) && old(seqNo) <= seqNo <= old(seqNo) + 1
      ensures ok ==> seqNo == old(seqNo) + 1 && pt + len < a.Length
      ensures ok ==> OpenOf(c, key, iv, old(seqNo), old(a[rec..rec + n])) == Opened(kind, a[pt..pt + len])
      ensures !ok && n <= cap ==> OpenOf(c, key, iv, old(seqNo), old(a[rec..rec + n])) == Refused
      ensures seqNo == old(seqNo) ==> !ok && Shut(old(a[..]), a[..], pt, n)
    {
      var opens, inner := Reveal(a, rec, n, pt, cap, a[rec..rec + n]);
      assert Look(0);
      if !opens {
        return false, 0, 0;
      }
      ok, kind, len := Strip(a, pt, inner);
      seqNo := seqNo + 1;
    }

    /** The padding loop of rec_open. */
    method Strip(a: array<Byte>, pt: nat, n: nat) returns (ok: bool, kind: Byte, len: nat)
      requires pt + n <= a.Length
      ensures ok ==> len < n && Unpad(a[pt..pt + n]) == Opened(kind, a[pt..pt + len])
      ensures !ok ==> Unpad(a[pt..pt + n]) == Refused
    {
      var inner := n;
      while inner > 0 && a[pt + inner - 1] == 0
        invariant 0 <= inner <= n && Unpad(a[pt..pt + n]) == Unpad(a[pt..pt + inner])
      {
        assert a[pt..pt + inner][..inner - 1] == a[pt..pt + (inner - 1)];
        inner := inner - 1;
      }
      if inner == 0 {
        return false, 0, 0;
      }
      assert a[pt..pt + inner][..inner - 1] == a[pt..pt + (inner - 1)];
      return true, a[pt + inner - 1], inner - 1;
    }
  }

  /** Bytes outside a stretch of k at at stay when the stretch is written. */
  lemma SliceKept(s: seq<Byte>, t: seq<Byte>, at: nat, k: nat, from: nat, n: nat)
    requires |s| == |t| && at + k <= |s| && s[..at] == t[..at] && s[at + k..] == t[at + k..]
    requires from + n <= |s| && (from >= at + k || from + n <= at)
    ensures s[from..from + n] == t[from..from + n]
  {
    if from + n <= at {
      assert s[from..from + n] == s[..at][from..from + n] && t[from..from + n] == t[..at][from..from + n];
    } else {
      var d := from - at - k;
      assert s[from..from + n] == s[at + k..][d..d + n] && t[from..from + n] == t[at + k..][d..d + n];
    }
  }

  lemma LaidOut(was: seq<Byte>, headed: seq<Byte>, filled: seq<Byte>, done: seq<Byte>,
                at: nat, head: seq<Byte>, content: seq<Byte>, kind: Byte)
    requires |was| == |headed| == |filled| && |head| == HDR && at + HDR + |content| + 1 <= |was|
    requires headed[at..at + HDR] == head && headed[..at] == was[..at]
    requires filled[at + HDR..at + HDR + |content|] == content && filled[..at + HDR] == headed[..at + HDR]
    requires done == filled[at + HDR + |content| := kind]
    ensures done[at..at + HDR + |content| + 1] == head + Inner(kind, content) && done[..at] == was[..at]
  {
    var n := |content|;
    FrontKept(headed, filled, at, at + HDR);
    assert done[at..at + HDR] == filled[at..at + HDR] && done[..at] == filled[..at];
    assert done[at + HDR..at + HDR + n] == filled[at + HDR..at + HDR + n];
    assert done[at + HDR + n..at + HDR + n + 1] == [kind];
    JoinSlices(done, at, HDR, n, 1);
  }

  lemma ThreeParts(s: seq<Byte>, at: nat, n: nat)
    requires at + n <= |s|
    ensures s == s[..at] + s[at..at + n] + s[at + n..]
  {}

  lemma TagBehind(was: seq<Byte>, sealed: seq<Byte>, done: seq<Byte>, at: nat, n: nat, tag: seq<Byte>)
    requires |was| == |sealed| == |done| && |tag| == TAG && at + HDR + n + TAG <= |was|
    requires sealed[..at + HDR] == was[..at + HDR] && done[..at + HDR + n] == sealed[..at + HDR + n]
    requires done[at + HDR + n..at + HDR + n + TAG] == tag
    ensures done[at..at + HDR + n + TAG] == was[at..at + HDR] + sealed[at + HDR..at + HDR + n] + tag
    ensures done[..at] == was[..at]
  {
    FrontKept(was, sealed, at, at + HDR);
    FrontKept(sealed, done, at + HDR, at + HDR + n);
    FrontKept(sealed, done, at, at + HDR);
    JoinSlices(done, at, HDR, n, TAG);
  }

  lemma HeadAndInner(s: seq<Byte>, at: nat, n: nat, head: seq<Byte>, inner: seq<Byte>)
    requires at + HDR + n <= |s| && |head| == HDR && |inner| == n && s[at..at + HDR + n] == head + inner
    ensures s[at..at + HDR] == head && s[at + HDR..at + HDR + n] == inner
  {
    var r := s[at..at + HDR + n];
    assert s[at..at + HDR] == r[..HDR] && s[at + HDR..at + HDR + n] == r[HDR..];
  }

  lemma JoinSlices(s: seq<Byte>, at: nat, i: nat, j: nat, k: nat)
    requires at + i + j + k <= |s|
    ensures s[at..at + i + j + k] == s[at..at + i] + s[at + i..at + i + j] + s[at + i + j..at + i + j + k]
  {}

  /** What rec_open makes of r is o. It stands behind Look, for the methods that only pass it on. */
  ghost predicate Opens(c: Cipher, key: seq<Byte>, iv: seq<Byte>, n: nat, r: seq<Byte>, o: Opened)
    requires |iv| == 12
  {
    forall m: int {:trigger Look(m)} :: Look(m) ==> OpenOf(c, key, iv, n, r) == o
  }

  /** A record at rec in its three parts. */
  ghost predicate IsCut(s: seq<Byte>, rec: nat, n: nat, head: seq<Byte>, ct: seq<Byte>, tag: seq<Byte>) {
    && rec + n <= |s| && n >= HDR + TAG
    && head == s[rec..rec + HDR] && ct == s[rec + HDR..rec + HDR + (n - HDR - TAG)] && tag == s[rec + n - TAG..rec + n]
  }

  lemma {:induction false} Misshapen(c: Cipher, key: seq<Byte>, iv: seq<Byte>, n: nat, r: seq<Byte>)
    requires |iv| == 12 && !WellFormed(n, r)
    ensures Opens(c, key, iv, n, r, Refused)
  {}

  lemma {:induction false} Judged(c: Cipher, key: seq<Byte>, iv: seq<Byte>, seqNo: nat, s: seq<Byte>, rec: nat, n: nat,
                                  r: seq<Byte>, head: seq<Byte>, ct: seq<Byte>, tag: seq<Byte>, good: bool)
    requires |iv| == 12 && IsCut(s, rec, n, head, ct, tag) && r == s[rec..rec + n] && WellFormed(seqNo, r)
    requires good <==> tag == c.tag(key, Nonce(iv, seqNo), head, ct)
    ensures Opens(c, key, iv, seqNo, r, if good then Unpad(c.stream(key, Nonce(iv, seqNo), ct)) else Refused)
  {
    SliceOf(s, rec, n, 0, HDR);
    SliceOf(s, rec, n, HDR, n - TAG);
    SliceOf(s, rec, n, n - TAG, n);
    assert r[n - TAG..] == r[n - TAG..n] && r[..HDR] == r[0..HDR];
  }

  lemma SliceOf(s: seq<Byte>, rec: nat, n: nat, i: nat, j: nat)
    requires rec + n <= |s| && i <= j <= n
    ensures s[rec..rec + n][i..j] == s[rec + i..rec + j]
  {
    var x, y := s[rec..rec + n][i..j], s[rec + i..rec + j];
    forall k | 0 <= k < j - i
      ensures x[k] == y[k]
    {
      assert s[rec..rec + n][i + k] == s[rec + (i + k)];
    }
  }
}
