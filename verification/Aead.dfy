/** The AEAD of src/aead.c over an abstract block function and one-time authenticator: the keystream
    loop of src/chacha20.c on one shared buffer, in place or with the output below the input, and
    the authenticated framing around it. */
module Aead {
  import opened Arith
  import opened Framing
  import opened Keystreams

  const BLOCK: nat := 64
  const WORD: nat := 0x1_0000_0000

  /** ChaCha20's block of a key, a nonce and a counter, and Poly1305's tag of a key and a message. */
  datatype Primitives = Primitives(block: (seq<Byte>, seq<Byte>, nat) -> seq<Byte>,
                                   poly: (seq<Byte>, seq<Byte>) -> seq<Byte>)

  ghost predicate Sound(p: Primitives) {
    && (forall k, n, c {:trigger p.block(k, n, c)} :: |p.block(k, n, c)| == BLOCK)
    && (forall k, m {:trigger p.poly(k, m)} :: |p.poly(k, m)| == 16)
  }

  /** The block that byte i of a stream comes from; the counter is a 32-bit word. */
  function BlockOf(counter: nat, i: nat): nat { (counter + i / BLOCK) % WORD }

  /** Byte i of the keystream that starts at a block counter. */
  function KeyByte(p: Primitives, key: seq<Byte>, nonce: seq<Byte>, counter: nat, i: nat): Byte
    requires Sound(p)
  {
    p.block(key, nonce, BlockOf(counter, i))[i % BLOCK]
  }

  function KeyBytes(p: Primitives, key: seq<Byte>, nonce: seq<Byte>, counter: nat): Keystream
    requires Sound(p)
  {
    (i: nat) => KeyByte(p, key, nonce, counter, i)
  }

  /** The data under the keystream. */
  function Stream(p: Primitives, key: seq<Byte>, nonce: seq<Byte>, counter: nat, data: seq<Byte>): seq<Byte>
    requires Sound(p)
  {
    XorWith(KeyBytes(p, key, nonce, counter), data)
  }

  /** chacha20_xor: whole blocks of keystream, in ascending order, on one buffer. */
  method ChachaXor(p: Primitives, key: seq<Byte>, nonce: seq<Byte>, counter: nat, a: array<Byte>, from: nat, to: nat,
                   n: nat)
    requires Sound(p) && to <= from && from + n <= a.Length && counter < WORD
    modifies a
    ensures a[to..to + n] == Stream(p, key, nonce, counter, old(a[from..from + n]))
    ensures a[..to] == old(a[..to]) && a[to + n..] == old(a[to + n..])
  {
    ghost var before, b, ks := a[..], 0, KeyBytes(p, key, nonce, counter);
    var state, done := counter, 0;
    while done < n
      invariant 0 <= done <= n && (done < n ==> done == BLOCK * b)
      invariant state == (counter + b) % WORD
      invariant Xored(ks, before, a[..], from, to, done)
    {
      var block := p.block(key, nonce, state);
      var take := if n - done < BLOCK then n - done else BLOCK;
      KeystreamBlock(p, key, nonce, counter, b, block);
      XorBlock(a, from, to, done, take, block, ks, before);
      state := NextCounter(state, counter, b);
      done := done + take;
      b := b + 1;
    }
    XoredIsXorWith(ks, before, a[..], from, to, n);
  }

  /** state[12]++. */
  function NextCounter(state: nat, ghost counter: nat, ghost b: nat): (next: nat)
    requires state == (counter + b) % WORD
    ensures next == (counter + b + 1) % WORD
  {
    (state + 1) % WORD
  }

  lemma KeystreamBlock(p: Primitives, key: seq<Byte>, nonce: seq<Byte>, counter: nat, b: nat, block: seq<Byte>)
    requires Sound(p) && block == p.block(key, nonce, (counter + b) % WORD)
    ensures forall i {:trigger block[i]} ::
              0 <= i < BLOCK ==> block[i] == KeyBytes(p, key, nonce, counter)(BLOCK * b + i)
  {
    forall i {:trigger block[i]} | 0 <= i < BLOCK
      ensures block[i] == KeyBytes(p, key, nonce, counter)(BLOCK * b + i)
    {
      assert (BLOCK * b + i) / BLOCK == b && (BLOCK * b + i) % BLOCK == i;
    }
  }

  /** n in k bytes, low byte first. */
  function LittleEndian(n: nat, k: nat): (r: seq<Byte>)
    ensures |r| == k
  {
    if k == 0 then [] else [n % 256] + LittleEndian(n / 256, k - 1)
  }

  lemma {:induction false} LittleEndianInjective(m: nat, n: nat, k: nat)
    requires m < Pow(256, k) && n < Pow(256, k) && LittleEndian(m, k) == LittleEndian(n, k)
    ensures m == n
  {
    if k > 0 {
      var a, b := LittleEndian(m, k), LittleEndian(n, k);
      assert a[0] == m % 256 && b[0] == n % 256;
      assert a[1..] == LittleEndian(m / 256, k - 1) && b[1..] == LittleEndian(n / 256, k - 1);
      LittleEndianInjective(m / 256, n / 256, k - 1);
    }
  }

  /** The zeros that fill n bytes to whole 16-byte blocks. */
  function Pad(n: nat): seq<Byte> { seq((16 - n % 16) % 16, i => 0) }

  /** The MAC input of RFC 8439 section 2.8. */
  function MacInput(aad: seq<Byte>, ct: seq<Byte>): seq<Byte> {
    aad + Pad(|aad|) + ct + Pad(|ct|) + LittleEndian(|aad|, 8) + LittleEndian(|ct|, 8)
  }

  /** The framing loses nothing: two inputs alike are alike in both parts. */
  lemma MacInputInjective(a: seq<Byte>, c: seq<Byte>, a': seq<Byte>, c': seq<Byte>)
    requires |a| < Pow(256, 8) && |a'| < Pow(256, 8) && |c| < Pow(256, 8) && |c'| < Pow(256, 8)
    requires MacInput(a, c) == MacInput(a', c')
    ensures a == a' && c == c'
  {
    var m, n := MacInput(a, c), MacInput(a', c');
    LastLengths(a, c, m);
    LastLengths(a', c', n);
    LittleEndianInjective(|a|, |a'|, 8);
    LittleEndianInjective(|c|, |c'|, 8);
    var at := |a| + |Pad(|a|)|;
    assert m[..|a|] == a && n[..|a|] == a';
    assert m[at..at + |c|] == c && n[at..at + |c|] == c';
  }

  lemma LastLengths(aad: seq<Byte>, ct: seq<Byte>, m: seq<Byte>)
    requires m == MacInput(aad, ct)
    ensures |m| >= 16 && m[|m| - 16..|m| - 8] == LittleEndian(|aad|, 8) && m[|m| - 8..] == LittleEndian(|ct|, 8)
  {}

  /** No two bytes of a stream from block 1 on are under one byte of the block function, and none under block 0, which
      keys the tag, for all the 2^32 - 1 blocks that the counter can name. */
  lemma OneTimeBytes(i: nat, j: nat)
    requires i < j < BLOCK * (WORD - 1)
    ensures BlockOf(1, i) != 0 && BlockOf(1, j) != 0
    ensures BlockOf(1, i) != BlockOf(1, j) || i % BLOCK != j % BLOCK
  {}

  /** The tag, under a key from block 0. */
  function Tag(p: Primitives, key: seq<Byte>, nonce: seq<Byte>, aad: seq<Byte>, ct: seq<Byte>): seq<Byte>
    requires Sound(p)
  {
    p.poly(p.block(key, nonce, 0)[..32], MacInput(aad, ct))
  }

  /** aead_seal: the ciphertext lands at to, the tag is returned. */
  method Seal(p: Primitives, key: seq<Byte>, nonce: seq<Byte>, aad: seq<Byte>, a: array<Byte>, from: nat, to: nat,
              n: nat)
    returns (tag: seq<Byte>)
    requires Sound(p) && to <= from && from + n <= a.Length
    modifies a
    ensures a[to..to + n] == Stream(p, key, nonce, 1, old(a[from..from + n]))
    ensures a[..to] == old(a[..to]) && a[to + n..] == old(a[to + n..])
    ensures tag == Tag(p, key, nonce, aad, a[to..to + n])
  {
    ChachaXor(p, key, nonce, 1, a, from, to, n);
    tag := Tag(p, key, nonce, aad, a[to..to + n]);
  }

  /** aead_open: all or nothing. */
  method Open(p: Primitives, key: seq<Byte>, nonce: seq<Byte>, aad: seq<Byte>, a: array<Byte>, from: nat, to: nat,
              n: nat, tag: seq<Byte>)
    returns (ok: bool)
    requires Sound(p) && to <= from && from + n <= a.Length
    modifies a
    ensures ok <==> tag == Tag(p, key, nonce, aad, old(a[from..from + n]))
    ensures !ok ==> a[..] == old(a[..])
    ensures ok ==> a[to..to + n] == Stream(p, key, nonce, 1, old(a[from..from + n]))
    ensures ok ==> a[..to] == old(a[..to]) && a[to + n..] == old(a[to + n..])
  {
    ok := tag == Tag(p, key, nonce, aad, a[from..from + n]);
    if ok {
      ChachaXor(p, key, nonce, 1, a, from, to, n);
    }
  }

  /** What was sealed opens to the plaintext, in place and with any backward overlap; under any other
      tag the buffer stays as the seal left it. */
  method SealThenOpen(p: Primitives, key: seq<Byte>, nonce: seq<Byte>, aad: seq<Byte>, a: array<Byte>, pt: nat, ct: nat,
                      out: nat, n: nat, forged: seq<Byte>)
    returns (tag: seq<Byte>, accepted: bool)
    requires Sound(p) && out <= ct <= pt && pt + n <= a.Length
    modifies a
    ensures accepted <==> forged == tag
    ensures accepted ==> a[out..out + n] == old(a[pt..pt + n])
    ensures !accepted ==> a[ct..ct + n] == Stream(p, key, nonce, 1, old(a[pt..pt + n])) && a[..ct] == old(a[..ct])
  {
    tag := Seal(p, key, nonce, aad, a, pt, ct, n);
    accepted := Open(p, key, nonce, aad, a, ct, out, n, forged);
    XorTwice(KeyBytes(p, key, nonce, 1), old(a[pt..pt + n]));
  }
}
