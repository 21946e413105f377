/** AES-GCM as a record uses it, over an abstract block cipher and an abstract GHASH: src/gcm.c:124-143,
    247-286 and 293-385. Its open decrypts before it compares the tags, and wipes what it wrote on a mismatch. */
module Gcm {
  import opened Common
  import opened Framing
  import opened Keystreams

  const SIZE: nat := 16
  const WORD: nat := 0x1_0000_0000

  /** The forward cipher of a key and a block, and GHASH under a key of the associated data and the ciphertext. */
  datatype Aes = Aes(cipher: (seq<Byte>, seq<Byte>) -> seq<Byte>, ghash: (seq<Byte>, seq<Byte>, seq<Byte>) -> seq<Byte>)

  ghost predicate Sound(g: Aes) {
    && (forall k, b {:trigger g.cipher(k, b)} :: |g.cipher(k, b)| == SIZE)
    && (forall k, a, c {:trigger g.ghash(k, a, c)} :: |g.ghash(k, a, c)| == SIZE)
  }

  function Pair(x: nat): (b: seq<Byte>)
    requires x < 0x1_0000
    ensures |b| == 2 && 0x100 * (b[0] as int) + b[1] == x
  {
    [x / 0x100, x % 0x100]
  }

  /** The counter block of a nonce and a 32-bit count, high byte first. */
  function CounterBlock(nonce: seq<Byte>, c: nat): seq<Byte>
    requires c < WORD
  {
    nonce + Pair(c / 0x1_0000) + Pair(c % 0x1_0000)
  }

  /** The count whose block byte i of a stream comes from: they start at 1, and the first block is the next one's. */
  function CountOf(i: nat): nat { (2 + i / SIZE) % WORD }

  function KeyByte(g: Aes, key: seq<Byte>, nonce: seq<Byte>, i: nat): Byte
    requires Sound(g)
  {
    g.cipher(key, CounterBlock(nonce, CountOf(i)))[i % SIZE]
  }

  function KeyBytes(g: Aes, key: seq<Byte>, nonce: seq<Byte>): Keystream
    requires Sound(g)
  {
    (i: nat) => KeyByte(g, key, nonce, i)
  }

  function Stream(g: Aes, key: seq<Byte>, nonce: seq<Byte>, data: seq<Byte>): seq<Byte>
    requires Sound(g)
  {
    XorWith(KeyBytes(g, key, nonce), data)
  }

  /** No two bytes of a stream are under one byte of the block cipher, and none under count 1, which masks the tag, for
      all the 2^32 - 1 blocks that the count can name. */
  lemma OneTimeBytes(i: nat, j: nat)
    requires i < j < SIZE * (WORD - 1)
    ensures CountOf(i) != 1 && CountOf(j) != 1
    ensures CountOf(i) != CountOf(j) || i % SIZE != j % SIZE
  {}

  /** GHASH under the mask of the first counter block. */
  function Tag(g: Aes, key: seq<Byte>, nonce: seq<Byte>, aad: seq<Byte>, ct: seq<Byte>): seq<Byte>
    requires Sound(g)
  {
    var mask := g.cipher(key, CounterBlock(nonce, 1));
    XorWith((i: nat) => if i < SIZE then mask[i] else 0, g.ghash(key, aad, ct))
  }

  /** One byte of a carry chain. */
  function CarryByte(b: Byte, carry: nat): (r: (Byte, nat))
    requires carry <= 1
    ensures r.1 <= 1 && b + carry == r.0 + 0x100 * r.1
  {
    if b as int + carry < 0x100 then (b + carry, 0) else (0, 1)
  }

  ghost function Low32(b: seq<Byte>): nat
    requires |b| == SIZE
  {
    0x100_0000 * (b[12] as int) + 0x1_0000 * (b[13] as int) + 0x100 * (b[14] as int) + b[15]
  }

  lemma PairOf(x: Byte, y: Byte)
    ensures Pair(0x100 * (x as int) + y) == [x, y]
  {}

  lemma CounterBytes(b: seq<Byte>, nonce: seq<Byte>, c: nat)
    requires |b| == SIZE && |nonce| == 12 && b[..12] == nonce && c < WORD && Low32(b) == c
    ensures b == CounterBlock(nonce, c)
  {
    var high, low := 0x100 * (b[12] as int) + b[13], 0x100 * (b[14] as int) + b[15];
    assert c == 0x1_0000 * high + low;
    assert c / 0x1_0000 == high && c % 0x1_0000 == low;
    PairOf(b[12], b[13]);
    PairOf(b[14], b[15]);
    assert b == b[..12] + [b[12], b[13]] + [b[14], b[15]];
  }

  lemma CounterLow(b: seq<Byte>, nonce: seq<Byte>, c: nat)
    requires |nonce| == 12 && c < WORD && b == CounterBlock(nonce, c)
    ensures |b| == SIZE && b[..12] == nonce && Low32(b) == c
  {
    var h, l := Pair(c / 0x1_0000), Pair(c % 0x1_0000);
    assert b[12] == h[0] && b[13] == h[1] && b[14] == l[0] && b[15] == l[1];
  }

  /** increment_counter: the carry runs through the last four bytes, and the count wraps at 2^32. */
  method IncrementCounter(counter: array<Byte>, ghost nonce: seq<Byte>, ghost c: nat)
    requires counter.Length == SIZE && |nonce| == 12 && c < WORD && counter[..] == CounterBlock(nonce, c)
    modifies counter
    ensures counter[..] == CounterBlock(nonce, (c + 1) % WORD)
  {
    ghost var was := counter[..];
    CounterLow(was, nonce, c);
    var carry: nat := 1;
    for i := 0 to 4
      invariant carry <= 1 && counter[..12] == nonce
      invariant Low32(counter[..]) + Weight(i) * carry == c + 1
    {
      ghost var before := counter[..];
      var r := CarryByte(counter[15 - i], carry);
      counter[15 - i] := r.0;
      assert counter[..] == before[15 - i := r.0];
      CarryMoves(before, i, r.0, carry, r.1);
      carry := r.1;
    }
    CounterBytes(counter[..], nonce, (c + 1) % WORD);
  }

  /** What a carry into byte i from the end is worth. */
  ghost function Weight(i: nat): nat {
    if i == 0 then 1 else if i == 1 then 0x100 else if i == 2 then 0x1_0000 else if i == 3 then 0x100_0000 else WORD
  }

  lemma CarryMoves(b: seq<Byte>, i: nat, r: Byte, carry: nat, next: nat)
    requires |b| == SIZE && i < 4 && b[15 - i] + carry == r + 0x100 * next
    ensures Low32(b[15 - i := r]) + Weight(i + 1) * next == Low32(b) + Weight(i) * carry
    ensures b[15 - i := r][..12] == b[..12]
  {
    if i == 0 {} else if i == 1 {} else if i == 2 {}
  }

  lemma KeystreamBlock(g: Aes, key: seq<Byte>, nonce: seq<Byte>, b: nat, block: seq<Byte>)
    requires Sound(g) && block == g.cipher(key, CounterBlock(nonce, (2 + b) % WORD))
    ensures forall i {:trigger block[i]} :: 0 <= i < SIZE ==> block[i] == KeyBytes(g, key, nonce)(SIZE * b + i)
  {
    forall i {:trigger block[i]} | 0 <= i < SIZE
      ensures block[i] == KeyBytes(g, key, nonce)(SIZE * b + i)
    {
      assert (SIZE * b + i) / SIZE == b && (SIZE * b + i) % SIZE == i;
    }
  }

  /** The counter has come to block b. It stands behind Look, so that the loop over a buffer does not open it. */
  ghost predicate Counted(counter: seq<Byte>, nonce: seq<Byte>, b: nat) {
    forall m: int {:trigger Look(m)} :: Look(m) ==> counter == CounterBlock(nonce, (1 + b) % WORD)
  }

  /** first_counter_block. */
  method FirstCounter(nonce: seq<Byte>) returns (counter: array<Byte>)
    requires |nonce| == 12
    ensures fresh(counter) && counter.Length == SIZE && Counted(counter[..], nonce, 0)
  {
    var first := CounterBlock(nonce, 1);
    counter := new Byte[SIZE](i requires 0 <= i < SIZE && |first| == SIZE => first[i]);
    assert counter[..] == first;
  }

  /** The next block of keystream. */
  method NextBlock(g: Aes, key: seq<Byte>, counter: array<Byte>, ghost nonce: seq<Byte>, ghost b: nat)
    returns (block: seq<Byte>)
    requires Sound(g) && |nonce| == 12 && counter.Length == SIZE && Counted(counter[..], nonce, b)
    modifies counter
    ensures Counted(counter[..], nonce, b + 1) && |block| == SIZE
    ensures forall i {:trigger block[i]} :: 0 <= i < SIZE ==> block[i] == KeyBytes(g, key, nonce)(SIZE * b + i)
  {
    assert Look(0);
    IncrementCounter(counter, nonce, (1 + b) % WORD);
    NextCount(b);
    block := g.cipher(key, counter[..]);
    KeystreamBlock(g, key, nonce, b, block);
  }

  lemma NextCount(b: nat)
    ensures ((1 + b) % WORD + 1) % WORD == (2 + b) % WORD
  {}

  /** counter_mode: a block of keystream at a time, in ascending order, on one buffer. */
  method CounterMode(g: Aes, key: seq<Byte>, nonce: seq<Byte>, a: array<Byte>, from: nat, to: nat, n: nat)
    requires Sound(g) && |nonce| == 12 && to <= from && from + n <= a.Length
    modifies a
    ensures a[to..to + n] == Stream(g, key, nonce, old(a[from..from + n]))
    ensures a[..to] == old(a[..to]) && a[to + n..] == old(a[to + n..])
  {
    ghost var before, b: nat, ks := a[..], 0, KeyBytes(g, key, nonce);
    var counter := FirstCounter(nonce);
    var done := 0;
    while done < n
      invariant 0 <= done <= n && (done < n ==> done == SIZE * b)
      invariant fresh(counter) && counter.Length == SIZE && Counted(counter[..], nonce, b)
      invariant Xored(ks, before, a[..], from, to, done)
    {
      var block := NextBlock(g, key, counter, nonce, b);
      var take := if n - done < SIZE then n - done else SIZE;
      XorBlock(a, from, to, done, take, block, ks, before);
      done := done + take;
      b := b + 1;
    }
    XoredIsXorWith(ks, before, a[..], from, to, n);
  }

  /** seal_schedule: the ciphertext lands at to, the tag is returned. */
  method Seal(g: Aes, key: seq<Byte>, nonce: seq<Byte>, aad: seq<Byte>, a: array<Byte>, from: nat, to: nat, n: nat)
    returns (tag: seq<Byte>)
    requires Sound(g) && |nonce| == 12 && to <= from && from + n <= a.Length
    modifies a
    ensures a[to..to + n] == Stream(g, key, nonce, old(a[from..from + n]))
    ensures a[..to] == old(a[..to]) && a[to + n..] == old(a[to + n..])
    ensures tag == Tag(g, key, nonce, aad, a[to..to + n])
  {
    CounterMode(g, key, nonce, a, from, to, n);
    tag := Tag(g, key, nonce, aad, a[to..to + n]);
  }

  method Wipe(a: array<Byte>, to: nat, n: nat)
    requires to + n <= a.Length
    modifies a
    ensures a[to..to + n] == seq(n, i => 0)
    ensures a[..to] == old(a[..to]) && a[to + n..] == old(a[to + n..])
  {
    for i := 0 to n
      invariant forall j {:trigger a[j]} :: to <= j < to + i ==> a[j] == 0
      invariant forall j {:trigger a[j]} :: 0 <= j < to || to + i <= j < a.Length ==> a[j] == old(a[j])
    {
      a[to + i] := 0;
    }
  }

  /** open_schedule: the tag of the ciphertext is taken before the plaintext goes over it, and n zeros are all a
      wrong tag leaves of the plaintext. */
  method Open(g: Aes, key: seq<Byte>, nonce: seq<Byte>, aad: seq<Byte>, a: array<Byte>, from: nat, to: nat, n: nat,
              tag: seq<Byte>)
    returns (ok: bool)
    requires Sound(g) && |nonce| == 12 && to <= from && from + n <= a.Length
    modifies a
    ensures ok <==> tag == Tag(g, key, nonce, aad, old(a[from..from + n]))
    ensures a[to..to + n] == if ok then Stream(g, key, nonce, old(a[from..from + n])) else seq(n, i => 0)
    ensures a[..to] == old(a[..to]) && a[to + n..] == old(a[to + n..])
  {
    var want := Tag(g, key, nonce, aad, a[from..from + n]);
    CounterMode(g, key, nonce, a, from, to, n);
    ok := tag == want;
    if !ok {
      Wipe(a, to, n);
    }
  }
}
