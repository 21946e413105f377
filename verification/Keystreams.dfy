/** Data under a keystream, on one shared buffer whose output sits at or below its input: the inner loop
    of src/chacha20.c:95-119 and of src/gcm.c:247-268. */
module Keystreams {
  import opened Arith
  import opened Bits
  import opened Framing

  /** Byte i of a keystream. */
  type Keystream = nat -> Byte

  function XorByte(a: Byte, b: Byte): Byte {
    assert Pow(2, 8) == 256 by { PowAdd(2, 4, 4); }
    XorBound(a, b, 8);
    Xor(a, b)
  }

  /** Each bit of a byte under a key byte is the sum of the two modulo 2. */
  lemma XorByteBits(a: Byte, b: Byte, i: nat)
    ensures Bit(XorByte(a, b), i) == (Bit(a, i) + Bit(b, i)) % 2
  {
    XorBits(a, b, i);
  }

  lemma XorByteTwice(a: Byte, b: Byte)
    ensures XorByte(XorByte(a, b), b) == a
  {
    XorCancel(a, b);
    XorComm(XorByte(a, b), b);
  }

  /** Each byte of data under its own key byte. */
  function XorWith(ks: Keystream, data: seq<Byte>): (r: seq<Byte>)
    ensures |r| == |data|
  {
    seq<Byte>(|data|, (i: nat) requires i < |data| => XorByte(data[i], ks(i)))
  }

  /** Bit t of byte i of the data, summed modulo 2 with bit t of byte i of the keystream. */
  lemma XorWithBits(ks: Keystream, data: seq<Byte>, i: nat, t: nat)
    requires i < |data|
    ensures Bit(XorWith(ks, data)[i], t) == (Bit(data[i], t) + Bit(ks(i), t)) % 2
  {
    XorByteBits(data[i], ks(i), t);
  }

  /** A keystream undoes itself. */
  lemma XorTwice(ks: Keystream, data: seq<Byte>)
    ensures XorWith(ks, XorWith(ks, data)) == data
  {
    forall i | 0 <= i < |data|
      ensures XorWith(ks, XorWith(ks, data))[i] == data[i]
    {
      XorByteTwice(data[i], ks(i));
    }
  }

  /** Each byte of [to, to + done) is the old input byte under its key byte. */
  ghost predicate Xored(ks: Keystream, before: seq<Byte>, after: seq<Byte>, from: nat, to: nat, done: nat) {
    && |after| == |before| && to <= from && from + done <= |before|
    && (forall j {:trigger after[j]} ::
          to <= j < to + done ==> after[j] == XorByte(before[from + (j - to)], ks(j - to)))
    && (forall j {:trigger after[j]} :: 0 <= j < to || to + done <= j < |after| ==> after[j] == before[j])
  }

  /** One block's loop: take bytes at done, under a block of the keystream. */
  method XorBlock(a: array<Byte>, from: nat, to: nat, done: nat, take: nat, block: seq<Byte>,
                  ghost ks: Keystream, ghost before: seq<Byte>)
    requires take <= |block| && from + done + take <= a.Length && Xored(ks, before, a[..], from, to, done)
    requires forall i {:trigger block[i]} :: 0 <= i < take ==> block[i] == ks(done + i)
    modifies a
    ensures Xored(ks, before, a[..], from, to, done + take)
  {
    for i := 0 to take
      invariant Xored(ks, before, a[..], from, to, done + i)
    {
      a[to + done + i] := XorByte(a[from + done + i], block[i]);
    }
  }

  lemma XoredIsXorWith(ks: Keystream, before: seq<Byte>, after: seq<Byte>, from: nat, to: nat, n: nat)
    requires Xored(ks, before, after, from, to, n)
    ensures after[to..to + n] == XorWith(ks, before[from..from + n])
    ensures after[..to] == before[..to] && after[to + n..] == before[to + n..]
  {}
}
