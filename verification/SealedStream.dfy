/** A handshake stream cut into sealed records, as fuzz/fuzz_handshake_post.c:79-96 seals one, read back
    through rec_open. */
module SealedStream {
  import opened Framing
  import opened Reader
  import opened Deliveries
  import opened Arrivals
  import opened Handshake
  import opened RecordLayer

  /** Whatever rec_seal takes and rec_open returns; an empty body too. */
  ghost predicate Bodies(bodies: seq<seq<Byte>>) {
    |bodies| <= LAST && forall i :: 0 <= i < |bodies| ==> |bodies[i]| <= 0x4000
  }

  ghost predicate Keys(c: Cipher, iv: seq<Byte>) { Ciphers(c) && |iv| == 12 }

  /** The bodies as the records of one key, numbered from zero. */
  ghost function SealedCut(c: Cipher, key: seq<Byte>, iv: seq<Byte>, bodies: seq<seq<Byte>>): (rs: seq<seq<Byte>>)
    requires Keys(c, iv) && Bodies(bodies)
    ensures |rs| == |bodies|
  {
    if bodies == [] then []
    else
      var last := |bodies| - 1;
      SealedCut(c, key, iv, bodies[..last]) + [Sealed(c, key, iv, last, HANDSHAKE, bodies[last])]
  }

  /** rec_open under that key. */
  ghost function OpenerOf(c: Cipher, key: seq<Byte>, iv: seq<Byte>): Opener
    requires Keys(c, iv)
  {
    (n: nat, r: seq<Byte>) => OpenOf(c, key, iv, n, r)
  }

  lemma {:induction false} SealedIsFrame(c: Cipher, key: seq<Byte>, iv: seq<Byte>, n: nat, body: seq<Byte>,
                                         r: seq<Byte>)
    requires Keys(c, iv) && |body| <= 0x4000 && r == Sealed(c, key, iv, n, HANDSHAKE, body)
    ensures IsFrame(RecordSize, r) && r[0] == APPDATA
  {
    SealedParts(c, key, iv, n, HANDSHAKE, body, r);
  }

  lemma {:induction false} SealedContent(c: Cipher, key: seq<Byte>, iv: seq<Byte>, n: nat, body: seq<Byte>,
                                         r: seq<Byte>)
    requires Keys(c, iv) && |body| <= 0x4000 && n < LAST && r == Sealed(c, key, iv, n, HANDSHAKE, body)
    ensures Content(OpenerOf(c, key, iv), true, n, r) == body
  {
    SealedIsFrame(c, key, iv, n, body, r);
    OpenSealed(c, key, iv, n, HANDSHAKE, body);
    assert OpenerOf(c, key, iv)(n, r) == OpenOf(c, key, iv, n, r);
  }

  lemma {:induction false} CarriesNext(open: Opener, rs: seq<seq<Byte>>, r: seq<Byte>, bodies: seq<seq<Byte>>,
                                       body: seq<Byte>)
    requires AllFrames(RecordSize, rs) && Protected(rs) == |bodies| && Payload(open, true, rs) == Concat(bodies)
    requires IsFrame(RecordSize, r) && r != [] && r[0] == APPDATA && Content(open, true, |bodies|, r) == body
    ensures AllFrames(RecordSize, rs + [r]) && Protected(rs + [r]) == |bodies + [body]|
    ensures Payload(open, true, rs + [r]) == Concat(bodies + [body])
  {
    PayloadNext(open, true, rs, r);
    ConcatOne(bodies, body);
  }

  /** Every record is one, all of them are protected, and together they carry the bodies in order. */
  lemma {:induction false} SealedCutCarries(c: Cipher, key: seq<Byte>, iv: seq<Byte>, bodies: seq<seq<Byte>>,
                                            rs: seq<seq<Byte>>)
    requires Keys(c, iv) && Bodies(bodies) && rs == SealedCut(c, key, iv, bodies)
    ensures AllFrames(RecordSize, rs) && Protected(rs) == |bodies|
    ensures Payload(OpenerOf(c, key, iv), true, rs) == Concat(bodies)
    decreases |bodies|
  {
    if bodies != [] {
      var last := |bodies| - 1;
      var before, body := bodies[..last], bodies[last];
      var first, r := SealedCut(c, key, iv, before), Sealed(c, key, iv, last, HANDSHAKE, body);
      assert rs == first + [r] && bodies == before + [body];
      SealedCutCarries(c, key, iv, before, first);
      SealedIsFrame(c, key, iv, last, body, r);
      SealedContent(c, key, iv, last, body, r);
      CarriesNext(OpenerOf(c, key, iv), first, r, before, body);
    }
  }

  /** However a stream is cut into sealed records, the messages its reader finds on the wire are the stream's. */
  lemma {:induction false} AnySealedCut(c: Cipher, key: seq<Byte>, iv: seq<Byte>, bodies: seq<seq<Byte>>,
                                        tail: seq<Byte>)
    requires Keys(c, iv) && Bodies(bodies) && !HasFrame(RecordSize, tail)
    ensures Messages(OpenerOf(c, key, iv), true, Concat(SealedCut(c, key, iv, bodies)) + tail)
         == Frames(MessageSize, Concat(bodies))
  {
    var rs := SealedCut(c, key, iv, bodies);
    SealedCutCarries(c, key, iv, bodies, rs);
    WireRecords(rs, tail);
  }

  lemma {:induction false} SealedCutAt(c: Cipher, key: seq<Byte>, iv: seq<Byte>, bodies: seq<seq<Byte>>, i: nat)
    requires Keys(c, iv) && Bodies(bodies) && i < |bodies|
    ensures SealedCut(c, key, iv, bodies)[i] == Sealed(c, key, iv, i, HANDSHAKE, bodies[i])
  {
    if i < |bodies| - 1 { SealedCutAt(c, key, iv, bodies[..|bodies| - 1], i); }
  }

  lemma {:induction false} SealedCarries(u: Setup, c: Cipher, key: seq<Byte>, iv: seq<Byte>, n: nat, body: seq<Byte>,
                                         r: seq<Byte>)
    requires Keys(c, iv) && u.keyed && u.open == OpenerOf(c, key, iv)
    requires 0 < |body| <= 0x4000 && n < LAST && r == Sealed(c, key, iv, n, HANDSHAKE, body)
    ensures Carries(u, n, r) && Content(u.open, true, n, r) == body && r[0] == APPDATA
  {
    SealedParts(c, key, iv, n, HANDSHAKE, body, r);
    SealedContent(c, key, iv, n, body, r);
    OpenSealed(c, key, iv, n, HANDSHAKE, body);
    assert u.open(n, r) == OpenOf(c, key, iv, n, r);
  }

  /** The records from number n on are the bodies sealed. */
  ghost predicate AllSealed(c: Cipher, key: seq<Byte>, iv: seq<Byte>, n: nat, bodies: seq<seq<Byte>>,
                            rs: seq<seq<Byte>>)
    requires Keys(c, iv) && Sendable(bodies)
  {
    |rs| == |bodies| && forall i {:trigger rs[i]} :: 0 <= i < |rs| ==>
      rs[i] == Sealed(c, key, iv, n + i, HANDSHAKE, bodies[i])
  }

  lemma {:induction false} SealedRest(c: Cipher, key: seq<Byte>, iv: seq<Byte>, n: nat, bodies: seq<seq<Byte>>,
                                      rs: seq<seq<Byte>>)
    requires Keys(c, iv) && Sendable(bodies) && rs != [] && AllSealed(c, key, iv, n, bodies, rs)
    ensures 0 < |bodies[0]| <= 0x4000 && rs[0] == Sealed(c, key, iv, n, HANDSHAKE, bodies[0])
    ensures Sendable(bodies[1..]) && AllSealed(c, key, iv, n + 1, bodies[1..], rs[1..])
  {
    assert rs[0] == Sealed(c, key, iv, n + 0, HANDSHAKE, bodies[0]);
    forall i {:trigger rs[1..][i]} | 0 <= i < |rs[1..]|
      ensures rs[1..][i] == Sealed(c, key, iv, n + 1 + i, HANDSHAKE, bodies[1..][i])
    {
      assert rs[1..][i] == rs[i + 1] && bodies[1..][i] == bodies[i + 1];
    }
  }

  lemma {:induction false} SealedFirst(u: Setup, c: Cipher, key: seq<Byte>, iv: seq<Byte>, g: Gait, body: seq<Byte>,
                                       r: seq<Byte>)
    requires Keys(c, iv) && u.keyed && u.open == OpenerOf(c, key, iv)
    requires 0 < |body| <= 0x4000 && g.seqNo < LAST && r == Sealed(c, key, iv, g.seqNo, HANDSHAKE, body)
    ensures Passable(u, g, r) && Past(u, g, r) == g.(seqNo := g.seqNo + 1) && Counted(r) == 1
    ensures Content(u.open, u.keyed, g.seqNo, r) == body
  {
    SealedCarries(u, c, key, iv, g.seqNo, body, r);
  }

  lemma {:induction false} SealedOnes(u: Setup, c: Cipher, key: seq<Byte>, iv: seq<Byte>, g: Gait,
                                      bodies: seq<seq<Byte>>, rs: seq<seq<Byte>>)
    requires Keys(c, iv) && u.keyed && u.open == OpenerOf(c, key, iv) && g.seqNo + |rs| <= LAST
    requires Sendable(bodies) && AllSealed(c, key, iv, g.seqNo, bodies, rs)
    ensures Clean(u, g, rs) && Contents(u, g.seqNo, rs) == Concat(bodies)
    decreases |rs|
  {
    if rs != [] {
      SealedRest(c, key, iv, g.seqNo, bodies, rs);
      SealedFirst(u, c, key, iv, g, bodies[0], rs[0]);
      SealedOnes(u, c, key, iv, g.(seqNo := g.seqNo + 1), bodies[1..], rs[1..]);
    }
  }

  /** However a handshake stream is cut into sealed records that fit the buffer, and however a transport cuts those,
      the calls yield the stream's messages one by one, and all of them. */
  lemma {:induction false} SealedDelivery(c: Cipher, key: seq<Byte>, iv: seq<Byte>, room: nat, bodies: seq<seq<Byte>>,
                                          tail: seq<Byte>, size: nat, calls: nat)
    requires Keys(c, iv) && Bodies(bodies) && Sendable(bodies) && !HasFrame(RecordSize, tail)
    requires Sized(Concat(bodies), size) && 4 <= size <= 4 + 0x4000
    requires forall i {:trigger bodies[i]} :: 0 <= i < |bodies| ==> HDR + |bodies[i]| + 17 + size <= room + 1
    ensures Yields(Setup(OpenerOf(c, key, iv), true, room), Gait(0, 0, 0), [],
                   Concat(SealedCut(c, key, iv, bodies)) + tail, calls)
         == FirstFrames(Concat(bodies), calls)
  {
    var u, rs := Setup(OpenerOf(c, key, iv), true, room), SealedCut(c, key, iv, bodies);
    forall i {:trigger rs[i]} | 0 <= i < |rs|
      ensures rs[i] == Sealed(c, key, iv, 0 + i, HANDSHAKE, bodies[i]) && |rs[i]| + size <= u.room + 1
    {
      SealedCutAt(c, key, iv, bodies, i);
      assert |bodies[i]| <= 0x4000;
      SealedParts(c, key, iv, i, HANDSHAKE, bodies[i], rs[i]);
    }
    SealedOnes(u, c, key, iv, Gait(0, 0, 0), bodies, rs);
    assert [] + Contents(u, 0, rs) == Contents(u, 0, rs);
    YieldsAll(u, Gait(0, 0, 0), [], rs, tail, size, calls);
  }
}
