/** ch_write over a list of parts: src/tls_write.c:110-185. */
module Writing {
  import opened Common
  import opened Framing
  import opened Reader
  import opened Connected
  import opened Writable

  /** The bytes in records of at most limit, every one full but the last. */
  ghost function Chunks(s: seq<Byte>, limit: nat): seq<seq<Byte>>
    requires limit > 0
    decreases |s|
  {
    if s == [] then [] else if |s| <= limit then [s] else [s[..limit]] + Chunks(s[limit..], limit)
  }

  /** Nothing is lost, added or reordered, no record is empty or over the limit, and only the last
      one may be short. */
  lemma {:induction false} ChunksCover(s: seq<Byte>, limit: nat)
    requires limit > 0
    ensures Concat(Chunks(s, limit)) == s
    ensures forall i :: 0 <= i < |Chunks(s, limit)| ==> 0 < |Chunks(s, limit)[i]| <= limit
    ensures forall i :: 0 <= i < |Chunks(s, limit)| - 1 ==> |Chunks(s, limit)[i]| == limit
    decreases |s|
  {
    var c := Chunks(s, limit);
    if s == [] {
    } else if |s| <= limit {
      assert c[1..] == [] && Concat(c) == s + Concat([]);
    } else {
      ChunksCover(s[limit..], limit);
      assert c[1..] == Chunks(s[limit..], limit);
    }
  }

  /** Where a write has read to: a part, and how much of it is taken. */
  datatype Cursor = Cursor(index: nat, offset: nat)

  ghost predicate Inside(parts: seq<seq<Byte>>, c: Cursor) {
    c.index <= |parts| && (if c.index < |parts| then c.offset <= |parts[c.index]| else c.offset == 0)
  }

  /** The bytes still to write. */
  ghost function Left(parts: seq<seq<Byte>>, c: Cursor): seq<Byte>
    requires Inside(parts, c)
  {
    if c.index == |parts| then [] else parts[c.index][c.offset..] + Concat(parts[c.index + 1..])
  }

  lemma {:induction false} LeftOfWhole(parts: seq<seq<Byte>>, i: nat)
    requires i <= |parts|
    ensures Left(parts, Cursor(i, 0)) == Concat(parts[i..])
  {}

  /** parts_skip_empty: no byte is passed over. */
  method SkipEmpty(parts: seq<seq<Byte>>, c: Cursor) returns (d: Cursor)
    requires Inside(parts, c)
    ensures Inside(parts, d) && Left(parts, d) == Left(parts, c)
    ensures d.index == |parts| || d.offset < |parts[d.index]|
  {
    d := c;
    while d.index < |parts| && d.offset == |parts[d.index]|
      invariant Inside(parts, d) && Left(parts, d) == Left(parts, c)
      decreases |parts| - d.index
    {
      LeftOfWhole(parts, d.index + 1);
      d := Cursor(d.index + 1, 0);
    }
  }

  lemma {:induction false} TakeSome(parts: seq<seq<Byte>>, c: Cursor, take: nat, w: seq<Byte>)
    requires Inside(parts, c) && c.index < |parts| && c.offset + take <= |parts[c.index]|
    ensures var got := parts[c.index][c.offset..c.offset + take];
            w + Left(parts, c) == (w + got) + Left(parts, Cursor(c.index, c.offset + take))
  {
    var part := parts[c.index];
    var got, left, rest := part[c.offset..c.offset + take], part[c.offset + take..], Concat(parts[c.index + 1..]);
    Resliced(part, c.offset, c.offset + take);
    Regroup4(w, got, left, rest);
  }

  lemma Resliced(part: seq<Byte>, i: nat, j: nat)
    requires i <= j <= |part|
    ensures part[i..] == part[i..j] + part[j..]
  {}

  lemma Regroup4(w: seq<Byte>, x: seq<Byte>, y: seq<Byte>, z: seq<Byte>)
    ensures w + ((x + y) + z) == (w + x) + (y + z)
  {}

  /** parts_copy_record: the next limit bytes, or all that is left. */
  method CopyRecord(parts: seq<seq<Byte>>, c: Cursor, limit: nat) returns (w: seq<Byte>, d: Cursor)
    requires Inside(parts, c) && (c.index == |parts| || c.offset < |parts[c.index]|)
    ensures Inside(parts, d) && (d.index == |parts| || d.offset < |parts[d.index]|)
    ensures w + Left(parts, d) == Left(parts, c) && |w| <= limit && (|w| == limit || d.index == |parts|)
  {
    w, d := [], c;
    while |w| < limit && d.index < |parts|
      invariant Inside(parts, d) && (d.index == |parts| || d.offset < |parts[d.index]|)
      invariant w + Left(parts, d) == Left(parts, c) && |w| <= limit
      decreases limit - |w|
    {
      var part := parts[d.index];
      var left, room := |part| - d.offset, limit - |w|;
      var take := if left < room then left else room;
      TakeSome(parts, d, take, w);
      w := w + part[d.offset..d.offset + take];
      d := Cursor(d.index, d.offset + take);
      d := SkipEmpty(parts, d);
    }
  }

  /** The next bytes of the parts as one data record, under a key with a number left. */
  method CopyAndSend(t: Session, parts: seq<seq<Byte>>, c: Cursor, limit: nat, ghost rest: seq<Byte>)
    returns (rc: Code, w: seq<Byte>, d: Cursor, ghost after: seq<Byte>)
    requires t.Valid() && t.connected && limit > 0 && t.RoomLeft() != Records(0)
    requires Inside(parts, c) && c.index < |parts| && c.offset < |parts[c.index]| && rest == Left(parts, c)
    modifies t
    ensures t.Valid() && t.KeepsReading() && old(t.sealed) <= t.sealed && (rc.Ok? <==> t.connected)
    ensures Inside(parts, d) && (d.index == |parts| || d.offset < |parts[d.index]|) && after == Left(parts, d)
    ensures IsNext(rest, w, after, limit) && (rc.Ok? <==> DataSent(t.aes, t.sends, old(t.PenOf())).Some?)
    ensures rc.Ok? ==> t.PenOf() == DataSent(t.aes, t.sends, old(t.PenOf())).value
    ensures rc.Ok? ==> t.RoomLeft() == Next(old(t.RoomLeft())) && t.wire == old(t.wire) + |w| + OVERHEAD
  {
    w, d := CopyRecord(parts, c, limit);
    after := Left(parts, d);
    rc := t.SendData(|w|);
  }

  /** One record of tls_write_parts' loop: a KeyUpdate if one is due, then the next bytes. */
  method WriteRecord(t: Session, parts: seq<seq<Byte>>, c: Cursor, limit: nat, ghost rest: seq<Byte>)
    returns (rc: Code, w: seq<Byte>, d: Cursor, ghost after: seq<Byte>)
    requires t.Valid() && t.connected && limit > 0
    requires Inside(parts, c) && c.index < |parts| && c.offset < |parts[c.index]| && rest == Left(parts, c)
    modifies t
    ensures t.Valid() && t.KeepsReading() && old(t.sealed) <= t.sealed && (rc.Ok? <==> t.connected)
    ensures Inside(parts, d) && (d.index == |parts| || d.offset < |parts[d.index]|) && after == Left(parts, d)
    ensures rc.Ok? <==> RecordSent(t.aes, t.sends, old(t.PenOf())).Some?
    ensures rc.Ok? ==> t.PenOf() == RecordSent(t.aes, t.sends, old(t.PenOf())).value
    ensures rc.Ok? ==> IsNext(rest, w, after, limit)
    ensures rc.Ok? ==> SameTotal(limit, t.PerKey(), |rest|, old(t.RoomLeft()), old(t.wire), |after|, t.RoomLeft(),
            t.wire)
  {
    w, d, after := [], c, rest;
    ghost var room, wire := t.RoomLeft(), t.wire;
    rc := t.KeyUpdateBeforeRecord();
    if !rc.Ok? {
      return;
    }
    ghost var now, mid := t.RoomLeft(), t.wire;
    rc, w, d, after := CopyAndSend(t, parts, c, limit, rest);
    if rc.Ok? { OneRecordOn(limit, t.PerKey(), rest, w, after, room, wire, now, mid); }
  }

  /** Bytes on the wire and bytes to come are in all what they were. */
  ghost predicate SameTotal(limit: nat, perKey: Room, n: nat, room: Room, wire: nat, n': nat, room': Room, wire': nat)
    requires limit > 0 && perKey != Records(0)
  {
    wire' + Wire(n', limit, room', perKey) == wire + Wire(n, limit, room, perKey)
  }

  lemma OneRecordOn(limit: nat, perKey: Room, rest: seq<Byte>, w: seq<Byte>, after: seq<Byte>, room: Room, wire: nat,
                    now: Room, mid: nat)
    requires limit > 0 && perKey != Records(0) && now != Records(0) && IsNext(rest, w, after, limit)
    requires if room == Records(0) then now == perKey && mid == wire + UPDATE else now == room && mid == wire
    ensures SameTotal(limit, perKey, |rest|, room, wire, |after|, Next(now), mid + |w| + OVERHEAD)
  {
    WireStep(|rest|, |w|, limit, room, perKey);
    assert |w| + |after| == |rest|;
  }

  /** w is the next record of rest, and after what follows it. */
  ghost predicate IsNext(rest: seq<Byte>, w: seq<Byte>, after: seq<Byte>, limit: nat) {
    rest != [] && w + after == rest && |w| <= limit && (|w| == limit || after == [])
  }

  /** What a write starts from: the records to come, the bytes on the wire behind them, and the pen. */
  datatype Start = Start(want: seq<seq<Byte>>, total: nat, pen: Pen)

  /** A write of the records data so far, at cursor c before the bytes rest. */
  ghost predicate Writes(t: Session, parts: seq<seq<Byte>>, c: Cursor, limit: nat, rest: seq<Byte>,
                         data: seq<seq<Byte>>,
                         b: Start)
    requires limit > 0
    reads t
  {
    && t.Valid() && t.connected && Inside(parts, c) && (c.index == |parts| || c.offset < |parts[c.index]|)
    && rest == Left(parts, c) && b.want == data + Chunks(rest, limit)
    && SameTotal(limit, t.PerKey(), 0, t.RoomLeft(), b.total, |rest|, t.RoomLeft(), t.wire)
    && Goes(t.aes, t.sends, b.pen, |b.want|, |data|, t.PenOf())
  }

  /** One record of it. */
  method WriteNext(t: Session, parts: seq<seq<Byte>>, c: Cursor, limit: nat, data: seq<seq<Byte>>,
                   ghost rest: seq<Byte>,
                   ghost b: Start)
    returns (rc: Code, d: Cursor, more: seq<seq<Byte>>, ghost after: seq<Byte>)
    requires limit > 0 && c.index < |parts| && Writes(t, parts, c, limit, rest, data, b)
    modifies t
    ensures t.Valid() && t.KeepsReading() && old(t.sealed) <= t.sealed && (rc.Ok? <==> t.connected)
    ensures rc.Ok? ==> |after| < |rest| && Writes(t, parts, d, limit, after, more, b)
    ensures !rc.Ok? ==> RecordsSent(t.aes, t.sends, b.pen, |b.want|).None?
    ensures !rc.Ok? ==> more == b.want[..SentOf(t.aes, t.sends, b.pen, |b.want|)]
  {
    var w;
    ghost var was := t.PenOf();
    rc, w, d, after := WriteRecord(t, parts, c, limit, rest);
    NotLast(rest, limit, data, b.want);
    GoesOn(t.aes, t.sends, b.pen, |b.want|, |data|, was);
    more := data;
    if rc.Ok? {
      NextChunk(rest, w, after, limit, data);
      more := data + [w];
    }
  }

  /** tls_write_parts: the parts' bytes, in order, as the records of one stream, in the bytes counted for them. It
      succeeds exactly when the session is connected and every record goes out; what went out when a write fails is
      where that stream was. */
  method WriteParts(t: Session, parts: seq<seq<Byte>>, limit: nat) returns (rc: Code, data: seq<seq<Byte>>)
    requires t.Valid() && limit > 0
    modifies t
    ensures t.Valid() && t.KeepsReading() && old(t.sealed) <= t.sealed && (rc.Ok? <==> t.connected)
    ensures rc.Ok? ==> t.wire == old(t.wire) + Wire(|Concat(parts)|, limit, old(t.RoomLeft()), t.PerKey())
    ensures var n := |Chunks(Concat(parts), limit)|;
            && (rc.Ok? <==> old(t.connected) && RecordsSent(t.aes, t.sends, old(t.PenOf()), n).Some?)
            && (rc.Ok? ==> t.PenOf() == RecordsSent(t.aes, t.sends, old(t.PenOf()), n).value)
    ensures var all := Chunks(Concat(parts), limit);
            data == if old(t.connected) then all[..SentOf(t.aes, t.sends, old(t.PenOf()), |all|)] else []
  {
    data := [];
    if !t.connected {
      return Eproto, data;
    }
    LeftOfWhole(parts, 0);
    assert parts[0..] == parts;
    var c := SkipEmpty(parts, Cursor(0, 0));
    ghost var rest := Left(parts, c);
    ghost var b := Start(Chunks(rest, limit), t.wire + Wire(|rest|, limit, t.RoomLeft(), t.PerKey()), t.PenOf());
    while c.index < |parts|
      invariant Writes(t, parts, c, limit, rest, data, b) && t.KeepsReading() && old(t.sealed) <= t.sealed
      decreases |rest|
    {
      rc, c, data, rest := WriteNext(t, parts, c, limit, data, rest, b);
      if !rc.Ok? {
        return;
      }
    }
    NoneLeft(t.aes, t.sends, b, data, t.PenOf());
    return Ok, data;
  }

  lemma NoneLeft(aes: bool, sends: Sends, b: Start, data: seq<seq<Byte>>, q: Pen)
    requires b.want == data && Goes(aes, sends, b.pen, |b.want|, |data|, q)
    ensures RecordsSent(aes, sends, b.pen, |b.want|) == Some(q)
    ensures data == b.want[..SentOf(aes, sends, b.pen, |b.want|)]
  {}

  /** Of n records k went out, and the rest go out as they would from here. */
  ghost predicate Goes(aes: bool, sends: Sends, p: Pen, n: nat, k: nat, q: Pen) {
    && k <= n && RecordsSent(aes, sends, p, n) == RecordsSent(aes, sends, q, n - k)
    && SentOf(aes, sends, p, n) == k + SentOf(aes, sends, q, n - k)
  }

  lemma {:induction false} GoesOn(aes: bool, sends: Sends, p: Pen, n: nat, k: nat, q: Pen)
    requires k < n && Goes(aes, sends, p, n, k, q)
    ensures if RecordSent(aes, sends, q).Some? then Goes(aes, sends, p, n, k + 1, RecordSent(aes, sends, q).value)
            else RecordsSent(aes, sends, p, n).None? && SentOf(aes, sends, p, n) == k
  {}

  lemma NotLast(rest: seq<Byte>, limit: nat, data: seq<seq<Byte>>, want: seq<seq<Byte>>)
    requires limit > 0 && rest != [] && want == data + Chunks(rest, limit)
    ensures |data| < |want| && want[..|data|] == data
  {}

  /** A write of at most tls_writable_len bytes sends at most cap bytes, KeyUpdate and all. */
  lemma {:induction false} WritesWithinCap(t: Session, cap: nat, limit: nat, n: nat)
    requires limit > 0 && n == WritableLen(cap, limit, t.RoomLeft(), t.PerKey())
    ensures Wire(n, limit, t.RoomLeft(), t.PerKey()) <= cap
  {
    WritableIsExact(cap, limit, t.RoomLeft(), t.PerKey(), 0);
  }

  lemma {:induction false} NextChunk(rest: seq<Byte>, w: seq<Byte>, after: seq<Byte>, limit: nat, data: seq<seq<Byte>>)
    requires limit > 0 && IsNext(rest, w, after, limit)
    ensures |after| < |rest| && data + Chunks(rest, limit) == (data + [w]) + Chunks(after, limit)
  {
    if |rest| > limit {
      assert rest[..limit] == w && rest[limit..] == after;
    } else {
      assert after == [] && w == rest;
    }
  }
}
