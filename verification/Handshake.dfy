/** The handshake's reading session: src/io.c:22-94 and src/handshake_record.c:20-148. */
module Handshake {
  import opened Common
  import opened Framing
  import opened Reader
  import opened Deliveries
  import opened Arrivals

  /** How many more change_cipher_spec records a session takes. */
  function CcsBudget(seen: Byte): nat { if seen == 255 then 5 else if seen <= 4 then 4 - seen else 0 }

  /** How many more records without handshake bytes a session takes. */
  function QuietBudget(quiet: Byte): nat {
    if quiet == 255 then QUIET_CAP + 1 else if quiet <= QUIET_CAP then QUIET_CAP - quiet else 0
  }

  ghost predicate AllFrames(size: Sizer, fs: seq<seq<Byte>>) {
    forall i :: 0 <= i < |fs| ==> IsFrame(size, fs[i])
  }

  /** What the records tell: they carry these handshake bytes, and so many are protected. The facts
      stand behind Look, so that only the steps that need them open them. */
  ghost predicate Told(open: Opener, keyed: bool, rs: seq<seq<Byte>>, bytes: seq<Byte>, n: nat) {
    forall m: int {:trigger Look(m)} :: Look(m) ==>
      AllFrames(RecordSize, rs) && bytes == Payload(open, keyed, rs) && n == Protected(rs)
  }

  lemma {:induction false} ToldMeans(open: Opener, keyed: bool, rs: seq<seq<Byte>>, bytes: seq<Byte>, n: nat)
    requires Told(open, keyed, rs, bytes, n)
    ensures AllFrames(RecordSize, rs) && bytes == Payload(open, keyed, rs) && n == Protected(rs)
  {
    assert Look(0);
  }

  lemma {:induction false} ToldNext(open: Opener, keyed: bool, rs: seq<seq<Byte>>, bytes: seq<Byte>, n: nat,
                                    r: seq<Byte>)
    requires Told(open, keyed, rs, bytes, n) && IsFrame(RecordSize, r)
    ensures Told(open, keyed, rs + [r], bytes + Content(open, keyed, n, r), n + if r[0] == APPDATA then 1 else 0)
  {}

  class Session {
    const buf: array<Byte>
    var open: Opener
    /** Whether this side's record_size_limit sized the buffer. */
    const limitSent: bool
    var off: nat
    var len: nat
    var keyed: bool
    var seqNo: nat
    var ccsSeen: Byte
    var quiet: Byte
    var alert: Byte
    var alertReceived: Byte
    /** What the transport gave since the read key was set: whole records, and then part of one. */
    ghost var records: seq<seq<Byte>>
    ghost var tail: seq<Byte>
    /** The handshake bytes in the records, and the messages yielded. */
    ghost var bytes: seq<Byte>
    ghost var count: nat
    ghost var given: seq<seq<Byte>>

    /** The transport, how often it was asked and how many bytes it gave. */
    const transport: Transport
    var asked: nat
    var moved: nat
    /** All the bytes it delivers, when it delivers a stream. */
    ghost const stream: Option<seq<Byte>>

    ghost predicate Linked()
      reads this
    {
      stream.Some? ==> Delivers(transport, stream.value) && moved <= |stream.value|
    }

    /** What is left of the stream. */
    ghost function Rest(): seq<Byte>
      reads this
    {
      if stream.Some? && moved <= |stream.value| then stream.value[moved..] else []
    }

    ghost function SetupOf(): Setup
      reads this
    {
      Setup(open, keyed, buf.Length)
    }

    ghost function GaitOf(): Gait
      reads this
    {
      Gait(seqNo, ccsSeen, quiet)
    }

    ghost predicate InBounds()
      reads this
    {
      off <= len <= buf.Length && Linked()
    }

    ghost predicate History()
      reads this
    {
      Told(open, keyed, records, bytes, count)
    }

    /** The handshake bytes that arrived are the messages yielded and the unread window. */
    ghost predicate Valid()
      reads this, buf
    {
      && InBounds() && Shrinks(open) && History() && tail == [] && seqNo == count
      && AllFrames(MessageSize, given) && bytes == Concat(given) + buf[off..len]
    }

    /** All the bytes the transport gave. */
    ghost function Wire(): seq<Byte>
      reads this
    {
      Concat(records) + tail
    }

    constructor (buf: array<Byte>, open: Opener, limitSent: bool, transport: Transport, ghost stream: Option<seq<Byte>>)
      requires Shrinks(open) && (stream.Some? ==> Delivers(transport, stream.value))
      ensures Valid() && this.buf == buf && Wire() == [] && given == [] && !keyed && off == len == 0
      ensures this.transport == transport && this.stream == stream && moved == 0 && GaitOf() == Gait(0, 0, 0)
    {
      this.buf, this.open, this.limitSent := buf, open, limitSent;
      this.transport, this.stream, asked, moved := transport, stream, 0, 0;
      off, len, keyed, seqNo, ccsSeen, quiet, alert, alertReceived := 0, 0, false, 0, 0, 0, 0, 0;
      records, tail, bytes, count, given := [], [], [], 0, [];
    }

    /** hsr_check_record_end: a key change must fall between records. */
    method CheckRecordEnd() returns (rc: Code)
      requires Valid()
      modifies this`alert
      ensures Valid() && (rc.Ok? <==> off == len) && (rc.Ok? || rc.Eproto?)
      ensures alert == if rc.Ok? then old(alert) else UNEXPECTED_MESSAGE
    {
      if off != len {
        alert := UNEXPECTED_MESSAGE;
        return Eproto;
      }
      return Ok;
    }

    /** Nothing is read yet under a new key. */
    method StartStream(open: Opener)
      requires Valid() && off == len && Shrinks(open)
      modifies this
      ensures Valid() && keyed && this.open == open && Wire() == [] && given == [] && off == len
    {
      this.open, keyed, seqNo := open, true, 0;
      records, tail, bytes, count, given := [], [], [], 0, [];
    }

    /** A read key is set exactly at a record's end, and the stream starts anew under it. Bytes left of the record
        before it are refused, and nothing else changes. */
    method SetReadKey(open: Opener) returns (rc: Code)
      requires Valid() && Shrinks(open)
      modifies this
      ensures Valid() && (rc.Ok? <==> old(off == len))
      ensures rc.Ok? ==> keyed && this.open == open && Wire() == [] && given == [] && off == len
      ensures !rc.Ok? ==> keyed == old(keyed) && this.open == old(this.open) && Wire() == old(Wire())
      ensures !rc.Ok? ==> given == old(given) && alert == UNEXPECTED_MESSAGE
    {
      rc := CheckRecordEnd();
      if rc.Ok? {
        StartStream(open);
      }
    }

    /** One recv behind the bytes got at at, of n asked. */
    method RecvAt(at: nat, n: nat, done: nat, ghost got: seq<Byte>, answer: Answer) returns (received: int)
      requires at + n <= buf.Length && done == |got| < n && buf[at..at + done] == got
      modifies buf
      ensures received == answer.count && buf[..at] == old(buf[..at])
      ensures if InRange(answer, n - done) then buf[at..at + done + received] == got + Bytes(answer)
              else buf[at..at + done] == got
    {
      ghost var was := buf[..];
      received := Recv(buf, at + done, n - done, answer);
      FrontKept(was, buf[..], at, at + done);
      if InRange(answer, n - done) {
        assert buf[at..at + done + received] == buf[at..at + done] + buf[at + done..at + done + received];
      }
    }

    /** What came so far at at, of n asked, behind what was there, and that all is it and what is to come. */
    ghost predicate Filling(all: Gathered, got: seq<Byte>, at: nat, n: nat, left: nat, before: seq<Byte>, first: nat)
      reads this, buf
    {
      && left == n - |got| && at + n <= buf.Length && |got| <= n && buf[at..at + |got|] == got
      && tail == before + got && moved == first + |got| && Continues(all, got, transport, asked, moved, left)
    }

    /** One round of the loop of read_exact. */
    method RecvMore(at: nat, n: nat, done: nat, ghost got: seq<Byte>, ghost all: Gathered, ghost left: nat,
                    ghost before: seq<Byte>, ghost first: nat)
      returns (ok: bool, count: nat, ghost got': seq<Byte>, ghost left': nat)
      requires Filling(all, got, at, n, left, before, first) && done == |got| < n
      modifies buf, this`tail, this`asked, this`moved
      ensures buf[..at] == old(buf[..at])
      ensures ok ==> Filling(all, got', at, n, left', before, first) && |got'| == done + count && count > 0
      ensures !ok ==> all == Gathered(false, got, asked) && tail == before + got && moved == first + done
      ensures !ok ==> at + done <= buf.Length && buf[at..at + done] == got
    {
      ContinuesOn(all, got, transport, asked, moved, left);
      var answer := transport(asked, moved, n - done);
      var received := RecvAt(at, n, done, got, answer);
      asked := asked + 1;
      ok, count, got', left' := InRange(answer, n - done), 0, got, left;
      if ok {
        count, got', left' := received, got + Bytes(answer), left - answer.count;
        Regroup(before, got, Bytes(answer));
        tail, moved := tail + Bytes(answer), moved + received;
      }
    }

    /** The loop of read_exact: short reads are joined until n bytes came, or an answer is out of range. */
    method ReadLoop(at: nat, n: nat) returns (ok: bool, ghost got: seq<Byte>)
      requires at + n <= buf.Length
      modifies buf, this`tail, this`asked, this`moved
      ensures Gathered(ok, got, asked) == Gather(transport, old(asked), old(moved), n) && moved == old(moved) + |got|
      ensures tail == old(tail) + got && |got| <= n
      ensures buf[at..at + |got|] == got && buf[..at] == old(buf[..at])
    {
      var done := 0;
      got := [];
      ghost var left, before, first := n, tail, moved;
      ghost var all := ContinuesNone(transport, asked, moved, n);
      while done < n
        invariant done == |got| <= n && buf[..at] == old(buf[..at]) && Filling(all, got, at, n, left, before, first)
      {
        var count;
        ghost var more, rest := [], 0;
        ok, count, more, rest := RecvMore(at, n, done, got, all, left, before, first);
        if !ok {
          return;
        }
        got, left := more, rest;
        done := done + count;
      }
      ContinuesOn(all, got, transport, asked, moved, left);
      ok := true;
    }

    /** read_exact: it fails exactly when an answer is out of range, and from a stream it gets the next n bytes, or
        fails with what is left when there are fewer. */
    method ReadExact(at: nat, n: nat) returns (ok: bool, ghost got: seq<Byte>)
      requires at + n <= buf.Length && Linked()
      modifies buf, this`tail, this`asked, this`moved
      ensures Linked() && tail == old(tail) + got && |got| <= n && (ok <==> |got| == n)
      ensures buf[at..at + |got|] == got && buf[..at] == old(buf[..at])
      ensures ok <==> !Breaks(transport, old(asked), old(moved), n)
      ensures stream.Some? ==> Reads(old(Rest()), n, ok, got, Rest())
    {
      ghost var i, p := asked, moved;
      ok, got := ReadLoop(at, n);
      GatherIff(transport, i, p, n);
      if stream.Some? { ReadsStream(transport, stream.value, i, p, n, got); }
    }

    /** The alert a body's length calls for: none of its own for a record that fits, for an empty one
        and for one that fits the buffer but not behind a message in part. */
    function BodyAlert(outer: Byte, body: nat, before: Byte): Byte
      reads this
    {
      if body > BodyMax(outer) then RECORD_OVERFLOW
      else if body > 0 && HDR + body > buf.Length then (if limitSent then RECORD_OVERFLOW else INTERNAL_ERROR)
      else before
    }

    /** check_body: the length rules, and the alert each refusal writes. */
    method CheckBody(outer: Byte, body: nat, cap: nat) returns (rc: Code)
      requires cap <= buf.Length
      modifies this`alert
      ensures rc.Ok? <==> 0 < body <= BodyMax(outer) && HDR + body <= cap
      ensures !rc.Ok? ==> rc == if body > BodyMax(outer) || body == 0 then Eproto else Ecap
      ensures alert == BodyAlert(outer, body, old(alert))
    {
      if body > BodyMax(outer) {
        alert := RECORD_OVERFLOW;
        return Eproto;
      }
      if body == 0 {
        return Eproto;
      }
      if HDR + body > buf.Length {
        alert := if limitSent then RECORD_OVERFLOW else INTERNAL_ERROR;
        return Ecap;
      }
      if HDR + body > cap {
        return Ecap;
      }
      return Ok;
    }

    /** The header of io_read_record. */
    method ReadHeader(part: nat) returns (ok: bool, outer: Byte, n: nat, ghost head: seq<Byte>)
      requires part + HDR <= buf.Length && tail == [] && Linked()
      modifies buf, this`tail, this`asked, this`moved
      ensures Linked() && buf[..part] == old(buf[..part]) && tail == head && |head| <= HDR && (ok <==> |head| == HDR)
      ensures ok ==> buf[part..part + HDR] == head && outer == head[0] && n == BodyLength(head)
      ensures stream.Some? ==> Reads(old(Rest()), HDR, ok, head, Rest())
    {
      outer, n := 0, 0;
      ok, head := ReadExact(part, HDR);
      if ok {
        HeaderAt(buf[..], part, head);
        outer, n := buf[part], 256 * (buf[part + 3] as int) + buf[part + 4];
      }
    }

    /** Its body. */
    method ReadBody(part: nat, n: nat, ghost head: seq<Byte>) returns (ok: bool, ghost body: seq<Byte>)
      requires part + HDR + n <= buf.Length && |head| == HDR && tail == head == buf[part..part + HDR] && Linked()
      modifies buf, this`tail, this`asked, this`moved
      ensures Linked() && buf[..part] == old(buf[..part]) && tail == head + body && |body| <= n && (ok <==> |body| == n)
      ensures ok ==> buf[part..part + HDR + n] == head + body
      ensures stream.Some? ==> Reads(old(Rest()), n, ok, body, Rest())
    {
      ghost var was := buf[..];
      ok, body := ReadExact(part + HDR, n);
      FrontKept(was, buf[..], part, part + HDR);
      if ok {
        assert buf[part..part + HDR + n] == buf[part..part + HDR] + buf[part + HDR..part + HDR + n];
      }
    }

    /** io_read_record: exactly one record lands at part, or nothing that is a record; which, the stream decides. */
    method ReadRecord(part: nat) returns (rc: Code, outer: Byte, recordLen: nat)
      requires part <= buf.Length && tail == [] && Linked()
      modifies buf, this`tail, this`alert, this`asked, this`moved
      ensures Linked() && buf[..part] == old(buf[..part])
      ensures rc.Ok? ==> IsFrame(RecordSize, tail) && recordLen == |tail| && part + |tail| <= buf.Length
      ensures rc.Ok? ==> buf[part..part + |tail|] == tail && outer == tail[0]
      ensures !rc.Ok? ==> !HasFrame(RecordSize, tail)
      ensures alert == if |tail| < HDR then old(alert) else BodyAlert(tail[0], BodyLength(tail), old(alert))
      ensures stream.Some? ==> RecordRead(buf.Length - part, old(Rest()), rc, tail, Rest())
    {
      var cap := buf.Length - part;
      ghost var rest := Rest();
      outer, recordLen := 0, 0;
      if cap < HDR {
        return Ecap, outer, recordLen;
      }
      var ok, n;
      ghost var head, body := [], [];
      ok, outer, n, head := ReadHeader(part);
      if !ok {
        return Eio, outer, recordLen;
      }
      ghost var rest1 := Rest();
      rc := CheckBody(outer, n, cap);
      if rc.Ok? {
        ok, body := ReadBody(part, n, head);
        if !ok {
          rc := Eio;
        }
      }
      recordLen := HDR + n;
      if stream.Some? { RecordMeans(cap, rest, head, rest1, rc, ok, body, Rest()); }
    }

    /** hsr_refuse_alert, on the content of an alert. */
    method RefuseAlert(content: seq<Byte>) returns (rc: Code)
      modifies this`alert, this`alertReceived
      ensures rc == Eproto
      ensures |content| != 2 ==> alert == DECODE_ERROR && alertReceived == old(alertReceived)
      ensures |content| == 2 ==> alert == old(alert)
      ensures |content| == 2 ==> alertReceived == if content[1] in {0, 90} then old(alertReceived) else content[1]
    {
      if |content| != 2 {
        alert := DECODE_ERROR;
        return Eproto;
      }
      if content[1] != 0 && content[1] != 90 {
        alertReceived := content[1];
      }
      return Eproto;
    }

    /** accept_record: the record's handshake bytes replace it at part. */
    method AcceptRecord(part: nat, outer: Byte, ghost r: seq<Byte>, recordLen: nat) returns (rc: Code)
      requires IsFrame(RecordSize, r) && recordLen == |r| && outer == r[0] && Shrinks(open)
      requires part == len && part + |r| <= buf.Length && buf[part..part + |r|] == r
      modifies buf, this`len, this`seqNo, this`alert, this`alertReceived
      ensures buf[..part] == old(buf[..part])
      ensures var c := Content(open, keyed, old(seqNo), r);
              if rc.Ok? then len == part + |c| <= buf.Length && buf[part..len] == c else len == part && c == []
      ensures rc == AcceptCode(open, keyed, old(seqNo), r)
      ensures rc.Ok? ==> seqNo == old(seqNo) + if outer == APPDATA then 1 else 0
      ensures rc == Eauth ==> alert == BAD_RECORD_MAC
    {
      if !keyed {
        if outer != HANDSHAKE {
          return Eproto;
        }
        MoveDown(buf, part, part + HDR, recordLen - HDR);
        len := part + recordLen - HDR;
        assert r[HDR..] == old(buf[part..part + |r|])[HDR..];
        return Ok;
      }
      if outer != APPDATA {
        return Eproto;
      }
      var result := open(seqNo, buf[part..part + recordLen]);
      if result.Refused? {
        alert := BAD_RECORD_MAC;
        return Eauth;
      }
      seqNo := seqNo + 1;
      Place(buf, part, result.content);
      if result.kind == ALERT {
        rc := RefuseAlert(result.content);
        return rc;
      }
      if result.kind != HANDSHAKE {
        return Eproto;
      }
      len := part + |result.content|;
      return Ok;
    }

    /** ccs_tolerable: at most four, each one byte of 1; the counter is a byte. */
    method CcsTolerable(part: nat, recordLen: nat, ghost r: seq<Byte>) returns (fine: bool)
      requires part + recordLen <= buf.Length && recordLen == |r| && buf[part..part + |r|] == r
      modifies this`ccsSeen
      ensures fine <==> Tolerated(old(ccsSeen), r)
      ensures fine ==> ccsSeen == Up(old(ccsSeen)) && CcsBudget(ccsSeen) < CcsBudget(old(ccsSeen))
    {
      assert |r| > HDR ==> r[HDR] == buf[part + HDR];
      if recordLen != HDR + 1 || buf[part + HDR] != 1 {
        return false;
      }
      ccsSeen := (ccsSeen as int + 1) % 256;
      return ccsSeen <= 4;
    }

    /** quiet_stream_capped: a record without handshake bytes spends from a budget. */
    method QuietCapped(part: nat) returns (capped: bool)
      modifies this`quiet
      ensures quiet == if len == part then Up(old(quiet)) else old(quiet)
      ensures capped <==> len == part && quiet > QUIET_CAP
      ensures len == part && !capped ==> QuietBudget(quiet) < QuietBudget(old(quiet))
    {
      if len != part {
        return false;
      }
      quiet := (quiet as int + 1) % 256;
      return quiet > QUIET_CAP;
    }

    /** The record in the tail joins the records, and its content the bytes. */
    ghost method Record()
      requires History() && IsFrame(RecordSize, tail)
      modifies this`records, this`tail, this`bytes, this`count
      ensures History() && tail == [] && records == old(records) + [old(tail)]
      ensures bytes == old(bytes) + Content(open, keyed, old(count), old(tail))
      ensures count == old(count) + if old(tail)[0] == APPDATA then 1 else 0
    {
      ToldNext(open, keyed, records, bytes, count, tail);
      bytes := bytes + Content(open, keyed, count, tail);
      count := count + if tail[0] == APPDATA then 1 else 0;
      records := records + [tail];
      tail := [];
    }

    /** The move of hsr_fetch_record: the window goes to the front of the buffer. */
    method Compact()
      requires InBounds()
      modifies buf, this`off, this`len
      ensures InBounds() && off == 0 && len == old(len - off) && buf[..len] == old(buf[off..len])
    {
      if off > 0 {
        MoveDown(buf, 0, off, len - off);
        len := len - off;
        off := 0;
      }
    }

    /** Between records: nothing is read in part, and the sequence number counts the protected ones. */
    ghost predicate Ready()
      reads this
    {
      InBounds() && off == 0 && Shrinks(open) && History() && tail == [] && seqNo == count
    }

    /** The rest of the loop's body for a record that is neither skipped nor an alert. */
    method TakeRecord(outer: Byte, ghost r: seq<Byte>, recordLen: nat) returns (rc: Code)
      requires IsFrame(RecordSize, r) && recordLen == |r| && outer == r[0] && Shrinks(open)
      requires len + |r| <= buf.Length && buf[len..len + |r|] == r && outer != CCS && outer != ALERT
      modifies buf, this`len, this`seqNo, this`alert, this`alertReceived, this`quiet
      ensures buf[..old(len)] == old(buf[..len])
      ensures var c := Content(open, keyed, old(seqNo), r);
              len == old(len) + |c| <= buf.Length && buf[old(len)..len] == c
      ensures rc.Ok? ==> seqNo == old(seqNo) + if outer == APPDATA then 1 else 0
      ensures rc.Ok? && len == old(len) ==> QuietBudget(quiet) < QuietBudget(old(quiet))
      ensures !rc.Ok? ==> len == old(len) && Taken(SetupOf(), old(GaitOf()), r) == Stops
      ensures rc.Ok? ==> Taken(SetupOf(), old(GaitOf()), r) == Takes(GaitOf(), buf[old(len)..len])
    {
      var part := len;
      rc := AcceptRecord(part, outer, r, recordLen);
      if rc.Ok? {
        var capped := QuietCapped(part);
        if capped {
          alert := UNEXPECTED_MESSAGE;
          rc := Eproto;
        }
      }
    }

    /** The loop's body for a change_cipher_spec record or an alert in the clear. */
    method SkipRecord(outer: Byte, recordLen: nat, ghost r: seq<Byte>) returns (rc: Code)
      requires HDR <= recordLen == |r| && len + recordLen <= buf.Length && buf[len..len + |r|] == r
      requires outer == r[0] && (outer == CCS || outer == ALERT)
      modifies this`alert, this`alertReceived, this`ccsSeen
      ensures rc.Ok? ==> CcsBudget(ccsSeen) < CcsBudget(old(ccsSeen))
      ensures rc.Ok? <==> Taken(SetupOf(), old(GaitOf()), r).Skips?
      ensures rc.Ok? ==> Taken(SetupOf(), old(GaitOf()), r) == Skips(GaitOf())
      ensures !rc.Ok? ==> Taken(SetupOf(), old(GaitOf()), r) == Stops
    {
      if outer == CCS {
        var fine := CcsTolerable(len, recordLen, r);
        if !fine {
          alert := UNEXPECTED_MESSAGE;
          return Eproto;
        }
        return Ok;
      }
      rc := RefuseAlert(buf[len + HDR..len + recordLen]);
    }

    /** A record read behind the window. */
    method NextRecord() returns (rc: Code, outer: Byte, recordLen: nat, ghost r: seq<Byte>)
      requires Ready()
      modifies buf, this`alert, this`records, this`tail, this`bytes, this`count, this`asked, this`moved
      ensures Linked() && (stream.Some? ==> RecordRead(buf.Length - len, old(Rest()), rc, r, Rest()))
      ensures History() && old(records) <= records && buf[..len] == old(buf[..len])
      ensures rc.Ok? ==> tail == [] && bytes == old(bytes) + Content(open, keyed, seqNo, r)
      ensures rc.Ok? ==> count == seqNo + if outer == APPDATA then 1 else 0
      ensures rc.Ok? ==> IsFrame(RecordSize, r) && recordLen == |r| && outer == r[0]
      ensures rc.Ok? ==> len + |r| <= buf.Length && buf[len..len + |r|] == r
      ensures !rc.Ok? ==> bytes == old(bytes) && !HasFrame(RecordSize, tail)
    {
      rc, outer, recordLen := ReadRecord(len);
      r := tail;
      if rc.Ok? {
        Record();
      }
    }

    /** What the loop does with a record it read. */
    method HandleRecord(outer: Byte, recordLen: nat, ghost r: seq<Byte>, ghost rest: seq<Byte>, ghost rest': seq<Byte>)
      returns (rc: Code, again: bool)
      requires IsFrame(RecordSize, r) && recordLen == |r| && outer == r[0] && Shrinks(open)
      requires len + |r| <= buf.Length && buf[len..len + |r|] == r
      requires stream.Some? ==> RecordRead(buf.Length - len, rest, Ok, r, rest')
      modifies buf, this`len, this`seqNo, this`alert, this`alertReceived, this`quiet, this`ccsSeen
      ensures old(len) <= len <= buf.Length && buf[..old(len)] == old(buf[..len])
      ensures buf[old(len)..len] == Content(open, keyed, old(seqNo), r)
      ensures rc.Ok? ==> seqNo == old(seqNo) + if outer == APPDATA then 1 else 0
      ensures !rc.Ok? ==> len == old(len) && !again
      ensures again ==> rc.Ok? && len == old(len) && CcsBudget(ccsSeen) < CcsBudget(old(ccsSeen)) && quiet == old(quiet)
      ensures rc.Ok? && !again && len == old(len) ==> QuietBudget(quiet) < QuietBudget(old(quiet))
      ensures stream.Some? ==>
                StepIs(SetupOf(), old(GaitOf()), old(len), rest, rc, again, GaitOf(), buf[old(len)..len], rest')
    {
      ghost var g, part := GaitOf(), len;
      if outer == CCS || outer == ALERT {
        rc := SkipRecord(outer, recordLen, r);
        again := rc.Ok?;
      } else {
        rc := TakeRecord(outer, r, recordLen);
        again := false;
      }
      if stream.Some? { StepMeans(SetupOf(), g, part, rest, rc, again, GaitOf(), buf[part..len], rest', r); }
    }

    /** One pass of hsr_fetch_record's loop: a record is read and skipped, refused or appended. */
    method OneRecord() returns (rc: Code, again: bool)
      requires Ready()
      modifies buf, this`len, this`seqNo, this`alert, this`alertReceived, this`quiet, this`ccsSeen, this`records,
        this`tail, this`bytes, this`count, this`asked, this`moved
      ensures InBounds() && History() && old(records) <= records
      ensures old(len) <= len && buf[..old(len)] == old(buf[..len]) && bytes == old(bytes) + buf[old(len)..len]
      ensures rc.Ok? ==> tail == [] && seqNo == count
      ensures !rc.Ok? ==> len == old(len) && !HasFrame(RecordSize, tail)
      ensures again ==> rc.Ok? && len == old(len) && CcsBudget(ccsSeen) < CcsBudget(old(ccsSeen)) && quiet == old(quiet)
      ensures rc.Ok? && !again && len == old(len) ==> QuietBudget(quiet) < QuietBudget(old(quiet))
      ensures stream.Some? ==>
                StepIs(SetupOf(), old(GaitOf()), old(len), old(Rest()), rc, again, GaitOf(), buf[old(len)..len], Rest())
    {
      var outer: Byte, recordLen: nat;
      ghost var r;
      ghost var g, rest := GaitOf(), Rest();
      rc, outer, recordLen, r := NextRecord();
      again := false;
      if rc.Ok? {
        rc, again := HandleRecord(outer, recordLen, r, rest, Rest());
      } else if stream.Some? {
        StepFails(SetupOf(), g, len, rest, rc, r, g, buf[len..len], Rest());
      }
    }

    /** hsr_fetch_record: the window moves to the front, and one record's handshake bytes join it. */
    method FetchRecord() returns (rc: Code)
      requires InBounds() && Shrinks(open) && History() && tail == [] && seqNo == count
      modifies buf, this`off, this`len, this`seqNo, this`alert, this`alertReceived, this`quiet, this`ccsSeen,
        this`records, this`tail, this`bytes, this`count, this`asked, this`moved
      ensures InBounds() && History() && old(records) <= records
      ensures old(len - off) <= len && off == 0 && buf[..old(len - off)] == old(buf[off..len])
      ensures bytes == old(bytes) + buf[old(len - off)..len]
      ensures rc.Ok? ==> Ready()
      ensures !rc.Ok? ==> len == old(len - off) && !HasFrame(RecordSize, tail)
      ensures rc.Ok? && len == old(len - off) ==> QuietBudget(quiet) < QuietBudget(old(quiet))
      ensures stream.Some? ==> FetchIs(FetchOf(SetupOf(), old(GaitOf()), old(len - off), old(Rest())), rc, GaitOf(),
                                       buf[old(len - off)..len], Rest())
    {
      Compact();
      ghost var n, f := len, FetchOf(SetupOf(), GaitOf(), len, Rest());
      var again := true;
      rc := Ok;
      assert buf[n..len] == [];
      while again
        invariant InBounds() && History() && old(records) <= records
        invariant n <= len && off == 0 && buf[..n] == old(buf[off..len]) && bytes == old(bytes) + buf[n..len]
        invariant rc.Ok? ==> Ready()
        invariant !rc.Ok? ==> len == n && !HasFrame(RecordSize, tail)
        invariant again ==> rc.Ok? && len == n && quiet == old(quiet)
        invariant rc.Ok? && !again && len == n ==> QuietBudget(quiet) < QuietBudget(old(quiet))
        invariant stream.Some? ==> if again then f == FetchOf(SetupOf(), GaitOf(), n, Rest())
                                   else FetchIs(f, rc, GaitOf(), buf[n..len], Rest())
        decreases again, CcsBudget(ccsSeen)
      {
        ghost var g, rest := GaitOf(), Rest();
        rc, again := OneRecord();
        if stream.Some? { FetchStep(SetupOf(), g, n, rest, rc, again, GaitOf(), buf[n..len], Rest()); }
      }
    }

    /** What the window starts with: a whole message, one too large, or less than a message. */
    method PeekMessage() returns (whole: bool, big: bool, n: nat)
      requires InBounds()
      ensures big <==> TooLarge(buf[off..len])
      ensures whole ==> n <= len - off && IsFrame(MessageSize, buf[off..len][..n]) && n == MessageSize(buf[off..len])
      ensures !whole ==> !HasFrame(MessageSize, buf[off..len])
    {
      whole, big, n := false, false, 0;
      if len - off >= 4 {
        ghost var window := buf[off..len];
        n := 4 + 0x10000 * (buf[off + 1] as int) + 0x100 * (buf[off + 2] as int) + buf[off + 3];
        assert n == 4 + MessageLength(window);
        big := n > 4 + 0x4000;
        whole := !big && len - off >= n;
        assert whole ==> n == 4 + MessageLength(window[..n]);
      }
    }

    /** Between fetches: what came is taken and the window, and a call comes to a. */
    ghost predicate Awaiting(taken: seq<Byte>, window: seq<Byte>, a: Awaited)
      reads this, buf
    {
      && InBounds() && Shrinks(open) && History() && bytes == taken + window && tail == [] && seqNo == count
      && window == buf[off..len] && (stream.Some? ==> Finds(SetupOf(), GaitOf(), window, Rest(), a))
    }

    /** One round of hsr_next_msg's loop: it ends, or a record joins the window. */
    method AwaitRound(ghost taken: seq<Byte>, ghost window: seq<Byte>, ghost a: Awaited)
      returns (rc: Code, done: bool, n: nat, ghost more: seq<Byte>)
      requires Awaiting(taken, window, a)
      modifies buf, this`off, this`len, this`seqNo, this`alert, this`alertReceived, this`quiet, this`ccsSeen,
        this`records, this`tail, this`bytes, this`count, this`asked, this`moved
      ensures InBounds() && History() && old(records) <= records && bytes == taken + more
      ensures !done ==> rc.Ok? && Awaiting(taken, more, a) && old(len - off) <= len - off
      ensures !done && len - off == old(len - off) ==> QuietBudget(quiet) < QuietBudget(old(quiet))
      ensures done && stream.Some? ==> AwaitIs(a, rc, GaitOf(), more, Rest())
      ensures done && rc.Ok? ==> tail == [] && seqNo == count && more == buf[off..len] && n <= |more|
      ensures done && rc.Ok? ==> IsFrame(MessageSize, more[..n])
      ensures done && !rc.Ok? ==> !HasFrame(MessageSize, more) && !HasFrame(RecordSize, tail)
    {
      var whole, big;
      rc, done, more := Ok, true, window;
      whole, big, n := PeekMessage();
      ghost var g, rest := GaitOf(), Rest();
      if stream.Some? { FindsAtOnce(SetupOf(), g, window, rest, a); }
      if whole {
        return;
      }
      if big {
        rc := Eproto;
        return;
      }
      rc := FetchRecord();
      if stream.Some? { AwaitStep(SetupOf(), g, window, rest, rc, GaitOf(), buf[|window|..len], Rest(), a); }
      done := !rc.Ok?;
      if !done {
        ghost var added := buf[|window|..len];
        assert buf[off..len] == window + added;
        Regroup(taken, window, added);
        more := window + added;
      }
    }

    /** The loop of hsr_next_msg: records are fetched until the window starts with a message. */
    method AwaitMessage(ghost taken: seq<Byte>, ghost a: Awaited) returns (rc: Code, n: nat, ghost window: seq<Byte>)
      requires InBounds() && Awaiting(taken, buf[off..len], a)
      modifies buf, this`off, this`len, this`seqNo, this`alert, this`alertReceived, this`quiet, this`ccsSeen,
        this`records, this`tail, this`bytes, this`count, this`asked, this`moved
      ensures stream.Some? ==> AwaitIs(a, rc, GaitOf(), window, Rest())
      ensures InBounds() && History() && old(records) <= records && bytes == taken + window
      ensures rc.Ok? ==> tail == [] && seqNo == count
      ensures rc.Ok? ==> window == buf[off..len] && n <= |window| && IsFrame(MessageSize, window[..n])
      ensures !rc.Ok? ==> !HasFrame(MessageSize, window) && !HasFrame(RecordSize, tail)
    {
      rc, n := Ok, 0;
      window := buf[off..len];
      var done := false;
      while !done
        invariant InBounds() && History() && old(records) <= records && bytes == taken + window
        invariant !done ==> Awaiting(taken, window, a)
        invariant done && stream.Some? ==> AwaitIs(a, rc, GaitOf(), window, Rest())
        invariant done && rc.Ok? ==> tail == [] && seqNo == count && window == buf[off..len] && n <= |window|
        invariant done && rc.Ok? ==> IsFrame(MessageSize, window[..n])
        invariant done && !rc.Ok? ==> !HasFrame(MessageSize, window) && !HasFrame(RecordSize, tail)
        decreases !done, buf.Length - (len - off), QuietBudget(quiet)
      {
        rc, done, n, window := AwaitRound(taken, window, a);
      }
    }

    /** All that arrived was yielded, but for a window that does not start with a message. */
    ghost predicate Drained(window: seq<Byte>)
      reads this
    {
      && History() && !HasFrame(RecordSize, tail)
      && AllFrames(MessageSize, given) && bytes == Concat(given) + window && !HasFrame(MessageSize, window)
    }

    /** hsr_next_msg: the next message in the window, or nothing left to yield. From a stream it comes to a, which the
        stream decides: it succeeds exactly when a message is found, and yields that one. */
    method NextMessage(ghost a: Awaited) returns (rc: Code, kind: Byte, at: nat, n: nat, ghost window: seq<Byte>)
      requires Valid() && (stream.Some? ==> Finds(SetupOf(), GaitOf(), buf[off..len], Rest(), a))
      modifies this, buf
      ensures InBounds() && keyed == old(keyed) && open == old(open) && old(records) <= records
      ensures rc.Ok? ==> Valid() && at + n == off && given == old(given) + [buf[at..at + n]]
      ensures rc.Ok? ==> n > 0 && kind == buf[at]
      ensures !rc.Ok? ==> given == old(given) && Drained(window)
      ensures stream.Some? ==> (rc.Ok? <==> a.Found?)
      ensures stream.Some? && rc.Ok? ==> NextIs(a, GaitOf(), buf[at..at + n], buf[off..len], Rest())
    {
      kind, at := 0, 0;
      rc, n, window := AwaitMessage(Concat(given), a);
      if rc.Ok? {
        at := off;
        kind := buf[at];
        Yield(window, n);
        if stream.Some? { NextMeans(a, GaitOf(), window, Rest(), n, buf[at..at + n], buf[off..len]); }
      }
    }

    /** A yielded message's length agrees with its header and is at most 2^14 and the header. */
    lemma GivenLength(i: nat)
      requires Valid() && i < |given|
      ensures 4 <= |given[i]| <= 4 + 0x4000 && |given[i]| == 4 + MessageLength(given[i])
    {}

    /** The window's first message is yielded. */
    method Yield(ghost window: seq<Byte>, n: nat)
      requires InBounds() && n <= |window| && window == buf[off..len] && bytes == Concat(given) + window
      requires AllFrames(MessageSize, given) && IsFrame(MessageSize, window[..n])
      modifies this`off, this`given
      ensures InBounds() && off == old(off) + n && given == old(given) + [buf[old(off)..off]]
      ensures buf[old(off)..off] == window[..n] && buf[off..len] == window[n..] && AllFrames(MessageSize, given)
              && bytes == Concat(given) + buf[off..len]
    {
      TakesFront(given, window, n);
      SliceOfSlice(buf[..], off, len, n);
      given := given + [window[..n]];
      off := off + n;
    }

    /** The messages yielded are the first ones in the bytes that arrived, however they were cut. */
    lemma GivenInOrder()
      requires Valid()
      ensures given <= Messages(open, keyed, Wire())
    {
      ToldMeans(open, keyed, records, bytes, count);
      WireRecords(records, tail);
      MessagesPrefixed();
      FramesInFront(MessageSize, given, buf[off..len]);
    }

    /** When a call yields nothing, every whole message that arrived was yielded. */
    lemma AllGiven(window: seq<Byte>)
      requires Drained(window)
      ensures given == Messages(open, keyed, Wire())
    {
      ToldMeans(open, keyed, records, bytes, count);
      WireRecords(records, tail);
      MessagesPrefixed();
      FramesInFront(MessageSize, given, window);
      assert Frames(MessageSize, window) == [];
    }
  }

  lemma HeaderAt(s: seq<Byte>, part: nat, head: seq<Byte>)
    requires |head| == HDR && part + HDR <= |s| && s[part..part + HDR] == head
    ensures s[part + 3] == head[3] && s[part + 4] == head[4] && s[part] == head[0]
  {}

  /** The records on a wire are the ones read, whatever part of one follows. */
  lemma {:induction false} WireRecords(records: seq<seq<Byte>>, tail: seq<Byte>)
    requires AllFrames(RecordSize, records) && !HasFrame(RecordSize, tail)
    ensures Frames(RecordSize, Concat(records) + tail) == records
  {
    RecordsPrefixed();
    FramesInFront(RecordSize, records, tail);
    assert Frames(RecordSize, tail) == [];
  }

  lemma {:induction false} TakesFront(given: seq<seq<Byte>>, window: seq<Byte>, n: nat)
    requires n <= |window|
    ensures Concat(given + [window[..n]]) + window[n..] == Concat(given) + window
  {
    ConcatOne(given, window[..n]);
    assert window == window[..n] + window[n..];
  }

  lemma {:induction false} SliceOfSlice(s: seq<Byte>, off: nat, len: nat, n: nat)
    requires off + n <= len <= |s|
    ensures s[off..len][..n] == s[off..off + n] && s[off..len][n..] == s[off + n..len]
  {}

  /** Where a session stands in its stream. */
  datatype Stand = Stand(g: Gait, window: seq<Byte>, rest: seq<Byte>)

  ghost predicate Stands(s: Session, p: Stand)
    requires s.InBounds()
    reads s, s.buf
  {
    s.stream.Some? ==> p == Stand(s.GaitOf(), s.buf[s.off..s.len], s.Rest())
  }

  /** One call of such a run. */
  method ReadNext(s: Session, ghost u: Setup, ghost p: Stand, ghost calls: nat, ghost ms: seq<seq<Byte>>)
    returns (failed: bool, ghost q: Stand, ghost left: seq<seq<Byte>>)
    requires s.Valid() && calls > 0 && u == s.SetupOf() && Stands(s, p)
    requires s.stream.Some? ==> Gives(u, p.g, p.window, p.rest, calls, ms)
    modifies s, s.buf
    ensures s.InBounds() && s.SetupOf() == u && old(s.records) <= s.records
    ensures failed ==> s.given == old(s.given) && s.given == Messages(s.open, s.keyed, s.Wire())
    ensures !failed ==> s.Valid() && |s.given| == |old(s.given)| + 1 && old(s.given) <= s.given && Stands(s, q)
    ensures !failed && s.stream.Some? ==> Gives(u, q.g, q.window, q.rest, calls - 1, left)
    ensures s.stream.Some? ==> old(s.given) + ms == s.given + left && (failed ==> left == [])
  {
    ghost var given := s.given;
    ghost var a := FindsWhat(u, p.g, p.window, p.rest);
    var rc, kind, at, n, w := s.NextMessage(a);
    left, q := [], p;
    failed := !rc.Ok?;
    if failed { s.AllGiven(w); }
    if s.stream.Some? {
      left := GivesNext(u, p.g, p.window, p.rest, calls, a, ms);
      if !failed {
        q := Stand(a.g, s.buf[s.off..s.len], a.rest);
        Regroup(given, [s.buf[at..at + n]], left);
      }
    }
  }

  /** A run of hsr_next_msg calls over any transport: each call that succeeds yields the next message on the wire and
      no other, and when one fails all of them were yielded. From a stream they are the messages the stream decides. */
  method ReadMessages(s: Session, calls: nat) returns (failed: bool)
    requires s.Valid()
    modifies s, s.buf
    ensures s.InBounds() && s.given <= Messages(s.open, s.keyed, s.Wire())
    ensures failed ==> s.given == Messages(s.open, s.keyed, s.Wire())
    ensures old(s.given) <= s.given && (if failed then |s.given| < |old(s.given)| + calls
                                        else |s.given| == |old(s.given)| + calls)
    ensures old(s.records) <= s.records && s.keyed == old(s.keyed) && s.open == old(s.open)
    ensures s.stream.Some? ==>
              s.given == old(s.given)
                + Yields(s.SetupOf(), old(s.GaitOf()), old(s.buf[s.off..s.len]), old(s.Rest()), calls)
  {
    ghost var u, p := s.SetupOf(), Stand(s.GaitOf(), s.buf[s.off..s.len], s.Rest());
    ghost var first := p;
    ghost var all := GivesWhat(u, p.g, p.window, p.rest, calls);
    ghost var left, more := all, calls;
    failed := false;
    for i := 0 to calls
      invariant s.Valid() && old(s.given) <= s.given && |s.given| == |old(s.given)| + i && !failed
      invariant old(s.records) <= s.records && s.SetupOf() == u && Stands(s, p) && more == calls - i
      invariant s.stream.Some? ==> Gives(u, p.g, p.window, p.rest, more, left) && old(s.given) + all == s.given + left
    {
      failed, p, left := ReadNext(s, u, p, more, left);
      if failed {
        break;
      }
      more := more - 1;
    }
    if !failed { s.GivenInOrder(); }
    if s.stream.Some? {
      GivesMeans(u, first.g, first.window, first.rest, calls, all);
      assert s.given + left == s.given;
    }
  }

  /** A handshake record in the clear. */
  function Clear(body: seq<Byte>): (r: seq<Byte>)
    requires |body| <= 0x4000
    ensures |body| > 0 ==> IsFrame(RecordSize, r) && r[0] == HANDSHAKE && r[HDR..] == body
  {
    [HANDSHAKE, 3, 3, |body| / 256, |body| % 256] + body
  }

  ghost predicate Sendable(bodies: seq<seq<Byte>>) {
    forall i :: 0 <= i < |bodies| ==> 0 < |bodies[i]| <= 0x4000
  }

  /** The records of a stream cut into bodies. */
  ghost function Cut(bodies: seq<seq<Byte>>): (rs: seq<seq<Byte>>)
    requires Sendable(bodies)
    ensures |rs| == |bodies| && AllFrames(RecordSize, rs)
  {
    if bodies == [] then [] else Cut(bodies[..|bodies| - 1]) + [Clear(bodies[|bodies| - 1])]
  }

  lemma {:induction false} ClearContent(open: Opener, n: nat, body: seq<Byte>)
    requires 0 < |body| <= 0x4000
    ensures Content(open, false, n, Clear(body)) == body
  {}

  lemma {:induction false} CutLast(bodies: seq<seq<Byte>>, before: seq<seq<Byte>>, last: seq<Byte>)
    requires Sendable(bodies) && bodies == before + [last]
    ensures Sendable(before) && 0 < |last| <= 0x4000 && Cut(bodies) == Cut(before) + [Clear(last)]
  {
    assert bodies[|before|] == last && bodies[..|before|] == before;
    assert forall i :: 0 <= i < |before| ==> before[i] == bodies[i];
  }

  lemma {:induction false} CutPayload(open: Opener, bodies: seq<seq<Byte>>, rs: seq<seq<Byte>>)
    requires Sendable(bodies) && rs == Cut(bodies)
    ensures Payload(open, false, rs) == Concat(bodies)
    decreases |bodies|
  {
    if bodies != [] {
      var before, last := bodies[..|bodies| - 1], bodies[|bodies| - 1];
      CutLast(bodies, before, last);
      var first := Cut(before);
      CutPayload(open, before, first);
      ClearNext(open, first, before, last);
      assert bodies == before + [last];
    }
  }

  lemma {:induction false} ClearNext(open: Opener, rs: seq<seq<Byte>>, before: seq<seq<Byte>>, last: seq<Byte>)
    requires Payload(open, false, rs) == Concat(before) && 0 < |last| <= 0x4000
    ensures Payload(open, false, rs + [Clear(last)]) == Concat(before + [last])
  {
    PayloadNext(open, false, rs, Clear(last));
    ClearContent(open, Protected(rs), last);
    ConcatOne(before, last);
  }

  /** However a handshake stream is cut into records in the clear that fit the buffer, and however a transport cuts
      those, the calls yield the stream's messages one by one, and all of them. */
  lemma {:induction false} ClearDelivery(open: Opener, room: nat, bodies: seq<seq<Byte>>, tail: seq<Byte>, size: nat,
                                         calls: nat)
    requires Sendable(bodies) && !HasFrame(RecordSize, tail) && Sized(Concat(bodies), size) && 4 <= size <= 4 + 0x4000
    requires forall i {:trigger bodies[i]} :: 0 <= i < |bodies| ==> HDR + |bodies[i]| + size <= room + 1
    ensures Yields(Setup(open, false, room), Gait(0, 0, 0), [], Concat(Cut(bodies)) + tail, calls)
         == FirstFrames(Concat(bodies), calls)
  {
    var u := Setup(open, false, room);
    ClearIsClean(u, Gait(0, 0, 0), bodies, Cut(bodies), size);
    assert [] + Contents(u, 0, Cut(bodies)) == Contents(u, 0, Cut(bodies));
    YieldsAll(u, Gait(0, 0, 0), [], Cut(bodies), tail, size, calls);
  }

  lemma {:induction false} CutAt(bodies: seq<seq<Byte>>, i: nat)
    requires Sendable(bodies) && i < |bodies|
    ensures Cut(bodies)[i] == Clear(bodies[i])
  {
    if i < |bodies| - 1 { CutAt(bodies[..|bodies| - 1], i); }
  }

  lemma {:induction false} ClearIsClean(u: Setup, g: Gait, bodies: seq<seq<Byte>>, rs: seq<seq<Byte>>, size: nat)
    requires !u.keyed && Sendable(bodies) && |rs| == |bodies| && rs == Cut(bodies)
    requires forall i {:trigger bodies[i]} :: 0 <= i < |bodies| ==> HDR + |bodies[i]| + size <= u.room + 1
    ensures Clean(u, g, rs) && Roomy(u, rs, size) && Contents(u, g.seqNo, rs) == Concat(bodies)
  {
    forall i {:trigger rs[i]} | 0 <= i < |rs|
      ensures rs[i] == Clear(bodies[i]) && |rs[i]| + size <= u.room + 1
    {
      CutAt(bodies, i);
      assert |bodies[i]| <= 0x4000;
    }
    ClearOnes(u, g, bodies, rs);
  }

  lemma {:induction false} ClearOnes(u: Setup, g: Gait, bodies: seq<seq<Byte>>, rs: seq<seq<Byte>>)
    requires !u.keyed && Sendable(bodies) && |rs| == |bodies| && forall i :: 0 <= i < |rs| ==> rs[i] == Clear(bodies[i])
    ensures Clean(u, g, rs) && Contents(u, g.seqNo, rs) == Concat(bodies)
    decreases |rs|
  {
    if rs != [] {
      assert rs[0] == Clear(bodies[0]) && 0 < |bodies[0]| <= 0x4000;
      ClearContent(u.open, g.seqNo, bodies[0]);
      assert Passable(u, g, rs[0]);
      ClearOnes(u, Past(u, g, rs[0]), bodies[1..], rs[1..]);
    }
  }

  /** However a handshake stream is cut into records, the messages on the wire are the stream's. */
  lemma {:induction false} AnyCut(open: Opener, bodies: seq<seq<Byte>>, tail: seq<Byte>)
    requires Sendable(bodies) && !HasFrame(RecordSize, tail)
    ensures Messages(open, false, Concat(Cut(bodies)) + tail) == Frames(MessageSize, Concat(bodies))
  {
    WireRecords(Cut(bodies), tail);
    CutPayload(open, bodies, Cut(bodies));
  }

  lemma {:induction false} PayloadGrows(open: Opener, keyed: bool, rs: seq<seq<Byte>>, more: seq<seq<Byte>>)
    ensures Payload(open, keyed, rs) <= Payload(open, keyed, rs + more)
    decreases |more|
  {
    if more == [] {
      assert rs + more == rs;
    } else {
      var before, last := more[..|more| - 1], more[|more| - 1];
      PayloadGrows(open, keyed, rs, before);
      PayloadNext(open, keyed, rs + before, last);
      Regroup(rs, before, [last]);
      assert before + [last] == more;
    }
  }

  lemma {:induction false} PayloadOfPrefix(open: Opener, keyed: bool, rs: seq<seq<Byte>>, all: seq<seq<Byte>>)
    requires rs <= all
    ensures Payload(open, keyed, rs) <= Payload(open, keyed, all)
  {
    assert all == rs + all[|rs|..];
    PayloadGrows(open, keyed, rs, all[|rs|..]);
  }

  /** Bytes that come later add messages and change none. */
  lemma {:induction false} MessagesGrow(open: Opener, keyed: bool, wire: seq<Byte>, more: seq<Byte>)
    ensures Messages(open, keyed, wire) <= Messages(open, keyed, wire + more)
  {
    RecordsPrefixed();
    MessagesPrefixed();
    FramesGrow(RecordSize, wire, more);
    var rs, all := Frames(RecordSize, wire), Frames(RecordSize, wire + more);
    PayloadOfPrefix(open, keyed, rs, all);
    FramesOfPrefix(MessageSize, Payload(open, keyed, rs), Payload(open, keyed, all));
  }
}
