/** A connected session's keys over every run of reads and writes: src/handshake_post.c:253-367,
    src/tls.c:239-291, src/session.c:9-64 and src/tls_write.c:15-185. */
module Connected {
  import opened Common
  import opened Framing
  import opened Reader
  import opened PostHandshake
  import opened Writable

  /** HSPOST_SEND_EPOCHS_MAX and the last sequence number. */
  const SEND_EPOCHS_MAX: nat := 0xffff_ffff_ffff
  const SEQ_LAST: nat := 0xffff_ffff_ffff_ffff

  datatype Kind = Data | Update | Alert

  /** A record sealed: which write key, which sequence number, what it carried, and whether an answer
      was owed then. */
  datatype Sealed = Sealed(key: nat, seqNo: nat, kind: Kind, owed: bool)

  /** What every record keeps. An AES-GCM key seals below its ceiling; data goes out with no answer
      owed and leaves the key its last number; a KeyUpdate goes out for an answer owed or at it. */
  ghost predicate Lawful(aes: bool, r: Sealed) {
    && (aes ==> r.seqNo < AES_RECORDS_MAX)
    && (r.kind.Data? ==> !r.owed && (aes ==> r.seqNo < AES_RECORDS_MAX - 1))
    && (r.kind.Update? ==> r.owed || (aes && r.seqNo == AES_RECORDS_MAX - 1))
  }

  /** Every record sealed came before this point, in order and lawfully. */
  ghost predicate Log(aes: bool, s: seq<Sealed>, key: nat, seqNo: nat) {
    && Ordered(s)
    && forall i {:trigger s[i]} ::
         0 <= i < |s| ==> Lawful(aes, s[i]) && (s[i].key < key || (s[i].key == key && s[i].seqNo < seqNo))
  }

  ghost predicate Before(a: Sealed, b: Sealed) { a.key < b.key || (a.key == b.key && a.seqNo < b.seqNo) }

  /** Keys and sequence numbers only go up, so no pair is used twice. */
  ghost predicate Ordered(s: seq<Sealed>) {
    forall i, j {:trigger s[i], s[j]} :: 0 <= i < j < |s| ==> Before(s[i], s[j])
  }

  /** What io_send_all answers, run by run. */
  type Sends = nat -> bool

  /** What a write depends on: the epochs sent, the sequence number, whether an answer is owed, and the sends so far. */
  datatype Pen = Pen(epochs: nat, seqNo: nat, owed: bool, calls: nat)

  /** rec_seal takes a record. */
  predicate Seals(aes: bool, p: Pen) { p.seqNo < SEQ_LAST && (aes ==> p.seqNo < AES_RECORDS_MAX) }

  /** A KeyUpdate goes before the next data record. */
  predicate Due(aes: bool, p: Pen) { p.owed || (aes && p.seqNo >= AES_RECORDS_MAX - 1) }

  /** Where the KeyUpdate that may be due leaves a session, if it goes out. */
  function Updated(aes: bool, sends: Sends, p: Pen): Option<Pen> {
    if !Due(aes, p) then Some(p)
    else if p.epochs < SEND_EPOCHS_MAX && Seals(aes, p) && sends(p.calls)
      then Some(Pen(p.epochs + 1, 0, false, p.calls + 1))
    else None
  }

  /** And a data record. */
  function DataSent(aes: bool, sends: Sends, p: Pen): Option<Pen> {
    if Seals(aes, p) && sends(p.calls) then Some(p.(seqNo := p.seqNo + 1, calls := p.calls + 1)) else None
  }

  function RecordSent(aes: bool, sends: Sends, p: Pen): Option<Pen> {
    if Updated(aes, sends, p).Some? then DataSent(aes, sends, Updated(aes, sends, p).value) else None
  }

  /** Where n data records leave it, if all go out, and how many do. */
  ghost function RecordsSent(aes: bool, sends: Sends, p: Pen, n: nat): Option<Pen>
    decreases n
  {
    if n == 0 then Some(p)
    else if RecordSent(aes, sends, p).Some? then RecordsSent(aes, sends, RecordSent(aes, sends, p).value, n - 1)
    else None
  }

  ghost function SentOf(aes: bool, sends: Sends, p: Pen, n: nat): (k: nat)
    ensures k <= n
    decreases n
  {
    if n > 0 && RecordSent(aes, sends, p).Some? then 1 + SentOf(aes, sends, RecordSent(aes, sends, p).value, n - 1)
    else 0
  }

  /** The KeyUpdates that n data records take. */
  ghost function Keys(aes: bool, seqNo: nat, owed: bool, n: nat): nat
    decreases n
  {
    if n == 0 then 0
    else if owed || (aes && seqNo >= AES_RECORDS_MAX - 1) then 1 + Keys(aes, 1, false, n - 1)
    else Keys(aes, seqNo + 1, false, n - 1)
  }

  /** No record of n meets the last sequence number. */
  ghost predicate InSequence(seqNo: nat, owed: bool, n: nat) {
    n == 0 || if owed then seqNo < SEQ_LAST && n <= SEQ_LAST else seqNo + n <= SEQ_LAST
  }

  ghost predicate AllSent(sends: Sends, from: nat, n: nat) {
    forall i {:trigger sends(i)} :: from <= i < from + n ==> sends(i)
  }

  ghost predicate Lasts(aes: bool, sends: Sends, p: Pen, n: nat, keys: nat) {
    && AllSent(sends, p.calls, n + keys) && (keys > 0 ==> p.epochs + keys <= SEND_EPOCHS_MAX)
    && (aes || InSequence(p.seqNo, p.owed, n))
  }

  /** n data records go out if and only if every send of theirs and of the KeyUpdates between them does, the epochs last
      for those, and without AES-GCM the sequence numbers last too. */
  lemma {:induction false} SentIff(aes: bool, sends: Sends, p: Pen, n: nat)
    requires aes ==> p.seqNo < AES_RECORDS_MAX
    ensures RecordsSent(aes, sends, p, n).Some? <==> Lasts(aes, sends, p, n, Keys(aes, p.seqNo, p.owed, n))
    ensures RecordsSent(aes, sends, p, n).Some? <==> SentOf(aes, sends, p, n) == n
    decreases n
  {
    if n > 0 {
      var keys := Keys(aes, p.seqNo, p.owed, n);
      if Due(aes, p) { assert sends(p.calls) || !AllSent(sends, p.calls, n + keys); }
      if Updated(aes, sends, p).Some? {
        var q := Updated(aes, sends, p).value;
        assert sends(q.calls) || !AllSent(sends, p.calls, n + keys);
        if RecordSent(aes, sends, p).Some? {
          var next := RecordSent(aes, sends, p).value;
          SentIff(aes, sends, next, n - 1);
        }
      }
    }
  }

  class Session {
    /** The transport: what each io_send_all answers, and how many there were. */
    const sends: Sends
    var calls: nat
    const bufLen: nat
    const server: bool
    const ticket: TicketCheck
    /** Whether the write direction runs AES-GCM. */
    const aes: bool
    var connected: bool
    /** Whether the peer's fatal alert came, or its close_notify. */
    var alertReceived: bool
    var readClosed: bool
    /** The application data not yet read. */
    var plain: seq<Byte>
    var run: nat
    var owed: bool
    var sendEpochs: nat
    var readKey: nat
    var writeKey: nat
    var writeSeq: nat
    ghost var sealed: seq<Sealed>
    /** The bytes of the records sent. */
    ghost var wire: nat
    /** The read key when data last came. */
    ghost var runStart: nat
    /** All application data that came, and all that was read. */
    ghost var arrived: seq<Byte>
    ghost var taken: seq<Byte>

    /** The run of KeyUpdates read since data came. */
    ghost predicate Reading()
      reads this
    {
      run <= RUN_MAX && readKey == runStart + run && (owed ==> sendEpochs < SEND_EPOCHS_MAX)
    }

    /** The records sealed so far. */
    ghost predicate Writing()
      reads this
    {
      sendEpochs == writeKey <= SEND_EPOCHS_MAX && writeSeq <= SEQ_LAST && Log(aes, sealed, writeKey, writeSeq)
    }

    /** While a session is connected its AES-GCM write key has a number left for an alert. */
    ghost predicate Room()
      reads this
    {
      connected && aes ==> writeSeq < AES_RECORDS_MAX
    }

    /** Data is read in the order it came, and while the session is connected none is lost. */
    ghost predicate Delivering()
      reads this
    {
      taken <= arrived && (connected ==> arrived == taken + plain)
    }

    ghost predicate Valid()
      reads this
    {
      Reading() && Writing() && Room() && Delivering()
    }

    /** What the next write depends on. */
    function PenOf(): Pen
      reads this
    {
      Pen(sendEpochs, writeSeq, owed, calls)
    }

    constructor (bufLen: nat, server: bool, ticket: TicketCheck, aes: bool, sends: Sends)
      ensures Valid() && connected && !readClosed && plain == [] && sealed == [] && readKey == runStart == 0
              && writeKey == 0
    {
      this.bufLen, this.server, this.ticket, this.aes, this.sends, calls := bufLen, server, ticket, aes, sends, 0;
      connected, alertReceived, readClosed, plain, run, owed, sendEpochs := true, false, false, [], 0, false, 0;
      arrived, taken := [], [];
      readKey, writeKey, writeSeq, sealed, wire, runStart := 0, 0, 0, [], 0, 0;
    }

    /** handle_key_update. */
    method HandleKeyUpdate(request: Byte)
      requires Reading() && run < RUN_MAX
      modifies this`run, this`readKey, this`owed
      ensures Reading() && run == old(run) + 1 && readKey == old(readKey) + 1
      ensures owed == (old(owed) || (request == 1 && sendEpochs < SEND_EPOCHS_MAX))
    {
      run := run + 1;
      readKey := readKey + 1;
      if request == 1 && sendEpochs < SEND_EPOCHS_MAX {
        owed := true;
      }
    }

    /** A KeyUpdate taken moves the read key by one, adds one to the run, and owes an answer if it asked
        for one below this side's cap; nothing else changes any of the three. */
    ghost predicate Takes(o: Outcome, run0: nat, readKey0: nat, owed0: bool)
      reads this
    {
      if o.Rekeyed? then
        && run == run0 + 1 && readKey == readKey0 + 1
        && owed == (owed0 || (o.request == 1 && sendEpochs < SEND_EPOCHS_MAX))
      else
        run == run0 && readKey == readKey0 && owed == owed0
    }

    /** One message: take_ticket or take_key_update. */
    method TakeMessage(kind: Byte, body: seq<Byte>, last: bool) returns (o: Outcome)
      requires Reading()
      modifies this`run, this`readKey, this`owed
      ensures Reading() && Gives(ticket, server, old(run), kind, body, last, o)
              && Takes(o, old(run), old(readKey), old(owed))
    {
      if kind == NEW_SESSION_TICKET {
        return if server then Bad(UNEXPECTED_MESSAGE) else if ticket(body) then Used(4 + |body|) else Bad(DECODE_ERROR);
      }
      if kind != KEY_UPDATE {
        return Bad(UNEXPECTED_MESSAGE);
      }
      if |body| != 1 {
        return Bad(DECODE_ERROR);
      }
      if body[0] > 1 {
        return Bad(ILLEGAL_PARAMETER);
      }
      if !last {
        return Bad(UNEXPECTED_MESSAGE);
      }
      if run >= RUN_MAX {
        return Full;
      }
      HandleKeyUpdate(body[0]);
      return Rekeyed(body[0]);
    }

    /** handle_post_handshake: the outcome is the input's, at most one rekey happens and only then, and
        an answer becomes owed only by it. Nothing of the write direction changes. */
    method HandlePostHandshake(pt: seq<Byte>) returns (o: Outcome)
      requires Reading()
      modifies this`run, this`readKey, this`owed
      ensures Reading() && o == Scan(ticket, server, bufLen, old(run), pt)
              && Takes(o, old(run), old(readKey), old(owed))
    {
      var off, more := 0, true;
      ghost var rest := Start(ticket, server, bufLen, run, pt);
      ghost var want := rest;
      o := Used(0);
      while more && |pt| - off >= 4
        invariant 0 <= off <= |pt| && Reading() && o.Used? == more && Takes(o, old(run), old(readKey), old(owed))
        invariant if more then Comes(ticket, server, bufLen, old(run), pt[off..], rest) && want == After(off, rest)
                  else o == want
        decreases more, |pt| - off
      {
        var n := MessageAt(pt, off);
        if n > 4 + 0x4000 || n > bufLen {
          TooLarge(ticket, server, bufLen, run, pt[off..], rest);
          o := Bad(UNEXPECTED_MESSAGE);
          more := false;
        } else if off + n > |pt| {
          break;
        } else {
          o := TakeMessage(pt[off], pt[off + 4..off + n], off + n == |pt|);
          rest := Step(ticket, server, bufLen, old(run), pt, off, n, rest, o);
          more := o.Used?;
          off := if more then off + n else off;
        }
      }
      if more {
        Stops(ticket, server, bufLen, run, pt[off..], rest);
        o := Used(off);
      }
    }

    /** Application data: the bytes wait to be read, and any byte at all ends the run. */
    method ReadData(content: seq<Byte>)
      requires Valid() && connected && plain == []
      modifies this`run, this`runStart, this`plain, this`arrived
      ensures Valid() && plain == content && arrived == old(arrived) + content
      ensures run == (if content != [] then 0 else old(run))
      ensures runStart == if content != [] then readKey else old(runStart)
    {
      plain := content;
      arrived := arrived + content;
      if content != [] {
        run := 0;
        runStart := readKey;
      }
    }

    /** Nothing of the read direction changes but what an end of the session takes. */
    twostate predicate KeepsReading()
      reads this
    {
      && run == old(run) && readKey == old(readKey) && runStart == old(runStart)
      && arrived == old(arrived) && taken == old(taken) && readClosed == old(readClosed)
      && (connected ==> old(connected) && plain == old(plain))
    }

    /** Whether io_send_all moved every byte. */
    method SendAll() returns (ok: bool)
      modifies this`calls
      ensures ok == sends(old(calls)) && calls == old(calls) + 1
    {
      ok := sends(calls);
      calls := calls + 1;
    }

    /** rec_seal: its limits on a sequence number, and the record it adds. */
    method SealRecord(kind: Kind) returns (ok: bool)
      requires Writing()
      requires (aes ==> writeSeq < AES_RECORDS_MAX) ==> Lawful(aes, Sealed(writeKey, writeSeq, kind, owed))
      modifies this`writeSeq, this`sealed
      ensures Writing() && (ok <==> old(writeSeq) < SEQ_LAST && (aes ==> old(writeSeq) < AES_RECORDS_MAX))
      ensures writeSeq == if ok then old(writeSeq) + 1 else old(writeSeq)
      ensures sealed == if ok then old(sealed) + [Sealed(writeKey, old(writeSeq), kind, owed)] else old(sealed)
    {
      ok := writeSeq != SEQ_LAST && !(aes && writeSeq >= AES_RECORDS_MAX);
      if ok {
        sealed := sealed + [Sealed(writeKey, writeSeq, kind, owed)];
        writeSeq := writeSeq + 1;
      }
    }

    /** tlsi_fail: exactly one alert while the session lasts and the peer sent none, and nothing after it. */
    method Fail()
      requires Writing()
      modifies this`writeSeq, this`sealed, this`connected, this`plain, this`calls
      ensures Writing() && Room() && !connected && plain == []
      ensures var told := old(connected) && !alertReceived && Seals(aes, old(PenOf()));
              && sealed == old(sealed) + (if told then [Sealed(writeKey, old(writeSeq), Alert, owed)] else [])
              && calls == old(calls) + if told then 1 else 0
    {
      if connected && !alertReceived {
        var sealedOne := SealRecord(Alert);
        if sealedOne {
          var sent := SendAll();
        }
      }
      connected, plain := false, [];
    }

    /** hspost_send_key_update: one record under the old key, then the next key. */
    method SendKeyUpdate() returns (rc: Code)
      requires Valid() && sendEpochs < SEND_EPOCHS_MAX && (owed || (aes && writeSeq == AES_RECORDS_MAX - 1))
      modifies this`writeSeq, this`sealed, this`writeKey, this`sendEpochs, this`owed, this`wire, this`calls
      ensures Reading() && Writing() && (rc.Ok? || rc.Eio?) && old(sealed) <= sealed
      ensures rc.Ok? <==> Seals(aes, old(PenOf())) && sends(old(calls))
      ensures rc.Ok? ==> PenOf() == Pen(old(sendEpochs) + 1, 0, false, old(calls) + 1)
      ensures rc.Ok? ==> writeKey == old(writeKey) + 1 && wire == old(wire) + UPDATE
    {
      var ok := SealRecord(Update);
      if ok {
        ok := SendAll();
      }
      if !ok {
        return Eio;
      }
      writeKey, writeSeq := writeKey + 1, 0;
      sendEpochs := sendEpochs + 1;
      owed := false;
      wire := wire + UPDATE;
      return Ok;
    }

    /** records_per_key. */
    function PerKey(): Room { if aes then Records(AES_RECORDS_MAX - 1) else Unlimited }

    /** records_before_key_update. */
    function RoomLeft(): Room
      reads this
    {
      if owed then Records(0)
      else if !aes then Unlimited
      else Records(if writeSeq < AES_RECORDS_MAX - 1 then AES_RECORDS_MAX - 1 - writeSeq else 0)
    }

    /** key_update_before_record: the key the next data record goes out under. */
    method KeyUpdateBeforeRecord() returns (rc: Code)
      requires Valid() && connected
      modifies this`writeSeq, this`sealed, this`writeKey, this`sendEpochs, this`owed, this`connected, this`plain,
        this`wire, this`calls
      ensures Valid() && old(sealed) <= sealed
      ensures rc.Ok? <==> Updated(aes, sends, old(PenOf())).Some?
      ensures rc.Ok? ==> PenOf() == Updated(aes, sends, old(PenOf())).value
      ensures rc.Ok? ==> connected && plain == old(plain) && RoomLeft() != Records(0)
      ensures rc.Ok? ==> if old(RoomLeft()) == Records(0) then RoomLeft() == PerKey() && wire == old(wire) + UPDATE
                         else RoomLeft() == old(RoomLeft()) && wire == old(wire)
      ensures !rc.Ok? ==> !connected && old(RoomLeft()) == Records(0)
      ensures rc == Ecap ==> old(sendEpochs) == SEND_EPOCHS_MAX && aes && !old(owed)
    {
      if RoomLeft() != Records(0) {
        return Ok;
      }
      if sendEpochs >= SEND_EPOCHS_MAX {
        Fail();
        return Ecap;
      }
      rc := SendKeyUpdate();
      if !rc.Ok? {
        Fail();
      }
    }

    /** A data record: sealed and sent, or the session fails. */
    method SendData(n: nat) returns (rc: Code)
      requires Valid() && connected && RoomLeft() != Records(0)
      modifies this`writeSeq, this`sealed, this`connected, this`plain, this`wire, this`calls
      ensures Valid() && old(sealed) <= sealed && (rc.Ok? <==> connected) && (connected ==> plain == old(plain))
      ensures rc.Ok? <==> DataSent(aes, sends, old(PenOf())).Some?
      ensures rc.Ok? ==> PenOf() == DataSent(aes, sends, old(PenOf())).value
      ensures rc.Ok? ==> RoomLeft() == Next(old(RoomLeft())) && wire == old(wire) + n + OVERHEAD
      ensures rc == Ecap ==> !aes && old(writeSeq) == SEQ_LAST
    {
      var ok := SealRecord(Data);
      if !ok {
        Fail();
        return Ecap;
      }
      ok := SendAll();
      if !ok {
        Fail();
        return Eio;
      }
      wire := wire + n + OVERHEAD;
      return Ok;
    }

    /** No key seals two records under one sequence number. */
    lemma NoReuse(i: nat, j: nat)
      requires Valid() && i < j < |sealed|
      ensures sealed[i].key != sealed[j].key || sealed[i].seqNo != sealed[j].seqNo
    {}
  }

  /** p's outcome is o. It stands behind Look, so that only the steps below open it. */
  ghost predicate Comes(ticket: TicketCheck, server: bool, bufLen: nat, run: nat, p: seq<Byte>, o: Outcome) {
    forall m: int {:trigger Look(m)} :: Look(m) ==> Scan(ticket, server, bufLen, run, p) == o
  }

  /** One message's outcome is o, behind Look too. */
  ghost predicate Gives(ticket: TicketCheck, server: bool, run: nat, kind: Byte, body: seq<Byte>, last: bool,
                        o: Outcome) {
    forall m: int {:trigger Look(m)} :: Look(m) ==> One(ticket, server, run, kind, body, last) == o
  }

  lemma {:induction false} Start(ticket: TicketCheck, server: bool, bufLen: nat, run: nat, pt: seq<Byte>)
    returns (o: Outcome)
    ensures o == Scan(ticket, server, bufLen, run, pt) && Comes(ticket, server, bufLen, run, pt[0..], o)
  {
    assert pt[0..] == pt;
    o := Scan(ticket, server, bufLen, run, pt);
  }

  /** A whole message at off: its own outcome, or what the rest behind it comes to. */
  lemma {:induction false} Step(ticket: TicketCheck, server: bool, bufLen: nat, run: nat, pt: seq<Byte>, off: nat,
                                n: nat, rest: Outcome, o: Outcome)
    returns (next: Outcome)
    requires off + 4 <= |pt| && n == 4 + MessageLength(pt[off..]) && n <= 4 + 0x4000 && n <= bufLen && off + n <= |pt|
    requires Comes(ticket, server, bufLen, run, pt[off..], rest)
    requires Gives(ticket, server, run, pt[off], pt[off + 4..off + n], off + n == |pt|, o)
    ensures if o.Used? then rest == After(n, next) && Comes(ticket, server, bufLen, run, pt[off + n..], next)
            else rest == next == o
  {
    assert Look(0);
    var p := pt[off..];
    assert pt[off + 4..off + n] == p[4..n] && p[n..] == pt[off + n..];
    next := if o.Used? then Scan(ticket, server, bufLen, run, pt[off + n..]) else o;
  }

  lemma {:induction false} TooLarge(ticket: TicketCheck, server: bool, bufLen: nat, run: nat, p: seq<Byte>, o: Outcome)
    requires Comes(ticket, server, bufLen, run, p, o) && |p| >= 4
             && (MessageLength(p) > 0x4000 || 4 + MessageLength(p) > bufLen)
    ensures o == Bad(UNEXPECTED_MESSAGE)
  {
    assert Look(0);
  }

  lemma {:induction false} Stops(ticket: TicketCheck, server: bool, bufLen: nat, run: nat, p: seq<Byte>, o: Outcome)
    requires Comes(ticket, server, bufLen, run, p, o)
    requires |p| < 4 || (MessageLength(p) <= 0x4000 && 4 + MessageLength(p) <= bufLen && 4 + MessageLength(p) > |p|)
    ensures o == Used(0)
  {
    assert Look(0);
  }

  method MessageAt(pt: seq<Byte>, off: nat) returns (n: nat)
    requires off + 4 <= |pt|
    ensures n == 4 + MessageLength(pt[off..])
  {
    n := 4 + 0x10000 * (pt[off + 1] as int) + 0x100 * (pt[off + 2] as int) + pt[off + 3];
  }
}
