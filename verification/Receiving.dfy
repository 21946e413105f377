/** What a connected session reads: src/handshake_post.c:377-450, which drains a run of messages cut across
    records, and src/tls.c:222-348. The records come from any peer and any transport. */
module Receiving {
  import opened Common
  import opened Framing
  import opened Reader
  import opened PostHandshake
  import opened Connected

  /** What comes of reading one record: none, with a code and an alert; one in the clear; one that does not open;
      or its inner type and content. */
  datatype Record = Unread(rc: Code, alert: Byte) | Clear | Unopened | Holds(kind: Byte, content: seq<Byte>)

  const CLOSE_NOTIFY: Byte := 0
  const USER_CANCELED: Byte := 90

  /** The least a record takes in the buffer around its content. */
  const AROUND: nat := HDR + 1 + TAG

  predicate IsFragment(r: Record) { r.Holds? && r.kind == HANDSHAKE }

  /** The handshake bytes of one record. */
  function BytesOf(r: Record): seq<Byte> { if IsFragment(r) then r.content else [] }

  /** The handshake bytes of fragments, in order. */
  ghost function Joined(rs: seq<Record>): seq<Byte> {
    if rs == [] then [] else Joined(rs[..|rs| - 1]) + BytesOf(rs[|rs| - 1])
  }

  /** How many of them bring no byte. */
  ghost function Quiet(rs: seq<Record>): nat {
    if rs == [] then 0 else Quiet(rs[..|rs| - 1]) + if BytesOf(rs[|rs| - 1]) == [] then 1 else 0
  }

  /** The fragments are at most the quiet ones and as many more as there are bytes. */
  lemma {:induction false} FragmentCount(rs: seq<Record>)
    ensures |rs| <= Quiet(rs) + |Joined(rs)|
  {
    if rs != [] { FragmentCount(rs[..|rs| - 1]); }
  }

  lemma {:induction false} OneMore(rs: seq<Record>, k: nat)
    requires k < |rs|
    ensures Joined(rs[..k + 1]) == Joined(rs[..k]) + BytesOf(rs[k])
    ensures Quiet(rs[..k + 1]) == Quiet(rs[..k]) + if BytesOf(rs[k]) == [] then 1 else 0
  {
    assert rs[..k + 1][..k] == rs[..k] && rs[..k + 1][k] == rs[k];
  }

  /** Whatever comes next, scanning all of it is scanning the window after the bytes already used. It stands behind
      Look, so that only the three steps below open it. */
  ghost predicate Resumes(ticket: TicketCheck, server: bool, bufLen: nat, run: nat, all: seq<Byte>, window: seq<Byte>,
                          used: nat) {
    forall m: int {:trigger Look(m)} :: Look(m) ==>
      forall more: seq<Byte> {:trigger all + more} ::
        Scan(ticket, server, bufLen, run, all + more) == After(used, Scan(ticket, server, bufLen, run, window + more))
  }

  lemma {:induction false} ResumesAtFirst(ticket: TicketCheck, server: bool, bufLen: nat, run: nat, pt: seq<Byte>)
    ensures Resumes(ticket, server, bufLen, run, pt, pt, 0)
  {}

  /** Used bytes leave the window. */
  lemma {:induction false} ResumesAfter(ticket: TicketCheck, server: bool, bufLen: nat, run: nat,
                                        all: seq<Byte>, window: seq<Byte>, used: nat, n: nat)
    requires Resumes(ticket, server, bufLen, run, all, window, used)
             && Scan(ticket, server, bufLen, run, window) == Used(n)
    ensures n <= |window| && Resumes(ticket, server, bufLen, run, all, window[n..], used + n)
  {
    assert Look(0);
    ScanResumes(ticket, server, bufLen, run, window, [], n);
    forall more: seq<Byte> {:trigger all + more}
      ensures Scan(ticket, server, bufLen, run, all + more)
           == After(used + n, Scan(ticket, server, bufLen, run, window[n..] + more))
    {
      ScanResumes(ticket, server, bufLen, run, window, more, n);
    }
  }

  /** A fragment joins the window. */
  lemma {:induction false} ResumesWith(ticket: TicketCheck, server: bool, bufLen: nat, run: nat,
                                       all: seq<Byte>, window: seq<Byte>, used: nat, c: seq<Byte>)
    requires Resumes(ticket, server, bufLen, run, all, window, used)
    ensures Resumes(ticket, server, bufLen, run, all + c, window + c, used)
  {
    assert Look(0);
    forall more: seq<Byte> {:trigger (all + c) + more}
      ensures Scan(ticket, server, bufLen, run, (all + c) + more)
           == After(used, Scan(ticket, server, bufLen, run, (window + c) + more))
    {
      Regroup(all, c, more);
      Regroup(window, c, more);
    }
  }

  lemma {:induction false} ResumesNow(ticket: TicketCheck, server: bool, bufLen: nat, run: nat,
                                      all: seq<Byte>, window: seq<Byte>, used: nat)
    requires Resumes(ticket, server, bufLen, run, all, window, used)
    ensures Scan(ticket, server, bufLen, run, all) == After(used, Scan(ticket, server, bufLen, run, window))
  {
    assert Look(0);
    assert all + [] == all && window + [] == window;
  }

  /** How a drained run ends: every message taken, a message refused, or no whole message to come. */
  datatype End = Drained | Denied(o: Outcome) | Broken(rc: Code, alert: Byte)

  /** What a session's messages are read under. */
  datatype Rules = Rules(ticket: TicketCheck, server: bool, bufLen: nat)

  function RulesOf(t: Session): Rules { Rules(t.ticket, t.server, t.bufLen) }

  /** A fragment with room behind fill bytes of a message in part. */
  predicate Fits(bufLen: nat, fill: nat, r: Record) { IsFragment(r) && fill + AROUND + |r.content| <= bufLen }

  /** What every other record comes to there. */
  function Refusal(bufLen: nat, fill: nat, r: Record): End {
    match r
    case Unread(rc, alert) => Broken(rc, alert)
    case Holds(kind, content) =>
      if AROUND + |content| > bufLen then Broken(Ecap, INTERNAL_ERROR)
      else if fill + AROUND + |content| > bufLen then Broken(Ecap, UNEXPECTED_MESSAGE)
      else Broken(Eproto, if kind == ALERT && |content| != 2 then DECODE_ERROR else UNEXPECTED_MESSAGE)
    case _ => Broken(Eauth, BAD_RECORD_MAC)
  }

  /** hsr_refuse_alert: the peer's fatal alert is noted, and anything but two bytes is malformed. */
  method RefuseAlert(t: Session, content: seq<Byte>) returns (alert: Byte)
    modifies t`alertReceived
    ensures t.alertReceived
            == (old(t.alertReceived) || (|content| == 2 && content[1] !in {CLOSE_NOTIFY, USER_CANCELED}))
    ensures alert == if |content| != 2 then DECODE_ERROR else UNEXPECTED_MESSAGE
  {
    if |content| != 2 {
      return DECODE_ERROR;
    }
    if content[1] != CLOSE_NOTIFY && content[1] != USER_CANCELED {
      t.alertReceived := true;
    }
    return UNEXPECTED_MESSAGE;
  }

  /** The read and open_fragment of one record behind fill bytes of a message in part: taken exactly when it is a
      fragment that fits. */
  method OpenFragment(t: Session, fill: nat, r: Record) returns (end: End)
    modifies t`alertReceived
    ensures end == if Fits(t.bufLen, fill, r) then Drained else Refusal(t.bufLen, fill, r)
  {
    match r
    case Unread(rc, alert) => return Broken(rc, alert);
    case Clear => return Broken(Eauth, BAD_RECORD_MAC);
    case Unopened => return Broken(Eauth, BAD_RECORD_MAC);
    case Holds(kind, content) =>
      if fill + AROUND + |content| > t.bufLen {
        return Broken(Ecap, if AROUND + |content| > t.bufLen then INTERNAL_ERROR else UNEXPECTED_MESSAGE);
      }
      if kind == ALERT {
        var alert := RefuseAlert(t, content);
        return Broken(Eproto, alert);
      }
      return if kind == HANDSHAKE then Drained else Broken(Eproto, UNEXPECTED_MESSAGE);
  }

  /** All the bytes of a run with its first k fragments, and what they come to in one piece. */
  ghost function AllOf(pt: seq<Byte>, rs: seq<Record>, k: nat): seq<Byte>
    requires k <= |rs|
  {
    pt + Joined(rs[..k])
  }

  ghost function ScanOf(c: Rules, run: nat, p: seq<Byte>): Outcome { Scan(c.ticket, c.server, c.bufLen, run, p) }

  /** The next record, or a transport that fails. */
  function RecordAt(rs: seq<Record>, k: nat): Record {
    if k < |rs| then rs[k] else Unread(Eio, UNEXPECTED_MESSAGE)
  }

  /** The bytes with outcome o end in part of a message, and r is a fragment that fits behind it. */
  ghost predicate CutBefore(c: Rules, o: Outcome, n: nat, r: Record) {
    o.Used? && o.n < n && Fits(c.bufLen, n - o.n, r)
  }

  /** The run goes on with fragment k. */
  ghost predicate Goes(c: Rules, run: nat, pt: seq<Byte>, rs: seq<Record>, k: nat) {
    && k < |rs| && Quiet(rs[..k]) < QUIET_CAP
    && CutBefore(c, ScanOf(c, run, AllOf(pt, rs, k)), |AllOf(pt, rs, k)|, rs[k])
  }

  /** The run ends behind its first k fragments, and no sooner. */
  ghost predicate StopsAt(c: Rules, run: nat, pt: seq<Byte>, rs: seq<Record>, k: nat) {
    && k <= |rs| && !Goes(c, run, pt, rs, k)
    && forall i {:trigger Goes(c, run, pt, rs, i)} :: 0 <= i < k ==> Goes(c, run, pt, rs, i)
  }

  /** The end of n bytes with outcome o, when r comes next. */
  ghost function EndOf(c: Rules, o: Outcome, n: nat, r: Record): End {
    match o
    case Rekeyed(_) => Drained
    case Used(used) => if used >= n then Drained else Refusal(c.bufLen, n - used, r)
    case _ => Denied(o)
  }

  /** How a run that stops behind k fragments ends. */
  ghost function EndAt(c: Rules, run: nat, pt: seq<Byte>, rs: seq<Record>, k: nat): End
    requires k <= |rs|
  {
    if Quiet(rs[..k]) >= QUIET_CAP then Broken(Eproto, UNEXPECTED_MESSAGE)
    else EndOf(c, ScanOf(c, run, AllOf(pt, rs, k)), |AllOf(pt, rs, k)|, RecordAt(rs, k))
  }

  /** Where the run stops, from fragment i on. */
  ghost function StopFrom(c: Rules, run: nat, pt: seq<Byte>, rs: seq<Record>, i: nat): (k: nat)
    requires i <= |rs| && forall j {:trigger Goes(c, run, pt, rs, j)} :: 0 <= j < i ==> Goes(c, run, pt, rs, j)
    ensures StopsAt(c, run, pt, rs, k)
    decreases |rs| - i
  {
    if Goes(c, run, pt, rs, i) then StopFrom(c, run, pt, rs, i + 1) else i
  }

  /** A run stops at one place only. */
  lemma {:induction false} OneStop(c: Rules, run: nat, pt: seq<Byte>, rs: seq<Record>, k: nat)
    requires StopsAt(c, run, pt, rs, k)
    ensures k == StopFrom(c, run, pt, rs, 0)
  {
    var s := StopFrom(c, run, pt, rs, 0);
    assert s <= k || Goes(c, run, pt, rs, k);
  }

  /** Everything up to fragment k went on. It stands behind Look, for the loop that only carries it. */
  ghost predicate Gone(c: Rules, run: nat, pt: seq<Byte>, rs: seq<Record>, k: nat) {
    forall m: int {:trigger Look(m)} :: Look(m) ==>
      forall i {:trigger Goes(c, run, pt, rs, i)} :: 0 <= i < k ==> Goes(c, run, pt, rs, i)
  }

  lemma {:induction false} GoneOn(c: Rules, run: nat, pt: seq<Byte>, rs: seq<Record>, k: nat, o: Outcome)
    requires Gone(c, run, pt, rs, k) && k < |rs| && Quiet(rs[..k]) < QUIET_CAP
    requires Comes(c.ticket, c.server, c.bufLen, run, AllOf(pt, rs, k), o) && CutBefore(c, o, |AllOf(pt, rs, k)|, rs[k])
    ensures Gone(c, run, pt, rs, k + 1)
  {
    assert Look(0);
    assert Goes(c, run, pt, rs, k);
  }

  lemma {:induction false} EndsHere(c: Rules, run: nat, pt: seq<Byte>, rs: seq<Record>, k: nat, o: Outcome, end: End)
    requires k <= |rs| && Gone(c, run, pt, rs, k) && Comes(c.ticket, c.server, c.bufLen, run, AllOf(pt, rs, k), o)
    requires if Quiet(rs[..k]) >= QUIET_CAP then end == Broken(Eproto, UNEXPECTED_MESSAGE)
             else !CutBefore(c, o, |AllOf(pt, rs, k)|, RecordAt(rs, k))
                  && end == EndOf(c, o, |AllOf(pt, rs, k)|, RecordAt(rs, k))
    ensures StopsAt(c, run, pt, rs, k) && end == EndAt(c, run, pt, rs, k) && o == ScanOf(c, run, AllOf(pt, rs, k))
  {
    assert Look(0);
  }

  /** The messages in the window, of all the bytes that came. */
  method HandleWindow(t: Session, window: seq<Byte>, ghost all: seq<Byte>, ghost used: nat)
    returns (o: Outcome, ghost s: Outcome)
    requires t.Reading() && Resumes(t.ticket, t.server, t.bufLen, t.run, all, window, used)
    modifies t`run, t`readKey, t`owed
    ensures t.Reading() && t.Takes(o, old(t.run), old(t.readKey), old(t.owed))
    ensures Comes(t.ticket, t.server, t.bufLen, old(t.run), all, s)
    ensures if o.Used? then o.n <= |window| && s == Used(used + o.n) else s == o
    ensures o.Used? ==> Resumes(t.ticket, t.server, t.bufLen, old(t.run), all, window[o.n..], used + o.n)
  {
    ghost var run := t.run;
    ResumesNow(t.ticket, t.server, t.bufLen, run, all, window, used);
    o := t.HandlePostHandshake(window);
    s := After(used, o);
    if o.Used? { ResumesAfter(t.ticket, t.server, t.bufLen, run, all, window, used, o.n); }
  }

  /** One pass of drain_run's loop: the messages in the window, and one record more if the last of them is cut. */
  method OnePass(t: Session, window: seq<Byte>, r: Record, ghost all: seq<Byte>, ghost used: nat)
    returns (end: End, go: bool, rest: seq<Byte>, ghost gone: nat, ghost s: Outcome)
    requires t.Reading() && Resumes(t.ticket, t.server, t.bufLen, t.run, all, window, used) && |all| == used + |window|
    modifies t`run, t`readKey, t`owed, t`alertReceived
    ensures t.Reading() && Comes(t.ticket, t.server, t.bufLen, old(t.run), all, s)
    ensures t.Takes(s, old(t.run), old(t.readKey), old(t.owed))
    ensures go <==> CutBefore(RulesOf(t), s, |all|, r)
    ensures !go ==> end == EndOf(RulesOf(t), s, |all|, r)
    ensures go ==> |all + r.content| == gone + |rest|
    ensures go ==> Resumes(t.ticket, t.server, t.bufLen, t.run, all + r.content, rest, gone)
  {
    var o;
    go, rest, gone := false, window, used;
    o, s := HandleWindow(t, window, all, used);
    if !o.Used? {
      end := if o.Rekeyed? then Drained else Denied(o);
    } else if o.n == |window| {
      end := Drained;
    } else {
      rest, gone := window[o.n..], used + o.n;
      end := OpenFragment(t, |rest|, r);
      go := end.Drained?;
      if go {
        ResumesWith(t.ticket, t.server, t.bufLen, t.run, all, rest, gone, r.content);
        rest := rest + r.content;
      }
    }
  }

  /** The loop of drain_run, with s for the scan of the bytes it read. */
  method Drain(t: Session, pt: seq<Byte>, rs: seq<Record>) returns (end: End, ghost k: nat, ghost s: Outcome)
    requires t.Reading()
    modifies t`run, t`readKey, t`owed, t`alertReceived
    ensures t.Reading() && StopsAt(RulesOf(t), old(t.run), pt, rs, k) && end == EndAt(RulesOf(t), old(t.run), pt, rs, k)
    ensures s == ScanOf(RulesOf(t), old(t.run), AllOf(pt, rs, k)) && Quiet(rs[..k]) <= QUIET_CAP
    ensures t.Takes(s, old(t.run), old(t.readKey), old(t.owed))
  {
    var window, quiet, next, go := pt, 0, 0, true;
    ghost var all, used: nat, c, run := pt, 0, RulesOf(t), t.run;
    ResumesAtFirst(t.ticket, t.server, t.bufLen, t.run, pt);
    end, k, s := Drained, 0, Used(0);
    assert rs[..0] == [] && pt + [] == pt;
    while go && quiet < QUIET_CAP
      invariant next == k <= |rs| && quiet == Quiet(rs[..k]) <= QUIET_CAP && all == AllOf(pt, rs, k)
      invariant t.Reading() && t.Takes(s, run, old(t.readKey), old(t.owed)) && Gone(c, run, pt, rs, k)
      invariant go ==> s.Used? && |all| == used + |window|
      invariant go ==> Resumes(t.ticket, t.server, t.bufLen, t.run, all, window, used)
      invariant !go || quiet == QUIET_CAP ==> Comes(t.ticket, t.server, t.bufLen, run, all, s)
      invariant !go ==> !CutBefore(c, s, |all|, RecordAt(rs, k)) && end == EndOf(c, s, |all|, RecordAt(rs, k))
      invariant !go ==> quiet < QUIET_CAP
      decreases go, |rs| - k
    {
      var r := RecordAt(rs, next);
      end, go, window, used, s := OnePass(t, window, r, all, used);
      if go {
        GoneOn(c, run, pt, rs, k, s);
        OneMore(rs, k);
        Regroup(pt, Joined(rs[..k]), r.content);
        assert r.content == [] ==> all + r.content == all;
        all := all + r.content;
        quiet, next, k := if r.content == [] then quiet + 1 else quiet, next + 1, k + 1;
      }
    }
    if go {
      end := Broken(Eproto, UNEXPECTED_MESSAGE);
    }
    EndsHere(c, run, pt, rs, k, s, end);
  }

  /** drain_run over whatever records come behind the first bytes. It stops at the first place where the bytes that
      came, scanned in one piece, end no message in part, or where the quiet cap is reached or no fragment comes that
      fits; its end is what is found there, and so at most one rekey happens in it, by the last message of all. It
      reads at most QUIET_CAP fragments and as many more as they brought bytes. */
  method DrainRun(t: Session, pt: seq<Byte>, rs: seq<Record>) returns (end: End, ghost k: nat)
    requires t.Reading()
    modifies t`run, t`readKey, t`owed, t`alertReceived
    ensures t.Reading() && StopsAt(RulesOf(t), old(t.run), pt, rs, k) && end == EndAt(RulesOf(t), old(t.run), pt, rs, k)
    ensures t.Takes(ScanOf(RulesOf(t), old(t.run), AllOf(pt, rs, k)), old(t.run), old(t.readKey), old(t.owed))
    ensures k <= QUIET_CAP + |Joined(rs[..k])|
  {
    ghost var s;
    end, k, s := Drain(t, pt, rs);
    FragmentCount(rs[..k]);
  }

  /** A whole run is drained exactly when the bytes read end with a message or a KeyUpdate taken. */
  lemma {:induction false} DrainedIff(c: Rules, run: nat, pt: seq<Byte>, rs: seq<Record>, k: nat)
    requires StopsAt(c, run, pt, rs, k)
    ensures var o, n := ScanOf(c, run, AllOf(pt, rs, k)), |AllOf(pt, rs, k)|;
            EndAt(c, run, pt, rs, k) == Drained <==> o == Used(n) || o.Rekeyed?
  {
    if Quiet(rs[..k]) >= QUIET_CAP {
      CutAtCap(c, run, pt, rs, k);
    } else {
      KeyUpdateIsLast(c.ticket, c.server, c.bufLen, run, AllOf(pt, rs, k));
    }
  }

  lemma {:induction false} NoRekey(c: Rules, run: nat, pt: seq<Byte>, rs: seq<Record>, k: nat)
    requires StopsAt(c, run, pt, rs, k) && EndAt(c, run, pt, rs, k) != Drained
    ensures !ScanOf(c, run, AllOf(pt, rs, k)).Rekeyed?
  {
    DrainedIff(c, run, pt, rs, k);
  }

  /** The cap is reached by an empty fragment, behind a message still in part. */
  lemma {:induction false} CutAtCap(c: Rules, run: nat, pt: seq<Byte>, rs: seq<Record>, k: nat)
    requires StopsAt(c, run, pt, rs, k) && Quiet(rs[..k]) >= QUIET_CAP
    ensures var o := ScanOf(c, run, AllOf(pt, rs, k)); o.Used? && o.n < |AllOf(pt, rs, k)|
  {
    OneMore(rs, k - 1);
    assert Goes(c, run, pt, rs, k - 1);
    assert AllOf(pt, rs, k) == AllOf(pt, rs, k - 1);
  }

  /** What one record comes to for tls_read. */
  datatype Result = Going | Closed | Failed

  /** A result says whether the session and the peer's direction are over. */
  ghost predicate Ends(t: Session, rc: Result)
    reads t
  {
    (t.connected <==> rc != Failed) && (rc == Closed ==> t.readClosed)
  }

  /** What a record of application data brings. */
  function DataOf(r: Record): seq<Byte> { if r.Holds? && r.kind == APPDATA then r.content else [] }

  /** A run's end and what its bytes came to, wherever it stops. */
  ghost function DrainEnd(c: Rules, run: nat, pt: seq<Byte>, rs: seq<Record>): End {
    EndAt(c, run, pt, rs, StopFrom(c, run, pt, rs, 0))
  }

  ghost function DrainScan(c: Rules, run: nat, pt: seq<Byte>, rs: seq<Record>): Outcome {
    ScanOf(c, run, AllOf(pt, rs, StopFrom(c, run, pt, rs, 0)))
  }

  /** What a record, and the fragments behind it, do to a session: application data, a drained run of messages and
      user_canceled let it go on, close_notify closes the peer's direction, and anything else ends it. */
  ghost function ResultOf(c: Rules, run: nat, r: Record, rs: seq<Record>): Result {
    if !r.Holds? then Failed
    else if r.kind == APPDATA then Going
    else if r.kind == HANDSHAKE then if DrainEnd(c, run, r.content, rs) == Drained then Going else Failed
    else if r.kind == ALERT then AlertResult(r.content)
    else Failed
  }

  function AlertResult(content: seq<Byte>): Result {
    if |content| == 2 && content[1] == CLOSE_NOTIFY then Closed
    else if |content| == 2 && content[1] == USER_CANCELED then Going
    else Failed
  }

  /** What reading carries from record to record: the run of KeyUpdates, whether an answer to one is owed, and whether
      this side may still answer. */
  datatype Pace = Pace(run: nat, owed: bool, answers: bool)

  function PaceOf(t: Session): Pace
    reads t
  {
    Pace(t.run, t.owed, t.sendEpochs < SEND_EPOCHS_MAX)
  }

  /** Data ends the run; a KeyUpdate taken adds to it, and one that asks is answered while this side may. */
  ghost function PaceAfter(c: Rules, p: Pace, r: Record, rs: seq<Record>): Pace {
    if DataOf(r) != [] then p.(run := 0)
    else if IsFragment(r) && DrainScan(c, p.run, r.content, rs).Rekeyed? then
      Pace(p.run + 1, p.owed || (DrainScan(c, p.run, r.content, rs).request == 1 && p.answers), p.answers)
    else p
  }

  /** The alert a session that a read ends sends, unless the peer sent one or no number is left. */
  twostate function AlertOf(t: Session): seq<Sealed>
    reads t
  {
    if t.connected || t.alertReceived || !Seals(t.aes, old(t.PenOf())) then []
    else [Sealed.Sealed(t.writeKey, old(t.writeSeq), Kind.Alert, old(t.owed))]
  }

  /** What reading a record never does: touch the write direction but for one alert, move the read key by more than
      one, lose or reorder data, or let the run past its limit. */
  twostate predicate Reads(t: Session, data: seq<Byte>)
    reads t
  {
    && t.Valid() && t.sealed == old(t.sealed) + AlertOf(t) && (t.connected ==> t.calls == old(t.calls))
    && t.writeKey == old(t.writeKey) && t.readKey <= old(t.readKey) + 1
    && (t.connected ==> t.writeSeq == old(t.writeSeq))
    && t.arrived == old(t.arrived) + data && t.taken == old(t.taken)
    && t.runStart == if data != [] then old(t.readKey) else old(t.runStart)
  }

  /** read_alert: close_notify closes the peer's direction, user_canceled is passed over, and any other ends the
      session, with nothing sent after a fatal alert. */
  method ReadAlert(t: Session, content: seq<Byte>) returns (rc: Result)
    requires t.Valid() && t.connected && t.plain == []
    modifies t
    ensures Reads(t, []) && Ends(t, rc) && t.plain == [] && rc == AlertResult(content)
    ensures PaceOf(t) == old(PaceOf(t))
    ensures rc != Closed ==> t.readClosed == old(t.readClosed)
    ensures rc == Failed && |content| == 2 ==> t.alertReceived
  {
    if |content| == 2 && content[1] == CLOSE_NOTIFY {
      t.readClosed := true;
      return Closed;
    }
    if |content| == 2 && content[1] == USER_CANCELED {
      return Going;
    }
    var alert := RefuseAlert(t, content);
    t.Fail();
    return Failed;
  }

  /** A run drained or not, and the pace behind it. */
  method DrainAll(t: Session, pt: seq<Byte>, rs: seq<Record>) returns (drained: bool)
    requires t.Reading()
    modifies t`run, t`readKey, t`owed, t`alertReceived
    ensures t.Reading() && (drained <==> DrainEnd(RulesOf(t), old(t.run), pt, rs) == Drained)
    ensures PaceOf(t) == PaceAfter(RulesOf(t), old(PaceOf(t)), Holds(HANDSHAKE, pt), rs)
            && t.readKey <= old(t.readKey) + 1
    ensures !drained ==> t.owed == old(t.owed)
  {
    var end, k, s := Drain(t, pt, rs);
    OneStop(RulesOf(t), old(t.run), pt, rs, k);
    if !end.Drained? { NoRekey(RulesOf(t), old(t.run), pt, rs, k); }
    drained := end.Drained?;
  }

  /** hspost_read. */
  method ReadMessages(t: Session, pt: seq<Byte>, rs: seq<Record>) returns (rc: Result)
    requires t.Valid() && t.connected && t.plain == []
    modifies t
    ensures Reads(t, []) && Ends(t, rc) && t.plain == [] && t.readClosed == old(t.readClosed)
    ensures rc == if DrainEnd(RulesOf(t), old(t.run), pt, rs) == Drained then Going else Failed
    ensures PaceOf(t) == PaceAfter(RulesOf(t), old(PaceOf(t)), Holds(HANDSHAKE, pt), rs)
  {
    var drained := DrainAll(t, pt, rs);
    if !drained {
      t.Fail();
    }
    rc := if drained then Going else Failed;
  }

  /** dispatch_one_record: a record, and the fragments that may follow it. */
  method Dispatch(t: Session, r: Record, rs: seq<Record>) returns (rc: Result)
    requires t.Valid() && t.connected && t.plain == []
    modifies t
    ensures Reads(t, DataOf(r)) && Ends(t, rc) && t.plain == if t.connected then DataOf(r) else []
    ensures rc == ResultOf(RulesOf(t), old(t.run), r, rs) && PaceOf(t) == PaceAfter(RulesOf(t), old(PaceOf(t)), r, rs)
    ensures rc != Closed ==> t.readClosed == old(t.readClosed)
  {
    if r.Holds? && r.kind == APPDATA {
      t.ReadData(r.content);
      return Going;
    }
    if r.Holds? && r.kind == HANDSHAKE {
      rc := ReadMessages(t, r.content, rs);
      return;
    }
    if r.Holds? && r.kind == ALERT {
      rc := ReadAlert(t, r.content);
      return;
    }
    t.Fail();
    return Failed;
  }

  /** The records of one call of tls_read, each with the fragments behind it. */
  type Feed = seq<(Record, seq<Record>)>

  /** How many of a feed's records bring data. */
  ghost function DataRecords(feed: Feed): nat {
    if feed == [] then 0 else DataRecords(feed[..|feed| - 1]) + if DataOf(feed[|feed| - 1].0) != [] then 1 else 0
  }

  ghost function DataIn(feed: Feed): seq<Byte> {
    if feed == [] then [] else DataIn(feed[..|feed| - 1]) + DataOf(feed[|feed| - 1].0)
  }

  lemma {:induction false} FeedOn(feed: Feed, k: nat)
    requires k < |feed|
    ensures DataIn(feed[..k + 1]) == DataIn(feed[..k]) + DataOf(feed[k].0)
    ensures DataRecords(feed[..k + 1]) == DataRecords(feed[..k]) + if DataOf(feed[k].0) != [] then 1 else 0
  {
    assert feed[..k + 1][..k] == feed[..k] && feed[..k + 1][k] == feed[k];
  }

  /** The pace behind a feed's first k records, and what the next one does. */
  ghost function PaceAt(c: Rules, p: Pace, feed: Feed, k: nat): Pace
    requires k <= |feed|
  {
    if k == 0 then p else PaceAfter(c, PaceAt(c, p, feed, k - 1), feed[k - 1].0, feed[k - 1].1)
  }

  ghost function ResultAt(c: Rules, p: Pace, feed: Feed, k: nat): Result
    requires k < |feed|
  {
    ResultOf(c, PaceAt(c, p, feed, k).run, feed[k].0, feed[k].1)
  }

  /** Record k brings no data, and the session goes on. */
  ghost predicate Passes(c: Rules, p: Pace, feed: Feed, k: nat) {
    k < |feed| && DataOf(feed[k].0) == [] && ResultAt(c, p, feed, k) == Going
  }

  /** Record k is the first that does not pass, or the feed's end. */
  ghost predicate FirstTold(c: Rules, p: Pace, feed: Feed, k: nat) {
    && k <= |feed| && !Passes(c, p, feed, k)
    && forall i {:trigger Passes(c, p, feed, i)} :: 0 <= i < k ==> Passes(c, p, feed, i)
  }

  ghost function ToldFrom(c: Rules, p: Pace, feed: Feed, i: nat): (k: nat)
    requires i <= |feed| && forall j {:trigger Passes(c, p, feed, j)} :: 0 <= j < i ==> Passes(c, p, feed, j)
    ensures FirstTold(c, p, feed, k)
    decreases |feed| - i
  {
    if Passes(c, p, feed, i) then ToldFrom(c, p, feed, i + 1) else i
  }

  lemma {:induction false} OneTold(c: Rules, p: Pace, feed: Feed, k: nat)
    requires FirstTold(c, p, feed, k)
    ensures k == ToldFrom(c, p, feed, 0)
  {
    var s := ToldFrom(c, p, feed, 0);
    assert s <= k || Passes(c, p, feed, k);
  }

  /** How a wait for data ends: its result, the records read, the data and the pace. */
  datatype Await = Await(rc: Result, k: nat, data: seq<Byte>, pace: Pace)

  /** The wait of tls_read for data, told by the first record that does not pass: it must come within the cap, and
      data before the last record of the cap. */
  ghost function AwaitOf(c: Rules, p: Pace, feed: Feed): Await {
    var j := ToldFrom(c, p, feed, 0);
    if j >= QUIET_CAP then Await(Failed, QUIET_CAP, [], PaceAt(c, p, feed, QUIET_CAP))
    else if j == |feed| then Await(Failed, j, [], PaceAt(c, p, feed, j))
    else if ResultAt(c, p, feed, j) == Going && j + 1 == QUIET_CAP
      then Await(Failed, j + 1, [], PaceAt(c, p, feed, j + 1))
    else Await(ResultAt(c, p, feed, j), j + 1, DataOf(feed[j].0), PaceAt(c, p, feed, j + 1))
  }

  /** A record in front moves the pace of those behind it. */
  lemma {:induction false} PaceShifts(c: Rules, p: Pace, x: (Record, seq<Record>), feed: Feed, k: nat)
    requires k <= |feed|
    ensures PaceAt(c, p, [x] + feed, k + 1) == PaceAt(c, PaceAfter(c, p, x.0, x.1), feed, k)
  {
    if k > 0 { PaceShifts(c, p, x, feed, k - 1); }
  }

  lemma {:induction false} PassesShift(c: Rules, p: Pace, x: (Record, seq<Record>), feed: Feed, k: nat)
    ensures Passes(c, p, [x] + feed, k + 1) <==> Passes(c, PaceAfter(c, p, x.0, x.1), feed, k)
    ensures k < |feed| ==> ResultAt(c, p, [x] + feed, k + 1) == ResultAt(c, PaceAfter(c, p, x.0, x.1), feed, k)
  {
    if k < |feed| { PaceShifts(c, p, x, feed, k); }
  }

  lemma {:induction false} ToldShifts(c: Rules, p: Pace, x: (Record, seq<Record>), feed: Feed, q: Pace)
    requires q == PaceAfter(c, p, x.0, x.1) && Passes(c, p, [x] + feed, 0)
    ensures ToldFrom(c, p, [x] + feed, 0) == ToldFrom(c, q, feed, 0) + 1
  {
    var j := ToldFrom(c, q, feed, 0);
    forall i {:trigger Passes(c, p, [x] + feed, i)} | 0 <= i < j + 1
      ensures Passes(c, p, [x] + feed, i)
    {
      if i > 0 { PassesShift(c, p, x, feed, i - 1); }
    }
    PassesShift(c, p, x, feed, j);
    OneTold(c, p, [x] + feed, j + 1);
  }

  /** Behind a record that passes a wait ends as it would from the pace that leaves, one record later. */
  lemma {:induction false} FrontPasses(c: Rules, p: Pace, x: (Record, seq<Record>), feed: Feed, q: Pace, w: Await)
    requires DataOf(x.0) == [] && ResultOf(c, p.run, x.0, x.1) == Going && q == PaceAfter(c, p, x.0, x.1)
    requires w == AwaitOf(c, q, feed) && w.k + 1 < QUIET_CAP
    ensures AwaitOf(c, p, [x] + feed) == w.(k := w.k + 1)
  {
    assert ([x] + feed)[0] == x;
    assert Passes(c, p, [x] + feed, 0);
    ToldShifts(c, p, x, feed, q);
    var j := ToldFrom(c, q, feed, 0);
    PassesShift(c, p, x, feed, j);
    PaceShifts(c, p, x, feed, j);
    if j < |feed| { PaceShifts(c, p, x, feed, j + 1); }
  }

  /** A record that is no data and does not pass ends it. */
  lemma {:induction false} FrontTells(c: Rules, p: Pace, x: (Record, seq<Record>), feed: Feed)
    requires DataOf(x.0) != [] || ResultOf(c, p.run, x.0, x.1) != Going
    ensures AwaitOf(c, p, [x] + feed)
         == Await(ResultOf(c, p.run, x.0, x.1), 1, DataOf(x.0), PaceAfter(c, p, x.0, x.1))
  {
    var all := [x] + feed;
    assert all[0] == x && PaceAt(c, p, all, 0) == p;
    OneTold(c, p, all, 0);
    assert PaceAt(c, p, all, 1) == PaceAfter(c, PaceAt(c, p, all, 0), all[0].0, all[0].1);
  }

  /** A close_notify ends the wait at once, with what follows it unread, and as no failure. */
  lemma {:induction false} CloseEnds(c: Rules, p: Pace, level: Byte, behind: seq<Record>, feed: Feed)
    ensures AwaitOf(c, p, [(Holds(ALERT, [level, 0]), behind)] + feed) == Await(Closed, 1, [], p)
  {
    FrontTells(c, p, (Holds(ALERT, [level, 0]), behind), feed);
  }

  /** A user_canceled is as if it were not there, but for its place under the cap. */
  lemma {:induction false} CanceledPasses(c: Rules, p: Pace, level: Byte, behind: seq<Record>, feed: Feed)
    requires AwaitOf(c, p, feed).k + 1 < QUIET_CAP
    ensures var w := AwaitOf(c, p, feed);
            AwaitOf(c, p, [(Holds(ALERT, [level, 90]), behind)] + feed) == w.(k := w.k + 1)
  {
    FrontPasses(c, p, (Holds(ALERT, [level, 90]), behind), feed, p, AwaitOf(c, p, feed));
  }

  /** Any other alert is a failure at once. */
  lemma {:induction false} AlertFails(c: Rules, p: Pace, alert: seq<Byte>, behind: seq<Record>, feed: Feed)
    requires |alert| == 2 ==> alert[1] !in {0, 90}
    ensures AwaitOf(c, p, [(Holds(ALERT, alert), behind)] + feed) == Await(Failed, 1, [], p)
  {
    FrontTells(c, p, (Holds(ALERT, alert), behind), feed);
  }

  /** A record that holds a KeyUpdate, which asks for one in turn or not. */
  function UpdateRecord(asks: bool): Record { Holds(HANDSHAKE, [24, 0, 0, 1, if asks then 1 else 0]) }

  /** It is taken while the run is below 16, and then owes an answer if it asks and this side may; at 16 it fails. */
  lemma {:induction false} UpdateTaken(c: Rules, p: Pace, asks: bool, behind: seq<Record>)
    requires c.bufLen >= 5
    ensures DataOf(UpdateRecord(asks)) == []
    ensures ResultOf(c, p.run, UpdateRecord(asks), behind) == if p.run < 16 then Going else Failed
    ensures PaceAfter(c, p, UpdateRecord(asks), behind)
         == if p.run < 16 then Pace(p.run + 1, p.owed || (asks && p.answers), p.answers) else p
  {
    var m: seq<Byte> := [24, 0, 0, 1, if asks then 1 else 0];
    assert Concat([]) + m == m && IsKeyUpdate(m);
    ScanOfTickets(c.ticket, c.server, c.bufLen, p.run, [], m);
    assert AllOf(m, behind, 0) == m;
    OneStop(c, p.run, m, behind, 0);
  }

  /** KeyUpdates, each with what is behind it, and then data. */
  ghost function UpdatesThen(asks: seq<(bool, seq<Record>)>, data: seq<Byte>): Feed {
    if asks == [] then [(Holds(APPDATA, data), [])]
    else [(UpdateRecord(asks[0].0), asks[0].1)] + UpdatesThen(asks[1..], data)
  }

  ghost predicate Asked(asks: seq<(bool, seq<Record>)>) { asks != [] && (asks[0].0 || Asked(asks[1..])) }

  /** Up to 16 KeyUpdates in a run pass, whichever ask, and the data behind them is read and ends the run; one answer is
      owed for all of them. The next one fails. */
  lemma {:induction false} UpdatesPass(c: Rules, p: Pace, asks: seq<(bool, seq<Record>)>, data: seq<Byte>)
    requires c.bufLen >= 5 && data != [] && p.run <= 16
    ensures AwaitOf(c, p, UpdatesThen(asks, data))
         == if p.run + |asks| <= 16
            then Await(Going, |asks| + 1, data, Pace(0, p.owed || (p.answers && Asked(asks)), p.answers))
            else Await(Failed, 17 - p.run, [], Pace(16, p.owed || (p.answers && Asked(asks[..16 - p.run])), p.answers))
    decreases |asks|
  {
    if asks == [] {
      assert UpdatesThen(asks, data) == [(Holds(APPDATA, data), [])] + [];
      FrontTells(c, p, (Holds(APPDATA, data), []), []);
    } else {
      var x, feed := (UpdateRecord(asks[0].0), asks[0].1), UpdatesThen(asks[1..], data);
      UpdateTaken(c, p, asks[0].0, asks[0].1);
      if p.run == 16 {
        FrontTells(c, p, x, feed);
      } else {
        var q := PaceAfter(c, p, x.0, x.1);
        UpdatesPass(c, q, asks[1..], data);
        FrontPasses(c, p, x, feed, q, AwaitOf(c, q, feed));
        assert p.run + |asks| > 16 ==> asks[..16 - p.run][1..] == asks[1..][..16 - q.run];
      }
    }
  }

  /** Where a session stood. */
  ghost function MarkOf(t: Session): Mark
    reads t
  {
    Mark(t.sealed, t.writeKey, t.writeSeq, t.calls, t.arrived, t.taken, t.runStart)
  }

  datatype Mark = Mark(sealed: seq<Sealed>, writeKey: nat, writeSeq: nat, calls: nat, arrived: seq<Byte>,
                       taken: seq<Byte>, runStart: nat)

  /** What came since a mark: the data of a feed and nothing else, with the read key kept to the data. */
  ghost predicate Since(t: Session, m: Mark, feed: Feed)
    reads t
  {
    && t.Valid() && m.sealed <= t.sealed && t.writeKey == m.writeKey && m.taken <= t.taken
    && (t.connected ==> t.sealed == m.sealed && t.writeSeq == m.writeSeq && t.calls == m.calls)
    && t.arrived == m.arrived + DataIn(feed) && t.runStart <= m.runStart + RUN_MAX * DataRecords(feed)
  }

  /** One record of tls_read's loop. */
  method NextRecord(t: Session, feed: Feed, k: nat, ghost m: Mark, ghost p: Pace) returns (rc: Result)
    requires k < |feed| && Since(t, m, feed[..k]) && t.connected && t.plain == []
    requires PaceOf(t) == PaceAt(RulesOf(t), p, feed, k)
    modifies t
    ensures Since(t, m, feed[..k + 1]) && t.taken == old(t.taken)
    ensures Ends(t, rc) && PaceOf(t) == PaceAt(RulesOf(t), p, feed, k + 1) && rc == ResultAt(RulesOf(t), p, feed, k)
    ensures t.plain == if t.connected then DataOf(feed[k].0) else []
    ensures rc != Closed ==> t.readClosed == old(t.readClosed)
  {
    FeedOn(feed, k);
    ghost var had := t.arrived;
    rc := Dispatch(t, feed[k].0, feed[k].1);
    Grows(had, DataOf(feed[k].0), m.arrived, DataIn(feed[..k]));
  }

  lemma Grows(had: seq<Byte>, data: seq<Byte>, first: seq<Byte>, rest: seq<Byte>)
    requires had == first + rest
    ensures had + data == first + (rest + data)
  {}

  /** A feed's wait ends as w. It stands behind Look, for the loop that only carries it. */
  ghost predicate Awaits(c: Rules, p: Pace, feed: Feed, w: Await) {
    forall m: int {:trigger Look(m)} :: Look(m) ==> AwaitOf(c, p, feed) == w
  }

  /** Before record k the records passed, but for data that the last of them left waiting. It stands behind Look, for
      the loop that only carries it. */
  ghost predicate AtHead(c: Rules, p: Pace, feed: Feed, k: nat, plain: seq<Byte>) {
    forall m: int {:trigger Look(m)} :: Look(m) ==>
      && (forall i {:trigger Passes(c, p, feed, i)} ::
            0 <= i < (if plain == [] then k else k - 1) ==> Passes(c, p, feed, i))
      && (plain != [] ==> 0 < k <= |feed| && plain == DataOf(feed[k - 1].0))
  }

  lemma {:induction false} HeadFirst(c: Rules, p: Pace, feed: Feed)
    ensures AtHead(c, p, feed, 0, [])
  {}

  lemma {:induction false} HeadNext(c: Rules, p: Pace, feed: Feed, k: nat)
    requires k < |feed| && AtHead(c, p, feed, k, []) && ResultAt(c, p, feed, k) == Going
    ensures AtHead(c, p, feed, k + 1, DataOf(feed[k].0))
  {
    assert Look(0);
    assert DataOf(feed[k].0) == [] ==> Passes(c, p, feed, k);
  }

  /** Data waits before the cap. */
  lemma {:induction false} HeadData(c: Rules, p: Pace, feed: Feed, k: nat, plain: seq<Byte>)
    requires k < QUIET_CAP && k <= |feed| && AtHead(c, p, feed, k, plain) && plain != []
    ensures Awaits(c, p, feed, Await(Going, k, plain, PaceAt(c, p, feed, k)))
  {
    assert Look(0);
    OneTold(c, p, feed, k - 1);
  }

  /** Record k, or the want of one, ends the wait. */
  lemma {:induction false} HeadStops(c: Rules, p: Pace, feed: Feed, k: nat)
    requires k < QUIET_CAP && k <= |feed| && AtHead(c, p, feed, k, [])
    requires k < |feed| ==> ResultAt(c, p, feed, k) != Going
    ensures Awaits(c, p, feed,
                   if k < |feed| then Await(ResultAt(c, p, feed, k), k + 1, [], PaceAt(c, p, feed, k + 1))
                   else Await(Failed, k, [], PaceAt(c, p, feed, k)))
  {
    assert Look(0);
    OneTold(c, p, feed, k);
  }

  /** The cap ends it, and data that the last record of it brought. */
  lemma {:induction false} HeadCap(c: Rules, p: Pace, feed: Feed, plain: seq<Byte>)
    requires QUIET_CAP <= |feed| && AtHead(c, p, feed, QUIET_CAP, plain)
    ensures Awaits(c, p, feed, Await(Failed, QUIET_CAP, [], PaceAt(c, p, feed, QUIET_CAP)))
  {
    assert Look(0);
    if plain != [] { OneTold(c, p, feed, QUIET_CAP - 1); }
  }

  /** tls_read's loop after quiet records: it was told how to end, or goes on. */
  ghost predicate Waiting(t: Session, m: Mark, p: Pace, feed: Feed, closed: bool, rc: Result, k: nat, quiet: nat,
                          told: bool)
    reads t
  {
    && k <= |feed| && k <= quiet && Since(t, m, feed[..k]) && t.taken == m.taken && Ends(t, rc)
    && (rc != Closed ==> t.readClosed == closed)
    && if told then Awaits(RulesOf(t), p, feed, Await(rc, k, t.plain, PaceOf(t)))
       else k == quiet && rc == Going && AtHead(RulesOf(t), p, feed, k, t.plain)
            && PaceOf(t) == PaceAt(RulesOf(t), p, feed, k)
  }

  /** One round of it: data that waits, or one record more. A feed that ends is a transport that fails. */
  method AwaitRound(t: Session, feed: Feed, at: nat, ghost m: Mark, ghost p: Pace, ghost closed: bool)
    returns (rc: Result, k: nat, told: bool)
    requires at < QUIET_CAP && Waiting(t, m, p, feed, closed, Going, at, at, false)
    modifies t
    ensures Waiting(t, m, p, feed, closed, rc, k, at + 1, told)
  {
    if t.plain != [] {
      HeadData(RulesOf(t), p, feed, at, t.plain);
      return Going, at, true;
    }
    if at == |feed| {
      HeadStops(RulesOf(t), p, feed, at);
      t.Fail();
      return Failed, at, true;
    }
    rc := NextRecord(t, feed, at, m, p);
    k, told := at + 1, rc != Going;
    if told { HeadStops(RulesOf(t), p, feed, at); } else { HeadNext(RulesOf(t), p, feed, at); }
  }

  /** The loop, when no data waits before it. */
  method AwaitLoop(t: Session, feed: Feed, ghost m: Mark, ghost p: Pace, ghost closed: bool)
    returns (rc: Result, k: nat, told: bool)
    requires Waiting(t, m, p, feed, closed, Going, 0, 0, false)
    modifies t
    ensures Waiting(t, m, p, feed, closed, rc, k, QUIET_CAP, told)
  {
    rc, k, told := Going, 0, false;
    var quiet := 0;
    while !told && quiet < QUIET_CAP
      invariant quiet <= QUIET_CAP && Waiting(t, m, p, feed, closed, rc, k, quiet, told)
    {
      rc, k, told := AwaitRound(t, feed, k, m, p, closed);
      quiet := quiet + 1;
    }
  }

  /** A wait for data ends as the records say. */
  method AwaitData(t: Session, feed: Feed) returns (rc: Result, k: nat)
    requires t.Valid() && t.connected && t.plain == []
    modifies t
    ensures k <= |feed| && k <= QUIET_CAP && Since(t, old(MarkOf(t)), feed[..k]) && t.taken == old(t.taken)
    ensures Ends(t, rc) && (rc != Closed ==> t.readClosed == old(t.readClosed))
    ensures Awaits(RulesOf(t), old(PaceOf(t)), feed, Await(rc, k, t.plain, PaceOf(t)))
  {
    var told;
    assert feed[..0] == [] && t.arrived + [] == t.arrived;
    HeadFirst(RulesOf(t), PaceOf(t), feed);
    rc, k, told := AwaitLoop(t, feed, MarkOf(t), PaceOf(t), t.readClosed);
    if !told {
      HeadCap(RulesOf(t), old(PaceOf(t)), feed, t.plain);
      t.Fail();
      rc := Failed;
    }
  }

  /** What a read depends on: the pace, the data not yet read and whether the peer closed. */
  datatype Desk = Desk(pace: Pace, plain: seq<Byte>, closed: bool)

  ghost function DeskOf(t: Session): Desk
    reads t
  {
    Desk(PaceOf(t), t.plain, t.readClosed)
  }

  /** What a read gives: whether the session goes on, the bytes, the records read, and what the next read sees. */
  datatype Answer = Answer(ok: bool, got: seq<Byte>, k: nat, desk: Desk)

  /** The first bytes of plain. */
  function Take(p: Pace, plain: seq<Byte>, n: nat, k: nat): Answer {
    var take := Least(|plain|, n);
    Answer(true, plain[..take], k, Desk(p, plain[take..], false))
  }

  /** tls_read of a connected session: the data that waits, or the data of the first record that brings any. */
  ghost function ReadOf(c: Rules, d: Desk, n: nat, feed: Feed): Answer {
    if n == 0 || d.closed then Answer(true, [], 0, d)
    else if d.plain != [] then Take(d.pace, d.plain, n, 0)
    else
      var w := AwaitOf(c, d.pace, feed);
      match w.rc
      case Going => Take(w.pace, w.data, n, w.k)
      case Closed => Answer(true, [], w.k, Desk(w.pace, [], true))
      case Failed => Answer(false, [], w.k, Desk(w.pace, [], false))
  }

  /** A read gives bytes exactly when data waits, or comes in a record before the last under the cap with nothing but
      passing records before it. */
  lemma {:induction false} ReadIff(c: Rules, d: Desk, n: nat, feed: Feed, j: nat)
    requires n > 0 && !d.closed && FirstTold(c, d.pace, feed, j)
    ensures ReadOf(c, d, n, feed).got != []
       <==> d.plain != [] || (j < |feed| && DataOf(feed[j].0) != [] && j + 1 < QUIET_CAP)
    ensures d.plain == [] && ReadOf(c, d, n, feed).got != [] ==>
              var data := DataOf(feed[j].0);
              ReadOf(c, d, n, feed) == Take(PaceAt(c, d.pace, feed, j + 1), data, n, j + 1)
  {
    OneTold(c, d.pace, feed, j);
  }

  /** Empty records up to the last under the cap, and data in that one. */
  ghost function LateFeed(data: seq<Byte>): Feed {
    seq(QUIET_CAP - 1, i => (Holds(APPDATA, []), [])) + [(Holds(APPDATA, data), [])]
  }

  /** Data that comes in it is lost, and ends the session. */
  lemma {:induction false} LateData(c: Rules, p: Pace, n: nat, data: seq<Byte>)
    requires n > 0 && data != []
    ensures DataIn(LateFeed(data)) == data && !ReadOf(c, Desk(p, [], false), n, LateFeed(data)).ok
    ensures ReadOf(c, Desk(p, [], false), n, LateFeed(data)).got == []
  {
    LateIsFirst(c, p, data);
    OneTold(c, p, LateFeed(data), QUIET_CAP - 1);
    LateIn(data);
  }

  lemma {:induction false} LateIsFirst(c: Rules, p: Pace, data: seq<Byte>)
    requires data != []
    ensures FirstTold(c, p, LateFeed(data), QUIET_CAP - 1)
  {}

  lemma {:induction false} LateIn(data: seq<Byte>)
    ensures DataIn(LateFeed(data)) == data
  {
    var feed := LateFeed(data);
    EmptyFeed(feed, QUIET_CAP - 1);
    FeedOn(feed, QUIET_CAP - 1);
    assert feed[..QUIET_CAP] == feed;
  }

  lemma {:induction false} EmptyFeed(feed: Feed, k: nat)
    requires k <= |feed| && forall i :: 0 <= i < k ==> DataOf(feed[i].0) == []
    ensures DataIn(feed[..k]) == []
  {
    if k > 0 {
      EmptyFeed(feed, k - 1);
      FeedOn(feed, k - 1);
    }
  }

  /** Up to n of the bytes that wait are read. */
  method Serve(t: Session, n: nat) returns (got: seq<Byte>)
    requires t.Valid() && t.connected
    modifies t`taken, t`plain
    ensures t.Valid() && t.taken == old(t.taken) + got
    ensures got == old(t.plain)[..Least(|old(t.plain)|, n)] && t.plain == old(t.plain)[|got|..]
  {
    var take := Least(|t.plain|, n);
    got := t.plain[..take];
    TakenOn(t.arrived, t.taken, t.plain, take);
    t.taken := t.taken + got;
    t.plain := t.plain[take..];
  }

  /** tls_read into n bytes: as the records say, with the data kept in order. */
  method Read(t: Session, n: nat, feed: Feed) returns (got: seq<Byte>, k: nat)
    requires t.Valid()
    modifies t
    ensures k <= |feed| && k <= QUIET_CAP && Since(t, old(MarkOf(t)), feed[..k]) && t.taken == old(t.taken) + got
    ensures !old(t.connected) ==> !t.connected && got == [] && k == 0
    ensures old(t.connected) ==> Answers(t, ReadOf(RulesOf(t), old(DeskOf(t)), n, feed), got, k)
  {
    got, k := [], 0;
    assert feed[..0] == [] && t.arrived + [] == t.arrived;
    if n == 0 || !t.connected || t.readClosed {
      return;
    }
    var rc := Going;
    if t.plain == [] {
      rc, k := AwaitData(t, feed);
      assert Look(0);
    }
    if rc == Going {
      got := Serve(t, n);
    }
  }

  /** A read came out as a. */
  ghost predicate Answers(t: Session, a: Answer, got: seq<Byte>, k: nat)
    reads t
  {
    got == a.got && k == a.k && t.connected == a.ok && (a.ok ==> DeskOf(t) == a.desk)
  }

  lemma TakenOn(arrived: seq<Byte>, taken: seq<Byte>, plain: seq<Byte>, take: nat)
    requires arrived == taken + plain && take <= |plain|
    ensures arrived == (taken + plain[..take]) + plain[take..] && taken + plain[..take] <= arrived
  {}

  /** tls_close: exactly one alert while the keys live and a number is left, and nothing after it. */
  method Close(t: Session)
    requires t.Valid()
    modifies t
    ensures t.Valid() && !t.connected && t.plain == []
    ensures t.sealed == old(t.sealed) + if old(t.connected) && Seals(t.aes, old(t.PenOf()))
                                        then [Sealed.Sealed(t.writeKey, old(t.writeSeq), Kind.Alert, t.owed)] else []
    ensures t.writeKey == old(t.writeKey) && t.readKey == old(t.readKey) && t.runStart == old(t.runStart)
    ensures t.arrived == old(t.arrived) && t.taken == old(t.taken) && t.owed == old(t.owed)
  {
    if t.connected {
      var ok := t.SealRecord(Kind.Alert);
      if ok {
        var sent := t.SendAll();
      }
    }
    t.connected, t.plain := false, [];
  }
}
