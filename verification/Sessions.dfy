/** A connected session over any sequence of reads, writes and closes: the calls of src/tls.c:297-348 and
    src/tls_write.c:150-185, whatever the peer sends and the transport does. */
module Sessions {
  import opened Common
  import opened Framing
  import opened PostHandshake
  import opened Connected
  import opened Receiving
  import opened Writing

  /** A call, and for a read the records that come during it. */
  datatype Call = Read(n: nat, feed: Feed) | Write(parts: seq<seq<Byte>>) | Close

  /** What a call gave: the bytes read and the records they took, or the plaintexts of the records written. */
  datatype Reply = Got(bytes: seq<Byte>, records: nat) | Sent(data: seq<seq<Byte>>) | Done

  /** The bytes a reply brought. */
  function BytesRead(r: Reply): seq<Byte> { if r.Got? then r.bytes else [] }

  /** The data that came during a call, in the records its reply read. */
  ghost function Seen(call: Call, r: Reply): seq<Byte> {
    if call.Read? && r.Got? && r.records <= |call.feed| then DataIn(call.feed[..r.records]) else []
  }

  /** What does not change over a session: its rules, its cipher, its transport's answers and its record limit. */
  datatype Terms = Terms(c: Rules, aes: bool, sends: Sends, limit: nat)

  function TermsOf(t: Session, limit: nat): Terms { Terms(RulesOf(t), t.aes, t.sends, limit) }

  /** What a call depends on. */
  datatype State = State(desk: Desk, pen: Pen)

  ghost function StateOf(t: Session): State
    reads t
  {
    State(DeskOf(t), t.PenOf())
  }

  /** What a call on a connected session comes to: whether the session goes on, the reply, and the state behind it. */
  datatype Outcome = Outcome(ok: bool, reply: Reply, next: State)

  ghost function CallOf(e: Terms, s: State, call: Call): Outcome
    requires e.limit > 0
  {
    match call
    case Read(n, feed) =>
      var a := ReadOf(e.c, s.desk, n, feed);
      Outcome(a.ok, Got(a.got, a.k), State(a.desk, s.pen.(owed := a.desk.pace.owed)))
    case Write(parts) =>
      var all := Chunks(Concat(parts), e.limit);
      var w := RecordsSent(e.aes, e.sends, s.pen, |all|);
      Outcome(w.Some?, Sent(all[..SentOf(e.aes, e.sends, s.pen, |all|)]), if w.Some? then Wrote(s, w.value) else s)
    case Close => Outcome(false, Done, s)
  }

  /** Behind a write. */
  function Wrote(s: State, pen: Pen): State {
    State(s.desk.(pace := s.desk.pace.(owed := pen.owed, answers := pen.epochs < SEND_EPOCHS_MAX)), pen)
  }

  ghost function StateAt(e: Terms, s: State, calls: seq<Call>, i: nat): State
    requires e.limit > 0 && i <= |calls|
  {
    if i == 0 then s else CallOf(e, StateAt(e, s, calls, i - 1), calls[i - 1]).next
  }

  /** What call i comes to, when the calls before it left the session connected. */
  ghost function OutcomeAt(e: Terms, s: State, calls: seq<Call>, i: nat): Outcome
    requires e.limit > 0 && i < |calls|
  {
    CallOf(e, StateAt(e, s, calls, i), calls[i])
  }

  /** The reply of a call on a session that is over. */
  ghost predicate Idle(call: Call, r: Reply) {
    match call
    case Read(_, _) => r == Got([], 0)
    case Write(_) => r == Sent([])
    case Close => r == Done
  }

  /** The replies to the first calls: those of a connected session up to number m, which ended it, and idle behind. */
  ghost predicate Replied(e: Terms, s: State, calls: seq<Call>, rs: seq<Reply>, m: nat)
    requires e.limit > 0
  {
    && |rs| <= |calls| && m <= |rs|
    && (forall i {:trigger rs[i]} :: 0 <= i < m ==> Replies(OutcomeAt(e, s, calls, i), true, rs[i]))
    && (m < |rs| ==> Replies(OutcomeAt(e, s, calls, m), false, rs[m]))
    && (forall i {:trigger rs[i]} :: m < i < |rs| ==> Idle(calls[i], rs[i]))
  }

  ghost predicate Replies(o: Outcome, ok: bool, r: Reply) { o.ok == ok && o.reply == r }

  /** Replies of a session that was over before the first call. */
  ghost predicate AllIdle(calls: seq<Call>, rs: seq<Reply>) {
    |rs| <= |calls| && forall i {:trigger rs[i]} :: 0 <= i < |rs| ==> Idle(calls[i], rs[i])
  }

  /** The bytes read in all, the data that came in all, and the records of data there were. */
  ghost function AllRead(rs: seq<Reply>): seq<Byte> {
    if rs == [] then [] else AllRead(rs[..|rs| - 1]) + BytesRead(rs[|rs| - 1])
  }

  ghost function AllSeen(calls: seq<Call>, rs: seq<Reply>): seq<Byte>
    requires |rs| <= |calls|
  {
    if rs == [] then [] else AllSeen(calls, rs[..|rs| - 1]) + Seen(calls[|rs| - 1], rs[|rs| - 1])
  }

  ghost function DataRecordsOf(call: Call): nat { if call.Read? then DataRecords(call.feed) else 0 }

  ghost function DataRecordsIn(calls: seq<Call>): nat {
    if calls == [] then 0 else DataRecordsIn(calls[..|calls| - 1]) + DataRecordsOf(calls[|calls| - 1])
  }

  lemma {:induction false} CallsOn(calls: seq<Call>, k: nat)
    requires k < |calls|
    ensures DataRecordsIn(calls[..k + 1]) == DataRecordsIn(calls[..k]) + DataRecordsOf(calls[k])
  {
    assert calls[..k + 1][..k] == calls[..k] && calls[..k + 1][k] == calls[k];
  }

  lemma {:induction false} RepliesOn(calls: seq<Call>, rs: seq<Reply>, r: Reply)
    requires |rs| < |calls|
    ensures AllRead(rs + [r]) == AllRead(rs) + BytesRead(r)
    ensures AllSeen(calls, rs + [r]) == AllSeen(calls, rs) + Seen(calls[|rs|], r)
  {
    assert (rs + [r])[..|rs|] == rs;
  }

  lemma {:induction false} FewerRead(feed: Feed, k: nat, n: nat)
    requires k <= n <= |feed|
    ensures DataRecords(feed[..k]) <= DataRecords(feed[..n])
    decreases n
  {
    if k < n {
      FewerRead(feed, k, n - 1);
      FeedOn(feed, n - 1);
    }
  }

  /** One call: whether the session goes on, the reply and the state behind it are determined, what it seals comes
      behind what was sealed, and what came is the data of exactly the records it read. */
  method OneCall(t: Session, call: Call, limit: nat) returns (r: Reply)
    requires t.Valid() && limit > 0
    modifies t
    ensures t.Valid() && old(t.sealed) <= t.sealed
    ensures t.taken == old(t.taken) + BytesRead(r) && t.arrived == old(t.arrived) + Seen(call, r)
    ensures t.runStart <= old(t.runStart) + RUN_MAX * DataRecordsOf(call)
    ensures !old(t.connected) ==> !t.connected && Idle(call, r)
    ensures old(t.connected) ==> Replies(CallOf(TermsOf(t, limit), old(StateOf(t)), call), t.connected, r)
    ensures t.connected ==> StateOf(t) == CallOf(TermsOf(t, limit), old(StateOf(t)), call).next
  {
    match call
    case Read(n, feed) =>
      var got, k := Receiving.Read(t, n, feed);
      r := Got(got, k);
      FewerRead(feed, k, |feed|);
      assert feed[..|feed|] == feed;
    case Write(parts) =>
      var rc, data := WriteParts(t, parts, limit);
      r := Sent(data);
    case Close =>
      Receiving.Close(t);
      r := Done;
  }

  /** What a run of calls began with. */
  datatype Begin = Begin(e: Terms, s: State, live: bool, mark: Mark)

  /** The replies so far, and what the session stands at. */
  ghost predicate Lives(t: Session, b: Begin, calls: seq<Call>, rs: seq<Reply>, m: nat)
    requires b.e.limit > 0
    reads t
  {
    && t.Valid() && TermsOf(t, b.e.limit) == b.e && b.mark.sealed <= t.sealed && |rs| <= |calls|
    && Right(b, calls, rs, m, t.connected)
    && (t.connected ==> StateOf(t) == StateAt(b.e, b.s, calls, |rs|))
    && t.arrived == b.mark.arrived + AllSeen(calls, rs) && t.taken == b.mark.taken + AllRead(rs)
    && t.runStart <= b.mark.runStart + RUN_MAX * DataRecordsIn(calls[..|rs|])
  }

  ghost predicate Right(b: Begin, calls: seq<Call>, rs: seq<Reply>, m: nat, now: bool)
    requires b.e.limit > 0
  {
    if b.live then Replied(b.e, b.s, calls, rs, m) && (now <==> m == |rs|) else !now && AllIdle(calls, rs)
  }

  lemma {:induction false} RightOn(b: Begin, calls: seq<Call>, rs: seq<Reply>, r: Reply, m: nat, was: bool, now: bool)
    requires b.e.limit > 0 && |rs| < |calls| && Right(b, calls, rs, m, was)
    requires !was ==> !now && Idle(calls[|rs|], r)
    requires was ==> Replies(OutcomeAt(b.e, b.s, calls, |rs|), now, r)
    ensures Right(b, calls, rs + [r], if now then |rs| + 1 else m, now)
  {}

  /** One call more. */
  method CallMore(t: Session, calls: seq<Call>, rs: seq<Reply>, limit: nat, ghost b: Begin, ghost m: nat)
    returns (more: seq<Reply>, ghost n: nat)
    requires b.e.limit == limit > 0 && |rs| < |calls| && Lives(t, b, calls, rs, m)
    modifies t
    ensures |more| == |rs| + 1 && Lives(t, b, calls, more, n)
  {
    ghost var came, had, was := t.arrived, t.taken, t.connected;
    var call := calls[|rs|];
    var r := OneCall(t, call, limit);
    RightOn(b, calls, rs, r, m, was, t.connected);
    Grows(came, Seen(call, r), b.mark.arrived, AllSeen(calls, rs));
    Grows(had, BytesRead(r), b.mark.taken, AllRead(rs));
    RepliesOn(calls, rs, r);
    CallsOn(calls, |rs|);
    more := rs + [r];
    n := if t.connected then |rs| + 1 else m;
  }

  /** No two records went out under one key and sequence number. */
  ghost predicate AllDiffer(s: seq<Connected.Sealed>) {
    forall i, j :: 0 <= i < j < |s| ==> (s[i].key, s[i].seqNo) != (s[j].key, s[j].seqNo)
  }

  lemma NoneTwice(t: Session)
    requires t.Valid()
    ensures AllDiffer(t.sealed)
  {
    forall i, j | 0 <= i < j < |t.sealed|
      ensures (t.sealed[i].key, t.sealed[i].seqNo) != (t.sealed[j].key, t.sealed[j].seqNo)
    {
      t.NoReuse(i, j);
    }
  }

  /** Over every sequence of calls each reply is determined: by the records and the parts, and by the transport's
      answers to what is sent, up to the call that ends the session, and idle behind it. What came is the data of
      exactly the records that were read, and the bytes read are the front of it. No key seals two records under one
      sequence number. The run of KeyUpdates stays within its limit, and the read key has moved at most RUN_MAX times
      for each record of data and RUN_MAX times more. */
  method Life(t: Session, calls: seq<Call>, limit: nat) returns (rs: seq<Reply>, ghost m: nat)
    requires t.Valid() && limit > 0
    modifies t
    ensures t.Valid() && t.run <= RUN_MAX && old(t.sealed) <= t.sealed && |rs| == |calls|
    ensures old(t.connected) ==> Replied(TermsOf(t, limit), old(StateOf(t)), calls, rs, m)
    ensures old(t.connected) ==> (t.connected <==> m == |calls|)
    ensures !old(t.connected) ==> !t.connected && AllIdle(calls, rs)
    ensures t.arrived == old(t.arrived) + AllSeen(calls, rs) && t.taken == old(t.taken) + AllRead(rs) <= t.arrived
    ensures AllDiffer(t.sealed)
    ensures t.readKey <= old(t.runStart) + RUN_MAX * (DataRecordsIn(calls) + 1)
  {
    ghost var b := Begin(TermsOf(t, limit), StateOf(t), t.connected, MarkOf(t));
    rs, m := [], 0;
    assert calls[..0] == [] && t.arrived + [] == t.arrived && t.taken + [] == t.taken;
    for k := 0 to |calls|
      invariant |rs| == k && Lives(t, b, calls, rs, m)
    {
      rs, m := CallMore(t, calls, rs, limit, b, m);
    }
    assert calls[..|calls|] == calls;
    NoneTwice(t);
  }
}
