/** What a connected session reads after the handshake: src/handshake_post.c:253-367, as a function
    of the bytes and the run of KeyUpdates before them. */
module PostHandshake {
  import opened Framing
  import opened Reader

  const NEW_SESSION_TICKET: Byte := 4
  const KEY_UPDATE: Byte := 24
  const ILLEGAL_PARAMETER: Byte := 47
  /** CH_KEY_UPDATE_RUN_MAX. */
  const RUN_MAX: nat := 16

  /** What the messages of one input come to: so many bytes used, a KeyUpdate taken, a KeyUpdate
      refused at a full run, or a refusal with its alert. */
  datatype Outcome = Used(n: nat) | Rekeyed(request: Byte) | Full | Bad(alert: Byte)

  /** How a session checks a ticket's body. */
  type TicketCheck = seq<Byte> -> bool

  /** One whole KeyUpdate and nothing else: the message the run limit may refuse. */
  predicate IsKeyUpdate(m: seq<Byte>) {
    |m| == 5 && m[0] == KEY_UPDATE && MessageLength(m) == 1 && m[4] <= 1
  }

  /** One whole message of the input, with what follows it. */
  function One(ticket: TicketCheck, server: bool, run: nat, kind: Byte, body: seq<Byte>, last: bool): Outcome {
    if kind == NEW_SESSION_TICKET then
      if server then Bad(UNEXPECTED_MESSAGE) else if ticket(body) then Used(4 + |body|) else Bad(DECODE_ERROR)
    else if kind == KEY_UPDATE then
      if |body| != 1 then Bad(DECODE_ERROR)
      else if body[0] > 1 then Bad(ILLEGAL_PARAMETER)
      else if !last then Bad(UNEXPECTED_MESSAGE)
      else if run >= RUN_MAX then Full
      else Rekeyed(body[0])
    else Bad(UNEXPECTED_MESSAGE)
  }

  /** handle_post_handshake, as a function. */
  function Scan(ticket: TicketCheck, server: bool, bufLen: nat, run: nat, pt: seq<Byte>): Outcome
    decreases |pt|
  {
    if |pt| < 4 then Used(0)
    else
      var n := 4 + MessageLength(pt);
      if n > 4 + 0x4000 || n > bufLen then Bad(UNEXPECTED_MESSAGE)
      else if n > |pt| then Used(0)
      else
        match One(ticket, server, run, pt[0], pt[4..n], n == |pt|)
        case Used(_) => After(n, Scan(ticket, server, bufLen, run, pt[n..]))
        case o => o
  }

  /** Bytes used first, then the rest. */
  function After(n: nat, o: Outcome): Outcome { if o.Used? then Used(n + o.n) else o }

  /** The limit speaks only to a KeyUpdate in the last five bytes of an input that breaks no other rule, and then
      it alone decides. */
  lemma {:induction false} KeyUpdateIsLast(ticket: TicketCheck, server: bool, bufLen: nat, run: nat, pt: seq<Byte>)
    ensures LimitRule(run, pt, Scan(ticket, server, bufLen, run, pt))
    decreases |pt|
  {
    if |pt| >= 4 {
      var n := 4 + MessageLength(pt);
      if n <= 4 + 0x4000 && n <= bufLen && n <= |pt| {
        var o := One(ticket, server, run, pt[0], pt[4..n], n == |pt|);
        if o.Used? {
          KeyUpdateIsLast(ticket, server, bufLen, run, pt[n..]);
          LimitRuleBehind(run, pt, n, Scan(ticket, server, bufLen, run, pt[n..]));
        } else if o.Rekeyed? || o.Full? {
          WholeKeyUpdate(pt);
        }
      }
    }
  }

  /** What an outcome of an input tells. */
  ghost predicate LimitRule(run: nat, pt: seq<Byte>, o: Outcome) {
    && (o.Rekeyed? || o.Full? ==> |pt| >= 5 && IsKeyUpdate(pt[|pt| - 5..]))
    && (o.Rekeyed? ==> run < RUN_MAX && o.request == pt[|pt| - 1])
    && (o.Full? ==> run >= RUN_MAX)
    && (o.Used? ==> o.n <= |pt|)
  }

  lemma {:induction false} LimitRuleBehind(run: nat, pt: seq<Byte>, n: nat, o: Outcome)
    requires n <= |pt| && LimitRule(run, pt[n..], o)
    ensures LimitRule(run, pt, After(n, o))
  {
    if |pt[n..]| >= 5 { LastFive(pt, n, pt[n..]); }
  }

  lemma {:induction false} WholeKeyUpdate(pt: seq<Byte>)
    requires |pt| >= 4 && pt[0] == KEY_UPDATE && MessageLength(pt) == 1 && |pt| == 5 && pt[4] <= 1
    ensures IsKeyUpdate(pt[|pt| - 5..])
  {}

  lemma {:induction false} LastFive(pt: seq<Byte>, n: nat, rest: seq<Byte>)
    requires n <= |pt| && rest == pt[n..] && |rest| >= 5
    ensures rest[|rest| - 5..] == pt[|pt| - 5..] && rest[|rest| - 1] == pt[|pt| - 1]
  {}

  /** The run changes nothing but that: at any other run the outcome is the same, with a KeyUpdate
      taken below the limit and refused at it. */
  lemma {:induction false} RunDecidesOnlyTheLimit(ticket: TicketCheck, server: bool, bufLen: nat, r: nat, s: nat,
                                                  pt: seq<Byte>)
    requires r < RUN_MAX <= s
    ensures var a, b := Scan(ticket, server, bufLen, r, pt), Scan(ticket, server, bufLen, s, pt);
            if a.Rekeyed? then b.Full? else a == b && !a.Full?
    decreases |pt|
  {
    if |pt| >= 4 {
      var n := 4 + MessageLength(pt);
      if n <= 4 + 0x4000 && n <= bufLen && n <= |pt| {
        RunDecidesOnlyTheLimit(ticket, server, bufLen, r, s, pt[n..]);
      }
    }
  }

  /** Messages cut across records come out as they would in one piece: what is used can go before the
      rest arrives. */
  lemma {:induction false} ScanResumes(ticket: TicketCheck, server: bool, bufLen: nat, run: nat, pt: seq<Byte>,
                                       more: seq<Byte>, n: nat)
    requires Scan(ticket, server, bufLen, run, pt) == Used(n)
    ensures n <= |pt|
    ensures Scan(ticket, server, bufLen, run, pt + more)
         == After(n, Scan(ticket, server, bufLen, run, pt[n..] + more))
    decreases |pt|
  {
    KeyUpdateIsLast(ticket, server, bufLen, run, pt);
    if n == 0 {
      assert pt[0..] == pt;
    } else {
      var k := 4 + MessageLength(pt);
      FirstUsed(ticket, server, bufLen, run, pt, n, k);
      ScanResumes(ticket, server, bufLen, run, pt[k..], more, n - k);
      assert pt[k..][n - k..] == pt[n..];
      FirstAgain(ticket, server, bufLen, run, pt, more, k);
    }
  }

  /** Bytes used start with a whole ticket. */
  lemma {:induction false} FirstUsed(ticket: TicketCheck, server: bool, bufLen: nat, run: nat, pt: seq<Byte>, n: nat,
                                     k: nat)
    requires Scan(ticket, server, bufLen, run, pt) == Used(n) && n > 0 && |pt| >= 4 && k == 4 + MessageLength(pt)
    ensures k <= |pt| && k <= 4 + 0x4000 && k <= bufLen && pt[0] == NEW_SESSION_TICKET && !server && ticket(pt[4..k])
    ensures k <= n && Scan(ticket, server, bufLen, run, pt[k..]) == Used(n - k)
  {}

  lemma {:induction false} FirstAgain(ticket: TicketCheck, server: bool, bufLen: nat, run: nat, pt: seq<Byte>,
                                      more: seq<Byte>, k: nat)
    requires |pt| >= 4 && k == 4 + MessageLength(pt)
    requires k <= |pt| && k <= 4 + 0x4000 && k <= bufLen && pt[0] == NEW_SESSION_TICKET && !server && ticket(pt[4..k])
    ensures Scan(ticket, server, bufLen, run, pt + more) == After(k, Scan(ticket, server, bufLen, run, pt[k..] + more))
  {
    var all := pt + more;
    assert all[4..k] == pt[4..k] && all[k..] == pt[k..] + more;
    assert MessageLength(all) == MessageLength(pt);
  }

  /** A whole ticket that a client's session takes. */
  predicate IsTicket(ticket: TicketCheck, bufLen: nat, m: seq<Byte>) {
    && 4 <= |m| <= 4 + 0x4000 && |m| <= bufLen && |m| == 4 + MessageLength(m)
    && m[0] == NEW_SESSION_TICKET && ticket(m[4..])
  }

  ghost predicate Tickets(ticket: TicketCheck, server: bool, bufLen: nat, ts: seq<seq<Byte>>) {
    forall i {:trigger ts[i]} :: 0 <= i < |ts| ==> !server && IsTicket(ticket, bufLen, ts[i])
  }

  /** The start of a message that may still arrive whole. */
  predicate Unfinished(bufLen: nat, tail: seq<Byte>) {
    |tail| >= 4 ==> |tail| < 4 + MessageLength(tail) <= 4 + 0x4000 && 4 + MessageLength(tail) <= bufLen
  }

  lemma {:induction false} TicketFirst(ticket: TicketCheck, server: bool, bufLen: nat, run: nat, t: seq<Byte>,
                                       rest: seq<Byte>)
    requires !server && IsTicket(ticket, bufLen, t)
    ensures Scan(ticket, server, bufLen, run, t + rest) == After(|t|, Scan(ticket, server, bufLen, run, rest))
  {
    assert t[4..|t|] == t[4..] && t[|t|..] + rest == rest;
    FirstAgain(ticket, server, bufLen, run, t, rest, |t|);
  }

  lemma {:induction false} TicketsFirst(ticket: TicketCheck, server: bool, bufLen: nat, run: nat, ts: seq<seq<Byte>>,
                                        tail: seq<Byte>)
    requires Tickets(ticket, server, bufLen, ts)
    ensures Scan(ticket, server, bufLen, run, Concat(ts) + tail)
         == After(|Concat(ts)|, Scan(ticket, server, bufLen, run, tail))
    decreases |ts|
  {
    if ts == [] {
      assert Concat(ts) + tail == tail;
    } else {
      var t, rest := ts[0], Concat(ts[1..]) + tail;
      Regroup(t, Concat(ts[1..]), tail);
      TicketFirst(ticket, server, bufLen, run, t, rest);
      TicketsFirst(ticket, server, bufLen, run, ts[1..], tail);
    }
  }

  /** Valid tickets are all used, with what is unfinished behind them left; a KeyUpdate behind them is taken below the
      limit and refused at it. */
  lemma {:induction false} ScanOfTickets(ticket: TicketCheck, server: bool, bufLen: nat, run: nat, ts: seq<seq<Byte>>,
                                         tail: seq<Byte>)
    requires Tickets(ticket, server, bufLen, ts)
    ensures var o := Scan(ticket, server, bufLen, run, Concat(ts) + tail);
            && (Unfinished(bufLen, tail) ==> o == Used(|Concat(ts)|))
            && (IsKeyUpdate(tail) && bufLen >= 5 ==> o == if run < RUN_MAX then Rekeyed(tail[4]) else Full)
  {
    TicketsFirst(ticket, server, bufLen, run, ts, tail);
  }

  /** What an outcome tells of what stands behind the tickets. */
  ghost predicate OnlyBehind(o: Outcome, bufLen: nat, used: nat, tail: seq<Byte>) {
    && (o.Used? <==> Unfinished(bufLen, tail)) && (o.Used? ==> o.n == used)
    && (o.Rekeyed? || o.Full? <==> IsKeyUpdate(tail) && bufLen >= 5)
  }

  /** And no other input comes to those. */
  lemma {:induction false} ScanOnlyTickets(ticket: TicketCheck, server: bool, bufLen: nat, run: nat, pt: seq<Byte>)
    returns (ts: seq<seq<Byte>>, tail: seq<Byte>)
    ensures Tickets(ticket, server, bufLen, ts) && pt == Concat(ts) + tail
    ensures OnlyBehind(Scan(ticket, server, bufLen, run, pt), bufLen, |Concat(ts)|, tail)
    decreases |pt|
  {
    var n := if |pt| < 4 then 0 else 4 + MessageLength(pt);
    if 4 <= n <= |pt| && IsTicket(ticket, bufLen, pt[..n]) && !server {
      assert pt[..n][4..] == pt[4..n];
      var more;
      more, tail := ScanOnlyTickets(ticket, server, bufLen, run, pt[n..]);
      ts := [pt[..n]] + more;
      TicketBefore(ticket, server, bufLen, pt, n, more, tail);
      ScanBehind(ticket, server, bufLen, run, pt, n);
    } else {
      ts, tail := [], pt;
      ScanHere(ticket, server, bufLen, run, pt, n);
    }
  }

  lemma {:induction false} ScanBehind(ticket: TicketCheck, server: bool, bufLen: nat, run: nat, pt: seq<Byte>, n: nat)
    requires 4 <= n <= |pt| && n == 4 + MessageLength(pt) && n <= 4 + 0x4000 && n <= bufLen
    requires !server && pt[0] == NEW_SESSION_TICKET && ticket(pt[4..n])
    ensures Scan(ticket, server, bufLen, run, pt) == After(n, Scan(ticket, server, bufLen, run, pt[n..]))
  {}

  lemma {:induction false} ScanHere(ticket: TicketCheck, server: bool, bufLen: nat, run: nat, pt: seq<Byte>, n: nat)
    requires n == if |pt| < 4 then 0 else 4 + MessageLength(pt)
    requires 4 <= n <= |pt| && !server ==> !IsTicket(ticket, bufLen, pt[..n])
    ensures OnlyBehind(Scan(ticket, server, bufLen, run, pt), bufLen, 0, pt)
  {
    if 4 <= n <= |pt| { assert pt[..n][4..] == pt[4..n]; }
  }

  lemma {:induction false} TicketBefore(ticket: TicketCheck, server: bool, bufLen: nat, pt: seq<Byte>, n: nat,
                                        more: seq<seq<Byte>>, tail: seq<Byte>)
    requires 4 <= n <= |pt| && n == 4 + MessageLength(pt) && n <= 4 + 0x4000 && n <= bufLen
    requires !server && pt[0] == NEW_SESSION_TICKET && ticket(pt[4..n])
    requires Tickets(ticket, server, bufLen, more) && pt[n..] == Concat(more) + tail
    ensures Tickets(ticket, server, bufLen, [pt[..n]] + more) && pt == Concat([pt[..n]] + more) + tail
    ensures |Concat([pt[..n]] + more)| == n + |Concat(more)|
  {
    var t, ts := pt[..n], [pt[..n]] + more;
    assert t[4..] == pt[4..n] && IsTicket(ticket, bufLen, t);
    assert ts[1..] == more && pt == t + pt[n..];
    Regroup(t, Concat(more), tail);
  }
}
