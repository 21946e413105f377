/** What the handshake reader makes of the bytes of a stream, however a transport cuts them: which records it takes,
    which it refuses, and when a message is whole. src/io.c:22-94 and src/handshake_record.c:20-148, without the
    buffer. */
module Deliveries {
  import opened Common
  import opened Framing
  import opened Reader

  /** One answer of recv: its count, and the bytes it puts where it was given room. */
  datatype Answer = Answer(count: int, fill: nat -> Byte)

  /** A transport's answer to call i, with p bytes delivered before it, for n bytes of room. */
  type Transport = (nat, nat, nat) -> Answer

  predicate InRange(a: Answer, n: nat) { 1 <= a.count <= n }

  function Bytes(a: Answer): seq<Byte>
    requires a.count >= 0
  {
    seq(a.count, i requires 0 <= i => a.fill(i))
  }

  /** recv: the answer's bytes, in range or not, over all the room it was given. */
  method Recv(a: array<Byte>, at: nat, n: nat, answer: Answer) returns (got: int)
    requires at + n <= a.Length
    modifies a
    ensures got == answer.count && a[..at] == old(a[..at]) && a[at + n..] == old(a[at + n..])
    ensures InRange(answer, n) ==> a[at..at + answer.count] == Bytes(answer)
  {
    Place(a, at, seq(n, i requires 0 <= i => answer.fill(i)));
    got := answer.count;
    if InRange(answer, n) { FillFront(a[..], at, n, answer); }
  }

  lemma FillFront(s: seq<Byte>, at: nat, n: nat, answer: Answer)
    requires at + n <= |s| && InRange(answer, n) && s[at..at + n] == seq(n, i requires 0 <= i => answer.fill(i))
    ensures s[at..at + answer.count] == Bytes(answer)
  {
    forall j | 0 <= j < answer.count
      ensures s[at + j] == answer.fill(j)
    {
      assert s[at..at + n][j] == s[at + j];
    }
  }

  /** What reading n bytes comes to: whether all came, what came, and the calls made. */
  datatype Gathered = Gathered(ok: bool, got: seq<Byte>, calls: nat)

  function Gather(tr: Transport, i: nat, p: nat, n: nat): Gathered
    decreases n
  {
    if n == 0 then Gathered(true, [], i)
    else
      var a := tr(i, p, n);
      if !InRange(a, n) then Gathered(false, [], i + 1)
      else
        var more := Gather(tr, i + 1, p + a.count, n - a.count);
        Gathered(more.ok, Bytes(a) + more.got, more.calls)
  }

  /** As Look: a key to what Continues, Finds and Gives say. */
  ghost predicate Peek(m: int) { true }

  /** all is what came and then more. */
  ghost predicate Continues(all: Gathered, got: seq<Byte>, tr: Transport, i: nat, p: nat, left: int) {
    left >= 0 &&
    forall m: int {:trigger Peek(m)} :: Peek(m) ==>
      var more := Gather(tr, i, p, left); all == Gathered(more.ok, got + more.got, more.calls)
  }

  lemma ContinuesNone(tr: Transport, i: nat, p: nat, n: nat) returns (all: Gathered)
    ensures all == Gather(tr, i, p, n) && Continues(all, [], tr, i, p, n)
  {
    all := Gather(tr, i, p, n);
    assert [] + all.got == all.got;
  }

  /** It ends when nothing is left or an answer is out of range, and else goes on behind the answer's bytes. */
  lemma ContinuesOn(all: Gathered, got: seq<Byte>, tr: Transport, i: nat, p: nat, left: nat)
    requires Continues(all, got, tr, i, p, left)
    ensures left == 0 ==> all == Gathered(true, got, i)
    ensures left > 0 ==>
              var a := tr(i, p, left);
              if InRange(a, left) then Continues(all, got + Bytes(a), tr, i + 1, p + a.count, left - a.count)
              else all == Gathered(false, got, i + 1)
  {
    assert Peek(0) && got + [] == got;
    if left > 0 && InRange(tr(i, p, left), left) {
      var a := tr(i, p, left);
      Regroup(got, Bytes(a), Gather(tr, i + 1, p + a.count, left - a.count).got);
    }
  }

  /** A read fails exactly when an answer it asked for is out of range, and then the last one was. */
  ghost predicate Breaks(tr: Transport, i: nat, p: nat, n: nat)
    decreases n
  {
    n > 0 && var a := tr(i, p, n); !InRange(a, n) || Breaks(tr, i + 1, p + a.count, n - a.count)
  }

  lemma {:induction false} GatherIff(tr: Transport, i: nat, p: nat, n: nat)
    ensures var g := Gather(tr, i, p, n); (g.ok <==> !Breaks(tr, i, p, n)) && (g.ok <==> |g.got| == n) && |g.got| <= n
    decreases n
  {
    if n > 0 {
      var a := tr(i, p, n);
      if InRange(a, n) { GatherIff(tr, i + 1, p + a.count, n - a.count); }
    }
  }

  /** The transport delivers w in order and nothing else, in pieces of any size, and ends with it. */
  ghost predicate Delivers(tr: Transport, w: seq<Byte>) {
    forall i: nat, p: nat, n: nat {:trigger tr(i, p, n)} :: n > 0 && p <= |w| ==>
      if p == |w| then !InRange(tr(i, p, n), n)
      else InRange(tr(i, p, n), n) && p + tr(i, p, n).count <= |w| && Bytes(tr(i, p, n)) == w[p..p + tr(i, p, n).count]
  }

  /** However it cuts them, a read gets the next n bytes, or what is left when there are fewer. */
  lemma {:induction false} GatherDelivered(tr: Transport, w: seq<Byte>, i: nat, p: nat, n: nat)
    requires Delivers(tr, w) && p <= |w|
    ensures var g := Gather(tr, i, p, n); (g.ok <==> n <= |w| - p) && g.got == w[p..p + Least(n, |w| - p)]
    decreases n
  {
    if n > 0 && p < |w| {
      var a := DeliversAt(tr, w, i, p, n);
      var q, m := p + a.count, n - a.count;
      GatherDelivered(tr, w, i + 1, q, m);
      Adjoin(w, p, q, q + Least(m, |w| - q));
    }
  }

  lemma DeliversAt(tr: Transport, w: seq<Byte>, i: nat, p: nat, n: nat) returns (a: Answer)
    requires Delivers(tr, w) && n > 0 && p < |w|
    ensures a == tr(i, p, n) && InRange(a, n) && p + a.count <= |w| && Bytes(a) == w[p..p + a.count]
  {
    a := tr(i, p, n);
  }

  lemma Adjoin(w: seq<Byte>, p: nat, q: nat, e: nat)
    requires p <= q <= e <= |w|
    ensures w[p..q] + w[q..e] == w[p..e]
  {}

  /** What is read of rest, for n bytes asked. */
  ghost predicate Reads(rest: seq<Byte>, n: nat, ok: bool, got: seq<Byte>, rest': seq<Byte>) {
    (ok <==> n <= |rest|) && got == rest[..Least(n, |rest|)] && rest' == rest[|got|..]
  }

  lemma ReadsStream(tr: Transport, w: seq<Byte>, i: nat, p: nat, n: nat, got: seq<Byte>)
    requires Delivers(tr, w) && p <= |w| && got == Gather(tr, i, p, n).got
    ensures p + |got| <= |w| && Reads(w[p..], n, Gather(tr, i, p, n).ok, got, w[p + |got|..])
  {
    GatherDelivered(tr, w, i, p, n);
    assert w[p..][..Least(n, |w| - p)] == w[p..p + Least(n, |w| - p)];
  }

  /** What send answers to call i, for n bytes offered. */
  type Sink = (nat, nat) -> int

  /** Some answer on the way through n bytes, from call i on, is out of range. */
  ghost predicate Stalls(sink: Sink, i: nat, n: nat)
    decreases n
  {
    n > 0 && var k := sink(i, n); !(1 <= k <= n) || Stalls(sink, i + 1, n - k)
  }

  /** io_send_all: every byte goes out once and in order, or an answer is out of range and those before it went out. */
  method SendAll(sink: Sink, p: seq<Byte>) returns (ok: bool, sent: seq<seq<Byte>>)
    ensures ok <==> !Stalls(sink, 0, |p|)
    ensures Concat(sent) <= p && (ok <==> Concat(sent) == p)
  {
    var at := 0;
    sent := [];
    while at < |p|
      invariant at <= |p| && Concat(sent) == p[..at]
      invariant Stalls(sink, 0, |p|) <==> Stalls(sink, |sent|, |p| - at)
    {
      var k := sink(|sent|, |p| - at);
      if k <= 0 || k > |p| - at {
        return false, sent;
      }
      ConcatOne(sent, p[at..at + k]);
      assert p[..at] + p[at..at + k] == p[..at + k];
      sent := sent + [p[at..at + k]];
      at := at + k;
    }
    ok := true;
  }

  /** What does not change while one key reads: the key, if any, and the buffer's length. */
  datatype Setup = Setup(open: Opener, keyed: bool, room: nat)

  /** What it carries from record to record: the sequence number and the two budgets' counters. */
  datatype Gait = Gait(seqNo: nat, ccs: Byte, quiet: Byte)

  function Up(b: Byte): Byte { (b as int + 1) % 256 }

  /** io_read_record with cap bytes of room, on what is left of the stream. */
  function RecordCode(cap: nat, rest: seq<Byte>): Code {
    if cap < HDR then Ecap
    else if |rest| < HDR then Eio
    else if BodyLength(rest) == 0 || BodyLength(rest) > BodyMax(rest[0]) then Eproto
    else if HDR + BodyLength(rest) > cap then Ecap
    else if |rest| < HDR + BodyLength(rest) then Eio
    else Ok
  }

  /** A record read from rest, or none. */
  ghost predicate RecordRead(cap: nat, rest: seq<Byte>, rc: Code, r: seq<Byte>, rest': seq<Byte>) {
    && rc == RecordCode(cap, rest) && |r| <= |rest| && r == rest[..|r|] && rest' == rest[|r|..]
    && (rc.Ok? ==> r == FirstRecord(rest))
  }

  lemma RecordMeans(cap: nat, rest: seq<Byte>, head: seq<Byte>, rest1: seq<Byte>, rc: Code, ok: bool, body: seq<Byte>,
                    rest2: seq<Byte>)
    requires cap >= HDR && Reads(rest, HDR, true, head, rest1)
    requires var n := BodyLength(head);
             if 0 < n <= BodyMax(head[0]) && HDR + n <= cap then
               Reads(rest1, n, ok, body, rest2) && rc == if ok then Ok else Eio
             else body == [] && rest2 == rest1 && rc == if n > BodyMax(head[0]) || n == 0 then Eproto else Ecap
    ensures RecordRead(cap, rest, rc, head + body, rest2)
  {
    assert BodyLength(head) == BodyLength(rest) && head[0] == rest[0];
    assert rest[..HDR] + rest[HDR..][..|body|] == rest[..HDR + |body|] && rest[HDR..][|body|..] == rest[HDR + |body|..];
  }

  /** accept_record, on a record of its own. */
  function AcceptCode(open: Opener, keyed: bool, n: nat, r: seq<Byte>): Code
    requires |r| > 0
  {
    if !keyed then (if r[0] == HANDSHAKE then Ok else Eproto)
    else if r[0] != APPDATA then Eproto
    else if open(n, r).Refused? then Eauth
    else if open(n, r).kind == HANDSHAKE then Ok
    else Eproto
  }

  /** A change_cipher_spec that is tolerated. */
  predicate Tolerated(ccs: Byte, r: seq<Byte>) { |r| == HDR + 1 && r[HDR] == 1 && Up(ccs) <= 4 }

  /** What one record comes to: the reader stops, passes over it, or takes its handshake bytes. */
  datatype Stepped = Stops | Skips(g: Gait) | Takes(g: Gait, content: seq<Byte>)

  ghost function Taken(u: Setup, g: Gait, r: seq<Byte>): Stepped
    requires |r| >= HDR
  {
    var c := Content(u.open, u.keyed, g.seqNo, r);
    var quiet := if c == [] then Up(g.quiet) else g.quiet;
    if r[0] == CCS then (if Tolerated(g.ccs, r) then Skips(g.(ccs := Up(g.ccs))) else Stops)
    else if r[0] == ALERT || AcceptCode(u.open, u.keyed, g.seqNo, r) != Ok || (c == [] && quiet > QUIET_CAP) then Stops
    else Takes(Gait(g.seqNo + if r[0] == APPDATA then 1 else 0, g.ccs, quiet), c)
  }

  function FirstRecord(rest: seq<Byte>): seq<Byte>
    requires |rest| >= HDR && HDR + BodyLength(rest) <= |rest|
  {
    rest[..HDR + BodyLength(rest)]
  }

  /** One record read behind part bytes of a message. */
  ghost function OneOf(u: Setup, g: Gait, part: nat, rest: seq<Byte>): Stepped
    requires part <= u.room
  {
    if RecordCode(u.room - part, rest) != Ok then Stops else Taken(u, g, FirstRecord(rest))
  }

  /** A pass of the loop came out as OneOf says. */
  ghost predicate StepIs(u: Setup, g: Gait, part: nat, rest: seq<Byte>, rc: Code, again: bool, g': Gait, c: seq<Byte>,
                         rest': seq<Byte>) {
    && part <= u.room
    && match OneOf(u, g, part, rest)
       case Stops => !rc.Ok? && !again
       case Skips(h) => rc.Ok? && again && g' == h && Behind(rest, rest')
       case Takes(h, x) => rc.Ok? && !again && g' == h && c == x && Behind(rest, rest')
  }

  /** rest' is rest without its first record. */
  ghost predicate Behind(rest: seq<Byte>, rest': seq<Byte>) {
    |rest| >= HDR && HDR + BodyLength(rest) <= |rest| && rest' == rest[|FirstRecord(rest)|..]
  }

  lemma {:induction false} FetchStep(u: Setup, g: Gait, part: nat, rest: seq<Byte>, rc: Code, again: bool, g': Gait,
                                     c: seq<Byte>, rest': seq<Byte>)
    requires StepIs(u, g, part, rest, rc, again, g', c, rest')
    ensures var f := FetchOf(u, g, part, rest);
            if again then f == FetchOf(u, g', part, rest') else FetchIs(f, rc, g', c, rest')
  {}

  ghost predicate FetchIs(f: Fetched, rc: Code, g: Gait, c: seq<Byte>, rest: seq<Byte>) {
    (rc.Ok? <==> f.Brings?) && (rc.Ok? ==> f == Brings(g, c, rest))
  }

  ghost predicate AwaitIs(a: Awaited, rc: Code, g: Gait, window: seq<Byte>, rest: seq<Byte>) {
    (rc.Ok? <==> a.Found?) && (rc.Ok? ==> a == Found(window, g, rest))
  }

  /** The first message of the window found is yielded, and the rest of it stays. */
  ghost predicate NextIs(a: Awaited, g: Gait, m: seq<Byte>, window: seq<Byte>, rest: seq<Byte>) {
    && a.Found? && a.g == g && a.rest == rest && HasFrame(MessageSize, a.window)
    && m == a.window[..MessageSize(a.window)] && window == a.window[MessageSize(a.window)..]
  }

  lemma NextMeans(a: Awaited, g: Gait, w: seq<Byte>, rest: seq<Byte>, n: nat, m: seq<Byte>, window: seq<Byte>)
    requires AwaitIs(a, Ok, g, w, rest) && n <= |w| && IsFrame(MessageSize, w[..n]) && m == w[..n] && window == w[n..]
    ensures NextIs(a, g, m, window, rest)
  {
    MessagesPrefixed();
    assert w[..n] + w[n..] == w;
  }

  lemma {:induction false} StepFails(u: Setup, g: Gait, part: nat, rest: seq<Byte>, rc: Code, r: seq<Byte>, g': Gait,
                                     c: seq<Byte>, rest': seq<Byte>)
    requires part <= u.room && RecordRead(u.room - part, rest, rc, r, rest') && !rc.Ok?
    ensures StepIs(u, g, part, rest, rc, false, g', c, rest')
  {}

  lemma {:induction false} StepMeans(u: Setup, g: Gait, part: nat, rest: seq<Byte>, rc: Code, again: bool, g': Gait,
                                     c: seq<Byte>, rest': seq<Byte>, r: seq<Byte>)
    requires part <= u.room && (RecordCode(u.room - part, rest) != Ok ==> !rc.Ok? && !again)
    requires RecordCode(u.room - part, rest) == Ok ==> r == FirstRecord(rest) && Behind(rest, rest')
    requires RecordCode(u.room - part, rest) == Ok ==>
               Taken(u, g, r) == if !rc.Ok? then Stops else if again then Skips(g') else Takes(g', c)
    requires again ==> rc.Ok?
    ensures StepIs(u, g, part, rest, rc, again, g', c, rest')
  {}

  /** A call comes to a. */
  ghost predicate Finds(u: Setup, g: Gait, window: seq<Byte>, rest: seq<Byte>, a: Awaited) {
    forall m: int {:trigger Peek(m)} :: Peek(m) ==> AwaitOf(u, g, window, rest) == a
  }

  /** So many calls yield ms. */
  ghost predicate Gives(u: Setup, g: Gait, window: seq<Byte>, rest: seq<Byte>, calls: nat, ms: seq<seq<Byte>>) {
    |ms| <= calls && forall m: int {:trigger Peek(m)} :: Peek(m) ==> Yields(u, g, window, rest, calls) == ms
  }

  lemma FindsWhat(u: Setup, g: Gait, window: seq<Byte>, rest: seq<Byte>) returns (a: Awaited)
    ensures Finds(u, g, window, rest, a)
  {
    a := AwaitOf(u, g, window, rest);
  }

  lemma FindsNow(u: Setup, g: Gait, window: seq<Byte>, rest: seq<Byte>)
    requires HasFrame(MessageSize, window)
    ensures Finds(u, g, window, rest, Found(window, g, rest))
  {}

  /** A window that starts with a message, or with the length of one too large, decides it. */
  lemma FindsAtOnce(u: Setup, g: Gait, window: seq<Byte>, rest: seq<Byte>, a: Awaited)
    requires Finds(u, g, window, rest, a)
    ensures HasFrame(MessageSize, window) ==> a == Found(window, g, rest)
    ensures TooLarge(window) ==> a == Nothing
  {
    assert Peek(0);
  }

  /** What a fetch brings decides it. */
  lemma {:induction false} AwaitStep(u: Setup, g: Gait, window: seq<Byte>, rest: seq<Byte>, rc: Code, g': Gait,
                                     c: seq<Byte>, rest': seq<Byte>, a: Awaited)
    requires |window| <= u.room && !HasFrame(MessageSize, window) && !TooLarge(window)
    requires FetchIs(FetchOf(u, g, |window|, rest), rc, g', c, rest')
    ensures rc.Ok? ==> (Finds(u, g, window, rest, a) <==> Finds(u, g', window + c, rest', a))
    ensures !rc.Ok? ==> (Finds(u, g, window, rest, a) <==> a == Nothing)
  {
    assert Peek(0);
  }

  lemma {:induction false} AwaitSkip(u: Setup, g: Gait, window: seq<Byte>, rest: seq<Byte>, g': Gait, rest': seq<Byte>,
                                     a: Awaited)
    requires |window| <= u.room && !HasFrame(MessageSize, window) && !TooLarge(window)
    requires FetchOf(u, g, |window|, rest) == FetchOf(u, g', |window|, rest') && Finds(u, g', window, rest', a)
    ensures Finds(u, g, window, rest, a)
  {
    assert Peek(0);
  }

  lemma GivesWhat(u: Setup, g: Gait, window: seq<Byte>, rest: seq<Byte>, calls: nat) returns (ms: seq<seq<Byte>>)
    ensures Gives(u, g, window, rest, calls, ms)
  {
    ms := Yields(u, g, window, rest, calls);
  }

  lemma GivesMeans(u: Setup, g: Gait, window: seq<Byte>, rest: seq<Byte>, calls: nat, ms: seq<seq<Byte>>)
    requires Gives(u, g, window, rest, calls, ms)
    ensures Yields(u, g, window, rest, calls) == ms
  {
    assert Peek(0);
  }

  lemma GivesNone(u: Setup, g: Gait, window: seq<Byte>, rest: seq<Byte>)
    ensures Gives(u, g, window, rest, 0, [])
  {}

  /** What a call comes to decides what it and the calls behind it yield. */
  lemma {:induction false} GivesStep(u: Setup, g: Gait, window: seq<Byte>, rest: seq<Byte>, calls: nat, a: Awaited,
                                     ms: seq<seq<Byte>>)
    requires calls > 0 && Finds(u, g, window, rest, a) && (a.Found? ==> HasFrame(MessageSize, a.window))
    requires if a.Found? then Gives(u, a.g, a.window[MessageSize(a.window)..], a.rest, calls - 1, ms) else ms == []
    ensures Gives(u, g, window, rest, calls, if a.Found? then [a.window[..MessageSize(a.window)]] + ms else [])
  {
    assert Peek(0);
  }

  lemma {:induction false} GivesNext(u: Setup, g: Gait, window: seq<Byte>, rest: seq<Byte>, calls: nat, a: Awaited,
                                     ms: seq<seq<Byte>>)
    returns (left: seq<seq<Byte>>)
    requires calls > 0 && Finds(u, g, window, rest, a) && Gives(u, g, window, rest, calls, ms)
    ensures a.Found? ==> HasFrame(MessageSize, a.window) && ms == [a.window[..MessageSize(a.window)]] + left
                         && Gives(u, a.g, a.window[MessageSize(a.window)..], a.rest, calls - 1, left)
    ensures !a.Found? ==> ms == left == []
  {
    left := if ms == [] then [] else ms[1..];
    assert Peek(0);
  }

  /** hsr_fetch_record: the records up to one that brings handshake bytes, or spends for bringing none. */
  datatype Fetched = Fails | Brings(g: Gait, content: seq<Byte>, rest: seq<Byte>)

  ghost function FetchOf(u: Setup, g: Gait, part: nat, rest: seq<Byte>): (f: Fetched)
    requires part <= u.room
    ensures f.Brings? ==> |f.rest| < |rest|
    decreases |rest|
  {
    match OneOf(u, g, part, rest)
    case Stops => Fails
    case Skips(h) => FetchOf(u, h, part, rest[|FirstRecord(rest)|..])
    case Takes(h, c) => Brings(h, c, rest[|FirstRecord(rest)|..])
  }

  predicate TooLarge(window: seq<Byte>) { |window| >= 4 && MessageLength(window) > 0x4000 }

  /** hsr_next_msg: a window that starts with a whole message, or none to come. */
  datatype Awaited = Nothing | Found(window: seq<Byte>, g: Gait, rest: seq<Byte>)

  ghost function AwaitOf(u: Setup, g: Gait, window: seq<Byte>, rest: seq<Byte>): (a: Awaited)
    ensures a.Found? ==> HasFrame(MessageSize, a.window)
    decreases |rest|
  {
    if HasFrame(MessageSize, window) then Found(window, g, rest)
    else if TooLarge(window) || |window| > u.room then Nothing
    else
      match FetchOf(u, g, |window|, rest)
      case Fails => Nothing
      case Brings(h, c, more) => AwaitOf(u, h, window + c, more)
  }

  /** The messages that so many calls yield. */
  ghost function Yields(u: Setup, g: Gait, window: seq<Byte>, rest: seq<Byte>, calls: nat): (ms: seq<seq<Byte>>)
    ensures |ms| <= calls
    decreases calls
  {
    if calls == 0 then []
    else
      match AwaitOf(u, g, window, rest)
      case Nothing => []
      case Found(w, h, more) =>
        var n := MessageSize(w);
        [w[..n]] + Yields(u, h, w[n..], more, calls - 1)
  }
}
