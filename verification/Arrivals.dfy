/** What the handshake reader is for: a stream of records that carry handshake messages, in pieces of any size, is read
    to exactly those messages. */
module Arrivals {
  import opened Common
  import opened Framing
  import opened Reader
  import opened Deliveries

  ghost function Counted(r: seq<Byte>): nat { if r != [] && r[0] == APPDATA then 1 else 0 }

  /** The handshake bytes of records in order, the first of them number n. */
  ghost function Contents(u: Setup, n: nat, rs: seq<seq<Byte>>): seq<Byte>
    decreases |rs|
  {
    if rs == [] then [] else Content(u.open, u.keyed, n, rs[0]) + Contents(u, n + Counted(rs[0]), rs[1..])
  }

  /** A record that a reader with no key, or with this one, accepts. */
  ghost predicate Carries(u: Setup, n: nat, r: seq<Byte>) {
    IsFrame(RecordSize, r) && BodyLength(r) <= BodyMax(r[0]) && AcceptCode(u.open, u.keyed, n, r) == Ok
  }

  /** The change_cipher_spec that middleboxes want: type 20 and one byte of 1. */
  predicate IsCcs(r: seq<Byte>) { |r| == 6 && r[0] == 20 && BodyLength(r) == 1 && r[5] == 1 }

  /** A record the reader goes past: one of the first four of those, or one that carries handshake bytes, or one of the
      first 32 that carry none. */
  ghost predicate Passable(u: Setup, g: Gait, r: seq<Byte>) {
    if IsCcs(r) then g.ccs < 4
    else Carries(u, g.seqNo, r) && (Content(u.open, u.keyed, g.seqNo, r) == [] ==> g.quiet < 32)
  }

  ghost function Past(u: Setup, g: Gait, r: seq<Byte>): (h: Gait)
    requires Passable(u, g, r)
    ensures h.seqNo == g.seqNo + Counted(r)
  {
    if IsCcs(r) then g.(ccs := g.ccs + 1)
    else if Content(u.open, u.keyed, g.seqNo, r) == [] then g.(seqNo := g.seqNo + Counted(r), quiet := g.quiet + 1)
    else g.(seqNo := g.seqNo + Counted(r))
  }

  ghost predicate Clean(u: Setup, g: Gait, rs: seq<seq<Byte>>)
    decreases |rs|
  {
    rs != [] ==> Passable(u, g, rs[0]) && Clean(u, Past(u, g, rs[0]), rs[1..])
  }

  /** Each record fits the buffer behind part of a message of at most size bytes. */
  ghost predicate Roomy(u: Setup, rs: seq<seq<Byte>>, size: nat) {
    forall i {:trigger rs[i]} :: 0 <= i < |rs| ==> |rs[i]| + size <= u.room + 1
  }

  /** No message in b, whole or in part, is over size bytes. */
  ghost predicate Sized(b: seq<Byte>, size: nat)
    decreases |b|
  {
    |b| >= 4 ==>
      && 4 + MessageLength(b) <= size
      && (4 + MessageLength(b) <= |b| ==> Sized(b[4 + MessageLength(b)..], size))
  }

  lemma {:induction false} ReadFirst(u: Setup, part: nat, r: seq<Byte>, more: seq<Byte>)
    requires IsFrame(RecordSize, r) && BodyLength(r) <= BodyMax(r[0]) && part + |r| <= u.room
    ensures RecordCode(u.room - part, r + more) == Ok && FirstRecord(r + more) == r && (r + more)[|r|..] == more
  {
    var rest := r + more;
    assert BodyLength(rest) == BodyLength(r) && rest[0] == r[0];
  }

  /** Such a record is read and taken, whatever follows it. */
  lemma {:induction false} TakesFirst(u: Setup, g: Gait, part: nat, r: seq<Byte>, more: seq<Byte>)
    requires Passable(u, g, r) && !IsCcs(r) && part + |r| <= u.room
    ensures FetchOf(u, g, part, r + more) == Brings(Past(u, g, r), Content(u.open, u.keyed, g.seqNo, r), more)
  {
    ReadFirst(u, part, r, more);
  }

  lemma {:induction false} SkipsFirst(u: Setup, g: Gait, part: nat, r: seq<Byte>, more: seq<Byte>)
    requires Passable(u, g, r) && IsCcs(r) && part + |r| <= u.room
    ensures FetchOf(u, g, part, r + more) == FetchOf(u, Past(u, g, r), part, more)
    ensures Content(u.open, u.keyed, g.seqNo, r) == []
  {
    ReadFirst(u, part, r, more);
    assert OneOf(u, g, part, r + more) == Skips(Past(u, g, r));
  }

  /** And no other is: the fifth change_cipher_spec, the 33rd record without handshake bytes and every record the
      reader does not accept end the wait. */
  lemma {:induction false} RefusesFirst(u: Setup, g: Gait, window: seq<Byte>, r: seq<Byte>, more: seq<Byte>)
    requires IsFrame(RecordSize, r) && !Passable(u, g, r) && g.ccs <= 4 && g.quiet <= 32
    requires !HasFrame(MessageSize, window)
    ensures Finds(u, g, window, r + more, Nothing)
  {
    var rest := r + more;
    assert BodyLength(rest) == BodyLength(r) && rest[0] == r[0];
    if |window| <= u.room {
      assert RecordCode(u.room - |window|, rest) == Ok ==> FirstRecord(rest) == r;
      StopsFirst(u, g, |window|, rest);
    }
  }

  lemma {:induction false} StopsFirst(u: Setup, g: Gait, part: nat, rest: seq<Byte>)
    requires part <= u.room && g.ccs <= 4 && g.quiet <= 32
    requires RecordCode(u.room - part, rest) == Ok ==> !Passable(u, g, FirstRecord(rest))
    ensures FetchOf(u, g, part, rest) == Fails
  {
    if RecordCode(u.room - part, rest) == Ok {
      var r := FirstRecord(rest);
      assert BodyLength(r) == BodyLength(rest) && r[0] == rest[0];
      assert Taken(u, g, r) == Stops;
    }
  }

  /** Part of a message is shorter than any message may be. */
  lemma {:induction false} PartIsShort(window: seq<Byte>, more: seq<Byte>, size: nat)
    requires Sized(window + more, size) && 4 <= size <= 4 + 0x4000 && !HasFrame(MessageSize, window)
    ensures |window| < size && !TooLarge(window)
  {
    if |window| >= 4 { assert MessageLength(window + more) == MessageLength(window); }
  }

  /** The records that remain once the window starts with a message: it and they hold what window and rs held. */
  lemma {:induction false} AwaitClean(u: Setup, g: Gait, window: seq<Byte>, rs: seq<seq<Byte>>, tail: seq<Byte>,
                                      size: nat)
    returns (w: seq<Byte>, h: Gait, rs': seq<seq<Byte>>)
    requires Clean(u, g, rs) && Roomy(u, rs, size) && 4 <= size <= 4 + 0x4000
    requires Sized(window + Contents(u, g.seqNo, rs), size) && HasFrame(MessageSize, window + Contents(u, g.seqNo, rs))
    ensures Finds(u, g, window, Concat(rs) + tail, Found(w, h, Concat(rs') + tail)) && HasFrame(MessageSize, w)
    ensures Clean(u, h, rs') && Roomy(u, rs', size)
    ensures w + Contents(u, h.seqNo, rs') == window + Contents(u, g.seqNo, rs)
    decreases |rs|
  {
    if HasFrame(MessageSize, window) {
      w, h, rs' := window, g, rs;
      FindsNow(u, g, window, Concat(rs) + tail);
    } else {
      assert rs != [] || window + Contents(u, g.seqNo, rs) == window;
      PartIsShort(window, Contents(u, g.seqNo, rs), size);
      var next, more := Turn(u, g, window, rs, size);
      w, h, rs' := AwaitClean(u, next, more, rs[1..], tail, size);
      AwaitTakes(u, g, window, rs, tail, Found(w, h, Concat(rs') + tail));
    }
  }

  /** What the first record of rs makes of a message in part. */
  lemma {:induction false} Turn(u: Setup, g: Gait, window: seq<Byte>, rs: seq<seq<Byte>>, size: nat)
    returns (next: Gait, more: seq<Byte>)
    requires rs != [] && Clean(u, g, rs) && Roomy(u, rs, size)
    ensures Passable(u, g, rs[0]) && |rs[0]| + size <= u.room + 1
    ensures next == Past(u, g, rs[0]) && more == window + Content(u.open, u.keyed, g.seqNo, rs[0])
    ensures Clean(u, next, rs[1..]) && Roomy(u, rs[1..], size)
    ensures more + Contents(u, next.seqNo, rs[1..]) == window + Contents(u, g.seqNo, rs)
  {
    next, more := Past(u, g, rs[0]), window + Content(u.open, u.keyed, g.seqNo, rs[0]);
    ContentsStep(u, g.seqNo, rs, window);
    RoomyRest(u, rs, size);
  }

  lemma {:induction false} ContentsStep(u: Setup, n: nat, rs: seq<seq<Byte>>, window: seq<Byte>)
    requires rs != []
    ensures window + Contents(u, n, rs)
         == (window + Content(u.open, u.keyed, n, rs[0])) + Contents(u, n + Counted(rs[0]), rs[1..])
  {
    Regroup(window, Content(u.open, u.keyed, n, rs[0]), Contents(u, n + Counted(rs[0]), rs[1..]));
  }

  lemma RoomyRest(u: Setup, rs: seq<seq<Byte>>, size: nat)
    requires rs != [] && Roomy(u, rs, size)
    ensures Roomy(u, rs[1..], size)
  {
    forall i {:trigger rs[1..][i]} | 0 <= i < |rs[1..]|
      ensures |rs[1..][i]| + size <= u.room + 1
    {
      assert rs[1..][i] == rs[i + 1];
    }
  }

  lemma {:induction false} AwaitTakes(u: Setup, g: Gait, window: seq<Byte>, rs: seq<seq<Byte>>, tail: seq<Byte>,
                                      a: Awaited)
    requires rs != [] && Passable(u, g, rs[0]) && |window| + |rs[0]| <= u.room
    requires !HasFrame(MessageSize, window) && !TooLarge(window)
    requires Finds(u, Past(u, g, rs[0]), window + Content(u.open, u.keyed, g.seqNo, rs[0]), Concat(rs[1..]) + tail, a)
    ensures Finds(u, g, window, Concat(rs) + tail, a)
  {
    var r, rest := rs[0], Concat(rs[1..]) + tail;
    Regroup(r, Concat(rs[1..]), tail);
    if IsCcs(r) {
      SkipsFirst(u, g, |window|, r, rest);
      assert window + [] == window;
      AwaitSkip(u, g, window, r + rest, Past(u, g, r), rest, a);
    } else {
      TakesFirst(u, g, |window|, r, rest);
      AwaitStep(u, g, window, r + rest, Ok, Past(u, g, r), Content(u.open, u.keyed, g.seqNo, r), rest, a);
    }
  }

  /** Without a message in all they hold there is none to find. */
  lemma {:induction false} AwaitNone(u: Setup, g: Gait, window: seq<Byte>, rs: seq<seq<Byte>>, tail: seq<Byte>,
                                     size: nat)
    requires Clean(u, g, rs) && Roomy(u, rs, size) && 4 <= size <= 4 + 0x4000 && !HasFrame(RecordSize, tail)
    requires Sized(window + Contents(u, g.seqNo, rs), size)
             && !HasFrame(MessageSize, window + Contents(u, g.seqNo, rs))
    ensures Finds(u, g, window, Concat(rs) + tail, Nothing)
    decreases |rs|
  {
    NoFrameYet(window, Contents(u, g.seqNo, rs));
    if rs == [] {
      assert Concat(rs) + tail == tail;
      NoneFound(u, g, window, tail);
    } else {
      PartIsShort(window, Contents(u, g.seqNo, rs), size);
      var next, more := Turn(u, g, window, rs, size);
      AwaitNone(u, next, more, rs[1..], tail, size);
      AwaitTakes(u, g, window, rs, tail, Nothing);
    }
  }

  lemma {:induction false} NoneFound(u: Setup, g: Gait, window: seq<Byte>, tail: seq<Byte>)
    requires !HasFrame(MessageSize, window) && !HasFrame(RecordSize, tail)
    ensures Finds(u, g, window, tail, Nothing)
  {
    if |window| <= u.room { NoRecord(u, g, |window|, tail); }
  }

  lemma {:induction false} NoFrameYet(window: seq<Byte>, more: seq<Byte>)
    requires !HasFrame(MessageSize, window + more)
    ensures !HasFrame(MessageSize, window)
  {
    if |window| >= 4 { assert MessageLength(window + more) == MessageLength(window); }
  }

  lemma {:induction false} NoRecord(u: Setup, g: Gait, part: nat, tail: seq<Byte>)
    requires part <= u.room && !HasFrame(RecordSize, tail)
    ensures FetchOf(u, g, part, tail) == Fails
  {}

  /** Every call yields the next message of the stream, until there are no more. */
  lemma {:induction false} GivesAll(u: Setup, g: Gait, window: seq<Byte>, rs: seq<seq<Byte>>, tail: seq<Byte>,
                                    size: nat,
                                    calls: nat, b: seq<Byte>)
    requires Clean(u, g, rs) && Roomy(u, rs, size) && 4 <= size <= 4 + 0x4000 && !HasFrame(RecordSize, tail)
    requires b == window + Contents(u, g.seqNo, rs) && Sized(b, size)
    ensures Gives(u, g, window, Concat(rs) + tail, calls, FirstFrames(b, calls))
    decreases calls
  {
    if calls == 0 {
      GivesNone(u, g, window, Concat(rs) + tail);
    } else if HasFrame(MessageSize, b) {
      var w, h, rs' := AwaitClean(u, g, window, rs, tail, size);
      var n, more := MessageSize(w), Contents(u, h.seqNo, rs');
      FirstOf(w, more, b, calls);
      GivesAll(u, h, w[n..], rs', tail, size, calls - 1, b[n..]);
      GivesStep(u, g, window, Concat(rs) + tail, calls, Found(w, h, Concat(rs') + tail),
                FirstFrames(b[n..], calls - 1));
    } else {
      AwaitNone(u, g, window, rs, tail, size);
      GivesStep(u, g, window, Concat(rs) + tail, calls, Nothing, []);
    }
  }

  /** The first messages of b, so many or all of them. */
  ghost function FirstFrames(b: seq<Byte>, calls: nat): seq<seq<Byte>> {
    var ms := Frames(MessageSize, b);
    ms[..Least(calls, |ms|)]
  }

  lemma {:induction false} YieldsAll(u: Setup, g: Gait, window: seq<Byte>, rs: seq<seq<Byte>>, tail: seq<Byte>,
                                     size: nat,
                                     calls: nat)
    requires Clean(u, g, rs) && Roomy(u, rs, size) && 4 <= size <= 4 + 0x4000 && !HasFrame(RecordSize, tail)
    requires Sized(window + Contents(u, g.seqNo, rs), size)
    ensures Yields(u, g, window, Concat(rs) + tail, calls) == FirstFrames(window + Contents(u, g.seqNo, rs), calls)
  {
    GivesAll(u, g, window, rs, tail, size, calls, window + Contents(u, g.seqNo, rs));
    assert Peek(0);
  }

  lemma FirstOf(w: seq<Byte>, more: seq<Byte>, b: seq<Byte>, calls: nat)
    requires b == w + more && HasFrame(MessageSize, w) && calls > 0
    ensures var n := MessageSize(w);
            && MessageSize(b) == n && b[n..] == w[n..] + more
            && FirstFrames(b, calls) == [w[..n]] + FirstFrames(b[n..], calls - 1)
  {
    MessagesPrefixed();
    var n := MessageSize(w);
    assert b[..n] == w[..n];
    FrontOf(w[..n], Frames(MessageSize, b[n..]), calls);
  }

  lemma FrontOf(m: seq<Byte>, ms: seq<seq<Byte>>, calls: nat)
    requires calls > 0
    ensures [m] + ms[..Least(calls - 1, |ms|)] == ([m] + ms)[..Least(calls, |[m] + ms|)]
  {}
}
