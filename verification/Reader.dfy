/** The handshake record reader of src/io.c and src/handshake_record.c over a hostile transport: a
    compacting window in one buffer, records cut anywhere by short reads, and messages cut anywhere
    by records. What it yields is a function of the bytes that arrived. */
module Reader {
  import opened Framing

  const HDR: nat := 5
  const TAG: nat := 16
  const CCS: Byte := 20
  const ALERT: Byte := 21
  const HANDSHAKE: Byte := 22
  const APPDATA: Byte := 23
  const QUIET_CAP: nat := 32
  /** REC_AES_GCM_RECORDS_MAX. */
  const AES_RECORDS_MAX: nat := 0x100_0000

  const UNEXPECTED_MESSAGE: Byte := 10
  const BAD_RECORD_MAC: Byte := 20
  const RECORD_OVERFLOW: Byte := 22
  const DECODE_ERROR: Byte := 50
  const INTERNAL_ERROR: Byte := 80

  datatype Code = Ok | Eio | Eproto | Ecap | Eauth

  /** What rec_open makes of a record: its inner type and content, or a refusal. */
  datatype Opened = Refused | Opened(kind: Byte, content: seq<Byte>)

  function BodyMax(outer: Byte): nat { if outer == APPDATA then 0x4001 + TAG else 0x4000 }

  function BodyLength(p: seq<Byte>): nat
    requires |p| >= HDR
  {
    256 * (p[3] as int) + p[4]
  }

  /** A record's length: the header and its body. An empty body is never a record. */
  function RecordSize(p: seq<Byte>): int {
    if |p| < HDR || BodyLength(p) == 0 then -1 else HDR + BodyLength(p)
  }

  function MessageLength(p: seq<Byte>): nat
    requires |p| >= 4
  {
    0x10000 * (p[1] as int) + 0x100 * (p[2] as int) + p[3]
  }

  /** A message's length: the header and its 24-bit length. One past 2^14 is never a message. */
  function MessageSize(p: seq<Byte>): int {
    if |p| < 4 || MessageLength(p) > 0x4000 then -1 else 4 + MessageLength(p)
  }

  lemma RecordsPrefixed()
    ensures Prefixed(RecordSize)
  {}

  lemma MessagesPrefixed()
    ensures Prefixed(MessageSize)
  {}

  /** One direction's read key: opening a record depends on the key, the record and the count of
      records opened before it. */
  type Opener = (nat, seq<Byte>) -> Opened

  /** rec_open leaves room for the inner type and the tag. */
  ghost predicate Shrinks(open: Opener) {
    forall n: nat, r: seq<Byte> {:trigger open(n, r)} ::
      open(n, r).Opened? ==> |open(n, r).content| + HDR + 1 + TAG <= |r|
  }

  /** A protected record, and how many came before. */
  ghost function Protected(rs: seq<seq<Byte>>): nat {
    if rs == [] then 0
    else Protected(rs[..|rs| - 1]) + if rs[|rs| - 1] != [] && rs[|rs| - 1][0] == APPDATA then 1 else 0
  }

  /** The handshake bytes of one record. */
  ghost function Content(open: Opener, keyed: bool, n: nat, r: seq<Byte>): seq<Byte> {
    if |r| < HDR then []
    else if !keyed then (if r[0] == HANDSHAKE then r[HDR..] else [])
    else if r[0] == APPDATA && open(n, r).Opened? && open(n, r).kind == HANDSHAKE then open(n, r).content
    else []
  }

  /** The handshake bytes of a sequence of records. */
  ghost function Payload(open: Opener, keyed: bool, rs: seq<seq<Byte>>): seq<Byte> {
    if rs == [] then []
    else
      var before := rs[..|rs| - 1];
      Payload(open, keyed, before) + Content(open, keyed, Protected(before), rs[|rs| - 1])
  }

  /** The messages in the bytes of a wire. */
  ghost function Messages(open: Opener, keyed: bool, wire: seq<Byte>): seq<seq<Byte>> {
    Frames(MessageSize, Payload(open, keyed, Frames(RecordSize, wire)))
  }

  lemma {:induction false} PayloadNext(open: Opener, keyed: bool, rs: seq<seq<Byte>>, r: seq<Byte>)
    ensures Payload(open, keyed, rs + [r]) == Payload(open, keyed, rs) + Content(open, keyed, Protected(rs), r)
    ensures Protected(rs + [r]) == Protected(rs) + if r != [] && r[0] == APPDATA then 1 else 0
  {
    var all := rs + [r];
    assert all[..|all| - 1] == rs && all[|all| - 1] == r;
  }

  /** One record more on the wire. */
  lemma {:induction false} RecordArrives(open: Opener, keyed: bool, wire: seq<Byte>, r: seq<Byte>)
    requires Left(RecordSize, wire) == [] && IsFrame(RecordSize, r)
    ensures Left(RecordSize, wire + r) == []
    ensures var rs := Frames(RecordSize, wire);
            && Payload(open, keyed, Frames(RecordSize, wire + r)) == Payload(open, keyed, rs)
               + Content(open, keyed, Protected(rs), r)
            && Protected(Frames(RecordSize, wire + r)) == Protected(rs) + if r[0] == APPDATA then 1 else 0
  {
    RecordsPrefixed();
    FrameBehind(RecordSize, wire, r);
    PayloadNext(open, keyed, Frames(RecordSize, wire), r);
  }

  /** Part of a record more on the wire. */
  lemma {:induction false} PartArrives(open: Opener, keyed: bool, wire: seq<Byte>, tail: seq<Byte>)
    requires Left(RecordSize, wire) == [] && !HasFrame(RecordSize, tail)
    ensures Payload(open, keyed, Frames(RecordSize, wire + tail)) == Payload(open, keyed, Frames(RecordSize, wire))
  {
    RecordsPrefixed();
    PartBehind(RecordSize, wire, tail);
  }

  /** memmove down within one buffer. */
  method MoveDown(a: array<Byte>, to: nat, from: nat, n: nat)
    requires to <= from && from + n <= a.Length
    modifies a
    ensures a[to..to + n] == old(a[from..from + n])
    ensures a[..to] == old(a[..to])
  {
    for i := 0 to n
      invariant forall j {:trigger a[j]} :: to <= j < to + i ==> a[j] == old(a[j + (from - to)])
      invariant forall j {:trigger a[j]} :: from + i <= j < a.Length ==> a[j] == old(a[j])
      invariant a[..to] == old(a[..to])
    {
      a[to + i] := a[from + i];
    }
  }

  /** Bytes placed in a buffer. */
  method Place(a: array<Byte>, at: nat, data: seq<Byte>)
    requires at + |data| <= a.Length
    modifies a
    ensures a[at..at + |data|] == data && a[..at] == old(a[..at]) && a[at + |data|..] == old(a[at + |data|..])
  {
    for i := 0 to |data|
      invariant forall j {:trigger a[j]} :: at <= j < at + i ==> a[j] == data[j - at]
      invariant forall j {:trigger a[j]} :: 0 <= j < at || at + i <= j < a.Length ==> a[j] == old(a[j])
    {
      a[at + i] := data[i];
    }
  }
}
