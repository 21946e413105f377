/** The masked compaction of src/mldsa_sign_pack.c, mlds_eta_from_stream: for every stream, passes
    of conditional moves by 1, 2, 4 and so on leave exactly the kept half-bytes, in order, at the
    front. It is RejBoundedPoly of FIPS 204 Algorithm 31 without a branch on the stream. */
module Eta {
  import opened Arith
  import opened Bits
  import opened Words
  import opened WideMul

  const KEPT: nat := 8

  /** An entry: the value plus eta in bits 0 to 2, the kept bit, and the move above. */
  function Pack(value: nat, move: nat): nat { value + KEPT + 16 * move }

  /** (int32_t)(z - 15) >> 31. */
  function KeepMask(z: nat): (keep: Word)
    requires z < 16
    ensures keep == if z < 15 then ONES32 else 0
  {
    assert S32(U32(z - 15)) == z - 15;
    U32(S32(U32(z - 15)) / 0x8000_0000)
  }

  /** The value plus eta: z mod 5 by a multiply and a shift. */
  function HalfByteValue(z: nat): (value: nat)
    requires z < 16
    ensures value == 4 - z % 5
  {
    U32(2 - (z - 5 * (z * 205 / 1024)) + 2)
  }

  /** eta_entry: z's entry, and the count of rejected half-bytes after it. */
  method EtaEntry(z: nat, rejected: Word) returns (entry: nat, after: Word)
    requires z < 16 && rejected < 4096
    ensures z < 15 ==> entry == Pack(4 - z % 5, rejected) < 0x1_0000 && after == rejected
    ensures z == 15 ==> entry == 0 && after == rejected + 1
  {
    var keep := KeepMask(z);
    var value := HalfByteValue(z);
    PackBits(value, rejected);
    entry := And(Or(Or(value, KEPT), 16 * rejected), keep);
    after := AddMask(rejected, keep);
  }

  /** rejected + keep + 1: one more unless the mask is all ones. */
  function AddMask(rejected: Word, keep: Word): (after: Word)
    requires rejected < 4096 && (keep == 0 || keep == ONES32)
    ensures after == if keep == 0 then rejected + 1 else rejected
  {
    U32(rejected as int + keep + 1)
  }

  lemma PackBits(value: nat, move: nat)
    requires value < 8 && move < 4096
    ensures And(Or(Or(value, KEPT), 16 * move), ONES32) == Pack(value, move)
  {
    assert Or(value, KEPT) == value + KEPT by {
      assert Shl(1, 3) == 8 && Pow(2, 3) == 8;
      OrDisjoint(value, 1, 3);
    }
    assert Or(value + KEPT, 16 * move) == Pack(value, move) by {
      assert Pow(2, 4) == 16;
      ShlIsMul(move, 4);
      OrDisjoint(value + KEPT, move, 4);
    }
    Pow32();
    AndKeep(Pack(value, move), 32);
  }

  /** A kept entry whose move has the bit, and one whose move does not. */
  predicate Moves(entry: nat, bit: nat) { Bit(entry, 3) == 1 && Bit(entry, 4 + bit) == 1 }
  predicate Stays(entry: nat, bit: nat) { Bit(entry, 3) == 1 && Bit(entry, 4 + bit) == 0 }

  /** What a position holds after a pass: the OR of the entry that moves in and the one that stays. */
  function Chosen(here: nat, above: nat, bit: nat): nat {
    Or(if Moves(above, bit) then above else 0, if Stays(here, bit) then here else 0)
  }

  lemma {:induction false} AndParity(x: nat, y: nat)
    ensures And(x, 1) == x % 2 && And(x, y) % 2 == (if x % 2 == 1 && y % 2 == 1 then 1 else 0)
    ensures Xor(x, 1) % 2 == 1 - x % 2
  {
    assert And(x / 2, 0) == 0;
  }

  /** eta_choose: masks in place of the two choices. */
  method EtaChoose(here: nat, above: nat, bit: nat) returns (entry: nat)
    requires here < 0x1_0000 && above < 0x1_0000
    ensures entry == Chosen(here, above, bit) < 0x1_0000
  {
    var at := 4 + bit;
    var moves := U32(0 - (And(And(Shr(above, at), Shr(above, 3)), 1) as int));
    var stays := U32(0 - (And(And(Xor(Shr(here, at), 1), Shr(here, 3)), 1) as int));
    AndParity(Shr(above, at), Shr(above, 3));
    AndParity(And(Shr(above, at), Shr(above, 3)), 1);
    AndParity(Shr(here, at), 1);
    AndParity(Xor(Shr(here, at), 1), Shr(here, 3));
    AndParity(And(Xor(Shr(here, at), 1), Shr(here, 3)), 1);
    assert moves == if Moves(above, bit) then ONES32 else 0;
    assert stays == if Stays(here, bit) then ONES32 else 0;
    Pow32();
    AndKeep(above, 32);
    AndKeep(here, 32);
    entry := Or(And(above, moves), And(here, stays));
    assert Pow(2, 16) == 0x1_0000 by { PowAdd(2, 8, 8); }
    OrBound(And(above, moves), And(here, stays), 16);
  }

  /** The entry 2^bit above position p, and an empty one past the end. */
  ghost function Above(s: seq<nat>, p: nat, bit: nat): nat {
    PowPositive(2, bit);
    if p + Pow(2, bit) < |s| then s[p + Pow(2, bit)] else 0
  }

  /** t is s after the pass for one bit. */
  ghost predicate IsPass(s: seq<nat>, t: seq<nat>, bit: nat) {
    |t| == |s| && forall p {:trigger t[p]} :: 0 <= p < |s| ==> t[p] == Chosen(s[p], Above(s, p, bit), bit)
  }

  /** eta_pass, in place: the walk goes up, so a read above sees the entry before the pass. */
  method EtaPass(entries: array<nat>, bit: nat)
    requires forall p :: 0 <= p < entries.Length ==> entries[p] < 0x1_0000
    modifies entries
    ensures IsPass(old(entries[..]), entries[..], bit)
    ensures forall p :: 0 <= p < entries.Length ==> entries[p] < 0x1_0000
  {
    PowPositive(2, bit);
    var step := Pow(2, bit);
    ghost var s := entries[..];
    var p := 0;
    while p + step < entries.Length
      invariant 0 <= p <= entries.Length
      invariant forall q :: 0 <= q < p ==> entries[q] == Chosen(s[q], Above(s, q, bit), bit) < 0x1_0000
      invariant forall q :: p <= q < entries.Length ==> entries[q] == s[q]
    {
      entries[p] := EtaChoose(entries[p], entries[p + step], bit);
      p := p + 1;
    }
    while p < entries.Length
      invariant 0 <= p <= entries.Length && (p < entries.Length ==> p + step >= entries.Length)
      invariant forall q :: 0 <= q < p ==> entries[q] == Chosen(s[q], Above(s, q, bit), bit) < 0x1_0000
      invariant forall q :: p <= q < entries.Length ==> entries[q] == s[q]
    {
      entries[p] := EtaChoose(entries[p], 0, bit);
      p := p + 1;
    }
  }

  /** How many of the first i half-bytes are rejected. */
  ghost function Rejected(z: seq<nat>, i: nat): nat
    requires i <= |z|
  {
    if i == 0 then 0 else Rejected(z, i - 1) + if z[i - 1] < 15 then 0 else 1
  }

  /** RejBoundedPoly's loop: CoeffFromHalfByte of each half-byte under 15, in order. */
  ghost function Kept(z: seq<nat>, i: nat): seq<int>
    requires i <= |z|
  {
    if i == 0 then [] else Kept(z, i - 1) + if z[i - 1] < 15 then [2 - (z[i - 1] % 5) as int] else []
  }

  /** The entry of a kept half-byte. */
  ghost function EntryOf(z: seq<nat>, i: nat): nat
    requires i < |z|
  {
    Pack(4 - z[i] % 5, Rejected(z, i))
  }

  /** Where a kept entry sits once the passes for the bits below b have run. */
  ghost function Position(z: seq<nat>, b: nat, i: nat): int
    requires i < |z|
  {
    i - LowBits(Rejected(z, i), b)
  }

  ghost predicate IsKept(z: seq<nat>, i: nat) { i < |z| && z[i] < 15 }
  ghost predicate Occupied(s: seq<nat>, p: nat) { p < |s| && s[p] != 0 }

  /** Every kept entry sits at its position, and every other position is empty. */
  ghost predicate Layout(z: seq<nat>, s: seq<nat>, b: nat) {
    && |s| == |z|
    && (forall i {:trigger IsKept(z, i)} ::
          IsKept(z, i) ==> 0 <= Position(z, b, i) <= i && s[Position(z, b, i)] == EntryOf(z, i))
    && (forall p {:trigger Occupied(s, p)} :: Occupied(s, p) ==> exists i :: IsKept(z, i) && Position(z, b, i) == p)
  }

  lemma {:induction false} RejectedBetween(z: seq<nat>, i: nat, j: nat)
    requires i < j <= |z|
    ensures Rejected(z, i) <= Rejected(z, j) <= Rejected(z, i) + (j - i)
    ensures z[i] < 15 ==> Rejected(z, j) < Rejected(z, i) + (j - i)
  {
    if i + 1 < j { RejectedBetween(z, i, j - 1); }
  }

  /** Adding d moves the low bits up by at most d. */
  lemma {:induction false} LowBitsGrow(x: nat, d: nat, b: nat)
    ensures LowBits(x + d, b) <= LowBits(x, b) + d
  {
    if b > 0 && d > 0 {
      LowBitsGrow(x, d - 1, b);
      LowBitsNext(x + d - 1, b);
    }
  }

  lemma {:induction false} LowBitsNext(x: nat, b: nat)
    ensures LowBits(x + 1, b) <= LowBits(x, b) + 1
  {
    if b > 0 {
      if x % 2 == 1 {
        LowBitsNext(x / 2, b - 1);
        assert (x + 1) / 2 == x / 2 + 1;
      } else {
        assert (x + 1) / 2 == x / 2;
      }
    }
  }

  lemma {:induction false} LowBitsLe(x: nat, b: nat)
    ensures LowBits(x, b) <= x
  {
    if b > 0 { LowBitsLe(x / 2, b - 1); }
  }

  /** The passes keep the kept entries in order, so no two of them ever meet. */
  lemma InOrder(z: seq<nat>, b: nat, i: nat, j: nat)
    requires i < j < |z| && z[i] < 15
    ensures Position(z, b, i) < Position(z, b, j)
  {
    RejectedBetween(z, i, j);
    LowBitsGrow(Rejected(z, i), Rejected(z, j) - Rejected(z, i), b);
  }

  lemma PositionInside(z: seq<nat>, b: nat, i: nat)
    requires i < |z|
    ensures 0 <= Position(z, b, i) <= i
  {
    if i > 0 { RejectedBetween(z, 0, i); }
    LowBitsLe(Rejected(z, i), b);
  }

  /** Pass b moves an entry down by 2^b exactly when its move has bit b. */
  lemma PositionStep(z: seq<nat>, b: nat, i: nat)
    requires i < |z|
    ensures Position(z, b + 1, i) == Position(z, b, i) - if Bit(Rejected(z, i), b) == 1 then Pow(2, b) else 0
  {
    var r := Rejected(z, i);
    LowBitsSplit(r, b, 1);
    var y := Shr(r, b);
    assert LowBits(y, 1) == y % 2 + 2 * LowBits(y / 2, 0);
    ShlIsMul(y % 2, b);
  }

  /** The bits a pass reads from an entry. */
  lemma PackedBits(value: nat, move: nat, bit: nat)
    requires value < 8
    ensures Bit(Pack(value, move), 3) == 1 && Bit(Pack(value, move), 4 + bit) == Bit(move, bit)
    ensures LowBits(Pack(value, move), 3) == value
  {
    var e := Pack(value, move);
    assert Shr(e, 1) == e / 2 && Shr(e, 2) == e / 2 / 2 && Shr(e, 3) == e / 2 / 2 / 2;
    assert Shr(e, 4) == Shr(e, 3) / 2 == move;
    ShrShr(e, 4, bit);
    assert LowBits(e / 2 / 2, 1) == (e / 2 / 2) % 2 + 2 * LowBits(e / 2 / 2 / 2, 0);
    assert LowBits(e / 2, 2) == (e / 2) % 2 + 2 * LowBits(e / 2 / 2, 1);
  }

  /** The entry a position holds, if it holds one. */
  lemma Occupant(z: seq<nat>, s: seq<nat>, b: nat, p: nat) returns (i: nat)
    requires Layout(z, s, b) && p < |s| && s[p] != 0
    ensures IsKept(z, i) && Position(z, b, i) == p && s[p] == EntryOf(z, i)
  {
    assert Occupied(s, p);
    i :| IsKept(z, i) && Position(z, b, i) == p;
  }

  /** An empty entry neither moves nor stays. */
  lemma EmptyEntry(bit: nat)
    ensures !Moves(0, bit) && !Stays(0, bit)
  {
    ShrZero(3);
  }

  /** An entry moves or stays by one bit of its move. */
  lemma EntryChoice(z: seq<nat>, i: nat, b: nat)
    requires IsKept(z, i)
    ensures Moves(EntryOf(z, i), b) <==> Bit(Rejected(z, i), b) == 1
    ensures Stays(EntryOf(z, i), b) <==> Bit(Rejected(z, i), b) == 0
  {
    PackedBits(4 - z[i] % 5, Rejected(z, i), b);
  }

  /** An entry that pass b brings down to p is the one whose next position is p. */
  lemma FromAbove(z: seq<nat>, s: seq<nat>, b: nat, p: nat) returns (i: nat)
    requires Layout(z, s, b) && p < |s| && Moves(Above(s, p, b), b)
    ensures IsKept(z, i) && Position(z, b + 1, i) == p && Above(s, p, b) == EntryOf(z, i) && Position(z, b, i) != p
  {
    EmptyEntry(b);
    PowPositive(2, b);
    i := Occupant(z, s, b, p + Pow(2, b));
    EntryChoice(z, i, b);
    PositionStep(z, b, i);
  }

  /** And so is one that pass b leaves at p. */
  lemma InPlace(z: seq<nat>, s: seq<nat>, b: nat, p: nat) returns (i: nat)
    requires Layout(z, s, b) && p < |s| && Stays(s[p], b)
    ensures IsKept(z, i) && Position(z, b + 1, i) == p && s[p] == EntryOf(z, i) && Position(z, b, i) == p
  {
    EmptyEntry(b);
    i := Occupant(z, s, b, p);
    EntryChoice(z, i, b);
    PositionStep(z, b, i);
  }

  /** In no pass are the entry above and the entry here both chosen: the OR is a choice. */
  lemma NeverBoth(z: seq<nat>, s: seq<nat>, b: nat, p: nat)
    requires Layout(z, s, b) && p < |s|
    ensures !(Moves(Above(s, p, b), b) && Stays(s[p], b))
  {
    if Moves(Above(s, p, b), b) && Stays(s[p], b) {
      var i := FromAbove(z, s, b, p);
      var j := InPlace(z, s, b, p);
      if i < j { InOrder(z, b + 1, i, j); } else { InOrder(z, b + 1, j, i); }
    }
  }

  /** A pass takes the layout for bits below b to the layout for bits below b + 1. */
  lemma LayoutStep(z: seq<nat>, s: seq<nat>, t: seq<nat>, b: nat)
    requires Layout(z, s, b) && IsPass(s, t, b)
    ensures Layout(z, t, b + 1)
  {
    forall i: nat {:trigger IsKept(z, i)} | IsKept(z, i)
      ensures 0 <= Position(z, b + 1, i) <= i && t[Position(z, b + 1, i)] == EntryOf(z, i)
    {
      PositionInside(z, b + 1, i);
      Lands(z, s, t, b, i);
    }
    forall p: nat {:trigger Occupied(t, p)} | Occupied(t, p)
      ensures exists i :: IsKept(z, i) && Position(z, b + 1, i) == p
    {
      assert t[p] == Chosen(s[p], Above(s, p, b), b);
      if Moves(Above(s, p, b), b) {
        var i := FromAbove(z, s, b, p);
      } else {
        var i := InPlace(z, s, b, p);
      }
    }
  }

  lemma Lands(z: seq<nat>, s: seq<nat>, t: seq<nat>, b: nat, i: nat)
    requires Layout(z, s, b) && IsPass(s, t, b) && IsKept(z, i)
    requires 0 <= Position(z, b + 1, i) <= i
    ensures t[Position(z, b + 1, i)] == EntryOf(z, i)
  {
    var p := Position(z, b + 1, i);
    PositionInside(z, b, i);
    PositionStep(z, b, i);
    EntryChoice(z, i, b);
    PowPositive(2, b);
    NeverBoth(z, s, b, p);
    assert t[p] == Chosen(s[p], Above(s, p, b), b);
    ChosenOne(s[p], Above(s, p, b), b);
    if Bit(Rejected(z, i), b) == 1 {
      assert Above(s, p, b) == EntryOf(z, i);
    } else {
      assert s[p] == EntryOf(z, i);
    }
  }

  lemma ChosenOne(here: nat, above: nat, bit: nat)
    requires !(Moves(above, bit) && Stays(here, bit))
    ensures Moves(above, bit) ==> Chosen(here, above, bit) == above
    ensures Stays(here, bit) ==> Chosen(here, above, bit) == here
  {}

  lemma {:induction false} StartKept(z: seq<nat>, i: nat)
    requires IsKept(z, i)
    ensures Position(z, 0, i) == i && StartEntries(z, |z|)[i] == EntryOf(z, i)
  {
    StartAt(z, |z|, i);
    assert LowBits(Rejected(z, i), 0) == 0;
  }

  lemma {:induction false} StartOccupied(z: seq<nat>, p: nat)
    requires Occupied(StartEntries(z, |z|), p)
    ensures IsKept(z, p) && Position(z, 0, p) == p
  {
    StartAt(z, |z|, p);
    assert LowBits(Rejected(z, p), 0) == 0;
  }

  lemma {:induction false} StartLayout(z: seq<nat>)
    ensures Layout(z, StartEntries(z, |z|), 0)
  {
    var s := StartEntries(z, |z|);
    forall i: nat {:trigger IsKept(z, i)} | IsKept(z, i)
      ensures 0 <= Position(z, 0, i) <= i && s[Position(z, 0, i)] == EntryOf(z, i)
    {
      StartKept(z, i);
    }
    forall p: nat {:trigger Occupied(s, p)} | Occupied(s, p)
      ensures exists i :: IsKept(z, i) && Position(z, 0, i) == p
    {
      StartOccupied(z, p);
    }
  }

  lemma {:induction false} KeptCount(z: seq<nat>, i: nat)
    requires i <= |z|
    ensures |Kept(z, i)| == i - Rejected(z, i)
  {
    if i > 0 { KeptCount(z, i - 1); }
  }

  lemma {:induction false} KeptAt(z: seq<nat>, i: nat, j: nat)
    requires i < j <= |z| && z[i] < 15
    ensures var p := i - Rejected(z, i); 0 <= p < |Kept(z, j)| && Kept(z, j)[p] == 2 - (z[i] % 5) as int
  {
    KeptCount(z, i);
    if i + 1 < j { KeptAt(z, i, j - 1); }
  }

  /** Every value kept comes from one kept half-byte. */
  lemma {:induction false} KeptFrom(z: seq<nat>, j: nat, p: nat) returns (i: nat)
    requires j <= |z| && p < |Kept(z, j)|
    ensures i < j && z[i] < 15 && i - Rejected(z, i) == p
  {
    KeptCount(z, j - 1);
    if p < |Kept(z, j - 1)| { i := KeptFrom(z, j - 1, p); } else { i := j - 1; }
  }

  lemma {:induction false} WholeMove(x: nat, b: nat)
    requires x < Pow(2, b)
    ensures LowBits(x, b) == x
  {
    if b > 0 { WholeMove(x / 2, b - 1); }
  }

  /** After the passes the front of the entries is the list of kept values, and the rest is empty. */
  lemma Compacted(z: seq<nat>, s: seq<nat>, b: nat, p: nat)
    requires Layout(z, s, b) && |z| <= Pow(2, b) && p < |s|
    ensures p < |Kept(z, |z|)| ==> LowBits(s[p], 3) as int - 2 == Kept(z, |z|)[p]
    ensures p >= |Kept(z, |z|)| ==> s[p] == 0
  {
    if p < |Kept(z, |z|)| {
      var i := KeptFrom(z, |z|, p);
      KeptAt(z, i, |z|);
      FullPosition(z, b, i);
      assert IsKept(z, i);
      PackedBits(4 - z[i] % 5, Rejected(z, i), 0);
    } else if s[p] != 0 {
      var i := Occupant(z, s, b, p);
      FullPosition(z, b, i);
      KeptAt(z, i, |z|);
    }
  }

  lemma FullPosition(z: seq<nat>, b: nat, i: nat)
    requires i < |z| <= Pow(2, b)
    ensures Position(z, b, i) == i - Rejected(z, i)
  {
    if i > 0 { RejectedBetween(z, 0, i); }
    WholeMove(Rejected(z, i), b);
  }

  /** z is the half-bytes of a byte stream, low half first. */
  ghost predicate AreHalves(stream: seq<nat>, z: seq<nat>) {
    && |z| == 2 * |stream|
    && forall at {:trigger stream[at]} :: 0 <= at < |stream| ==>
         stream[at] < 256 && z[2 * at] == stream[at] % 16 && z[2 * at + 1] == stream[at] / 16
  }

  /** The entries of the first n half-bytes, before the first pass. */
  ghost function StartEntries(z: seq<nat>, n: nat): (s: seq<nat>)
    requires n <= |z|
    ensures |s| == n
  {
    if n == 0 then [] else StartEntries(z, n - 1) + [if z[n - 1] < 15 then EntryOf(z, n - 1) else 0]
  }

  lemma {:induction false} StartAt(z: seq<nat>, n: nat, i: nat)
    requires i < n <= |z|
    ensures StartEntries(z, n)[i] == if z[i] < 15 then EntryOf(z, i) else 0
  {
    if i < n - 1 { StartAt(z, n - 1, i); }
  }

  lemma {:induction false} StartBound(z: seq<nat>, n: nat)
    requires n <= |z| <= 4096
    ensures forall i :: 0 <= i < n ==> StartEntries(z, n)[i] < 0x1_0000
  {
    if n > 0 {
      StartBound(z, n - 1);
      RejectedAtMost(z, n - 1);
    }
  }

  /** One half-byte of the first loop. */
  method PutEntry(entries: array<nat>, at: nat, half: nat, rejected: Word, ghost z: seq<nat>) returns (after: Word)
    requires at < |z| == entries.Length <= 4096 && z[at] == half < 16
    requires entries[..at] == StartEntries(z, at) && rejected == Rejected(z, at)
    modifies entries
    ensures entries[..at + 1] == StartEntries(z, at + 1) && after == Rejected(z, at + 1)
  {
    RejectedAtMost(z, at);
    var entry;
    entry, after := EtaEntry(half, rejected);
    entries[at] := entry;
    assert entries[..at + 1] == entries[..at] + [entry];
  }

  lemma RejectedAtMost(z: seq<nat>, i: nat)
    requires i <= |z|
    ensures Rejected(z, i) <= i
  {
    if i > 0 { RejectedBetween(z, 0, i); }
  }

  /** The first loop of mlds_eta_from_stream: one entry for each half-byte. */
  method Entries(stream: seq<nat>, ghost z: seq<nat>) returns (entries: array<nat>, rejected: Word)
    requires AreHalves(stream, z) && 2 * |stream| <= 4096
    ensures fresh(entries) && entries[..] == StartEntries(z, |z|) && rejected == Rejected(z, |z|)
  {
    entries := new nat[2 * |stream|];
    rejected := 0;
    var i := 0;
    for at := 0 to |stream|
      invariant i == 2 * at && entries[..i] == StartEntries(z, i) && rejected == Rejected(z, i)
    {
      rejected := PutEntry(entries, i, stream[at] % 16, rejected, z);
      rejected := PutEntry(entries, i + 1, stream[at] / 16, rejected, z);
      i := i + 2;
    }
    assert entries[..] == entries[..i];
  }

  /** The passes, lowest bit first. */
  method Passes(entries: array<nat>, passes: nat, ghost z: seq<nat>)
    requires |z| <= 4096 && entries[..] == StartEntries(z, |z|)
    modifies entries
    ensures Layout(z, entries[..], passes)
  {
    StartLayout(z);
    StartBound(z, |z|);
    for bit := 0 to passes
      invariant Layout(z, entries[..], bit)
      invariant forall p :: 0 <= p < entries.Length ==> entries[p] < 0x1_0000
    {
      ghost var s := entries[..];
      EtaPass(entries, bit);
      LayoutStep(z, s, entries[..], bit);
    }
  }

  /** The coefficient at n of RejBoundedPoly, and -2 where the stream ran out. */
  ghost function Coefficient(z: seq<nat>, n: nat): int {
    if n < |Kept(z, |z|)| then Kept(z, |z|)[n] else -2
  }

  /** mlds_eta_from_stream: the coefficients are RejBoundedPoly's, -2 where the stream ran out, and
      the answer says whether it did not. */
  method FromStream(coeffs: array<int>, stream: seq<nat>, passes: nat, ghost z: seq<nat>) returns (enough: nat)
    requires AreHalves(stream, z)
    requires coeffs.Length <= 2 * |stream| <= Pow(2, passes) && 2 * |stream| <= 4096
    modifies coeffs
    ensures enough == if |Kept(z, |z|)| >= coeffs.Length then 1 else 0
    ensures forall n :: 0 <= n < coeffs.Length ==> coeffs[n] == Coefficient(z, n)
  {
    var entries, rejected := Entries(stream, z);
    Passes(entries, passes, z);
    ghost var final := entries[..];
    for n := 0 to coeffs.Length
      invariant entries[..] == final
      invariant forall k :: 0 <= k < n ==> coeffs[k] == Coefficient(z, k)
    {
      Compacted(z, final, passes, n);
      coeffs[n] := CoefficientOf(entries[n]);
    }
    KeptCount(z, |z|);
    RejectedAtMost(z, |z|);
    enough := Enough(2 * |stream| - rejected, coeffs.Length);
  }

  /** The sign bit of (count - 1) - kept, in 32 bits. */
  function Enough(kept: nat, count: nat): (bit: nat)
    requires kept <= 4096 && count <= 4096
    ensures bit == if kept >= count then 1 else 0
  {
    (U32(count - 1 - kept) / 0x8000_0000) % 2
  }

  /** (entry & 7) - eta. */
  function CoefficientOf(entry: nat): (c: int)
    ensures c == LowBits(entry, 3) as int - 2
    ensures entry == 0 ==> c == -2
  {
    AndSeven(entry);
    And(entry, 7) as int - 2
  }

  lemma AndSeven(x: nat)
    ensures And(x, 7) == LowBits(x, 3) && LowBits(0, 3) == 0
  {
    assert And(x, 7) == (if x == 0 then 0 else 2 * And(x / 2, 3) + x % 2);
    assert And(x / 2, 3) == (if x / 2 == 0 then 0 else 2 * And(x / 2 / 2, 1) + (x / 2) % 2);
    AndParity(x / 2 / 2, 0);
    assert LowBits(x / 2 / 2, 1) == (x / 2 / 2) % 2 + 2 * LowBits(x / 2 / 2 / 2, 0);
    assert LowBits(x / 2, 2) == (x / 2) % 2 + 2 * LowBits(x / 2 / 2, 1);
    assert LowBits(x, 3) == x % 2 + 2 * LowBits(x / 2, 2);
    assert LowBits(0, 2) == 2 * LowBits(0, 1) && LowBits(0, 1) == 2 * LowBits(0, 0);
  }

  /** The shipped shape: 481 bytes of stream and ten passes. */
  lemma ShippedPasses()
    ensures 2 * 481 <= Pow(2, 10) && 2 * 481 <= 4096
  {
    PowAdd(2, 5, 5);
  }
}
