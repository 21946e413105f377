/** The revocation epoch: src/handshake_auth.c:220-276, src/tls.c:32-70, and the persistent half in
    examples/ca_client.c:255-340, over every run of sessions, failed stores and power cuts. */
module Epoch {
  import opened Common

  const MAX: nat := 16799
  const BOUND: nat := 64

  datatype Status = Unset | Matched | Ahead | Revoked | Untrusted

  // The decimal text of the slot file.

  function Digit(d: nat): char
    requires d < 10
  {
    '0' + d as char
  }

  predicate IsDigit(c: char) { '0' <= c <= '9' }

  function ValueOf(c: char): nat
    requires IsDigit(c)
  {
    c as int - '0' as int
  }

  /** %u. */
  function Print(v: nat): (t: string)
    ensures |t| > 0 && forall i :: 0 <= i < |t| ==> IsDigit(t[i])
  {
    if v < 10 then [Digit(v)] else Print(v / 10) + [Digit(v % 10)]
  }

  /** How many characters at the front are digits. */
  function Digits(t: string): (n: nat)
    ensures n <= |t| && forall i :: 0 <= i < n ==> IsDigit(t[i])
    ensures n < |t| ==> !IsDigit(t[n])
  {
    if t != "" && IsDigit(t[0]) then 1 + Digits(t[1..]) else 0
  }

  /** The number that digits spell. */
  function Number(t: string): nat
    requires forall i :: 0 <= i < |t| ==> IsDigit(t[i])
  {
    if t == "" then 0 else 10 * Number(t[..|t| - 1]) + ValueOf(t[|t| - 1])
  }

  /** slot_read, on the line that fgets returned: nothing for no line, no digit or a value too large. */
  function Read(t: string): Option<nat> {
    var n := Digits(t);
    if n == 0 || Number(t[..n]) > MAX then None else Some(Number(t[..n]))
  }

  lemma {:induction false} NumberOfPrint(v: nat)
    ensures Number(Print(v)) == v
  {
    if v >= 10 {
      var t := Print(v);
      NumberOfPrint(v / 10);
      assert t[..|t| - 1] == Print(v / 10) && t[|t| - 1] == Digit(v % 10);
    }
  }

  lemma {:induction false} DigitsOfPrefix(t: string, rest: string)
    requires (forall i :: 0 <= i < |t| ==> IsDigit(t[i])) && (rest == "" || !IsDigit(rest[0]))
    ensures Digits(t + rest) == |t| && (t + rest)[..|t|] == t
  {}

  /** What is written is read back. */
  lemma {:induction false} ReadWhole(v: nat)
    requires v <= MAX
    ensures Read(Print(v) + "\n") == Some(v)
  {
    DigitsOfPrefix(Print(v), "\n");
    NumberOfPrint(v);
  }

  /** v without its last j digits. */
  function Drop(v: nat, j: nat): nat { if j == 0 then v else Drop(v, j - 1) / 10 }

  lemma {:induction false} DropInside(v: nat, j: nat)
    ensures Drop(v, j + 1) == Drop(v / 10, j)
  {
    if j > 0 { DropInside(v, j - 1); }
  }

  lemma {:induction false} DropLess(v: nat, j: nat)
    ensures Drop(v, j) <= v && (j > 0 && v > 0 ==> Drop(v, j) < v)
  {
    if j > 0 { DropLess(v, j - 1); }
  }

  /** The first k digits of v's text spell v without the others. */
  lemma {:induction false} NumberOfCut(v: nat, k: nat)
    requires k <= |Print(v)|
    ensures k > 0 ==> Number(Print(v)[..k]) == Drop(v, |Print(v)| - k)
  {
    var t := Print(v);
    if k == |t| {
      assert t[..k] == t;
      NumberOfPrint(v);
    } else if v >= 10 {
      assert t[..k] == Print(v / 10)[..k];
      NumberOfCut(v / 10, k);
      if k > 0 { DropInside(v, |t| - 1 - k); }
    }
  }

  /** v's first digit. */
  function Leading(v: nat): nat { if v < 10 then v else Leading(v / 10) }

  lemma {:induction false} LeadingIsDrop(v: nat)
    ensures Drop(v, |Print(v)| - 1) == Leading(v)
  {
    if v >= 10 {
      LeadingIsDrop(v / 10);
      DropInside(v, |Print(v)| - 2);
    }
  }

  lemma {:induction false} DropMore(v: nat, i: nat, j: nat)
    requires i <= j
    ensures Drop(v, j) <= Drop(v, i)
  {
    if i < j { DropMore(v, i, j - 1); }
  }

  /** A write cut short leaves k characters of the new text. */
  function Torn(v: nat, k: nat): string
    requires k <= |Print(v)| + 1
  {
    (Print(v) + "\n")[..k]
  }

  /** What a torn write reads as: nothing without a digit, v with all of them, and v without its last
      digits in between. */
  lemma {:induction false} ReadTorn(v: nat, k: nat)
    requires v <= MAX && k <= |Print(v)| + 1
    ensures Read(Torn(v, k))
         == if k == 0 then None else if k >= |Print(v)| then Some(v) else Some(Drop(v, |Print(v)| - k))
  {
    var t := Print(v);
    if k > |t| {
      assert Torn(v, k) == t + "\n";
      ReadWhole(v);
    } else {
      assert Torn(v, k) == t[..k] == t[..k] + "";
      DigitsOfPrefix(t[..k], "");
      if k > 0 {
        NumberOfCut(v, k);
        DropLess(v, |t| - k);
      }
    }
  }

  /** Readable and below, or not. */
  ghost predicate NotBelow(o: Option<nat>, was: nat) { o.Some? ==> o.value >= was }

  /** Every cut of a write keeps the epoch from falling exactly when the new value's first digit alone
      is not below the old value: past nine, a cut inside the digits can always lower it. */
  lemma {:induction false} TornNeverFallsIff(was: nat, v: nat)
    requires v <= MAX
    ensures (forall k :: 0 <= k <= |Print(v)| + 1 ==> NotBelow(Read(Torn(v, k)), was)) <==> Leading(v) >= was
  {
    LeadingIsDrop(v);
    ReadTorn(v, 1);
    if Leading(v) >= was {
      forall k | 0 <= k <= |Print(v)| + 1
        ensures NotBelow(Read(Torn(v, k)), was)
      {
        ReadTorn(v, k);
        if 0 < k < |Print(v)| { DropMore(v, |Print(v)| - k, |Print(v)| - 1); }
        DropMore(v, 0, |Print(v)| - 1);
      }
    } else {
      assert !NotBelow(Read(Torn(v, 1)), was);
    }
  }

  /** A device at 100 that writes 101 and loses power after one digit reads 1. */
  lemma TornFalls()
    ensures Read(Torn(101, 1)) == Some(1)
  {}

  /** A write that k characters of reached the file, cut inside its digits. */
  ghost predicate CutInside(v: nat, k: nat) { 0 < k < |Print(v)| }

  /** An epoch that a certificate's dates can spell. */
  type Stamp = x: nat | x <= MAX

  /** What happens to one write: whether fopen gives a file, how many characters reach it, whether fclose answers zero,
      and whether the power lasts. fprintf's own answer is dropped, so a file may close well that holds fewer. */
  datatype Fate = Fate(opens: bool, k: nat, closes: bool, power: bool)

  /** epoch_store answers zero. */
  predicate Reported(f: Fate) { f.opens && f.closes && f.power }

  function CharsOf(v: nat, f: Fate): (k: nat)
    ensures k <= |Print(v)| + 1
  {
    if f.k <= |Print(v)| + 1 then f.k else |Print(v)| + 1
  }

  /** The slot's text behind a write. */
  function Written(slot: string, v: nat, f: Fate): string {
    if f.opens then Torn(v, CharsOf(v, f)) else slot
  }

  /** All digits of v reach the file. */
  predicate AllDigits(v: nat, f: Fate) { f.opens && f.k >= |Print(v)| }

  /** A write is read back as v if and only if all its digits reached the file. */
  lemma {:induction false} WrittenIff(slot: string, v: Stamp, f: Fate)
    requires f.opens
    ensures Read(Written(slot, v, f)) == Some(v) <==> AllDigits(v, f)
  {
    ReadTorn(v, CharsOf(v, f));
    if 0 < f.k < |Print(v)| {
      DropLess(v, |Print(v)| - f.k);
      MoreDigits(v);
    }
  }

  lemma MoreDigits(v: nat)
    ensures |Print(v)| > 1 ==> v >= 10
  {}

  /** A store that answers zero can leave a lower epoch: 101 of which fprintf put one digit. */
  lemma ReportedShort()
    ensures var f := Fate(true, 1, true, true); Reported(f) && Read(Written(Print(100) + "\n", 101, f)) == Some(1)
  {
    TornFalls();
  }

  /** The device: one slot file, and one session at a time. */
  class Device {
    var slot: string
    var live: bool
    var epoch: nat
    var seen: nat
    var status: Status
    var storeFailed: bool
    /** What the session loaded. */
    ghost var loaded: nat
    /** The highest epoch the slot ever held. */
    ghost var high: nat
    /** Whether some write was cut inside its digits. */
    ghost var torn: bool

    ghost predicate Valid()
      reads this
    {
      && high <= MAX && (!torn ==> Read(slot).Some? ==> Read(slot).value == high)
      && (live ==> loaded <= epoch <= MAX && epoch <= loaded + BOUND && (!torn ==> high <= epoch && loaded <= high))
    }

    /** A device provisioned at the factory. */
    constructor (v: nat)
      requires v <= MAX
      ensures Valid() && slot == Print(v) + "\n" && Read(slot) == Some(v) && high == v && !live && !torn
    {
      slot := Print(v) + "\n";
      live, epoch, seen, status, storeFailed := false, 0, 0, Unset, false;
      loaded, high, torn := 0, v, false;
      ReadWhole(v);
    }

    /** What never goes back, whatever a step does. */
    twostate predicate Onward()
      reads this
    {
      old(high) <= high && (old(torn) ==> torn)
    }

    /** epoch_store: the slot holds what reached it, and only the answers of fopen and fclose are reported. */
    method Store(f: Fate) returns (rc: bool)
      requires Valid() && live
      modifies this`slot, this`live, this`high, this`torn
      ensures Valid() && Onward() && rc == Reported(f) && live == f.power && slot == Written(old(slot), epoch, f)
    {
      rc := false;
      if f.opens {
        var k := CharsOf(epoch, f);
        slot := Torn(epoch, k);
        ReadTorn(epoch, k);
        torn := torn || CutInside(epoch, k);
        high := if !torn && k >= |Print(epoch)| then epoch else high;
        rc := f.closes && f.power;
      }
      live := f.power;
    }

    /** tlsi_epoch_init: the stored epoch is loaded, and a ticket below it is refused. */
    method Connect(ticket: Option<nat>) returns (ok: bool)
      requires Valid() && !live
      modifies this`live, this`epoch, this`seen, this`status, this`storeFailed, this`loaded
      ensures Valid() && ok == live && slot == old(slot) && !storeFailed
      ensures ok <==> Read(slot).Some? && (ticket.Some? ==> Read(slot).value <= ticket.value <= MAX)
      ensures ok ==> Read(slot) == Some(loaded) && epoch == loaded
      ensures Read(slot).Some? && ticket.Some? && ticket.value <= MAX ==>
                status == if ticket.value > Read(slot).value then Ahead
                          else if ticket.value < Read(slot).value then Revoked else Matched
      ensures Read(slot).None? || ticket.None? || ticket.value > MAX ==> status == Unset
    {
      status, seen, storeFailed := Unset, 0, false;
      var stored := Read(slot);
      if stored.None? {
        return false;
      }
      epoch := stored.value;
      loaded := stored.value;
      if ticket.Some? {
        if ticket.value > MAX {
          return false;
        }
        seen := ticket.value;
        if ticket.value < stored.value {
          status := Revoked;
          return false;
        }
        status := if ticket.value > stored.value then Ahead else Matched;
      }
      live := true;
      return true;
    }

    /** epoch_check: it accepts from the epoch up to the bound above it, and each status has its own range. */
    method Check(leaf: Option<Stamp>) returns (ok: bool)
      requires Valid() && live
      modifies this`seen, this`status
      ensures Valid() && (ok <==> leaf.Some? && epoch <= leaf.value <= epoch + BOUND)
      ensures status == if leaf.None? || leaf.value > epoch + BOUND then Untrusted
                        else if leaf.value < epoch then Revoked else if leaf.value > epoch then Ahead else Matched
    {
      seen := if leaf.Some? then leaf.value else 0;
      if leaf.None? || leaf.value > epoch + BOUND {
        status := Untrusted;
        return false;
      }
      if leaf.value < epoch {
        status := Revoked;
        return false;
      }
      status := if leaf.value > epoch then Ahead else Matched;
      return true;
    }

    /** hsa_epoch_commit, after the peer's Finished: a higher epoch is stored, and any other changes nothing. */
    method Commit(leaf: Option<Stamp>, f: Fate)
      requires Valid() && live && epoch == loaded && (leaf.Some? ==> epoch <= leaf.value <= epoch + BOUND)
      modifies this`slot, this`live, this`high, this`torn, this`epoch, this`storeFailed
      ensures Valid() && Onward() && epoch == if leaf.Some? then leaf.value else old(epoch)
      ensures if epoch > old(epoch) then
                slot == Written(old(slot), epoch, f) && live == f.power && storeFailed == !Reported(f)
              else slot == old(slot) && live && storeFailed == old(storeFailed)
    {
      if leaf.None? || leaf.value <= epoch {
        return;
      }
      epoch := leaf.value;
      var stored := Store(f);
      storeFailed := !stored;
    }

    /** A full handshake after the load: the check, CertificateVerify and Finished in that order, and
        then the commit. A peer that fails any of the three moves nothing that lasts. */
    method Handshake(leaf: Option<Stamp>, proved: bool, finished: bool, f: Fate) returns (accepted: bool)
      requires Valid() && live && epoch == loaded
      modifies this
      ensures Valid() && Onward()
      ensures accepted <==> leaf.Some? && old(loaded) <= leaf.value <= old(loaded) + BOUND && proved && finished
      ensures !accepted ==> slot == old(slot) && high == old(high) && !live
      ensures accepted ==> epoch == leaf.value
      ensures accepted ==> if epoch > old(loaded) then
                             slot == Written(old(slot), epoch, f) && live == f.power && storeFailed == !Reported(f)
                           else slot == old(slot) && live && storeFailed == old(storeFailed)
    {
      accepted := Check(leaf);
      if !accepted || !proved || !finished {
        live := false;
        return false;
      }
      Commit(leaf, f);
    }

    /** retry_epoch_store: three more attempts at a failed store, until one is reported or the power goes. */
    method Retry(fates: seq<Fate>) returns (stored: bool)
      requires Valid() && live && |fates| == 3
      modifies this`slot, this`live, this`high, this`torn
      ensures Valid() && Onward()
      ensures storeFailed ==> slot == Attempts(old(slot), epoch, fates) && stored == Stored(fates)
      ensures !storeFailed ==> slot == old(slot) && live && !stored
    {
      stored := false;
      if storeFailed {
        ghost var slot0 := slot;
        var attempt := 0;
        assert fates[0..] == fates;
        while attempt < 3 && live && !stored
          invariant 0 <= attempt <= 3 && Valid() && Onward()
          invariant !stored && live ==> Attempts(slot0, epoch, fates) == Attempts(slot, epoch, fates[attempt..])
          invariant !stored && live ==> Stored(fates) == Stored(fates[attempt..])
          invariant stored || !live ==> Attempts(slot0, epoch, fates) == slot && Stored(fates) == stored
        {
          assert fates[attempt..][0] == fates[attempt] && fates[attempt..][1..] == fates[attempt + 1..];
          stored := Store(fates[attempt]);
          attempt := attempt + 1;
        }
      }
    }

    /** A power cut, or the end of a session. */
    method End()
      requires Valid()
      modifies this`live
      ensures Valid() && !live
    {
      live := false;
    }
  }

  /** The slot behind attempts to write v, up to the first that is reported or loses the power. */
  function Attempts(slot: string, v: nat, fates: seq<Fate>): string
    decreases |fates|
  {
    if fates == [] then slot
    else if Reported(fates[0]) || !fates[0].power then Written(slot, v, fates[0])
    else Attempts(Written(slot, v, fates[0]), v, fates[1..])
  }

  predicate Stored(fates: seq<Fate>) {
    fates != [] && (Reported(fates[0]) || (fates[0].power && Stored(fates[1..])))
  }

  /** The attempts made end with number n, or are all of them. */
  ghost predicate LastAttempt(fates: seq<Fate>, n: nat) {
    && n < |fates| && (n + 1 < |fates| ==> Reported(fates[n]) || !fates[n].power)
    && forall i :: 0 <= i < n ==> !Reported(fates[i]) && fates[i].power
  }

  /** Of the attempts made, the last that opened the file decides what it holds; when none did it holds what it held. */
  lemma {:induction false} AttemptsAre(slot: string, v: nat, fates: seq<Fate>, n: nat, j: int)
    requires LastAttempt(fates, n) && -1 <= j <= n
    requires (j >= 0 ==> fates[j].opens) && forall i :: j < i <= n ==> !fates[i].opens
    ensures Attempts(slot, v, fates) == if j >= 0 then Written(slot, v, fates[j]) else slot
    ensures Stored(fates) <==> Reported(fates[n])
    decreases |fates|
  {
    if n > 0 {
      AttemptsAre(Written(slot, v, fates[0]), v, fates[1..], n - 1, if j > 0 then j - 1 else -1);
    } else if |fates| > 1 {
      assert Reported(fates[0]) || !fates[0].power;
    }
  }

  /** One session as the client holds it: a ticket to resume with or none, the peer's certificate, what it proves, and
      the fates of the store and its three retries. */
  datatype Visit = Visit(ticket: Option<nat>, leaf: Option<Stamp>, proved: bool, finished: bool, fates: Fates)
  type Fates = s: seq<Fate> | |s| == 4 witness seq(4, i => Fate(false, 0, false, false))

  /** The peer moves a device at e. */
  predicate Moves(e: nat, v: Visit) {
    v.ticket.None? && v.leaf.Some? && e < v.leaf.value <= e + BOUND && v.proved && v.finished
  }

  function SlotAfter(slot: string, v: Visit): string {
    if Read(slot).Some? && Moves(Read(slot).value, v) then Attempts(slot, v.leaf.value, v.fates) else slot
  }

  function SlotAfterAll(slot: string, vs: seq<Visit>): string {
    if vs == [] then slot else SlotAfter(SlotAfterAll(slot, vs[..|vs| - 1]), vs[|vs| - 1])
  }

  /** A peer that moves a device, and a write that is reported whole before the power goes: the device reads the new
      epoch ever after. */
  lemma {:induction false} EpochMoves(slot: string, v: Visit, n: nat)
    requires Read(slot).Some? && Moves(Read(slot).value, v)
    requires LastAttempt(v.fates, n) && Reported(v.fates[n]) && AllDigits(v.leaf.value, v.fates[n])
    ensures Read(SlotAfter(slot, v)) == Some(v.leaf.value)
  {
    AttemptsAre(slot, v.leaf.value, v.fates, n, n);
    WrittenIff(slot, v.leaf.value, v.fates[n]);
  }

  /** One session: what the slot holds behind it is decided by what the peer and the file did. */
  method OneSession(d: Device, v: Visit)
    requires d.Valid() && !d.live
    modifies d
    ensures d.Valid() && !d.live && old(d.high) <= d.high && (old(d.torn) ==> d.torn)
    ensures d.slot == SlotAfter(old(d.slot), v)
  {
    var ok := d.Connect(v.ticket);
    if ok && v.ticket.None? {
      var accepted := d.Handshake(v.leaf, v.proved, v.finished, v.fates[0]);
      if d.live {
        var stored := d.Retry(v.fates[1..]);
      }
    }
    d.End();
  }

  /** Over every run of sessions held one at a time, with failed stores, retries and power cuts, the slot holds what
      they decide, and the epoch a device reads never falls below one it read before, unless a write was cut inside its
      digits. */
  method Life(d: Device, vs: seq<Visit>)
    requires d.Valid() && !d.live
    modifies d
    ensures d.Valid() && !d.live && d.slot == SlotAfterAll(old(d.slot), vs)
    ensures !d.torn && old(Read(d.slot)).Some? && Read(d.slot).Some? ==> Read(d.slot).value >= old(Read(d.slot)).value
  {
    for i := 0 to |vs|
      invariant d.Valid() && !d.live && old(d.high) <= d.high && (old(d.torn) ==> d.torn)
      invariant d.slot == SlotAfterAll(old(d.slot), vs[..i])
    {
      OneSession(d, vs[i]);
      assert vs[..i + 1][..i] == vs[..i];
    }
    assert vs[..|vs|] == vs;
  }

  /** No write of v in a session stops before its last digit. */
  ghost predicate Uncut(v: Visit) {
    v.leaf.Some? ==> forall i :: 0 <= i < |v.fates| && v.fates[i].opens ==> AllDigits(v.leaf.value, v.fates[i])
  }

  /** Some attempt that is made opens the file. */
  ghost predicate Opens(fates: seq<Fate>)
    decreases |fates|
  {
    fates != [] && (fates[0].opens || (fates[0].power && Opens(fates[1..])))
  }

  /** The epoch by itself, without the file: a session that moves it and opens the file leaves the new one. */
  ghost function EpochAfter(e: nat, v: Visit): nat {
    if Moves(e, v) && Opens(v.fates) then v.leaf.value else e
  }

  ghost function EpochAfterAll(e: nat, vs: seq<Visit>): nat {
    if vs == [] then e else EpochAfter(EpochAfterAll(e, vs[..|vs| - 1]), vs[|vs| - 1])
  }

  lemma {:induction false} AttemptsUncut(slot: string, v: Stamp, fates: seq<Fate>)
    requires forall i :: 0 <= i < |fates| && fates[i].opens ==> AllDigits(v, fates[i])
    ensures Read(Attempts(slot, v, fates)) == if Opens(fates) then Some(v) else Read(slot)
    decreases |fates|
  {
    if fates != [] {
      var next := Written(slot, v, fates[0]);
      if fates[0].opens { WrittenIff(slot, v, fates[0]); }
      if !Reported(fates[0]) && fates[0].power { AttemptsUncut(next, v, fates[1..]); }
    }
  }

  /** Where no write is cut the device reads exactly the last epoch it stored, over every run. */
  lemma {:induction false} RunReads(slot: string, vs: seq<Visit>)
    requires Read(slot).Some? && forall i :: 0 <= i < |vs| ==> Uncut(vs[i])
    ensures Read(SlotAfterAll(slot, vs)) == Some(EpochAfterAll(Read(slot).value, vs))
  {
    if vs != [] {
      var before, v := vs[..|vs| - 1], vs[|vs| - 1];
      RunReads(slot, before);
      if v.leaf.Some? { AttemptsUncut(SlotAfterAll(slot, before), v.leaf.value, v.fates); }
    }
  }

  // The two slots a production device keeps: docs/ca.md:422-428.

  /** A slot whose checksum fails reads as nothing. */
  datatype Slots = Slots(a: Option<nat>, b: Option<nat>)

  /** The larger of the readable values. */
  function Load(s: Slots): Option<nat> {
    if s.a.None? then s.b
    else if s.b.None? then s.a
    else Some(if s.a.value >= s.b.value then s.a.value else s.b.value)
  }

  /** The slot a store overwrites: a bad one, or the older. */
  predicate WritesA(s: Slots) {
    s.a.None? || (s.b.Some? && s.a.value <= s.b.value)
  }

  /** A store that reaches the slot whole, not at all, or in part. */
  datatype Reach = Whole | Not | Part

  function Put(slot: Option<nat>, v: nat, r: Reach): Option<nat> {
    if r.Whole? then Some(v) else if r.Not? then slot else None
  }

  function StoreTwo(s: Slots, v: nat, r: Reach): Slots {
    if WritesA(s) then s.(a := Put(s.a, v, r)) else s.(b := Put(s.b, v, r))
  }

  /** Stores of rising values in turn, each reaching as far as it did. */
  ghost function StoreAll(s: Slots, stores: seq<(nat, Reach)>): Slots
    decreases |stores|
  {
    if stores == [] then s else StoreAll(StoreTwo(s, stores[0].0, stores[0].1), stores[1..])
  }

  /** Each store writes at least what a load before it returned. */
  ghost predicate Rising(s: Slots, stores: seq<(nat, Reach)>)
    decreases |stores|
  {
    stores != [] ==>
      && (Load(s).Some? ==> stores[0].0 >= Load(s).value)
      && Rising(StoreTwo(s, stores[0].0, stores[0].1), stores[1..])
  }

  /** Over every run of stores, cut wherever they were, a device that once loads an epoch always loads
      one, never a lower one, and the last whole store's or a later one. */
  lemma {:induction false} TwoSlotsNeverFall(s: Slots, stores: seq<(nat, Reach)>)
    requires Load(s).Some? && Rising(s, stores)
    ensures var o := Load(StoreAll(s, stores)); o.Some? && o.value >= Load(s).value
    ensures forall i :: 0 <= i < |stores| && stores[i].1.Whole? ==> Load(StoreAll(s, stores)).value >= stores[i].0
    decreases |stores|
  {
    if stores != [] {
      var t := StoreTwo(s, stores[0].0, stores[0].1);
      TwoSlotsNeverFall(t, stores[1..]);
      forall i | 0 <= i < |stores| && stores[i].1.Whole?
        ensures Load(StoreAll(s, stores)).value >= stores[i].0
      {
        if i > 0 { assert stores[1..][i - 1] == stores[i]; }
      }
    }
  }
}
