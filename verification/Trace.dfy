/** The call-stack machine of bench/handshake_stages.py:121-286: every instruction of a counted
    connection goes to the outermost root on the stack it runs under. */
module Trace {
  import opened Common

  type Name = string

  datatype Stage = Keygen | Shared | Sign | Schedule | Transcript
  datatype Part = BaseMul | Nonce
  datatype Window = Handshake | Exchange

  /** What a name is labelled: a root's stage and a part's part. */
  datatype Labels = Labels(root: Name -> Option<Stage>, part: Name -> Option<Part>)

  /** Where an instruction counts: its stage and its part. */
  datatype Place = Place(stage: Option<Stage>, part: Option<Part>)

  const NOWHERE := Place(None, None)

  /** labels: a frame of a name under a place. */
  function Under(l: Labels, name: Name, p: Place): Place {
    if p.stage.None? then Place(l.root(name), p.part)
    else if p.stage == Some(Sign) && p.part.None? then Place(p.stage, l.part(name))
    else p
  }

  /** The place under a list of names, entered in order. */
  ghost function Fold(l: Labels, names: seq<Name>): Place {
    if names == [] then NOWHERE else Under(l, names[|names| - 1], Fold(l, names[..|names| - 1]))
  }

  /** The stage of the first root among the names: the outermost one. */
  ghost function Outermost(l: Labels, names: seq<Name>): Option<Stage> {
    if names == [] then None else if l.root(names[0]).Some? then l.root(names[0]) else Outermost(l, names[1..])
  }

  /** The names after the first root. */
  ghost function Inside(l: Labels, names: seq<Name>): seq<Name> {
    if names == [] then [] else if l.root(names[0]).Some? then names[1..] else Inside(l, names[1..])
  }

  /** The first part among the names. */
  ghost function FirstPart(l: Labels, names: seq<Name>): Option<Part> {
    if names == [] then None else if l.part(names[0]).Some? then l.part(names[0]) else FirstPart(l, names[1..])
  }

  /** The place a stack of names gives: the outermost root's stage, and under the signature the
      outermost part inside it. */
  ghost function PlaceOf(l: Labels, names: seq<Name>): Place {
    var s := Outermost(l, names);
    Place(s, if s == Some(Sign) then FirstPart(l, Inside(l, names)) else None)
  }

  lemma {:induction false} OutermostNext(l: Labels, names: seq<Name>, name: Name)
    ensures Outermost(l, names + [name]) == if Outermost(l, names).Some? then Outermost(l, names) else l.root(name)
    ensures Inside(l, names + [name]) == if Outermost(l, names).Some? then Inside(l, names) + [name] else []
  {
    if names != [] {
      assert (names + [name])[1..] == names[1..] + [name];
      OutermostNext(l, names[1..], name);
    }
  }

  lemma {:induction false} FirstPartNext(l: Labels, names: seq<Name>, name: Name)
    ensures FirstPart(l, names + [name]) == if FirstPart(l, names).Some? then FirstPart(l, names) else l.part(name)
  {
    if names != [] {
      assert (names + [name])[1..] == names[1..] + [name];
      FirstPartNext(l, names[1..], name);
    }
  }

  /** Frame by frame, the labels find the outermost root and the outermost part under it. */
  lemma {:induction false} FoldIsOutermost(l: Labels, names: seq<Name>)
    ensures Fold(l, names) == PlaceOf(l, names)
  {
    if names != [] {
      var before, name := names[..|names| - 1], names[|names| - 1];
      FoldIsOutermost(l, before);
      assert names == before + [name];
      OutermostNext(l, before, name);
      FirstPartNext(l, Inside(l, before), name);
    }
  }

  lemma {:induction false} FoldNext(l: Labels, names: seq<Name>, name: Name)
    ensures Fold(l, names + [name]) == Under(l, name, Fold(l, names))
  {}

  /** Once a stage is set it stays, and a part is only ever set under the signature. */
  lemma {:induction false} FoldLaws(l: Labels, names: seq<Name>, more: seq<Name>)
    ensures Fold(l, names).part.Some? ==> Fold(l, names).stage == Some(Sign)
    ensures Fold(l, names).stage.Some? ==> Fold(l, names + more).stage == Fold(l, names).stage
    ensures Fold(l, names).part.Some? ==> Fold(l, names + more).part == Fold(l, names).part
    decreases |names| + |more|, |more|
  {
    if more == [] {
      assert names + more == names;
      if names != [] {
        FoldLaws(l, names[..|names| - 1], []);
        assert names[..|names| - 1] + [] == names[..|names| - 1];
      }
    } else {
      var before := more[..|more| - 1];
      FoldLaws(l, names, before);
      assert names + more == (names + before) + [more[|more| - 1]];
      FoldNext(l, names + before, more[|more| - 1]);
    }
  }

  datatype Frame = Frame(ret: nat, place: Place, caller: Option<Name>)

  /** Where an instruction was counted. */
  datatype Key = Key(window: Window, place: Place)

  /** The image a trace ran: its functions, its call sites, its roots' first instructions, and the two
      markers of the counted window. */
  datatype Image = Image(labels: Labels, nameAt: nat -> Option<Name>, calls: set<nat>, entries: map<nat, Name>,
                         handshakePc: nat, closePc: nat)

  /** The return addresses counted are the stack's. */
  ghost predicate Listed(returning: multiset<nat>, stack: seq<Frame>) {
    forall m: int {:trigger Look(m)} :: Look(m) ==> returning == multiset(Rets(stack))
  }

  ghost function Rets(stack: seq<Frame>): seq<nat> { seq(|stack|, i requires 0 <= i < |stack| => stack[i].ret) }

  ghost function Flat(path: seq<seq<Name>>): seq<Name> {
    if path == [] then [] else Flat(path[..|path| - 1]) + path[|path| - 1]
  }

  /** Each frame's place is that of the names entered up to it. It stands behind Look, so that only
      the lemmas below open it. */
  ghost predicate Placed(l: Labels, stack: seq<Frame>, path: seq<seq<Name>>) {
    forall m: int {:trigger Look(m)} :: Look(m) ==> AllPlaced(l, stack, path)
  }

  ghost predicate AllPlaced(l: Labels, stack: seq<Frame>, path: seq<seq<Name>>) {
    && |path| == |stack|
    && forall i {:trigger stack[i]} :: 0 <= i < |stack| ==> stack[i].place == Fold(l, Flat(path[..i + 1]))
  }

  function TopPlace(stack: seq<Frame>): Place {
    if stack == [] then NOWHERE else stack[|stack| - 1].place
  }

  /** How often a key was counted. */
  ghost function Tally(log: seq<Key>, k: Key): nat {
    if log == [] then 0 else Tally(log[..|log| - 1], k) + if log[|log| - 1] == k then 1 else 0
  }

  ghost function CountIf(log: seq<Key>, p: Key -> bool): nat {
    if log == [] then 0 else CountIf(log[..|log| - 1], p) + One(p(log[|log| - 1]))
  }

  /** The counters are the log's. */
  ghost predicate Tallied(counts: map<Key, nat>, log: seq<Key>) {
    forall m: int {:trigger Look(m)} ::
      Look(m) ==> forall k {:trigger Get(counts, k)} :: Get(counts, k) == Tally(log, k)
  }

  function Get(counts: map<Key, nat>, k: Key): nat { if k in counts then counts[k] else 0 }

  // The trace by its meaning: which calls are open, and by which names.

  /** An open call: where it returns to, and the names entered under it, tail calls included. */
  datatype Call = Call(ret: nat, names: seq<Name>)

  ghost function NamesOf(image: Image, pc: nat): seq<Name> {
    if image.nameAt(pc).Some? then [image.nameAt(pc).value] else []
  }

  ghost predicate Returns(calls: seq<Call>, pc: nat) { exists i :: 0 <= i < |calls| && calls[i].ret == pc }

  /** The innermost call that returns to pc. */
  ghost function Innermost(calls: seq<Call>, pc: nat): (i: nat)
    requires Returns(calls, pc)
    ensures i < |calls| && calls[i].ret == pc && forall j :: i < j < |calls| ==> calls[j].ret != pc
  {
    var last := |calls| - 1;
    if calls[last].ret == pc then last else Innermost(calls[..last], pc)
  }

  /** The open calls once pc runs. */
  ghost function Follows(image: Image, calls: seq<Call>, pending: Option<nat>, pc: nat): seq<Call> {
    if pending.Some? then calls + [Call(pending.value, NamesOf(image, pc))]
    else if Returns(calls, pc) then calls[..Innermost(calls, pc)]
    else if pc in image.entries && calls != [] then
      var last := |calls| - 1;
      calls[last := Call(calls[last].ret, calls[last].names + [image.entries[pc]])]
    else calls
  }

  /** All the names of the open calls, outermost first. */
  ghost function AllNames(calls: seq<Call>): seq<Name> {
    if calls == [] then [] else AllNames(calls[..|calls| - 1]) + calls[|calls| - 1].names
  }

  datatype Run = Run(calls: seq<Call>, pending: Option<nat>, window: Window, log: seq<Key>, closed: bool)

  const START := Run([], None, Handshake, [], false)

  /** One instruction of a run: nothing counts from the close marker on. */
  ghost function Next(image: Image, r: Run, pc: nat): Run {
    var calls := Follows(image, r.calls, r.pending, pc);
    var window := if pc == image.handshakePc then Exchange else r.window;
    if pc == image.closePc && pc != image.handshakePc then Run(calls, None, window, r.log, true)
    else Run(calls, if pc in image.calls then Some(pc + 4) else None, window,
             r.log + [Key(window, PlaceOf(image.labels, AllNames(calls)))], false)
  }

  ghost function RunOf(image: Image, pcs: seq<nat>): Run {
    if pcs == [] then START
    else
      var r := RunOf(image, pcs[..|pcs| - 1]);
      if r.closed then r else Next(image, r, pcs[|pcs| - 1])
  }

  ghost function CallsOf(stack: seq<Frame>, path: seq<seq<Name>>): (c: seq<Call>)
    requires |path| == |stack|
    ensures |c| == |stack|
  {
    seq(|stack|, i requires 0 <= i < |stack| => Call(stack[i].ret, path[i]))
  }

  lemma {:induction false} NamesAreFlat(stack: seq<Frame>, path: seq<seq<Name>>)
    requires |path| == |stack|
    ensures AllNames(CallsOf(stack, path)) == Flat(path)
  {
    if stack != [] {
      var n := |stack| - 1;
      assert CallsOf(stack, path)[..n] == CallsOf(stack[..n], path[..n]);
      NamesAreFlat(stack[..n], path[..n]);
    }
  }

  /** A pop that ends at the innermost match leaves the calls outside it. */
  lemma {:induction false} PopFollows(image: Image, stack: seq<Frame>, path: seq<seq<Name>>, n: nat, pc: nat)
    requires |path| == |stack| && n < |stack| && stack[n].ret == pc
    requires forall i :: n < i < |stack| ==> stack[i].ret != pc
    ensures Follows(image, CallsOf(stack, path), None, pc) == CallsOf(stack[..n], path[..n])
  {
    var calls := CallsOf(stack, path);
    assert calls[n].ret == pc;
    var i := Innermost(calls, pc);
    assert i == n;
    assert calls[..n] == CallsOf(stack[..n], path[..n]);
  }

  lemma {:induction false} PushFollows(image: Image, stack: seq<Frame>, path: seq<seq<Name>>, f: Frame, pc: nat)
    requires |path| == |stack|
    ensures Follows(image, CallsOf(stack, path), Some(f.ret), pc) == CallsOf(stack + [f], path + [NamesOf(image, pc)])
  {}

  lemma {:induction false} TailFollows(image: Image, stack: seq<Frame>, path: seq<seq<Name>>, top: Frame, pc: nat)
    requires |path| == |stack| && stack != [] && pc in image.entries && top.ret == stack[|stack| - 1].ret
    requires forall i :: 0 <= i < |stack| ==> stack[i].ret != pc
    ensures var last := |stack| - 1;
            Follows(image, CallsOf(stack, path), None, pc)
              == CallsOf(stack[last := top], path[last := path[last] + [image.entries[pc]]])
  {}

  class Machine {
    const image: Image
    var stack: seq<Frame>
    var returning: multiset<nat>
    var place: Place
    var pending: Option<nat>
    var caller: Option<Name>
    var window: Window
    var counts: map<Key, nat>
    /** The names entered on each frame, and where each instruction was counted. */
    ghost var path: seq<seq<Name>>
    ghost var log: seq<Key>

    ghost predicate Valid()
      reads this
    {
      && Listed(returning, stack)
      && place == TopPlace(stack) && |path| == |stack|
      && Placed(image.labels, stack, path)
    }

    ghost function Calls(): seq<Call>
      requires |path| == |stack|
      reads this
    {
      CallsOf(stack, path)
    }

    ghost predicate Counted()
      reads this
    {
      Tallied(counts, log)
    }

    constructor (image: Image)
      ensures Valid() && Counted() && Standing(false) == START && this.image == image
    {
      this.image := image;
      stack, returning, place, pending, caller := [], multiset{}, NOWHERE, None, None;
      window, counts, path, log := Handshake, map[], [], [];
    }

    /** The callee of a pending call takes a frame. */
    method Push(pc: nat)
      requires Valid() && pending.Some?
      modifies this`stack, this`returning, this`place, this`pending, this`path
      ensures Valid() && pending.None? && Calls() == Follows(image, old(Calls()), old(pending), pc)
    {
      var name := image.nameAt(pc);
      var there := if name.None? then place else Under(image.labels, name.value, place);
      var frame := Frame(pending.value, there, caller);
      PushPlaced(image.labels, stack, path, name, frame);
      PushRets(returning, stack, frame);
      PushFollows(image, stack, path, frame, pc);
      returning := returning + multiset{pending.value};
      stack := stack + [frame];
      path := path + [NamesOf(image, pc)];
      place := there;
      pending := None;
    }

    /** The top frame goes, and its return address with it. */
    method PopOne() returns (ret: nat)
      requires stack != [] && |path| == |stack| && Listed(returning, stack)
      modifies this`stack, this`returning, this`path
      ensures var last := |old(stack)| - 1;
              ret == old(stack)[last].ret && stack == old(stack)[..last] && path == old(path)[..last]
      ensures Listed(returning, stack) && returning == old(returning) - multiset{ret}
    {
      var last := |stack| - 1;
      PopRets(returning, stack);
      ret := stack[last].ret;
      stack := stack[..last];
      path := path[..last];
      returning := returning - multiset{ret};
    }

    /** A return: frames go until one that returns here, the innermost such. */
    method Pop(pc: nat)
      requires Valid() && pc in returning
      modifies this`stack, this`returning, this`place, this`path
      ensures Valid() && Calls() == Follows(image, old(Calls()), None, pc)
    {
      ghost var was := stack;
      var found := false;
      while !found
        invariant |stack| <= |was| && stack == was[..|stack|] && path == old(path)[..|stack|]
                  && Listed(returning, stack)
        invariant !found ==> pc in returning && forall i :: |stack| <= i < |was| ==> was[i].ret != pc
        invariant found ==> |stack| < |was| && was[|stack|].ret == pc
        invariant found ==> forall i :: |stack| < i < |was| ==> was[i].ret != pc
        decreases !found, |stack|
      {
        InStack(returning, stack, pc);
        var ret := PopOne();
        found := ret == pc;
      }
      place := TopPlace(stack);
      PopPlaced(image.labels, was, old(path), |stack|);
      PopFollows(image, was, old(path), |stack|, pc);
    }

    /** A tail call: the callee takes its caller's frame. */
    method TailCall(pc: nat)
      requires Valid() && stack != [] && pc in image.entries && pc !in returning
      modifies this`stack, this`place, this`path
      ensures Valid() && Calls() == Follows(image, old(Calls()), None, pc)
    {
      var last, name := |stack| - 1, image.entries[pc];
      var top := stack[last].(place := Under(image.labels, name, place));
      InStack(returning, stack, pc);
      TailPlaced(image.labels, stack, path, name, top);
      TailRets(returning, stack, top);
      TailFollows(image, stack, path, top, pc);
      stack := stack[last := top];
      path := path[last := path[last] + [name]];
      place := top.place;
    }

    /** The pass over the stack for one instruction. */
    method Follow(pc: nat)
      requires Valid()
      modifies this`stack, this`returning, this`place, this`pending, this`path
      ensures Valid() && pending.None? && Calls() == Follows(image, old(Calls()), old(pending), pc)
    {
      InStack(returning, stack, pc);
      SameReturns(stack, path, pc);
      if pending.Some? {
        Push(pc);
      } else if returning[pc] > 0 {
        Pop(pc);
      } else if pc in image.entries && stack != [] {
        TailCall(pc);
      }
    }

    /** The instruction counts at the place of the names it runs under. */
    method Count()
      requires Valid() && Counted()
      modifies this`counts, this`log
      ensures Counted() && log == old(log) + [Key(window, PlaceOf(image.labels, AllNames(Calls())))]
    {
      NamesAreFlat(stack, path);
      TopIsFold(image.labels, stack, path);
      FoldIsOutermost(image.labels, Flat(path));
      var k := Key(window, place);
      TalliedNext(counts, log, k);
      counts := counts[k := Get(counts, k) + 1];
      log := log + [k];
    }

    /** Where a run stands. */
    ghost function Standing(closed: bool): Run
      requires |path| == |stack|
      reads this
    {
      Run(Calls(), pending, window, log, closed)
    }

    /** One instruction: counted once, at the place of the names it runs under, or the close marker. */
    method Step(pc: nat) returns (closed: bool)
      requires Valid() && Counted()
      modifies this
      ensures Valid() && Counted() && Standing(closed) == Next(image, old(Standing(false)), pc)
    {
      Follow(pc);
      closed := Tick(pc);
    }

    /** The rest of the loop's body: the markers, the counters and a call that comes next. */
    method Tick(pc: nat) returns (closed: bool)
      requires Valid() && Counted() && pending.None?
      modifies this`window, this`counts, this`log, this`pending, this`caller
      ensures Valid() && Counted() && closed == (pc == image.closePc && pc != image.handshakePc)
      ensures window == if pc == image.handshakePc then Exchange else old(window)
      ensures pending == if !closed && pc in image.calls then Some(pc + 4) else None
      ensures log == old(log) + if closed then [] else [Key(window, PlaceOf(image.labels, AllNames(Calls())))]
    {
      if pc == image.handshakePc {
        window := Exchange;
      } else if pc == image.closePc {
        return true;
      }
      Count();
      if pc in image.calls {
        pending := Some(pc + 4);
        caller := image.nameAt(pc);
      }
      return false;
    }

    /** The loop of trace: the counters of a whole run. */
    method All(pcs: seq<nat>)
      requires Valid() && Counted() && Standing(false) == START
      modifies this
      ensures Counted() && log == RunOf(image, pcs).log
    {
      var i, closed := 0, false;
      while i < |pcs| && !closed
        invariant 0 <= i <= |pcs| && Valid() && Counted()
        invariant Standing(closed) == RunOf(image, pcs[..i])
      {
        RunOn(image, pcs, i);
        closed := Step(pcs[i]);
        i := i + 1;
      }
      if closed {
        StaysClosed(image, pcs, i);
      } else {
        assert pcs[..i] == pcs;
      }
    }
  }

  lemma {:induction false} RunOn(image: Image, pcs: seq<nat>, i: nat)
    requires i < |pcs| && !RunOf(image, pcs[..i]).closed
    ensures RunOf(image, pcs[..i + 1]) == Next(image, RunOf(image, pcs[..i]), pcs[i])
  {
    assert pcs[..i + 1][..i] == pcs[..i];
  }

  lemma {:induction false} StaysClosed(image: Image, pcs: seq<nat>, i: nat)
    requires i <= |pcs| && RunOf(image, pcs[..i]).closed
    ensures RunOf(image, pcs) == RunOf(image, pcs[..i])
    decreases |pcs|
  {
    if i < |pcs| {
      var before := pcs[..|pcs| - 1];
      assert before[..i] == pcs[..i];
      StaysClosed(image, before, i);
    } else {
      assert pcs[..i] == pcs;
    }
  }

  lemma {:induction false} SameReturns(stack: seq<Frame>, path: seq<seq<Name>>, pc: nat)
    requires |path| == |stack|
    ensures Returns(CallsOf(stack, path), pc) <==> exists i :: 0 <= i < |stack| && stack[i].ret == pc
  {
    var calls := CallsOf(stack, path);
    if i :| 0 <= i < |stack| && stack[i].ret == pc {
      assert calls[i].ret == pc;
    }
  }

  lemma {:induction false} PushRets(returning: multiset<nat>, stack: seq<Frame>, f: Frame)
    requires Listed(returning, stack)
    ensures Listed(returning + multiset{f.ret}, stack + [f])
  {
    assert Look(0);
    assert Rets(stack + [f]) == Rets(stack) + [f.ret];
  }

  lemma {:induction false} PopRets(returning: multiset<nat>, stack: seq<Frame>)
    requires Listed(returning, stack) && stack != []
    ensures Listed(returning - multiset{stack[|stack| - 1].ret}, stack[..|stack| - 1])
  {
    assert Look(0);
    assert Rets(stack) == Rets(stack[..|stack| - 1]) + [stack[|stack| - 1].ret];
  }

  lemma {:induction false} TailRets(returning: multiset<nat>, stack: seq<Frame>, top: Frame)
    requires Listed(returning, stack) && stack != [] && top.ret == stack[|stack| - 1].ret
    ensures Listed(returning, stack[|stack| - 1 := top])
  {
    assert Look(0);
    assert Rets(stack[|stack| - 1 := top]) == Rets(stack);
  }

  /** An address that is counted is on the stack, and only such an address is counted. */
  lemma {:induction false} InStack(returning: multiset<nat>, stack: seq<Frame>, pc: nat)
    requires Listed(returning, stack)
    ensures pc in returning <==> exists i :: 0 <= i < |stack| && stack[i].ret == pc
  {
    assert Look(0);
    if pc in returning {
      assert pc in Rets(stack);
      var i :| 0 <= i < |stack| && Rets(stack)[i] == pc;
      assert stack[i].ret == pc;
    } else {
      forall i | 0 <= i < |stack| ensures stack[i].ret != pc { assert Rets(stack)[i] in multiset(Rets(stack)); }
    }
  }

  lemma {:induction false} FlatNext(path: seq<seq<Name>>, names: seq<Name>)
    ensures Flat(path + [names]) == Flat(path) + names
  {}

  lemma {:induction false} FlatGrows(path: seq<seq<Name>>, i: nat, j: nat)
    requires i <= j <= |path|
    ensures Flat(path[..i]) <= Flat(path[..j])
  {
    if i < j {
      FlatGrows(path, i, j - 1);
      assert path[..j][..j - 1] == path[..j - 1];
    }
  }

  /** Along a stack the stage is none up to one frame and the same from there on, and so is the part,
      which is only ever set under the signature. */
  lemma {:induction false} AlongTheStack(l: Labels, stack: seq<Frame>, path: seq<seq<Name>>, i: nat, j: nat)
    requires Placed(l, stack, path) && i <= j < |stack|
    ensures stack[i].place.stage.Some? ==> stack[j].place.stage == stack[i].place.stage
    ensures stack[i].place.part.Some? ==>
              stack[j].place.part == stack[i].place.part && stack[i].place.stage == Some(Sign)
  {
    assert Look(0);
    FlatGrows(path, i + 1, j + 1);
    var a, b := Flat(path[..i + 1]), Flat(path[..j + 1]);
    assert b == a + b[|a|..];
    FoldLaws(l, a, b[|a|..]);
  }

  lemma {:induction false} TopIsFold(l: Labels, stack: seq<Frame>, path: seq<seq<Name>>)
    requires Placed(l, stack, path)
    ensures TopPlace(stack) == Fold(l, Flat(path))
  {
    assert Look(0);
    if stack == [] {
      assert path == [] && Flat(path) == [];
    } else {
      assert path[..|stack|] == path;
      assert stack[|stack| - 1].place == Fold(l, Flat(path[..|stack| - 1 + 1]));
    }
  }

  lemma {:induction false} PushPlaced(l: Labels, stack: seq<Frame>, path: seq<seq<Name>>, name: Option<Name>, f: Frame)
    requires Placed(l, stack, path)
    requires f.place == if name.None? then TopPlace(stack) else Under(l, name.value, TopPlace(stack))
    ensures Placed(l, stack + [f], path + [if name.Some? then [name.value] else []])
  {
    assert Look(0);
    var names := if name.Some? then [name.value] else [];
    var s, p := stack + [f], path + [names];
    TopIsFold(l, stack, path);
    FlatNext(path, names);
    if name.Some? { FoldNext(l, Flat(path), name.value); } else { assert Flat(path) + [] == Flat(path); }
    forall i {:trigger s[i]} | 0 <= i < |s|
      ensures s[i].place == Fold(l, Flat(p[..i + 1]))
    {
      if i < |stack| {
        assert p[..i + 1] == path[..i + 1] && s[i] == stack[i];
      } else {
        assert p[..i + 1] == p;
      }
    }
  }

  lemma {:induction false} PopPlaced(l: Labels, stack: seq<Frame>, path: seq<seq<Name>>, n: nat)
    requires Placed(l, stack, path) && |path| == |stack| && n <= |stack|
    ensures Placed(l, stack[..n], path[..n])
  {
    assert Look(0);
    forall i {:trigger stack[..n][i]} | 0 <= i < n
      ensures stack[..n][i].place == Fold(l, Flat(path[..n][..i + 1]))
    {
      assert path[..n][..i + 1] == path[..i + 1] && stack[..n][i] == stack[i];
    }
  }

  lemma {:induction false} TailFlat(path: seq<seq<Name>>, name: Name)
    requires path != []
    ensures var last := |path| - 1; Flat(path[last := path[last] + [name]]) == Flat(path) + [name]
  {
    var last := |path| - 1;
    var before := path[..last];
    FlatNext(before, path[last]);
    FlatNext(before, path[last] + [name]);
    assert path == before + [path[last]] && path[last := path[last] + [name]] == before + [path[last] + [name]];
  }

  lemma {:induction false} TailFold(l: Labels, stack: seq<Frame>, path: seq<seq<Name>>, name: Name)
    requires Placed(l, stack, path) && |path| == |stack| && stack != []
    ensures var last := |stack| - 1;
            Fold(l, Flat(path[last := path[last] + [name]])) == Under(l, name, TopPlace(stack))
  {
    TopIsFold(l, stack, path);
    TailFlat(path, name);
    FoldNext(l, Flat(path), name);
  }

  lemma {:induction false} TailPlaced(l: Labels, stack: seq<Frame>, path: seq<seq<Name>>, name: Name, top: Frame)
    requires Placed(l, stack, path) && |path| == |stack| && stack != [] && top.place == Under(l, name, TopPlace(stack))
    ensures var last := |stack| - 1; Placed(l, stack[last := top], path[last := path[last] + [name]])
  {
    var last := |stack| - 1;
    var s, p := stack[last := top], path[last := path[last] + [name]];
    TailFold(l, stack, path, name);
    assert Look(0);
    forall i {:trigger s[i]} | 0 <= i < |s|
      ensures s[i].place == Fold(l, Flat(p[..i + 1]))
    {
      if i < last {
        assert p[..i + 1] == path[..i + 1] && s[i] == stack[i];
      } else {
        assert p[..i + 1] == p;
      }
    }
  }

  lemma {:induction false} TalliedNext(counts: map<Key, nat>, log: seq<Key>, k: Key)
    requires Tallied(counts, log)
    ensures Tallied(counts[k := Get(counts, k) + 1], log + [k])
  {
    assert Look(0);
    TallyNext(log, k);
    var next := counts[k := Get(counts, k) + 1];
    forall j {:trigger Get(next, j)}
      ensures Get(next, j) == Tally(log + [k], j)
    {
      assert Get(counts, j) == Tally(log, j);
    }
  }

  lemma {:induction false} TallyNext(log: seq<Key>, k: Key)
    ensures forall j {:trigger Tally(log + [k], j)} :: Tally(log + [k], j) == Tally(log, j) + if j == k then 1 else 0
  {}

  // The rows of finish, as sums of the counters.

  /** The wanted entries whose key is no longer left. */
  ghost function Done(log: seq<Key>, want: Key -> bool, left: set<Key>): nat {
    if log == [] then 0
    else
      var k := log[|log| - 1];
      Done(log[..|log| - 1], want, left) + One(want(k) && k !in left)
  }

  lemma {:induction false} DoneOne(log: seq<Key>, want: Key -> bool, left: set<Key>, k: Key)
    requires k in left
    ensures Done(log, want, left - {k}) == Done(log, want, left) + if want(k) then Tally(log, k) else 0
  {
    if log != [] { DoneOne(log[..|log| - 1], want, left, k); }
  }

  lemma {:induction false} DoneAll(log: seq<Key>, want: Key -> bool)
    ensures Done(log, want, {}) == CountIf(log, want)
  {
    if log != [] { DoneAll(log[..|log| - 1], want); }
  }

  lemma {:induction false} DoneNone(log: seq<Key>, want: Key -> bool, left: set<Key>)
    requires forall i :: 0 <= i < |log| ==> log[i] in left
    ensures Done(log, want, left) == 0
  {
    if log != [] { DoneNone(log[..|log| - 1], want, left); }
  }

  lemma {:induction false} TallyPositive(log: seq<Key>, i: nat)
    requires i < |log|
    ensures Tally(log, log[i]) > 0
  {
    if i < |log| - 1 { TallyPositive(log[..|log| - 1], i); }
  }

  lemma {:induction false} AllKeys(counts: map<Key, nat>, log: seq<Key>)
    requires Tallied(counts, log)
    ensures forall i :: 0 <= i < |log| ==> log[i] in counts
    ensures forall k :: k in counts ==> counts[k] == Tally(log, k)
  {
    assert Look(0);
    forall i | 0 <= i < |log|
      ensures log[i] in counts
    {
      TallyPositive(log, i);
      assert Get(counts, log[i]) == Tally(log, log[i]);
    }
    forall k | k in counts
      ensures counts[k] == Tally(log, k)
    {
      assert Get(counts, k) == Tally(log, k);
    }
  }

  /** A sum over the counters is a count of the instructions. */
  method SumWhere(counts: map<Key, nat>, want: Key -> bool, ghost log: seq<Key>) returns (n: nat)
    requires Tallied(counts, log)
    ensures n == CountIf(log, want)
  {
    AllKeys(counts, log);
    var left := counts.Keys;
    n := 0;
    DoneNone(log, want, left);
    while left != {}
      invariant left <= counts.Keys && n == Done(log, want, left)
      decreases |left|
    {
      var k :| k in left;
      DoneOne(log, want, left, k);
      n := n + if want(k) then counts[k] else 0;
      left := left - {k};
    }
    DoneAll(log, want);
  }

  function InStage(s: Stage): Key -> bool { (k: Key) => k.window == Handshake && k.place.stage == Some(s) }
  function InPart(p: Part): Key -> bool {
    (k: Key) => k.window == Handshake && k.place.stage.Some? && k.place.part == Some(p)
  }
  function InWindow(w: Window): Key -> bool { (k: Key) => k.window == w }

  /** Under no root, and under the signature but no part of it. */
  function Rootless(): Key -> bool { (k: Key) => k.window == Handshake && k.place.stage.None? }
  function SignOnly(): Key -> bool { (k: Key) => k.window == Handshake && k.place == Place(Some(Sign), None) }

  datatype Rows = Rows(keygen: nat, shared: nat, sign: nat, baseMul: nat, nonce: nat, signRest: int, schedule: nat,
                       transcript: nat, messages: int, handshake: nat, exchange: nat)

  /** The rows make up n instructions, and none is negative. */
  predicate AddsUp(r: Rows, n: nat) {
    && r.keygen + r.shared + r.sign + r.schedule + r.transcript + r.messages == r.handshake
    && r.baseMul + r.nonce + r.signRest == r.sign && r.messages >= 0 && r.signRest >= 0
    && r.handshake + r.exchange == n
  }

  /** Each row is the count of the instructions it names. */
  ghost predicate Reports(r: Rows, log: seq<Key>) {
    && r.keygen == CountIf(log, InStage(Keygen)) && r.shared == CountIf(log, InStage(Shared))
    && r.sign == CountIf(log, InStage(Sign)) && r.schedule == CountIf(log, InStage(Schedule))
    && r.transcript == CountIf(log, InStage(Transcript)) && r.messages == CountIf(log, Rootless())
    && r.baseMul == CountIf(log, InPart(BaseMul)) && r.nonce == CountIf(log, InPart(Nonce))
    && r.signRest == CountIf(log, SignOnly())
    && r.handshake == CountIf(log, InWindow(Handshake)) && r.exchange == CountIf(log, InWindow(Exchange))
  }

  /** finish: the two rests are differences. */
  method Finish(counts: map<Key, nat>, ghost log: seq<Key>) returns (r: Rows)
    requires Tallied(counts, log)
    requires forall i :: 0 <= i < |log| ==> log[i].place.part.Some? ==> log[i].place.stage == Some(Sign)
    ensures AddsUp(r, |log|) && Reports(r, log)
  {
    var handshake := SumWhere(counts, InWindow(Handshake), log);
    var exchange := SumWhere(counts, InWindow(Exchange), log);
    var keygen := SumWhere(counts, InStage(Keygen), log);
    var shared := SumWhere(counts, InStage(Shared), log);
    var sign := SumWhere(counts, InStage(Sign), log);
    var schedule := SumWhere(counts, InStage(Schedule), log);
    var transcript := SumWhere(counts, InStage(Transcript), log);
    var baseMul := SumWhere(counts, InPart(BaseMul), log);
    var nonce := SumWhere(counts, InPart(Nonce), log);
    StagesAddUp(log);
    PartsAddUp(log);
    r := Rows(keygen, shared, sign, baseMul, nonce, sign - baseMul - nonce, schedule, transcript,
              handshake - keygen - shared - sign - schedule - transcript, handshake, exchange);
  }

  /** Every instruction is in one window, and one of the handshake's in one stage or none. */
  lemma {:induction false} StagesAddUp(log: seq<Key>)
    ensures CountIf(log, InWindow(Handshake)) + CountIf(log, InWindow(Exchange)) == |log|
    ensures CountIf(log, InWindow(Handshake))
         == CountIf(log, InStage(Keygen)) + CountIf(log, InStage(Shared)) + CountIf(log, InStage(Sign))
            + CountIf(log, InStage(Schedule)) + CountIf(log, InStage(Transcript)) + CountIf(log, Rootless())
  {
    if log != [] {
      StagesAddUp(log[..|log| - 1]);
      OneStage(log[|log| - 1]);
    }
  }

  function One(b: bool): nat { if b then 1 else 0 }

  lemma OneStage(k: Key)
    ensures One(InWindow(Handshake)(k)) == One(InStage(Keygen)(k)) + One(InStage(Shared)(k)) + One(InStage(Sign)(k))
                                         + One(InStage(Schedule)(k)) + One(InStage(Transcript)(k)) + One(Rootless()(k))
    ensures One(InWindow(Handshake)(k)) + One(InWindow(Exchange)(k)) == 1
  {
    match k.place.stage
    case None =>
    case Some(Keygen) =>
    case Some(Shared) =>
    case Some(Sign) =>
    case Some(Schedule) =>
    case Some(Transcript) =>
  }

  lemma OnePart(k: Key)
    requires k.place.part.Some? ==> k.place.stage == Some(Sign)
    ensures One(InStage(Sign)(k)) == One(InPart(BaseMul)(k)) + One(InPart(Nonce)(k)) + One(SignOnly()(k))
  {
    match k.place.part
    case None =>
    case Some(BaseMul) =>
    case Some(Nonce) =>
  }

  lemma {:induction false} PartsAddUp(log: seq<Key>)
    requires forall i :: 0 <= i < |log| ==> log[i].place.part.Some? ==> log[i].place.stage == Some(Sign)
    ensures CountIf(log, InStage(Sign))
         == CountIf(log, InPart(BaseMul)) + CountIf(log, InPart(Nonce)) + CountIf(log, SignOnly())
  {
    if log != [] {
      PartsAddUp(log[..|log| - 1]);
      OnePart(log[|log| - 1]);
    }
  }

  /** A part is only ever counted under the signature. */
  lemma {:induction false} PartsUnderSign(image: Image, pcs: seq<nat>, i: nat)
    requires i < |RunOf(image, pcs).log|
    ensures var k := RunOf(image, pcs).log[i]; k.place.part.Some? ==> k.place.stage == Some(Sign)
  {
    if pcs != [] {
      var before := RunOf(image, pcs[..|pcs| - 1]);
      if i < |before.log| { PartsUnderSign(image, pcs[..|pcs| - 1], i); }
    }
  }

  predicate IsClose(image: Image, pc: nat) { pc == image.closePc && pc != image.handshakePc }

  /** The first close marker is instruction n, or there is none and n is their number. */
  ghost predicate ClosesAt(image: Image, pcs: seq<nat>, n: nat) {
    && n <= |pcs| && (forall i :: 0 <= i < n ==> !IsClose(image, pcs[i]))
    && (n < |pcs| ==> IsClose(image, pcs[n]))
  }

  ghost function FirstClose(image: Image, pcs: seq<nat>): (n: nat)
    ensures ClosesAt(image, pcs, n)
  {
    if pcs == [] then 0
    else
      var last := |pcs| - 1;
      var n := FirstClose(image, pcs[..last]);
      if n < last || IsClose(image, pcs[last]) then n else |pcs|
  }

  lemma {:induction false} CountsEach(image: Image, pcs: seq<nat>)
    requires forall i :: 0 <= i < |pcs| ==> !IsClose(image, pcs[i])
    ensures !RunOf(image, pcs).closed && |RunOf(image, pcs).log| == |pcs|
  {
    if pcs != [] { CountsEach(image, pcs[..|pcs| - 1]); }
  }

  /** Every instruction before the close marker counts once, and none after it. */
  lemma {:induction false} CountsAll(image: Image, pcs: seq<nat>, n: nat)
    requires ClosesAt(image, pcs, n)
    ensures |RunOf(image, pcs).log| == n
  {
    CountsEach(image, pcs[..n]);
    if n < |pcs| {
      assert pcs[..n + 1][..n] == pcs[..n];
      StaysClosed(image, pcs, n + 1);
    } else {
      assert pcs[..n] == pcs;
    }
  }

  /** trace and finish together: for every image and stream the rows add up to the instructions before the close
      marker, each row counts the instructions whose calls put them there, and none is negative. */
  method Stages(image: Image, pcs: seq<nat>) returns (r: Rows)
    ensures AddsUp(r, FirstClose(image, pcs)) && Reports(r, RunOf(image, pcs).log)
  {
    var machine := new Machine(image);
    machine.All(pcs);
    forall i | 0 <= i < |machine.log|
      ensures machine.log[i].place.part.Some? ==> machine.log[i].place.stage == Some(Sign)
    {
      PartsUnderSign(image, pcs, i);
    }
    r := Finish(machine.counts, machine.log);
    CountsAll(image, pcs, FirstClose(image, pcs));
  }
}
