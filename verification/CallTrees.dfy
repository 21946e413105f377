/** What bench/handshake_stages.py:207-278 is for: a run given as nested calls, without a stack, has each of its
    instructions attributed to the functions it runs under. */
module CallTrees {
  import opened Common
  import opened Trace

  /** The instructions of one function's activation in order. Each has its address and, if it calls, the activation it
      calls, which comes back to the instruction behind it. */
  datatype Walk = End | Step(pc: nat, callee: Walk, rest: Walk)

  /** How an instruction is reached: as the first of a call, by a return, or from the instruction before it. */
  datatype Mode = Entered(ret: nat) | Landed(ret: nat) | Walked

  /** The addresses the open calls return to, with this activation's own. */
  function Own(mode: Mode, rets: seq<nat>): seq<nat> { if mode.Entered? then rets + [mode.ret] else rets }

  /** A branch to the first instruction of a root, inside some call. */
  predicate Jumps(image: Image, pc: nat, mode: Mode, rets: seq<nat>) {
    mode.Walked? && pc in image.entries && rets != []
  }

  /** The activation is one of this image: it calls exactly at the call sites, comes back from each call to the address
      behind it, and reaches an address that an open call returns to only by that return. */
  ghost predicate Runs(image: Image, w: Walk, mode: Mode, rets: seq<nat>)
    decreases w
  {
    match w
    case End => mode.Walked?
    case Step(pc, callee, rest) =>
      && (mode.Landed? ==> pc == mode.ret) && (mode.Walked? ==> pc !in rets) && !IsClose(image, pc)
      && (callee != End <==> pc in image.calls)
      && (callee != End ==> rest != End && Runs(image, callee, Entered(pc + 4), Own(mode, rets)))
      && Runs(image, rest, Behind(pc, callee), Own(mode, rets))
  }

  /** Its addresses, with those of its calls in place. */
  ghost function Pcs(w: Walk): seq<nat> {
    if w.End? then [] else [w.pc] + Pcs(w.callee) + Pcs(w.rest)
  }

  /** The names an instruction adds to those above it: the callee's at the first of a call, a root's where a branch
      goes to it. */
  ghost function Adds(image: Image, pc: nat, mode: Mode, rets: seq<nat>): seq<Name> {
    if mode.Entered? then NamesOf(image, pc) else if Jumps(image, pc, mode, rets) then [image.entries[pc]] else []
  }

  /** The names each instruction runs under, from the outermost call in. */
  ghost function Under(image: Image, w: Walk, mode: Mode, rets: seq<nat>, names: seq<Name>): seq<seq<Name>>
    decreases w
  {
    if w.End? then []
    else
      var own, now := Own(mode, rets), names + Adds(image, w.pc, mode, rets);
      [now] + Under(image, w.callee, Entered(w.pc + 4), own, now)
        + Under(image, w.rest, Behind(w.pc, w.callee), own, now)
  }

  /** A run from any point on. */
  ghost function RunFrom(image: Image, r: Run, pcs: seq<nat>): Run
    decreases |pcs|
  {
    if pcs == [] then r else RunFrom(image, Next(image, r, pcs[0]), pcs[1..])
  }

  lemma {:induction false} RunJoins(image: Image, r: Run, p: seq<nat>, q: seq<nat>)
    ensures RunFrom(image, r, p + q) == RunFrom(image, RunFrom(image, r, p), q)
    decreases |p|
  {
    if p == [] {
      assert p + q == q;
    } else {
      assert (p + q)[1..] == p[1..] + q;
      RunJoins(image, Next(image, r, p[0]), p[1..], q);
    }
  }

  /** Without a close marker it is the run of the whole. */
  lemma {:induction false} RunIsFrom(image: Image, pcs: seq<nat>)
    requires forall i :: 0 <= i < |pcs| ==> !IsClose(image, pcs[i])
    ensures RunOf(image, pcs) == RunFrom(image, START, pcs)
  {
    if pcs != [] {
      var before, last := pcs[..|pcs| - 1], pcs[|pcs| - 1];
      RunIsFrom(image, before);
      CountsEach(image, before);
      RunJoins(image, START, before, [last]);
      assert before + [last] == pcs;
      assert RunFrom(image, RunFrom(image, START, before), [last]) == Next(image, RunFrom(image, START, before), last);
    }
  }

  ghost function RetsOf(calls: seq<Call>): seq<nat> { seq(|calls|, i requires 0 <= i < |calls| => calls[i].ret) }

  /** The open calls outside an activation are d: they are all of them before its call or inside it, and one more, the
      one that ends, before a return. */
  ghost predicate Stands(r: Run, mode: Mode, d: seq<Call>) {
    match mode
    case Entered(ret) => r.calls == d && r.pending == Some(ret)
    case Landed(ret) => |r.calls| == |d| + 1 && r.calls[..|d|] == d && r.calls[|d|].ret == ret && r.pending.None?
    case Walked => r.calls == d && r.pending.None?
  }

  /** The open calls once an instruction runs. */
  ghost function Opened(image: Image, d: seq<Call>, pc: nat, mode: Mode): seq<Call> {
    if mode.Entered? then d + [Call(mode.ret, NamesOf(image, pc))]
    else if Jumps(image, pc, mode, RetsOf(d)) then
      d[|d| - 1 := Call(d[|d| - 1].ret, d[|d| - 1].names + [image.entries[pc]])]
    else d
  }

  /** The machine's calls follow: a call opens one, a return closes exactly that one, a branch to a root adds its name
      to the last, and any other instruction leaves them alone. */
  lemma {:induction false} FollowsIs(image: Image, r: Run, mode: Mode, d: seq<Call>, pc: nat)
    requires Stands(r, mode, d) && (mode.Landed? ==> pc == mode.ret) && (mode.Walked? ==> pc !in RetsOf(d))
    ensures Follows(image, r.calls, r.pending, pc) == Opened(image, d, pc, mode)
  {
    if mode.Landed? {
      assert r.calls[|d|].ret == pc;
      assert Innermost(r.calls, pc) == |d|;
    } else if mode.Walked? {
      forall i | 0 <= i < |d|
        ensures d[i].ret != pc
      {
        assert RetsOf(d)[i] == d[i].ret;
      }
    }
  }

  lemma {:induction false} OpenedNames(image: Image, d: seq<Call>, pc: nat, mode: Mode)
    ensures AllNames(Opened(image, d, pc, mode)) == AllNames(d) + Adds(image, pc, mode, RetsOf(d))
    ensures RetsOf(Opened(image, d, pc, mode)) == Own(mode, RetsOf(d))
  {
    var o := Opened(image, d, pc, mode);
    if mode.Entered? {
      assert o[..|d|] == d;
    } else if Jumps(image, pc, mode, RetsOf(d)) {
      assert o[..|d| - 1] == d[..|d| - 1];
      assert AllNames(o) == AllNames(d[..|d| - 1]) + (d[|d| - 1].names + [image.entries[pc]]);
    }
  }

  /** d again, with at most more names at its last call. */
  ghost predicate Kept(calls: seq<Call>, d: seq<Call>) {
    |calls| == |d| && (d != [] ==> calls[..|d| - 1] == d[..|d| - 1] && calls[|d| - 1].ret == d[|d| - 1].ret)
  }

  /** What an activation's instructions add to a log. */
  ghost predicate Attributes(image: Image, before: seq<Key>, after: seq<Key>, under: seq<seq<Name>>) {
    && |after| == |before| + |under| && after[..|before|] == before
    && forall i {:trigger under[i]} :: 0 <= i < |under| ==> after[|before| + i].place == PlaceOf(image.labels, under[i])
  }

  lemma AttributesJoin(image: Image, a: seq<Key>, b: seq<Key>, c: seq<Key>, u: seq<seq<Name>>, v: seq<seq<Name>>)
    requires Attributes(image, a, b, u) && Attributes(image, b, c, v)
    ensures Attributes(image, a, c, u + v)
  {
    assert c[..|a|] == c[..|b|][..|a|];
    forall i {:trigger (u + v)[i]} | 0 <= i < |u + v|
      ensures c[|a| + i].place == PlaceOf(image.labels, (u + v)[i])
    {
      if i < |u| {
        assert c[|a| + i] == c[..|b|][|a| + i] && u[i] == (u + v)[i];
      } else {
        assert v[i - |u|] == (u + v)[i];
      }
    }
  }

  /** One instruction. */
  lemma {:induction false} OneStep(image: Image, r: Run, pc: nat, mode: Mode, d: seq<Call>) returns (q: Run)
    requires Stands(r, mode, d) && (mode.Landed? ==> pc == mode.ret) && (mode.Walked? ==> pc !in RetsOf(d))
    requires !IsClose(image, pc)
    ensures q == Next(image, r, pc) && q.calls == Opened(image, d, pc, mode)
    ensures q.pending == if pc in image.calls then Some(pc + 4) else None
    ensures Attributes(image, r.log, q.log, [AllNames(d) + Adds(image, pc, mode, RetsOf(d))])
  {
    q := Next(image, r, pc);
    FollowsIs(image, r, mode, d, pc);
    OpenedNames(image, d, pc, mode);
  }

  /** An activation takes r to q: the calls outside it stay, and every instruction of it and its calls is logged under
      the names on its own path. */
  ghost predicate Carries(image: Image, r: Run, q: Run, w: Walk, mode: Mode, d: seq<Call>) {
    && q == RunFrom(image, r, Pcs(w)) && q.pending.None? && Leaves(q.calls, mode, d)
    && Attributes(image, r.log, q.log, Under(image, w, mode, RetsOf(d), AllNames(d)))
  }

  /** How the rest of an activation is reached, behind an instruction and what it calls. */
  function Behind(pc: nat, callee: Walk): Mode { if callee != End then Landed(pc + 4) else Walked }

  lemma {:induction false} UnderParts(image: Image, w: Walk, mode: Mode, d: seq<Call>, own: seq<Call>)
    requires w.Step? && RetsOf(own) == Own(mode, RetsOf(d))
    requires AllNames(own) == AllNames(d) + Adds(image, w.pc, mode, RetsOf(d))
    ensures Under(image, w, mode, RetsOf(d), AllNames(d))
         == [AllNames(own)] + Under(image, w.callee, Entered(w.pc + 4), RetsOf(own), AllNames(own))
            + Under(image, w.rest, Behind(w.pc, w.callee), RetsOf(own), AllNames(own))
  {}

  lemma ThreeParts(image: Image, a: seq<Key>, b: seq<Key>, c: seq<Key>, d: seq<Key>,
                   u: seq<seq<Name>>, v: seq<seq<Name>>, x: seq<seq<Name>>)
    requires Attributes(image, a, b, u) && Attributes(image, b, c, v) && Attributes(image, c, d, x)
    ensures Attributes(image, a, d, u + v + x)
  {
    AttributesJoin(image, a, b, c, u, v);
    AttributesJoin(image, a, c, d, u + v, x);
  }

  lemma {:induction false} Attribution(image: Image, r: Run, w: Walk, mode: Mode, d: seq<Call>) returns (e: Run)
    requires Stands(r, mode, d) && Runs(image, w, mode, RetsOf(d))
    ensures Carries(image, r, e, w, mode, d)
    decreases w
  {
    if w.End? {
      e := r;
    } else {
      var own := Opened(image, d, w.pc, mode);
      var q := OneStep(image, r, w.pc, mode, d);
      OpenedNames(image, d, w.pc, mode);
      var s := q;
      if w.callee != End {
        s := Attribution(image, q, w.callee, Entered(w.pc + 4), own);
      }
      e := Attribution(image, s, w.rest, Behind(w.pc, w.callee), own);
      ThreeParts(image, r.log, q.log, s.log, e.log, [AllNames(own)],
                 Under(image, w.callee, Entered(w.pc + 4), RetsOf(own), AllNames(own)),
                 Under(image, w.rest, Behind(w.pc, w.callee), RetsOf(own), AllNames(own)));
      UnderParts(image, w, mode, d, own);
      RunInParts(image, r, w);
      LeavesOn(image, e.calls, mode, d, w.pc);
    }
  }

  /** The calls behind an activation: those outside it, and itself when it was called. */
  ghost predicate Leaves(calls: seq<Call>, mode: Mode, d: seq<Call>) {
    if mode.Entered? then |calls| == |d| + 1 && calls[..|d|] == d && calls[|d|].ret == mode.ret else Kept(calls, d)
  }

  lemma LeavesOn(image: Image, calls: seq<Call>, mode: Mode, d: seq<Call>, pc: nat)
    requires Kept(calls, Opened(image, d, pc, mode))
    ensures Leaves(calls, mode, d)
  {
    var own := Opened(image, d, pc, mode);
    if mode.Entered? { assert own[..|d|] == d; }
  }

  lemma {:induction false} RunInParts(image: Image, r: Run, w: Walk)
    requires w.Step?
    ensures RunFrom(image, r, Pcs(w))
         == RunFrom(image, RunFrom(image, Next(image, r, w.pc), Pcs(w.callee)), Pcs(w.rest))
  {
    RunJoins(image, r, [w.pc] + Pcs(w.callee), Pcs(w.rest));
    RunJoins(image, r, [w.pc], Pcs(w.callee));
    assert RunFrom(image, r, [w.pc]) == RunFrom(image, Next(image, r, w.pc), []);
  }

  lemma {:induction false} NoClose(image: Image, w: Walk, mode: Mode, rets: seq<nat>)
    requires Runs(image, w, mode, rets)
    ensures forall i :: 0 <= i < |Pcs(w)| ==> !IsClose(image, Pcs(w)[i])
    decreases w
  {
    if w.Step? {
      if w.callee != End { NoClose(image, w.callee, Entered(w.pc + 4), Own(mode, rets)); }
      NoClose(image, w.rest, Behind(w.pc, w.callee), Own(mode, rets));
    }
  }

  /** For every run given as nested calls each instruction is counted at the place of the names on its own path. */
  lemma {:induction false} EachUnderItsCalls(image: Image, w: Walk)
    requires Runs(image, w, Walked, [])
    ensures Attributes(image, [], RunOf(image, Pcs(w)).log, Under(image, w, Walked, [], []))
  {
    NoClose(image, w, Walked, []);
    RunIsFrom(image, Pcs(w));
    var e := Attribution(image, START, w, Walked, []);
  }

  /** Instructions that come later change nothing that was counted. */
  lemma {:induction false} LogGrows(image: Image, pcs: seq<nat>, n: nat)
    requires n <= |pcs|
    ensures RunOf(image, pcs[..n]).log <= RunOf(image, pcs).log
    decreases |pcs|
  {
    if n < |pcs| {
      var before := pcs[..|pcs| - 1];
      LogGrows(image, before, n);
      assert before[..n] == pcs[..n];
    } else {
      assert pcs[..n] == pcs;
    }
  }

  /** The window of an instruction is the exchange exactly from the handshake's marker on. */
  lemma {:induction false} WindowIs(image: Image, pcs: seq<nat>)
    requires forall i :: 0 <= i < |pcs| ==> !IsClose(image, pcs[i])
    ensures RunOf(image, pcs).window == if image.handshakePc in pcs then Exchange else Handshake
    ensures pcs != [] ==> RunOf(image, pcs).log != [] &&
                          RunOf(image, pcs).log[|RunOf(image, pcs).log| - 1].window == RunOf(image, pcs).window
  {
    if pcs != [] {
      var before, last := pcs[..|pcs| - 1], |pcs| - 1;
      WindowIs(image, before);
      CountsEach(image, before);
      assert pcs == before + [pcs[last]];
    }
  }
}
