/** The stack walk of bench/stack.py:299-384: the deepest call path of a graph, cycles and all, the
    functions a walk counts no frame for, and the merging and pruning of the graph. */
module CallGraph {
  import opened Common

  type Name = string

  /** frames[f] is f's own bytes, edges[f][c] the bytes the largest call from f to c pushes. */
  datatype Graph = Graph(frames: map<Name, nat>, edges: map<Name, map<Name, nat>>)

  function Callees(g: Graph, f: Name): map<Name, nat> { if f in g.edges then g.edges[f] else map[] }

  /** A call the walk follows: to a function with a frame. */
  predicate Calls(g: Graph, f: Name, c: Name) { f in g.edges && c in g.edges[f] && c in g.frames }

  /** A call it does not: to a function no object defines. */
  predicate Lacks(g: Graph, f: Name, c: Name) { f in g.edges && c in g.edges[f] && c !in g.frames }

  function Frame(g: Graph, f: Name): nat { if f in g.frames then g.frames[f] else 0 }

  /** The order sorted gives a function's callees: each of them, whatever the order. */
  type Order = Name -> seq<Name>

  ghost predicate Orders(g: Graph, order: Order) {
    forall f {:trigger order(f)} :: forall c :: c in order(f) <==> c in Callees(g, f)
  }

  /** What is left to visit shrinks with every function that has a frame. */
  lemma {:induction false} Marked(all: set<Name>, seen: set<Name>, f: Name)
    requires f !in seen
    ensures if f in all then all - (seen + {f}) < all - seen else all - (seen + {f}) == all - seen
  {}

  /** deepest, as a function: the depth below f and the path that sets it. */
  function Deepest(g: Graph, order: Order, f: Name, seen: set<Name>): (nat, seq<Name>)
    requires Orders(g, order)
    decreases g.frames.Keys - seen, f !in g.frames, |order(f)| + 1
  {
    if f in seen then (0, [])
    else
      var (best, path) := Best(g, order, f, seen, |order(f)|);
      (Frame(g, f) + best, [f] + path)
  }

  /** The best of f's first k callees. */
  function Best(g: Graph, order: Order, f: Name, seen: set<Name>, k: nat): (nat, seq<Name>)
    requires Orders(g, order) && f !in seen && k <= |order(f)|
    decreases g.frames.Keys - seen, f !in g.frames, k
  {
    if k == 0 then (0, [])
    else
      var (best, path) := Best(g, order, f, seen, k - 1);
      var c := order(f)[k - 1];
      if c !in g.frames then (best, path)
      else
        Marked(g.frames.Keys, seen, f);
        var (d, p) := Deepest(g, order, c, seen + {f});
        var pushed := Callees(g, f)[c];
        if pushed + d > best then (pushed + d, p) else (best, path)
  }

  /** What the call from f to c offers. */
  ghost function Through(g: Graph, order: Order, f: Name, seen: set<Name>, c: Name): (nat, seq<Name>)
    requires Orders(g, order) && f !in seen && Calls(g, f, c)
  {
    (Callees(g, f)[c] + Deepest(g, order, c, seen + {f}).0, Deepest(g, order, c, seen + {f}).1)
  }

  lemma {:induction false} BestNext(g: Graph, order: Order, f: Name, seen: set<Name>, k: nat)
    requires Orders(g, order) && f !in seen && k < |order(f)|
    ensures order(f)[k] in Callees(g, f)
    ensures Best(g, order, f, seen, k + 1) ==
            if Calls(g, f, order(f)[k]) && Through(g, order, f, seen, order(f)[k]).0 > Best(g, order, f, seen, k).0
            then Through(g, order, f, seen, order(f)[k])
            else Best(g, order, f, seen, k)
  {}

  /** deepest, with its loop. */
  method DeepestOf(g: Graph, order: Order, f: Name, seen: set<Name>) returns (depth: nat, path: seq<Name>)
    requires Orders(g, order)
    ensures depth == Deepest(g, order, f, seen).0 && path == Deepest(g, order, f, seen).1
    decreases g.frames.Keys - seen, f !in g.frames
  {
    if f in seen {
      return 0, [];
    }
    depth, path := 0, [];
    for k := 0 to |order(f)|
      invariant depth == Best(g, order, f, seen, k).0 && path == Best(g, order, f, seen, k).1
    {
      var c := order(f)[k];
      BestNext(g, order, f, seen, k);
      if c in g.frames {
        Marked(g.frames.Keys, seen, f);
        var d, p := DeepestOf(g, order, c, seen + {f});
        if Callees(g, f)[c] + d > depth {
          depth, path := Callees(g, f)[c] + d, p;
        }
      }
    }
    return Frame(g, f) + depth, [f] + path;
  }

  ghost predicate IsPath(g: Graph, p: seq<Name>) {
    p != [] && forall i {:trigger p[i]} :: 0 <= i < |p| - 1 ==> Calls(g, p[i], p[i + 1])
  }

  /** The bytes of a path: its frames, and what its calls push. */
  ghost function Weight(g: Graph, p: seq<Name>): nat
    requires IsPath(g, p)
  {
    var own := if p[0] in g.frames then g.frames[p[0]] else 0;
    if |p| == 1 then own
    else
      PathTail(g, p);
      own + g.edges[p[0]][p[1]] + Weight(g, p[1..])
  }

  lemma {:induction false} PathTail(g: Graph, p: seq<Name>)
    requires IsPath(g, p) && |p| > 1
    ensures IsPath(g, p[1..]) && Calls(g, p[0], p[1])
  {}

  /** A walk avoiding seen: a path that meets no function twice, and at most one more call, back to a
      function the walk has seen. */
  ghost predicate IsWalk(g: Graph, f: Name, seen: set<Name>, p: seq<Name>, back: Option<Name>) {
    && IsPath(g, p) && p[0] == f && Distinct(p)
    && (forall i :: 0 <= i < |p| ==> p[i] !in seen)
    && (back.Some? ==> Calls(g, p[|p| - 1], back.value) && (back.value in seen || back.value in p))
  }

  ghost function WalkWeight(g: Graph, p: seq<Name>, back: Option<Name>): nat
    requires IsPath(g, p) && (back.Some? ==> Calls(g, p[|p| - 1], back.value))
  {
    Weight(g, p) + if back.Some? then g.edges[p[|p| - 1]][back.value] else 0
  }

  lemma {:induction false} BestAtLeast(g: Graph, order: Order, f: Name, seen: set<Name>, k: nat, j: nat)
    requires Orders(g, order) && f !in seen && j < k <= |order(f)| && order(f)[j] in g.frames
    ensures order(f)[j] in Callees(g, f)
    ensures Best(g, order, f, seen, k).0 >= Callees(g, f)[order(f)[j]] + Deepest(g, order, order(f)[j], seen + {f}).0
  {
    assert order(f)[j] in order(f);
    if j < k - 1 {
      BestAtLeast(g, order, f, seen, k - 1, j);
      assert order(f)[k - 1] in order(f);
    }
  }

  lemma {:induction false} CallAtLeast(g: Graph, order: Order, f: Name, seen: set<Name>, c: Name)
    requires Orders(g, order) && f !in seen && Calls(g, f, c)
    ensures Deepest(g, order, f, seen).0 >= Frame(g, f) + Callees(g, f)[c] + Deepest(g, order, c, seen + {f}).0
  {
    assert c in order(f);
    var j :| 0 <= j < |order(f)| && order(f)[j] == c;
    BestAtLeast(g, order, f, seen, |order(f)|, j);
  }

  /** deepest dominates every walk, and so every path that meets no function twice. */
  lemma {:induction false} Dominates(g: Graph, order: Order, f: Name, seen: set<Name>, p: seq<Name>, back: Option<Name>)
    requires Orders(g, order) && IsWalk(g, f, seen, p, back)
    ensures WalkWeight(g, p, back) <= Deepest(g, order, f, seen).0
    decreases |p|
  {
    if |p| == 1 {
      assert p[0] !in seen;
      if back.Some? { CallAtLeast(g, order, f, seen, back.value); }
    } else {
      PathTail(g, p);
      var q := p[1..];
      WalkTail(g, f, seen, p, back);
      Dominates(g, order, p[1], seen + {f}, q, back);
      CallAtLeast(g, order, f, seen, p[1]);
    }
  }

  lemma {:induction false} WalkTail(g: Graph, f: Name, seen: set<Name>, p: seq<Name>, back: Option<Name>)
    requires IsWalk(g, f, seen, p, back) && |p| > 1
    ensures IsWalk(g, p[1], seen + {f}, p[1..], back) && f !in seen
    ensures p[1..][|p| - 2] == p[|p| - 1]
  {}

  /** The first k callees give nothing, or one of them gives the best. */
  lemma {:induction false} BestFrom(g: Graph, order: Order, f: Name, seen: set<Name>, k: nat)
    returns (from: Option<Name>)
    requires Orders(g, order) && f !in seen && k <= |order(f)|
    ensures from.None? ==> Best(g, order, f, seen, k) == (0, [])
    ensures from.Some? ==> Calls(g, f, from.value)
    ensures from.Some? ==> Best(g, order, f, seen, k) == Through(g, order, f, seen, from.value)
  {
    if k == 0 { return None; }
    from := BestFrom(g, order, f, seen, k - 1);
    var c := order(f)[k - 1];
    assert c in order(f);
    if c in g.frames && Through(g, order, f, seen, c).0 > Best(g, order, f, seen, k - 1).0 { return Some(c); }
  }

  /** deepest is exact: the path it returns, with at most one call back, weighs what it reports. */
  lemma {:induction false} Attained(g: Graph, order: Order, f: Name, seen: set<Name>) returns (back: Option<Name>)
    requires Orders(g, order) && f !in seen
    ensures IsWalk(g, f, seen, Deepest(g, order, f, seen).1, back)
    ensures WalkWeight(g, Deepest(g, order, f, seen).1, back) == Deepest(g, order, f, seen).0
    decreases g.frames.Keys - seen, f !in g.frames
  {
    var from := BestFrom(g, order, f, seen, |order(f)|);
    if from.None? {
      assert [f] + [] == [f];
      return None;
    }
    var c := from.value;
    if c in seen + {f} {
      assert [f] + [] == [f];
      return from;
    }
    Marked(g.frames.Keys, seen, f);
    back := Attained(g, order, c, seen + {f});
    var q := Deepest(g, order, c, seen + {f}).1;
    assert Deepest(g, order, f, seen).1 == [f] + q;
    WalkFront(g, f, seen, q, back);
  }

  lemma {:induction false} WalkFront(g: Graph, f: Name, seen: set<Name>, q: seq<Name>, back: Option<Name>)
    requires q != [] && Calls(g, f, q[0]) && f !in seen && IsWalk(g, q[0], seen + {f}, q, back)
    ensures IsWalk(g, f, seen, [f] + q, back)
    ensures WalkWeight(g, [f] + q, back) == Frame(g, f) + Callees(g, f)[q[0]] + WalkWeight(g, q, back)
  {}

  /** A graph with no cycle: what the cycle guard expects. */
  ghost predicate Acyclic(g: Graph) {
    forall p {:trigger IsPath(g, p)} :: IsPath(g, p) && |p| > 1 ==> p[0] != p[|p| - 1]
  }

  lemma {:induction false} Between(g: Graph, p: seq<Name>, i: nat, j: nat)
    requires IsPath(g, p) && i < j <= |p|
    ensures IsPath(g, p[i..j])
  {}

  lemma {:induction false} Apart(g: Graph, p: seq<Name>, i: nat, j: nat)
    requires Acyclic(g) && IsPath(g, p) && i < j < |p|
    ensures p[i] != p[j]
  {
    Between(g, p, i, j + 1);
    var q := p[i..j + 1];
    assert q[0] == p[i] && q[|q| - 1] == p[j];
  }

  lemma {:induction false} AcyclicPaths(g: Graph, p: seq<Name>)
    requires Acyclic(g) && IsPath(g, p)
    ensures Distinct(p)
  {
    forall i: nat, j: nat | i < j < |p|
      ensures p[i] != p[j]
    {
      Apart(g, p, i, j);
    }
  }

  lemma {:induction false} PathOn(g: Graph, p: seq<Name>, c: Name)
    requires IsPath(g, p) && Calls(g, p[|p| - 1], c)
    ensures IsPath(g, p + [c])
  {}

  lemma {:induction false} NoCallBack(g: Graph, p: seq<Name>, c: Name)
    requires Acyclic(g) && IsPath(g, p) && Calls(g, p[|p| - 1], c)
    ensures c !in p
  {
    PathOn(g, p, c);
    var q := p + [c];
    forall i: nat | i < |p|
      ensures p[i] != c
    {
      Apart(g, q, i, |p|);
    }
  }

  /** On a graph with no cycle deepest is the longest path: it weighs what it reports, and no call path
      from f, of any kind, weighs more. */
  lemma {:induction false} DeepestIsLongest(g: Graph, order: Order, f: Name, p: seq<Name>)
    requires Orders(g, order) && Acyclic(g) && IsPath(g, p) && p[0] == f
    ensures var (depth, path) := Deepest(g, order, f, {});
            IsPath(g, path) && path[0] == f && Weight(g, path) == depth && Weight(g, p) <= depth
  {
    AcyclicPaths(g, p);
    Dominates(g, order, f, {}, p, None);
    var back := Attained(g, order, f, {});
    if back.Some? { NoCallBack(g, Deepest(g, order, f, {}).1, back.value); }
  }

  /** With a cycle the guard can count a call it does not follow: one function that calls itself. */
  lemma {:induction false} GuardCounts(order: Order, f: Name, frame: nat, pushed: nat)
    requires pushed > 0 && Orders(Graph(map[f := frame], map[f := map[f := pushed]]), order)
    ensures Deepest(Graph(map[f := frame], map[f := map[f := pushed]]), order, f, {}) == (frame + pushed, [f])
  {
    var g := Graph(map[f := frame], map[f := map[f := pushed]]);
    assert f in Callees(g, f);
    var from := BestFrom(g, order, f, {}, |order(f)|);
    CallAtLeast(g, order, f, {}, f);
    assert [f] + [] == [f];
  }

  function Elements(names: seq<Name>): set<Name> { set n | n in names }

  /** Functions a walk from entries comes to. */
  ghost predicate Reached(g: Graph, entries: seq<Name>, f: Name) {
    exists p :: IsPath(g, p) && p[0] in entries && p[|p| - 1] == f
  }

  /** A function some reached function calls and no object defines. */
  ghost predicate Missing(g: Graph, entries: seq<Name>, c: Name) {
    exists f :: Reached(g, entries, f) && Lacks(g, f, c)
  }

  lemma {:induction false} ReachedEntry(g: Graph, entries: seq<Name>, e: Name)
    requires e in entries
    ensures Reached(g, entries, e)
  {
    assert IsPath(g, [e]);
  }

  lemma {:induction false} ReachedNext(g: Graph, entries: seq<Name>, f: Name, c: Name)
    requires Reached(g, entries, f) && Calls(g, f, c)
    ensures Reached(g, entries, c)
  {
    var p :| IsPath(g, p) && p[0] in entries && p[|p| - 1] == f;
    PathOn(g, p, c);
    var q := p + [c];
    assert q[0] == p[0] && q[|q| - 1] == c;
  }

  /** A set that holds the entries and every call out of it holds every function reached. */
  lemma {:induction false} ClosedHolds(g: Graph, entries: seq<Name>, seen: set<Name>, p: seq<Name>, i: nat)
    requires forall e :: e in entries ==> e in seen
    requires forall f, c :: f in seen && Calls(g, f, c) ==> c in seen
    requires IsPath(g, p) && p[0] in entries && i < |p|
    ensures p[i] in seen
  {
    if i > 0 {
      ClosedHolds(g, entries, seen, p, i - 1);
      assert Calls(g, p[i - 1], p[i - 1 + 1]);
    }
  }

  /** The inner loop of uncounted: one function's callees, to the list or to the result. */
  method PushCallees(g: Graph, order: Order, f: Name, todo: seq<Name>, out: set<Name>)
    returns (more: seq<Name>, found: set<Name>)
    requires Orders(g, order)
    ensures forall c :: c in more <==> c in todo || Calls(g, f, c)
    ensures forall c :: c in found <==> c in out || Lacks(g, f, c)
  {
    more, found := todo, out;
    for k := 0 to |order(f)|
      invariant forall c :: c in more <==> c in todo || (c in order(f)[..k] && c in g.frames)
      invariant forall c :: c in found <==> c in out || (c in order(f)[..k] && c !in g.frames)
    {
      var c := order(f)[k];
      assert order(f)[..k + 1] == order(f)[..k] + [c];
      if c in g.frames {
        more := more + [c];
      } else {
        found := found + {c};
      }
    }
    assert order(f)[..|order(f)|] == order(f);
  }

  /** Where the walk stands: what it saw, what it has to look at, what it found. */
  ghost predicate Walking(g: Graph, entries: seq<Name>, seen: set<Name>, todo: seq<Name>, out: set<Name>) {
    && (forall f :: f in seen || f in todo ==> Reached(g, entries, f))
    && (forall e :: e in entries ==> e in seen || e in todo)
    && (forall f, c :: f in seen && Calls(g, f, c) ==> c in seen || c in todo)
    && (forall f, c :: f in seen && Lacks(g, f, c) ==> c in out)
    && (forall c :: c in out ==> Missing(g, entries, c))
  }

  lemma {:induction false} WalkedOn(g: Graph, entries: seq<Name>, seen: set<Name>, todo: seq<Name>, out: set<Name>,
                                    f: Name, more: seq<Name>, found: set<Name>)
    requires Walking(g, entries, seen, todo + [f], out) && f !in seen
    requires forall c :: c in more <==> c in todo || Calls(g, f, c)
    requires forall c :: c in found <==> c in out || Lacks(g, f, c)
    ensures Walking(g, entries, seen + {f}, more, found)
  {
    forall h | h in seen + {f} || h in more
      ensures Reached(g, entries, h)
    {
      assert f in todo + [f];
      if Calls(g, f, h) {
        ReachedNext(g, entries, f, h);
      } else if h in todo {
        assert h in todo + [f];
      }
    }
    forall h | h in todo + [f]
      ensures h in seen + {f} || h in more
    {
    }
    forall c | c in found
      ensures Missing(g, entries, c)
    {
      assert f in todo + [f];
    }
  }

  lemma {:induction false} WalkedOff(g: Graph, entries: seq<Name>, seen: set<Name>, todo: seq<Name>, out: set<Name>,
                                     f: Name)
    requires Walking(g, entries, seen, todo + [f], out) && f in seen
    ensures Walking(g, entries, seen, todo, out)
  {}

  /** uncounted: exactly the functions without a frame that a reached function calls. */
  method Uncounted(g: Graph, order: Order, entries: seq<Name>) returns (out: set<Name>)
    requires Orders(g, order)
    ensures forall c :: c in out <==> Missing(g, entries, c)
  {
    ghost var all := g.frames.Keys + Elements(entries);
    var seen: set<Name> := {};
    var todo := entries;
    out := {};
    Started(g, entries);
    while todo != []
      invariant Walking(g, entries, seen, todo, out)
      invariant forall f :: f in todo ==> f in all
      decreases all - seen, |todo|
    {
      var f := todo[|todo| - 1];
      ghost var was := todo;
      todo := todo[..|todo| - 1];
      assert was == todo + [f];
      assert f in was;
      if f in seen {
        WalkedOff(g, entries, seen, todo, out, f);
      } else {
        var more, found := PushCallees(g, order, f, todo, out);
        WalkedOn(g, entries, seen, todo, out, f, more, found);
        Marked(all, seen, f);
        seen, todo, out := seen + {f}, more, found;
      }
    }
    Walked(g, entries, seen, out);
  }

  lemma {:induction false} Started(g: Graph, entries: seq<Name>)
    ensures Walking(g, entries, {}, entries, {})
  {
    forall e | e in entries
      ensures Reached(g, entries, e)
    {
      ReachedEntry(g, entries, e);
    }
  }

  lemma {:induction false} Walked(g: Graph, entries: seq<Name>, seen: set<Name>, out: set<Name>)
    requires Walking(g, entries, seen, [], out)
    ensures forall c :: c in out <==> Missing(g, entries, c)
  {
    forall c | Missing(g, entries, c)
      ensures c in out
    {
      var f :| Reached(g, entries, f) && Lacks(g, f, c);
      var p :| IsPath(g, p) && p[0] in entries && p[|p| - 1] == f;
      ClosedHolds(g, entries, seen, p, |p| - 1);
    }
  }

  /** prune: the graph without the functions names lists. */
  function Pruned(g: Graph, names: set<Name>): Graph {
    Graph(g.frames - names, map f | f in g.edges.Keys - names :: g.edges[f] - names)
  }

  /** prune removes name by name; a name with no frame, or given twice, stops the script. */
  method Prune(g: Graph, names: seq<Name>) returns (ok: bool, pruned: Graph)
    ensures ok <==> Distinct(names) && forall k :: 0 <= k < |names| ==> names[k] in g.frames
    ensures ok ==> pruned == Pruned(g, Elements(names))
  {
    pruned := g;
    if exists k :: 0 <= k < |names| && names[k] !in g.frames {
      return false, g;
    }
    PrunedNone(g);
    assert Elements(names[..0]) == {};
    for k := 0 to |names|
      invariant pruned == Pruned(g, Elements(names[..k]))
      invariant Distinct(names[..k])
    {
      var name := names[k];
      if name !in pruned.frames {
        assert name in names[..k];
        return false, g;
      }
      assert names[..k + 1] == names[..k] + [name];
      PrunedNext(g, Elements(names[..k]), name);
      assert Elements(names[..k]) + {name} == Elements(names[..k + 1]);
      pruned := Pruned(pruned, {name});
    }
    assert names[..|names|] == names;
    return true, pruned;
  }

  lemma {:induction false} PrunedNone(g: Graph)
    ensures Pruned(g, {}) == g
  {
    var h := Pruned(g, {});
    assert h.frames == g.frames;
    forall f | f in h.edges
      ensures h.edges[f] == g.edges[f]
    {
    }
    assert h.edges == g.edges;
  }

  lemma {:induction false} PrunedNext(g: Graph, names: set<Name>, name: Name)
    ensures Pruned(Pruned(g, names), {name}) == Pruned(g, names + {name})
  {
    var a, b := Pruned(Pruned(g, names), {name}), Pruned(g, names + {name});
    assert a.frames == b.frames;
    assert a.edges.Keys == b.edges.Keys;
    forall f | f in a.edges
      ensures a.edges[f] == b.edges[f]
    {
    }
  }

  /** The paths left are those that avoid the pruned functions, and they weigh what they did. */
  lemma {:induction false} PrunedPaths(g: Graph, names: set<Name>, p: seq<Name>)
    requires p != [] && p[0] in g.frames
    ensures IsPath(Pruned(g, names), p) && p[0] in Pruned(g, names).frames
            <==> IsPath(g, p) && forall i :: 0 <= i < |p| ==> p[i] !in names
    ensures IsPath(Pruned(g, names), p) && p[0] in Pruned(g, names).frames ==>
            Weight(Pruned(g, names), p) == Weight(g, p)
    decreases |p|
  {
    var h := Pruned(g, names);
    if |p| > 1 {
      if IsPath(h, p) && p[0] in h.frames {
        PathTail(h, p);
        PrunedPaths(g, names, p[1..]);
        PathFront(g, p);
      }
      if IsPath(g, p) && forall i :: 0 <= i < |p| ==> p[i] !in names {
        PathTail(g, p);
        PrunedPaths(g, names, p[1..]);
        PathFront(h, p);
      }
    }
  }

  lemma {:induction false} PathFront(g: Graph, p: seq<Name>)
    requires |p| > 1 && Calls(g, p[0], p[1]) && IsPath(g, p[1..])
    ensures IsPath(g, p)
  {}

  /** Pruning never deepens a walk. */
  lemma {:induction false} PruningShortens(g: Graph, order: Order, names: set<Name>, pruned: Order, f: Name)
    requires Orders(g, order) && Orders(Pruned(g, names), pruned) && f in g.frames && f !in names
    ensures Deepest(Pruned(g, names), pruned, f, {}).0 <= Deepest(g, order, f, {}).0
  {
    var h := Pruned(g, names);
    var back := Attained(h, pruned, f, {});
    var p := Deepest(h, pruned, f, {}).1;
    PrunedPaths(g, names, p);
    assert IsWalk(g, f, {}, p, back);
    Dominates(g, order, f, {}, p, back);
  }

  /** One call the listing holds. A call a relocation or an address names is direct; the other calls go
      through a pointer. */
  datatype Call = Call(caller: Name, callee: Name, pushed: nat, direct: bool)

  predicate Kept(call: Call) { call.direct ==> call.callee != call.caller }

  predicate Is(call: Call, f: Name, c: Name) { Kept(call) && call.caller == f && call.callee == c }

  ghost predicate Recorded(calls: seq<Call>, f: Name, c: Name) { exists k :: 0 <= k < |calls| && Is(calls[k], f, c) }

  ghost predicate IsLargest(calls: seq<Call>, f: Name, c: Name, m: nat) {
    && (forall k :: 0 <= k < |calls| && Is(calls[k], f, c) ==> calls[k].pushed <= m)
    && (exists k :: 0 <= k < |calls| && Is(calls[k], f, c) && calls[k].pushed == m)
  }

  ghost predicate Holds(edges: map<Name, map<Name, nat>>, f: Name, c: Name) { f in edges && c in edges[f] }

  /** The graph the calls merge to: an edge for each kept call, with the most bytes any of its calls
      pushes, and none for a function that calls itself by name. */
  method Merge(calls: seq<Call>) returns (edges: map<Name, map<Name, nat>>)
    ensures forall f, c :: Holds(edges, f, c) <==> Recorded(calls, f, c)
    ensures forall f, c :: Holds(edges, f, c) ==> IsLargest(calls, f, c, edges[f][c])
  {
    edges := map[];
    for n := 0 to |calls|
      invariant forall f, c :: Holds(edges, f, c) <==> Recorded(calls[..n], f, c)
      invariant forall f, c :: Holds(edges, f, c) ==> IsLargest(calls[..n], f, c, edges[f][c])
    {
      var call := calls[n];
      ghost var was := edges;
      assert calls[..n + 1] == calls[..n] + [call];
      var callees := if call.caller in edges then edges[call.caller] else map[];
      if call.direct ==> call.callee != call.caller {
        var most := if call.callee in callees then callees[call.callee] else 0;
        callees := callees[call.callee := if call.pushed > most then call.pushed else most];
      }
      edges := edges[call.caller := callees];
      forall f, c
        ensures Holds(edges, f, c) <==> Recorded(calls[..n + 1], f, c)
        ensures Holds(edges, f, c) ==> IsLargest(calls[..n + 1], f, c, edges[f][c])
      {
        MergedOne(calls[..n], call, f, c);
        assert Holds(was, f, c) <==> Recorded(calls[..n], f, c);
      }
    }
    assert calls[..|calls|] == calls;
  }

  lemma {:induction false} MergedOne(calls: seq<Call>, call: Call, f: Name, c: Name)
    ensures Recorded(calls + [call], f, c) <==> Recorded(calls, f, c) || Is(call, f, c)
    ensures !Is(call, f, c) ==> forall m :: IsLargest(calls, f, c, m) ==> IsLargest(calls + [call], f, c, m)
    ensures Is(call, f, c) ==> forall m :: IsLargest(calls, f, c, m) ==>
              IsLargest(calls + [call], f, c, if call.pushed > m then call.pushed else m)
    ensures Is(call, f, c) && !Recorded(calls, f, c) ==> IsLargest(calls + [call], f, c, call.pushed)
  {
    var all := calls + [call];
    assert all[|calls|] == call;
    assert forall k :: 0 <= k < |calls| ==> all[k] == calls[k];
  }
}
