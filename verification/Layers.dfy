/** The eight layers of an in-place transform, block after block as the loops of src/mldsa_poly.c
    take them, and their composition: the tree of the recursive transform. */
module Layers {
  import opened Twiddles
  import opened Transform

  /** A step on one block, given the index of its node. */
  type Step = (int, seq<int>) -> seq<int>

  ghost predicate KeepsLength(f: Step) {
    forall m: int, u: seq<int> {:trigger f(m, u)} :: |f(m, u)| == |u|
  }

  /** One layer as the loops take it: block after block of size d, the index moving by s. */
  ghost function Blockwise(f: Step, u: seq<int>, m: int, d: nat, s: int): (r: seq<int>)
    requires d > 0 && KeepsLength(f)
    ensures |r| == |u|
    decreases |u|
  {
    if |u| < d then u else f(m, u[..d]) + Blockwise(f, u[d..], m + s, d, s)
  }

  /** A node's children in the order of the array: going up, the tree is mirrored. */
  ghost function Left(k: int, s: int): int { if s == 1 then 2 * k else 2 * k + 1 }
  ghost function Right(k: int, s: int): int { if s == 1 then 2 * k + 1 else 2 * k }

  /** The same layer through the tree: the blocks of size 2^h under node k of height H. */
  ghost function Treewise(f: Step, u: seq<int>, k: int, H: nat, h: nat, s: int): (r: seq<int>)
    requires |u| == TwoTo(H) && h <= H && KeepsLength(f)
    ensures |r| == |u|
    decreases H, u
  {
    if H == h then f(k, u)
    else
      var n := TwoTo(H - 1);
      Treewise(f, u[..n], Left(k, s), H - 1, h, s) + Treewise(f, u[n..], Right(k, s), H - 1, h, s)
  }

  lemma {:induction false} TreewiseHalves(f: Step, u: seq<int>, k: int, H: nat, h: nat, s: int)
    requires |u| == TwoTo(H) && h < H && KeepsLength(f)
    ensures var n, v := TwoTo(H - 1), Treewise(f, u, k, H, h, s);
            && v[..n] == Treewise(f, u[..n], Left(k, s), H - 1, h, s)
            && v[n..] == Treewise(f, u[n..], Right(k, s), H - 1, h, s)
  {}

  /** The index c blocks on. */
  ghost function Along(m: int, c: nat, s: int): int { if s == 1 then m + c else m - c }

  /** The index of the first block under a node, d levels down. */
  ghost function First(k: int, d: nat, s: int): int
    decreases d, k
  {
    if d == 0 then k else First(Left(k, s), d - 1, s)
  }

  lemma {:induction false} FirstRight(k: int, d: nat, s: int)
    requires s == 1 || s == -1
    ensures First(k + s, d, s) == Along(First(k, d, s), TwoTo(d), s)
    decreases d
  {
    if d > 0 {
      var l := Left(k, s);
      FirstRight(l, d - 1, s);
      FirstRight(l + s, d - 1, s);
      assert Left(k + s, s) == l + s + s;
    }
  }

  /** c blocks of size d. */
  ghost function Reps(c: nat, d: nat): nat { if c == 0 then 0 else d + Reps(c - 1, d) }

  lemma {:induction false} RepsAdd(a: nat, b: nat, d: nat)
    ensures Reps(a + b, d) == Reps(a, d) + Reps(b, d)
  {
    if a > 0 { RepsAdd(a - 1, b, d); }
  }

  lemma {:induction false} RepsTwoTo(i: nat, h: nat)
    ensures Reps(TwoTo(i), TwoTo(h)) == TwoTo(i + h)
  {
    if i == 0 {
      assert Reps(1, TwoTo(h)) == TwoTo(h) + Reps(0, TwoTo(h));
    } else {
      RepsTwoTo(i - 1, h);
      RepsAdd(TwoTo(i - 1), TwoTo(i - 1), TwoTo(h));
    }
  }

  lemma {:induction false} BlockwiseStep(f: Step, a: seq<int>, b: seq<int>, m: int, d: nat, s: int, y: seq<int>,
                                         z: seq<int>)
    requires 0 < d <= |a| && KeepsLength(f)
    requires Blockwise(f, a[d..], m + s, d, s) == y && Blockwise(f, a[d..] + b, m + s, d, s) == y + z
    ensures Blockwise(f, a + b, m, d, s) == Blockwise(f, a, m, d, s) + z
  {
    var x := f(m, a[..d]);
    assert (a + b)[..d] == a[..d] && (a + b)[d..] == a[d..] + b;
    assert x + (y + z) == (x + y) + z;
  }

  lemma {:induction false} BlockwiseAppend(f: Step, a: seq<int>, b: seq<int>, m: int, d: nat, s: int, c: nat)
    requires d > 0 && KeepsLength(f) && |a| == Reps(c, d) && (s == 1 || s == -1)
    ensures Blockwise(f, a + b, m, d, s) == Blockwise(f, a, m, d, s) + Blockwise(f, b, Along(m, c, s), d, s)
    decreases c
  {
    if c == 0 {
      assert a + b == b;
    } else {
      var t := a[d..];
      BlockwiseAppend(f, t, b, m + s, d, s, c - 1);
      BlockwiseStep(f, a, b, m, d, s, Blockwise(f, t, m + s, d, s), Blockwise(f, b, Along(m, c, s), d, s));
    }
  }

  /** The loops' blocks are the tree's. */
  lemma {:induction false} BlockwiseIsTreewise(f: Step, u: seq<int>, k: int, H: nat, h: nat, s: int, m: int, d: nat)
    requires |u| == TwoTo(H) && h <= H && KeepsLength(f) && (s == 1 || s == -1)
    requires d == TwoTo(h) > 0 && m == First(k, H - h, s)
    ensures Blockwise(f, u, m, d, s) == Treewise(f, u, k, H, h, s)
    decreases H
  {
    if H == h {
      OneBlock(f, u, k, s);
      assert Treewise(f, u, k, H, h, s) == f(k, u);
    } else {
      var n, i := TwoTo(H - 1), H - 1 - h;
      var l, r := Left(k, s), Right(k, s);
      FirstRight(l, i, s);
      BlockwiseIsTreewise(f, u[..n], l, H - 1, h, s, m, d);
      BlockwiseIsTreewise(f, u[n..], r, H - 1, h, s, Along(m, TwoTo(i), s), d);
      RepsTwoTo(i, h);
      BlockwiseJoin(f, u, n, m, d, s, TwoTo(i));
    }
  }

  lemma {:induction false} BlockwiseJoin(f: Step, u: seq<int>, n: nat, m: int, d: nat, s: int, c: nat)
    requires d > 0 && KeepsLength(f) && n <= |u| && n == Reps(c, d) && (s == 1 || s == -1)
    ensures Blockwise(f, u, m, d, s) == Blockwise(f, u[..n], m, d, s) + Blockwise(f, u[n..], Along(m, c, s), d, s)
  {
    assert u == u[..n] + u[n..];
    BlockwiseAppend(f, u[..n], u[n..], m, d, s, c);
  }

  lemma {:induction false} OneBlock(f: Step, u: seq<int>, k: int, s: int)
    requires |u| > 0 && KeepsLength(f)
    ensures Blockwise(f, u, k, |u|, s) == f(k, u)
  {
    assert u[..|u|] == u && u[|u|..] == [];
  }

  /** A block going down: folded with its twiddle and against it. */
  ghost function SplitBlock(tw: nat -> int, m: int, u: seq<int>): (r: seq<int>)
    ensures |r| == |u|
  {
    if |u| % 2 == 0 && m >= 0 then Fold(u, tw(m)) + Fold(u, -tw(m)) else u
  }

  ghost function Splits(tw: nat -> int): (f: Step)
    ensures KeepsLength(f)
  {
    (m: int, u: seq<int>) => SplitBlock(tw, m, u)
  }

  /** What is left to do once the layers above height h are done. */
  ghost function Finish(tw: nat -> int, u: seq<int>, k: nat, H: nat, h: nat): (r: seq<int>)
    requires |u| == TwoTo(H) && h <= H
    ensures |r| == |u|
    decreases H, u
  {
    if H == h then Forward(tw, u, k, h)
    else
      var n := TwoTo(H - 1);
      Finish(tw, u[..n], 2 * k, H - 1, h) + Finish(tw, u[n..], 2 * k + 1, H - 1, h)
  }

  lemma {:induction false} FinishDone(tw: nat -> int, u: seq<int>, k: nat, H: nat)
    requires |u| == TwoTo(H)
    ensures Finish(tw, u, k, H, 0) == u
    decreases H
  {
    if H > 0 {
      var n := TwoTo(H - 1);
      var left, right := u[..n], u[n..];
      FinishDone(tw, left, 2 * k, H - 1);
      FinishDone(tw, right, 2 * k + 1, H - 1);
      assert Finish(tw, u, k, H, 0) == left + right;
      assert u == left + right;
    }
  }

  /** Doing layer h leaves the layers below it. */
  lemma {:induction false} SplitFinishes(tw: nat -> int, u: seq<int>, k: nat, H: nat, h: nat)
    requires |u| == TwoTo(H) && 0 < h <= H
    ensures Finish(tw, Treewise(Splits(tw), u, k, H, h, 1), k, H, h - 1) == Finish(tw, u, k, H, h)
    decreases H
  {
    var n, v := TwoTo(H - 1), Treewise(Splits(tw), u, k, H, h, 1);
    if H == h {
      assert v == SplitBlock(tw, k, u);
      assert v[..n] == Fold(u, tw(k)) && v[n..] == Fold(u, -tw(k));
    } else {
      SplitFinishes(tw, u[..n], 2 * k, H - 1, h);
      SplitFinishes(tw, u[n..], 2 * k + 1, H - 1, h);
      TreewiseHalves(Splits(tw), u, k, H, h, 1);
    }
  }

  /** A block going up: its two halves joined. */
  ghost function JoinBlock(tw: nat -> int, m: int, u: seq<int>): (r: seq<int>)
    ensures |r| == |u|
  {
    if |u| % 2 == 0 && m >= 0 then Join(u[..|u| / 2], u[|u| / 2..], -tw(m)) else u
  }

  ghost function Joins(tw: nat -> int): (f: Step)
    ensures KeepsLength(f)
  {
    (m: int, u: seq<int>) => JoinBlock(tw, m, u)
  }

  /** What is left to do once the layers up to height h are done. */
  ghost function Rise(tw: nat -> int, u: seq<int>, o: nat, H: nat, h: nat): (r: seq<int>)
    requires |u| == TwoTo(H) && h <= H
    ensures |r| == |u|
    decreases H, u
  {
    if H == h then u
    else
      var n := TwoTo(H - 1);
      Join(Rise(tw, u[..n], 2 * o + 1, H - 1, h), Rise(tw, u[n..], 2 * o, H - 1, h), -tw(o))
  }

  lemma {:induction false} RiseFromLeaves(tw: nat -> int, u: seq<int>, o: nat, H: nat)
    requires |u| == TwoTo(H)
    ensures Rise(tw, u, o, H, 0) == Backward(tw, u, o, H)
    decreases H
  {
    if H > 0 {
      var n := TwoTo(H - 1);
      RiseFromLeaves(tw, u[..n], 2 * o + 1, H - 1);
      RiseFromLeaves(tw, u[n..], 2 * o, H - 1);
    }
  }

  lemma {:induction false} JoinRisesAtTop(tw: nat -> int, u: seq<int>, o: nat, h: nat)
    requires |u| == TwoTo(h) && 0 < h
    ensures Treewise(Joins(tw), u, o, h, h, -1) == Rise(tw, u, o, h, h - 1)
  {}

  lemma {:induction false} JoinRises(tw: nat -> int, u: seq<int>, o: nat, H: nat, h: nat)
    requires |u| == TwoTo(H) && 0 < h <= H
    ensures Rise(tw, Treewise(Joins(tw), u, o, H, h, -1), o, H, h) == Rise(tw, u, o, H, h - 1)
    decreases H
  {
    var n, v := TwoTo(H - 1), Treewise(Joins(tw), u, o, H, h, -1);
    if H == h {
      JoinRisesAtTop(tw, u, o, h);
    } else {
      JoinRises(tw, u[..n], 2 * o + 1, H - 1, h);
      JoinRises(tw, u[n..], 2 * o, H - 1, h);
      TreewiseHalves(Joins(tw), u, o, H, h, -1);
    }
  }
}
