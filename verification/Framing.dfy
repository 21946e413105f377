/** Length-prefixed framing: a byte stream is cut into frames by lengths the frames themselves
    carry. TLS records and handshake messages are both framed this way. */
module Framing {
  type Byte = x: int | 0 <= x < 256

  /** The whole length of the frame at the front of a stream, -1 while it is not known. */
  type Sizer = seq<Byte> -> int

  /** Bytes that come later do not change a length already read. */
  ghost predicate Prefixed(size: Sizer) {
    && (forall p {:trigger size(p)} :: size(p) == -1 || size(p) > 0)
    && (forall p, q {:trigger size(p + q)} :: size(p) > 0 ==> size(p + q) == size(p))
    && (forall p {:trigger HasFrame(size, p)} :: HasFrame(size, p) ==> size(p[..size(p)]) == size(p))
  }

  ghost predicate IsFrame(size: Sizer, f: seq<Byte>) { size(f) == |f| > 0 }

  ghost predicate HasFrame(size: Sizer, p: seq<Byte>) { 0 < size(p) <= |p| }

  /** The complete frames at the front of a stream. */
  ghost function Frames(size: Sizer, p: seq<Byte>): seq<seq<Byte>>
    decreases |p|
  {
    if HasFrame(size, p) then [p[..size(p)]] + Frames(size, p[size(p)..]) else []
  }

  ghost function Concat(fs: seq<seq<Byte>>): seq<Byte> {
    if fs == [] then [] else fs[0] + Concat(fs[1..])
  }

  lemma {:induction false} ConcatAppend(fs: seq<seq<Byte>>, gs: seq<seq<Byte>>)
    ensures Concat(fs + gs) == Concat(fs) + Concat(gs)
  {
    if fs == [] {
      assert fs + gs == gs;
    } else {
      assert (fs + gs)[1..] == fs[1..] + gs;
      ConcatAppend(fs[1..], gs);
    }
  }

  lemma {:induction false} ConcatOne(fs: seq<seq<Byte>>, f: seq<Byte>)
    ensures Concat(fs + [f]) == Concat(fs) + f
  {
    ConcatAppend(fs, [f]);
    assert [f][1..] == [];
    assert Concat([f]) == f + Concat([]);
  }

  lemma Regroup<T>(a: seq<T>, b: seq<T>, c: seq<T>)
    ensures (a + b) + c == a + (b + c)
  {}

  lemma FrontKept(s: seq<Byte>, t: seq<Byte>, i: nat, j: nat)
    requires i <= j <= |s| == |t| && s[..j] == t[..j]
    ensures s[..i] == t[..i] && s[i..j] == t[i..j]
  {
    assert s[..i] == s[..j][..i] && t[..i] == t[..j][..i] && s[i..j] == s[..j][i..] && t[i..j] == t[..j][i..];
  }

  /** A frame's own bytes are read as that frame, whatever follows them. */
  lemma {:induction false} FrameInFront(size: Sizer, f: seq<Byte>, p: seq<Byte>)
    requires Prefixed(size) && IsFrame(size, f)
    ensures Frames(size, f + p) == [f] + Frames(size, p)
  {
    var s := f + p;
    assert size(s) == |f|;
    assert s[..|f|] == f && s[|f|..] == p;
  }

  /** Frames are read back one by one: no other cut of the same bytes is possible. */
  lemma {:induction false} FramesInFront(size: Sizer, fs: seq<seq<Byte>>, p: seq<Byte>)
    requires Prefixed(size) && forall i :: 0 <= i < |fs| ==> IsFrame(size, fs[i])
    ensures Frames(size, Concat(fs) + p) == fs + Frames(size, p)
  {
    if fs == [] {
      assert Concat(fs) + p == p;
    } else {
      var first, rest := fs[0], Concat(fs[1..]);
      FramesInFront(size, fs[1..], p);
      FrameInFront(size, first, rest + p);
      Regroup(first, rest, p);
      Regroup([first], fs[1..], Frames(size, p));
      assert [first] + fs[1..] == fs;
    }
  }

  /** What is left behind the complete frames. */
  ghost function Left(size: Sizer, p: seq<Byte>): seq<Byte>
    decreases |p|
  {
    if HasFrame(size, p) then Left(size, p[size(p)..]) else p
  }

  /** Nothing is lost and nothing is added. */
  lemma {:induction false} FramesCover(size: Sizer, p: seq<Byte>)
    requires Prefixed(size)
    ensures p == Concat(Frames(size, p)) + Left(size, p) && !HasFrame(size, Left(size, p))
    ensures forall i :: 0 <= i < |Frames(size, p)| ==> IsFrame(size, Frames(size, p)[i])
    decreases |p|
  {
    if HasFrame(size, p) {
      var f, rest := p[..size(p)], p[size(p)..];
      FramesCover(size, rest);
      OwnSize(size, p);
      CoverOn(p, f, rest, Frames(size, rest), Left(size, rest));
    }
  }

  lemma CoverOn(p: seq<Byte>, f: seq<Byte>, rest: seq<Byte>, fs: seq<seq<Byte>>, left: seq<Byte>)
    requires p == f + rest && rest == Concat(fs) + left
    ensures p == Concat([f] + fs) + left
  {
    assert ([f] + fs)[1..] == fs;
    Regroup(f, Concat(fs), left);
  }

  lemma {:induction false} OwnSize(size: Sizer, p: seq<Byte>)
    requires Prefixed(size) && HasFrame(size, p)
    ensures IsFrame(size, p[..size(p)])
  {
  }

  /** More bytes never change a frame already complete. */
  lemma {:induction false} FramesGrow(size: Sizer, p: seq<Byte>, q: seq<Byte>)
    requires Prefixed(size)
    ensures Frames(size, p) <= Frames(size, p + q)
  {
    FramesCover(size, p);
    var fs, rest := Frames(size, p), Left(size, p);
    assert p + q == Concat(fs) + (rest + q);
    FramesInFront(size, fs, rest + q);
  }

  /** A whole frame behind whole frames. */
  lemma {:induction false} FrameBehind(size: Sizer, p: seq<Byte>, f: seq<Byte>)
    requires Prefixed(size) && Left(size, p) == [] && IsFrame(size, f)
    ensures Frames(size, p + f) == Frames(size, p) + [f] && Left(size, p + f) == []
  {
    FramesCover(size, p);
    var fs := Frames(size, p);
    assert p == Concat(fs);
    ConcatOne(fs, f);
    LeftInFront(size, fs + [f], []);
    FramesInFront(size, fs + [f], []);
    assert Concat(fs + [f]) + [] == p + f;
    assert Left(size, []) == [] && Frames(size, []) == [];
  }

  lemma {:induction false} LeftInFront(size: Sizer, fs: seq<seq<Byte>>, p: seq<Byte>)
    requires Prefixed(size) && forall i :: 0 <= i < |fs| ==> IsFrame(size, fs[i])
    ensures Left(size, Concat(fs) + p) == Left(size, p)
  {
    if fs == [] {
      assert Concat(fs) + p == p;
    } else {
      var rest := Concat(fs[1..]) + p;
      var s := fs[0] + rest;
      assert Concat(fs) + p == s;
      assert size(s) == |fs[0]|;
      assert s[|fs[0]|..] == rest;
      LeftInFront(size, fs[1..], p);
    }
  }

  /** Part of a frame behind whole frames. */
  lemma {:induction false} PartBehind(size: Sizer, p: seq<Byte>, tail: seq<Byte>)
    requires Prefixed(size) && Left(size, p) == [] && !HasFrame(size, tail)
    ensures Frames(size, p + tail) == Frames(size, p)
  {
    FramesCover(size, p);
    assert p + tail == Concat(Frames(size, p)) + tail;
    FramesInFront(size, Frames(size, p), tail);
    assert Frames(size, tail) == [];
  }

  lemma {:induction false} FramesOfPrefix(size: Sizer, p: seq<Byte>, q: seq<Byte>)
    requires Prefixed(size) && p <= q
    ensures Frames(size, p) <= Frames(size, q)
  {
    assert q == p + q[|p|..];
    FramesGrow(size, p, q[|p|..]);
  }
}
