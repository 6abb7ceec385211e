/** What a byte stream of zero-terminated frames means: its complete frames and what is left over. */
module Framing {
  import opened Basics
  import opened Bytes
  import opened CobsSpec

  datatype Head =
    | Partial
    | Complete(frame: bytes, rest: bytes)

  /** The index of the first zero, or the length if there is none. */
  function FirstZero(s: bytes): (n: nat)
    ensures n <= |s| && forall i | 0 <= i < n :: s[i] != 0
    ensures n < |s| ==> s[n] == 0
  {
    if s == [] || s[0] == 0 then 0 else 1 + FirstZero(s[1..])
  }

  function CutFrame(s: bytes): (h: Head)
    ensures h.Partial? ==> ZeroFree(s)
    ensures h.Complete? ==> s == h.frame + [0] + h.rest && ZeroFree(h.frame)
  {
    var n := FirstZero(s);
    if n == |s| then Partial else Complete(s[..n], s[n + 1..])
  }

  /** The complete frames of a stream, without their terminators. */
  function Frames(s: bytes): seq<bytes>
    decreases |s|
  {
    match CutFrame(s)
    case Partial => []
    case Complete(frame, rest) => [frame] + Frames(rest)
  }

  /** The bytes after the last terminator. */
  function Residue(s: bytes): bytes
    decreases |s|
  {
    match CutFrame(s)
    case Partial => s
    case Complete(_, rest) => Residue(rest)
  }

  predicate NonEmpty(frames: seq<bytes>) {
    forall i | 0 <= i < |frames| :: frames[i] != []
  }

  function DecodeAll(frames: seq<bytes>): (msgs: seq<bytes>)
    requires NonEmpty(frames)
    ensures |msgs| == |frames| && forall i | 0 <= i < |msgs| :: msgs[i] == Decode(frames[i])
  {
    if frames == [] then [] else [Decode(frames[0])] + DecodeAll(frames[1..])
  }

  /** Messages as they go over the wire: each encoded and followed by a zero. */
  function Wire(msgs: seq<bytes>): bytes {
    if msgs == [] then [] else Encode(msgs[0]) + [0] + Wire(msgs[1..])
  }

  lemma CutFrameAt(frame: bytes, rest: bytes)
    requires ZeroFree(frame)
    ensures CutFrame(frame + [0] + rest) == Complete(frame, rest)
  {
    var s := frame + [0] + rest;
    assert s[|frame|] == 0;
    assert forall i | 0 <= i < |frame| :: s[i] == frame[i];
    assert s[..|frame|] == frame && s[|frame| + 1..] == rest;
  }

  lemma FrameFirst(frame: bytes, rest: bytes)
    requires ZeroFree(frame)
    ensures Frames(frame + [0] + rest) == [frame] + Frames(rest)
    ensures Residue(frame + [0] + rest) == Residue(rest)
  {
    CutFrameAt(frame, rest);
  }

  /** The first frame of a stream, found by the position of its terminator. */
  lemma FrameAt(s: bytes, n: nat)
    requires n < |s| && ZeroFree(s[..n]) && s[n] == 0
    ensures Frames(s) == [s[..n]] + Frames(s[n + 1..])
    ensures Residue(s) == Residue(s[n + 1..])
  {
    FrameFirst(s[..n], s[n + 1..]);
    CutAround(s, n);
  }

  lemma DecodeAllOfParts(a: seq<bytes>, b: seq<bytes>)
    requires NonEmpty(a + b)
    ensures NonEmpty(a) && NonEmpty(b) && DecodeAll(a + b) == DecodeAll(a) + DecodeAll(b)
  {
    assert forall i | 0 <= i < |a| :: (a + b)[i] == a[i];
    assert forall i | 0 <= i < |b| :: (a + b)[|a| + i] == b[i];
  }

  lemma NoFrame(s: bytes)
    requires ZeroFree(s)
    ensures Frames(s) == [] && Residue(s) == s
  {
    assert FirstZero(s) == |s|;
  }

  /** The stream `s` holds the frames of `msgs` and leaves `residue`. */
  ghost predicate Yields(s: bytes, msgs: seq<bytes>, residue: bytes) {
    NonEmpty(Frames(s)) && DecodeAll(Frames(s)) == msgs && Residue(s) == residue
  }

  lemma YieldsFrame(s: bytes, n: nat, msgs: seq<bytes>, residue: bytes)
    requires Yields(s, msgs, residue)
    requires n < |s| && ZeroFree(s[..n]) && s[n] == 0
    ensures n > 0 && msgs != [] && msgs[0] == Decode(s[..n])
    ensures Yields(s[n + 1..], msgs[1..], residue)
  {
    FrameAt(s, n);
    assert Frames(s)[0] == s[..n];
    assert Frames(s)[1..] == Frames(s[n + 1..]);
  }

  lemma YieldsNothing(s: bytes, msgs: seq<bytes>, residue: bytes)
    requires Yields(s, msgs, residue) && ZeroFree(s)
    ensures msgs == [] && residue == s
  {
    NoFrame(s);
  }

  /** Reading a stream in two parts: the residue of the first is carried over to the second. */
  lemma {:induction false} FramesOfParts(a: bytes, b: bytes)
    ensures Frames(a + b) == Frames(a) + Frames(Residue(a) + b)
    ensures Residue(a + b) == Residue(Residue(a) + b)
    decreases |a|
  {
    match CutFrame(a)
    case Partial =>
    case Complete(frame, rest) =>
      FramesOfParts(rest, b);
      FrameFirst(frame, rest + b);
      Assoc(frame + [0], rest, b);
      Assoc([frame], Frames(rest), Frames(Residue(rest) + b));
  }

  /** What is left over in mid-stream begins a later frame, or the final residue. */
  ghost predicate Begins(r: bytes, s: bytes) {
    r <= Residue(s) || exists f :: f in Frames(s) && r <= f
  }

  lemma BeginsLater(r: bytes, frame: bytes, s: bytes)
    requires ZeroFree(frame) && Begins(r, s)
    ensures Begins(r, frame + [0] + s)
  {
    FrameFirst(frame, s);
    if f :| f in Frames(s) && r <= f {
      assert f in [frame] + Frames(s);
    }
  }

  lemma {:induction false} ResidueIsPrefix(a: bytes, b: bytes)
    ensures Begins(Residue(a), a + b)
    decreases |a|
  {
    match CutFrame(a)
    case Partial =>
      PrefixOfFirst(a, b);
    case Complete(frame, rest) =>
      ResidueIsPrefix(rest, b);
      BeginsLater(Residue(rest), frame, rest + b);
      Assoc(frame + [0], rest, b);
  }

  lemma PrefixOfFirst(a: bytes, b: bytes)
    requires ZeroFree(a)
    ensures Begins(a, a + b)
  {
    match CutFrame(a + b)
    case Partial =>
      assert a <= a + b;
    case Complete(frame, rest) =>
      assert (a + b)[|frame|] == 0;
      assert |a| <= |frame|;
      assert frame == (a + b)[..|frame|];
      assert frame in Frames(a + b);
  }

  /** If no frame of the whole stream is longer than `limit`, no residue on the way is. */
  lemma ResidueBound(a: bytes, b: bytes, limit: nat)
    requires forall f | f in Frames(a + b) :: |f| <= limit
    requires |Residue(a + b)| <= limit
    ensures |Residue(a)| <= limit
  {
    ResidueIsPrefix(a, b);
  }

  /** The frames on the wire are the encodings, in order, and nothing is left over. */
  lemma {:induction false} FramesOfWire(msgs: seq<bytes>)
    ensures Residue(Wire(msgs)) == [] && |Frames(Wire(msgs))| == |msgs|
    ensures forall i | 0 <= i < |msgs| :: Frames(Wire(msgs))[i] == Encode(msgs[i])
  {
    if msgs != [] {
      FramesOfWire(msgs[1..]);
      EncodeZeroFree(msgs[0]);
      FrameFirst(Encode(msgs[0]), Wire(msgs[1..]));
    }
  }

  /** Decoding the frames of the wire gives the messages back. */
  lemma WireDecodes(msgs: seq<bytes>)
    ensures NonEmpty(Frames(Wire(msgs))) && DecodeAll(Frames(Wire(msgs))) == msgs
  {
    FramesOfWire(msgs);
    forall i | 0 <= i < |msgs|
      ensures Decode(Encode(msgs[i])) == msgs[i]
    {
      RoundTrip(msgs[i]);
    }
  }

  /** The chunks of a stream, put together again. */
  function Concat(chunks: seq<bytes>): bytes {
    if chunks == [] then [] else chunks[0] + Concat(chunks[1..])
  }

  /** Part of the way through a stream of messages: no empty frame, and a residue shorter than a frame. */
  lemma PartOfWire(got: bytes, left: bytes, msgs: seq<bytes>, longest: nat)
    requires got + left == Wire(msgs)
    requires forall m | m in msgs :: |Encode(m)| + 1 <= longest
    ensures NonEmpty(Frames(got))
    ensures |Residue(got)| < longest || Residue(got) == []
  {
    FramesOfWire(msgs);
    FramesOfParts(got, left);
    DecodeAllOfParts(Frames(got), Frames(Residue(got) + left));
    ResidueBound(got, left, if longest == 0 then 0 else longest - 1);
  }

  /** After an empty residue the receiver starts afresh. */
  lemma AfterEmptyResidue(before: bytes, got: bytes)
    requires Residue(before) == []
    ensures Frames(before + got) == Frames(before) + Frames(got)
    ensures Residue(before + got) == Residue(got)
  {
    FramesOfParts(before, got);
    assert [] + got == got;
  }

  /** At any point of a session that started with an empty residue. */
  lemma MidSession(before: bytes, got: bytes, left: bytes, msgs: seq<bytes>, longest: nat)
    requires NonEmpty(Frames(before)) && Residue(before) == []
    requires got + left == Wire(msgs)
    requires forall m | m in msgs :: |Encode(m)| + 1 <= longest
    ensures NonEmpty(Frames(before + got))
    ensures |Residue(before + got)| < longest || Residue(before + got) == []
  {
    PartOfWire(got, left, msgs, longest);
    AfterEmptyResidue(before, got);
  }

  /** At its end every message has been decoded and nothing is left over. */
  lemma EndOfSession(before: bytes, msgs: seq<bytes>)
    requires NonEmpty(Frames(before)) && Residue(before) == []
    ensures Residue(before + Wire(msgs)) == [] && NonEmpty(Frames(before + Wire(msgs)))
    ensures DecodeAll(Frames(before + Wire(msgs))) == DecodeAll(Frames(before)) + msgs
  {
    AfterEmptyResidue(before, Wire(msgs));
    FramesOfWire(msgs);
    WireDecodes(msgs);
    DecodeAllOfParts(Frames(before), Frames(Wire(msgs)));
  }
}
