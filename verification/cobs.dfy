/**
 The encoder and decoder as the program runs them: write positions moving through a caller's
 buffer, a code byte patched in once its block is complete, and an 8-bit countdown.
 A span is modelled as an array together with the number of its leading cells that belong to it.
 */
module Cobs {
  import opened Basics
  import opened Bytes
  import opened CobsSpec

  // ---- how far an unfinished encoding has got ---------------------------------------------

  /** The blocks that are final whatever follows, and the data of the block still open. */
  datatype Progress = Progress(closed: bytes, pending: bytes) {
    predicate Valid() {
      ZeroFree(pending) && |pending| < FULL
    }

    /** The frame if no further byte comes. */
    function Frame(): bytes
      requires Valid()
    {
      closed + ([|pending| as byte + 1] + pending)
    }

    /** One more byte joins the open block, or closes it as a zero or as its 254th byte. */
    function Next(b: byte): (next: Progress)
      requires Valid()
      ensures next.Valid()
    {
      if b == 0 then Progress(Frame(), [])
      else if |pending| + 1 < FULL then Progress(closed, pending + [b])
      else Progress(closed + ([255] + (pending + [b])), [])
    }

    function After(front: bytes): Progress {
      Progress(front + closed, pending)
    }
  }

  function ProgressOf(fed: bytes): (g: Progress)
    ensures g.Valid()
    decreases |fed|
  {
    match CutBlock(fed)
    case Last(body) => Progress([], body)
    case Zero(body, rest) => ProgressOf(rest).After([|body| as byte + 1] + body)
    case Full(body, rest) => ProgressOf(rest).After([255] + body)
  }

  lemma AfterFrame(g: Progress, front: bytes, b: byte)
    requires g.Valid()
    ensures g.After(front).Frame() == front + g.Frame()
    ensures g.After(front).Next(b) == g.Next(b).After(front)
  {
    Assoc(front, g.closed, [|g.pending| as byte + 1] + g.pending);
    Assoc(front, g.closed, [255] + (g.pending + [b]));
  }

  lemma {:induction false} EncodeProgress(fed: bytes)
    ensures Encode(fed) == ProgressOf(fed).Frame()
    decreases |fed|
  {
    match CutBlock(fed)
    case Last(_) =>
    case Zero(body, rest) =>
      EncodeProgress(rest);
      AfterFrame(ProgressOf(rest), [|body| as byte + 1] + body, 0);
    case Full(body, rest) =>
      EncodeProgress(rest);
      AfterFrame(ProgressOf(rest), [255] + body, 0);
  }

  lemma ProgressLast(fed: bytes, b: byte)
    requires CutBlock(fed).Last?
    ensures ProgressOf(fed + [b]) == ProgressOf(fed).Next(b)
  {
    assert fed + [b] + [] == fed + [b];
    if b == 0 {
      CutZero(fed, []);
    } else if |fed| + 1 == FULL {
      CutFull(fed + [b], []);
    } else {
      assert CutBlock(fed + [b]).Last?;
    }
  }

  lemma ProgressPastZero(body: bytes, rest: bytes, b: byte)
    requires ZeroFree(body) && |body| < FULL
    requires ProgressOf(rest + [b]) == ProgressOf(rest).Next(b)
    ensures ProgressOf(body + [0] + rest + [b]) == ProgressOf(body + [0] + rest).Next(b)
  {
    CutZero(body, rest);
    CutZero(body, rest + [b]);
    Assoc(body + [0], rest, [b]);
    AfterFrame(ProgressOf(rest), [|body| as byte + 1] + body, b);
  }

  lemma ProgressPastFull(body: bytes, rest: bytes, b: byte)
    requires ZeroFree(body) && |body| == FULL
    requires ProgressOf(rest + [b]) == ProgressOf(rest).Next(b)
    ensures ProgressOf(body + rest + [b]) == ProgressOf(body + rest).Next(b)
  {
    CutFull(body, rest);
    CutFull(body, rest + [b]);
    Assoc(body, rest, [b]);
    AfterFrame(ProgressOf(rest), [255] + body, b);
  }

  /** Reading one more byte is one `Next`. */
  lemma {:induction false} ProgressSnoc(fed: bytes, b: byte)
    ensures ProgressOf(fed + [b]) == ProgressOf(fed).Next(b)
    decreases |fed|
  {
    match CutBlock(fed)
    case Last(_) =>
      ProgressLast(fed, b);
    case Zero(body, rest) =>
      ProgressSnoc(rest, b);
      ProgressPastZero(body, rest, b);
    case Full(body, rest) =>
      ProgressSnoc(rest, b);
      ProgressPastFull(body, rest, b);
  }

  /** The progress once the source has been read from position `i` to its end. */
  function Scan(g: Progress, source: bytes, i: nat): (end: Progress)
    requires g.Valid()
    ensures end.Valid()
    decreases |source| - i
  {
    if i >= |source| then g else Scan(g.Next(source[i]), source, i + 1)
  }

  lemma {:induction false} ScanProgress(source: bytes, i: nat)
    requires i <= |source|
    ensures Scan(ProgressOf(source[..i]), source, i) == ProgressOf(source)
    decreases |source| - i
  {
    if i == |source| {
      assert source[..i] == source;
    } else {
      TakeOneMore(source, i);
      ProgressSnoc(source[..i], source[i]);
      ScanProgress(source, i + 1);
    }
  }

  /** Reading the whole source byte by byte arrives at its encoding. */
  lemma ScanEncodes(source: bytes)
    ensures Scan(Progress([], []), source, 0).Frame() == Encode(source)
  {
    ScanProgress(source, 0);
    EncodeProgress(source);
    assert source[..0] == [];
  }

  /** Frames only grow, so a target too small for a beginning is too small for the whole. */
  lemma {:induction false} ScanGrows(g: Progress, source: bytes, i: nat)
    requires g.Valid() && i <= |source|
    ensures |g.Frame()| + (|source| - i) <= |Scan(g, source, i).Frame()|
    decreases |source| - i
  {
    if i < |source| {
      ScanGrows(g.Next(source[i]), source, i + 1);
    }
  }

  // ---- the encoder ------------------------------------------------------------------------

  /** The cells before `lastP` hold the closed blocks, those after it the open one. */
  ghost predicate Layout(t: bytes, lastP: nat, p: nat, g: Progress) {
    lastP < p <= |t| && t[..lastP] == g.closed && t[lastP + 1..p] == g.pending
  }

  lemma LayoutPut(t: bytes, lastP: nat, p: nat, g: Progress, b: byte)
    requires Layout(t, lastP, p, g) && p < |t|
    ensures Layout(t[p := b], lastP, p + 1, Progress(g.closed, g.pending + [b]))
  {
  }

  lemma LayoutClose(t: bytes, lastP: nat, p: nat, g: Progress, code: byte)
    requires Layout(t, lastP, p, g)
    ensures t[lastP := code][..p] == g.closed + ([code] + g.pending)
    ensures p < |t| ==> Layout(t[lastP := code], p, p + 1, Progress(g.closed + ([code] + g.pending), []))
  {
  }

  class CobsEncoder {
    const target: array<byte>
    const size: nat
    var lastP: nat
    var p: nat
    var count: byte
    ghost var progress: Progress

    ghost predicate Valid()
      reads this, target
    {
      && progress.Valid()
      && lastP < p <= size <= target.Length
      && count as nat == p - lastP && count < 255
      && Layout(target[..], lastP, p, progress)
    }

    constructor (target: array<byte>, size: nat)
      requires 0 < size <= target.Length
      ensures Valid() && this.target == target && this.size == size
      ensures progress == Progress([], []) && p == 1
    {
      this.target, this.size := target, size;
      lastP, p, count := 0, 1, 1;
      progress := Progress([], []);
    }

    /** Adds one byte; the result says whether the frame so far is shorter than the target. */
    method Insert(b: byte) returns (ok: bool)
      requires Valid() && p < size
      modifies this, target
      ensures progress == old(progress).Next(b)
      ensures ok <==> |progress.Frame()| < size
      ensures ok ==> Valid() && p == |progress.Frame()|
      ensures p <= size && forall k | p <= k < target.Length :: target[k] == old(target[k])
    {
      ghost var g, t := progress, target[..];
      progress := g.Next(b);
      if b != 0 {
        LayoutPut(t, lastP, p, g, b);
        count := count + 1;
        target[p] := b;
        assert target[..] == t[p := b];
      } else {
        LayoutClose(t, lastP, p, g, count);
        target[lastP] := count;
        assert target[..] == t[lastP := count];
        count := 1;
        lastP := p;
      }
      p := p + 1;
      if p == size {
        return false;
      }
      if count == 255 {
        t := target[..];
        LayoutClose(t, lastP, p, Progress(g.closed, g.pending + [b]), 255);
        target[lastP] := 255;
        assert target[..] == t[lastP := 255];
        count := 1;
        lastP := p;
        p := p + 1;
      }
      return p != size;
    }

    /** Patches the last code byte; the first `used` cells then hold the frame. */
    method Commit() returns (used: nat)
      requires Valid()
      modifies target
      ensures used == p == |progress.Frame()| && target[..used] == progress.Frame()
      ensures forall k | used <= k < target.Length :: target[k] == old(target[k])
    {
      ghost var t := target[..];
      LayoutClose(t, lastP, p, progress, count);
      target[lastP] := count;
      assert target[..] == t[lastP := count];
      return p;
    }
  }

  /**
   Encodes `source` into the first `size` cells of `target`. It succeeds exactly when the frame
   is strictly shorter than the target (an empty source needs one cell), and then no cell past
   the frame has been touched.
   */
  method EncodeCobs(source: bytes, target: array<byte>, size: nat) returns (ok: bool, used: nat)
    requires 0 < size <= target.Length && (source != [] ==> 2 <= size)
    modifies target
    ensures ok <==> source == [] || |Encode(source)| < size
    ensures ok ==> used == |Encode(source)| && target[..used] == Encode(source)
    ensures !ok ==> used == 0
    ensures forall k | (if ok then used else size) <= k < target.Length :: target[k] == old(target[k])
  {
    ScanEncodes(source);
    ok, used := RunEncoder(source, target, size, Scan(Progress([], []), source, 0));
  }

  /** The encoding loop, stated by what reading the source byte by byte arrives at. */
  method RunEncoder(source: bytes, target: array<byte>, size: nat, ghost end: Progress)
    returns (ok: bool, used: nat)
    requires 0 < size <= target.Length && (source != [] ==> 2 <= size)
    requires end == Scan(Progress([], []), source, 0)
    modifies target
    ensures ok <==> source == [] || |end.Frame()| < size
    ensures ok ==> used == |end.Frame()| && target[..used] == end.Frame()
    ensures !ok ==> used == 0
    ensures forall k | (if ok then used else size) <= k < target.Length :: target[k] == old(target[k])
  {
    ghost var target0 := target[..];
    var e := new CobsEncoder(target, size);
    for i := 0 to |source|
      invariant e.Valid() && e.target == target && e.size == size && fresh(e)
      invariant Scan(e.progress, source, i) == end
      invariant e.p == |e.progress.Frame()| && (source != [] ==> e.p < size)
      invariant forall k | e.p <= k < target.Length :: target[k] == target0[k]
    {
      ScanGrows(e.progress.Next(source[i]), source, i + 1);
      var more := e.Insert(source[i]);
      if !more {
        return false, 0;
      }
    }
    used := e.Commit();
    return true, used;
  }

  // ---- the decoder ------------------------------------------------------------------------

  /** The decoder's two fields: what the end of the block stands for, and the bytes until then. */
  datatype Countdown = Countdown(nonzero: bool, offset: byte) {
    function Emit(b: byte): Option<byte> {
      if offset == 1 then (if nonzero then None else Some(0)) else Some(b)
    }

    function Next(b: byte): Countdown {
      if offset == 1 then StartBlock(b)
      else Countdown(nonzero, if offset == 0 then 255 else offset - 1)
    }
  }

  function StartBlock(code: byte): Countdown {
    Countdown(code == 255, code)
  }

  /** What the decoder still writes when it reads a frame from position `i`. */
  function Resume(c: Countdown, f: bytes, i: nat): bytes
    decreases |f| - i
  {
    if i >= |f| then [] else Listed(c.Emit(f[i])) + Resume(c.Next(f[i]), f, i + 1)
  }

  /** The same in terms of blocks: `left - 1` more data bytes, then a code byte. */
  function RestOfBlock(nonzero: bool, left: nat, s: bytes): bytes
    requires left > 0
  {
    if |s| < left then s
    else s[..left - 1] + (if nonzero then [] else [0]) + Decode(s[left - 1..])
  }

  lemma {:induction false} ResumeBlock(c: Countdown, f: bytes, i: nat)
    requires i <= |f|
    ensures Resume(c, f, i) == RestOfBlock(c.nonzero, BlockLength(c.offset), f[i..])
    decreases |f| - i
  {
    if i < |f| {
      var s := f[i..];
      ResumeBlock(c.Next(f[i]), f, i + 1);
      assert s[1..] == f[i + 1..];
      if c.offset == 1 {
        RestIsDecode(s);
      } else {
        RestShifts(c.nonzero, BlockLength(c.offset), s);
      }
    }
  }

  lemma RestIsDecode(s: bytes)
    requires s != []
    ensures RestOfBlock(s[0] == 255, BlockLength(s[0]), s[1..]) == Decode(s)
  {
    var n := BlockLength(s[0]);
    if n < |s| {
      assert s[1..][..n - 1] == s[1..n] && s[1..][n - 1..] == s[n..];
    }
  }

  lemma RestShifts(nonzero: bool, left: nat, s: bytes)
    requires s != [] && left > 1
    ensures RestOfBlock(nonzero, left, s) == [s[0]] + RestOfBlock(nonzero, left - 1, s[1..])
  {
    if |s| >= left {
      assert s[..left - 1] == [s[0]] + s[1..][..left - 2];
      assert s[1..][left - 2..] == s[left - 1..];
    }
  }

  /** The countdown started by the first byte of a frame decodes the frame. */
  lemma ResumeDecodes(f: bytes)
    requires f != []
    ensures Decode(f) == Resume(StartBlock(f[0]), f, 1)
  {
    ResumeBlock(StartBlock(f[0]), f, 1);
    RestIsDecode(f);
  }

  lemma ResumeStep(c: Countdown, done: bytes, f: bytes, i: nat)
    requires i < |f|
    ensures done + Resume(c, f, i) == done + Listed(c.Emit(f[i])) + Resume(c.Next(f[i]), f, i + 1)
    ensures c.Emit(f[i]).None? ==> done + Listed(c.Emit(f[i])) == done
  {
  }

  lemma {:induction false} ResumeShortens(c: Countdown, f: bytes, i: nat)
    requires i <= |f|
    ensures |Resume(c, f, i)| <= |f| - i
    decreases |f| - i
  {
    if i < |f| {
      ResumeShortens(c.Next(f[i]), f, i + 1);
    }
  }

  /** A decoded frame is shorter than the frame, so it fits where the frame was. */
  lemma DecodeShortens(f: bytes)
    requires f != []
    ensures |Decode(f)| < |f|
  {
    ResumeDecodes(f);
    ResumeShortens(StartBlock(f[0]), f, 1);
  }

  class CobsDecoder {
    var nonzero: bool
    var offset: byte

    function State(): Countdown
      reads this
    {
      Countdown(nonzero, offset)
    }

    constructor (b: byte)
      ensures State() == StartBlock(b)
    {
      nonzero, offset := b == 255, b;
    }

    method Advance(b: byte)
      modifies this
      ensures State() == old(State()).Next(b)
    {
      if offset == 1 {
        nonzero := b == 255;
        offset := b;
      } else {
        offset := if offset == 0 then 255 else offset - 1;
      }
    }

    method Iter(b: byte) returns (value: Option<byte>)
      modifies this
      ensures value == old(State()).Emit(b) && State() == old(State()).Next(b)
    {
      value := State().Emit(b);
      Advance(b);
    }
  }

  /**
   Decodes the first `n` cells of `source` into the first `m` cells of `target`. The two may be
   the same buffer: the result is the decoding of what `source` held at the call. It fails exactly
   when the decoded bytes fill the target to its end; a target without cells is only allowed when
   nothing is decoded.
   */
  method DecodeCobs(source: array<byte>, n: nat, target: array<byte>, m: nat) returns (ok: bool, used: nat)
    requires 0 < n <= source.Length && m <= target.Length
    requires m == 0 ==> Decode(source[..n]) == []
    modifies target
    ensures ok <==> Decode(old(source[..n])) == [] || |Decode(old(source[..n]))| < m
    ensures ok ==> used == |Decode(old(source[..n]))| && target[..used] == Decode(old(source[..n]))
    ensures !ok ==> used == m && target[..used] == Decode(old(source[..n]))[..m]
    ensures forall k | used <= k < target.Length :: target[k] == old(target[k])
  {
    ResumeDecodes(source[..n]);
    ok, used := RunDecoder(source, n, target, m, Decode(source[..n]));
  }

  /** The decoding loop, stated by what the countdown yields from the second byte on. */
  method RunDecoder(source: array<byte>, n: nat, target: array<byte>, m: nat, ghost whole: bytes)
    returns (ok: bool, used: nat)
    requires 0 < n <= source.Length && m <= target.Length
    requires whole == Resume(StartBlock(source[0]), source[..n], 1)
    requires m == 0 ==> whole == []
    modifies target
    ensures ok <==> whole == [] || |whole| < m
    ensures ok ==> used == |whole| && target[..used] == whole
    ensures !ok ==> used == m <= |whole| && target[..used] == whole[..m]
    ensures forall k | used <= k < target.Length :: target[k] == old(target[k])
  {
    ghost var source0, target0, done := source[..n], target[..], [];
    used := 0;
    var dec := new CobsDecoder(source[0]);
    for i := 1 to n
      invariant fresh(dec) && used < i && used <= m && (used < m || used == 0)
      invariant whole == done + Resume(dec.State(), source0, i)
      invariant target[..used] == done
      invariant forall k | used <= k < target.Length :: target[k] == target0[k]
      invariant forall k | i <= k < n :: source[k] == source0[k]
    {
      ResumeStep(dec.State(), done, source0, i);
      var value := dec.Iter(source[i]);
      if value.None? {
        continue;
      }
      target[used] := value.value;
      used := used + 1;
      done := done + [value.value];
      if used == m {
        return false, m;
      }
    }
    return true, used;
  }
}
