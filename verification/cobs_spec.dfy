/** Bytes as the program stores them: `uint8_t`. */
module Bytes {
  newtype byte = x: int | 0 <= x < 256
  type bytes = seq<byte>

  predicate ZeroFree(s: bytes) {
    forall i | 0 <= i < |s| :: s[i] != 0
  }
}

/**
 Consistent Overhead Byte Stuffing (Cheshire and Baker) stated over sequences, block by block.
 Nothing here follows the pointer-driven code; `Cobs` proves that code against these functions.
 */
module CobsSpec {
  import opened Basics
  import opened Bytes

  /** A block whose code byte is 255 carries this many data bytes and no implied zero. */
  const FULL: nat := 254

  /** The length of the leading run of non-zero bytes, cut off at `limit`. */
  function Run(s: bytes, limit: nat): (r: nat)
    ensures r <= |s| && r <= limit && forall i | 0 <= i < r :: s[i] != 0
    ensures r < |s| && r < limit ==> s[r] == 0
  {
    if s == [] || limit == 0 || s[0] == 0 then 0 else 1 + Run(s[1..], limit - 1)
  }

  /** How a message splits at its first block: all of it, up to a zero, or 254 non-zero bytes. */
  datatype Cut =
    | Last(body: bytes)
    | Zero(body: bytes, rest: bytes)
    | Full(body: bytes, rest: bytes)

  function CutBlock(s: bytes): (c: Cut)
    ensures ZeroFree(c.body)
    ensures c.Last? ==> s == c.body && |s| < FULL
    ensures c.Zero? ==> s == c.body + [0] + c.rest && |c.body| < FULL
    ensures c.Full? ==> s == c.body + c.rest && |c.body| == FULL
  {
    var r := Run(s, FULL);
    if r == FULL then Full(s[..r], s[r..])
    else if r == |s| then Last(s)
    else Zero(s[..r], s[r + 1..])
  }

  /** The encoding: one block per zero byte or per 254 non-zero bytes, and one block for the rest. */
  function Encode(s: bytes): (f: bytes)
    ensures |f| > 0
    decreases |s|
  {
    match CutBlock(s)
    case Last(body) => [|body| as byte + 1] + body
    case Zero(body, rest) => [|body| as byte + 1] + body + Encode(rest)
    case Full(body, rest) => [255] + body + Encode(rest)
  }

  /**
   The distance from a code byte to the next one. A frame never holds the code 0, but the
   decoder's 8-bit countdown gives it a meaning: it wraps around and counts 256 bytes.
   */
  function BlockLength(code: byte): (n: nat)
    ensures 1 <= n <= 256
  {
    if code == 0 then 256 else code as nat
  }

  /** The decoding of any non-empty byte string; the last block may be cut short. */
  function Decode(f: bytes): bytes
    requires f != []
  {
    var n := BlockLength(f[0]);
    if n >= |f| then f[1..]
    else f[1..n] + (if f[0] == 255 then [] else [0]) + Decode(f[n..])
  }

  /** The number of blocks that `Encode` closes because they are full. */
  function FullBlocks(s: bytes): nat
    decreases |s|
  {
    match CutBlock(s)
    case Last(_) => 0
    case Zero(_, rest) => FullBlocks(rest)
    case Full(_, rest) => 1 + FullBlocks(rest)
  }

  /** The position of the last code byte of a frame. */
  function LastCode(f: bytes): (i: nat)
    requires f != []
    ensures i < |f|
  {
    var n := BlockLength(f[0]);
    if n >= |f| then 0 else n + LastCode(f[n..])
  }

  /** A frame whose last block is exactly as long as its code byte says, and not full. */
  predicate Canonical(f: bytes)
    requires f != []
  {
    var i := LastCode(f);
    f[i] as nat == |f| - i && f[i] != 255
  }

  /**
   What re-encoding makes of a frame: a last block of 254 data bytes gets the empty block that
   the encoder always emits after a full one; any other last block gets its true length as code.
   */
  function Canon(f: bytes): bytes
    requires f != []
  {
    CanonAt(f, LastCode(f))
  }

  function CanonAt(f: bytes, i: nat): bytes
    requires i < |f|
  {
    if |f| - i == FULL + 1 then f + [1]
    else if |f| - i <= FULL then f[i := (|f| - i) as byte]
    else f
  }

  // ---- how Encode meets one block --------------------------------------------------------

  lemma CutZero(body: bytes, rest: bytes)
    requires ZeroFree(body) && |body| < FULL
    ensures CutBlock(body + [0] + rest) == Zero(body, rest)
  {
    var s := body + [0] + rest;
    assert s[|body|] == 0;
    assert forall i | 0 <= i < |body| :: s[i] == body[i];
    assert s[..|body|] == body && s[|body| + 1..] == rest;
  }

  lemma CutFull(body: bytes, rest: bytes)
    requires ZeroFree(body) && |body| == FULL
    ensures CutBlock(body + rest) == Full(body, rest)
  {
    var s := body + rest;
    assert forall i | 0 <= i < |body| :: s[i] == body[i];
    assert s[..|body|] == body && s[|body|..] == rest;
  }

  lemma EncodeZero(body: bytes, rest: bytes)
    requires ZeroFree(body) && |body| < FULL
    ensures Encode(body + [0] + rest) == [|body| as byte + 1] + body + Encode(rest)
  {
    CutZero(body, rest);
  }

  lemma EncodeFull(body: bytes, rest: bytes)
    requires ZeroFree(body) && |body| == FULL
    ensures Encode(body + rest) == [255] + body + Encode(rest)
  {
    CutFull(body, rest);
  }

  lemma EncodeLast(body: bytes)
    requires ZeroFree(body) && |body| < FULL
    ensures Encode(body) == [|body| as byte + 1] + body
  {
    assert CutBlock(body) == Last(body);
  }

  lemma DecodeBlock(code: byte, body: bytes, rest: bytes)
    requires rest != [] && BlockLength(code) == |body| + 1
    ensures Decode([code] + body + rest) == body + (if code == 255 then [] else [0]) + Decode(rest)
  {
    var f := [code] + body + rest;
    assert f[1..|body| + 1] == body && f[|body| + 1..] == rest;
  }

  // ---- the encoding itself ---------------------------------------------------------------

  /** An encoded message contains no zero byte, so a zero can end it on the wire. */
  lemma {:induction false} EncodeZeroFree(s: bytes)
    ensures ZeroFree(Encode(s))
    decreases |s|
  {
    match CutBlock(s)
    case Last(_) =>
    case Zero(_, rest) => EncodeZeroFree(rest);
    case Full(_, rest) => EncodeZeroFree(rest);
  }

  /** Decoding an encoded message gives the message back, whatever its bytes. */
  lemma {:induction false} RoundTrip(s: bytes)
    ensures Decode(Encode(s)) == s
    decreases |s|
  {
    match CutBlock(s)
    case Last(_) =>
    case Zero(body, rest) =>
      RoundTrip(rest);
      DecodeBlock(|body| as byte + 1, body, Encode(rest));
    case Full(body, rest) =>
      RoundTrip(rest);
      DecodeBlock(255, body, Encode(rest));
  }

  /** The exact length of the encoding, and the bound used to size buffers. */
  lemma {:induction false} EncodedLength(s: bytes)
    ensures |Encode(s)| == 1 + |s| + FullBlocks(s)
    ensures FullBlocks(s) <= |s| / FULL
    decreases |s|
  {
    match CutBlock(s)
    case Last(_) =>
    case Zero(_, rest) => EncodedLength(rest);
    case Full(_, rest) => EncodedLength(rest);
  }

  // ---- the other direction ---------------------------------------------------------------

  lemma ReEncodeLast(f: bytes)
    requires f != [] && ZeroFree(f) && |f| <= f[0] as nat
    ensures Encode(f[1..]) == Canon(f)
  {
    assert LastCode(f) == 0;
    if |f| == FULL + 1 {
      EncodeFull(f[1..], []);
      EncodeLast([]);
      assert f[1..] + [] == f[1..];
      assert f == [255] + f[1..];
    } else {
      EncodeLast(f[1..]);
    }
  }

  lemma LastCodeBlock(code: byte, body: bytes, rest: bytes)
    requires rest != [] && BlockLength(code) == |body| + 1
    ensures LastCode([code] + body + rest) == |body| + 1 + LastCode(rest)
  {
    var f := [code] + body + rest;
    assert f[|body| + 1..] == rest;
  }

  lemma CanonShift(front: bytes, rest: bytes, i: nat)
    requires i < |rest|
    ensures CanonAt(front + rest, |front| + i) == front + CanonAt(rest, i)
  {
  }

  lemma CanonBlock(code: byte, body: bytes, rest: bytes)
    requires rest != [] && BlockLength(code) == |body| + 1
    ensures Canon([code] + body + rest) == [code] + body + Canon(rest)
  {
    LastCodeBlock(code, body, rest);
    CanonShift([code] + body, rest, LastCode(rest));
  }

  lemma ReEncodeBlock(code: byte, body: bytes, rest: bytes)
    requires rest != [] && code as nat == |body| + 1 && ZeroFree(body)
    ensures Encode(Decode([code] + body + rest)) == [code] + body + Encode(Decode(rest))
  {
    DecodeBlock(code, body, rest);
    if |body| == FULL {
      EncodeFull(body, Decode(rest));
      assert body + [] == body;
    } else {
      EncodeZero(body, Decode(rest));
    }
  }

  /** Re-encoding the decoding of a zero-free frame yields the frame with its end made canonical. */
  lemma {:induction false} ReEncode(f: bytes)
    requires f != [] && ZeroFree(f)
    ensures Encode(Decode(f)) == Canon(f)
  {
    var n := f[0] as nat;
    if n >= |f| {
      ReEncodeLast(f);
    } else {
      ReEncode(f[n..]);
      ReEncodeBlock(f[0], f[1..n], f[n..]);
      CanonBlock(f[0], f[1..n], f[n..]);
      assert f == [f[0]] + f[1..n] + f[n..];
    }
  }

  lemma CanonIdentity(f: bytes, i: nat)
    requires i < |f| && |f| - i <= f[i] as nat
    ensures CanonAt(f, i) == f <==> f[i] as nat == |f| - i && f[i] != 255
  {
    if |f| - i <= FULL {
      assert CanonAt(f, i)[i] == (|f| - i) as byte;
    }
  }

  /** Exactly the canonical frames survive decoding and re-encoding unchanged. */
  lemma ReEncodeIdentity(f: bytes)
    requires f != [] && ZeroFree(f)
    ensures Encode(Decode(f)) == f <==> Canonical(f)
  {
    ReEncode(f);
    LastBlockShort(f);
    CanonIdentity(f, LastCode(f));
  }

  /** The canonical zero-free frames are precisely the encodings. */
  lemma EncodingsAreCanonical(f: bytes)
    requires f != []
    ensures (exists s :: Encode(s) == f) <==> ZeroFree(f) && Canonical(f)
  {
    if ZeroFree(f) && Canonical(f) {
      ReEncodeIdentity(f);
    }
    forall s | Encode(s) == f
      ensures ZeroFree(f) && Canonical(f)
    {
      EncodeZeroFree(s);
      RoundTrip(s);
      ReEncodeIdentity(f);
    }
  }

  lemma {:induction false} LastBlockShort(f: bytes)
    requires f != [] && ZeroFree(f)
    ensures |f| - LastCode(f) <= f[LastCode(f)] as nat
  {
    var n := f[0] as nat;
    if n < |f| {
      LastBlockShort(f[n..]);
    }
  }
}
