/**
 Both ends of a connection: the sender sizes a buffer, encodes into it and ends the frame with a
 zero; the receiver collects whatever chunks arrive, cuts them at zeros and decodes in place.
 */
module Connection {
  import opened Basics
  import opened Bytes
  import opened CobsSpec
  import opened Cobs
  import opened Framing

  // ---- sending ----------------------------------------------------------------------------

  datatype SendStatus = EncodingError | WriteError | Success

  /** The buffer allocated for a message of `n` bytes. */
  function SendBufferSize(n: nat): nat {
    3 + n * 258 / 255
  }

  /** All but the last cell of that buffer are enough for any message of that size. */
  lemma SendBufferSuffices(data: bytes)
    ensures |Encode(data)| < SendBufferSize(|data|) - 1
  {
    EncodedLength(data);
    var n := |data|;
    assert n * 258 / 255 >= n + n / 254;
  }

  /**
   `written` is what is handed to the socket: the frame and the cell after it, which is still the
   zero the buffer was created with. `writeError` is the result of the socket write.
   */
  method CobsSend(data: bytes, writeError: int) returns (status: SendStatus, written: bytes)
    ensures written == Encode(data) + [0]
    ensures status == if writeError != 0 then WriteError else Success
  {
    var buff := new byte[SendBufferSize(|data|)](_ => 0);
    SendBufferSuffices(data);
    var ok, used := EncodeCobs(data, buff, buff.Length - 1);
    if !ok {
      assert false; // the encoding error is never reported
    }
    written := buff[..used + 1];
    assert written == buff[..used] + [buff[used]];
    return if writeError != 0 then WriteError else Success, written;
  }

  // ---- receiving --------------------------------------------------------------------------

  method Find(a: array<byte>, used: nat, b: byte) returns (n: nat)
    requires used <= a.Length
    ensures n <= used && forall i | 0 <= i < n :: a[i] != b
    ensures n < used ==> a[n] == b
  {
    n := 0;
    while n < used && a[n] != b
      invariant n <= used && forall i | 0 <= i < n :: a[i] != b
    {
      n := n + 1;
    }
  }

  /** Copies the cells from `first` up to `last` to the start of the buffer, lowest first. */
  method ShiftDown(a: array<byte>, first: nat, last: nat)
    requires first <= last <= a.Length
    modifies a
    ensures a[..last - first] == old(a[first..last])
  {
    ghost var a0 := a[..];
    for k := 0 to last - first
      invariant forall i | 0 <= i < k :: a[i] == a0[first + i]
      invariant forall i | k <= i < a.Length :: a[i] == a0[i]
    {
      a[k] := a[first + k];
    }
  }

  class CobsReceiver {
    const rxBuffer: array<byte>
    var rxUsed: nat
    /** Everything received on the connection so far. */
    ghost var received: bytes
    /** What the callback was called with, in order. */
    var delivered: seq<bytes>

    ghost predicate Valid()
      reads this, rxBuffer
    {
      && rxUsed <= rxBuffer.Length
      && NonEmpty(Frames(received))
      && rxBuffer[..rxUsed] == Residue(received)
      && delivered == DecodeAll(Frames(received))
    }

    constructor (buffer: array<byte>)
      ensures Valid() && rxBuffer == buffer && received == [] && delivered == []
    {
      rxBuffer, rxUsed := buffer, 0;
      received, delivered := [], [];
      new;
      NoFrame([]);
    }

    /**
     Takes one chunk. The program aborts exactly when the chunk does not fit behind the residue;
     otherwise the decodings of all frames completed by it are delivered (see `Valid`).
     */
    method HandleRx(data: bytes) returns (aborted: bool)
      requires Valid() && NonEmpty(Frames(received + data))
      modifies this, rxBuffer
      ensures aborted <==> rxBuffer.Length - old(rxUsed) < |data|
      ensures aborted ==> unchanged(this) && unchanged(rxBuffer)
      ensures !aborted ==> Valid() && received == old(received) + data
    {
      if rxBuffer.Length - rxUsed < |data| {
        return true;
      }
      ghost var rest := Residue(received) + data;
      FramesOfParts(received, data);
      DecodeAllOfParts(Frames(received), Frames(rest));
      Append(data);
      Drain(rest, DecodeAll(Frames(rest)), Residue(rest));
      received := received + data;
      return false;
    }

    method Append(data: bytes)
      requires rxUsed + |data| <= rxBuffer.Length
      modifies this`rxUsed, rxBuffer
      ensures rxUsed == old(rxUsed) + |data| <= rxBuffer.Length
      ensures rxBuffer[..rxUsed] == old(rxBuffer[..rxUsed]) + data
    {
      ghost var buffer0 := rxBuffer[..];
      for k := 0 to |data|
        invariant rxUsed == old(rxUsed)
        invariant forall i | 0 <= i < rxUsed :: rxBuffer[i] == buffer0[i]
        invariant forall i | 0 <= i < k :: rxBuffer[rxUsed + i] == data[i]
      {
        rxBuffer[rxUsed + k] := data[k];
      }
      rxUsed := rxUsed + |data|;
    }

    /** The loop over the complete frames in the buffer. */
    method Drain(ghost stream: bytes, ghost msgs: seq<bytes>, ghost residue: bytes)
      requires rxUsed <= rxBuffer.Length && rxBuffer[..rxUsed] == stream && Yields(stream, msgs, residue)
      modifies this`rxUsed, this`delivered, rxBuffer
      ensures rxUsed <= rxBuffer.Length && rxBuffer[..rxUsed] == residue
      ensures delivered == old(delivered) + msgs
    {
      ghost var rest, left := stream, msgs;
      while true
        invariant rxUsed <= rxBuffer.Length && rxBuffer[..rxUsed] == rest
        invariant Yields(rest, left, residue)
        invariant delivered + left == old(delivered) + msgs
        decreases rxUsed
      {
        var n := Find(rxBuffer, rxUsed, 0);
        if n == rxUsed {
          YieldsNothing(rest, left, residue);
          break;
        }
        YieldsFrame(rest, n, left, residue);
        MoveFirst(delivered, left);
        TakeFrame(n, rest);
        rest, left := rest[n + 1..], left[1..];
      }
    }

    /** Decodes the frame of `n` bytes at the start of the buffer, delivers it and moves the rest down. */
    method TakeFrame(n: nat, ghost rest: bytes)
      requires 0 < n < rxUsed <= rxBuffer.Length && rxBuffer[..rxUsed] == rest
      modifies this`rxUsed, this`delivered, rxBuffer
      ensures rxUsed == old(rxUsed) - (n + 1) && rxBuffer[..rxUsed] == rest[n + 1..]
      ensures delivered == old(delivered) + [Decode(rest[..n])]
    {
      assert rxBuffer[..n] == rest[..n];
      DecodeShortens(rest[..n]);
      var ok, used := DecodeCobs(rxBuffer, n, rxBuffer, n);
      assert ok && rxBuffer[n + 1..rxUsed] == rest[n + 1..];
      delivered := delivered + [rxBuffer[..used]];
      ShiftDown(rxBuffer, n + 1, rxUsed);
      rxUsed := rxUsed - (n + 1);
    }
  }

  // ---- a whole session --------------------------------------------------------------------

  /** Sends the messages one after the other; the result is the byte stream they form. */
  method SendAll(msgs: seq<bytes>) returns (stream: bytes)
    ensures stream == Wire(msgs)
  {
    stream := [];
    for i := 0 to |msgs|
      invariant stream + Wire(msgs[i..]) == Wire(msgs)
    {
      var status, written := CobsSend(msgs[i], 0);
      assert msgs[i..][0] == msgs[i] && msgs[i..][1..] == msgs[i + 1..];
      Assoc(stream, written, Wire(msgs[i + 1..]));
      stream := stream + written;
    }
  }

  /**
   However the stream of the encoded messages is cut into chunks, the receiver delivers exactly
   the messages, in order, and ends with an empty buffer. It never aborts if its buffer has room
   for a chunk behind all but the last byte of the longest frame with its terminator.
   */
  method ReceiveAll(r: CobsReceiver, msgs: seq<bytes>, chunks: seq<bytes>, longest: nat, chunkMax: nat)
    requires r.Valid() && r.rxUsed == 0
    requires Concat(chunks) == Wire(msgs)
    requires forall m | m in msgs :: |Encode(m)| + 1 <= longest
    requires forall c | c in chunks :: |c| <= chunkMax
    requires longest - 1 + chunkMax <= r.rxBuffer.Length && chunkMax <= r.rxBuffer.Length
    modifies r, r.rxBuffer
    ensures r.Valid() && r.rxUsed == 0
    ensures r.delivered == old(r.delivered) + msgs
  {
    ghost var before, got, left := r.received, [], chunks;
    for k := 0 to |chunks|
      invariant r.Valid() && r.received == before + got
      invariant left == chunks[k..] && got + Concat(left) == Wire(msgs)
    {
      assert chunks[k] in chunks;
      Assoc(got, left[0], Concat(left[1..]));
      Assoc(before, got, left[0]);
      MidSession(before, got, Concat(left), msgs, longest);
      MidSession(before, got + left[0], Concat(left[1..]), msgs, longest);
      var aborted := r.HandleRx(chunks[k]);
      assert !aborted;
      got, left := got + left[0], left[1..];
    }
    assert got == Wire(msgs);
    EndOfSession(before, msgs);
  }
}
