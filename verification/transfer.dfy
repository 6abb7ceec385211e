/** The 32-bit FNV-1a hash. */
module Fnv {
  import opened Bytes

  const OFFSET_BASIS: bv32 := 0x811c9dc5
  /** One byte: exclusive or with it, then the product with the FNV prime. */
  function Mix(h: bv32, x: byte): bv32 {
    (h ^ (x as bv32)) * 0x1000193
  }

  /** A step as the exact product of two numbers, which is below 2^57, taken modulo 2^32. */
  lemma MixExact(h: bv32, x: byte)
    ensures ((h ^ (x as bv32)) as bv64 * 16777619) >> 57 == 0
    ensures Mix(h, x) as bv64 == ((h ^ (x as bv32)) as bv64 * 16777619) % 0x1_0000_0000
  {
  }

  function Hash(h: bv32, data: bytes): bv32
    decreases |data|
  {
    if data == [] then h else Hash(Mix(h, data[0]), data[1..])
  }

  /** Hashing piece by piece gives the hash of the whole. */
  lemma {:induction false} HashOfParts(h: bv32, a: bytes, b: bytes)
    ensures Hash(h, a + b) == Hash(Hash(h, a), b)
    decreases |a|
  {
    if a == [] {
      assert a + b == b;
    } else {
      HashOfParts(Mix(h, a[0]), a[1..], b);
      assert (a + b)[1..] == a[1..] + b;
    }
  }

  /** Published values of the function: of the empty string, of "a" and of "foobar". */
  lemma PublishedEmpty()
    ensures Hash(OFFSET_BASIS, []) == 0x811c9dc5
  {
  }

  lemma PublishedA()
    ensures Hash(OFFSET_BASIS, [97]) == 0xe40c292c
  {
    assert [97 as byte][1..] == [];
  }

  lemma PublishedFoobar()
    ensures Hash(OFFSET_BASIS, [102, 111, 111, 98, 97, 114]) == 0xbf9cf968
  {
    var data: bytes := [102, 111, 111, 98, 97, 114];
    assert data[1..] == [111, 111, 98, 97, 114];
    assert data[1..][1..] == [111, 98, 97, 114];
  }

  class Fnv1a {
    var hash: bv32

    constructor ()
      ensures hash == OFFSET_BASIS
    {
      hash := OFFSET_BASIS;
    }

    method Update(data: bytes)
      modifies this
      ensures hash == Hash(old(hash), data)
    {
      for i := 0 to |data|
        invariant Hash(hash, data[i..]) == Hash(old(hash), data)
      {
        assert data[i..][1..] == data[i + 1..];
        hash := Mix(hash, data[i]);
      }
    }
  }
}

/** One file transfer: a slot with an open file, filled by chunks, checked at the end. */
module Transfers {
  import opened Basics
  import opened Bytes
  import opened Fnv
  import opened Chunks

  datatype Error = NoError | InputError

  newtype uint32 = x: int | 0 <= x < 0x1_0000_0000

  const BUFFER_SIZE: nat := 4096

  /** The largest file whose hashing loop ends; see `HashLoopEnds`. */
  const MAX_HASHED: nat := 0x1_0000_0000 - BUFFER_SIZE

  /** The loop's 32-bit file offset after `n` turns. */
  function OffsetAfter(n: nat): nat {
    (BUFFER_SIZE * n) % 0x1_0000_0000
  }

  /** The hashing loop gets past the end of the file exactly if the file is no larger than this. */
  lemma HashLoopEnds(filesize: nat)
    ensures (exists n :: OffsetAfter(n) >= filesize) <==> filesize <= MAX_HASHED
  {
    if n :| OffsetAfter(n) >= filesize {
      assert OffsetAfter(n) % BUFFER_SIZE == 0;
      assert OffsetAfter(n) <= MAX_HASHED;
    }
    assert OffsetAfter(0xfffff) == MAX_HASHED;
  }

  const TWO_TO_THE_64: nat := 0x1_0000_0000_0000_0000

  /**
   The program adds offset and size as 64-bit numbers. Its check is right exactly if the sum does not
   wrap around, or is too large even so.
   */
  lemma SizeCheckExact(offset: nat, size: nat, filesize: nat)
    requires offset < TWO_TO_THE_64 && size < TWO_TO_THE_64 && filesize < TWO_TO_THE_64
    ensures ((offset + size) % TWO_TO_THE_64 <= filesize <==> offset + size <= filesize) <==>
            (offset + size < TWO_TO_THE_64 || offset + size - TWO_TO_THE_64 > filesize)
  {
    if offset + size >= TWO_TO_THE_64 {
      assert (offset + size) % TWO_TO_THE_64 == offset + size - TWO_TO_THE_64;
    }
  }

  /** The file at the slot's path, absent at first, and the handles given out and closed so far. */
  class Disk {
    var file: Option<bytes>
    var lastHandle: nat
    var handles: seq<nat>
    var closed: seq<nat>

    ghost predicate Valid()
      reads this
    {
      && Distinct(handles) && Distinct(closed)
      && (forall h | h in handles :: 0 < h <= lastHandle)
      && (forall h | h in closed :: h in handles)
    }

    predicate IsOpen(h: nat)
      reads this
    {
      h in handles && h !in closed
    }

    constructor ()
      ensures Valid() && file == None && handles == []
    {
      file, lastHandle, handles, closed := None, 0, [], [];
    }

    /** Creates the file if it is not there. */
    method Open() returns (h: nat)
      requires Valid()
      modifies this
      ensures Valid() && h != 0 && h !in old(handles) && IsOpen(h)
      ensures handles == old(handles) + [h] && closed == old(closed)
      ensures file == if old(file).None? then Some([]) else old(file)
    {
      if file.None? {
        file := Some([]);
      }
      assert forall i | 0 <= i < |handles| :: handles[i] in handles;
      lastHandle := lastHandle + 1;
      handles := handles + [lastHandle];
      return lastHandle;
    }

    method Write(h: nat, c: Chunk)
      requires IsOpen(h) && file.Some?
      modifies this`file
      ensures file == Some(WriteAt(old(file).value, c))
    {
      file := Some(WriteAt(file.value, c));
    }

    method Read(h: nat, offset: nat, n: nat) returns (data: bytes)
      requires IsOpen(h) && file.Some?
      ensures var len := |file.value|;
              data == if offset >= len then [] else file.value[offset..Min(offset + n, len)]
    {
      var len := |file.value|;
      return if offset >= len then [] else file.value[offset..Min(offset + n, len)];
    }

    method Close(h: nat)
      requires Valid() && IsOpen(h)
      modifies this`closed
      ensures Valid() && closed == old(closed) + [h]
    {
      closed := closed + [h];
    }

    method Unlink()
      requires file.Some?
      modifies this`file
      ensures file == None
    {
      file := None;
    }
  }

  /** What may be done to a slot. */
  datatype SlotOp = Begin | Data(offset: nat, data: bytes) | End(expected: bv32) | Shut

  predicate Begun(ops: seq<SlotOp>) {
    exists op :: op in ops && op.Begin?
  }

  /**
   A slot is started once. Its operations run one at a time, the start first, so that data and end
   come behind it; only a shutdown does not wait for it, and leaves a slot that is not listed.
   */
  predicate Ordered(ops: seq<SlotOp>) {
    forall i | 0 <= i < |ops| ::
      match ops[i]
      case Begin => !Begun(ops[..i])
      case Shut => true
      case _ => Begun(ops[..i]) || Shut in ops[..i]
  }

  function Added(op: SlotOp, err: Error): seq<Chunk> {
    if op.Data? && err == NoError then [Chunk(op.offset, op.data)] else []
  }

  /** The chunks of the data operations that succeeded. */
  function Accepted(ops: seq<SlotOp>, errs: seq<Error>): seq<Chunk>
    requires |ops| == |errs|
    decreases |ops|
  {
    if ops == [] then []
    else
      var last := |ops| - 1;
      Accepted(ops[..last], errs[..last]) + Added(ops[last], errs[last])
  }

  /** Whether the map still has the slot after these operations. */
  predicate StillListed(ops: seq<SlotOp>) {
    forall op | op in ops :: !op.End? && !op.Shut?
  }

  /** How an operation ends, given whether the slot is listed and the chunks it has accepted. */
  function Outcome(op: SlotOp, listed: bool, chunks: seq<Chunk>, filesize: nat): Error {
    var good :=
      match op
      case Begin => true
      case Data(offset, data) => listed && offset + |data| <= filesize
      case End(expected) =>
        listed && Total(chunks) == filesize && Hash(OFFSET_BASIS, FileOf(chunks)) == expected
      case Shut => true;
    if good then NoError else InputError
  }

  /** Each operation has ended as those before it determine. */
  predicate Outcomes(ops: seq<SlotOp>, errs: seq<Error>, filesize: nat) {
    && |ops| == |errs|
    && forall i | 0 <= i < |ops| :: OutcomeAt(ops, errs, filesize, i)
  }

  predicate OutcomeAt(ops: seq<SlotOp>, errs: seq<Error>, filesize: nat, i: nat)
    requires |ops| == |errs| && i < |ops|
  {
    errs[i] == Outcome(ops[i], StillListed(ops[..i]), Accepted(ops[..i], errs[..i]), filesize)
  }

  function Offered(ops: seq<SlotOp>): nat
    decreases |ops|
  {
    if ops == [] then 0
    else Offered(ops[..|ops| - 1]) + (if ops[|ops| - 1].Data? then |ops[|ops| - 1].data| else 0)
  }

  /** Whether no end can get to the hashing of a file for which the loop does not end. */
  predicate HashesEnd(ops: seq<SlotOp>, filesize: nat) {
    filesize > MAX_HASHED ==> forall i | 0 <= i < |ops| && ops[i].End? :: Offered(ops[..i]) < filesize
  }

  /** Whether some end succeeded. */
  predicate Ended(ops: seq<SlotOp>, errs: seq<Error>)
    requires |ops| == |errs|
  {
    exists i :: 0 <= i < |ops| && ops[i].End? && errs[i] == NoError
  }

  lemma OneMore(ops: seq<SlotOp>, op: SlotOp, errs: seq<Error>, err: Error)
    requires |ops| == |errs|
    ensures Begun(ops + [op]) <==> Begun(ops) || op.Begin?
    ensures Shut in ops + [op] <==> Shut in ops || op.Shut?
    ensures Ended(ops + [op], errs + [err]) <==> Ended(ops, errs) || (op.End? && err == NoError)
    ensures Accepted(ops + [op], errs + [err]) == Accepted(ops, errs) + Added(op, err)
  {
    var ops', errs' := ops + [op], errs + [err];
    assert ops'[..|ops|] == ops && errs'[..|ops|] == errs;
    assert op in ops' && forall o | o in ops :: o in ops';
    if i :| 0 <= i < |ops| && ops[i].End? && errs[i] == NoError {
      assert ops'[i].End? && errs'[i] == NoError;
    }
    assert ops'[|ops|] == op && errs'[|ops|] == err;
  }

  lemma OneMoreOutcome(ops: seq<SlotOp>, op: SlotOp, errs: seq<Error>, err: Error, filesize: nat)
    requires Outcomes(ops, errs, filesize)
    requires err == Outcome(op, StillListed(ops), Accepted(ops, errs), filesize)
    ensures Outcomes(ops + [op], errs + [err], filesize)
    ensures StillListed(ops + [op]) <==> StillListed(ops) && !op.End? && !op.Shut?
  {
    var ops', errs' := ops + [op], errs + [err];
    forall i | 0 <= i < |ops'|
      ensures OutcomeAt(ops', errs', filesize, i)
    {
      if i < |ops| {
        assert OutcomeAt(ops, errs, filesize, i);
        assert ops'[..i] == ops[..i] && errs'[..i] == errs[..i];
      } else {
        assert ops'[..i] == ops && errs'[..i] == errs;
      }
    }
    assert op in ops' && forall o | o in ops :: o in ops';
  }

  lemma AllButLast(ops: seq<SlotOp>, front: seq<SlotOp>, op: SlotOp, filesize: nat)
    requires Ordered(ops) && HashesEnd(ops, filesize) && ops == front + [op]
    ensures Ordered(front) && HashesEnd(front, filesize)
    ensures op.End? && filesize > MAX_HASHED ==> Offered(front) < filesize
    ensures Offered(ops) == Offered(front) + if op.Data? then |op.data| else 0
    ensures op.Begin? ==> !Begun(front)
    ensures !op.Begin? && !op.Shut? ==> Begun(front) || Shut in front
  {
    assert ops[|front|] == op && ops[..|front|] == front;
    assert forall i | 0 <= i < |front| :: front[i] == ops[i] && front[..i] == ops[..i];
  }

  class FileTransferSlot {
    const disk: Disk
    const filesize: nat
    /** The open handle, or 0. */
    var fh: nat
    var writtenBytes: nat
    /** Whether the map of transfers still has the slot. */
    var listed: bool
    ghost var started: bool
    /** Whether the transfer has ended without an error. */
    ghost var completed: bool
    /** The chunks accepted so far. */
    ghost var chunks: seq<Chunk>

    ghost predicate Valid()
      reads this, disk
    {
      && disk.Valid()
      && (forall h | h in disk.handles :: h in disk.closed || h == fh)
      && (fh != 0 ==> started && !completed && disk.IsOpen(fh))
      && (listed && started ==> fh != 0)
      && (disk.file.Some? <==> fh != 0 || completed)
      && (disk.file.Some? ==> disk.file.value == FileOf(chunks))
      && InBounds(chunks, filesize) && writtenBytes == Total(chunks)
      && (!started ==> chunks == [] && !completed)
      && (completed ==> writtenBytes == filesize)
    }

    constructor (disk: Disk, filesize: nat)
      requires disk.Valid() && disk.file.None? && disk.handles == []
      ensures Valid() && this.disk == disk && this.filesize == filesize
      ensures listed && !started && chunks == []
    {
      this.disk, this.filesize := disk, filesize;
      fh, writtenBytes, listed := 0, 0, true;
      started, completed, chunks := false, false, [];
    }

    method Start()
      requires Valid() && !started
      modifies this, disk
      ensures Valid() && started && fh != 0 && !completed && listed == old(listed) && chunks == old(chunks)
    {
      fh := disk.Open();
      started := true;
    }

    /**
     A chunk is accepted exactly if the transfer is still listed and the chunk ends within the
     declared size. Earlier operations of the slot come first, so it has been started by then.
     */
    method TransferData(offset: nat, data: bytes) returns (err: Error)
      requires Valid() && (listed ==> started)
      modifies this, disk
      ensures Valid() && fh == old(fh) && listed == old(listed)
      ensures started == old(started) && completed == old(completed)
      ensures err == NoError <==> listed && offset + |data| <= filesize
      ensures chunks == if err == NoError then old(chunks) + [Chunk(offset, data)] else old(chunks)
    {
      if !listed {
        return InputError;
      }
      if offset + |data| > filesize {
        return InputError;
      }
      ghost var c := Chunk(offset, data);
      disk.Write(fh, Chunk(offset, data));
      writtenBytes := writtenBytes + |data|;
      assert (chunks + [c])[..|chunks|] == chunks;
      chunks := chunks + [c];
      return NoError;
    }

    method HashFile() returns (hash: bv32)
      requires Valid() && fh != 0 && filesize <= MAX_HASHED
      ensures hash == Hash(OFFSET_BASIS, disk.file.value)
    {
      ghost var content := disk.file.value;
      FileInside(chunks, filesize);
      var hasher := new Fnv1a();
      var offset: uint32 := 0;
      ghost var turns := 0;
      while offset as int < filesize
        invariant offset as int == BUFFER_SIZE * turns && turns <= 0xfffff && fresh(hasher)
        invariant hasher.hash == Hash(OFFSET_BASIS, ReadSoFar(content, offset as int))
        decreases filesize - offset as int
      {
        var data := disk.Read(fh, offset as int, BUFFER_SIZE);
        HashOn(content, offset as int, data);
        hasher.Update(data);
        offset, turns := offset + 4096, turns + 1;
      }
      ReadAll(content, offset as int);
      return hasher.hash;
    }

    /** Succeeds exactly if the sizes of the accepted chunks add up and the file has the expected hash. */
    method EndTransfer(expected: bv32) returns (err: Error)
      requires Valid() && (listed ==> started)
      requires listed && writtenBytes == filesize ==> filesize <= MAX_HASHED
      modifies this, disk
      ensures Valid() && !listed && started == old(started) && chunks == old(chunks)
      ensures err == NoError <==>
              && old(listed) && Total(chunks) == filesize
              && Hash(OFFSET_BASIS, FileOf(chunks)) == expected
      ensures completed == (err == NoError || old(completed))
      ensures err == InputError ==> fh == old(fh)
    {
      if !listed {
        return InputError;
      }
      err := End(expected);
      listed := false;
    }

    method End(expected: bv32) returns (err: Error)
      requires Valid() && fh != 0
      requires writtenBytes == filesize ==> filesize <= MAX_HASHED
      modifies this`fh, this`completed, this`listed, disk`closed
      ensures !listed && Valid()
      ensures err == NoError <==> writtenBytes == filesize && Hash(OFFSET_BASIS, FileOf(chunks)) == expected
      ensures completed == (err == NoError)
      ensures err == InputError ==> fh == old(fh)
    {
      listed := false;
      if writtenBytes != filesize {
        return InputError;
      }
      var hash := HashFile();
      if hash != expected {
        return InputError;
      }
      CloseFile();
      completed := true;
      return NoError;
    }

    method CloseFile()
      requires disk.Valid() && disk.IsOpen(fh)
      requires forall h | h in disk.handles :: h in disk.closed || h == fh
      modifies this`fh, disk`closed
      ensures disk.Valid() && fh == 0 && forall h | h in disk.handles :: h in disk.closed
    {
      disk.Close(fh);
      fh := 0;
    }

    /** Called whenever the folder of the file goes away, once or twice, the slot listed or not. */
    method Shutdown()
      requires Valid()
      modifies this, disk
      ensures Valid() && !listed && fh == 0
      ensures started == old(started) && completed == old(completed) && chunks == old(chunks)
    {
      listed := false;
      Discard();
    }

    /** The end of the whole map, which lets go of all its slots. */
    method Unlist()
      requires Valid()
      modifies this`listed
      ensures Valid() && !listed
    {
      listed := false;
    }

    /** One operation, whichever it is. */
    method Do(op: SlotOp) returns (err: Error)
      requires Valid() && (op.Begin? ==> !started) && (listed && !op.Begin? && !op.Shut? ==> started)
      requires op.End? && writtenBytes == filesize ==> filesize <= MAX_HASHED
      modifies this, disk
      ensures Valid() && (started <==> old(started) || op.Begin?)
      ensures listed <==> old(listed) && !op.End? && !op.Shut?
      ensures completed <==> old(completed) || (op.End? && err == NoError)
      ensures op.Begin? || op.Shut? ==> err == NoError
      ensures op.Data? ==> (err == NoError <==> old(listed) && op.offset + |op.data| <= filesize)
      ensures op.End? ==>
                (err == NoError <==>
                 && old(listed) && Total(old(chunks)) == filesize
                 && Hash(OFFSET_BASIS, FileOf(old(chunks))) == op.expected)
      ensures chunks == old(chunks) + Added(op, err)
      ensures writtenBytes <= old(writtenBytes) + if op.Data? then |op.data| else 0
    {
      err := NoError;
      match op
      case Begin => Start();
      case Data(offset, data) => err := TransferData(offset, data);
      case End(expected) => err := EndTransfer(expected);
      case Shut => Shutdown();
    }

    /** The slot's destroy task, run once nothing refers to the slot any more. */
    method Destroy()
      requires Valid() && !listed
      modifies this, disk
      ensures Valid() && !listed && completed == old(completed) && chunks == old(chunks)
      ensures Distinct(disk.handles) && Distinct(disk.closed)
      ensures forall h :: h in disk.handles <==> h in disk.closed
      ensures disk.file.Some? <==> completed
    {
      Discard();
    }

    method DoAll(ops: seq<SlotOp>) returns (errs: seq<Error>)
      requires Valid() && listed && !started && !completed && chunks == [] && Ordered(ops)
      requires HashesEnd(ops, filesize)
      modifies this, disk
      ensures Valid() && |errs| == |ops|
      ensures started <==> Begun(ops)
      ensures listed <==> StillListed(ops)
      ensures Outcomes(ops, errs, filesize)
      ensures completed <==> Ended(ops, errs)
      ensures writtenBytes <= Offered(ops)
      ensures chunks == Accepted(ops, errs)
      decreases |ops|
    {
      if ops == [] {
        return [];
      }
      var front, op := ops[..|ops| - 1], ops[|ops| - 1];
      assert ops == front + [op];
      AllButLast(ops, front, op, filesize);
      errs := DoAll(front);
      var err := Do(op);
      OneMore(front, op, errs, err);
      OneMoreOutcome(front, op, errs, err, filesize);
      errs := errs + [err];
    }

    method Discard()
      requires Valid() && !listed
      modifies this`fh, disk
      ensures Valid() && fh == 0 && disk.handles == old(disk.handles)
    {
      if fh != 0 {
        CloseFile();
        disk.Unlink();
      }
    }

    /** A completed transfer of disjoint chunks has left exactly the file they make up. */
    lemma CompletedFile()
      requires Valid() && completed && Disjoint(chunks)
      ensures |disk.file.value| == filesize && Complete(chunks, filesize)
      ensures forall i, x | 0 <= i < |chunks| && Covers(chunks[i], x) :: From(disk.file.value, chunks[i], x)
    {
      Assembled(chunks, filesize);
    }
  }

  /**
   The life of a slot: operations in any order, then, the map having let go of it, its destruction.
   Each operation succeeds or fails as those before it determine. Every handle opened has been closed,
   once; there is a file exactly if an end succeeded, and it is the file of all chunks accepted.
   */
  method Lifetime(disk: Disk, filesize: nat, ops: seq<SlotOp>) returns (errs: seq<Error>)
    requires disk.Valid() && disk.file.None? && disk.handles == [] && Ordered(ops)
    requires HashesEnd(ops, filesize)
    modifies disk
    ensures Outcomes(ops, errs, filesize)
    ensures Distinct(disk.handles) && Distinct(disk.closed)
    ensures forall h :: h in disk.handles <==> h in disk.closed
    ensures disk.file.Some? <==> Ended(ops, errs)
    ensures disk.file.Some? ==>
              disk.file.value == FileOf(Accepted(ops, errs)) && Total(Accepted(ops, errs)) == filesize
  {
    var slot := new FileTransferSlot(disk, filesize);
    errs := slot.DoAll(ops);
    slot.Unlist();
    slot.Destroy();
  }

  // ---- a whole transfer ---------------------------------------------------------------------

  /** The start, and the chunks one after the other. */
  function Sent(chunks: seq<Chunk>): seq<SlotOp> {
    if chunks == [] then [Begin]
    else Sent(chunks[..|chunks| - 1]) + [Data(chunks[|chunks| - 1].offset, chunks[|chunks| - 1].data)]
  }

  /** What a transfer without failures consists of. */
  function Transfer(chunks: seq<Chunk>, expected: bv32): seq<SlotOp> {
    Sent(chunks) + [End(expected)]
  }

  lemma OutcomesFront(front: seq<SlotOp>, op: SlotOp, errs: seq<Error>, filesize: nat)
    requires Outcomes(front + [op], errs, filesize)
    ensures var n := |front|;
            && Outcomes(front, errs[..n], filesize) && errs == errs[..n] + [errs[n]]
            && errs[n] == Outcome(op, StillListed(front), Accepted(front, errs[..n]), filesize)
  {
    var ops, n := front + [op], |front|;
    assert OutcomeAt(ops, errs, filesize, n);
    assert ops[..n] == front;
    forall i | 0 <= i < n
      ensures OutcomeAt(front, errs[..n], filesize, i)
    {
      OutcomeInFront(front, op, errs, filesize, i);
    }
  }

  lemma OutcomeInFront(front: seq<SlotOp>, op: SlotOp, errs: seq<Error>, filesize: nat, i: nat)
    requires |errs| == |front| + 1 && i < |front| && OutcomeAt(front + [op], errs, filesize, i)
    ensures OutcomeAt(front, errs[..|front|], filesize, i)
  {
    assert (front + [op])[..i] == front[..i];
    assert errs[..i] == errs[..|front|][..i];
  }

  lemma AcceptOne(front: seq<SlotOp>, op: SlotOp, errs: seq<Error>, chunks: seq<Chunk>, filesize: nat)
    requires Outcomes(front + [op], errs, filesize) && StillListed(front)
    requires Accepted(front, errs[..|front|]) == chunks
    requires op.Begin? || (op.Data? && op.offset + |op.data| <= filesize)
    ensures errs == errs[..|front|] + [NoError] && StillListed(front + [op])
    ensures Accepted(front + [op], errs) == chunks + Added(op, NoError)
  {
    var n := |front|;
    OutcomesFront(front, op, errs, filesize);
    OneMore(front, op, errs[..n], errs[n]);
    OneMoreOutcome(front, op, errs[..n], errs[n], filesize);
  }

  /** Chunks within the file are all accepted, in their order. */
  lemma {:induction false} DataAccepted(chunks: seq<Chunk>, errs: seq<Error>, filesize: nat)
    requires InBounds(chunks, filesize) && Outcomes(Sent(chunks), errs, filesize)
    ensures forall err | err in errs :: err == NoError
    ensures StillListed(Sent(chunks)) && Accepted(Sent(chunks), errs) == chunks
    decreases |chunks|
  {
    if chunks == [] {
      assert Sent(chunks) == [] + [Begin];
      AcceptOne([], Begin, errs, [], filesize);
    } else {
      var n := |chunks| - 1;
      var front, op := Sent(chunks[..n]), Data(chunks[n].offset, chunks[n].data);
      OutcomesFront(front, op, errs, filesize);
      DataAccepted(chunks[..n], errs[..|front|], filesize);
      AcceptOne(front, op, errs, chunks[..n], filesize);
      SplitLast(chunks);
    }
  }

  lemma NotEnded(ops: seq<SlotOp>, errs: seq<Error>)
    requires StillListed(ops) && |ops| == |errs|
    ensures !Ended(ops, errs)
  {
    assert forall i | 0 <= i < |ops| :: ops[i] in ops;
  }

  /** A transfer of chunks that add up ends without an error exactly if their file has the expected hash. */
  lemma TransferEnds(chunks: seq<Chunk>, errs: seq<Error>, filesize: nat, expected: bv32)
    requires InBounds(chunks, filesize) && Total(chunks) == filesize
    requires Outcomes(Transfer(chunks, expected), errs, filesize)
    ensures Accepted(Transfer(chunks, expected), errs) == chunks
    ensures Ended(Transfer(chunks, expected), errs) <==> Hash(OFFSET_BASIS, FileOf(chunks)) == expected
    ensures Ended(Transfer(chunks, expected), errs) ==> forall err | err in errs :: err == NoError
  {
    var front := Sent(chunks);
    OutcomesFront(front, End(expected), errs, filesize);
    var n := |front|;
    DataAccepted(chunks, errs[..n], filesize);
    OneMore(front, End(expected), errs[..n], errs[n]);
    NotEnded(front, errs[..n]);
  }

  lemma {:induction false} SentBegins(chunks: seq<Chunk>)
    ensures Sent(chunks)[0] == Begin
    ensures forall i | 0 < i < |Sent(chunks)| :: Sent(chunks)[i].Data?
    decreases |chunks|
  {
    if chunks != [] {
      SentBegins(chunks[..|chunks| - 1]);
    }
  }

  lemma TransferOrdered(chunks: seq<Chunk>, expected: bv32)
    ensures Ordered(Transfer(chunks, expected))
  {
    var ops := Transfer(chunks, expected);
    SentBegins(chunks);
    forall i | 0 < i < |ops|
      ensures Begun(ops[..i]) && !ops[i].Begin?
    {
      assert ops[..i][0] == Begin;
    }
  }

  /** One start, the disjoint chunks of a whole file in any order, and an end: the file is there if it has the hash. */
  method TransferWhole(disk: Disk, filesize: nat, chunks: seq<Chunk>, expected: bv32)
    requires disk.Valid() && disk.file.None? && disk.handles == []
    requires InBounds(chunks, filesize) && Total(chunks) == filesize && Disjoint(chunks) && filesize <= MAX_HASHED
    modifies disk
    ensures disk.file == if Hash(OFFSET_BASIS, FileOf(chunks)) == expected then Some(FileOf(chunks)) else None
    ensures |FileOf(chunks)| == filesize && Complete(chunks, filesize)
    ensures forall i, x | 0 <= i < |chunks| && Covers(chunks[i], x) :: From(FileOf(chunks), chunks[i], x)
  {
    TransferOrdered(chunks, expected);
    var errs := Lifetime(disk, filesize, Transfer(chunks, expected));
    TransferEnds(chunks, errs, filesize, expected);
    Assembled(chunks, filesize);
  }

  /** The bytes read at an offset continue the prefix that ends there. */
  function ReadSoFar(content: bytes, offset: nat): bytes {
    content[..Min(offset, |content|)]
  }

  lemma ReadAll(content: bytes, offset: nat)
    requires offset >= |content|
    ensures ReadSoFar(content, offset) == content
  {
  }

  lemma HashOn(content: bytes, offset: nat, data: bytes)
    requires data == if offset >= |content| then []
                     else content[offset..Min(offset + BUFFER_SIZE, |content|)]
    ensures Hash(OFFSET_BASIS, ReadSoFar(content, offset + BUFFER_SIZE))
            == Hash(Hash(OFFSET_BASIS, ReadSoFar(content, offset)), data)
  {
    assert ReadSoFar(content, offset) + data == ReadSoFar(content, offset + BUFFER_SIZE);
    HashOfParts(OFFSET_BASIS, ReadSoFar(content, offset), data);
  }
}
