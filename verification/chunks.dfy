/** A file assembled from chunks that are written at arbitrary offsets in arbitrary order. */
module Chunks {
  import opened Bytes

  datatype Chunk = Chunk(offset: nat, data: bytes)

  predicate Covers(c: Chunk, x: int) {
    c.offset <= x < c.offset + |c.data|
  }

  predicate InBounds(chunks: seq<Chunk>, size: nat) {
    forall i | 0 <= i < |chunks| :: chunks[i].offset + |chunks[i].data| <= size
  }

  /** No byte of the file is in two chunks. */
  ghost predicate Disjoint(chunks: seq<Chunk>) {
    forall i, j, x | 0 <= i < j < |chunks| && Covers(chunks[i], x) :: !Covers(chunks[j], x)
  }

  predicate Hit(chunks: seq<Chunk>, x: int) {
    exists i :: 0 <= i < |chunks| && Covers(chunks[i], x)
  }

  /** Every byte of the file is in some chunk. */
  ghost predicate Complete(chunks: seq<Chunk>, size: nat) {
    forall x | 0 <= x < size :: Hit(chunks, x)
  }

  /** The sum of the sizes of the chunks. */
  function Total(chunks: seq<Chunk>): nat {
    if chunks == [] then 0 else Total(chunks[..|chunks| - 1]) + |chunks[|chunks| - 1].data|
  }

  /** A positioned write; a gap before it is filled with zeros, and writing nothing changes nothing. */
  function WriteAt(file: bytes, c: Chunk): bytes {
    var end := c.offset + |c.data|;
    if c.data == [] then file
    else seq(if |file| < end then end else |file|,
             i requires 0 <= i => if Covers(c, i) then c.data[i - c.offset] else if i < |file| then file[i] else 0)
  }

  /** The file after the chunks have been written one after the other. */
  function FileOf(chunks: seq<Chunk>): bytes {
    if chunks == [] then [] else WriteAt(FileOf(chunks[..|chunks| - 1]), chunks[|chunks| - 1])
  }

  // ---- counting covered bytes ---------------------------------------------------------------

  function Interval(a: nat, b: nat): (s: set<nat>)
    ensures forall x :: x in s <==> a <= x < b
    decreases b
  {
    if a >= b then {} else Interval(a, b - 1) + {b - 1}
  }

  lemma {:induction false} IntervalSize(a: nat, b: nat)
    requires a <= b
    ensures |Interval(a, b)| == b - a
    decreases b
  {
    if a < b {
      IntervalSize(a, b - 1);
    }
  }

  function Cells(c: Chunk): set<nat> {
    Interval(c.offset, c.offset + |c.data|)
  }

  function Covered(chunks: seq<Chunk>): set<nat> {
    if chunks == [] then {} else Covered(chunks[..|chunks| - 1]) + Cells(chunks[|chunks| - 1])
  }

  lemma {:induction false} CoveredBy(chunks: seq<Chunk>, x: nat)
    ensures x in Covered(chunks) <==> Hit(chunks, x)
    decreases |chunks|
  {
    if chunks != [] {
      var front, last := chunks[..|chunks| - 1], chunks[|chunks| - 1];
      CoveredBy(front, x);
      if x in Covered(front) {
        var i :| 0 <= i < |front| && Covers(front[i], x);
        assert Covers(chunks[i], x);
      }
      if x in Cells(last) {
        assert Covers(chunks[|chunks| - 1], x);
      }
      if i :| 0 <= i < |chunks| && Covers(chunks[i], x) {
        assert i < |front| ==> Covers(front[i], x);
      }
    }
  }

  lemma UnionSize(a: set<nat>, b: set<nat>)
    ensures |a + b| <= |a| + |b|
    ensures |a + b| == |a| + |b| <==> a * b == {}
  {
    assert |a + b| == |a| + |b| - |a * b|;
  }

  ghost predicate Apart(front: seq<Chunk>, last: Chunk) {
    forall i, x | 0 <= i < |front| && Covers(front[i], x) :: !Covers(last, x)
  }

  lemma DisjointSnoc(chunks: seq<Chunk>)
    requires chunks != []
    ensures Disjoint(chunks) <==>
            Disjoint(chunks[..|chunks| - 1]) && Apart(chunks[..|chunks| - 1], chunks[|chunks| - 1])
  {
    var front, last := chunks[..|chunks| - 1], chunks[|chunks| - 1];
    assert forall i | 0 <= i < |front| :: front[i] == chunks[i];
  }

  lemma ApartCells(front: seq<Chunk>, last: Chunk)
    ensures Apart(front, last) <==> Covered(front) * Cells(last) == {}
  {
    forall x: nat
      ensures x in Covered(front) <==> Hit(front, x)
    {
      CoveredBy(front, x);
    }
    if Covered(front) * Cells(last) == {} {
      forall i, x | 0 <= i < |front| && Covers(front[i], x)
        ensures !Covers(last, x)
      {
        assert Hit(front, x);
        assert x !in Covered(front) * Cells(last);
      }
    } else {
      var x :| x in Covered(front) * Cells(last);
      assert Hit(front, x) && Covers(last, x);
    }
  }

  lemma CellsSize(c: Chunk)
    ensures |Cells(c)| == |c.data|
  {
    IntervalSize(c.offset, c.offset + |c.data|);
  }

  /** The chunks cover at most as many bytes as they have together, and as many exactly if disjoint. */
  lemma {:induction false} CoveredSize(chunks: seq<Chunk>)
    ensures |Covered(chunks)| <= Total(chunks)
    ensures |Covered(chunks)| == Total(chunks) <==> Disjoint(chunks)
    decreases |chunks|
  {
    if chunks != [] {
      var front, last := chunks[..|chunks| - 1], chunks[|chunks| - 1];
      CoveredSize(front);
      CellsSize(last);
      UnionSize(Covered(front), Cells(last));
      ApartCells(front, last);
      DisjointSnoc(chunks);
    }
  }

  lemma {:induction false} CoveredInside(chunks: seq<Chunk>, size: nat)
    requires InBounds(chunks, size)
    ensures Covered(chunks) <= Interval(0, size)
    decreases |chunks|
  {
    if chunks != [] {
      CoveredInside(chunks[..|chunks| - 1], size);
    }
  }

  lemma SubsetEqual(a: set<nat>, b: set<nat>)
    requires a <= b
    ensures |a| <= |b|
    ensures |a| == |b| <==> a == b
  {
    assert |b| == |a| + |b - a| by {
      assert b == a + (b - a);
    }
  }

  /**
   If the chunks lie within the file and their sizes add up to its size, then they leave no byte
   out exactly if no two of them overlap.
   */
  lemma Pigeonhole(chunks: seq<Chunk>, size: nat)
    requires InBounds(chunks, size) && Total(chunks) == size
    ensures Disjoint(chunks) <==> Complete(chunks, size)
  {
    CoveredSize(chunks);
    CoveredInside(chunks, size);
    IntervalSize(0, size);
    SubsetEqual(Covered(chunks), Interval(0, size));
    forall x: nat
      ensures x in Covered(chunks) <==> Hit(chunks, x)
    {
      CoveredBy(chunks, x);
    }
    if Complete(chunks, size) {
      forall x | x in Interval(0, size)
        ensures x in Covered(chunks)
      {
        assert Hit(chunks, x);
      }
    } else {
      var x :| 0 <= x < size && !Hit(chunks, x);
      assert x in Interval(0, size) && x !in Covered(chunks);
    }
  }

  // ---- the assembled file -------------------------------------------------------------------

  lemma {:induction false} FileInside(chunks: seq<Chunk>, size: nat)
    requires InBounds(chunks, size)
    ensures |FileOf(chunks)| <= size
    decreases |chunks|
  {
    if chunks != [] {
      FileInside(chunks[..|chunks| - 1], size);
    }
  }

  /** What a chunk wrote is still there after all the others have been written. */
  lemma {:induction false} FileAt(chunks: seq<Chunk>, i: nat, x: nat)
    requires Disjoint(chunks) && i < |chunks| && Covers(chunks[i], x)
    ensures x < |FileOf(chunks)| && FileOf(chunks)[x] == chunks[i].data[x - chunks[i].offset]
    decreases |chunks|
  {
    var front, last := chunks[..|chunks| - 1], chunks[|chunks| - 1];
    if i < |front| {
      DisjointSnoc(chunks);
      assert Covers(front[i], x);
      FileAt(front, i, x);
    }
  }

  /** The byte `x` of the file is the one that chunk `c` has for it. */
  predicate From(file: bytes, c: Chunk, x: int) {
    Covers(c, x) && x < |file| && file[x] == c.data[x - c.offset]
  }

  /** For any chunks, overlapping or not: a byte is that of the last chunk that has it. */
  lemma {:induction false} LastWritten(chunks: seq<Chunk>, i: nat, x: nat)
    requires i < |chunks| && Covers(chunks[i], x)
    requires forall j | i < j < |chunks| :: !Covers(chunks[j], x)
    ensures From(FileOf(chunks), chunks[i], x)
    decreases |chunks|
  {
    var front := chunks[..|chunks| - 1];
    if i < |front| {
      assert !Covers(chunks[|chunks| - 1], x);
      LastWritten(front, i, x);
    }
  }

  /** A byte that no chunk has is zero. */
  lemma {:induction false} NeverWritten(chunks: seq<Chunk>, x: nat)
    requires x < |FileOf(chunks)| && !Hit(chunks, x)
    ensures FileOf(chunks)[x] == 0
    decreases |chunks|
  {
    if chunks != [] {
      var front, last := chunks[..|chunks| - 1], chunks[|chunks| - 1];
      assert chunks[|chunks| - 1] == last && !Covers(last, x);
      assert forall i | 0 <= i < |front| :: front[i] == chunks[i];
      if x < |FileOf(front)| {
        NeverWritten(front, x);
      }
    }
  }

  predicate Reaches(c: Chunk, x: nat) {
    c.data != [] && x < c.offset + |c.data|
  }

  /** The file ends where the furthest chunk with any bytes ends. */
  lemma {:induction false} FileLength(chunks: seq<Chunk>, x: nat)
    ensures x < |FileOf(chunks)| <==> exists i :: 0 <= i < |chunks| && Reaches(chunks[i], x)
    decreases |chunks|
  {
    if chunks != [] {
      var front, last := chunks[..|chunks| - 1], chunks[|chunks| - 1];
      FileLength(front, x);
      assert forall i | 0 <= i < |front| :: front[i] == chunks[i];
      assert x < |FileOf(chunks)| <==> x < |FileOf(front)| || Reaches(last, x);
      assert chunks[|front|] == last;
    }
  }

  lemma WholeLength(chunks: seq<Chunk>, size: nat)
    requires InBounds(chunks, size) && Total(chunks) == size && Disjoint(chunks)
    ensures |FileOf(chunks)| == size
  {
    FileInside(chunks, size);
    Pigeonhole(chunks, size);
    if size > 0 {
      assert Hit(chunks, size - 1);
      var i :| 0 <= i < |chunks| && Covers(chunks[i], size - 1);
      FileAt(chunks, i, size - 1);
    }
  }

  /** When nothing is missing or double, the file has the right length and every byte from its chunk. */
  lemma Assembled(chunks: seq<Chunk>, size: nat)
    requires InBounds(chunks, size) && Total(chunks) == size && Disjoint(chunks)
    ensures |FileOf(chunks)| == size && Complete(chunks, size)
    ensures forall i, x | 0 <= i < |chunks| && Covers(chunks[i], x) :: From(FileOf(chunks), chunks[i], x)
  {
    WholeLength(chunks, size);
    Pigeonhole(chunks, size);
    forall i, x | 0 <= i < |chunks| && Covers(chunks[i], x)
      ensures From(FileOf(chunks), chunks[i], x)
    {
      FileAt(chunks, i, x);
    }
  }

  lemma {:induction false} TotalOfParts(a: seq<Chunk>, b: seq<Chunk>)
    ensures Total(a + b) == Total(a) + Total(b)
    decreases |b|
  {
    if b == [] {
      assert a + b == a;
    } else {
      TotalOfParts(a, b[..|b| - 1]);
      assert (a + b)[..|a + b| - 1] == a + b[..|b| - 1];
    }
  }

  lemma {:induction false} TotalInAnyOrder(a: seq<Chunk>, b: seq<Chunk>)
    requires multiset(a) == multiset(b)
    ensures Total(a) == Total(b)
    decreases |a|
  {
    if a == [] {
      assert |multiset(b)| == 0;
    } else {
      var front, last := a[..|a| - 1], a[|a| - 1];
      assert a == front + [last];
      assert last in multiset(b);
      var k :| 0 <= k < |b| && b[k] == last;
      var rest := b[..k] + b[k + 1..];
      assert b == b[..k] + [last] + b[k + 1..];
      RemoveOne(front, b[..k], b[k + 1..], last);
      TotalInAnyOrder(front, rest);
      TotalOfParts(b[..k], b[k + 1..]);
      TotalOfParts(b[..k] + [last], b[k + 1..]);
      assert (b[..k] + [last])[..k] == b[..k];
    }
  }

  lemma RemoveOne(front: seq<Chunk>, left: seq<Chunk>, right: seq<Chunk>, c: Chunk)
    requires multiset(front + [c]) == multiset(left + [c] + right)
    ensures multiset(front) == multiset(left + right)
  {
    assert multiset(left + right) == multiset(left) + multiset(right);
    assert multiset(front + [c]) == multiset(front) + multiset{c};
    assert multiset(left + [c] + right) == multiset(left) + multiset{c} + multiset(right);
    assert multiset(front) == multiset(front + [c]) - multiset{c};
  }

  lemma CoveredInAnyOrder(a: seq<Chunk>, b: seq<Chunk>)
    requires forall c | c in a :: c in b
    ensures Covered(a) <= Covered(b)
  {
    forall x | x in Covered(a)
      ensures x in Covered(b)
    {
      CoveredBy(a, x);
      var i :| 0 <= i < |a| && Covers(a[i], x);
      assert a[i] in a;
      var j :| 0 <= j < |b| && b[j] == a[i];
      assert Covers(b[j], x);
      CoveredBy(b, x);
    }
  }

  lemma SameChunks(a: seq<Chunk>, b: seq<Chunk>)
    requires multiset(a) == multiset(b)
    ensures forall c :: c in a <==> c in b
  {
    assert forall c :: c in a <==> c in multiset(a);
  }

  lemma CoveredAlike(a: seq<Chunk>, b: seq<Chunk>)
    requires multiset(a) == multiset(b)
    ensures Covered(a) == Covered(b)
  {
    SameChunks(a, b);
    CoveredInAnyOrder(a, b);
    CoveredInAnyOrder(b, a);
  }

  lemma DisjointInAnyOrder(a: seq<Chunk>, b: seq<Chunk>)
    requires multiset(a) == multiset(b) && Disjoint(a)
    ensures Total(a) == Total(b) && Disjoint(b)
  {
    CoveredAlike(a, b);
    TotalInAnyOrder(a, b);
    CoveredSize(a);
    CoveredSize(b);
  }

  /** In whatever order the chunks of a whole file arrive, the file is the same. */
  lemma AnyOrder(a: seq<Chunk>, b: seq<Chunk>, size: nat)
    requires multiset(a) == multiset(b)
    requires InBounds(a, size) && Total(a) == size && Disjoint(a)
    ensures InBounds(b, size) && Total(b) == size && Disjoint(b)
    ensures FileOf(a) == FileOf(b)
  {
    SameChunks(a, b);
    DisjointInAnyOrder(a, b);
    assert forall i | 0 <= i < |b| :: b[i] in a;
    WholeLength(a, size);
    WholeLength(b, size);
    forall x: nat | x < size
      ensures FileOf(a)[x] == FileOf(b)[x]
    {
      SameByte(a, b, size, x);
    }
  }

  lemma SameByte(a: seq<Chunk>, b: seq<Chunk>, size: nat, x: nat)
    requires forall c | c in a :: c in b
    requires InBounds(a, size) && Total(a) == size && Disjoint(a) && Disjoint(b) && x < size
    ensures x < |FileOf(a)| && x < |FileOf(b)| && FileOf(a)[x] == FileOf(b)[x]
  {
    Pigeonhole(a, size);
    assert Hit(a, x);
    var i :| 0 <= i < |a| && Covers(a[i], x);
    assert a[i] in a;
    var j :| 0 <= j < |b| && b[j] == a[i];
    FileAt(a, i, x);
    FileAt(b, j, x);
  }

  /** Without disjointness the sizes alone prove nothing: here one byte is doubled and one left out. */
  lemma OverlapLeavesHole()
    ensures var chunks := [Chunk(0, [1]), Chunk(0, [2])];
            InBounds(chunks, 2) && Total(chunks) == 2 && !Complete(chunks, 2) && FileOf(chunks) == [2]
  {
    var a, b := Chunk(0, [1]), Chunk(0, [2]);
    var chunks := [a, b];
    assert chunks[..1] == [a] && [a][..0] == [];
    assert Total([a]) == 1;
    assert !Hit(chunks, 1);
    assert FileOf([a]) == [1];
  }
}
