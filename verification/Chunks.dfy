/** Chunks of a version 1 torrent: pieces of equal length but the last, each cut
    into chunks of equal length but the last. */
module Chunks {
  import opened Options
  import opened Arithmetic
  import opened Sets

  datatype ChunkSpec = ChunkSpec(begin: nat, length: nat)

  datatype Request = Request(index: nat, spec: ChunkSpec)

  /** The layout of a torrent whose info has been validated. */
  datatype Layout = Layout(length: nat, pieceLength: nat, chunkSize: nat)
  {
    /** The 32-bit chunk count of a piece must not wrap, see CeilDiv32IsExact. */
    predicate Valid()
    {
      0 < pieceLength && 0 < chunkSize && pieceLength + chunkSize - 1 < TWO32
    }

    function NumPieces(): nat
      requires Valid()
    {
      CeilDiv(length, pieceLength)
    }

    function PieceLength(p: nat): nat
      requires Valid()
    {
      if p == NumPieces() - 1 && length % pieceLength != 0 then length % pieceLength else pieceLength
    }

    function NumChunks(p: nat): nat
      requires Valid()
    {
      CeilDiv32(PieceLength(p), chunkSize)
    }

    function ChunksPerPiece(): nat
      requires Valid()
    {
      CeilDiv32(pieceLength, chunkSize)
    }

    /** The first request index of piece `p`. */
    function Begin(p: nat): nat
      requires Valid()
    {
      p * ChunksPerPiece()
    }

    predicate ValidIndex(ri: nat)
      requires Valid()
    {
      ChunksPerPiece() > 0 && PieceAt(ri) < NumPieces() && ChunkAt(ri) < NumChunks(PieceAt(ri))
    }

    function PieceAt(ri: nat): nat
      requires Valid() && ChunksPerPiece() > 0
    {
      ri / ChunksPerPiece()
    }

    function ChunkAt(ri: nat): nat
      requires Valid() && ChunksPerPiece() > 0
    {
      ri % ChunksPerPiece()
    }

    function SpecOf(p: nat, c: nat): ChunkSpec
      requires Valid() && c * chunkSize < PieceLength(p)
    {
      ChunkSpec(c * chunkSize, Min(chunkSize, PieceLength(p) - c * chunkSize))
    }

    function ToRequest(ri: nat): Request
      requires Valid() && ValidIndex(ri)
    {
      IndexFacts(ri);
      Request(PieceAt(ri), SpecOf(PieceAt(ri), ChunkAt(ri)))
    }

    function ChunkIndex(spec: ChunkSpec): nat
      requires Valid()
    {
      spec.begin / chunkSize
    }

    function FromRequest(r: Request): nat
      requires Valid()
    {
      Begin(r.index) + ChunkIndex(r.spec)
    }

    function OffsetOf(r: Request): nat { r.index * pieceLength + r.spec.begin }

    function PieceOf(off: nat): nat
      requires Valid()
    {
      off / pieceLength
    }

    /** Where the chunk around an offset begins in its piece. */
    function BeginOf(off: nat): (begin: nat)
      requires Valid()
      ensures begin <= off % pieceLength < begin + chunkSize
    {
      RoundDown(off % pieceLength, chunkSize)
    }

    /** The chunk around a byte of the torrent, straight from the offset. */
    function OffsetRequest(off: int): Option<Request>
      requires Valid()
    {
      if off < 0 || off >= length then None
      else
        OffsetFacts(off);
        Some(Request(PieceOf(off), ChunkSpec(BeginOf(off), OffsetLength(PieceOf(off), BeginOf(off)))))
    }

    function OffsetLength(index: nat, begin: nat): nat
      requires begin <= pieceLength && index * pieceLength + begin <= length
    {
      Min(Min(chunkSize, pieceLength - begin), length - index * pieceLength - begin)
    }

    lemma {:induction false} OffsetFacts(off: nat)
      requires Valid()
      ensures PieceOf(off) * pieceLength + off % pieceLength == off
      ensures BeginOf(off) <= off % pieceLength < pieceLength && PieceOf(off) * pieceLength + BeginOf(off) <= off
    {
      hide BeginOf;
      DivBounds(off, pieceLength);
    }

    lemma {:induction false} IndexFacts(ri: nat)
      requires Valid() && ValidIndex(ri)
      ensures ChunkAt(ri) * chunkSize < PieceLength(PieceAt(ri))
    {
      ChunkCounts(PieceAt(ri));
      hide *;
      ChunkBegins(ChunkAt(ri), PieceLength(PieceAt(ri)), chunkSize);
    }

    lemma {:induction false} ChunkCounts(p: nat)
      requires Valid()
      ensures 0 < PieceLength(p) <= pieceLength
      ensures NumChunks(p) == CeilDiv(PieceLength(p), chunkSize) && ChunksPerPiece() == CeilDiv(pieceLength, chunkSize)
      ensures 1 <= NumChunks(p) <= ChunksPerPiece()
    {
      DivBounds(length, pieceLength);
      CeilDiv32IsExact(PieceLength(p), chunkSize);
      CeilDiv32IsExact(pieceLength, chunkSize);
      CeilDivBounds(PieceLength(p), chunkSize);
      ChunkBegins(CeilDiv(PieceLength(p), chunkSize) - 1, pieceLength, chunkSize);
    }

    /** Where piece `p` lies: full pieces, and what is left for the last. */
    lemma {:induction false} PieceExtent(p: nat)
      requires Valid()
      ensures p < NumPieces() <==> p * pieceLength < length
      ensures p < NumPieces() ==> PieceLength(p) == Min(pieceLength, length - p * pieceLength)
    {
      ChunkBegins(p, length, pieceLength);
      var n := NumPieces();
      CeilDivBounds(length, pieceLength);
      if p < n {
        if p == n - 1 {
          assert (n - 1) * pieceLength == n * pieceLength - pieceLength;
          if length == n * pieceLength {
            DivUnique(length, pieceLength, n, 0);
          } else {
            DivUnique(length, pieceLength, p, length - p * pieceLength);
          }
        } else {
          MulMono(p + 1, n - 1, pieceLength);
          assert (p + 1) * pieceLength == p * pieceLength + pieceLength;
        }
      }
    }

    /** Round trip: index to request and back. */
    lemma {:induction false} FromToRequest(ri: nat)
      requires Valid() && ValidIndex(ri)
      ensures FromRequest(ToRequest(ri)) == ri
    {
      var m := ChunksPerPiece();
      IndexFacts(ri);
      DivBounds(ri, m);
      DivUnique(ChunkAt(ri) * chunkSize, chunkSize, ChunkAt(ri), 0);
    }

    /** What lies at chunk `c` of piece `p`: its index, and the request it stands for. */
    lemma {:induction false} IndexOfChunk(p: nat, c: nat)
      requires Valid() && p < NumPieces() && c < NumChunks(p)
      ensures c * chunkSize < PieceLength(p)
      ensures ValidIndex(Begin(p) + c) && ToRequest(Begin(p) + c) == Request(p, SpecOf(p, c))
    {
      ChunkCounts(p);
      ChunkBegins(c, PieceLength(p), chunkSize);
      DivUnique(Begin(p) + c, ChunksPerPiece(), p, c);
    }

    /** Main result, one way: the chunk found from an offset is the chunk of a valid
        index, cut as the per-piece rule cuts it, and contains the offset. */
    lemma {:induction false} OffsetRequestIsChunk(off: nat)
      requires Valid() && off < length
      ensures var r := OffsetRequest(off).value;
        && ValidIndex(FromRequest(r)) && ToRequest(FromRequest(r)) == r
        && OffsetOf(r) <= off < OffsetOf(r) + r.spec.length
    {
      var p, o := PieceOf(off), off % pieceLength;
      OffsetFacts(off);
      PieceExtent(p);
      ChunkAround(p, o);
      hide PieceOf, PieceLength, NumPieces, NumChunks, ChunksPerPiece, ValidIndex, Begin;
      assert BeginOf(off) == o / chunkSize * chunkSize;
    }

    lemma {:induction false} ChunkAround(p: nat, o: nat)
      requires Valid() && p < NumPieces() && o < PieceLength(p)
      ensures var c := o / chunkSize;
        && c * chunkSize <= o < c * chunkSize + chunkSize
        && FromRequest(Request(p, SpecOf(p, c))) == Begin(p) + c
        && ValidIndex(Begin(p) + c) && ToRequest(Begin(p) + c) == Request(p, SpecOf(p, c))
    {
      var c := o / chunkSize;
      DivBounds(o, chunkSize);
      ChunkCounts(p);
      ChunkBegins(c, PieceLength(p), chunkSize);
      IndexOfChunk(p, c);
      DivUnique(c * chunkSize, chunkSize, c, 0);
    }

    /** Main result, the other way: no other valid index has a chunk around the
        offset, so the chunks tile the torrent. */
    lemma {:induction false} OnlyChunkAround(ri: nat, off: nat)
      requires Valid() && ValidIndex(ri)
      requires OffsetOf(ToRequest(ri)) <= off < OffsetOf(ToRequest(ri)) + ToRequest(ri).spec.length
      ensures off < length && OffsetRequest(off) == Some(ToRequest(ri))
    {
      var r := ToRequest(ri);
      var p, c := r.index, ri % ChunksPerPiece();
      IndexFacts(ri);
      ChunkCounts(p);
      PieceExtent(p);
      var o := off - p * pieceLength;
      DivUnique(off, pieceLength, p, o);
      DivUnique(o, chunkSize, c, o - c * chunkSize);
    }

    // ---- dirty bytes

    /** Bytes of the first `k` chunks of piece `p` that are dirty, chunk by chunk. */
    ghost function DirtySum(dirty: set<nat>, p: nat, k: nat): nat
      requires Valid() && k <= NumChunks(p) && p < NumPieces()
      decreases k
    {
      if k == 0 then 0
      else
        IndexOfChunk(p, k - 1);
        DirtySum(dirty, p, k - 1) + if Begin(p) + k - 1 in dirty then SpecOf(p, k - 1).length else 0
    }

    function NumDirtyChunks(dirty: set<nat>, p: nat): nat
      requires Valid() && Begin(p + 1) < TWO32
    {
      RangeCardinality(dirty, Begin(p), Begin(p + 1))
    }

    /** The dirty bytes of a piece as the client counts them. */
    function NumDirtyBytes(dirty: set<nat>, p: nat): int
      requires Valid() && p < NumPieces() && Begin(p + 1) < TWO32
    {
      ChunkCounts(p);
      IndexOfChunk(p, NumChunks(p) - 1);
      if Begin(p) + NumChunks(p) - 1 in dirty
      then SpecOf(p, NumChunks(p) - 1).length + (NumDirtyChunks(dirty, p) - 1) * chunkSize
      else NumDirtyChunks(dirty, p) * chunkSize
    }

    /** Dirty chunks of a piece are chunks it has. */
    ghost predicate DirtyInPiece(dirty: set<nat>, p: nat)
      requires Valid()
    {
      forall d <- dirty | Begin(p) <= d < Begin(p + 1) :: d < Begin(p) + NumChunks(p)
    }

    lemma {:induction false} RegularLength(p: nat, c: nat)
      requires Valid() && p < NumPieces() && c + 1 < NumChunks(p)
      ensures c * chunkSize < PieceLength(p) && SpecOf(p, c).length == chunkSize
    {
      IndexOfChunk(p, c);
      IndexOfChunk(p, c + 1);
      MulNext(c, chunkSize);
    }

    /** All chunks before the last are full, so counting them is enough. */
    lemma {:induction false} DirtySumRegular(dirty: set<nat>, p: nat, k: nat)
      requires Valid() && p < NumPieces() && k < NumChunks(p)
      ensures DirtySum(dirty, p, k) == CountIn(dirty, Begin(p), Begin(p) + k) * chunkSize
      decreases k
    {
      if k > 0 {
        DirtySumRegular(dirty, p, k - 1);
        RegularLength(p, k - 1);
        CountNext(dirty, Begin(p), Begin(p) + k - 1);
        MulNext(CountIn(dirty, Begin(p), Begin(p) + k - 1), chunkSize);
        hide SpecOf, CountIn, PieceLength, NumChunks, Begin;
      } else {
        assert (set d | d in dirty && Begin(p) <= d < Begin(p) + 0) == {};
      }
    }

    /** The client's count is the sum of the lengths of the dirty chunks. */
    lemma {:induction false} DirtyBytesAreExact(dirty: set<nat>, p: nat)
      requires Valid() && p < NumPieces() && Begin(p + 1) < TWO32
      requires (forall d <- dirty :: d < TWO32) && DirtyInPiece(dirty, p)
      ensures NumDirtyBytes(dirty, p) == DirtySum(dirty, p, NumChunks(p))
    {
      var n := NumChunks(p);
      ChunkCounts(p);
      DirtySumRegular(dirty, p, n - 1);
      IndexOfChunk(p, n - 1);
      CountNext(dirty, Begin(p), Begin(p) + n - 1);
      assert Begin(p + 1) == Begin(p) + ChunksPerPiece();
      RangeCardinalityIsCount(dirty, Begin(p), Begin(p + 1));
      CountSame(dirty, Begin(p), Begin(p) + n, Begin(p + 1));
    }

    lemma {:induction false} DirtySumBound(dirty: set<nat>, p: nat, k: nat)
      requires Valid() && p < NumPieces() && k <= NumChunks(p)
      ensures DirtySum(dirty, p, k) <= Min(k * chunkSize, PieceLength(p))
      decreases k
    {
      if k > 0 {
        DirtySumBound(dirty, p, k - 1);
        IndexOfChunk(p, k - 1);
        MulNext(k - 1, chunkSize);
      }
    }

    /** Never more dirty bytes than the piece has. */
    lemma {:induction false} DirtyBytesFit(dirty: set<nat>, p: nat)
      requires Valid() && p < NumPieces() && Begin(p + 1) < TWO32
      requires (forall d <- dirty :: d < TWO32) && DirtyInPiece(dirty, p)
      ensures 0 <= NumDirtyBytes(dirty, p) <= PieceLength(p)
    {
      DirtyBytesAreExact(dirty, p);
      DirtySumBound(dirty, p, NumChunks(p));
    }

    // ---- bytes left

    ghost predicate DirtyFits(dirty: set<nat>)
      requires Valid()
    {
      && Begin(NumPieces()) < TWO32 && (forall d <- dirty :: d < TWO32)
      && (forall p: nat | p < NumPieces() :: Begin(p + 1) < TWO32 && DirtyInPiece(dirty, p))
    }

    lemma {:induction false} FitsAt(dirty: set<nat>, p: nat)
      requires Valid() && DirtyFits(dirty) && p < NumPieces()
      ensures Begin(p + 1) < TWO32 && DirtyInPiece(dirty, p) && forall d <- dirty :: d < TWO32
    {
      hide Begin, DirtyInPiece, NumPieces, Valid;
    }

    /** The bytes missing from the first `n` pieces. */
    ghost function LeftIn(completed: set<nat>, dirty: set<nat>, n: nat): int
      requires Valid() && n <= NumPieces() && DirtyFits(dirty)
    {
      if n == 0 then 0
      else
        FitsAt(dirty, n - 1);
        LeftIn(completed, dirty, n - 1) + if n - 1 in completed then 0 else PieceLength(n - 1) - NumDirtyBytes(dirty, n - 1)
    }

    /** The sum over the incomplete pieces, as the torrent accumulates it. */
    method BytesLeft(completed: set<nat>, dirty: set<nat>) returns (left: int)
      requires Valid() && DirtyFits(dirty)
      ensures left == LeftIn(completed, dirty, NumPieces())
      ensures 0 <= left <= length && 0 <= length - left <= length
    {
      hide NumDirtyBytes, PieceLength, NumPieces;
      left := 0;
      for p := 0 to NumPieces()
        invariant left == LeftIn(completed, dirty, p)
      {
        if p !in completed {
          left := left + PieceLength(p) - NumDirtyBytes(dirty, p);
        }
      }
      LeftBounds(completed, dirty, NumPieces());
    }

    lemma {:induction false} LeftBounds(completed: set<nat>, dirty: set<nat>, n: nat)
      requires Valid() && n <= NumPieces() && DirtyFits(dirty)
      ensures 0 <= LeftIn(completed, dirty, n) <= Min(n * pieceLength, length)
    {
      if n > 0 {
        LeftBounds(completed, dirty, n - 1);
        PieceExtent(n - 1);
        FitsAt(dirty, n - 1);
        hide DirtyFits, DirtyInPiece, NumDirtyBytes, NumPieces, PieceLength, Begin;
        var d := if n - 1 in completed then 0 else PieceLength(n - 1) - NumDirtyBytes(dirty, n - 1);
        assert 0 <= d <= PieceLength(n - 1) by { DirtyBytesFit(dirty, n - 1); }
        MulNext(n - 1, pieceLength);
        assert LeftIn(completed, dirty, n) == LeftIn(completed, dirty, n - 1) + d;
        hide *;
        AddWithin(LeftIn(completed, dirty, n - 1), (n - 1) * pieceLength, PieceLength(n - 1), d);
      }
    }

    lemma {:induction false} AddWithin(left: int, begin: nat, size: nat, d: int)
      requires begin < length && size == Min(pieceLength, length - begin) && 0 <= left <= Min(begin, length) && 0 <= d <= size
      ensures 0 <= left + d <= Min(begin + pieceLength, length)
    {
    }
  }

  // ---- counting in bitmaps

  /** How many elements of `s` are at most `x`. */
  function Rank(s: set<nat>, x: nat): nat { |AtMost(s, x)| }

  function AtMost(s: set<nat>, x: nat): set<nat> { set d | d in s && d <= x }

  function CountIn(s: set<nat>, start: nat, end: nat): nat { |set d | d in s && start <= d < end| }

  /** The size of a range from ranks, on 32-bit indexes and a 64-bit result. */
  function RangeCardinality(s: set<nat>, start: nat, end: nat): nat
    requires start < TWO32 && end < TWO32
  {
    var card := Rank(s, if end == 0 then TWO32 - 1 else end - 1);
    if start != 0 then (card - Rank(s, start - 1)) % (TWO32 * TWO32) else card
  }

  lemma {:induction false} CountNext(s: set<nat>, a: nat, b: nat)
    requires a <= b
    ensures CountIn(s, a, b + 1) == CountIn(s, a, b) + if b in s then 1 else 0
  {
    var lo := set d | d in s && a <= d < b;
    assert (set d | d in s && a <= d < b + 1) == if b in s then lo + {b} else lo;
  }

  lemma {:induction false} CountSame(s: set<nat>, a: nat, b: nat, c: nat)
    requires b <= c && forall d <- s | a <= d < c :: d < b
    ensures CountIn(s, a, b) == CountIn(s, a, c)
  {
    assert (set d | d in s && a <= d < b) == (set d | d in s && a <= d < c);
  }

  lemma {:induction false} RankSplit(s: set<nat>, x: nat, y: nat)
    requires x <= y
    ensures Rank(s, y) == Rank(s, x) + CountIn(s, x + 1, y + 1)
  {
    assert AtMost(s, y) == AtMost(s, x) + (set d | d in s && x + 1 <= d < y + 1);
  }

  lemma {:induction false} RankIsCount(s: set<nat>, x: nat)
    ensures Rank(s, x) == CountIn(s, 0, x + 1)
  {
    assert AtMost(s, x) == (set d | d in s && 0 <= d < x + 1);
  }

  lemma {:induction false} SmallSet(s: set<nat>, x: nat)
    requires forall d <- s :: d < TWO32
    ensures Rank(s, x) <= |s| <= TWO32
  {
    SubsetSize(AtMost(s, x), s);
    SubsetSize(s, Below(TWO32));
  }

  lemma {:induction false} RangeCardinalityIsCount(s: set<nat>, start: nat, end: nat)
    requires start <= end < TWO32 && end > 0 && forall d <- s :: d < TWO32
    ensures RangeCardinality(s, start, end) == CountIn(s, start, end)
  {
    RankIsCount(s, end - 1);
    if start > 0 {
      RankSplit(s, start - 1, end - 1);
      SmallSet(s, end - 1);
    }
  }

  /** The count is right exactly on proper ranges: an empty end counts everything
      from the start on, and a reversed range what lies between, negated. */
  lemma {:induction false} RangeCardinalityRight(s: set<nat>, start: nat, end: nat)
    requires start < TWO32 && end < TWO32 && forall d <- s :: d < TWO32
    ensures RangeCardinality(s, start, end) == CountIn(s, start, end)
      <==> (0 < end && start <= end) || (end == 0 && forall d <- s :: d < start) || (0 < end < start && forall d <- s :: !(end <= d < start))
  {
    if 0 < end && start <= end {
      RangeCardinalityIsCount(s, start, end);
    } else {
      assert (set d | d in s && start <= d < end) == {};
      if end == 0 {
        EmptyEnd(s, start);
      } else {
        RankSplit(s, end - 1, start - 1);
        SmallSet(s, start - 1);
        var between := set d | d in s && end <= d < start;
        assert CountIn(s, end, start) == |between|;
        if forall d <- s :: !(end <= d < start) {
          assert between == {};
        } else {
          var d :| d in s && end <= d < start;
          assert d in between;
        }
      }
    }
  }

  /** The empty range at zero is counted as everything. */
  lemma {:induction false} EmptyRangeCountsAll()
    ensures RangeCardinality({5}, 0, 0) == 1 && CountIn({5}, 0, 0) == 0
  {
    assert AtMost({5}, TWO32 - 1) == {5};
  }

  lemma {:induction false} EmptyEnd(s: set<nat>, start: nat)
    requires start < TWO32 && forall d <- s :: d < TWO32
    ensures RangeCardinality(s, start, 0) == 0 <==> forall d <- s :: d < start
  {
    var from := set d | d in s && start <= d < TWO32;
    SmallSet(s, TWO32 - 1);
    if start > 0 {
      RankSplit(s, start - 1, TWO32 - 1);
    } else {
      RankIsCount(s, TWO32 - 1);
    }
    assert RangeCardinality(s, start, 0) == |from|;
    if forall d <- s :: d < start {
      assert from == {};
    } else {
      var d :| d in s && d >= start;
      assert d in from;
    }
  }

  // ---- the chunks still wanted

  /** The numbers of a range that are not in `s`, in order. */
  function Unset(s: set<nat>, start: nat, end: nat): seq<nat>
    decreases end - start
  {
    if start >= end then [] else (if start in s then [] else [start]) + Unset(s, start + 1, end)
  }

  lemma {:induction false} UnsetFirst(s: set<nat>, start: nat, end: nat)
    ensures Unset(s, start, end) == if start >= end then [] else (if start in s then [] else [start]) + Unset(s, start + 1, end)
  {
  }

  lemma {:induction false} UnsetConcat(s: set<nat>, a: nat, b: nat, c: nat)
    requires a <= b <= c
    ensures Unset(s, a, c) == Unset(s, a, b) + Unset(s, b, c)
    decreases b - a
  {
    hide Unset;
    UnsetFirst(s, a, b);
    if a < b {
      UnsetFirst(s, a, c);
      UnsetConcat(s, a + 1, b, c);
      var head := if a in s then [] else [a];
      assert head + (Unset(s, a + 1, b) + Unset(s, b, c)) == (head + Unset(s, a + 1, b)) + Unset(s, b, c);
    }
  }

  /** What the specification means: exactly the missing numbers, each once, in order. */
  lemma {:induction false} UnsetIsExact(s: set<nat>, start: nat, end: nat)
    ensures forall x :: x in Unset(s, start, end) <==> start <= x < end && x !in s
    ensures Increasing(Unset(s, start, end))
    decreases end - start
  {
    if start < end {
      UnsetIsExact(s, start + 1, end);
      if start !in s {
        AboveAll(start, Unset(s, start + 1, end));
      }
    }
  }

  predicate Increasing(r: seq<nat>) { forall i, j | 0 <= i < j < |r| :: r[i] < r[j] }

  lemma {:induction false} AboveAll(x: nat, rest: seq<nat>)
    requires Increasing(rest) && forall y <- rest :: x < y
    ensures Increasing([x] + rest)
  {
    assert forall i | 0 <= i < |rest| :: rest[i] in rest;
  }

  lemma {:induction false} UnsetEmpty(s: set<nat>, a: nat, b: nat)
    requires b <= a
    ensures Unset(s, a, b) == []
  {
  }

  lemma {:induction false} UnsetNext(s: set<nat>, a: nat, b: nat)
    requires a <= b
    ensures Unset(s, a, b + 1) == Unset(s, a, b) + if b in s then [] else [b]
  {
    UnsetConcat(s, a, b, b + 1);
    assert Unset(s, b + 1, b + 1) == [];
  }

  /** 32-bit successor and predecessor. */
  function Inc32(x: nat): nat { (x + 1) % TWO32 }

  function Dec32(x: nat): nat { if x == 0 then TWO32 - 1 else x - 1 }

  lemma {:induction false} IncSmall(x: nat)
    requires x < TWO32 - 1
    ensures Inc32(x) == x + 1
  {
  }

  /** Yields the numbers from `index` up to `to`, none of which is set. */
  method YieldUpTo(ghost s: set<nat>, ghost start: nat, index: nat, to: nat, out: seq<nat>) returns (r: seq<nat>)
    requires start <= index <= to && out == Unset(s, start, index) && forall b <- s :: !(index <= b < to)
    ensures r == Unset(s, start, to)
  {
    hide Unset;
    r := out;
    for i := index to to
      invariant r == Unset(s, start, i)
    {
      r := r + [i];
      UnsetNext(s, start, i);
    }
  }

  /** Yields the unset bits of a range from an iterator over the set bits. The first
      predecessor wraps around when the range starts at zero. */
  method IterUnsetInRange(bits: seq<nat>, start: nat, end: nat) returns (out: seq<nat>)
    requires start < TWO32 && end < TWO32
    requires (forall b <- bits :: b < TWO32) && forall i, j | 0 <= i < j < |bits| :: bits[i] < bits[j]
    ensures out == Unset((set b <- bits), start, end)
  {
    hide Unset;
    ghost var s := set b <- bits;
    out := [];
    UnsetEmpty(s, start, start);
    var pos := 0;
    while pos < |bits| && bits[pos] < start
      invariant 0 <= pos <= |bits| && forall i | 0 <= i < pos :: bits[i] < start
    {
      pos := pos + 1;
    }
    var lastDirty: nat := Dec32(start);
    assert Inc32(lastDirty) == start;
    hide Inc32, Dec32;
    while pos < |bits|
      invariant 0 <= pos <= |bits| && lastDirty < TWO32 && start <= Inc32(lastDirty)
      invariant Inc32(lastDirty) <= end || Inc32(lastDirty) == start
      invariant out == Unset(s, start, Inc32(lastDirty))
      invariant forall i | 0 <= i < pos :: bits[i] < Inc32(lastDirty)
      invariant forall i | pos <= i < |bits| :: bits[i] >= Inc32(lastDirty)
    {
      var next := bits[pos];
      if next >= end { break; }
      pos := pos + 1;
      NoBitsBetween(bits, pos - 1, Inc32(lastDirty));
      out := YieldUpTo(s, start, Inc32(lastDirty), next, out);
      UnsetNext(s, start, next);
      IncSmall(next);
      lastDirty := next;
    }
    if Inc32(lastDirty) < end { out := YieldUpTo(s, start, Inc32(lastDirty), end, out); }
    if end < start { UnsetEmpty(s, start, start); UnsetEmpty(s, start, end); }
  }

  lemma {:induction false} NoBitsBetween(bits: seq<nat>, pos: nat, from: nat)
    requires pos < |bits| && forall i, j | 0 <= i < j < |bits| :: bits[i] < bits[j]
    requires forall i | 0 <= i < pos :: bits[i] < from
    ensures forall b <- bits :: !(from <= b < bits[pos])
    ensures bits[pos] in (set b <- bits)
  {
  }
}
