/** Which bytes of a torrent are really missing, by its dirty chunks, and when the total
    a file reports is their number, too small or too large. */
module MissingBytes {
  import opened Arithmetic
  import opened Chunks
  import opened Files
  import opened Sets

  datatype Store = Store(l: Layout, completed: set<nat>, dirty: set<nat>)
  {
    ghost predicate Valid() { l.Valid() && l.DirtyFits(dirty) }

    /** The index of the chunk a byte lies in. */
    function ChunkOf(x: nat): nat
      requires l.Valid()
    {
      l.Begin(x / l.pieceLength) + x % l.pieceLength / l.chunkSize
    }

    predicate Written(x: nat)
      requires l.Valid()
    {
      ChunkOf(x) in dirty
    }

    /** A byte is missing when its piece is incomplete and its chunk is not dirty. */
    predicate Missing(x: nat)
      requires l.Valid()
    {
      x / l.pieceLength !in completed && !Written(x)
    }

    ghost function Left(a: nat, b: nat): (n: nat)
      requires l.Valid()
      ensures n <= Max(0, b - a)
      decreases b
    {
      if a >= b then 0 else Left(a, b - 1) + if Missing(b - 1) then 1 else 0
    }

    ghost function WrittenIn(a: nat, b: nat): (n: nat)
      requires l.Valid()
      ensures n <= Max(0, b - a)
      decreases b
    {
      if a >= b then 0 else WrittenIn(a, b - 1) + if Written(b - 1) then 1 else 0
    }

    lemma {:induction false} Split(a: nat, b: nat, c: nat)
      requires l.Valid() && a <= b <= c
      ensures Left(a, c) == Left(a, b) + Left(b, c) && WrittenIn(a, c) == WrittenIn(a, b) + WrittenIn(b, c)
      decreases c
    {
      if b < c { Split(a, b, c - 1); }
    }

    /** A stretch of one piece. */
    lemma {:induction false} InPiece(p: nat, a: nat, b: nat)
      requires l.Valid() && p * l.pieceLength <= a <= b <= p * l.pieceLength + l.pieceLength
      ensures Left(a, b) == if p in completed then 0 else b - a - WrittenIn(a, b)
      decreases b
    {
      if a < b {
        InPiece(p, a, b - 1);
        DivUnique(b - 1, l.pieceLength, p, b - 1 - p * l.pieceLength);
        hide Written;
      }
    }

    /** A stretch from the start of one chunk. */
    lemma {:induction false} InChunk(p: nat, c: nat, begin: nat, b: nat)
      requires l.Valid() && begin == p * l.pieceLength + c * l.chunkSize
      requires begin <= b <= begin + l.chunkSize && b <= p * l.pieceLength + l.pieceLength
      ensures WrittenIn(begin, b) == if l.Begin(p) + c in dirty then b - begin else 0
      decreases b
    {
      hide ChunkOf, Layout.Begin;
      if begin < b {
        InChunk(p, c, begin, b - 1);
        ChunkAt(p, c, begin, b - 1);
      }
    }

    lemma {:induction false} ChunkAt(p: nat, c: nat, begin: nat, x: nat)
      requires l.Valid() && begin == p * l.pieceLength + c * l.chunkSize
      requires begin <= x < begin + l.chunkSize && x < p * l.pieceLength + l.pieceLength
      ensures ChunkOf(x) == l.Begin(p) + c && x / l.pieceLength == p
    {
      var o := x - p * l.pieceLength;
      DivUnique(x, l.pieceLength, p, o);
      DivUnique(o, l.chunkSize, c, o - c * l.chunkSize);
      hide Layout.Begin;
    }

    /** Where the first `k` chunks of a piece end. */
    function ChunksEnd(p: nat, k: nat): nat
      requires l.Valid()
    {
      p * l.pieceLength + Min(k * l.chunkSize, l.PieceLength(p))
    }

    lemma {:induction false} ChunksEndNext(p: nat, k: nat)
      requires l.Valid() && p < l.NumPieces() && 0 < k <= l.NumChunks(p)
      ensures (k - 1) * l.chunkSize < l.PieceLength(p) <= l.pieceLength
      ensures ChunksEnd(p, k - 1) == p * l.pieceLength + (k - 1) * l.chunkSize
      ensures ChunksEnd(p, k) == ChunksEnd(p, k - 1) + l.SpecOf(p, k - 1).length
      ensures l.SpecOf(p, k - 1).length <= l.chunkSize && ChunksEnd(p, k) <= p * l.pieceLength + l.pieceLength
    {
      l.IndexOfChunk(p, k - 1);
      l.ChunkCounts(p);
      MulNext(k - 1, l.chunkSize);
      hide Layout.NumPieces, Layout.NumChunks, Layout.PieceLength, Layout.ValidIndex, Layout.ToRequest;
    }

    /** The written bytes of a piece's first chunks, as the chunks add up. */
    lemma {:induction false} WrittenChunks(p: nat, k: nat)
      requires l.Valid() && p < l.NumPieces() && k <= l.NumChunks(p)
      ensures WrittenIn(p * l.pieceLength, ChunksEnd(p, k)) == l.DirtySum(dirty, p, k)
    {
      hide Layout.NumPieces, Layout.NumChunks, Layout.PieceLength, WrittenIn;
      if k == 0 {
        NoneWritten(p);
      } else {
        WrittenChunks(p, k - 1);
        ChunksEndNext(p, k);
        hide ChunksEnd, Layout.SpecOf;
        InChunk(p, k - 1, ChunksEnd(p, k - 1), ChunksEnd(p, k));
        Split(p * l.pieceLength, ChunksEnd(p, k - 1), ChunksEnd(p, k));
      }
    }

    lemma {:induction false} NoneWritten(p: nat)
      requires l.Valid()
      ensures WrittenIn(p * l.pieceLength, ChunksEnd(p, 0)) == 0
    {
      l.ChunkCounts(p);
    }

    /** A whole piece has as many written bytes as the client counts. */
    lemma {:induction false} WrittenPiece(p: nat)
      requires Valid() && p < l.NumPieces()
      ensures l.Begin(p + 1) < TWO32
      ensures WrittenIn(p * l.pieceLength, p * l.pieceLength + l.PieceLength(p)) == l.NumDirtyBytes(dirty, p)
    {
      l.FitsAt(dirty, p);
      l.DirtyBytesAreExact(dirty, p);
      WrittenChunks(p, l.NumChunks(p));
      AllChunksEnd(p);
      hide Layout.NumDirtyBytes, Layout.DirtySum, Layout.PieceLength, WrittenIn, ChunksEnd;
    }

    lemma {:induction false} AllChunksEnd(p: nat)
      requires l.Valid()
      ensures ChunksEnd(p, l.NumChunks(p)) == p * l.pieceLength + l.PieceLength(p)
    {
      l.ChunkCounts(p);
      CeilDivBounds(l.PieceLength(p), l.chunkSize);
      hide Layout.NumChunks, Layout.PieceLength;
    }

    /** The counts the client goes by are those of this store. */
    ghost predicate CountedBy(pr: Progress)
      requires Valid()
    {
      pr.Valid() && Tracks(pr, l, dirty) && pr.completed == completed
    }

    lemma {:induction false} CountOf(pr: Progress, p: nat)
      requires Valid() && CountedBy(pr) && p < l.NumPieces()
      ensures l.pieceLength == pr.pieceLength && p * l.pieceLength + l.PieceLength(p) <= l.length
      ensures WrittenIn(p * l.pieceLength, p * l.pieceLength + l.PieceLength(p)) == pr.Dirty(p) <= l.PieceLength(p)
    {
      WrittenPiece(p);
      l.PieceExtent(p);
      hide WrittenIn, Layout.NumDirtyBytes, Layout.PieceLength, Layout.NumPieces;
    }

    /** The written bytes of the file in its first and its last piece, unless complete. */
    ghost function Inside(f: File): nat
      requires l.Valid()
    {
      var first, end := f.BeginPieceIndex(l.pieceLength), f.EndPieceIndex(l.pieceLength);
      if f.length == 0 then 0
      else if end == first + 1 then
        if first in completed then 0 else WrittenIn(f.offset, f.End())
      else
        (if first in completed then 0 else WrittenIn(f.offset, PieceStart(first + 1)))
        + (if end - 1 in completed then 0 else WrittenIn(PieceStart(end - 1), f.End()))
    }

    function PieceStart(p: nat): nat
      requires l.Valid()
    {
      MulMono(0, p, l.pieceLength);
      p * l.pieceLength
    }

    /** How much more the count past the written bytes finds in a stretch than is missing. */
    ghost function Excess(pr: Progress, a: nat, b: nat): int
      requires l.Valid() && pr.Valid()
    {
      pr.PrefixLeft(a, b) - Left(a, b)
    }

    lemma {:induction false} ExcessSplit(pr: Progress, a: nat, b: nat, c: nat)
      requires l.Valid() && pr.Valid() && a <= b <= c
      ensures Excess(pr, a, c) == Excess(pr, a, b) + Excess(pr, b, c)
    {
      Split(a, b, c);
      pr.LeftSplit(a, b, c);
      hide Left, Progress.PrefixLeft;
    }

    /** In a piece: the written bytes of the stretch, less what the prefix takes off. */
    lemma {:induction false} ExcessInPiece(pr: Progress, p: nat, a: nat, b: nat)
      requires Valid() && CountedBy(pr) && p * l.pieceLength <= a <= b <= p * l.pieceLength + l.pieceLength
      ensures Excess(pr, a, b) ==
        if p in completed then 0
        else WrittenIn(a, b) - (b - a) + Max(0, b - Max(a, p * l.pieceLength + pr.Dirty(p)))
    {
      InPiece(p, a, b);
      pr.LeftInPiece(p, a, b);
      hide Left, Progress.PrefixLeft, WrittenIn;
    }

    /** Whole pieces do not contribute. */
    lemma {:induction false} WholePieceEven(pr: Progress, p: nat)
      requires Valid() && CountedBy(pr) && p < l.NumPieces()
      ensures Excess(pr, p * l.pieceLength, p * l.pieceLength + l.PieceLength(p)) == 0
    {
      CountOf(pr, p);
      l.ChunkCounts(p);
      ExcessInPiece(pr, p, p * l.pieceLength, p * l.pieceLength + l.PieceLength(p));
      hide Excess, WrittenIn, Layout.PieceLength, Layout.NumPieces, CountedBy;
    }

    /** So between two piece boundaries nothing does. */
    lemma {:induction false} MiddleEven(pr: Progress, p: nat, q: nat)
      requires Valid() && CountedBy(pr) && p <= q && q * l.pieceLength <= l.length
      ensures Excess(pr, p * l.pieceLength, q * l.pieceLength) == 0
      decreases q
    {
      if p < q {
        MulNext(q - 1, l.pieceLength);
        MulMono(p, q - 1, l.pieceLength);
        MiddleEven(pr, p, q - 1);
        l.PieceExtent(q - 1);
        WholePieceEven(pr, q - 1);
        ExcessSplit(pr, p * l.pieceLength, (q - 1) * l.pieceLength, q * l.pieceLength);
        hide Excess, Layout.PieceLength, Layout.NumPieces, CountedBy;
      }
    }

    /** Main result: what a file reports differs from what is missing of it by its written
        bytes in the first and last piece, less what the sum takes off there. */
    lemma {:induction false} TotalAgainstMissing(pr: Progress, f: File)
      requires Valid() && CountedBy(pr) && f.End() <= l.length
      ensures pr.Total(f) - Left(f.offset, f.End()) == Inside(f) - pr.TakenOff(f)
    {
      if f.length > 0 {
        var first, end := f.BeginPieceIndex(l.pieceLength), f.EndPieceIndex(l.pieceLength);
        CountedPieceLength(pr);
        pr.Extent(f);
        if end == first + 1 {
          MulNext(first, l.pieceLength);
          InPiece(first, f.offset, f.End());
          hide Left, WrittenIn, Progress.InSingle, Layout.PieceLength, Layout.NumPieces, CountedBy, Valid;
        } else {
          SeveralPieces(pr, f);
        }
      }
    }

    lemma {:induction false} CountedPieceLength(pr: Progress)
      requires Valid() && CountedBy(pr)
      ensures pr.pieceLength == l.pieceLength && pr.completed == completed && pr.Valid()
    {
    }

    /** First piece, whole pieces, last piece. */
    lemma {:induction false} Parts(pr: Progress, f: File)
      requires Valid() && CountedBy(pr) && 0 < f.length && f.End() <= l.length
      requires f.EndPieceIndex(l.pieceLength) > f.BeginPieceIndex(l.pieceLength) + 1
      ensures var a, b := PieceStart(f.BeginPieceIndex(l.pieceLength) + 1), PieceStart(f.EndPieceIndex(l.pieceLength) - 1);
        && f.offset <= a <= b <= f.End() && a <= f.offset + l.pieceLength && f.End() <= b + l.pieceLength
        && Excess(pr, f.offset, f.End()) == Excess(pr, f.offset, a) + Excess(pr, b, f.End())
    {
      var first, end := f.BeginPieceIndex(l.pieceLength), f.EndPieceIndex(l.pieceLength);
      CountedPieceLength(pr);
      pr.Extent(f);
      MulNext(first, l.pieceLength);
      MulNext(end - 1, l.pieceLength);
      MulMono(first + 1, end - 1, l.pieceLength);
      var a, b := (first + 1) * l.pieceLength, (end - 1) * l.pieceLength;
      hide Excess, CountedBy, Valid, Layout.Valid, File.BeginPieceIndex, File.EndPieceIndex;
      MiddleEven(pr, first + 1, end - 1);
      ExcessSplit(pr, f.offset, a, b);
      ExcessSplit(pr, f.offset, b, f.End());
    }

    /** The first piece of several. */
    lemma {:induction false} FirstTerm(pr: Progress, f: File)
      requires Valid() && CountedBy(pr) && 0 < f.length && f.End() <= l.length
      requires f.EndPieceIndex(l.pieceLength) > f.BeginPieceIndex(l.pieceLength) + 1
      ensures pr.Valid()
      ensures var first, a := f.BeginPieceIndex(l.pieceLength), PieceStart(f.BeginPieceIndex(l.pieceLength) + 1);
        Excess(pr, f.offset, a) == if first in completed then 0
          else WrittenIn(f.offset, a) - Max(0, pr.Dirty(first) - f.offset % l.pieceLength)
    {
      var first := f.BeginPieceIndex(l.pieceLength);
      CountedPieceLength(pr);
      pr.Extent(f);
      MulNext(first, l.pieceLength);
      hide Excess, CountedBy, Valid, Layout.Valid, File.BeginPieceIndex, File.EndPieceIndex, WrittenIn, Progress.Dirty;
      ExcessInPiece(pr, first, f.offset, PieceStart(first + 1));
    }

    /** The last. */
    lemma {:induction false} LastTerm(pr: Progress, f: File)
      requires Valid() && CountedBy(pr) && 0 < f.length && f.End() <= l.length
      ensures pr.Valid()
      ensures var last := f.EndPieceIndex(l.pieceLength) - 1;
        && PieceStart(last) <= f.End()
        && Excess(pr, PieceStart(last), f.End()) == if last in completed then 0
          else WrittenIn(PieceStart(last), f.End()) - Min(pr.EndSizeOf(f), pr.Dirty(last))
    {
      var last: nat := f.EndPieceIndex(l.pieceLength) - 1;
      CountedPieceLength(pr);
      pr.Extent(f);
      pr.EndSize(f);
      MulNext(last, l.pieceLength);
      hide Excess, CountedBy, Valid, Layout.Valid, File.BeginPieceIndex, File.EndPieceIndex, WrittenIn, Progress.Dirty;
      ExcessInPiece(pr, last, PieceStart(last), f.End());
    }

    lemma {:induction false} SeveralTerms(pr: Progress, f: File)
      requires Valid() && CountedBy(pr) && 0 < f.length && f.EndPieceIndex(l.pieceLength) > f.BeginPieceIndex(l.pieceLength) + 1
      ensures pr.Valid()
      ensures var first, last := f.BeginPieceIndex(l.pieceLength), f.EndPieceIndex(l.pieceLength) - 1;
        && Inside(f) == (if first in completed then 0 else WrittenIn(f.offset, PieceStart(first + 1)))
          + (if last in completed then 0 else WrittenIn(PieceStart(last), f.End()))
        && pr.TakenOff(f) == (if first in completed then 0 else Max(0, pr.Dirty(first) - f.offset % l.pieceLength))
          + (if last in completed then 0 else Min(pr.EndSizeOf(f), pr.Dirty(last)))
    {
      CountedPieceLength(pr);
      hide CountedBy, Valid, Layout.Valid, File.BeginPieceIndex, File.EndPieceIndex, WrittenIn, Progress.Dirty, PieceStart, Progress.EndSizeOf;
    }

    lemma {:induction false} SeveralPieces(pr: Progress, f: File)
      requires Valid() && CountedBy(pr) && 0 < f.length && f.End() <= l.length
      requires f.EndPieceIndex(l.pieceLength) > f.BeginPieceIndex(l.pieceLength) + 1
      ensures pr.Valid() && Excess(pr, f.offset, f.End()) == Inside(f) - pr.TakenOff(f)
    {
      hide *;
      FirstTerm(pr, f);
      LastTerm(pr, f);
      SeveralTerms(pr, f);
      Parts(pr, f);
    }

    /** When the total is exact, too small and too large. */
    lemma {:induction false} TotalIsExact(pr: Progress, f: File)
      requires Valid() && CountedBy(pr) && f.End() <= l.length
      ensures pr.Total(f) == Left(f.offset, f.End()) <==> Inside(f) == pr.TakenOff(f)
      ensures pr.Total(f) < Left(f.offset, f.End()) <==> Inside(f) < pr.TakenOff(f)
      ensures pr.Total(f) > Left(f.offset, f.End()) <==> Inside(f) > pr.TakenOff(f)
    {
      TotalAgainstMissing(pr, f);
      hide *;
    }

    /** The torrent's own sum over pieces is the bytes missing from it. */
    lemma {:induction false} TorrentIsExact(pr: Progress)
      requires Valid() && CountedBy(pr)
      ensures l.LeftIn(completed, dirty, l.NumPieces()) == Left(0, l.length)
    {
      hide *;
      TorrentSum(pr);
      TorrentEven(pr);
      NoExcess(pr, 0, l.length);
    }

    lemma {:induction false} TorrentSum(pr: Progress)
      requires Valid() && CountedBy(pr)
      ensures l.Valid() && pr.Valid() && l.DirtyFits(dirty)
      ensures l.LeftIn(completed, dirty, l.NumPieces()) == pr.PrefixLeft(0, l.length)
    {
      TracksIsValid(pr, l, dirty);
      TorrentLeft(pr, l, dirty, l.NumPieces());
      var n := WholePieces();
      hide Layout.LeftIn, Progress.PrefixLeft, Layout.NumPieces, Progress.Valid, Layout.Valid, Layout.DirtyFits, Tracks, EndOf;
    }

    lemma {:induction false} TorrentEven(pr: Progress)
      requires Valid() && CountedBy(pr)
      ensures l.Valid() && pr.Valid() && Excess(pr, 0, l.length) == 0
    {
      hide Excess, Layout.NumPieces, Layout.PieceLength, CountedBy, Layout.DirtyFits;
      CountedPieceLength(pr);
      var n := WholePieces();
      MiddleEven(pr, 0, n);
      if n * l.pieceLength < l.length {
        WholePieceEven(pr, n);
        ExcessSplit(pr, 0, n * l.pieceLength, l.length);
      }
    }

    lemma {:induction false} NoExcess(pr: Progress, a: nat, b: nat)
      requires l.Valid() && pr.Valid() && Excess(pr, a, b) == 0
      ensures pr.PrefixLeft(a, b) == Left(a, b)
    {
    }

    /** How many pieces are full, and what is left for one more. */
    lemma {:induction false} WholePieces() returns (n: nat)
      requires l.Valid()
      ensures EndOf(l, l.NumPieces()) == l.length && n * l.pieceLength <= l.length && 0 * l.pieceLength == 0
      ensures n * l.pieceLength < l.length ==> n < l.NumPieces() && n * l.pieceLength + l.PieceLength(n) == l.length
    {
      n := l.length / l.pieceLength;
      DivBounds(l.length, l.pieceLength);
      l.PieceExtent(n);
      CeilDivBounds(l.length, l.pieceLength);
    }

    // ---- when chunks are written in order

    predicate DirtyChunk(p: nat, c: nat)
      requires l.Valid()
    {
      l.Begin(p) + c in dirty
    }

    /** The dirty chunks of a piece are its first ones. */
    ghost predicate FirstOnes(p: nat)
      requires l.Valid()
    {
      forall c: nat, d: nat | c < d < l.NumChunks(p) && DirtyChunk(p, d) :: DirtyChunk(p, c)
    }

    /** Every chunk before `n` is dirty, and none from there on. */
    ghost predicate DirtyUpTo(p: nat, n: nat)
      requires l.Valid()
    {
      n <= l.NumChunks(p) && forall c: nat | c < l.NumChunks(p) :: DirtyChunk(p, c) <==> c < n
    }

    lemma {:induction false} FirstClean(p: nat, k: nat) returns (n: nat)
      requires l.Valid() && FirstOnes(p) && k <= l.NumChunks(p) && forall c: nat | c < k :: DirtyChunk(p, c)
      ensures DirtyUpTo(p, n)
      decreases l.NumChunks(p) - k
    {
      hide Layout.NumChunks, DirtyChunk;
      n := k;
      if k < l.NumChunks(p) && DirtyChunk(p, k) { n := FirstClean(p, k + 1); }
    }

    lemma {:induction false} SumUpTo(p: nat, n: nat, k: nat)
      requires l.Valid() && p < l.NumPieces() && DirtyUpTo(p, n) && k <= l.NumChunks(p)
      ensures p * l.pieceLength + l.DirtySum(dirty, p, k) == ChunksEnd(p, if k < n then k else n)
    {
      if k == 0 {
        l.ChunkCounts(p);
      } else {
        SumUpTo(p, n, k - 1);
        ChunksEndNext(p, k);
        assert DirtyChunk(p, k - 1) <==> k - 1 < n;
        hide ChunksEnd, Layout.SpecOf, Layout.NumPieces, Layout.NumChunks, Layout.PieceLength, Layout.Begin;
      }
    }

    /** Then a byte of the piece is written exactly when it is one of the first. */
    lemma {:induction false} WrittenFirst(p: nat, x: nat)
      requires Valid() && p < l.NumPieces() && FirstOnes(p) && p * l.pieceLength <= x < p * l.pieceLength + l.PieceLength(p)
      ensures l.Begin(p + 1) < TWO32 && (Written(x) <==> x < p * l.pieceLength + l.NumDirtyBytes(dirty, p))
    {
      l.FitsAt(dirty, p);
      l.DirtyBytesAreExact(dirty, p);
      var n := FirstClean(p, 0);
      SumUpTo(p, n, l.NumChunks(p));
      var c := ChunkInPiece(p, x);
      assert DirtyChunk(p, c) <==> c < n;
      hide *;
      ChunkBefore(p, c, n, x);
    }

    lemma {:induction false} ChunkInPiece(p: nat, x: nat) returns (c: nat)
      requires l.Valid() && p * l.pieceLength <= x < p * l.pieceLength + l.PieceLength(p)
      ensures c < l.NumChunks(p) && (Written(x) <==> DirtyChunk(p, c))
      ensures p * l.pieceLength + c * l.chunkSize <= x < p * l.pieceLength + c * l.chunkSize + l.chunkSize
    {
      hide Layout.PieceLength, Layout.NumChunks, Layout.Begin, ChunkOf;
      var n := p * l.pieceLength;
      c := ChunkAtOffset(p, x - n);
      var begin := n + c * l.chunkSize;
      ChunkAt(p, c, begin, x);
    }

    lemma {:induction false} ChunkAtOffset(p: nat, o: nat) returns (c: nat)
      requires l.Valid() && o < l.PieceLength(p)
      ensures c < l.NumChunks(p) && 0 <= c * l.chunkSize <= o < c * l.chunkSize + l.chunkSize && o < l.pieceLength
    {
      c := o / l.chunkSize;
      DivBounds(o, l.chunkSize);
      l.ChunkCounts(p);
      ChunkBegins(c, l.PieceLength(p), l.chunkSize);
      hide Layout.PieceLength;
    }

    lemma {:induction false} ChunkBefore(p: nat, c: nat, n: nat, x: nat)
      requires l.Valid() && p * l.pieceLength <= x < p * l.pieceLength + l.PieceLength(p)
      requires p * l.pieceLength + c * l.chunkSize <= x < p * l.pieceLength + c * l.chunkSize + l.chunkSize
      ensures c < n <==> x < ChunksEnd(p, n)
    {
      hide Layout.PieceLength;
      MulNext(c, l.chunkSize);
      if n <= c { MulMono(n, c, l.chunkSize); } else { MulMono(c + 1, n, l.chunkSize); }
    }

    /** And what is missing of the piece is what lies past the written bytes. */
    lemma {:induction false} OrderedPiece(pr: Progress, p: nat, a: nat, b: nat)
      requires Valid() && CountedBy(pr) && p < l.NumPieces() && (p in completed || FirstOnes(p))
      requires p * l.pieceLength <= a <= b <= p * l.pieceLength + l.PieceLength(p)
      ensures Excess(pr, a, b) == 0
      decreases b
    {
      if a < b {
        OrderedPiece(pr, p, a, b - 1);
        CountedPieceLength(pr);
        l.ChunkCounts(p);
        DivUnique(b - 1, l.pieceLength, p, b - 1 - p * l.pieceLength);
        if p !in completed { WrittenFirst(p, b - 1); }
        hide Written, FirstOnes, Layout.PieceLength, Layout.NumPieces, Layout.NumDirtyBytes, Layout.Begin, Layout.DirtyFits;
      }
    }

    /** With the dirty chunks of its first and last piece in order, a file's total is never
        too small, and exact but for files inside one piece as stated with the total. */
    lemma {:induction false} OrderedTotal(pr: Progress, f: File)
      requires Valid() && CountedBy(pr) && 0 < f.length && f.End() <= l.length
      requires forall p <- {f.BeginPieceIndex(l.pieceLength), f.EndPieceIndex(l.pieceLength) - 1} :: p in completed || FirstOnes(p)
      ensures pr.PrefixLeft(f.offset, f.End()) == Left(f.offset, f.End())
      ensures pr.IsLeft(f, pr.Total(f))
    {
      var first, end := f.BeginPieceIndex(l.pieceLength), f.EndPieceIndex(l.pieceLength);
      CountedPieceLength(pr);
      pr.Extent(f);
      pr.SinglePiece(f);
      Spans(f);
      hide FirstOnes;
      if end == first + 1 {
        OrderedPiece(pr, first, f.offset, f.End());
      } else {
        Parts(pr, f);
        OrderedPiece(pr, first, f.offset, (first + 1) * l.pieceLength);
        OrderedPiece(pr, end - 1, (end - 1) * l.pieceLength, f.End());
      }
    }

    lemma {:induction false} Spans(f: File)
      requires l.Valid() && 0 < f.length && f.End() <= l.length
      ensures var first, end := f.BeginPieceIndex(l.pieceLength), f.EndPieceIndex(l.pieceLength);
        && first < end && first < l.NumPieces() && end - 1 < l.NumPieces()
        && (end > first + 1 ==> (first + 1) * l.pieceLength == first * l.pieceLength + l.PieceLength(first))
        && f.End() <= (end - 1) * l.pieceLength + l.PieceLength(end - 1)
    {
      var first, end := f.BeginPieceIndex(l.pieceLength), f.EndPieceIndex(l.pieceLength);
      DivBounds(f.offset, l.pieceLength);
      CeilDivBounds(f.End(), l.pieceLength);
      ChunkBegins(first, f.End(), l.pieceLength);
      l.PieceExtent(first);
      l.PieceExtent(end - 1);
      MulNext(first, l.pieceLength);
      MulNext(end - 1, l.pieceLength);
      MulMono(first, end - 1, l.pieceLength);
      if end > first + 1 { MulMono(first + 1, end - 1, l.pieceLength); }
      hide Layout.PieceLength, Layout.NumPieces;
    }
  }

  /** Pieces of two chunks of one byte each. */
  lemma {:induction false} SmallPieces(l: Layout)
    requires l.pieceLength == 2 && l.chunkSize == 1 && (l.length == 2 || l.length == 4)
    ensures l.Valid() && l.ChunksPerPiece() == 2 && l.NumPieces() == l.length / 2
    ensures forall p: nat :: l.PieceLength(p) == 2 && l.NumChunks(p) == 2 && l.Begin(p) == 2 * p
  {
  }

  lemma {:induction false} CountsOfOne(x: nat, n: nat)
    ensures Rank({x}, n) == if x <= n then 1 else 0
  {
    assert AtMost({x}, n) == if x <= n then {x} else {};
  }

  /** One dirty chunk of such a torrent. */
  lemma {:induction false} SmallStore(s: Store, x: nat)
    requires s.l.pieceLength == 2 && s.l.chunkSize == 1 && (s.l.length == 2 || s.l.length == 4) && s.dirty == {x} && x < s.l.length
    ensures s.Valid() && s.l.NumPieces() == s.l.length / 2
    ensures forall p: nat | p < s.l.NumPieces() :: s.l.Begin(p + 1) < TWO32 && s.l.NumDirtyBytes({x}, p) == if x / 2 == p then 1 else 0
    ensures forall b: nat | b < s.l.length :: s.Written(b) <==> b == x
  {
    SmallPieces(s.l);
    forall p: nat | p < s.l.NumPieces()
      ensures s.l.NumDirtyBytes({x}, p) == if x / 2 == p then 1 else 0
    {
      assert p <= 1;
      CountsOfOne(x, 2 * p + 1);
      if p > 0 { CountsOfOne(x, 2 * p - 1); }
      assert s.l.SpecOf(p, 1).length == 1;
      hide Rank, Layout.PieceLength, Layout.NumChunks, Layout.Begin, Layout.NumPieces, Layout.ChunksPerPiece;
    }
    hide Layout.NumDirtyBytes, Layout.PieceLength, Layout.NumChunks, Layout.Begin, Layout.NumPieces, Layout.ChunksPerPiece;
  }

  /** Two pieces of two chunks of one byte. The second chunk of the second piece is
      written; the file ends before it, yet is reported complete. */
  lemma {:induction false} ReportedTooSoon()
    ensures var s, pr, f := Store(Layout(4, 2, 1), {0}, {3}), Progress(2, {0}, [0, 1]), File(0, 3);
      s.Valid() && s.CountedBy(pr) && pr.Total(f) == 0 && s.Left(0, 3) == 1
  {
    var s, pr, f := Store(Layout(4, 2, 1), {0}, {3}), Progress(2, {0}, [0, 1]), File(0, 3);
    SmallStore(s, 3);
    hide Layout.NumDirtyBytes, Layout.NumPieces, Layout.Begin, Store.Written, Store.Valid;
    assert s.CountedBy(pr);
    assert s.Left(0, 1) == 0 && s.Left(0, 2) == 0 && s.Left(0, 3) == 1;
    assert pr.PrefixLeft(0, 1) == 0 && pr.PrefixLeft(0, 2) == 0 && pr.PrefixLeft(0, 3) == 0;
  }

  lemma {:induction false} TooLateTotal()
    ensures var pr, f := Progress(2, {}, [1]), File(0, 1); pr.Valid() && pr.Total(f) == 1
  {
  }

  lemma {:induction false} SmallCount(s: Store, pr: Progress)
    requires s.Valid() && s.l.NumPieces() == 1 && s.l.Begin(1) < TWO32 && s.l.NumDirtyBytes(s.dirty, 0) == 1
    requires s.l.pieceLength == 2 && pr == Progress(2, {}, [1]) && s.completed == {}
    ensures s.CountedBy(pr)
  {
    hide Layout.NumDirtyBytes, Layout.NumPieces, Layout.Begin, Store.Valid;
  }

  lemma {:induction false} OneByte(s: Store)
    requires s.l.Valid() && s.Written(0)
    ensures s.Left(0, 1) == 0
  {
    hide Store.Written;
    assert s.Left(0, 0) == 0;
  }

  /** One piece of two chunks. The first is written, and the file is that chunk; it is
      reported as all missing. */
  lemma {:induction false} ReportedTooLate()
    ensures var s, pr, f := Store(Layout(2, 2, 1), {}, {0}), Progress(2, {}, [1]), File(0, 1);
      s.Valid() && s.CountedBy(pr) && pr.Total(f) == 1 && s.Left(0, 1) == 0
  {
    var s, pr, f := Store(Layout(2, 2, 1), {}, {0}), Progress(2, {}, [1]), File(0, 1);
    TooLateTotal();
    SmallStore(s, 0);
    SmallCount(s, pr);
    hide *;
    OneByte(s);
  }
}
