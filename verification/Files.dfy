/** Progress of single files: how many of a file's bytes are left, as the client adds it
    up piece by piece from how many bytes of each piece are written. Where the written
    bytes lie does not enter here; `MissingBytes` compares with that. */
module Files {
  import opened Arithmetic
  import opened Chunks

  datatype File = File(offset: nat, length: nat)
  {
    function End(): nat { offset + length }

    function BeginPieceIndex(pieceLength: nat): nat
      requires pieceLength > 0
    {
      offset / pieceLength
    }

    function EndPieceIndex(pieceLength: nat): (end: nat)
      requires pieceLength > 0
      ensures length > 0 ==> end > 0
    {
      CeilDivBounds(offset + length, pieceLength);
      CeilDiv(offset + length, pieceLength)
    }
  }

  function Sum(s: seq<nat>): nat { if s == [] then 0 else Sum(s[..|s| - 1]) + s[|s| - 1] }

  /** Each file begins where the ones before it end. */
  ghost predicate LaidOut(files: seq<File>, lengths: seq<nat>)
  {
    && |files| == |lengths|
    && forall i | 0 <= i < |files| :: files[i] == File(Sum(lengths[..i]), lengths[i])
  }

  method InitFiles(lengths: seq<nat>) returns (files: seq<File>)
    ensures LaidOut(files, lengths)
  {
    files := [];
    var offset := 0;
    for i := 0 to |lengths|
      invariant |files| == i && offset == Sum(lengths[..i])
      invariant forall j | 0 <= j < i :: files[j] == File(Sum(lengths[..j]), lengths[j])
    {
      files := files + [File(offset, lengths[i])];
      offset := offset + lengths[i];
      assert lengths[..i + 1][..i] == lengths[..i];
    }
  }

  /** Which pieces are complete, and how many bytes of the others have been written. */
  datatype Progress = Progress(pieceLength: nat, completed: set<nat>, dirty: seq<nat>)
  {
    predicate Valid()
    {
      pieceLength > 0 && forall d <- dirty :: d <= pieceLength
    }

    function Dirty(p: nat): (d: nat)
      requires Valid()
      ensures d <= pieceLength
    {
      if p < |dirty| then (assert dirty[p] in dirty; dirty[p]) else 0
    }

    /** A byte of an incomplete piece that is not among as many first bytes of the piece
        as have been written, wherever those really are. */
    predicate PastWritten(x: nat)
      requires Valid()
    {
      x / pieceLength !in completed && Dirty(x / pieceLength) <= x % pieceLength
    }

    ghost function PrefixLeft(a: nat, b: nat): (n: nat)
      requires Valid()
      ensures n <= Max(0, b - a)
      decreases b
    {
      if a >= b then 0 else PrefixLeft(a, b - 1) + if PastWritten(b - 1) then 1 else 0
    }

    lemma {:induction false} LeftSplit(a: nat, b: nat, c: nat)
      requires Valid() && a <= b <= c
      ensures PrefixLeft(a, c) == PrefixLeft(a, b) + PrefixLeft(b, c)
      decreases c
    {
      if b < c { LeftSplit(a, b, c - 1); }
    }

    /** A stretch of one piece: what lies in it past the written bytes. */
    lemma {:induction false} LeftInPiece(p: nat, a: nat, b: nat)
      requires Valid() && p * pieceLength <= a <= b <= p * pieceLength + pieceLength
      ensures PrefixLeft(a, b) == if p in completed then 0 else Max(0, b - Max(a, p * pieceLength + Dirty(p)))
      decreases b
    {
      if a < b {
        LeftInPiece(p, a, b - 1);
        DivUnique(b - 1, pieceLength, p, b - 1 - p * pieceLength);
      }
    }

    /** When a file's total is the count past the written bytes: unless the file lies
        inside one incomplete piece, stops short of a regular piece's end, and the piece's
        written bytes reach past where the file begins but are fewer than those of a
        regular piece. For a last piece that is shorter, a regular piece's end is never
        reached. */
    predicate PrefixExact(f: File)
      requires Valid()
    {
      var p := f.BeginPieceIndex(pieceLength);
      || f.length == 0 || p in completed || f.EndPieceIndex(pieceLength) != p + 1
      || f.End() % pieceLength == 0 || Dirty(p) <= f.offset % pieceLength || Dirty(p) == pieceLength
    }

    /** A total is that count exactly for those files, otherwise larger, and never more
        than the file. */
    ghost predicate IsLeft(f: File, left: int)
      requires Valid()
    {
      && PrefixLeft(f.offset, f.End()) <= left <= f.length
      && (left == PrefixLeft(f.offset, f.End()) <==> PrefixExact(f))
    }

    /** What the sum comes to. */
    ghost function Total(f: File): int
      requires Valid()
    {
      if f.length == 0 then 0
      else if f.EndPieceIndex(pieceLength) == f.BeginPieceIndex(pieceLength) + 1 then
        if f.BeginPieceIndex(pieceLength) in completed then 0 else Min(f.length, InSingle(f))
      else PrefixLeft(f.offset, f.End())
    }

    /** How many bytes of the last piece belong to the file. */
    function EndSizeOf(f: File): nat
      requires Valid()
    {
      if f.End() % pieceLength == 0 then pieceLength else f.End() % pieceLength
    }

    /** What the branches take off the file's bytes in its first and its last piece. */
    function TakenOff(f: File): int
      requires Valid()
    {
      var first, end := f.BeginPieceIndex(pieceLength), f.EndPieceIndex(pieceLength);
      if f.length == 0 then 0
      else if end == first + 1 then
        if first in completed then 0 else f.length - Min(f.length, InSingle(f))
      else
        (if first in completed then 0 else Max(0, Dirty(first) - f.offset % pieceLength))
        + (if end - 1 in completed then 0 else Min(EndSizeOf(f), Dirty(end - 1)))
    }

    method FileBytesLeft(f: File) returns (left: int)
      requires Valid()
      ensures left == Total(f) && 0 <= left <= f.length
      ensures IsLeft(f, left)
      ensures !PrefixExact(f) ==> left == Min(f.length, pieceLength - Dirty(f.BeginPieceIndex(pieceLength)))
    {
      left := 0;
      if f.length == 0 { return; }
      var first, end := f.BeginPieceIndex(pieceLength), f.EndPieceIndex(pieceLength);
      Extent(f);
      EndSize(f);
      SinglePiece(f);
      hide *;
      for i := first to end
        invariant end > first + 1 ==> left == PrefixLeft(f.offset, StartOf(f, i))
        invariant end == first + 1 ==> left == if i == first || first in completed then 0 else InSingle(f)
      {
        var before := left;
        if i !in completed {
          var pieceSizeCompleted := Dirty(i);
          if i == first {
            var beginOffset := f.offset % pieceLength;
            var beginSize := pieceLength - beginOffset;
            var beginDownloaded := pieceSizeCompleted - beginOffset;
            if beginDownloaded < 0 { beginDownloaded := 0; }
            left := left + (beginSize - beginDownloaded);
          } else if i == end - 1 {
            var endSize := f.End() % pieceLength;
            if endSize == 0 { endSize := pieceLength; }
            var endDownloaded := pieceSizeCompleted;
            if endDownloaded > endSize { endDownloaded := endSize; }
            left := left + (endSize - endDownloaded);
          } else {
            left := left + (pieceLength - pieceSizeCompleted);
          }
        }
        if end > first + 1 { LeftNext(f, i); TermIs(f, i); }
      }
      if left > f.length { left := f.length; }
    }

    /** What the first branch computes for a file inside one piece. */
    function InSingle(f: File): int
      requires Valid()
    {
      pieceLength - f.offset % pieceLength - Max(0, Dirty(f.BeginPieceIndex(pieceLength)) - f.offset % pieceLength)
    }

    lemma {:induction false} SinglePiece(f: File)
      requires Valid() && f.length > 0
      ensures var first, end := f.BeginPieceIndex(pieceLength), f.EndPieceIndex(pieceLength);
        && (end > first + 1 ==> IsLeft(f, PrefixLeft(f.offset, f.End())) && PrefixExact(f))
        && (end == first + 1 ==>
          var left := if first in completed then 0 else Min(f.length, InSingle(f));
          IsLeft(f, left) && (!PrefixExact(f) ==> left == Min(f.length, pieceLength - Dirty(first))))
    {
      var first, end := f.BeginPieceIndex(pieceLength), f.EndPieceIndex(pieceLength);
      Extent(f);
      EndSize(f);
      if end == first + 1 {
        MulNext(first, pieceLength);
        LeftInPiece(first, f.offset, f.End());
        hide File.BeginPieceIndex, File.EndPieceIndex, PrefixLeft, PastWritten, StartOf, Dirty, Valid;
      }
    }

    /** How far the file reaches into its last piece. */
    lemma {:induction false} EndSize(f: File)
      requires Valid() && f.length > 0
      ensures f.End() - (f.EndPieceIndex(pieceLength) - 1) * pieceLength
        == if f.End() % pieceLength == 0 then pieceLength else f.End() % pieceLength
    {
      var end := f.EndPieceIndex(pieceLength);
      Extent(f);
      MulNext(end - 1, pieceLength);
      if f.End() == end * pieceLength {
        DivUnique(f.End(), pieceLength, end, 0);
      } else {
        DivUnique(f.End(), pieceLength, end - 1, f.End() - (end - 1) * pieceLength);
      }
    }

    /** What the branches compute for a file over several pieces. */
    lemma {:induction false} TermIs(f: File, i: nat)
      requires Valid() && f.length > 0
      requires f.BeginPieceIndex(pieceLength) <= i < f.EndPieceIndex(pieceLength)
      requires f.EndPieceIndex(pieceLength) > f.BeginPieceIndex(pieceLength) + 1
      ensures i !in completed ==> var endSize := if f.End() % pieceLength == 0 then pieceLength else f.End() % pieceLength;
        Term(f, i) ==
          if i == f.BeginPieceIndex(pieceLength) then pieceLength - f.offset % pieceLength - Max(0, Dirty(i) - f.offset % pieceLength)
          else if i == f.EndPieceIndex(pieceLength) - 1 then endSize - Min(endSize, Dirty(i))
          else pieceLength - Dirty(i)
      ensures i in completed ==> Term(f, i) == 0
    {
      var first, end := f.BeginPieceIndex(pieceLength), f.EndPieceIndex(pieceLength);
      Extent(f);
      EndSize(f);
      MulNext(i, pieceLength);
      MulNext(first, pieceLength);
      if i < end - 1 { MulMono(i + 1, end - 1, pieceLength); }
      if first < i { MulMono(first + 1, i, pieceLength); }
      hide File.BeginPieceIndex, File.EndPieceIndex, PrefixLeft, PastWritten, Dirty, Valid;
    }

    /** Where the file's part from piece `i` on begins. */
    function StartOf(f: File, i: nat): nat { Min(Max(f.offset, i * pieceLength), f.End()) }

    lemma {:induction false} Extent(f: File)
      requires Valid() && f.length > 0
      ensures var first, end := f.BeginPieceIndex(pieceLength), f.EndPieceIndex(pieceLength);
        && first < end && f.offset == first * pieceLength + f.offset % pieceLength
        && f.offset % pieceLength < pieceLength
        && StartOf(f, first) == f.offset && StartOf(f, end) == f.End()
        && (end - 1) * pieceLength < f.End() <= end * pieceLength
    {
      var first, end := f.BeginPieceIndex(pieceLength), f.EndPieceIndex(pieceLength);
      DivBounds(f.offset, pieceLength);
      CeilDivBounds(f.End(), pieceLength);
      ChunkBegins(first, f.End(), pieceLength);
    }

    lemma {:induction false} LeftNext(f: File, i: nat)
      requires Valid() && f.length > 0
      requires f.BeginPieceIndex(pieceLength) <= i < f.EndPieceIndex(pieceLength)
      ensures PrefixLeft(f.offset, StartOf(f, i + 1)) == PrefixLeft(f.offset, StartOf(f, i)) + Term(f, i)
    {
      var first, end := f.BeginPieceIndex(pieceLength), f.EndPieceIndex(pieceLength);
      Extent(f);
      MulNext(i, pieceLength);
      MulNext(first, pieceLength);
      MulNext(end - 1, pieceLength);
      MulMono(first, i, pieceLength);
      MulMono(i, end - 1, pieceLength);
      if i < end - 1 { MulMono(i + 1, end - 1, pieceLength); }
      if first < i { MulMono(first + 1, i, pieceLength); }
      hide *;
      LeftSplit(f.offset, StartOf(f, i), StartOf(f, i + 1));
      LeftInPiece(i, StartOf(f, i), StartOf(f, i + 1));
    }

    function Term(f: File, i: nat): int
      requires Valid()
    {
      if i in completed then 0 else Max(0, StartOf(f, i + 1) - Max(StartOf(f, i), i * pieceLength + Dirty(i)))
    }
  }

  lemma {:induction false} SumNext(s: seq<nat>, n: nat)
    requires 0 < n <= |s|
    ensures Sum(s[..n]) == Sum(s[..n - 1]) + s[n - 1]
  {
    assert s[..n][..n - 1] == s[..n - 1];
  }

  ghost predicate AllExact(pr: Progress, files: seq<File>, n: nat)
    requires pr.Valid() && n <= |files|
  {
    forall i | 0 <= i < n :: pr.PrefixExact(files[i])
  }

  lemma {:induction false} AllExactNext(pr: Progress, files: seq<File>, n: nat)
    requires pr.Valid() && 0 < n <= |files|
    ensures AllExact(pr, files, n) <==> AllExact(pr, files, n - 1) && pr.PrefixExact(files[n - 1])
  {
    hide Progress.PrefixExact, Progress.Valid;
  }

  /** Over the first `n` files of a torrent the totals add up to at least the bytes past
      the written ones, and to exactly that just when each total is that count. */
  lemma {:induction false} FilesAddUp(pr: Progress, files: seq<File>, lengths: seq<nat>, lefts: seq<nat>, n: nat)
    requires pr.Valid() && LaidOut(files, lengths) && |lefts| == |files| && n <= |files|
    requires forall i | 0 <= i < |files| :: pr.IsLeft(files[i], lefts[i])
    ensures pr.PrefixLeft(0, Sum(lengths[..n])) <= Sum(lefts[..n])
    ensures pr.PrefixLeft(0, Sum(lengths[..n])) == Sum(lefts[..n]) <==> AllExact(pr, files, n)
  {
    hide *;
    if n == 0 {
      NoFiles(pr, files, lengths, lefts);
    } else {
      FileAddsItsOwn(pr, files, lengths, lefts, n - 1);
      FilesAddUp(pr, files, lengths, lefts, n - 1);
      AllExactNext(pr, files, n);
      SumNext(lengths, n);
      SumNext(lefts, n);
      pr.LeftSplit(0, Sum(lengths[..n - 1]), Sum(lengths[..n]));
    }
  }

  lemma {:induction false} NoFiles(pr: Progress, files: seq<File>, lengths: seq<nat>, lefts: seq<nat>)
    requires pr.Valid()
    ensures pr.PrefixLeft(0, Sum(lengths[..0])) == Sum(lefts[..0]) && AllExact(pr, files, 0)
  {
  }

  lemma {:induction false} FileAddsItsOwn(pr: Progress, files: seq<File>, lengths: seq<nat>, lefts: seq<nat>, i: nat)
    requires pr.Valid() && LaidOut(files, lengths) && |lefts| == |files| && i < |files| && pr.IsLeft(files[i], lefts[i])
    ensures i < |lengths| && pr.PrefixLeft(Sum(lengths[..i]), Sum(lengths[..i]) + lengths[i]) <= lefts[i]
    ensures lefts[i] == pr.PrefixLeft(Sum(lengths[..i]), Sum(lengths[..i]) + lengths[i]) <==> pr.PrefixExact(files[i])
  {
    assert files[i] == File(Sum(lengths[..i]), lengths[i]);
    hide Progress.PrefixExact, Progress.PrefixLeft, Progress.Valid, Sum;
  }

  /** The progress that a layout's dirty chunks amount to. */
  ghost predicate Tracks(pr: Progress, l: Layout, dirty: set<nat>)
    requires l.Valid() && l.DirtyFits(dirty)
  {
    && pr.pieceLength == l.pieceLength && |pr.dirty| == l.NumPieces()
    && forall p: nat | p < l.NumPieces() :: l.Begin(p + 1) < TWO32 && pr.dirty[p] == l.NumDirtyBytes(dirty, p)
  }

  lemma {:induction false} TracksIsValid(pr: Progress, l: Layout, dirty: set<nat>)
    requires l.Valid() && l.DirtyFits(dirty) && Tracks(pr, l, dirty)
    ensures pr.Valid() && forall p: nat | p < l.NumPieces() :: pr.dirty[p] <= l.PieceLength(p)
  {
    forall p: nat | p < l.NumPieces()
      ensures pr.dirty[p] <= l.PieceLength(p) <= l.pieceLength
    {
      l.FitsAt(dirty, p);
      l.DirtyBytesFit(dirty, p);
      l.ChunkCounts(p);
    }
  }

  /** What the torrent counts as left, piece by piece, is the count past the written bytes. */
  lemma {:induction false} TorrentLeft(pr: Progress, l: Layout, dirty: set<nat>, n: nat)
    requires l.Valid() && l.DirtyFits(dirty) && Tracks(pr, l, dirty) && n <= l.NumPieces()
    requires pr.Valid() && forall p: nat | p < l.NumPieces() :: pr.dirty[p] <= l.PieceLength(p)
    ensures l.LeftIn(pr.completed, dirty, n) == pr.PrefixLeft(0, EndOf(l, n))
  {
    if n == 0 {
      hide Layout.DirtyFits, Layout.NumDirtyBytes, Layout.PieceLength, Layout.NumPieces, Progress.PastWritten, Tracks;
    } else {
      TorrentLeft(pr, l, dirty, n - 1);
      LeftInNext(pr, l, dirty, n);
      EndNext(l, n);
      hide *;
      PieceLeft(pr, n - 1, EndOf(l, n - 1), EndOf(l, n));
    }
  }

  /** Where the first `n` pieces end. */
  function EndOf(l: Layout, n: nat): nat { Min(n * l.pieceLength, l.length) }

  lemma {:induction false} EndNext(l: Layout, n: nat)
    requires l.Valid() && 0 < n <= l.NumPieces()
    ensures EndOf(l, n - 1) == (n - 1) * l.pieceLength && EndOf(l, n) == EndOf(l, n - 1) + l.PieceLength(n - 1)
    ensures l.PieceLength(n - 1) <= l.pieceLength
  {
    l.PieceExtent(n - 1);
    MulNext(n - 1, l.pieceLength);
    hide Layout.NumPieces, Layout.PieceLength;
  }

  lemma {:induction false} LeftInNext(pr: Progress, l: Layout, dirty: set<nat>, n: nat)
    requires l.Valid() && l.DirtyFits(dirty) && Tracks(pr, l, dirty) && 0 < n <= l.NumPieces()
    requires pr.Valid() && forall p: nat | p < l.NumPieces() :: pr.dirty[p] <= l.PieceLength(p)
    ensures pr.Dirty(n - 1) <= l.PieceLength(n - 1) && pr.pieceLength == l.pieceLength
    ensures l.LeftIn(pr.completed, dirty, n) == l.LeftIn(pr.completed, dirty, n - 1)
      + if n - 1 in pr.completed then 0 else l.PieceLength(n - 1) - pr.Dirty(n - 1)
  {
    l.FitsAt(dirty, n - 1);
    assert pr.Dirty(n - 1) == l.NumDirtyBytes(dirty, n - 1) && pr.Dirty(n - 1) <= l.PieceLength(n - 1);
    hide Layout.NumDirtyBytes, Layout.PieceLength, Layout.NumPieces, Layout.DirtyFits, Progress.Dirty, Layout.DirtyInPiece;
  }

  /** A whole piece, and what comes before it. */
  lemma {:induction false} PieceLeft(pr: Progress, p: nat, a: nat, b: nat)
    requires pr.Valid() && a == p * pr.pieceLength && a + pr.Dirty(p) <= b <= a + pr.pieceLength
    ensures pr.PrefixLeft(0, b) == pr.PrefixLeft(0, a) + if p in pr.completed then 0 else b - a - pr.Dirty(p)
  {
    hide Progress.PrefixLeft, Progress.Dirty;
    pr.LeftSplit(0, a, b);
    pr.LeftInPiece(p, a, b);
  }

  /** Main result: the files of a torrent report together at least what the torrent
      reports, and the same exactly when each file's own total is the count past the
      written bytes. */
  lemma {:induction false} FilesAgreeWithTorrent(pr: Progress, l: Layout, dirty: set<nat>,
                                                 files: seq<File>, lengths: seq<nat>, lefts: seq<nat>)
    requires l.Valid() && l.DirtyFits(dirty) && Tracks(pr, l, dirty) && pr.Valid()
    requires LaidOut(files, lengths) && Sum(lengths) == l.length && |lefts| == |files|
    requires forall i | 0 <= i < |files| :: pr.IsLeft(files[i], lefts[i])
    ensures l.LeftIn(pr.completed, dirty, l.NumPieces()) <= Sum(lefts)
    ensures l.LeftIn(pr.completed, dirty, l.NumPieces()) == Sum(lefts) <==> forall f <- files :: pr.PrefixExact(f)
  {
    assert lengths[..|files|] == lengths && lefts[..|files|] == lefts;
    TracksIsValid(pr, l, dirty);
    TorrentLeft(pr, l, dirty, l.NumPieces());
    CeilDivBounds(l.length, l.pieceLength);
    assert EndOf(l, l.NumPieces()) == l.length;
    FilesAddUp(pr, files, lengths, lefts, |files|);
  }

  /** Without dirty chunks every total is. */
  lemma {:induction false} NoDirtyIsExact(pr: Progress, f: File)
    requires pr.Valid() && forall d <- pr.dirty :: d == 0
    ensures pr.PrefixExact(f)
  {
    var p := f.BeginPieceIndex(pr.pieceLength);
    assert p < |pr.dirty| ==> pr.dirty[p] in pr.dirty;
  }

  /** A last piece of two bytes, both written but not yet checked, and a file that is
      those two: it reports both as left. */
  lemma {:induction false} ShortLastPiece()
    ensures var pr, f := Progress(4, {0}, [0, 2]), File(4, 2);
      pr.Valid() && pr.Total(f) == 2 && pr.PrefixLeft(f.offset, f.End()) == 0
  {
    var pr := Progress(4, {0}, [0, 2]);
    assert pr.PrefixLeft(4, 4) == 0 && pr.PrefixLeft(4, 5) == 0;
  }
}
