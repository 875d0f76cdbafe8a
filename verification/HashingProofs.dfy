/** Why the hash scheduler keeps its invariant, and what that means over runs. */
module HashingProofs {
  import opened Arithmetic
  import opened Options
  import opened Sets
  import opened Hashing

  // ---- counting

  lemma {:induction false} BusySet(pieces: map<PieceId, Piece>, i: PieceId, pc: Piece, t: nat)
    requires i in pieces
    ensures BusyPieces(pieces[i := pc], t) == if i.t == t && pc.Busy() then BusyPieces(pieces, t) + {i} else BusyPieces(pieces, t) - {i}
    ensures i in BusyPieces(pieces, t) <==> i.t == t && pieces[i].Busy()
  {
  }

  lemma {:induction false} BusyAfter(pieces: map<PieceId, Piece>, i: PieceId, pc: Piece, t: nat)
    requires i in pieces
    ensures |BusyPieces(pieces[i := pc], t)| == |BusyPieces(pieces, t)| + if i.t != t then 0 else Bit(pc.Busy()) - Bit(pieces[i].Busy())
  {
    BusySet(pieces, i, pc, t);
    hide BusyPieces;
    var busy := BusyPieces(pieces, t);
    assert busy - {i} + {i} == if i in busy then busy else busy + {i};
  }

  lemma {:induction false} TotalActiveAfter(ts: seq<Torrent>, t: nat, tor: Torrent)
    requires t < |ts|
    ensures TotalActive(ts[t := tor]) == TotalActive(ts) - ts[t].activePieceHashes + tor.activePieceHashes
  {
    if t == 0 {
      assert ts[0 := tor][1..] == ts[1..];
    } else {
      assert ts[t := tor][1..] == ts[1..][t - 1 := tor];
      TotalActiveAfter(ts[1..], t - 1, tor);
    }
  }

  lemma {:induction false} TotalActiveAppend(ts: seq<Torrent>, tor: Torrent)
    ensures TotalActive(ts + [tor]) == TotalActive(ts) + tor.activePieceHashes
  {
    if ts == [] {
      assert [] + [tor] == [tor];
    } else {
      assert (ts + [tor])[1..] == ts[1..] + [tor];
      TotalActiveAppend(ts[1..], tor);
    }
  }

  lemma {:induction false} TotalAtLeast(ts: seq<Torrent>, t: nat)
    requires t < |ts| && forall u: nat | u < |ts| :: ts[u].activePieceHashes >= 0
    ensures TotalActive(ts) >= ts[t].activePieceHashes
  {
    if t > 0 {
      TotalAtLeast(ts[1..], t - 1);
    } else if |ts| > 1 {
      TotalAtLeast(ts[1..], 0);
    }
  }

  /** A piece with a chunk missing is not all dirty. */
  lemma {:induction false} MissingChunk(pc: Piece, c: nat)
    requires c < pc.numChunks && c !in pc.dirty && forall d <- pc.dirty :: d < pc.numChunks
    ensures !pc.AllDirty()
  {
    assert Below(pc.numChunks) == pc.dirty + {c} + (Below(pc.numChunks) - pc.dirty - {c});
  }

  // ---- one piece changes

  /** Only piece `i`, its hashers and its writers change, and the counters by `d`. */
  ghost function Change(s: State, i: PieceId, pc: Piece, hs: multiset<Hasher>, ws: map<nat, Write>, d: int): State
    requires i.t < |s.torrents|
  {
    var r := s.(pieces := s.pieces[i := pc], hashers := hs, writers := ws);
    if d == 0 then r else r.Count(i.t, d)
  }

  ghost predicate OtherHashersSame(a: multiset<Hasher>, b: multiset<Hasher>, i: PieceId)
  {
    forall h: Hasher | h.i != i :: b[h] == a[h]
  }

  ghost predicate OtherWritersSame(a: map<nat, Write>, b: map<nat, Write>, i: PieceId, n: nat)
  {
    && (forall k <- a :: a[k].i != i ==> k in b && b[k] == a[k])
    && (forall k <- b :: b[k].i != i ==> k in a && b[k] == a[k])
    && (forall k <- b :: b[k].i == i ==> b[k].chunk < n)
  }

  ghost function MarksOn(hs: multiset<Hasher>, i: PieceId): nat { hs[Marks(i, true)] + hs[Marks(i, false)] }

  /** The new piece and its surroundings are a legal successor of piece `i` of `s`. */
  ghost predicate Fits(s: State, i: PieceId, pc: Piece, hs: multiset<Hasher>, ws: map<nat, Write>, d: int)
    requires i in s.pieces && i.t < |s.torrents|
  {
    && pc.numChunks == s.pieces[i].numChunks
    && Matches(pc, hs[Hashes(i)], MarksOn(hs, i), |WritersOf(ws, i)|)
    && OtherHashersSame(s.hashers, hs, i) && OtherWritersSame(s.writers, ws, i, pc.numChunks)
    && d == Bit(pc.Busy()) - Bit(s.pieces[i].Busy())
    && (d <= 0 || (s.torrents[i.t].activePieceHashes < Limit(s.perTorrentLimit) && s.activePieceHashers < Limit(s.clientLimit)))
  }

  lemma {:induction false} CountsAfter(s: State, i: PieceId, pc: Piece, hs: multiset<Hasher>, ws: map<nat, Write>, d: int)
    requires Core(s) && i in s.pieces && i.t < |s.torrents| && Fits(s, i, pc, hs, ws, d)
    ensures var r := Change(s, i, pc, hs, ws, d);
      && (forall t: nat | t < |r.torrents| :: CountAgrees(r, t))
      && r.activePieceHashers == TotalActive(r.torrents) <= Limit(r.clientLimit)
  {
    hide PieceFine, InRange, Matches;
    var r := Change(s, i, pc, hs, ws, d);
    if d != 0 { TotalActiveAfter(s.torrents, i.t, r.torrents[i.t]); }
    forall t: nat | t < |r.torrents| ensures CountAgrees(r, t) {
      assert CountAgrees(s, t);
      BusyAfter(s.pieces, i, pc, t);
    }
  }

  lemma {:induction false} WriterAdded(ws: map<nat, Write>, conn: nat, i: PieceId, c: nat, n: nat)
    requires conn !in ws && c < n && OtherWritersSame(ws, ws, i, n)
    ensures |WritersOf(ws[conn := Write(i, c)], i)| == |WritersOf(ws, i)| + 1
    ensures OtherWritersSame(ws, ws[conn := Write(i, c)], i, n)
  {
    assert WritersOf(ws[conn := Write(i, c)], i) == WritersOf(ws, i) + {conn};
  }

  lemma {:induction false} WriterRemoved(ws: map<nat, Write>, conn: nat, n: nat)
    requires conn in ws && OtherWritersSame(ws, ws, ws[conn].i, n)
    ensures |WritersOf(ws - {conn}, ws[conn].i)| == |WritersOf(ws, ws[conn].i)| - 1
    ensures OtherWritersSame(ws, ws - {conn}, ws[conn].i, n)
  {
    assert WritersOf(ws - {conn}, ws[conn].i) == WritersOf(ws, ws[conn].i) - {conn};
  }

  lemma {:induction false} OtherWriters(a: map<nat, Write>, b: map<nat, Write>, i: PieceId, n: nat, j: PieceId)
    requires OtherWritersSame(a, b, i, n) && j != i
    ensures WritersOf(b, j) == WritersOf(a, j)
  {
  }

  lemma {:induction false} ChangeInRangeWriters(s: State, i: PieceId, pc: Piece, hs: multiset<Hasher>, ws: map<nat, Write>, d: int)
    requires InRange(s) && i in s.pieces && i.t < |s.torrents| && pc.numChunks == s.pieces[i].numChunks
    requires OtherWritersSame(s.writers, ws, i, pc.numChunks)
    ensures var r := Change(s, i, pc, hs, ws, d);
      forall k <- r.writers :: r.writers[k].i in r.pieces && r.writers[k].chunk < r.pieces[r.writers[k].i].numChunks
  {
    var r := Change(s, i, pc, hs, ws, d);
    forall k <- ws ensures ws[k].i in r.pieces && ws[k].chunk < r.pieces[ws[k].i].numChunks {
      if ws[k].i != i { assert k in s.writers && s.writers[k] == ws[k]; }
    }
  }

  lemma {:induction false} ChangeInRangeHashers(s: State, i: PieceId, hs: multiset<Hasher>, pieces: map<PieceId, Piece>)
    requires InRange(s) && i in s.pieces && OtherHashersSame(s.hashers, hs, i) && pieces.Keys == s.pieces.Keys
    ensures forall h <- hs :: h.i in pieces
  {
    forall h <- hs ensures h.i in pieces {
      if h.i != i { assert s.hashers[h] == hs[h] > 0; }
    }
  }

  lemma {:induction false} ChangeInRangePieces(s: State, i: PieceId, pc: Piece, hs: multiset<Hasher>, ws: map<nat, Write>, d: int)
    requires InRange(s) && i in s.pieces
    ensures var r := Change(s, i, pc, hs, ws, d);
      && r.pieces.Keys == s.pieces.Keys && r.hashers == hs && r.writers == ws
      && forall j <- r.pieces :: j.t < |r.torrents| && j.p < r.torrents[j.t].numPieces
  {
    assert forall j <- s.pieces[i := pc] :: j in s.pieces;
  }

  lemma {:induction false} ChangeInRange(s: State, i: PieceId, pc: Piece, hs: multiset<Hasher>, ws: map<nat, Write>, d: int)
    requires InRange(s) && i in s.pieces && pc.numChunks == s.pieces[i].numChunks
    requires OtherHashersSame(s.hashers, hs, i) && OtherWritersSame(s.writers, ws, i, pc.numChunks)
    ensures i.t < |s.torrents| && InRange(Change(s, i, pc, hs, ws, d))
  {
    assert i.t < |s.torrents|;
    var r := Change(s, i, pc, hs, ws, d);
    hide Change, OtherWritersSame, OtherHashersSame;
    ChangeInRangePieces(s, i, pc, hs, ws, d);
    ChangeInRangeHashers(s, i, hs, r.pieces);
    ChangeInRangeWriters(s, i, pc, hs, ws, d);
  }

  lemma {:induction false} OtherPieceFine(s: State, i: PieceId, pc: Piece, hs: multiset<Hasher>, ws: map<nat, Write>, d: int, j: PieceId)
    requires i in s.pieces && i.t < |s.torrents| && OtherHashersSame(s.hashers, hs, i) && OtherWritersSame(s.writers, ws, i, pc.numChunks)
    requires j in s.pieces && j != i && PieceFine(s, j)
    ensures j in Change(s, i, pc, hs, ws, d).pieces && PieceFine(Change(s, i, pc, hs, ws, d), j)
  {
    OtherWriters(s.writers, ws, i, pc.numChunks, j);
    hide Matches, WritersOf, OtherWritersSame;
  }

  lemma {:induction false} ThisPieceFine(s: State, i: PieceId, pc: Piece, hs: multiset<Hasher>, ws: map<nat, Write>, d: int)
    requires i in s.pieces && i.t < |s.torrents| && Fits(s, i, pc, hs, ws, d)
    ensures i in Change(s, i, pc, hs, ws, d).pieces && PieceFine(Change(s, i, pc, hs, ws, d), i)
    ensures pc.numChunks == s.pieces[i].numChunks && OtherHashersSame(s.hashers, hs, i) && OtherWritersSame(s.writers, ws, i, pc.numChunks)
    ensures Change(s, i, pc, hs, ws, d).pieces.Keys == s.pieces.Keys
  {
    hide Matches, WritersOf, OtherWritersSame, OtherHashersSame;
  }

  lemma {:induction false} PiecesAfter(s: State, i: PieceId, pc: Piece, hs: multiset<Hasher>, ws: map<nat, Write>, d: int)
    requires Core(s) && i in s.pieces && i.t < |s.torrents| && Fits(s, i, pc, hs, ws, d)
    ensures var r := Change(s, i, pc, hs, ws, d); InRange(r) && forall j <- r.pieces :: PieceFine(r, j)
  {
    CorePieces(s);
    hide *;
    ThisPieceFine(s, i, pc, hs, ws, d);
    forall j <- Change(s, i, pc, hs, ws, d).pieces ensures PieceFine(Change(s, i, pc, hs, ws, d), j) {
      if j != i { OtherPieceFine(s, i, pc, hs, ws, d, j); }
    }
    ChangeInRange(s, i, pc, hs, ws, d);
  }

  lemma {:induction false} CorePieces(s: State)
    requires Core(s)
    ensures InRange(s) && forall j <- s.pieces :: PieceFine(s, j)
  {
    hide InRange, PieceFine, CountAgrees;
  }

  lemma {:induction false} CoreAfter(s: State, i: PieceId, pc: Piece, hs: multiset<Hasher>, ws: map<nat, Write>, d: int)
    requires Core(s) && i in s.pieces && i.t < |s.torrents| && Fits(s, i, pc, hs, ws, d)
    ensures Core(Change(s, i, pc, hs, ws, d)) && InRange(Change(s, i, pc, hs, ws, d))
  {
    CountsAfter(s, i, pc, hs, ws, d);
    PiecesAfter(s, i, pc, hs, ws, d);
  }

  lemma {:induction false} CoreInRange(s: State)
    requires Core(s)
    ensures InRange(s)
  {
  }

  lemma {:induction false} StuckAfter(s: State, i: PieceId, pc: Piece, hs: multiset<Hasher>, ws: map<nat, Write>, d: int)
    requires InRange(s) && i in s.pieces && InRange(Change(s, i, pc, hs, ws, d)) && NoneStuck(s) && pc.NotStuck(s.torrents[i.t].closed)
    ensures NoneStuck(Change(s, i, pc, hs, ws, d))
  {
    hide Piece.NotStuck;
  }

  lemma {:induction false} WaitersAfter(s: State, i: PieceId, pc: Piece, hs: multiset<Hasher>, ws: map<nat, Write>, d: int)
    requires i in s.pieces && i.t < |s.torrents| && WaitersKept(s) && pc.Promised() >= s.pieces[i].Promised()
    ensures WaitersKept(Change(s, i, pc, hs, ws, d))
  {
    var r := Change(s, i, pc, hs, ws, d);
    forall w <- r.waiters ensures WaiterKept(r, w) { assert WaiterKept(s, w); }
  }

  lemma {:induction false} BusyEnoughAfter(s: State, i: PieceId, pc: Piece, hs: multiset<Hasher>, ws: map<nat, Write>)
    requires i in s.pieces && i.t < |s.torrents| && BusyEnough(s) && (pc.Eligible() ==> s.pieces[i].Eligible())
    ensures BusyEnough(Change(s, i, pc, hs, ws, 0))
  {
    var r := Change(s, i, pc, hs, ws, 0);
    forall t: nat | t < |r.torrents| ensures NoIdleHasher(r, t) { assert NoIdleHasher(s, t); }
  }

  /** Nothing else in the invariant looks at the hashers or writers. */
  lemma {:induction false} RestAfter(s: State, i: PieceId, pc: Piece, hs: multiset<Hasher>, ws: map<nat, Write>, d: int)
    requires InRange(s) && i in s.pieces && i.t < |s.torrents| && InRange(Change(s, i, pc, hs, ws, d))
    ensures NoneStuck(s) && pc.NotStuck(s.torrents[i.t].closed) ==> NoneStuck(Change(s, i, pc, hs, ws, d))
    ensures WaitersKept(s) && pc.Promised() >= s.pieces[i].Promised() ==> WaitersKept(Change(s, i, pc, hs, ws, d))
    ensures d == 0 && BusyEnough(s) && (pc.Eligible() ==> s.pieces[i].Eligible()) ==> BusyEnough(Change(s, i, pc, hs, ws, d))
  {
    hide *;
    if NoneStuck(s) && pc.NotStuck(s.torrents[i.t].closed) { StuckAfter(s, i, pc, hs, ws, d); }
    if WaitersKept(s) && pc.Promised() >= s.pieces[i].Promised() { WaitersAfter(s, i, pc, hs, ws, d); }
    if d == 0 && BusyEnough(s) && (pc.Eligible() ==> s.pieces[i].Eligible()) { BusyEnoughAfter(s, i, pc, hs, ws); }
  }

  /** A change that starts or ends no hasher keeps the invariant. */
  lemma {:induction false} QuietChange(s: State, i: PieceId, pc: Piece, hs: multiset<Hasher>, ws: map<nat, Write>)
    requires Inv(s) && i in s.pieces && i.t < |s.torrents| && Fits(s, i, pc, hs, ws, 0)
    requires pc.NotStuck(s.torrents[i.t].closed) && pc.Promised() >= s.pieces[i].Promised()
    requires pc.Eligible() ==> s.pieces[i].Eligible()
    ensures Inv(Change(s, i, pc, hs, ws, 0))
  {
    hide Core, InRange, NoneStuck, WaitersKept, BusyEnough, Fits, Change, Piece.NotStuck, Piece.Promised, Piece.Eligible;
    CoreInRange(s);
    CoreAfter(s, i, pc, hs, ws, 0);
    RestAfter(s, i, pc, hs, ws, 0);
  }

  // ---- starting hashers

  /** Nothing happened to a piece, or it was taken from the queue to be hashed. */
  ghost predicate MayStart(a: Piece, b: Piece)
  {
    b == a || (a.Eligible() && b == a.(hashing := true, queued := false))
  }

  /** From `s` to `r` nothing happened but that some queued pieces began to be hashed. */
  ghost predicate StartsOnly(s: State, r: State)
  {
    && |r.torrents| == |s.torrents| && r.writers == s.writers && r.waiters == s.waiters
    && r.perTorrentLimit == s.perTorrentLimit && r.clientLimit == s.clientLimit
    && r.activePieceHashers >= s.activePieceHashers
    && (forall t: nat | t < |s.torrents| ::
          && r.torrents[t].closed == s.torrents[t].closed && r.torrents[t].numPieces == s.torrents[t].numPieces
          && r.torrents[t].activePieceHashes >= s.torrents[t].activePieceHashes)
    && r.pieces.Keys == s.pieces.Keys && (forall i <- s.pieces :: MayStart(s.pieces[i], r.pieces[i]))
  }

  lemma {:induction false} InRangeWriters(s: State, i: PieceId)
    requires InRange(s) && i in s.pieces
    ensures OtherWritersSame(s.writers, s.writers, i, s.pieces[i].numChunks)
  {
  }

  lemma {:induction false} StartsCompose(a: State, b: State, c: State)
    requires StartsOnly(a, b) && StartsOnly(b, c)
    ensures StartsOnly(a, c)
  {
  }

  lemma {:induction false} StartHashIsChange(s: State, i: PieceId)
    requires i in s.pieces && i.t < |s.torrents|
    ensures StartHash(s, i) == Change(s, i, s.pieces[i].(hashing := true, queued := false), s.hashers + multiset{Hashes(i)}, s.writers, 1)
    ensures s.pieces[i].Eligible() ==> StartsOnly(s, StartHash(s, i))
  {
  }

  lemma {:induction false} StartHashFits(s: State, i: PieceId, pc: Piece, hs: multiset<Hasher>)
    requires InRange(s) && i in s.pieces && PieceFine(s, i) && s.pieces[i].Eligible()
    requires s.torrents[i.t].activePieceHashes < Limit(s.perTorrentLimit) && s.activePieceHashers < Limit(s.clientLimit)
    requires pc == s.pieces[i].(hashing := true, queued := false) && hs == s.hashers + multiset{Hashes(i)}
    ensures Fits(s, i, pc, hs, s.writers, 1)
  {
    InRangeWriters(s, i);
    hide InRange, WritersOf, OtherWritersSame;
    assert MarksOn(hs, i) == MarksOn(s.hashers, i);
  }

  lemma {:induction false} StartHashKeepsCore(s: State, i: PieceId)
    requires Core(s) && i in s.pieces && s.pieces[i].Eligible() && i.t < |s.torrents|
    requires s.torrents[i.t].activePieceHashes < Limit(s.perTorrentLimit) && s.activePieceHashers < Limit(s.clientLimit)
    ensures Core(StartHash(s, i)) && StartsOnly(s, StartHash(s, i))
  {
    hide *;
    CorePieces(s);
    StartHashIsChange(s, i);
    StartHashFits(s, i, s.pieces[i].(hashing := true, queued := false), s.hashers + multiset{Hashes(i)});
    CoreAfter(s, i, s.pieces[i].(hashing := true, queued := false), s.hashers + multiset{Hashes(i)}, s.writers, 1);
  }

  lemma {:induction false} NoneEligible(s: State, t: nat)
    requires InRange(s) && t < |s.torrents| && s.PieceToHash(t).None?
    ensures forall i <- s.pieces | i.t == t :: !s.pieces[i].Eligible()
  {
    forall i <- s.pieces | i.t == t ensures !s.pieces[i].Eligible() {
      assert i == PieceId(t, i.p) && !s.Eligible(t, i.p);
    }
  }

  lemma {:induction false} StartsStep(s: State, m: State, t: nat)
    requires StartsOnly(s, m) && t < |s.torrents|
    ensures t < |m.torrents|
  {
  }

  lemma {:induction false} StartKeepsCore(s: State, t: nat)
    requires Core(s) && t < |s.torrents|
    ensures Core(StartPieceHashers(s, t)) && StartsOnly(s, StartPieceHashers(s, t))
    ensures NoIdleHasher(StartPieceHashers(s, t), t)
    decreases s.perTorrentLimit - s.torrents[t].activePieceHashes
  {
    CoreInRange(s);
    hide Core;
    if !s.torrents[t].closed && s.ConsiderStarting(t) {
      match s.PieceToHash(t)
      case None =>
        NoneEligible(s, t);
      case Some(p) =>
        assert s.Eligible(t, p);
        var m := StartHash(s, PieceId(t, p));
        StartHashKeepsCore(s, PieceId(t, p));
        assert StartPieceHashers(s, t) == StartPieceHashers(m, t);
        hide StartHash, StartPieceHashers, StartsOnly, NoIdleHasher, InRange;
        StartsStep(s, m, t);
        StartKeepsCore(m, t);
        StartsCompose(s, m, StartPieceHashers(m, t));
    }
  }

  /** A torrent that had no reason to start a hasher has none after others did. */
  lemma {:induction false} StartsKeepBusyEnough(s: State, r: State, t: nat)
    requires StartsOnly(s, r) && t < |s.torrents| && NoIdleHasher(s, t)
    ensures NoIdleHasher(r, t)
  {
  }

  /** After a hasher has left nobody sits idle: a torrent not yet served is about
      to be visited, or all slots are taken. */
  lemma {:induction false} StartAllKeepsCore(s: State, order: seq<nat>)
    requires Core(s) && forall u <- order :: u < |s.torrents|
    requires forall u: nat | u < |s.torrents| && u !in order :: NoIdleHasher(s, u)
    ensures Core(StartAllHashers(s, order)) && StartsOnly(s, StartAllHashers(s, order))
    ensures BusyEnough(StartAllHashers(s, order))
    decreases |order|
  {
    hide Core, StartPieceHashers;
    if order != [] && s.CanStart() {
      assert order[0] in order && forall u <- order[1..] :: u in order;
      var r := StartPieceHashers(s, order[0]);
      StartKeepsCore(s, order[0]);
      forall u: nat | u < |r.torrents| && u !in order[1..] ensures NoIdleHasher(r, u) {
        if u != order[0] {
          assert u !in order;
          StartsKeepBusyEnough(s, r, u);
        }
      }
      assert StartAllHashers(s, order) == StartAllHashers(r, order[1..]);
      hide NoIdleHasher, StartsOnly;
      StartAllKeepsCore(r, order[1..]);
      StartsCompose(s, r, StartAllHashers(s, order));
    }
  }

  /** What starting hashers keeps: nothing gets stuck, no waiter is forgotten. */
  lemma {:induction false} StartsKeepPromises(s: State, r: State)
    requires StartsOnly(s, r) && InRange(s) && InRange(r)
    ensures NoneStuck(s) ==> NoneStuck(r)
    ensures WaitersKept(s) ==> WaitersKept(r)
    ensures forall i <- s.pieces :: r.pieces[i].Promised() == s.pieces[i].Promised()
  {
    if WaitersKept(s) {
      forall w <- r.waiters ensures WaiterKept(r, w) { assert WaiterKept(s, w); }
    }
  }

  // ---- every event keeps the invariant

  lemma {:induction false} BeginWriteFits(s: State, conn: nat, i: PieceId, c: nat, pc: Piece)
    requires InRange(s) && i in s.pieces && PieceFine(s, i)
    requires conn !in s.writers && c < s.pieces[i].numChunks
    requires pc == s.pieces[i].(pendingWrites := s.pieces[i].pendingWrites + 1, dirty := s.pieces[i].dirty + {c})
    ensures Fits(s, i, pc, s.hashers, s.writers[conn := Write(i, c)], 0)
  {
    InRangeWriters(s, i);
    WriterAdded(s.writers, conn, i, c, pc.numChunks);
    hide InRange, WritersOf, OtherWritersSame;
  }

  lemma {:induction false} BeginWriteKeeps(s: State, conn: nat, i: PieceId, c: nat)
    requires Inv(s) && Enabled(s, Receive(conn, i, c))
    ensures Inv(BeginWrite(s, conn, i, c))
  {
    assert PieceFine(s, i) && InRange(s);
    var pc := s.pieces[i].(pendingWrites := s.pieces[i].pendingWrites + 1, dirty := s.pieces[i].dirty + {c});
    BeginWriteFits(s, conn, i, c, pc);
    hide Inv, Fits, InRange, PieceFine;
    QuietChange(s, i, pc, s.hashers, s.writers[conn := Write(i, c)]);
  }

  lemma {:induction false} QueuedBusyEnough(s: State, i: PieceId)
    requires i in s.pieces && BusyEnough(s)
    ensures |Enqueue(s, i).torrents| == |s.torrents|
    ensures forall t: nat | t < |s.torrents| && t != i.t :: NoIdleHasher(Enqueue(s, i), t)
  {
    forall t: nat | t < |s.torrents| && t != i.t ensures NoIdleHasher(Enqueue(s, i), t) { assert NoIdleHasher(s, t); }
  }

  lemma {:induction false} StartsKeepBusyEnoughAll(s: State, r: State, t: nat)
    requires StartsOnly(s, r) && t < |s.torrents| && NoIdleHasher(r, t)
    requires forall u: nat | u < |s.torrents| && u != t :: NoIdleHasher(s, u)
    ensures BusyEnough(r)
  {
    forall u: nat | u < |r.torrents| ensures NoIdleHasher(r, u) {
      if u != t { StartsKeepBusyEnough(s, r, u); }
    }
  }

  lemma {:induction false} EnqueuedCore(s: State, i: PieceId)
    requires Core(s) && i in s.pieces
    ensures Core(Enqueue(s, i)) && InRange(Enqueue(s, i)) && i.t < |s.torrents|
    ensures WaitersKept(s) ==> WaitersKept(Enqueue(s, i))
  {
    var pc := s.pieces[i].(queued := true);
    assert PieceFine(s, i) && InRange(s);
    InRangeWriters(s, i);
    assert Enqueue(s, i) == Change(s, i, pc, s.hashers, s.writers, 0);
    hide Core, WaitersKept, InRange;
    CoreAfter(s, i, pc, s.hashers, s.writers, 0);
    RestAfter(s, i, pc, s.hashers, s.writers, 0);
  }

  lemma {:induction false} CheckIs(s: State, i: PieceId)
    requires i in s.pieces && i.t < |s.torrents|
    ensures QueuePieceCheck(s, i) == if s.pieces[i].queued then Enqueue(s, i) else StartPieceHashers(Enqueue(s, i), i.t)
    ensures |Enqueue(s, i).torrents| == |s.torrents|
  {
    hide StartPieceHashers;
    if s.pieces[i].queued { assert Enqueue(s, i) == s; }
  }

  lemma {:induction false} EnqueuedAgain(s: State, i: PieceId)
    requires i in s.pieces && s.pieces[i].queued
    ensures Enqueue(s, i) == s
  {
  }

  lemma {:induction false} AllInOrder(s: State)
    ensures Inv(s) <==> Sound(s) && BusyEnough(s)
    ensures Sound(s) <==> Core(s) && WaitersKept(s) && InRange(s) && NoneStuck(s)
  {
    hide InRange, NoneStuck, WaitersKept, BusyEnough, PieceFine, CountAgrees;
  }

  lemma {:induction false} QueueKeeps(s: State, i: PieceId)
    requires Core(s) && i in s.pieces && WaitersKept(s) && BusyEnough(s)
    requires InRange(Enqueue(s, i)) && NoneStuck(Enqueue(s, i))
    ensures i.t < |s.torrents| && Inv(QueuePieceCheck(s, i)) && StartsOnly(Enqueue(s, i), QueuePieceCheck(s, i))
  {
    hide *;
    EnqueuedCore(s, i);
    CheckIs(s, i);
    var m := Enqueue(s, i);
    AllInOrder(m);
    AllInOrder(QueuePieceCheck(s, i));
    if s.pieces[i].queued {
      EnqueuedAgain(s, i);
      SelfStarts(m);
    } else {
      QueuedBusyEnough(s, i);
      StartKeepsCore(m, i.t);
      StartsKeepBusyEnoughAll(m, QueuePieceCheck(s, i), i.t);
      StartsKeepSound(m, QueuePieceCheck(s, i));
    }
  }

  lemma {:induction false} EndWriteFits(s: State, conn: nat, ok: bool, i: PieceId, pc: Piece)
    requires InRange(s) && conn in s.writers && s.writers[conn].i == i && PieceFine(s, i)
    requires s.pieces[i].pendingWrites > 0 && pc == Wrote(s.pieces[i], s.writers[conn].chunk, ok)
    ensures Fits(s, i, pc, s.hashers, s.writers - {conn}, 0)
    ensures !ok ==> !pc.AllDirty()
  {
    InRangeWriters(s, i);
    WriterRemoved(s.writers, conn, pc.numChunks);
    hide InRange, WritersOf, OtherWritersSame;
    if !ok { MissingChunk(pc, s.writers[conn].chunk); }
  }

  lemma {:induction false} SelfStarts(s: State)
    ensures StartsOnly(s, s)
  {
  }

  /** Queueing the piece that changed takes care of it. */
  lemma {:induction false} EnqueuedNotStuck(s: State, m: State, i: PieceId)
    requires InRange(s) && NoneStuck(s) && InRange(m) && i in s.pieces && i in m.pieces
    requires m.torrents == s.torrents && m.pieces == s.pieces[i := m.pieces[i]]
    ensures InRange(Enqueue(m, i)) && NoneStuck(Enqueue(m, i))
  {
    EnqueueInRange(m, i);
  }

  lemma {:induction false} EnqueueInRange(m: State, i: PieceId)
    requires InRange(m) && i in m.pieces
    ensures InRange(Enqueue(m, i))
  {
  }

  lemma {:induction false} EndWriteKeeps(s: State, conn: nat, ok: bool)
    requires Inv(s) && conn in s.writers && s.writers[conn].i in s.pieces && s.writers[conn].i.t < |s.torrents|
    requires s.pieces[s.writers[conn].i].pendingWrites > 0
    ensures Inv(EndWrite(s, conn, ok))
    ensures var i := s.writers[conn].i;
      var m := Change(s, i, Wrote(s.pieces[i], s.writers[conn].chunk, ok), s.hashers, s.writers - {conn}, 0);
      StartsOnly(m, EndWrite(s, conn, ok)) || StartsOnly(Enqueue(m, i), EndWrite(s, conn, ok))
  {
    var i := s.writers[conn].i;
    assert InRange(s) && PieceFine(s, i);
    var pc := Wrote(s.pieces[i], s.writers[conn].chunk, ok);
    var ws := s.writers - {conn};
    EndWriteFits(s, conn, ok, i, pc);
    hide Core, QueuePieceCheck, Fits, BusyEnough, WaitersKept, PieceFine, InRange;
    CoreAfter(s, i, pc, s.hashers, ws, 0);
    RestAfter(s, i, pc, s.hashers, ws, 0);
    var m := Change(s, i, pc, s.hashers, ws, 0);
    if ok && pc.AllDirty() && pc.pendingWrites == 0 {
      EnqueuedNotStuck(s, m, i);
      hide NoneStuck;
      QueueKeeps(m, i);
    } else {
      SelfStarts(m);
    }
  }

  lemma {:induction false} WithWaiterCore(s: State, w: Waiter)
    requires Core(s) && InRange(s)
    ensures Core(s.(waiters := s.waiters + {w})) && InRange(s.(waiters := s.waiters + {w}))
  {
    var n := s.(waiters := s.waiters + {w});
    forall j <- n.pieces ensures PieceFine(n, j) { assert PieceFine(s, j); }
    forall t: nat | t < |n.torrents| ensures CountAgrees(n, t) { assert CountAgrees(s, t); }
  }

  lemma {:induction false} WithWaiterRest(s: State, w: Waiter)
    requires WaiterKept(s, w) && WaitersKept(s) && BusyEnough(s) && InRange(s) && NoneStuck(s) && InRange(s.(waiters := s.waiters + {w}))
    ensures var n := s.(waiters := s.waiters + {w}); WaitersKept(n) && BusyEnough(n) && NoneStuck(n)
  {
    var n := s.(waiters := s.waiters + {w});
    forall t: nat | t < |n.torrents| ensures NoIdleHasher(n, t) { assert NoIdleHasher(s, t); }
    forall x <- n.waiters ensures WaiterKept(n, x) { if x != w { assert WaiterKept(s, x); } }
  }

  lemma {:induction false} WithWaiter(s: State, w: Waiter)
    requires Inv(s) && WaiterKept(s, w)
    ensures Inv(s.(waiters := s.waiters + {w}))
  {
    hide *;
    AllInOrder(s);
    WithWaiterCore(s, w);
    WithWaiterRest(s, w);
    AllInOrder(s.(waiters := s.waiters + {w}));
  }

  lemma {:induction false} VerifyKeeps(s: State, i: PieceId)
    requires Inv(s) && Enabled(s, Verify(i))
    ensures Inv(VerifyData(s, i))
    ensures VerifyData(s, i).pieces[i].Promised() == s.pieces[i].NextNovelHashCount()
  {
    CoreInRange(s);
    EnqueuedNotStuck(s, s, i);
    var r := QueuePieceCheck(s, i);
    hide Core, NoneStuck, InRange;
    QueueKeeps(s, i);
    CoreInRange(r);
    StartsKeepPromises(Enqueue(s, i), r);
    hide QueuePieceCheck, StartsOnly;
    WithWaiter(r, Waiter(i, s.pieces[i].NextNovelHashCount()));
  }

  /** Everything but the idle hashers is in order. */
  ghost predicate Sound(s: State) { Core(s) && NoneStuck(s) && WaitersKept(s) }

  lemma {:induction false} StartsKeepSound(s: State, r: State)
    requires Sound(s) && StartsOnly(s, r) && Core(r)
    ensures Sound(r)
  {
    CoreInRange(s);
    CoreInRange(r);
    hide Core, InRange;
    StartsKeepPromises(s, r);
  }

  /** The hasher goes on with piece `q`: no torrent is worse off than before, as
      only piece `p` can have become free. */
  lemma {:induction false} SwapBusyEnough(s: State, t: nat, p: nat, q: nat)
    requires t < |s.torrents| && PieceId(t, q) in s.pieces
    requires forall u: nat | u < |s.torrents| && u != t :: NoIdleHasher(s, u)
    requires s.torrents[t].closed || (forall i <- s.pieces | i.t == t && i.p != p :: !s.pieces[i].Eligible())
             || s.torrents[t].activePieceHashes >= s.perTorrentLimit || !s.CanStart()
    requires s.pieces[PieceId(t, q)].Eligible()
    ensures BusyEnough(StartHash(s.Count(t, -1), PieceId(t, q)))
  {
    var r := StartHash(s.Count(t, -1), PieceId(t, q));
    forall u: nat | u < |r.torrents| ensures NoIdleHasher(r, u) {
      assert u != t ==> NoIdleHasher(s, u);
    }
  }

  /** The hasher leaves: every open torrent gets its turn. */
  lemma {:induction false} LeaveBusyEnough(m: State, t: nat, order: seq<nat>)
    requires Core(m) && t < |m.torrents| && m.PieceToHash(t).None? && Visits(m, order)
    ensures Core(StartAllHashers(m, order)) && StartsOnly(m, StartAllHashers(m, order)) && BusyEnough(StartAllHashers(m, order))
  {
    CoreInRange(m);
    NoneEligible(m, t);
    forall u: nat | u < |m.torrents| && u !in order ensures NoIdleHasher(m, u) { assert m.torrents[u].closed; }
    hide Core, NoIdleHasher, StartsOnly, BusyEnough, InRange, StartAllHashers;
    StartAllKeepsCore(m, order);
  }

  /** `s` is the state before the counters go down; only piece `p` may have become
      free since every torrent had no reason to start a hasher. */
  lemma {:induction false} FinishKeeps(s: State, t: nat, p: nat, order: seq<nat>)
    requires t < |s.torrents| && Visits(s, order) && Sound(s.Count(t, -1))
    requires s.torrents[t].activePieceHashes <= Limit(s.perTorrentLimit) && s.activePieceHashers <= Limit(s.clientLimit)
    requires forall u: nat | u < |s.torrents| && u != t :: NoIdleHasher(s, u)
    requires s.torrents[t].closed || (forall i <- s.pieces | i.t == t && i.p != p :: !s.pieces[i].Eligible())
             || s.torrents[t].activePieceHashes >= s.perTorrentLimit || !s.CanStart()
    ensures Inv(FinishHash(s, t, order)) && StartsOnly(s.Count(t, -1), FinishHash(s, t, order))
  {
    var m := s.Count(t, -1);
    var r := FinishHash(s, t, order);
    assert Core(m) && Visits(m, order);
    hide Core, StartsOnly, NoIdleHasher, BusyEnough, StartHash, StartAllHashers;
    match m.PieceToHash(t)
    case Some(q) =>
      assert m.Eligible(t, q);
      StartHashKeepsCore(m, PieceId(t, q));
      SwapBusyEnough(s, t, p, q);
      StartsKeepSound(m, r);
    case None =>
      LeaveBusyEnough(m, t, order);
      StartsKeepSound(m, r);
  }

  lemma {:induction false} ReleasedBusyEnough(s: State, i: PieceId, pc: Piece, hs: multiset<Hasher>)
    requires InRange(s) && i in s.pieces && BusyEnough(s)
    ensures var f := Change(s, i, pc, hs, s.writers, 0);
      && (forall u: nat | u < |f.torrents| && u != i.t :: NoIdleHasher(f, u))
      && (f.torrents[i.t].closed || (forall j <- f.pieces | j.t == i.t && j.p != i.p :: !f.pieces[j].Eligible())
          || f.torrents[i.t].activePieceHashes >= f.perTorrentLimit || !f.CanStart())
  {
    assert NoIdleHasher(s, i.t);
    var f := Change(s, i, pc, hs, s.writers, 0);
    forall u: nat | u < |f.torrents| && u != i.t ensures NoIdleHasher(f, u) { assert NoIdleHasher(s, u); }
  }

  /** The state once piece `i` is free and the counters have gone down. */
  ghost function Settled(s: State, i: PieceId, pc: Piece, hs: multiset<Hasher>): State
    requires i.t < |s.torrents|
  {
    Change(s, i, pc, hs, s.writers, 0).Count(i.t, -1)
  }

  /** The hasher of busy piece `i` is done with it. */
  lemma {:induction false} Release(s: State, i: PieceId, pc: Piece, hs: multiset<Hasher>, order: seq<nat>)
    requires Inv(s) && i in s.pieces && i.t < |s.torrents| && Visits(s, order) && (forall u <- order :: u < |s.torrents|)
    requires s.pieces[i].Busy() && !pc.Busy() && Fits(s, i, pc, hs, s.writers, -1)
    requires pc.NotStuck(s.torrents[i.t].closed) && pc.Promised() == s.pieces[i].Promised()
    ensures |Change(s, i, pc, hs, s.writers, 0).torrents| == |s.torrents|
    ensures Inv(FinishHash(Change(s, i, pc, hs, s.writers, 0), i.t, order))
    ensures StartsOnly(Settled(s, i, pc, hs), FinishHash(Change(s, i, pc, hs, s.writers, 0), i.t, order))
  {
    hide *;
    ReleaseOpened(s, i, pc, hs, order);
    AllInOrder(s);
    ReleasedBusyEnough(s, i, pc, hs);
    CoreAfter(s, i, pc, hs, s.writers, -1);
    RestAfter(s, i, pc, hs, s.writers, -1);
    AllInOrder(Settled(s, i, pc, hs));
    FinishKeeps(Change(s, i, pc, hs, s.writers, 0), i.t, i.p, order);
  }

  lemma {:induction false} ReleaseOpened(s: State, i: PieceId, pc: Piece, hs: multiset<Hasher>, order: seq<nat>)
    requires Inv(s) && i in s.pieces && i.t < |s.torrents| && Visits(s, order)
    ensures var f := Change(s, i, pc, hs, s.writers, 0);
      && |f.torrents| == |s.torrents| && Settled(s, i, pc, hs) == f.Count(i.t, -1) == Change(s, i, pc, hs, s.writers, -1)
      && Visits(f, order) && f.torrents[i.t].activePieceHashes <= Limit(f.perTorrentLimit) && f.activePieceHashers <= Limit(f.clientLimit)
  {
    assert CountAgrees(s, i.t);
    hide InRange, PieceFine, NoneStuck, WaitersKept, BusyEnough;
  }

  lemma {:induction false} VerifiedFits(s: State, i: PieceId, correct: bool)
    requires InRange(s) && i in s.pieces && i.t < |s.torrents| && PieceFine(s, i) && Hashes(i) in s.hashers
    ensures var pc, rest := Verified(s.pieces[i]), s.hashers - multiset{Hashes(i)};
      && Fits(s, i, pc, rest, s.writers, -1) && !pc.Busy() && s.pieces[i].Busy()
      && Fits(s, i, pc.(marking := true), rest + multiset{Marks(i, correct)}, s.writers, 0)
  {
    InRangeWriters(s, i);
    hide InRange, WritersOf, OtherWritersSame;
    assert MarksOn(s.hashers - multiset{Hashes(i)} + multiset{Marks(i, correct)}, i) == 1;
  }

  lemma {:induction false} VerifiedCounts(pc: Piece, closed: bool)
    requires pc.hashing && !pc.marking && pc.NotStuck(closed)
    ensures Verified(pc).Promised() == pc.Promised() == Verified(pc).(marking := true).Promised()
    ensures Verified(pc).(marking := true).NotStuck(closed) && !Verified(pc).(marking := true).Eligible()
    ensures closed ==> Verified(pc).NotStuck(closed)
  {
  }

  lemma {:induction false} HashDoneIs(s: State, i: PieceId, correct: bool, order: seq<nat>)
    requires i in s.pieces && i.t < |s.torrents| && forall u <- order :: u < |s.torrents|
    ensures var pc, rest := Verified(s.pieces[i]), s.hashers - multiset{Hashes(i)};
      && |Change(s, i, pc, rest, s.writers, 0).torrents| == |s.torrents|
      && HashDone(s, i, correct, order) ==
        if s.torrents[i.t].closed then FinishHash(Change(s, i, pc, rest, s.writers, 0), i.t, order)
        else Change(s, i, pc.(marking := true), rest + multiset{Marks(i, correct)}, s.writers, 0)
  {
    hide FinishHash;
  }

  lemma {:induction false} HasherOpened(s: State, h: Hasher, order: seq<nat>)
    requires Inv(s) && h in s.hashers && Visits(s, order)
    ensures InRange(s) && h.i in s.pieces && h.i.t < |s.torrents| && PieceFine(s, h.i) && s.pieces[h.i].NotStuck(s.torrents[h.i.t].closed)
    ensures forall u <- order :: u < |s.torrents|
    ensures if h.Hashes? then s.pieces[h.i].hashing && !s.pieces[h.i].marking else s.pieces[h.i].marking && !s.pieces[h.i].hashing
  {
    assert InRange(s) && PieceFine(s, h.i);
    hide Piece.NotStuck, CountAgrees, WaitersKept, BusyEnough;
  }

  lemma {:induction false} EnabledHasher(s: State, i: PieceId, b: bool, order: seq<nat>)
    ensures Enabled(s, Hashed(i, b, order)) <==> Hashes(i) in s.hashers && Visits(s, order)
    ensures Enabled(s, Marked(i, b, order)) <==> Marks(i, b) in s.hashers && Visits(s, order)
  {
    hide Visits;
  }

  lemma {:induction false} HashDoneKeeps(s: State, i: PieceId, correct: bool, order: seq<nat>)
    requires Inv(s) && Enabled(s, Hashed(i, correct, order)) && i in s.pieces
    ensures i.t < |s.torrents| && (forall u <- order :: u < |s.torrents|) && Inv(HashDone(s, i, correct, order))
    ensures s.torrents[i.t].closed ==>
      StartsOnly(Settled(s, i, Verified(s.pieces[i]), s.hashers - multiset{Hashes(i)}), HashDone(s, i, correct, order))
  {
    hide *;
    EnabledHasher(s, i, correct, order);
    HasherOpened(s, Hashes(i), order);
    VerifiedFits(s, i, correct);
    VerifiedCounts(s.pieces[i], s.torrents[i.t].closed);
    HashDoneIs(s, i, correct, order);
    if s.torrents[i.t].closed {
      Release(s, i, Verified(s.pieces[i]), s.hashers - multiset{Hashes(i)}, order);
    } else {
      QuietChange(s, i, Verified(s.pieces[i]).(marking := true), s.hashers - multiset{Hashes(i)} + multiset{Marks(i, correct)}, s.writers);
    }
  }

  lemma {:induction false} UnmarkedFits(s: State, i: PieceId, passed: bool)
    requires InRange(s) && i in s.pieces && i.t < |s.torrents| && PieceFine(s, i) && Marks(i, passed) in s.hashers
    ensures var pc := Unmarked(s.pieces[i], passed, s.torrents[i.t].closed);
      Fits(s, i, pc, s.hashers - multiset{Marks(i, passed)}, s.writers, -1) && !pc.Busy() && s.pieces[i].Busy()
  {
    InRangeWriters(s, i);
    hide InRange, WritersOf, OtherWritersSame;
    assert MarksOn(s.hashers - multiset{Marks(i, passed)}, i) == 0;
  }

  lemma {:induction false} UnmarkedCounts(pc: Piece, passed: bool, closed: bool)
    requires pc.numChunks >= 1
    ensures Unmarked(pc, passed, closed).Promised() == pc.Promised() && Unmarked(pc, passed, closed).NotStuck(closed)
  {
  }

  lemma {:induction false} MarkDoneIs(s: State, i: PieceId, passed: bool, order: seq<nat>)
    requires i in s.pieces && i.t < |s.torrents| && forall u <- order :: u < |s.torrents|
    ensures var m := Change(s, i, Unmarked(s.pieces[i], passed, s.torrents[i.t].closed), s.hashers - multiset{Marks(i, passed)}, s.writers, 0);
      |m.torrents| == |s.torrents| && MarkDone(s, i, passed, order) == FinishHash(m, i.t, order)
  {
    hide FinishHash, Unmarked;
  }

  lemma {:induction false} HasChunks(s: State, i: PieceId)
    requires i in s.pieces && PieceFine(s, i)
    ensures s.pieces[i].numChunks >= 1
  {
  }

  lemma {:induction false} MarkDoneKeeps(s: State, i: PieceId, passed: bool, order: seq<nat>)
    requires Inv(s) && Enabled(s, Marked(i, passed, order)) && i in s.pieces
    ensures i.t < |s.torrents| && (forall u <- order :: u < |s.torrents|) && Inv(MarkDone(s, i, passed, order))
    ensures StartsOnly(
      Settled(s, i, Unmarked(s.pieces[i], passed, s.torrents[i.t].closed), s.hashers - multiset{Marks(i, passed)}),
      MarkDone(s, i, passed, order))
  {
    hide *;
    EnabledHasher(s, i, passed, order);
    HasherOpened(s, Marks(i, passed), order);
    HasChunks(s, i);
    UnmarkedFits(s, i, passed);
    UnmarkedCounts(s.pieces[i], passed, s.torrents[i.t].closed);
    MarkDoneIs(s, i, passed, order);
    Release(s, i, Unmarked(s.pieces[i], passed, s.torrents[i.t].closed), s.hashers - multiset{Marks(i, passed)}, order);
  }

  lemma {:induction false} CompletionKeeps(s: State, i: PieceId, completion: Option<bool>)
    requires Inv(s) && i in s.pieces && i.t < |s.torrents|
    ensures Inv(s.(pieces := s.pieces[i := SetCompletion(s.pieces[i], completion)]))
  {
    assert InRange(s) && PieceFine(s, i);
    InRangeWriters(s, i);
    var pc := SetCompletion(s.pieces[i], completion);
    hide Inv, WritersOf, OtherWritersSame, InRange;
    assert Fits(s, i, pc, s.hashers, s.writers, 0);
    hide Fits;
    QuietChange(s, i, pc, s.hashers, s.writers);
  }

  lemma {:induction false} RefreshKeeps(s: State, i: PieceId, completion: Option<bool>)
    requires Inv(s) && i in s.pieces && i.t < |s.torrents|
    ensures Inv(UpdateCompletion(s, i, completion))
  {
    CompletionKeeps(s, i, completion);
    hide Inv;
  }

  function Closed(s: State, t: nat): State
    requires t < |s.torrents|
  {
    s.(torrents := s.torrents[t := s.torrents[t].(closed := true)])
  }

  lemma {:induction false} ClosedCore(s: State, t: nat)
    requires Core(s) && InRange(s) && t < |s.torrents|
    ensures Core(Closed(s, t)) && InRange(Closed(s, t))
  {
    var r := Closed(s, t);
    TotalActiveAfter(s.torrents, t, r.torrents[t]);
    forall i <- r.pieces ensures PieceFine(r, i) { assert PieceFine(s, i); }
    forall u: nat | u < |r.torrents| ensures CountAgrees(r, u) { assert CountAgrees(s, u); }
    hide PieceFine, CountAgrees;
  }

  lemma {:induction false} ClosedRest(s: State, t: nat)
    requires t < |s.torrents| && WaitersKept(s) && BusyEnough(s) && InRange(s) && NoneStuck(s) && InRange(Closed(s, t))
    ensures WaitersKept(Closed(s, t)) && BusyEnough(Closed(s, t)) && NoneStuck(Closed(s, t))
  {
    var r := Closed(s, t);
    forall u: nat | u < |r.torrents| ensures NoIdleHasher(r, u) { assert NoIdleHasher(s, u); }
    forall w <- r.waiters ensures WaiterKept(r, w) { assert WaiterKept(s, w); }
  }

  lemma {:induction false} CloseKeeps(s: State, t: nat)
    requires Inv(s) && t < |s.torrents|
    ensures Inv(Next(s, Close(t)))
  {
    assert Next(s, Close(t)) == Closed(s, t);
    hide *;
    AllInOrder(s);
    ClosedCore(s, t);
    ClosedRest(s, t);
    AllInOrder(Closed(s, t));
  }

  lemma {:induction false} NewPiecesFine(s: State, chunks: seq<nat>)
    requires Core(s) && forall n <- chunks :: n >= 1
    ensures var r := WithTorrent(s, chunks);
      forall i <- r.pieces :: PieceFine(r, i)
  {
    var r := WithTorrent(s, chunks);
    forall i <- r.pieces ensures PieceFine(r, i) {
      if i in s.pieces {
        assert PieceFine(s, i);
      } else {
        assert Hashes(i) !in s.hashers && Marks(i, true) !in s.hashers && Marks(i, false) !in s.hashers;
        assert WritersOf(s.writers, i) == {};
        assert r.pieces[i].numChunks == chunks[i.p] && chunks[i.p] in chunks;
      }
    }
  }

  lemma {:induction false} NewTorrentCounts(s: State, chunks: seq<nat>, t: nat)
    requires Inv(s) && t <= |s.torrents|
    ensures var r := WithTorrent(s, chunks);
      CountAgrees(r, t) && NoIdleHasher(r, t)
  {
    hide PieceFine;
    var r := WithTorrent(s, chunks);
    assert BusyPieces(r.pieces, t) == BusyPieces(s.pieces, t);
    if t < |s.torrents| {
      assert CountAgrees(s, t) && NoIdleHasher(s, t);
    } else {
      assert BusyPieces(s.pieces, t) == {};
    }
  }

  lemma {:induction false} NewTorrentRest(s: State, chunks: seq<nat>)
    requires InRange(s) && NoneStuck(s) && WaitersKept(s) && forall n <- chunks :: n >= 1
    ensures InRange(WithTorrent(s, chunks)) && NoneStuck(WithTorrent(s, chunks)) && WaitersKept(WithTorrent(s, chunks))
  {
    var r := WithTorrent(s, chunks);
    forall i <- r.pieces ensures i.t < |r.torrents| && i.p < r.torrents[i.t].numPieces && r.pieces[i].NotStuck(r.torrents[i.t].closed) {
      if i !in s.pieces { assert r.pieces[i].numChunks == chunks[i.p] && chunks[i.p] in chunks; }
    }
    forall i <- s.pieces ensures r.pieces[i] == s.pieces[i] { NewPiecesElsewhere(s, chunks, i); }
    forall w <- r.waiters ensures WaiterKept(r, w) { assert WaiterKept(s, w); }
  }

  lemma {:induction false} WithTorrentKeeps(s: State, chunks: seq<nat>)
    requires Inv(s) && forall n <- chunks :: n >= 1
    ensures Inv(WithTorrent(s, chunks))
  {
    var r := WithTorrent(s, chunks);
    TotalActiveAppend(s.torrents, r.torrents[|s.torrents|]);
    NewPiecesFine(s, chunks);
    forall t: nat | t < |r.torrents| ensures CountAgrees(r, t) && NoIdleHasher(r, t) { NewTorrentCounts(s, chunks, t); }
    NewTorrentRest(s, chunks);
    hide PieceFine, CountAgrees, NoIdleHasher, InRange, NoneStuck, WaitersKept;
  }

  /** Starting hashers of one torrent leaves the pieces of others alone. */
  lemma {:induction false} StartsElsewhere(s: State, t: nat, i: PieceId)
    requires t < |s.torrents| && i in s.pieces && i.t != t
    ensures StartPieceHashers(s, t).pieces[i] == s.pieces[i]
    decreases s.perTorrentLimit - s.torrents[t].activePieceHashes
  {
    if !s.torrents[t].closed && s.ConsiderStarting(t) && s.PieceToHash(t).Some? {
      StartsElsewhere(StartHash(s, PieceId(t, s.PieceToHash(t).value)), t, i);
    }
  }

  /** No piece lost a hash it was promised. */
  ghost predicate PromisesKept(s: State, r: State)
  {
    forall j <- s.pieces :: j in r.pieces && r.pieces[j].Promised() >= s.pieces[j].Promised()
  }

  lemma {:induction false} CheckKeeps(s: State, i: PieceId)
    requires Inv(s) && i in s.pieces && i.t < |s.torrents|
    ensures Inv(QueuePieceCheck(s, i)) && StartsOnly(Enqueue(s, i), QueuePieceCheck(s, i))
  {
    CoreInRange(s);
    EnqueuedNotStuck(s, s, i);
    assert Core(s) && WaitersKept(s) && BusyEnough(s);
    hide *;
    QueueKeeps(s, i);
  }

  lemma {:induction false} StartsKeepCounts(s: State, r: State)
    requires StartsOnly(s, r)
    ensures forall j <- s.pieces :: j in r.pieces && r.pieces[j].Promised() == s.pieces[j].Promised()
  {
  }

  lemma {:induction false} EnqueuePromises(s: State, i: PieceId)
    requires i in s.pieces
    ensures PromisesKept(s, Enqueue(s, i)) && i in Enqueue(s, i).pieces && Enqueue(s, i).pieces[i].Promised() >= 1
  {
  }

  lemma {:induction false} CheckElsewhere(s: State, i: PieceId)
    requires i in s.pieces && i.t < |s.torrents|
    ensures forall j <- s.pieces | j.t != i.t :: QueuePieceCheck(s, i).pieces[j] == s.pieces[j]
  {
    hide StartPieceHashers;
    forall j <- s.pieces | j.t != i.t ensures QueuePieceCheck(s, i).pieces[j] == s.pieces[j] { StartsElsewhere(Enqueue(s, i), i.t, j); }
  }

  lemma {:induction false} CheckPromises(s: State, i: PieceId)
    requires Inv(s) && i in s.pieces && i.t < |s.torrents|
    ensures PromisesKept(s, QueuePieceCheck(s, i)) && QueuePieceCheck(s, i).pieces[i].Promised() >= 1
  {
    CheckKeeps(s, i);
    EnqueuePromises(s, i);
    StartsKeepCounts(Enqueue(s, i), QueuePieceCheck(s, i));
    hide Inv, StartsOnly, QueuePieceCheck, Enqueue, Piece.Promised;
  }

  lemma {:induction false} InitialPieceKeeps(s: State, i: PieceId, stored: Option<bool>, check: bool)
    requires Inv(s) && i in s.pieces && i.t < |s.torrents|
    ensures Inv(InitialPiece(s, i, stored, check))
    ensures forall j <- s.pieces | j.t != i.t :: InitialPiece(s, i, stored, check).pieces[j] == s.pieces[j]
    ensures PromisesKept(s, InitialPiece(s, i, stored, check))
    ensures check && stored.None? ==> InitialPiece(s, i, stored, check).pieces[i].Promised() >= 1
  {
    hide Inv, QueuePieceCheck;
    var m := s.(pieces := s.pieces[i := SetCompletion(s.pieces[i], stored)]);
    CompletionKeeps(s, i, stored);
    CheckKeeps(m, i);
    CheckPromises(m, i);
    CheckElsewhere(m, i);
    hide StartsOnly;
  }

  lemma {:induction false} InitialPiecesKeep(s: State, t: nat, stored: seq<Option<bool>>, check: bool, from: nat)
    requires Inv(s) && t < |s.torrents| && from <= |stored| && forall p: nat | p < |stored| :: PieceId(t, p) in s.pieces
    ensures Inv(InitialPieces(s, t, stored, check, from))
    ensures forall j <- s.pieces | j.t != t :: InitialPieces(s, t, stored, check, from).pieces[j] == s.pieces[j]
    ensures PromisesKept(s, InitialPieces(s, t, stored, check, from))
    ensures check ==> forall p: nat | from <= p < |stored| && stored[p].None? :: InitialPieces(s, t, stored, check, from).pieces[PieceId(t, p)].Promised() >= 1
    decreases |stored| - from
  {
    hide Inv, InitialPiece, Piece.Promised;
    if from < |stored| {
      InitialPieceKeeps(s, PieceId(t, from), stored[from], check);
      InitialPiecesKeep(InitialPiece(s, PieceId(t, from), stored[from], check), t, stored, check, from + 1);
    }
  }

  lemma {:induction false} StartKeeps(s: State, t: nat)
    requires Inv(s) && t < |s.torrents|
    ensures Inv(StartPieceHashers(s, t)) && PromisesKept(s, StartPieceHashers(s, t)) && StartsOnly(s, StartPieceHashers(s, t))
  {
    CoreInRange(s);
    hide InRange, Core, NoneStuck, WaitersKept, StartPieceHashers;
    StartKeepsCore(s, t);
    StartsKeepBusyEnoughAll(s, StartPieceHashers(s, t), t);
    hide StartsOnly, BusyEnough, NoIdleHasher;
    StartsKeepSound(s, StartPieceHashers(s, t));
    CoreInRange(StartPieceHashers(s, t));
    StartsKeepPromises(s, StartPieceHashers(s, t));
  }

  lemma {:induction false} WithTorrentIs(s: State, chunks: seq<nat>)
    requires Inv(s) && forall n <- chunks :: n >= 1
    ensures var m := WithTorrent(s, chunks);
      && Inv(m) && |m.torrents| == |s.torrents| + 1 && (forall p: nat | p < |chunks| :: PieceId(|s.torrents|, p) in m.pieces)
      && forall i <- s.pieces :: i in m.pieces && m.pieces[i] == s.pieces[i] && i.t != |s.torrents|
  {
    CoreInRange(s);
    WithTorrentKeeps(s, chunks);
    forall i <- s.pieces ensures i in WithTorrent(s, chunks).pieces && WithTorrent(s, chunks).pieces[i] == s.pieces[i] && i.t != |s.torrents| {
      NewPiecesElsewhere(s, chunks, i);
    }
    hide Inv, InRange;
  }

  lemma {:induction false} SetInfoIs(s: State, chunks: seq<nat>, stored: seq<Option<bool>>, check: bool, r: State)
    requires |stored| == |chunks| && r == InitialPieces(WithTorrent(s, chunks), |s.torrents|, stored, check)
    ensures |s.torrents| < |r.torrents| && SetInfo(s, chunks, stored, check) == StartPieceHashers(r, |s.torrents|)
  {
    hide InitialPieces, StartPieceHashers;
  }

  lemma {:induction false} EnabledInfo(s: State, chunks: seq<nat>, stored: seq<Option<bool>>, check: bool)
    requires Enabled(s, Info(chunks, stored, check))
    ensures |stored| == |chunks| && forall n <- chunks :: n >= 1
  {
  }

  lemma {:induction false} AllElsewhere(s: State, t: nat)
    requires t < |s.torrents|
    ensures forall i <- s.pieces | i.t != t :: StartPieceHashers(s, t).pieces[i] == s.pieces[i]
  {
    hide StartPieceHashers;
    forall i <- s.pieces | i.t != t ensures StartPieceHashers(s, t).pieces[i] == s.pieces[i] { StartsElsewhere(s, t, i); }
  }

  lemma {:induction false} PromiseKept(s: State, r: State, i: PieceId)
    requires PromisesKept(s, r) && i in s.pieces
    ensures i in r.pieces && r.pieces[i].Promised() >= s.pieces[i].Promised()
  {
  }

  /** The info of a torrent arrives: earlier pieces are left alone, and each new piece of
      which storage knows nothing is checked. */
  lemma {:induction false} InfoKeeps(s: State, chunks: seq<nat>, stored: seq<Option<bool>>, check: bool)
    requires Inv(s) && Enabled(s, Info(chunks, stored, check))
    ensures |stored| == |chunks|
    ensures var r := SetInfo(s, chunks, stored, check);
      && Inv(r) && (forall i <- s.pieces :: i in r.pieces && r.pieces[i] == s.pieces[i])
      && (forall p: nat | p < |chunks| :: PieceId(|s.torrents|, p) in r.pieces)
      && (check ==> forall p: nat | p < |chunks| && stored[p].None? :: r.pieces[PieceId(|s.torrents|, p)].Promised() >= 1)
  {
    hide *;
    EnabledInfo(s, chunks, stored, check);
    WithTorrentIs(s, chunks);
    var t, m := |s.torrents|, WithTorrent(s, chunks);
    var r := InitialPieces(m, t, stored, check);
    InitialPiecesKeep(m, t, stored, check, 0);
    SetInfoIs(s, chunks, stored, check, r);
    StartKeeps(r, t);
    AllElsewhere(r, t);
    forall p: nat | p < |chunks| && stored[p].None? && check ensures StartPieceHashers(r, t).pieces[PieceId(t, p)].Promised() >= 1 {
      PromiseKept(r, StartPieceHashers(r, t), PieceId(t, p));
    }
  }

  lemma {:induction false} WrittenKeeps(s: State, conn: nat, ok: bool)
    requires Inv(s) && Enabled(s, Written(conn, ok))
    ensures Inv(Next(s, Written(conn, ok)))
  {
    WriteOngoing(s, conn);
    hide Inv, Core, EndWrite, PieceFine;
    EndWriteKeeps(s, conn, ok);
  }

  lemma {:induction false} QueueEventKeeps(s: State, e: Event)
    requires Inv(s) && Enabled(s, e) && (e.Verify? || e.Info?)
    ensures Inv(Next(s, e))
  {
    hide Inv, VerifyData, SetInfo;
    match e
    case Verify(i) => VerifyKeeps(s, i);
    case Info(chunks, stored, check) => InfoKeeps(s, chunks, stored, check);
  }

  lemma {:induction false} HasherEventKeeps(s: State, e: Event)
    requires Inv(s) && Enabled(s, e) && (e.Hashed? || e.Marked?)
    ensures Inv(Next(s, e))
  {
    hide Inv, HashDone, MarkDone, Visits;
    match e
    case Hashed(i, correct, order) =>
      HasherOpened(s, Hashes(i), order);
      HashDoneKeeps(s, i, correct, order);
    case Marked(i, passed, order) =>
      HasherOpened(s, Marks(i, passed), order);
      MarkDoneKeeps(s, i, passed, order);
  }

  lemma {:induction false} OtherEventKeeps(s: State, e: Event)
    requires Inv(s) && Enabled(s, e) && (e.Receive? || e.Refresh? || e.Close?)
    ensures Inv(Next(s, e))
  {
    CoreInRange(s);
    hide Inv, Core, BeginWrite, UpdateCompletion;
    match e
    case Receive(conn, i, c) => BeginWriteKeeps(s, conn, i, c);
    case Refresh(i, completion) => RefreshKeeps(s, i, completion);
    case Close(t) => CloseKeeps(s, t);
  }

  /** Main result, one step: whatever happens next, the counters agree, no piece
      has two hashers, none is stuck, no waiter is forgotten, no hasher is idle. */
  lemma {:induction false} EveryEventKeepsInv(s: State, e: Event)
    requires Inv(s) && Enabled(s, e)
    ensures Inv(Next(s, e))
  {
    hide *;
    match e
    case Written(conn, ok) => WrittenKeeps(s, conn, ok);
    case Verify(_) => QueueEventKeeps(s, e);
    case Info(_, _, _) => QueueEventKeeps(s, e);
    case Hashed(_, _, _) => HasherEventKeeps(s, e);
    case Marked(_, _, _) => HasherEventKeeps(s, e);
    case _ => OtherEventKeeps(s, e);
  }

  // ---- runs

  /** Every event of the run can happen when its turn comes. */
  ghost predicate Legal(s: State, events: seq<Event>)
    requires Inv(s)
    decreases |events|
  {
    events == [] ||
    (Enabled(s, events[0]) && (EveryEventKeepsInv(s, events[0]); Legal(Next(s, events[0]), events[1..])))
  }

  /** Main result over runs: the invariant holds wherever a run ends. */
  ghost function After(s: State, events: seq<Event>): (r: State)
    requires Inv(s) && Legal(s, events)
    ensures Inv(r)
    decreases |events|
  {
    if events == [] then s
    else
      EveryEventKeepsInv(s, events[0]);
      After(Next(s, events[0]), events[1..])
  }

  /** A client starts with the invariant. */
  lemma {:induction false} InitIsFine(s: State)
    requires Init(s)
    ensures Inv(s)
  {
  }

  /** What any event does to the verification counters of any piece. */
  ghost predicate Advances(a: Piece, b: Piece)
  {
    && a.numVerifies <= b.numVerifies && a.Promised() <= b.Promised()
    && (b.Started() == a.Started() || (b.Started() == a.Started() + 1 && b.hashing))
  }

  /** Nothing was begun, and nothing promised was taken back. */
  ghost predicate NothingBegun(a: Piece, b: Piece)
  {
    a.numVerifies <= b.numVerifies && a.Promised() <= b.Promised() && a.Started() == b.Started()
  }

  lemma {:induction false} StartsAdvance(m: State, r: State, a: Piece, i: PieceId)
    requires StartsOnly(m, r) && i in m.pieces && NothingBegun(a, m.pieces[i])
    ensures i in r.pieces && Advances(a, r.pieces[i])
  {
  }

  lemma {:induction false} EnqueueCounters(s: State, j: PieceId, i: PieceId, a: Piece)
    requires j in s.pieces && i in s.pieces && NothingBegun(a, s.pieces[i])
    ensures i in Enqueue(s, j).pieces && NothingBegun(a, Enqueue(s, j).pieces[i])
  {
  }

  lemma {:induction false} NothingBegunYet(a: Piece)
    ensures NothingBegun(a, a)
  {
  }

  lemma {:induction false} QueueAdvances(s: State, j: PieceId, i: PieceId)
    requires Inv(s) && j in s.pieces && j.t < |s.torrents| && i in s.pieces
    ensures i in QueuePieceCheck(s, j).pieces && Advances(s.pieces[i], QueuePieceCheck(s, j).pieces[i])
  {
    hide *;
    CheckKeeps(s, j);
    NothingBegunYet(s.pieces[i]);
    EnqueueCounters(s, j, i, s.pieces[i]);
    StartsAdvance(Enqueue(s, j), QueuePieceCheck(s, j), s.pieces[i], i);
  }

  lemma {:induction false} ChangeCounters(s: State, j: PieceId, pc: Piece, hs: multiset<Hasher>, ws: map<nat, Write>, i: PieceId)
    requires j in s.pieces && i in s.pieces && j.t < |s.torrents| && NothingBegun(s.pieces[j], pc)
    ensures var m := Change(s, j, pc, hs, ws, 0);
      && i in m.pieces && NothingBegun(s.pieces[i], m.pieces[i])
      && j in m.pieces && i in Enqueue(m, j).pieces && NothingBegun(s.pieces[i], Enqueue(m, j).pieces[i])
      && i in Settled(s, j, pc, hs).pieces && NothingBegun(s.pieces[i], Settled(s, j, pc, hs).pieces[i])
  {
  }

  lemma {:induction false} WroteCounters(pc: Piece, c: nat, ok: bool)
    requires pc.pendingWrites > 0
    ensures NothingBegun(pc, Wrote(pc, c, ok))
  {
  }

  lemma {:induction false} EndWriteAdvances(s: State, conn: nat, ok: bool, i: PieceId)
    requires Inv(s) && conn in s.writers && i in s.pieces && s.writers[conn].i in s.pieces && s.writers[conn].i.t < |s.torrents|
    requires s.pieces[s.writers[conn].i].pendingWrites > 0
    ensures i in EndWrite(s, conn, ok).pieces && Advances(s.pieces[i], EndWrite(s, conn, ok).pieces[i])
  {
    hide *;
    var j := s.writers[conn].i;
    var pc := Wrote(s.pieces[j], s.writers[conn].chunk, ok);
    var m := Change(s, j, pc, s.hashers, s.writers - {conn}, 0);
    var r := EndWrite(s, conn, ok);
    EndWriteKeeps(s, conn, ok);
    WroteCounters(s.pieces[j], s.writers[conn].chunk, ok);
    ChangeCounters(s, j, pc, s.hashers, s.writers - {conn}, i);
    if StartsOnly(m, r) {
      StartsAdvance(m, r, s.pieces[i], i);
    } else {
      StartsAdvance(Enqueue(m, j), r, s.pieces[i], i);
    }
  }

  lemma {:induction false} VerifiedCounters(pc: Piece)
    requires pc.hashing
    ensures NothingBegun(pc, Verified(pc))
  {
  }

  lemma {:induction false} UnmarkedCounters(pc: Piece, passed: bool, closed: bool)
    ensures NothingBegun(pc, Unmarked(pc, passed, closed))
  {
  }

  lemma {:induction false} OpenHashDoneAdvances(s: State, j: PieceId, correct: bool, order: seq<nat>, i: PieceId)
    requires i in s.pieces && j in s.pieces && j.t < |s.torrents| && !s.torrents[j.t].closed && s.pieces[j].hashing
    requires forall u <- order :: u < |s.torrents|
    ensures i in HashDone(s, j, correct, order).pieces && Advances(s.pieces[i], HashDone(s, j, correct, order).pieces[i])
  {
  }

  lemma {:induction false} HashDoneAdvances(s: State, j: PieceId, correct: bool, order: seq<nat>, i: PieceId)
    requires Inv(s) && Enabled(s, Hashed(j, correct, order)) && i in s.pieces && j in s.pieces && j.t < |s.torrents|
    ensures forall u <- order :: u < |s.torrents|
    ensures i in HashDone(s, j, correct, order).pieces && Advances(s.pieces[i], HashDone(s, j, correct, order).pieces[i])
  {
    hide *;
    EnabledHasher(s, j, correct, order);
    HasherOpened(s, Hashes(j), order);
    if s.torrents[j.t].closed {
      HashDoneKeeps(s, j, correct, order);
      VerifiedCounters(s.pieces[j]);
      ChangeCounters(s, j, Verified(s.pieces[j]), s.hashers - multiset{Hashes(j)}, s.writers, i);
      StartsAdvance(Settled(s, j, Verified(s.pieces[j]), s.hashers - multiset{Hashes(j)}), HashDone(s, j, correct, order), s.pieces[i], i);
    } else {
      OpenHashDoneAdvances(s, j, correct, order, i);
    }
  }

  lemma {:induction false} MarkDoneAdvances(s: State, j: PieceId, passed: bool, order: seq<nat>, i: PieceId)
    requires Inv(s) && Enabled(s, Marked(j, passed, order)) && i in s.pieces && j in s.pieces && j.t < |s.torrents|
    ensures forall u <- order :: u < |s.torrents|
    ensures i in MarkDone(s, j, passed, order).pieces && Advances(s.pieces[i], MarkDone(s, j, passed, order).pieces[i])
  {
    hide *;
    MarkDoneKeeps(s, j, passed, order);
    var pc := Unmarked(s.pieces[j], passed, s.torrents[j.t].closed);
    var hs := s.hashers - multiset{Marks(j, passed)};
    UnmarkedCounters(s.pieces[j], passed, s.torrents[j.t].closed);
    ChangeCounters(s, j, pc, hs, s.writers, i);
    StartsAdvance(Settled(s, j, pc, hs), MarkDone(s, j, passed, order), s.pieces[i], i);
  }

  lemma {:induction false} WriteOngoing(s: State, conn: nat)
    requires Core(s) && conn in s.writers
    ensures s.writers[conn].i in s.pieces && s.writers[conn].i.t < |s.torrents|
    ensures PieceFine(s, s.writers[conn].i) && s.pieces[s.writers[conn].i].pendingWrites > 0
  {
    assert PieceFine(s, s.writers[conn].i) && conn in WritersOf(s.writers, s.writers[conn].i);
  }

  lemma {:induction false} NewPiecesElsewhere(s: State, chunks: seq<nat>, i: PieceId)
    requires InRange(s) && i in s.pieces
    ensures i in WithTorrent(s, chunks).pieces && WithTorrent(s, chunks).pieces[i] == s.pieces[i]
  {
    assert i !in NewPieces(|s.torrents|, chunks);
  }

  lemma {:induction false} WrittenAdvances(s: State, conn: nat, ok: bool, i: PieceId)
    requires Inv(s) && Enabled(s, Written(conn, ok)) && i in s.pieces
    ensures i in Next(s, Written(conn, ok)).pieces && Advances(s.pieces[i], Next(s, Written(conn, ok)).pieces[i])
  {
    WriteOngoing(s, conn);
    hide Inv, Core, EndWrite, PieceFine, Advances;
    EndWriteAdvances(s, conn, ok, i);
  }

  lemma {:induction false} QueueEventAdvances(s: State, e: Event, i: PieceId)
    requires Inv(s) && Enabled(s, e) && i in s.pieces && (e.Verify? || e.Info?)
    ensures i in Next(s, e).pieces && Advances(s.pieces[i], Next(s, e).pieces[i])
  {
    hide Inv, QueuePieceCheck, SetInfo;
    match e
    case Verify(j) => QueueAdvances(s, j, i);
    case Info(chunks, stored, check) => InfoKeeps(s, chunks, stored, check);
  }

  lemma {:induction false} HasherEventAdvances(s: State, e: Event, i: PieceId)
    requires Inv(s) && Enabled(s, e) && i in s.pieces && (e.Hashed? || e.Marked?)
    ensures i in Next(s, e).pieces && Advances(s.pieces[i], Next(s, e).pieces[i])
  {
    hide Inv, HashDone, MarkDone, Visits, Advances;
    match e
    case Hashed(j, correct, order) =>
      HasherOpened(s, Hashes(j), order);
      HashDoneAdvances(s, j, correct, order, i);
    case Marked(j, passed, order) =>
      HasherOpened(s, Marks(j, passed), order);
      MarkDoneAdvances(s, j, passed, order, i);
  }

  lemma {:induction false} EveryEventAdvances(s: State, e: Event, i: PieceId)
    requires Inv(s) && Enabled(s, e) && i in s.pieces
    ensures i in Next(s, e).pieces && Advances(s.pieces[i], Next(s, e).pieces[i])
  {
    hide *;
    match e
    case Written(conn, ok) => WrittenAdvances(s, conn, ok, i);
    case Verify(_) => QueueEventAdvances(s, e, i);
    case Info(_, _, _) => QueueEventAdvances(s, e, i);
    case Hashed(_, _, _) => HasherEventAdvances(s, e, i);
    case Marked(_, _, _) => HasherEventAdvances(s, e, i);
    case _ => QuietEventAdvances(s, e, i);
  }

  /** Events that touch no queue begin nothing. */
  lemma {:induction false} QuietEventAdvances(s: State, e: Event, i: PieceId)
    requires Inv(s) && Enabled(s, e) && i in s.pieces
    requires e.Receive? || e.Refresh? || e.Close?
    ensures i in Next(s, e).pieces && Advances(s.pieces[i], Next(s, e).pieces[i])
  {
    hide Inv;
  }

  /** Some event of the run begins hash number `n` of piece `i`. */
  ghost predicate BeginsHash(s: State, events: seq<Event>, i: PieceId, n: nat)
    requires Inv(s) && Legal(s, events) && i in s.pieces
    decreases |events|
  {
    events != [] &&
    (EveryEventKeepsInv(s, events[0]); EveryEventAdvances(s, events[0], i);
     var next := Next(s, events[0]);
     (s.pieces[i].Started() + 1 == n && next.pieces[i].hashing && next.pieces[i].numVerifies + 1 == n)
     || BeginsHash(next, events[1..], i, n))
  }

  /** Over a run counters only grow, and a hash that is over at the end and had not
      begun at the start was begun in between. */
  lemma {:induction false} NoHashFromNowhere(s: State, events: seq<Event>, i: PieceId, n: nat)
    requires Inv(s) && Legal(s, events) && i in s.pieces
    ensures i in After(s, events).pieces
    ensures s.pieces[i].Promised() <= After(s, events).pieces[i].Promised()
    ensures s.pieces[i].Started() < n <= After(s, events).pieces[i].numVerifies ==> BeginsHash(s, events, i, n)
    decreases |events|
  {
    if events != [] {
      EveryEventKeepsInv(s, events[0]);
      EveryEventAdvances(s, events[0], i);
      NoHashFromNowhere(Next(s, events[0]), events[1..], i, n);
    }
  }

  /** Main result for waiters. Whoever asks for a verification gets a target that
      stays promised however the run goes on, and it is only reached by a hash that
      began after the request. */
  lemma {:induction false} WaiterIsServed(s: State, i: PieceId, rest: seq<Event>)
    requires Inv(s) && Legal(s, [Verify(i)] + rest)
    ensures i in s.pieces
    ensures var target := s.pieces[i].NextNovelHashCount();
      var r := After(s, [Verify(i)] + rest);
      && i in r.pieces && target <= r.pieces[i].Promised()
      && (r.pieces[i].numVerifies < target ==> r.pieces[i].queued || r.pieces[i].hashing)
      && (target <= r.pieces[i].numVerifies ==> BeginsHash(s, [Verify(i)] + rest, i, target))
  {
    var es := [Verify(i)] + rest;
    assert es[0] == Verify(i) && es[1..] == rest;
    var target := s.pieces[i].NextNovelHashCount();
    EveryEventKeepsInv(s, es[0]);
    VerifyKeeps(s, i);
    NoHashFromNowhere(Next(s, es[0]), rest, i, target);
    NoHashFromNowhere(s, es, i, target);
  }

  /** What the invariant says of one piece: never two hashers on it, and on an open
      torrent a fully received piece is on its way to be verified. */
  lemma {:induction false} PieceIsLookedAfter(s: State, i: PieceId)
    requires Inv(s) && i in s.pieces
    ensures s.hashers[Hashes(i)] + MarksOn(s.hashers, i) <= 1
    ensures i.t < |s.torrents|
    ensures !s.torrents[i.t].closed && s.pieces[i].AllDirty() && s.pieces[i].pendingWrites == 0
      ==> s.pieces[i].queued || s.pieces[i].hashing || s.pieces[i].marking
    ensures !s.torrents[i.t].closed && s.pieces[i].Eligible()
      ==> s.torrents[i.t].activePieceHashes >= s.perTorrentLimit || s.activePieceHashers >= s.clientLimit
  {
    assert PieceFine(s, i) && InRange(s) && NoIdleHasher(s, i.t);
  }
}
