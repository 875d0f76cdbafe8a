/** The hash queue as the client runs it: fields updated in place, one method per
    lock section, each proved to do what the state machine of `Hashing` says. */
module HashQueue {
  import opened Options
  import opened Hashing
  import opened HashingProofs

  class Client {
    var torrents: seq<Torrent>
    var pieces: map<PieceId, Piece>
    var activePieceHashers: int
    const perTorrentLimit: int
    const clientLimit: int
    // Goroutines and callers in flight; no field of the client records them.
    ghost var hashers: multiset<Hasher>
    ghost var writers: map<nat, Write>
    ghost var waiters: set<Waiter>

    ghost function State(): Hashing.State
      reads this
    {
      Hashing.State.State(torrents, pieces, activePieceHashers, perTorrentLimit, clientLimit, hashers, writers, waiters)
    }

    constructor (perTorrentLimit: int, clientLimit: int)
      ensures Init(State())
      ensures this.perTorrentLimit == perTorrentLimit && this.clientLimit == clientLimit
    {
      this.perTorrentLimit, this.clientLimit := perTorrentLimit, clientLimit;
      torrents, pieces, activePieceHashers := [], map[], 0;
      hashers, writers, waiters := multiset{}, map[], {};
    }

    method Count(t: nat, d: int)
      requires t < |torrents|
      modifies this`torrents, this`activePieceHashers
      ensures State() == old(State()).Count(t, d)
    {
      torrents := torrents[t := torrents[t].(activePieceHashes := torrents[t].activePieceHashes + d)];
      activePieceHashers := activePieceHashers + d;
    }

    method StartHash(i: PieceId)
      requires i in pieces && i.t < |torrents|
      modifies this
      ensures State() == Hashing.StartHash(old(State()), i)
    {
      pieces := pieces[i := pieces[i].(queued := false)];
      pieces := pieces[i := pieces[i].(hashing := true)];
      Count(i.t, 1);
      hashers := hashers + multiset{Hashes(i)};
    }

    /** The first queued piece of the torrent that is neither hashed nor marked. */
    method GetPieceToHash(t: nat) returns (r: Option<nat>)
      requires t < |torrents|
      ensures r == State().PieceToHash(t)
    {
      r := None;
      for p := 0 to torrents[t].numPieces
        invariant State().PieceToHash(t) == State().PieceToHash(t, p)
      {
        var i := PieceId(t, p);
        if i in pieces && pieces[i].queued {
          if pieces[i].hashing || pieces[i].marking { continue; }
          return Some(p);
        }
      }
    }

    method StartPieceHashers(t: nat)
      requires t < |torrents|
      modifies this
      ensures State() == Hashing.StartPieceHashers(old(State()), t)
    {
      if torrents[t].closed { return; }
      while torrents[t].activePieceHashes < perTorrentLimit && activePieceHashers < clientLimit
        invariant |torrents| == |old(torrents)| && !torrents[t].closed
        invariant Hashing.StartPieceHashers(State(), t) == Hashing.StartPieceHashers(old(State()), t)
        decreases perTorrentLimit - torrents[t].activePieceHashes
      {
        var p := GetPieceToHash(t);
        if p.None? { break; }
        StartHash(PieceId(t, p.value));
      }
    }

    method StartAllHashers(order: seq<nat>)
      requires forall t <- order :: t < |torrents|
      modifies this
      ensures State() == Hashing.StartAllHashers(old(State()), order)
    {
      var k := 0;
      while k < |order| && activePieceHashers < clientLimit
        invariant 0 <= k <= |order| && |torrents| == |old(torrents)|
        invariant forall t <- order[k..] :: t < |torrents|
        invariant Hashing.StartAllHashers(State(), order[k..]) == Hashing.StartAllHashers(old(State()), order)
      {
        assert order[k..][0] == order[k] && order[k..][1..] == order[k+1..];
        assert order[k] in order[k..];
        assert forall t <- order[k..][1..] :: t in order[k..];
        StartPieceHashers(order[k]);
        k := k + 1;
      }
    }

    method QueuePieceCheck(i: PieceId) returns (target: nat)
      requires i in pieces && i.t < |torrents|
      modifies this
      ensures State() == Hashing.QueuePieceCheck(old(State()), i)
      ensures target == old(pieces[i].NextNovelHashCount())
    {
      target := pieces[i].NextNovelHashCount();
      if pieces[i].queued { return; }
      pieces := pieces[i := pieces[i].(queued := true)];
      StartPieceHashers(i.t);
    }

    /** The locked part of a verification request; the caller then waits. */
    method VerifyData(i: PieceId) returns (target: nat)
      requires i in pieces && i.t < |torrents| && !torrents[i.t].closed
      modifies this
      ensures State() == Hashing.VerifyData(old(State()), i)
      ensures Waiter(i, target) in waiters
    {
      target := QueuePieceCheck(i);
      waiters := waiters + {Waiter(i, target)};
    }

    /** A wanted chunk is marked dirty before the lock is released for the write. */
    method BeginWrite(conn: nat, i: PieceId, c: nat)
      requires Enabled(State(), Receive(conn, i, c))
      modifies this
      ensures State() == Hashing.BeginWrite(old(State()), conn, i, c)
    {
      pieces := pieces[i := pieces[i].(pendingWrites := pieces[i].pendingWrites + 1, dirty := pieces[i].dirty + {c})];
      writers := writers[conn := Write(i, c)];
    }

    method EndWrite(conn: nat, i: PieceId, c: nat, ok: bool)
      requires Inv(State()) && conn in writers && writers[conn] == Write(i, c)
      modifies this
      ensures State() == Next(old(State()), Written(conn, ok))
    {
      hide Core, NoneStuck, WaitersKept, BusyEnough, PieceFine, Hashing.QueuePieceCheck;
      WriteOngoing(State(), conn);
      assert pieces[i].pendingWrites != 0;  // panic: assertion
      hide Inv;
      pieces := pieces[i := pieces[i].(pendingWrites := pieces[i].pendingWrites - 1,
                                       dirty := if ok then pieces[i].dirty else pieces[i].dirty - {c})];
      writers := writers - {conn};
      if ok && pieces[i].AllDirty() && pieces[i].pendingWrites == 0 {
        var _ := QueuePieceCheck(i);
      }
    }

    method FinishHash(t: nat, order: seq<nat>)
      requires t < |torrents| && forall u <- order :: u < |torrents|
      modifies this
      ensures State() == Hashing.FinishHash(old(State()), t, order)
    {
      Count(t, -1);
      var p := GetPieceToHash(t);
      if p.Some? {
        StartHash(PieceId(t, p.value));
      } else {
        StartAllHashers(order);
      }
    }

    method HashDone(i: PieceId, correct: bool, order: seq<nat>)
      requires i in pieces && i.t < |torrents| && forall u <- order :: u < |torrents|
      modifies this
      ensures State() == Hashing.HashDone(old(State()), i, correct, order)
    {
      hashers := hashers - multiset{Hashes(i)};
      pieces := pieces[i := pieces[i].(hashing := false, numVerifies := pieces[i].numVerifies + 1)];
      if torrents[i.t].closed {
        FinishHash(i.t, order);
      } else {
        pieces := pieces[i := pieces[i].(marking := true)];
        hashers := hashers + multiset{Marks(i, correct)};
      }
    }

    method PendAllChunks(i: PieceId)
      requires i in pieces
      modifies this`pieces
      ensures pieces == old(pieces)[i := old(pieces)[i].(dirty := {})]
    {
      pieces := pieces[i := pieces[i].(dirty := {})];
    }

    /** The piece's part of a finished mark. */
    method Unmark(i: PieceId, passed: bool)
      requires i in pieces && i.t < |torrents|
      modifies this`pieces
      ensures pieces == old(pieces)[i := Unmarked(old(pieces)[i], passed, torrents[i.t].closed)]
    {
      if !torrents[i.t].closed {
        if passed || pieces[i].AllDirty() {
          PendAllChunks(i);
        }
        if pieces[i].completion != Some(passed) {
          CompletionChanged(i, Some(passed));
        }
      }
      pieces := pieces[i := pieces[i].(marking := false)];
    }

    method MarkDone(i: PieceId, passed: bool, order: seq<nat>)
      requires i in pieces && i.t < |torrents| && forall u <- order :: u < |torrents|
      modifies this
      ensures State() == Hashing.MarkDone(old(State()), i, passed, order)
    {
      hashers := hashers - multiset{Marks(i, passed)};
      Unmark(i, passed);
      FinishHash(i.t, order);
    }

    /** What a change of a piece's completion brings about. */
    method CompletionChanged(i: PieceId, completion: Option<bool>)
      requires i in pieces
      modifies this`pieces
      ensures pieces == old(pieces)[i := SetCompletion(old(pieces)[i], completion)]
    {
      pieces := pieces[i := pieces[i].(completion := completion)];
      if pieces[i].Complete() || pieces[i].AllDirty() {
        PendAllChunks(i);
      }
    }

    method UpdateCompletion(i: PieceId, completion: Option<bool>)
      requires i in pieces
      modifies this`pieces
      ensures State() == Hashing.UpdateCompletion(old(State()), i, completion)
    {
      if completion != pieces[i].completion {
        CompletionChanged(i, completion);
      }
    }

    method InitialPiece(i: PieceId, stored: Option<bool>, check: bool)
      requires i in pieces && i.t < |torrents|
      modifies this
      ensures State() == Hashing.InitialPiece(old(State()), i, stored, check)
    {
      CompletionChanged(i, stored);
      if check && pieces[i].numVerifies == 0 && !pieces[i].hashing && pieces[i].completion.None? {
        var _ := QueuePieceCheck(i);
      }
    }

    /** The pieces of a torrent one after the other. */
    method InitialPieces(t: nat, stored: seq<Option<bool>>, check: bool)
      requires t < |torrents| && forall q: nat | q < |stored| :: PieceId(t, q) in pieces
      modifies this
      ensures State() == Hashing.InitialPieces(old(State()), t, stored, check)
    {
      hide Hashing.InitialPiece;
      ghost var begun := State();
      for p := 0 to |stored|
        invariant t < |torrents| && forall q: nat | q < |stored| :: PieceId(t, q) in pieces
        invariant Hashing.InitialPieces(State(), t, stored, check, p) == Hashing.InitialPieces(begun, t, stored, check)
      {
        InitialPiece(PieceId(t, p), stored[p], check);
      }
    }

    /** The info of a torrent arrives. */
    method SetInfo(chunks: seq<nat>, stored: seq<Option<bool>>, check: bool)
      requires |stored| == |chunks|
      modifies this
      ensures State() == Hashing.SetInfo(old(State()), chunks, stored, check)
    {
      hide Hashing.InitialPieces, Hashing.StartPieceHashers;
      var t := |torrents|;
      torrents := torrents + [Torrent(|chunks|, 0, false)];
      pieces := pieces + NewPieces(t, chunks);
      InitialPieces(t, stored, check);
      StartPieceHashers(t);
    }

    method Close(t: nat)
      requires t < |torrents|
      modifies this`torrents
      ensures State() == old(State()).(torrents := old(torrents)[t := old(torrents)[t].(closed := true)])
    {
      torrents := torrents[t := torrents[t].(closed := true)];
    }
  }
}
