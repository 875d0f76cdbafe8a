/** Piece verification as a state machine over the sections between two releases
    of the client lock: chunk writers, the hash queue, the hasher goroutines and
    the callers that wait for a piece to be verified. */
module Hashing {
  import opened Options

  /** Piece `p` of torrent `t`. */
  datatype PieceId = PieceId(t: nat, p: nat)

  datatype Piece = Piece(
    numChunks: nat, dirty: set<nat>, pendingWrites: nat, queued: bool,
    numVerifies: nat, hashing: bool, marking: bool, completion: Option<bool>)
  {
    /** None stands for a completion that is not known. */
    predicate Complete() { completion == Some(true) }

    predicate AllDirty() { |dirty| == numChunks }

    predicate Busy() { hashing || marking }

    predicate Eligible() { queued && !Busy() }

    /** The value of numVerifies after the next hash that has not yet begun. */
    function NextNovelHashCount(): nat { numVerifies + if hashing then 2 else 1 }

    /** How many hashes of the piece have begun. */
    function Started(): nat { numVerifies + if hashing then 1 else 0 }

    /** How many hashes of the piece have begun or are bound to. */
    function Promised(): nat { Started() + if queued then 1 else 0 }

    /** A fully received piece of an open torrent with no write in flight is
        queued, hashing or marking. */
    predicate NotStuck(closed: bool)
    {
      closed || !AllDirty() || pendingWrites > 0 || Busy() || queued
    }
  }

  /** A torrent whose info is known. */
  datatype Torrent = Torrent(numPieces: nat, activePieceHashes: int, closed: bool)

  /** A hasher goroutine between two lock releases. */
  datatype Hasher = Hashes(i: PieceId) | Marks(i: PieceId, passed: bool)

  /** A connection writing a received chunk to storage. */
  datatype Write = Write(i: PieceId, chunk: nat)

  /** A caller waiting for numVerifies of a piece to reach a target. */
  datatype Waiter = Waiter(i: PieceId, target: nat)

  datatype State = State(
    torrents: seq<Torrent>, pieces: map<PieceId, Piece>, activePieceHashers: int,
    perTorrentLimit: int, clientLimit: int,
    hashers: multiset<Hasher>, writers: map<nat, Write>, waiters: set<Waiter>)
  {
    predicate Eligible(t: nat, p: nat) { PieceId(t, p) in pieces && pieces[PieceId(t, p)].Eligible() }

    predicate CanStart() { activePieceHashers < clientLimit }

    predicate ConsiderStarting(t: nat)
      requires t < |torrents|
    {
      torrents[t].activePieceHashes < perTorrentLimit && CanStart()
    }

    /** The piece of torrent `t` a hasher takes next: queued pieces in order, busy
        ones skipped. */
    function PieceToHash(t: nat, from: nat := 0): (r: Option<nat>)
      requires t < |torrents| && from <= torrents[t].numPieces
      ensures r.Some? ==> from <= r.value < torrents[t].numPieces && Eligible(t, r.value)
      ensures r.None? ==> forall p: nat | from <= p < torrents[t].numPieces :: !Eligible(t, p)
      decreases torrents[t].numPieces - from
    {
      if from == torrents[t].numPieces then None
      else if Eligible(t, from) then Some(from)
      else PieceToHash(t, from + 1)
    }

    /** The counters of torrent `t` and of the client moved by `d`. */
    function Count(t: nat, d: int): State
      requires t < |torrents|
    {
      this.(torrents := torrents[t := torrents[t].(activePieceHashes := torrents[t].activePieceHashes + d)],
            activePieceHashers := activePieceHashers + d)
    }
  }

  // ---- what one lock section does

  function StartHash(s: State, i: PieceId): State
    requires i in s.pieces && i.t < |s.torrents|
  {
    s.Count(i.t, 1).(
      pieces := s.pieces[i := s.pieces[i].(hashing := true, queued := false)],
      hashers := s.hashers + multiset{Hashes(i)})
  }

  /** Starts hashers for torrent `t` until a limit or the queue stops it. */
  function StartPieceHashers(s: State, t: nat): (r: State)
    requires t < |s.torrents|
    ensures |r.torrents| == |s.torrents| && r.pieces.Keys == s.pieces.Keys
    decreases s.perTorrentLimit - s.torrents[t].activePieceHashes
  {
    if s.torrents[t].closed || !s.ConsiderStarting(t) then s
    else match s.PieceToHash(t)
      case None => s
      case Some(p) => StartPieceHashers(StartHash(s, PieceId(t, p)), t)
  }

  /** A hasher that leaves lets every torrent in `order` start hashers. */
  function StartAllHashers(s: State, order: seq<nat>): State
    requires forall t <- order :: t < |s.torrents|
    decreases |order|
  {
    if order == [] || !s.CanStart() then s
    else
      assert order[0] in order && forall t <- order[1..] :: t in order;
      StartAllHashers(StartPieceHashers(s, order[0]), order[1..])
  }

  function Enqueue(s: State, i: PieceId): State
    requires i in s.pieces
  {
    s.(pieces := s.pieces[i := s.pieces[i].(queued := true)])
  }

  function QueuePieceCheck(s: State, i: PieceId): (r: State)
    requires i in s.pieces && i.t < |s.torrents|
    ensures |r.torrents| == |s.torrents| && r.pieces.Keys == s.pieces.Keys
  {
    if s.pieces[i].queued then s else StartPieceHashers(Enqueue(s, i), i.t)
  }

  function BeginWrite(s: State, conn: nat, i: PieceId, c: nat): State
    requires i in s.pieces
  {
    var pc := s.pieces[i];
    s.(pieces := s.pieces[i := pc.(pendingWrites := pc.pendingWrites + 1, dirty := pc.dirty + {c})],
       writers := s.writers[conn := Write(i, c)])
  }

  /** The piece after a write of chunk `c` is over: a failed write gives the chunk up. */
  function Wrote(pc: Piece, c: nat, ok: bool): Piece
    requires pc.pendingWrites > 0
  {
    pc.(pendingWrites := pc.pendingWrites - 1, dirty := if ok then pc.dirty else pc.dirty - {c})
  }

  /** Only the last writer of a piece queues it. */
  function EndWrite(s: State, conn: nat, ok: bool): State
    requires conn in s.writers && s.writers[conn].i in s.pieces && s.writers[conn].i.t < |s.torrents|
    requires s.pieces[s.writers[conn].i].pendingWrites > 0
  {
    var i := s.writers[conn].i;
    var pc := Wrote(s.pieces[i], s.writers[conn].chunk, ok);
    var s' := s.(pieces := s.pieces[i := pc], writers := s.writers - {conn});
    if ok && pc.AllDirty() && pc.pendingWrites == 0 then QueuePieceCheck(s', i) else s'
  }

  /** The end of a hasher's work on one piece: it goes on with the same torrent
      without looking at the limits, or leaves. */
  function FinishHash(s: State, t: nat, order: seq<nat>): State
    requires t < |s.torrents| && forall u <- order :: u < |s.torrents|
  {
    var s' := s.Count(t, -1);
    match s'.PieceToHash(t)
    case Some(p) => StartHash(s', PieceId(t, p))
    case None => StartAllHashers(s', order)
  }

  function Verified(pc: Piece): Piece { pc.(hashing := false, numVerifies := pc.numVerifies + 1) }

  /** Hash result in; unless the torrent is closed the piece is then being marked. */
  function HashDone(s: State, i: PieceId, correct: bool, order: seq<nat>): State
    requires i in s.pieces && i.t < |s.torrents| && forall u <- order :: u < |s.torrents|
  {
    var pc := Verified(s.pieces[i]);
    var rest := s.hashers - multiset{Hashes(i)};
    if s.torrents[i.t].closed then FinishHash(s.(pieces := s.pieces[i := pc], hashers := rest), i.t, order)
    else s.(pieces := s.pieces[i := pc.(marking := true)], hashers := rest + multiset{Marks(i, correct)})
  }

  /** A completion state is recorded as a change; the chunks of a complete piece, and of
      a fully dirty one that turned out incomplete, are wanted afresh. */
  function SetCompletion(pc: Piece, completion: Option<bool>): Piece
  {
    pc.(dirty := if completion == Some(true) || pc.AllDirty() then {} else pc.dirty, completion := completion)
  }

  function Unmarked(pc: Piece, passed: bool, closed: bool): Piece
  {
    (if closed then pc else SetCompletion(pc, Some(passed))).(marking := false)
  }

  /** Storage has been told the outcome; the piece leaves the marking state. */
  function MarkDone(s: State, i: PieceId, passed: bool, order: seq<nat>): State
    requires i in s.pieces && i.t < |s.torrents| && forall u <- order :: u < |s.torrents|
  {
    FinishHash(
      s.(pieces := s.pieces[i := Unmarked(s.pieces[i], passed, s.torrents[i.t].closed)],
         hashers := s.hashers - multiset{Marks(i, passed)}),
      i.t, order)
  }

  /** The completion of a piece is fetched again from storage; without a change
      nothing is wanted afresh. */
  function UpdateCompletion(s: State, i: PieceId, completion: Option<bool>): State
    requires i in s.pieces
  {
    if completion == s.pieces[i].completion then s
    else s.(pieces := s.pieces[i := SetCompletion(s.pieces[i], completion)])
  }

  /** Queues a check of the piece and records what the caller will wait for. */
  function VerifyData(s: State, i: PieceId): State
    requires i in s.pieces && i.t < |s.torrents|
  {
    var r := QueuePieceCheck(s, i);
    r.(waiters := r.waiters + {Waiter(i, s.pieces[i].NextNovelHashCount())})
  }

  function NewPieces(t: nat, chunks: seq<nat>): map<PieceId, Piece>
  {
    map p: nat | p < |chunks| :: PieceId(t, p) := Piece(chunks[p], {}, 0, false, 0, false, false, None)
  }

  function WithTorrent(s: State, chunks: seq<nat>): State
  {
    s.(torrents := s.torrents + [Torrent(|chunks|, 0, false)], pieces := s.pieces + NewPieces(|s.torrents|, chunks))
  }

  /** A new piece gets the completion storage knows; when none is known and checks are
      made, one is queued, unless the piece was hashed or is. */
  function InitialPiece(s: State, i: PieceId, stored: Option<bool>, check: bool): (r: State)
    requires i in s.pieces && i.t < |s.torrents|
    ensures |r.torrents| == |s.torrents| && r.pieces.Keys == s.pieces.Keys
  {
    var pc := SetCompletion(s.pieces[i], stored);
    var s' := s.(pieces := s.pieces[i := pc]);
    if check && pc.numVerifies == 0 && !pc.hashing && pc.completion.None? then QueuePieceCheck(s', i) else s'
  }

  function InitialPieces(s: State, t: nat, stored: seq<Option<bool>>, check: bool, from: nat := 0): (r: State)
    requires t < |s.torrents| && from <= |stored| && forall p: nat | p < |stored| :: PieceId(t, p) in s.pieces
    ensures |r.torrents| == |s.torrents| && r.pieces.Keys == s.pieces.Keys
    decreases |stored| - from
  {
    if from == |stored| then s
    else InitialPieces(InitialPiece(s, PieceId(t, from), stored[from], check), t, stored, check, from + 1)
  }

  /** The info of a torrent arrives: its pieces appear, one after the other. */
  function SetInfo(s: State, chunks: seq<nat>, stored: seq<Option<bool>>, check: bool): State
    requires |stored| == |chunks|
  {
    StartPieceHashers(InitialPieces(WithTorrent(s, chunks), |s.torrents|, stored, check), |s.torrents|)
  }

  datatype Event =
    | Receive(conn: nat, to: PieceId, chunk: nat)
    | Written(writer: nat, ok: bool)
    | Verify(piece: PieceId)
    | Hashed(hashed: PieceId, correct: bool, next: seq<nat>)
    | Marked(marked: PieceId, passed: bool, after: seq<nat>)
    | Refresh(stored: PieceId, completion: Option<bool>)
    | Close(torrent: nat)
    | Info(chunks: seq<nat>, completions: seq<Option<bool>>, check: bool)

  /** `order` visits every open torrent. */
  predicate Visits(s: State, order: seq<nat>)
  {
    && (forall u <- order :: u < |s.torrents|)
    && (forall u: nat | u < |s.torrents| && !s.torrents[u].closed :: u in order)
  }

  /** A chunk is taken only for an open torrent whose piece is neither complete nor
      has the chunk; a verification only starts on an open torrent. */
  predicate Enabled(s: State, e: Event)
  {
    match e
    case Receive(conn, i, c) =>
      conn !in s.writers && i in s.pieces && i.t < |s.torrents| && !s.torrents[i.t].closed
      && c < s.pieces[i].numChunks && !s.pieces[i].Complete() && c !in s.pieces[i].dirty
    case Written(conn, _) => conn in s.writers
    case Verify(i) => i in s.pieces && i.t < |s.torrents| && !s.torrents[i.t].closed
    case Hashed(i, _, order) => Hashes(i) in s.hashers && Visits(s, order)
    case Marked(i, passed, order) => Marks(i, passed) in s.hashers && Visits(s, order)
    case Refresh(i, _) => i in s.pieces
    case Close(t) => t < |s.torrents|
    case Info(chunks, stored, _) => |stored| == |chunks| && forall n <- chunks :: n >= 1
  }

  function Next(s: State, e: Event): State
    requires Inv(s) && Enabled(s, e)
  {
    match e
    case Receive(conn, i, c) => BeginWrite(s, conn, i, c)
    case Written(conn, ok) =>
      assert PieceFine(s, s.writers[conn].i) && conn in WritersOf(s.writers, s.writers[conn].i);
      EndWrite(s, conn, ok)
    case Verify(i) => VerifyData(s, i)
    case Hashed(i, correct, order) => HashDone(s, i, correct, order)
    case Marked(i, passed, order) => MarkDone(s, i, passed, order)
    case Refresh(i, completion) => UpdateCompletion(s, i, completion)
    case Close(t) => s.(torrents := s.torrents[t := s.torrents[t].(closed := true)])
    case Info(chunks, stored, check) => SetInfo(s, chunks, stored, check)
  }

  // ---- the invariant

  ghost function BusyPieces(pieces: map<PieceId, Piece>, t: nat): set<PieceId>
  {
    set i | i in pieces && i.t == t && pieces[i].Busy()
  }

  ghost function TotalActive(ts: seq<Torrent>): int
  {
    if ts == [] then 0 else ts[0].activePieceHashes + TotalActive(ts[1..])
  }

  ghost function WritersOf(writers: map<nat, Write>, i: PieceId): set<nat>
  {
    set k | k in writers && writers[k].i == i
  }

  function Limit(n: int): int { if n < 0 then 0 else n }

  /** The flags of a piece say what the one hasher on it does, if any, and
      pendingWrites counts the connections writing to it. */
  ghost predicate Matches(pc: Piece, hashes: nat, marks: nat, writes: nat)
  {
    && !(pc.hashing && pc.marking)
    && hashes == (if pc.hashing then 1 else 0)
    && marks == (if pc.marking then 1 else 0)
    && pc.numChunks >= 1 && (forall c <- pc.dirty :: c < pc.numChunks)
    && pc.pendingWrites == writes
  }

  ghost predicate PieceFine(s: State, i: PieceId)
    requires i in s.pieces
  {
    Matches(s.pieces[i], s.hashers[Hashes(i)], s.hashers[Marks(i, true)] + s.hashers[Marks(i, false)],
            |WritersOf(s.writers, i)|)
  }

  ghost predicate WaiterKept(s: State, w: Waiter)
  {
    w.i in s.pieces && w.target <= s.pieces[w.i].Promised()
  }

  ghost predicate CountAgrees(s: State, t: nat)
    requires t < |s.torrents|
  {
    s.torrents[t].activePieceHashes == |BusyPieces(s.pieces, t)| <= Limit(s.perTorrentLimit)
  }

  /** No queued piece that could be hashed waits while a hasher may be started. */
  ghost predicate NoIdleHasher(s: State, t: nat)
    requires t < |s.torrents|
  {
    s.torrents[t].closed || (forall i <- s.pieces | i.t == t :: !s.pieces[i].Eligible())
    || s.torrents[t].activePieceHashes >= s.perTorrentLimit || !s.CanStart()
  }

  ghost predicate InRange(s: State)
  {
    && (forall i <- s.pieces :: i.t < |s.torrents| && i.p < s.torrents[i.t].numPieces)
    && (forall h <- s.hashers :: h.i in s.pieces)
    && (forall k <- s.writers :: s.writers[k].i in s.pieces && s.writers[k].chunk < s.pieces[s.writers[k].i].numChunks)
  }

  ghost predicate Core(s: State)
  {
    && InRange(s)
    && (forall i <- s.pieces :: PieceFine(s, i))
    && (forall t: nat | t < |s.torrents| :: CountAgrees(s, t))
    && s.activePieceHashers == TotalActive(s.torrents) <= Limit(s.clientLimit)
  }

  ghost predicate NoneStuck(s: State)
    requires InRange(s)
  {
    forall i <- s.pieces :: s.pieces[i].NotStuck(s.torrents[i.t].closed)
  }

  ghost predicate WaitersKept(s: State) { forall w <- s.waiters :: WaiterKept(s, w) }

  ghost predicate BusyEnough(s: State) { forall t: nat | t < |s.torrents| :: NoIdleHasher(s, t) }

  ghost predicate Inv(s: State)
  {
    Core(s) && NoneStuck(s) && WaitersKept(s) && BusyEnough(s)
  }

  ghost predicate Init(s: State)
  {
    s.torrents == [] && s.pieces == map[] && s.activePieceHashers == 0
    && s.hashers == multiset{} && s.writers == map[] && s.waiters == {}
  }
}
