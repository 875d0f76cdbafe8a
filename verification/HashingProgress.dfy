/** That hashers come to an end: how much is left for them to do, and what holds when
    none is at work. */
module HashingProgress {
  import opened Arithmetic
  import opened Hashing
  import opened HashingProofs
  import opened Options
  import opened Sets

  // ---- how many sections hashers have before them

  /** A piece being marked needs one more section of a hasher, and one that is hashed or
      is to be hashed two for each. */
  function PieceWork(pc: Piece): nat { 2 * Bit(pc.queued) + 2 * Bit(pc.hashing) + Bit(pc.marking) }

  ghost function QueuedSet(pieces: map<PieceId, Piece>): set<PieceId> { set i | i in pieces && pieces[i].queued }

  ghost function HashingSet(pieces: map<PieceId, Piece>): set<PieceId> { set i | i in pieces && pieces[i].hashing }

  ghost function MarkingSet(pieces: map<PieceId, Piece>): set<PieceId> { set i | i in pieces && pieces[i].marking }

  /** The sum of that over the pieces. */
  ghost function Work(pieces: map<PieceId, Piece>): nat
  {
    2 * |QueuedSet(pieces)| + 2 * |HashingSet(pieces)| + |MarkingSet(pieces)|
  }

  lemma {:induction false} MemberSize(s: set<PieceId>, i: PieceId, b: bool, r: set<PieceId>)
    requires r == if b then s + {i} else s - {i}
    ensures |r| == |s| + Bit(b) - Bit(i in s)
  {
    assert s - {i} + {i} == if i in s then s else s + {i};
  }

  lemma {:induction false} SetsAfter(pieces: map<PieceId, Piece>, i: PieceId, pc: Piece)
    requires i in pieces
    ensures var next := pieces[i := pc];
      && QueuedSet(next) == (if pc.queued then QueuedSet(pieces) + {i} else QueuedSet(pieces) - {i})
      && HashingSet(next) == (if pc.hashing then HashingSet(pieces) + {i} else HashingSet(pieces) - {i})
      && MarkingSet(next) == (if pc.marking then MarkingSet(pieces) + {i} else MarkingSet(pieces) - {i})
    ensures pieces[i].queued == (i in QueuedSet(pieces)) && pieces[i].hashing == (i in HashingSet(pieces)) && pieces[i].marking == (i in MarkingSet(pieces))
  {
  }

  lemma {:induction false} WorkAfter(pieces: map<PieceId, Piece>, i: PieceId, pc: Piece)
    requires i in pieces
    ensures Work(pieces[i := pc]) == Work(pieces) + PieceWork(pc) - PieceWork(pieces[i])
  {
    hide QueuedSet, HashingSet, MarkingSet;
    var next := pieces[i := pc];
    SetsAfter(pieces, i, pc);
    MemberSize(QueuedSet(pieces), i, pc.queued, QueuedSet(next));
    MemberSize(HashingSet(pieces), i, pc.hashing, HashingSet(next));
    MemberSize(MarkingSet(pieces), i, pc.marking, MarkingSet(next));
  }

  /** Starting a hash moves work, and neither makes nor ends any. */
  lemma {:induction false} StartsKeepWork(s: State, r: State)
    requires StartsOnly(s, r)
    ensures Work(r.pieces) == Work(s.pieces)
  {
    var begun := set i | i in s.pieces && s.pieces[i].queued && !r.pieces[i].queued;
    StartedPieces(s, r, begun);
    hide StartsOnly, QueuedSet, HashingSet, MarkingSet;
    assert QueuedSet(s.pieces) == QueuedSet(r.pieces) + begun;
  }

  lemma {:induction false} StartedPieces(s: State, r: State, begun: set<PieceId>)
    requires StartsOnly(s, r) && begun == set i | i in s.pieces && s.pieces[i].queued && !r.pieces[i].queued
    ensures QueuedSet(s.pieces) == QueuedSet(r.pieces) + begun && QueuedSet(r.pieces) !! begun
    ensures HashingSet(r.pieces) == HashingSet(s.pieces) + begun && HashingSet(s.pieces) !! begun
    ensures MarkingSet(r.pieces) == MarkingSet(s.pieces)
  {
    assert forall i <- s.pieces :: MayStart(s.pieces[i], r.pieces[i]);
  }

  lemma {:induction false} EnqueueWork(s: State, i: PieceId)
    requires i in s.pieces
    ensures Work(Enqueue(s, i).pieces) <= Work(s.pieces) + 2
  {
    WorkAfter(s.pieces, i, s.pieces[i].(queued := true));
    hide Work;
  }

  /** A check queues one piece at most. */
  lemma {:induction false} CheckWork(s: State, i: PieceId)
    requires Inv(s) && i in s.pieces && i.t < |s.torrents|
    ensures Work(QueuePieceCheck(s, i).pieces) <= Work(s.pieces) + 2
  {
    hide *;
    CheckKeeps(s, i);
    EnqueueWork(s, i);
    StartsKeepWork(Enqueue(s, i), QueuePieceCheck(s, i));
  }

  // ---- what each event does to the work

  predicate ByHasher(e: Event) { e.Hashed? || e.Marked? }

  /** How much work an event may add; a section of a hasher takes some away. */
  function Added(e: Event): int
  {
    match e
    case Written(_, _) => 2
    case Verify(_) => 2
    case Info(chunks, _, _) => 2 * |chunks|
    case Hashed(_, _, _) => -1
    case Marked(_, _, _) => -1
    case _ => 0
  }

  lemma {:induction false} WroteWork(s: State, i: PieceId, pc: Piece, ws: map<nat, Write>, c: nat, ok: bool)
    requires i in s.pieces && i.t < |s.torrents| && s.pieces[i].pendingWrites > 0 && pc == Wrote(s.pieces[i], c, ok)
    ensures var m := Change(s, i, pc, s.hashers, ws, 0);
      m.pieces == s.pieces[i := pc] && i in m.pieces && PieceWork(pc) == PieceWork(s.pieces[i])
  {
  }

  lemma {:induction false} EndWriteWork(s: State, conn: nat, ok: bool)
    requires Inv(s) && conn in s.writers
    requires var i := s.writers[conn].i; i in s.pieces && i.t < |s.torrents| && s.pieces[i].pendingWrites > 0
    ensures Work(EndWrite(s, conn, ok).pieces) <= Work(s.pieces) + 2
  {
    hide *;
    var i, c, r := s.writers[conn].i, s.writers[conn].chunk, EndWrite(s, conn, ok);
    var pc := Wrote(s.pieces[i], c, ok);
    var m := Change(s, i, pc, s.hashers, s.writers - {conn}, 0);
    WroteWork(s, i, pc, s.writers - {conn}, c, ok);
    EndWriteKeeps(s, conn, ok);
    WorkAfter(s.pieces, i, pc);
    EnqueueWork(m, i);
    if StartsOnly(m, r) { StartsKeepWork(m, r); } else { StartsKeepWork(Enqueue(m, i), r); }
  }

  /** A hasher's section on a piece takes away at least one. */
  lemma {:induction false} SettledWork(s: State, i: PieceId, pc: Piece, hs: multiset<Hasher>, r: State)
    requires i in s.pieces && i.t < |s.torrents| && PieceWork(pc) < PieceWork(s.pieces[i]) && StartsOnly(Settled(s, i, pc, hs), r)
    ensures Work(r.pieces) < Work(s.pieces)
  {
    assert Settled(s, i, pc, hs).pieces == s.pieces[i := pc];
    hide Work, PieceWork, StartsOnly, Settled;
    StartsKeepWork(Settled(s, i, pc, hs), r);
    WorkAfter(s.pieces, i, pc);
  }

  lemma {:induction false} VerifiedWork(pc: Piece)
    requires pc.hashing && !pc.marking
    ensures PieceWork(Verified(pc)) < PieceWork(pc) && PieceWork(Verified(pc).(marking := true)) < PieceWork(pc)
  {
  }

  lemma {:induction false} UnmarkedWork(pc: Piece, passed: bool, closed: bool)
    requires pc.marking
    ensures PieceWork(Unmarked(pc, passed, closed)) < PieceWork(pc)
  {
  }

  lemma {:induction false} ChangePieces(s: State, i: PieceId, pc: Piece, hs: multiset<Hasher>)
    requires i.t < |s.torrents|
    ensures Change(s, i, pc, hs, s.writers, 0).pieces == s.pieces[i := pc]
  {
  }

  lemma {:induction false} HashDoneWork(s: State, i: PieceId, correct: bool, order: seq<nat>)
    requires Inv(s) && Enabled(s, Hashed(i, correct, order))
    ensures i in s.pieces && i.t < |s.torrents| && (forall u <- order :: u < |s.torrents|) && Work(HashDone(s, i, correct, order).pieces) < Work(s.pieces)
  {
    hide *;
    EnabledHasher(s, i, correct, order);
    HasherOpened(s, Hashes(i), order);
    HashDoneKeeps(s, i, correct, order);
    HashDoneIs(s, i, correct, order);
    VerifiedWork(s.pieces[i]);
    var pc, rest := Verified(s.pieces[i]), s.hashers - multiset{Hashes(i)};
    if s.torrents[i.t].closed {
      SettledWork(s, i, pc, rest, HashDone(s, i, correct, order));
    } else {
      ChangePieces(s, i, pc.(marking := true), rest + multiset{Marks(i, correct)});
      WorkAfter(s.pieces, i, pc.(marking := true));
    }
  }

  lemma {:induction false} MarkDoneWork(s: State, i: PieceId, passed: bool, order: seq<nat>)
    requires Inv(s) && Enabled(s, Marked(i, passed, order))
    ensures i in s.pieces && i.t < |s.torrents| && (forall u <- order :: u < |s.torrents|) && Work(MarkDone(s, i, passed, order).pieces) < Work(s.pieces)
  {
    hide *;
    EnabledHasher(s, i, passed, order);
    HasherOpened(s, Marks(i, passed), order);
    MarkDoneKeeps(s, i, passed, order);
    UnmarkedWork(s.pieces[i], passed, s.torrents[i.t].closed);
    SettledWork(s, i, Unmarked(s.pieces[i], passed, s.torrents[i.t].closed), s.hashers - multiset{Marks(i, passed)}, MarkDone(s, i, passed, order));
  }

  lemma {:induction false} InitialPieceWork(s: State, i: PieceId, stored: Option<bool>, check: bool)
    requires Inv(s) && i in s.pieces && i.t < |s.torrents|
    ensures Inv(InitialPiece(s, i, stored, check)) && Work(InitialPiece(s, i, stored, check).pieces) <= Work(s.pieces) + 2
  {
    var pc := SetCompletion(s.pieces[i], stored);
    var m := s.(pieces := s.pieces[i := pc]);
    assert PieceWork(pc) == PieceWork(s.pieces[i]);
    hide Inv, Work, PieceWork, QueuePieceCheck, SetCompletion;
    InitialPieceKeeps(s, i, stored, check);
    CompletionKeeps(s, i, stored);
    WorkAfter(s.pieces, i, pc);
    CheckWork(m, i);
  }

  lemma {:induction false} InitialPiecesWork(s: State, t: nat, stored: seq<Option<bool>>, check: bool, from: nat)
    requires Inv(s) && t < |s.torrents| && from <= |stored| && forall p: nat | p < |stored| :: PieceId(t, p) in s.pieces
    ensures Work(InitialPieces(s, t, stored, check, from).pieces) <= Work(s.pieces) + 2 * (|stored| - from)
    decreases |stored| - from
  {
    hide Inv, InitialPiece, Work;
    if from < |stored| {
      InitialPieceWork(s, PieceId(t, from), stored[from], check);
      InitialPiecesWork(InitialPiece(s, PieceId(t, from), stored[from], check), t, stored, check, from + 1);
    }
  }

  lemma {:induction false} NewPiecesIdle(s: State, chunks: seq<nat>, i: PieceId)
    requires i in WithTorrent(s, chunks).pieces && i !in s.pieces
    ensures var pc := WithTorrent(s, chunks).pieces[i]; !pc.queued && !pc.hashing && !pc.marking
  {
  }

  lemma {:induction false} WithTorrentWork(s: State, chunks: seq<nat>)
    requires InRange(s)
    ensures Work(WithTorrent(s, chunks).pieces) == Work(s.pieces)
  {
    var r := WithTorrent(s, chunks);
    hide InRange, WithTorrent;
    forall i <- s.pieces ensures i in r.pieces && r.pieces[i] == s.pieces[i] { NewPiecesElsewhere(s, chunks, i); }
    forall i <- r.pieces | i !in s.pieces ensures !r.pieces[i].queued && !r.pieces[i].hashing && !r.pieces[i].marking { NewPiecesIdle(s, chunks, i); }
    assert QueuedSet(r.pieces) == QueuedSet(s.pieces) && HashingSet(r.pieces) == HashingSet(s.pieces) && MarkingSet(r.pieces) == MarkingSet(s.pieces);
  }

  lemma {:induction false} InfoWork(s: State, chunks: seq<nat>, stored: seq<Option<bool>>, check: bool)
    requires Inv(s) && Enabled(s, Info(chunks, stored, check))
    ensures |stored| == |chunks| && Work(SetInfo(s, chunks, stored, check).pieces) <= Work(s.pieces) + 2 * |chunks|
  {
    CoreInRange(s);
    hide *;
    EnabledInfo(s, chunks, stored, check);
    WithTorrentIs(s, chunks);
    WithTorrentWork(s, chunks);
    var t, m := |s.torrents|, WithTorrent(s, chunks);
    var r := InitialPieces(m, t, stored, check);
    InitialPiecesKeep(m, t, stored, check, 0);
    InitialPiecesWork(m, t, stored, check, 0);
    SetInfoIs(s, chunks, stored, check, r);
    StartKeeps(r, t);
    StartsKeepWork(r, StartPieceHashers(r, t));
  }

  lemma {:induction false} WrittenWorks(s: State, conn: nat, ok: bool)
    requires Inv(s) && Enabled(s, Written(conn, ok))
    ensures Work(Next(s, Written(conn, ok)).pieces) <= Work(s.pieces) + Added(Written(conn, ok))
  {
    WriteOngoing(s, conn);
    hide Inv, Work, EndWrite, PieceFine;
    EndWriteWork(s, conn, ok);
  }

  lemma {:induction false} HasherWorks(s: State, e: Event)
    requires Inv(s) && Enabled(s, e) && ByHasher(e)
    ensures Work(Next(s, e).pieces) <= Work(s.pieces) + Added(e)
  {
    hide Inv, Work, HashDone, MarkDone;
    match e
    case Hashed(i, correct, order) => HashDoneWork(s, i, correct, order);
    case Marked(i, passed, order) => MarkDoneWork(s, i, passed, order);
  }

  lemma {:induction false} QueueWorks(s: State, e: Event)
    requires Inv(s) && Enabled(s, e) && (e.Verify? || e.Info?)
    ensures Work(Next(s, e).pieces) <= Work(s.pieces) + Added(e)
  {
    hide Inv, Work, QueuePieceCheck, SetInfo;
    match e
    case Verify(i) => CheckWork(s, i);
    case Info(chunks, stored, check) => InfoWork(s, chunks, stored, check);
  }

  lemma {:induction false} OtherWorks(s: State, e: Event)
    requires Inv(s) && Enabled(s, e) && (e.Receive? || e.Refresh? || e.Close?)
    ensures Work(Next(s, e).pieces) <= Work(s.pieces) + Added(e)
  {
    hide Inv, Work;
    match e
    case Receive(conn, i, c) => WorkAfter(s.pieces, i, BeginWrite(s, conn, i, c).pieces[i]);
    case Refresh(i, completion) => WorkAfter(s.pieces, i, SetCompletion(s.pieces[i], completion));
    case Close(t) =>
  }

  lemma {:induction false} EveryEventWorks(s: State, e: Event)
    requires Inv(s) && Enabled(s, e)
    ensures Work(Next(s, e).pieces) <= Work(s.pieces) + Added(e)
  {
    hide Inv, Work, Enabled, Next, Added;
    match e
    case Written(conn, ok) => WrittenWorks(s, conn, ok);
    case Hashed(_, _, _) => HasherWorks(s, e);
    case Marked(_, _, _) => HasherWorks(s, e);
    case Verify(_) => QueueWorks(s, e);
    case Info(_, _, _) => QueueWorks(s, e);
    case _ => OtherWorks(s, e);
  }

  // ---- over runs

  function TotalAdded(events: seq<Event>): int
  {
    if events == [] then 0 else Added(events[0]) + TotalAdded(events[1..])
  }

  /** Main result on the work: over any run, hashers have no more sections than the work
      at the start and what the other events add. */
  lemma {:induction false} RunWorks(s: State, events: seq<Event>)
    requires Inv(s) && Legal(s, events)
    ensures Work(After(s, events).pieces) <= Work(s.pieces) + TotalAdded(events)
    decreases |events|
  {
    hide Inv, Work, Next, Enabled;
    if events != [] {
      EveryEventKeepsInv(s, events[0]);
      EveryEventWorks(s, events[0]);
      RunWorks(Next(s, events[0]), events[1..]);
    }
  }

  lemma {:induction false} HashersTakeAway(events: seq<Event>)
    requires forall e <- events :: ByHasher(e)
    ensures TotalAdded(events) == -|events|
  {
    if events != [] {
      assert events[0] in events && forall e <- events[1..] :: e in events;
      HashersTakeAway(events[1..]);
    }
  }

  // ---- when no hasher is at work

  lemma {:induction false} NoneActive(ts: seq<Torrent>)
    requires forall t: nat | t < |ts| :: ts[t].activePieceHashes == 0
    ensures TotalActive(ts) == 0
  {
    if ts != [] { NoneActive(ts[1..]); }
  }

  lemma {:induction false} NobodyBusy(s: State)
    requires Core(s) && s.hashers == multiset{}
    ensures forall i <- s.pieces :: !s.pieces[i].Busy()
    ensures (forall t: nat | t < |s.torrents| :: s.torrents[t].activePieceHashes == 0) && s.activePieceHashers == 0
  {
    forall i <- s.pieces ensures !s.pieces[i].Busy() { assert PieceFine(s, i); }
    forall t: nat | t < |s.torrents| ensures s.torrents[t].activePieceHashes == 0 {
      assert CountAgrees(s, t) && BusyPieces(s.pieces, t) == {};
    }
    NoneActive(s.torrents);
  }

  /** Then nothing is left to do on an open torrent, and no wait on one goes on. */
  lemma {:induction false} QuietMeansServed(s: State, w: Waiter)
    requires Inv(s) && s.hashers == multiset{} && s.perTorrentLimit > 0 && s.clientLimit > 0
    requires w in s.waiters && w.i.t < |s.torrents| && !s.torrents[w.i.t].closed
    ensures w.i in s.pieces && !s.pieces[w.i].queued && w.target <= s.pieces[w.i].numVerifies
  {
    NobodyBusy(s);
    assert WaiterKept(s, w) && NoIdleHasher(s, w.i.t);
  }

  lemma {:induction false} EveryTorrent(s: State) returns (order: seq<nat>)
    ensures Visits(s, order)
  {
    order := seq(|s.torrents|, t => t);
    forall u: nat | u < |s.torrents| ensures u in order { assert order[u] == u; }
  }

  /** A hasher at work can take its next section, whatever the outcome. */
  lemma {:induction false} HasherGoesOn(s: State) returns (e: Event)
    requires Inv(s) && s.hashers != multiset{}
    ensures ByHasher(e) && Enabled(s, e)
  {
    var order := EveryTorrent(s);
    hide Inv, Visits;
    var h :| h in s.hashers;
    match h
    case Hashes(i) => e := Hashed(i, true, order);
    case Marks(i, passed) => e := Marked(i, passed, order);
  }

  /** Main result for waits: when nobody but hashers does anything, they take no more
      sections than there was work; as long as one is at work there is a next; and when
      none is, every caller that waits on an open torrent has what it waits for. */
  lemma {:induction false} WaitEnds(s: State, events: seq<Event>, w: Waiter)
    requires Inv(s) && Legal(s, events) && (forall e <- events :: ByHasher(e)) && s.perTorrentLimit > 0 && s.clientLimit > 0
    requires w in s.waiters
    ensures |events| <= Work(s.pieces)
    ensures var r := After(s, events);
      || (exists e :: ByHasher(e) && Enabled(r, e))
      || (w in r.waiters && w.i in r.pieces && w.i.t < |r.torrents| && (r.torrents[w.i.t].closed || w.target <= r.pieces[w.i].numVerifies))
  {
    RunWorks(s, events);
    HashersTakeAway(events);
    var r := After(s, events);
    HashersKeep(s, events);
    hide Work, After, TotalAdded;
    if r.hashers != multiset{} {
      var e := HasherGoesOn(r);
    } else {
      WaiterInRange(r, w);
      if !r.torrents[w.i.t].closed { QuietMeansServed(r, w); }
    }
  }

  lemma {:induction false} WaiterInRange(s: State, w: Waiter)
    requires Inv(s) && w in s.waiters
    ensures w.i in s.pieces && w.i.t < |s.torrents|
  {
    assert WaiterKept(s, w) && InRange(s);
  }

  lemma {:induction false} StartsKeepWaiters(s: State, t: nat)
    requires t < |s.torrents|
    ensures var r := StartPieceHashers(s, t); r.waiters == s.waiters && r.perTorrentLimit == s.perTorrentLimit && r.clientLimit == s.clientLimit
    decreases s.perTorrentLimit - s.torrents[t].activePieceHashes
  {
    if !s.torrents[t].closed && s.ConsiderStarting(t) && s.PieceToHash(t).Some? {
      StartsKeepWaiters(StartHash(s, PieceId(t, s.PieceToHash(t).value)), t);
    }
  }

  lemma {:induction false} AllStartsKeepWaiters(s: State, order: seq<nat>)
    requires forall t <- order :: t < |s.torrents|
    ensures var r := StartAllHashers(s, order); r.waiters == s.waiters && r.perTorrentLimit == s.perTorrentLimit && r.clientLimit == s.clientLimit
    decreases |order|
  {
    hide StartPieceHashers;
    if order != [] && s.CanStart() {
      assert order[0] in order && forall t <- order[1..] :: t in order;
      StartsKeepWaiters(s, order[0]);
      AllStartsKeepWaiters(StartPieceHashers(s, order[0]), order[1..]);
    }
  }

  lemma {:induction false} FinishKeepsWaiters(s: State, t: nat, order: seq<nat>)
    requires t < |s.torrents| && forall u <- order :: u < |s.torrents|
    ensures var r := FinishHash(s, t, order); r.waiters == s.waiters && r.perTorrentLimit == s.perTorrentLimit && r.clientLimit == s.clientLimit
  {
    AllStartsKeepWaiters(s.Count(t, -1), order);
    hide StartAllHashers;
  }

  /** Hashers leave the waiters and the limits alone. */
  lemma {:induction false} HasherKeeps(s: State, e: Event)
    requires Inv(s) && Enabled(s, e) && ByHasher(e)
    ensures var r := Next(s, e); r.waiters == s.waiters && r.perTorrentLimit == s.perTorrentLimit && r.clientLimit == s.clientLimit
  {
    hide Inv, FinishHash, Change, HashDone, MarkDone, Visits;
    match e
    case Hashed(i, correct, order) =>
      HasherOpened(s, Hashes(i), order);
      HashDoneIs(s, i, correct, order);
      ChangeKeepsWaiters(s, i, Verified(s.pieces[i]), s.hashers - multiset{Hashes(i)});
      ChangeKeepsWaiters(s, i, Verified(s.pieces[i]).(marking := true), s.hashers - multiset{Hashes(i)} + multiset{Marks(i, correct)});
      if s.torrents[i.t].closed {
        FinishKeepsWaiters(Change(s, i, Verified(s.pieces[i]), s.hashers - multiset{Hashes(i)}, s.writers, 0), i.t, order);
      }
    case Marked(i, passed, order) =>
      HasherOpened(s, Marks(i, passed), order);
      MarkDoneIs(s, i, passed, order);
      var pc, hs := Unmarked(s.pieces[i], passed, s.torrents[i.t].closed), s.hashers - multiset{Marks(i, passed)};
      ChangeKeepsWaiters(s, i, pc, hs);
      FinishKeepsWaiters(Change(s, i, pc, hs, s.writers, 0), i.t, order);
  }

  lemma {:induction false} ChangeKeepsWaiters(s: State, i: PieceId, pc: Piece, hs: multiset<Hasher>)
    requires i.t < |s.torrents|
    ensures var r := Change(s, i, pc, hs, s.writers, 0);
      |r.torrents| == |s.torrents| && r.waiters == s.waiters && r.perTorrentLimit == s.perTorrentLimit && r.clientLimit == s.clientLimit
  {
  }

  lemma {:induction false} HashersKeep(s: State, events: seq<Event>)
    requires Inv(s) && Legal(s, events) && forall e <- events :: ByHasher(e)
    ensures var r := After(s, events); r.waiters == s.waiters && r.perTorrentLimit == s.perTorrentLimit && r.clientLimit == s.clientLimit
    decreases |events|
  {
    hide Inv, Next, Enabled;
    if events != [] {
      assert events[0] in events && forall e <- events[1..] :: e in events;
      EveryEventKeepsInv(s, events[0]);
      HasherKeeps(s, events[0]);
      HashersKeep(Next(s, events[0]), events[1..]);
    }
  }
}
