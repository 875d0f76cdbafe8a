/** Request ownership: which connection has asked for which chunk.

    A `PeerConn` keeps its outstanding and cancelled requests and a credit per
    chunk it may still receive. The `Torrent` keeps one owner per chunk. Every
    operation is a method on these objects. The panics over this bookkeeping are
    assertions in the bodies, so verification shows that none of them can fire: a
    missing or foreign owner, a request that should exist or should not, a cancel
    made twice, a chunk without credit, too many requests, a buffer that fills up,
    and state left behind by the last connection. A request on a closed connection is
    ruled out by precondition. The other panics of the check before a request (an
    inactive connection, a piece being hashed, marked or queued, a choke) concern
    state this module does not have. */
module Requests {
  import opened Arithmetic
  import opened Options
  import opened Stealing

  type RequestIndex = nat

  // Wire sizes and buffer marks that bound how much one request update may write.
  const INTERESTED_MSG_LEN: nat := 5
  const REQUEST_MSG_LEN: nat := 17
  const WRITE_BUFFER_HIGH: nat := 32768
  const WRITE_BUFFER_LOW: nat := WRITE_BUFFER_HIGH / 2
  const MAX_LOCAL_TO_REMOTE: nat :=
    (WRITE_BUFFER_HIGH - WRITE_BUFFER_LOW - INTERESTED_MSG_LEN) / REQUEST_MSG_LEN

  /** Why a connection wants to recompute its requests; the first reason wins. */
  datatype Reason = NoReason | PeerCancel | RemoteReject | Other

  class Torrent {
    var conns: set<PeerConn>
    var requestState: map<RequestIndex, PeerConn>

    constructor ()
      ensures Valid() && conns == {} && requestState == map[]
    {
      conns := {};
      requestState := map[];
    }

    /** The owner map and the request sets of the connections in `s` are the same
        relation, and every connection in `s` is well formed on its own. */
    ghost predicate ValidFor(s: set<PeerConn>)
      reads this`requestState, s`requests, s`cancelled, s`validReceiveChunks
    {
      && (forall c <- s :: c.t == this && c.Local())
      && (forall r <- requestState :: requestState[r] in s)
      && (forall c <- s, r :: r in c.requests <==> r in requestState && requestState[r] == c)
    }

    ghost predicate Valid()
      reads this`conns, this`requestState, conns`requests, conns`cancelled, conns`validReceiveChunks
    {
      ValidFor(conns)
    }

    method AddConn(c: PeerConn)
      requires Valid() && c !in conns
      requires c.t == this && c.Local() && c.requests == {}
      modifies this`conns
      ensures Valid() && conns == old(conns) + {c}
    {
      conns := conns + {c};
    }

    /** The connection that has chunk `r`, if any. */
    ghost function Owner(r: RequestIndex): set<PeerConn>
      reads this`requestState
    {
      if r in requestState then {requestState[r]} else {}
    }

    lemma {:induction false} ValidIs()
      ensures Valid() <==> ValidFor(conns)
    {
    }

    lemma {:induction false} OwnerHas(r: RequestIndex)
      requires Valid() && r in requestState
      ensures requestState[r] in conns && r in requestState[r].requests
    {
    }

    /** Cancels whoever has chunk `r`; afterwards nobody has. */
    method CancelRequest(r: RequestIndex) returns (p: PeerConn?)
      requires Valid()
      modifies this`requestState
      modifies Owner(r)`requests, Owner(r)`cancelled, Owner(r)`writeBuffer, Owner(r)`peakRequests, Owner(r)`needRequestUpdate
      ensures Valid() && requestState == old(requestState) - {r}
      ensures p == if r in old(requestState) then old(requestState[r]) else null
      ensures p != null ==> p.requests == old(p.requests) - {r}
                            && p.cancelled == if p.RemoteRejectsCancels() then old(p.cancelled) + {r} else old(p.cancelled)
    {
      p := null;
      if r in requestState {
        p := requestState[r];
        p.Cancel(r, conns);
      }
      assert r !in requestState;  // panic: expected request state to be gone
    }

    /** A chunk arrived on `c`. When it is wanted, whoever else still asks for it
        is told to stop; `c` itself can no longer be asking for it. */
    method ReceiveChunk(c: PeerConn, r: RequestIndex, wanted: bool, now: int)
      returns (intended: bool, unexpected: bool)
      requires Valid() && c in conns
      modifies this`requestState, conns
      ensures Valid() && conns == old(conns)
      ensures unexpected <==> old(c.Credit(r)) == 0
      ensures !unexpected ==> c.Credit(r) == old(c.Credit(r)) - 1
      ensures !unexpected ==> r !in c.requests && r !in c.cancelled
      ensures intended <==> r in old(c.requests) || r in old(c.cancelled)
      ensures !unexpected && wanted ==> requestState == old(requestState) - {r}
      ensures !unexpected && !wanted ==>
        requestState == if r in old(c.requests) then old(requestState) - {r} else old(requestState)
      ensures unexpected ==> requestState == old(requestState)
    {
      intended, unexpected := c.CheckReceivedChunk(r);
      if unexpected || !wanted { return; }
      c.lastUsefulChunkReceived := now;
      if r in requestState {
        var p := requestState[r];
        assert p != c;  // panic: should not be pending request from conn that just received it
        p.Cancel(r, conns);
      }
    }

    /** Any connections look at any chunks that have an owner, in any order, wherever their
        limits let them, while buffers are flushed, updates renewed and cancels
        acknowledged. However long that goes on, chunks change hands no more often than
        the potential allows. */
    method ConsiderAll(turns: seq<Turn>, ghost order: seq<PeerConn>) returns (ghost run: seq<Stealing.Steal>)
      requires Valid() && Enumerates(order, conns)
      modifies this`requestState, conns
      ensures Valid() && requestState.Keys == old(requestState.Keys)
      ensures StealRun(old(Counts(order)), old(Lasts(order)), run)
      ensures Counts(order) == AfterAll(old(Counts(order)), old(Lasts(order)), run)
      ensures |run| <= Potential(old(Counts(order)), old(Lasts(order)))
    {
      hide *;
      ghost var counts, last := Counts(order), Lasts(order);
      run := [];
      StealRunStart(counts, last);
      for i := 0 to |turns|
        invariant Valid() && requestState.Keys == old(requestState.Keys) && Lasts(order) == last && Enumerates(order, conns)
        invariant StealRun(counts, last, run) && Counts(order) == AfterAll(counts, last, run)
      {
        ghost var step := TakeTurn(turns[i], order);
        if step.Some? {
          StealRunNext(counts, last, run, step.value);
          run := run + [step.value];
        }
      }
      StealRunsEnd(counts, last, run);
    }

    /** One turn is one allowed steal, or leaves all counts alone. */
    method TakeTurn(turn: Turn, ghost order: seq<PeerConn>) returns (ghost step: Option<Stealing.Steal>)
      requires Valid() && Enumerates(order, conns)
      modifies this`requestState, conns
      ensures Valid() && requestState.Keys == old(requestState.Keys) && Lasts(order) == old(Lasts(order))
      ensures step.None? ==> Counts(order) == old(Counts(order))
      ensures step.Some? ==> Allowed(old(Counts(order)), Lasts(order), step.value) && Counts(order) == After(old(Counts(order)), step.value)
    {
      hide *;
      step := None;
      match turn {
        case Look(c, r) =>
          if c in conns && r in requestState && c.MayConsider(r) {
            InConns(c);
            ghost var owner, before := requestState[r], Counts(order);
            step := c.ConsiderOwned(r, order);
            if step.Some? { StealIsAllowed(order, before, Counts(order), Lasts(order), c, owner, step.value); }
          }
        case Flush(c) =>
          if c in conns { c.writeBuffer := 0; }
        case Renew(c, reason, peak) =>
          if c in conns { c.needRequestUpdate, c.peakRequests := reason, peak; }
        case Acknowledge(c, r) =>
          if c in conns && r in c.cancelled { Acknowledged(c, r, order); }
      }
    }

    /** The remote rejects a chunk that was cancelled: nobody's requests change. */
    method Acknowledged(c: PeerConn, r: RequestIndex, ghost order: seq<PeerConn>)
      requires Valid() && Enumerates(order, conns) && c in conns && r in c.cancelled
      modifies this`requestState, c
      ensures Valid() && requestState == old(requestState)
      ensures Counts(order) == old(Counts(order)) && Lasts(order) == old(Lasts(order))
    {
      InConns(c);
      assert c.Local();
      hide *;
      ghost var before, last := Counts(order), Lasts(order);
      assert r !in c.requests;
      var _ := c.RemoteRejectedRequest(r);
      SameCounts(order, conns, before, Counts(order));
      SameLasts(last, Lasts(order));
    }

    lemma {:induction false} InConns(c: PeerConn)
      requires Valid() && c in conns
      ensures c.t == this
    {
    }

    /** Removes a closed connection with all its requests. */
    method DeletePeerConn(c: PeerConn) returns (wasActive: bool)
      requires Valid() && c.closed
      requires c !in conns ==> c.t == this && c.Local() && c.requests == {}
      modifies this, conns, c
      ensures Valid() && conns == old(conns) - {c}
      ensures c.requests == {} && c.cancelled == old(c.cancelled)
      ensures wasActive <==> c in old(conns)
      ensures forall d <- conns :: d.requests == old(d.requests) && d.cancelled == old(d.cancelled)
      ensures forall d <- conns :: d.needRequestUpdate == d.NeedAfterDelete(old(c.requests) != {}, old(d.needRequestUpdate))
      ensures requestState == old(requestState) - old(c.requests)
      ensures conns == {} ==> requestState == map[]
    {
      wasActive := c in conns;
      ghost var everyone := conns + {c};
      assert ValidFor(everyone);
      conns := conns - {c};
      c.DeleteAllRequests(everyone);
      assert ValidFor(conns);
      // panic: request state left behind by the last connection
      assert conns == {} ==> forall r :: r !in requestState;
    }
  }

  class PeerConn {
    const t: Torrent
    const fastEnabled: bool
    const remoteIsTransmission: bool
    const peerIdMajor: char
    var requests: set<RequestIndex>
    var cancelled: set<RequestIndex>
    var validReceiveChunks: map<RequestIndex, nat>
    var peerMaxRequests: int
    var peakRequests: int
    var writeBuffer: nat
    var interested: bool
    var closed: bool
    var lastUsefulChunkReceived: int
    var needRequestUpdate: Reason

    constructor (t: Torrent, fast: bool, transmission: bool, major: char)
      ensures this.t == t && Local() && requests == {} && cancelled == {} && !closed
    {
      this.t := t;
      fastEnabled, remoteIsTransmission, peerIdMajor := fast, transmission, major;
      requests, cancelled, validReceiveChunks := {}, {}, map[];
      peerMaxRequests, peakRequests, writeBuffer := 0, 0, 0;
      interested, closed, needRequestUpdate := false, false, NoReason;
    }

    /** How often chunk `r` may still arrive without being unexpected. */
    function Credit(r: RequestIndex): nat
      reads this`validReceiveChunks
    {
      if r in validReceiveChunks then validReceiveChunks[r] else 0
    }

    /** What one connection keeps: outstanding and cancelled requests are
        disjoint, and each of them is covered by a receive credit. */
    ghost predicate Local()
      reads this`requests, this`cancelled, this`validReceiveChunks
    {
      && requests !! cancelled
      && (forall r <- requests + cancelled :: r in validReceiveChunks)
      && (forall r <- validReceiveChunks :: validReceiveChunks[r] >= 1)
    }

    predicate RemoteRejectsCancels()
    {
      fastEnabled && (remoteIsTransmission ==> peerIdMajor >= '4')
    }

    function NominalMaxRequests(): int
      reads this`peerMaxRequests, this`peakRequests
    {
      Max(1, Min(Min(peerMaxRequests, peakRequests * 2), MAX_LOCAL_TO_REMOTE))
    }

    predicate IsLowOnRequests()
      reads this`requests, this`cancelled
    {
      requests == {} && cancelled == {}
    }

    /** The need of an update once some connection's requests were all deleted: those
        without requests are told, unless nothing was deleted. */
    function NeedAfterDelete(deleted: bool, need: Reason): Reason
      reads this`requests, this`cancelled
    {
      if deleted && IsLowOnRequests() && need == NoReason then Other else need
    }

    method OnNeedUpdateRequests(reason: Reason)
      modifies this`needRequestUpdate
      ensures needRequestUpdate == if old(needRequestUpdate) == NoReason then reason else old(needRequestUpdate)
    {
      if needRequestUpdate == NoReason {
        needRequestUpdate := reason;
      }
    }

    method Write(len: nat) returns (notFull: bool)
      modifies this`writeBuffer
      ensures writeBuffer == old(writeBuffer) + len
      ensures notFull <==> writeBuffer < WRITE_BUFFER_HIGH
    {
      writeBuffer := writeBuffer + len;
      notFull := writeBuffer < WRITE_BUFFER_HIGH;
    }

    /** The bookkeeping of a new request: set, credit and owner together. */
    method AddRequest(r: RequestIndex, ghost s: set<PeerConn>)
      requires t.ValidFor(s) && this in s
      requires r !in cancelled && r !in requests && r !in t.requestState
      modifies this`requests, this`validReceiveChunks, t`requestState
      ensures t.ValidFor(s)
      ensures requests == old(requests) + {r}
      ensures t.requestState == old(t.requestState)[r := this]
      ensures validReceiveChunks == old(validReceiveChunks)[r := old(Credit(r)) + 1]
    {
      requests := requests + {r};
      validReceiveChunks := validReceiveChunks[r := Credit(r) + 1];
      t.requestState := t.requestState[r := this];
      forall c <- s, x ensures x in c.requests <==> x in t.requestState && t.requestState[x] == c {}
    }

    /** Asks for chunk `r`. The caller has made sure nobody else has it. */
    method Request(r: RequestIndex, ghost s: set<PeerConn>) returns (more: bool, tooMany: bool)
      requires t.ValidFor(s) && this in s
      requires !closed && r !in cancelled
      requires r in t.requestState ==> t.requestState[r] == this
      modifies this`requests, this`validReceiveChunks, this`writeBuffer, t`requestState
      ensures t.ValidFor(s)
      ensures tooMany <==> r !in old(requests) && |old(requests)| >= NominalMaxRequests()
      ensures requests == if tooMany then old(requests) else old(requests) + {r}
      ensures writeBuffer == if r in old(requests) || tooMany then old(writeBuffer) else old(writeBuffer) + REQUEST_MSG_LEN
      ensures more <==> r in old(requests) || tooMany || writeBuffer < WRITE_BUFFER_HIGH
      ensures t.requestState == if tooMany then old(t.requestState) else old(t.requestState)[r := this]
      ensures forall x :: x != r ==> Credit(x) == old(Credit(x))
      ensures Credit(r) == old(Credit(r)) + if r in old(requests) || tooMany then 0 else 1
    {
      if r in requests {
        assert t.requestState == t.requestState[r := this];
        return true, false;
      }
      if |requests| >= NominalMaxRequests() {
        return true, true;
      }
      AddRequest(r, s);
      more := Write(REQUEST_MSG_LEN);
      tooMany := false;
    }

    /** Drops chunk `r` from the outstanding requests, if it is there. */
    method DeleteRequest(r: RequestIndex, ghost s: set<PeerConn>) returns (existed: bool)
      requires t.ValidFor(s) && this in s
      modifies this`requests, t`requestState
      ensures t.ValidFor(s)
      ensures existed <==> r in old(requests)
      ensures requests == old(requests) - {r}
      ensures t.requestState == if existed then old(t.requestState) - {r} else old(t.requestState)
    {
      if r !in requests { return false; }
      requests := requests - {r};
      assert r in t.requestState && t.requestState[r] == this;  // panic: only one peer should have a given request
      t.requestState := t.requestState - {r};
      existed := true;
    }

    method HandleCancel(r: RequestIndex, ghost s: set<PeerConn>)
      requires t.ValidFor(s) && this in s
      requires r !in requests && r !in cancelled && Credit(r) >= 1
      modifies this`cancelled, this`writeBuffer
      ensures t.ValidFor(s)
      ensures cancelled == if RemoteRejectsCancels() then old(cancelled) + {r} else old(cancelled)
    {
      var _ := Write(REQUEST_MSG_LEN);
      if RemoteRejectsCancels() {
        assert r !in cancelled;  // panic: request already cancelled
        cancelled := cancelled + {r};
      }
    }

    method Cancel(r: RequestIndex, ghost s: set<PeerConn>)
      requires t.ValidFor(s) && this in s && r in requests
      modifies this`requests, this`cancelled, this`writeBuffer, this`peakRequests, this`needRequestUpdate
      modifies t`requestState
      ensures t.ValidFor(s)
      ensures requests == old(requests) - {r}
      ensures cancelled == if RemoteRejectsCancels() then old(cancelled) + {r} else old(cancelled)
      ensures peakRequests == old(peakRequests) - 1
      ensures t.requestState == old(t.requestState) - {r}
      ensures needRequestUpdate ==
        if old(needRequestUpdate) == NoReason && IsLowOnRequests() then PeerCancel else old(needRequestUpdate)
    {
      assert Local();
      var existed := DeleteRequest(r, s);
      assert existed;  // panic: request not existing should have been guarded
      HandleCancel(r, s);
      peakRequests := peakRequests - 1;
      if IsLowOnRequests() {
        OnNeedUpdateRequests(PeerCancel);
      }
    }

    method RemoveCancelled(r: RequestIndex, ghost s: set<PeerConn>) returns (existed: bool)
      requires t.ValidFor(s) && this in s
      modifies this`cancelled
      ensures t.ValidFor(s)
      ensures existed <==> r in old(cancelled)
      ensures cancelled == old(cancelled) - {r}
    {
      existed := r in cancelled;
      cancelled := cancelled - {r};
    }

    method DecExpectedChunkReceive(r: RequestIndex, ghost s: set<PeerConn>)
      requires t.ValidFor(s) && this in s
      requires r !in requests && r !in cancelled
      requires Credit(r) >= 1  // panic otherwise
      modifies this`validReceiveChunks
      ensures t.ValidFor(s)
      ensures Credit(r) == old(Credit(r)) - 1
      ensures forall x :: x != r ==> Credit(x) == old(Credit(x))
    {
      if validReceiveChunks[r] == 1 {
        validReceiveChunks := validReceiveChunks - {r};
      } else {
        validReceiveChunks := validReceiveChunks[r := validReceiveChunks[r] - 1];
      }
    }

    /** The remote refuses chunk `r`. Valid exactly when it was outstanding or
        cancelled; then it is neither any more and one credit is spent. */
    method RemoteRejectedRequest(r: RequestIndex) returns (valid: bool)
      requires t.Valid() && this in t.conns
      modifies this, t`requestState
      ensures t.Valid()
      ensures valid <==> r in old(requests) + old(cancelled)
      ensures requests == old(requests) - {r} && cancelled == old(cancelled) - {r}
      ensures t.requestState == if r in old(requests) then old(t.requestState) - {r} else old(t.requestState)
      ensures forall x :: Credit(x) == old(Credit(x)) - if valid && x == r then 1 else 0
      ensures closed == old(closed) && lastUsefulChunkReceived == old(lastUsefulChunkReceived)
    {
      assert Local();
      valid := DeleteRequest(r, t.conns);
      if valid {
        peakRequests := peakRequests - 1;
      } else {
        valid := RemoveCancelled(r, t.conns);
        if !valid { return; }
      }
      if IsLowOnRequests() {
        OnNeedUpdateRequests(RemoteReject);
      }
      DecExpectedChunkReceive(r, t.conns);
    }

    /** Books a received chunk. It is unexpected exactly when no credit is left,
        and then nothing changes. */
    method CheckReceivedChunk(r: RequestIndex) returns (intended: bool, unexpected: bool)
      requires t.Valid() && this in t.conns
      modifies this, t`requestState
      ensures t.Valid()
      ensures unexpected <==> old(Credit(r)) == 0
      ensures intended <==> r in old(requests) + old(cancelled)
      ensures requests == old(requests) - {r} && cancelled == old(cancelled) - {r}
      ensures t.requestState == if r in old(requests) then old(t.requestState) - {r} else old(t.requestState)
      ensures forall x :: Credit(x) == old(Credit(x)) - if !unexpected && x == r then 1 else 0
      ensures closed == old(closed) && lastUsefulChunkReceived == old(lastUsefulChunkReceived)
    {
      assert Local();
      if Credit(r) <= 0 {
        return false, true;
      }
      unexpected := false;
      intended := DeleteRequest(r, t.conns);
      if !intended {
        intended := RemoveCancelled(r, t.conns);
      }
      DecExpectedChunkReceive(r, t.conns);
      if intended && IsLowOnRequests() {
        OnNeedUpdateRequests(Other);
      }
    }

    /** A choke from a connection without the fast extension, or its removal. */
    method DeleteAllRequests(ghost s: set<PeerConn>)
      requires t.ValidFor(s) && this in s && t.conns <= s
      modifies this`requests, t`requestState, t.conns`needRequestUpdate
      ensures t.ValidFor(s)
      ensures requests == {}
      ensures t.requestState == old(t.requestState) - old(requests)
      ensures forall c <- t.conns :: c.needRequestUpdate == c.NeedAfterDelete(old(requests) != {}, old(c.needRequestUpdate))
    {
      if requests == {} {
        assert t.requestState == t.requestState - requests;
        return;
      }
      var snapshot := requests;
      while snapshot != {}
        invariant snapshot == requests && requests <= old(requests)
        invariant t.ValidFor(s) && forall c <- t.conns :: c.needRequestUpdate == old(c.needRequestUpdate)
        invariant t.requestState == old(t.requestState) - (old(requests) - requests)
        decreases snapshot
      {
        var r :| r in snapshot;
        var existed := DeleteRequest(r, s);
        assert existed;  // panic: request should exist
        snapshot := snapshot - {r};
      }
      assert t.requestState == old(t.requestState) - old(requests);
      forall c <- t.conns {
        c.needRequestUpdate := c.NeedAfterDelete(true, c.needRequestUpdate);
      }
    }

    method CancelAllRequests()
      requires t.Valid() && this in t.conns
      modifies this, t`requestState
      ensures t.Valid()
      ensures requests == {} && t.requestState == old(t.requestState) - old(requests)
      ensures cancelled == if RemoteRejectsCancels() then old(cancelled) + old(requests) else old(cancelled)
      ensures forall x :: Credit(x) == old(Credit(x))
    {
      var snapshot := requests;
      while snapshot != {}
        invariant snapshot == requests && requests <= old(requests)
        invariant t.Valid() && validReceiveChunks == old(validReceiveChunks)
        invariant t.requestState == old(t.requestState) - (old(requests) - requests)
        invariant cancelled == if RemoteRejectsCancels() then old(cancelled) + (old(requests) - requests) else old(cancelled)
        decreases snapshot
      {
        var r :| r in snapshot;
        Cancel(r, t.conns);
        snapshot := snapshot - {r};
      }
      assert t.requestState == old(t.requestState) - old(requests);
    }

    method SetInterested(on: bool) returns (notFull: bool)
      modifies this`interested, this`writeBuffer
      ensures interested == on
      ensures writeBuffer == if old(interested) == on then old(writeBuffer) else old(writeBuffer) + INTERESTED_MSG_LEN
      ensures notFull <==> old(interested) == on || writeBuffer < WRITE_BUFFER_HIGH
    {
      if interested == on { return true; }
      interested := on;
      notFull := Write(INTERESTED_MSG_LEN);
    }

    /** Would a request update ask for chunk `r`? Free chunks and our own, except
        after a reject; other chunks only by an allowed steal, never on a cancel. */
    ghost predicate Takes(r: RequestIndex)
      reads this, t
      reads if r in t.requestState then {t.requestState[r]} else {}
    {
      && needRequestUpdate != RemoteReject
      && (r in t.requestState && t.requestState[r] != this ==>
        && needRequestUpdate != PeerCancel
        && MaySteal(|requests|, |t.requestState[r].requests|,
                    lastUsefulChunkReceived, t.requestState[r].lastUsefulChunkReceived))
    }

    /** Moves chunk `r` from `victim` to this connection. */
    method Steal(r: RequestIndex, victim: PeerConn)
      requires t.Valid() && this in t.conns && !closed
      requires r in t.requestState && t.requestState[r] == victim != this
      requires r !in cancelled && |requests| < NominalMaxRequests()
      requires writeBuffer + REQUEST_MSG_LEN < WRITE_BUFFER_HIGH
      modifies this`requests, this`validReceiveChunks, this`writeBuffer, t`requestState
      modifies victim`requests, victim`cancelled, victim`writeBuffer, victim`peakRequests, victim`needRequestUpdate
      ensures t.Valid()
      ensures requests == old(requests) + {r} && victim.requests == old(victim.requests) - {r}
      ensures r !in old(requests) && r in old(victim.requests)
      ensures writeBuffer == old(writeBuffer) + REQUEST_MSG_LEN
      ensures t.requestState == old(t.requestState)[r := this]
    {
      hide *;
      t.OwnerHas(r);
      NotOurs(r);
      var p := t.CancelRequest(r);
      assert p == victim && requests == old(requests);
      t.ValidIs();
      var more, tooMany := Request(r, t.conns);
      assert !tooMany;  // panic: too many outstanding requests
      assert more;
      t.ValidIs();
    }

    lemma {:induction false} NotOurs(r: RequestIndex)
      requires t.Valid() && this in t.conns && r in t.requestState && t.requestState[r] != this
      ensures r !in requests && t.Owner(r) == {t.requestState[r]}
    {
    }

    /** One chunk taken from the top of the request heap: skipped, asked for, or
        stolen from the connection that has it. */
    method Consider(r: RequestIndex) returns (taken: bool, victim: PeerConn?)
      requires t.Valid() && this in t.conns && !closed
      requires r !in cancelled && |requests| < NominalMaxRequests()
      requires writeBuffer + REQUEST_MSG_LEN < WRITE_BUFFER_HIGH
      modifies this`requests, this`validReceiveChunks, this`writeBuffer, t`requestState
      modifies (t.conns - {this})`requests, (t.conns - {this})`cancelled, (t.conns - {this})`writeBuffer,
        (t.conns - {this})`peakRequests, (t.conns - {this})`needRequestUpdate
      ensures t.Valid()
      ensures requests == if taken then old(requests) + {r} else old(requests)
      ensures |requests| == |old(requests)| + if taken && r !in old(requests) then 1 else 0
      ensures writeBuffer == old(writeBuffer) + if taken && r !in old(requests) then REQUEST_MSG_LEN else 0
      ensures t.requestState == if taken then old(t.requestState)[r := this] else old(t.requestState)
      ensures forall c <- t.conns :: c != this && c != victim ==> c.requests == old(c.requests)
      ensures victim != null <==> taken && r in old(t.requestState) && old(t.requestState)[r] != this
      ensures victim != null ==>
        && victim == old(t.requestState)[r] && old(needRequestUpdate) != PeerCancel
        && MaySteal(|old(requests)|, |old(victim.requests)|, lastUsefulChunkReceived, victim.lastUsefulChunkReceived)
        && victim.requests == old(victim.requests) - {r}
        && |victim.requests| == |old(victim.requests)| - 1 && |requests| == |old(requests)| + 1
        && |requests| <= |victim.requests| + 1
      // What is passed over: everything after a reject, and otherwise only chunks
      // some other connection has and need not give up.
      ensures taken <==> old(Takes(r))
    {
      hide *;
      TakesMeans(r);
      taken, victim := false, null;
      if needRequestUpdate == RemoteReject { return; }
      if r in t.requestState && t.requestState[r] != this {
        if needRequestUpdate == PeerCancel { return; }
        var existing := t.requestState[r];
        t.OwnerHas(r);
        var diff := |requests| + 1 - (|existing.requests| - 1);
        if diff > 1 || (diff == 1 && !(lastUsefulChunkReceived > existing.lastUsefulChunkReceived)) {
          return;
        }
        Steal(r, existing);
        return true, existing;
      }
      t.ValidIs();
      var more, tooMany := Request(r, t.conns);
      assert !tooMany;  // panic: too many outstanding requests
      assert more;
      t.ValidIs();
      assert r in old(requests) ==> requests == old(requests);
      taken := true;
    }

    lemma {:induction false} TakesMeans(r: RequestIndex)
      ensures Takes(r) <==>
        (needRequestUpdate != RemoteReject
        && (r in t.requestState && t.requestState[r] != this ==>
          && needRequestUpdate != PeerCancel
          && MaySteal(|requests|, |t.requestState[r].requests|, lastUsefulChunkReceived, t.requestState[r].lastUsefulChunkReceived)))
      ensures r in t.requestState ==>
        var existing := t.requestState[r];
        var diff := |requests| + 1 - (|existing.requests| - 1);
        MaySteal(|requests|, |existing.requests|, lastUsefulChunkReceived, existing.lastUsefulChunkReceived) ==
        !(diff > 1 || (diff == 1 && !(lastUsefulChunkReceived > existing.lastUsefulChunkReceived)))
    {
    }

    /** What the loop of a request update has made sure of before it looks at a chunk. */
    predicate MayConsider(r: RequestIndex)
      reads this
    {
      !closed && r !in cancelled && |requests| < NominalMaxRequests() && writeBuffer + REQUEST_MSG_LEN < WRITE_BUFFER_HIGH
    }

    /** A chunk that has an owner is considered, told by the counts. */
    method ConsiderCounted(r: RequestIndex, ghost order: seq<PeerConn>) returns (stolen: bool)
      requires t.Valid() && this in t.conns && r in t.requestState && MayConsider(r)
      modifies this`requests, this`validReceiveChunks, this`writeBuffer, t`requestState
      modifies (t.conns - {this})`requests, (t.conns - {this})`cancelled, (t.conns - {this})`writeBuffer,
        (t.conns - {this})`peakRequests, (t.conns - {this})`needRequestUpdate
      ensures t.Valid() && old(t.requestState[r] in t.conns) && (stolen ==> old(t.requestState)[r] != this)
      ensures t.requestState == if stolen then old(t.requestState)[r := this] else old(t.requestState)
      ensures forall i | 0 <= i < |order| && order[i] in t.conns ::
        Counts(order)[i] as int - old(Counts(order))[i] as int ==
          if !stolen then 0 else if order[i] == this then 1 else if order[i] == old(t.requestState)[r] then -1 else 0
      ensures stolen ==> forall i, j | 0 <= i < |order| && 0 <= j < |order| && order[i] == this && order[j] == old(t.requestState)[r] ::
        MaySteal(old(Counts(order))[i], old(Counts(order))[j], Lasts(order)[i], Lasts(order)[j])
    {
      assert !closed && r !in cancelled && |requests| < NominalMaxRequests() && writeBuffer + REQUEST_MSG_LEN < WRITE_BUFFER_HIGH;
      hide *;
      t.OwnerHas(r);
      var taken, victim := Consider(r);
      assert forall c <- t.conns | c != this && c != victim :: |c.requests| == old(|c.requests|);
      assert victim == null ==> requests == old(requests) && t.requestState == old(t.requestState);
      stolen := victim != null;
    }

    /** With a victim, that is one steal of those `Stealing` is about, and otherwise
        nobody's count changes. */
    method ConsiderOwned(r: RequestIndex, ghost order: seq<PeerConn>) returns (ghost step: Option<Stealing.Steal>)
      requires t.Valid() && this in t.conns && r in t.requestState && MayConsider(r)
      requires Enumerates(order, t.conns)
      modifies this`requests, this`validReceiveChunks, this`writeBuffer, t`requestState
      modifies (t.conns - {this})`requests, (t.conns - {this})`cancelled, (t.conns - {this})`writeBuffer,
        (t.conns - {this})`peakRequests, (t.conns - {this})`needRequestUpdate
      ensures t.Valid() && t.requestState.Keys == old(t.requestState.Keys)
      ensures step.None? ==> Counts(order) == old(Counts(order)) && t.requestState == old(t.requestState)
      ensures step.Some? ==> IsSteal(order, old(Counts(order)), Counts(order), Lasts(order), this, old(t.requestState)[r], step.value)
      ensures step.Some? ==> t.requestState == old(t.requestState)[r := this]
    {
      hide *;
      ghost var owner, before := t.requestState[r], Counts(order);
      var stolen := ConsiderCounted(r, order);
      if !stolen {
        SameCounts(order, t.conns, before, Counts(order));
        step := None;
      } else {
        ghost var s := OneSteal(order, t.conns, before, Counts(order), Lasts(order), this, owner);
        step := Some(s);
      }
    }

    /** Chunks move to connection `this` only: one that had an owner keeps it or
        is ours now, and one that had none is ours or still free. */
    twostate predicate OnlyWeGain()
      reads this.t
    {
      && (forall r <- old(t.requestState) :: r in t.requestState && (t.requestState[r] == old(t.requestState)[r] || t.requestState[r] == this))
      && (forall r <- t.requestState :: r in old(t.requestState) || t.requestState[r] == this)
    }

    /** The loop of a request update over the chunks in heap order. */
    method FillRequests(desired: seq<RequestIndex>)
      requires t.Valid() && this in t.conns && !closed
      requires forall r <- desired :: r !in cancelled
      requires writeBuffer <= Budget(0)
      modifies this`requests, this`validReceiveChunks, this`writeBuffer, t`requestState
      modifies (t.conns - {this})`requests, (t.conns - {this})`cancelled, (t.conns - {this})`writeBuffer,
        (t.conns - {this})`peakRequests, (t.conns - {this})`needRequestUpdate
      ensures t.Valid() && OnlyWeGain()
      ensures old(requests) <= requests && forall r <- requests - old(requests) :: r in desired
      ensures |requests| + |cancelled| <= Max(|old(requests)| + |cancelled|, NominalMaxRequests())
      ensures |requests| >= |old(requests)| && writeBuffer < WRITE_BUFFER_HIGH
    {
      hide Torrent.Valid, Torrent.ValidFor, Takes, MaySteal, Local;
      ghost var original := |requests|;
      var i := 0;
      while i < |desired|
        invariant 0 <= i <= |desired| && t.Valid() && OnlyWeGain()
        invariant old(requests) <= requests && forall r <- requests - old(requests) :: r in desired
        invariant original <= |requests|
        invariant |requests| > original ==> |requests| + |cancelled| <= NominalMaxRequests()
        invariant writeBuffer <= Budget(|requests| - original)
      {
        if |requests| + |cancelled| >= NominalMaxRequests() { break; }
        WriteBudget(|requests| - original, writeBuffer);
        var taken, victim := Consider(desired[i]);
        i := i + 1;
      }
      WriteBudget(|requests| - original, writeBuffer);
    }

    /** Turns the desired chunks, in the order the heap yields them, into requests.
        `on` is the interest after making it sticky. */
    method ApplyRequestState(desired: seq<RequestIndex>, on: bool)
      requires t.Valid() && this in t.conns && !closed
      requires forall r <- desired :: r !in cancelled
      requires writeBuffer <= WRITE_BUFFER_LOW
      modifies this, t`requestState, t.conns
      ensures t.Valid() && t.conns == old(t.conns) && OnlyWeGain()
      ensures old(requests) <= requests && forall r <- requests - old(requests) :: r in desired
      ensures cancelled == old(cancelled) && interested == on
      ensures |requests| + |cancelled| <= Max(|old(requests)| + |old(cancelled)|, old(NominalMaxRequests()))
      ensures peakRequests == |requests| - |old(requests)|
      ensures writeBuffer < WRITE_BUFFER_HIGH
    {
      var notFull := SetInterested(on);
      assert notFull;
      var original := |requests|;
      FillRequests(desired);
      peakRequests := |requests| - original;
    }
  }

  /** A turn of one connection: it looks at a chunk, its buffer is written out, it starts
      another request update, or the remote acknowledges a cancel. */
  datatype Turn =
    | Look(conn: PeerConn, chunk: RequestIndex)
    | Flush(conn: PeerConn)
    | Renew(conn: PeerConn, reason: Reason, peak: int)
    | Acknowledge(conn: PeerConn, chunk: RequestIndex)

  /** The connections in some order, each once. */
  ghost predicate Enumerates(order: seq<PeerConn>, conns: set<PeerConn>)
  {
    && (forall c <- order :: c in conns) && (forall c <- conns :: c in order)
    && forall i, j | 0 <= i < j < |order| :: order[i] != order[j]
  }

  /** How many requests each has. */
  ghost function Counts(order: seq<PeerConn>): (counts: seq<nat>)
    reads order`requests
    ensures |counts| == |order| && forall i | 0 <= i < |order| :: counts[i] == |order[i].requests|
  {
    if order == [] then [] else [|order[0].requests|] + Counts(order[1..])
  }

  /** When each last got a useful chunk. */
  ghost function Lasts(order: seq<PeerConn>): (last: seq<int>)
    reads order`lastUsefulChunkReceived
    ensures |last| == |order| && forall i | 0 <= i < |order| :: last[i] == order[i].lastUsefulChunkReceived
  {
    if order == [] then [] else [order[0].lastUsefulChunkReceived] + Lasts(order[1..])
  }

  /** The counts change by one allowed steal, between these two connections. */
  ghost predicate IsSteal(order: seq<PeerConn>, before: seq<nat>, after: seq<nat>, last: seq<int>, thief: PeerConn, victim: PeerConn, s: Stealing.Steal)
    requires |before| == |after| == |last| == |order|
  {
    && s.thief < |order| && order[s.thief] == thief && s.victim < |order| && order[s.victim] == victim
    && Allowed(before, last, s) && after == After(before, s)
  }

  lemma {:induction false} StealIsAllowed(order: seq<PeerConn>, before: seq<nat>, after: seq<nat>, last: seq<int>, thief: PeerConn, victim: PeerConn, s: Stealing.Steal)
    requires |before| == |after| == |last| == |order| && IsSteal(order, before, after, last, thief, victim, s)
    ensures Allowed(before, last, s) && after == After(before, s)
  {
  }

  lemma {:induction false} SameCounts(order: seq<PeerConn>, conns: set<PeerConn>, before: seq<nat>, after: seq<nat>)
    requires Enumerates(order, conns) && |before| == |after| == |order|
    requires forall i | 0 <= i < |order| && order[i] in conns :: after[i] == before[i]
    ensures before == after
  {
  }

  lemma {:induction false} SameLasts(before: seq<int>, after: seq<int>)
    requires |before| == |after| && forall i | 0 <= i < |before| :: after[i] == before[i]
    ensures before == after
  {
  }

  lemma {:induction false} OneSteal(order: seq<PeerConn>, conns: set<PeerConn>, before: seq<nat>, after: seq<nat>, last: seq<int>, thief: PeerConn, victim: PeerConn)
    returns (s: Stealing.Steal)
    requires Enumerates(order, conns) && |before| == |after| == |last| == |order| && thief in conns && victim in conns && thief != victim
    requires forall i | 0 <= i < |order| && order[i] in conns ::
      after[i] as int - before[i] as int == if order[i] == thief then 1 else if order[i] == victim then -1 else 0
    requires forall i, j | 0 <= i < |order| && 0 <= j < |order| && order[i] == thief && order[j] == victim ::
      MaySteal(before[i], before[j], last[i], last[j])
    ensures IsSteal(order, before, after, last, thief, victim, s)
  {
    hide MaySteal;
    var i :| 0 <= i < |order| && order[i] == thief;
    var j :| 0 <= j < |order| && order[j] == victim;
    s := Stealing.Steal(i, j);
    assert after[j] == before[j] - 1;
    assert after[i] == before[i] + 1;
  }

  /** What the buffer may hold after `n` new requests, from the low mark. */
  function Budget(n: nat): nat { WRITE_BUFFER_LOW + INTERESTED_MSG_LEN + REQUEST_MSG_LEN * n }

  /** A buffer at the low mark takes an interest change and every request the
      limit allows, and still is not full. */
  lemma WriteBudget(n: nat, buffered: nat)
    requires n <= MAX_LOCAL_TO_REMOTE && buffered <= Budget(n)
    ensures buffered < WRITE_BUFFER_HIGH
    ensures n < MAX_LOCAL_TO_REMOTE ==> buffered + REQUEST_MSG_LEN < WRITE_BUFFER_HIGH
    ensures Budget(n + 1) == Budget(n) + REQUEST_MSG_LEN
  {
    assert MAX_LOCAL_TO_REMOTE == 963;
  }
}
