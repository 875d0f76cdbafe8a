/** The torrent lifecycle of the server: what it does to the engine, to the rows of the
    database and to the piece cache, whichever of its calls fail. */
module Service {
  import opened Options
  import opened PieceCache

  datatype Progress = Progress(name: string, length: nat, bytesCompleted: nat)

  /** A magnet link is taken for the hash it names. */
  datatype Torrent = Torrent(magnet: Hash, paused: bool, name: string, length: nat, bytesCompleted: nat)

  /** How adding to the engine ends: the client refuses, the context ends before the
      info came, verifying fails, or the torrent is in. */
  datatype AddOutcome = ClientError | NoInfo | NotVerified | Added

  datatype RemoveResult = Removed | NotTracked | RemoveFailed

  datatype Result = Done | NotFound | AlreadyExists | Failed

  /** What is tracked after an attempt to add a torrent. */
  function Trying(tracked: map<Hash, Progress>, magnet: Hash, outcome: AddOutcome, live: Progress): map<Hash, Progress>
  {
    match outcome
    case ClientError => tracked
    case Added => tracked[magnet := live]
    case _ => tracked - {magnet}
  }

  /** How removing content ends: at which of its two paths it fails, if at one. */
  datatype Removal = AllRemoved | FirstFails | SecondFails

  /** The paths a torrent's content is looked for at. They go by its name, so torrents of
      one name share them. */
  function PathsOf(name: string): set<string> { if name == "" then {} else {name, name + ".part"} }

  class Engine {
    /** The torrents tracked, and the paths of the data directory that hold content. */
    var tracked: map<Hash, Progress>
    var files: set<string>

    constructor (files: set<string>)
      ensures tracked == map[] && this.files == files
    {
      this.tracked, this.files := map[], files;
    }

    /** The engine of a new process, over the same data directory. */
    method Reopen()
      modifies this`tracked
      ensures tracked == map[]
    {
      tracked := map[];
    }

    /** A torrent that gets no info or is not verified is dropped, even when it was
        tracked before. */
    method AddMagnet(magnet: Hash, outcome: AddOutcome, live: Progress) returns (hash: Option<Hash>)
      modifies this`tracked
      ensures tracked == Trying(old(tracked), magnet, outcome, live)
      ensures hash == if outcome.Added? then Some(magnet) else None
    {
      if outcome.ClientError? { return None; }
      tracked := tracked[magnet := live];
      if outcome.NoInfo? || outcome.NotVerified? {
        tracked := tracked - {magnet};
        assert tracked == old(tracked) - {magnet};
        return None;
      }
      return Some(magnet);
    }

    method Remove(hash: Hash, deleteFiles: bool, removal: Removal) returns (result: RemoveResult)
      modifies this
      ensures tracked == old(tracked) - {hash}
      ensures result.NotTracked? <==> hash !in old(tracked)
      ensures result.RemoveFailed? <==> hash in old(tracked) && deleteFiles && old(tracked)[hash].name != "" && !removal.AllRemoved?
      ensures result.Removed? ==> files == if deleteFiles then old(files) - PathsOf(old(tracked)[hash].name) else old(files)
      ensures result.NotTracked? ==> files == old(files)
      ensures result.RemoveFailed? ==> files == if removal.FirstFails? then old(files) else old(files) - {old(tracked)[hash].name}
    {
      if hash !in tracked {
        assert tracked == tracked - {hash};
        return NotTracked;
      }
      var name := tracked[hash].name;
      tracked := tracked - {hash};
      if deleteFiles && name != "" {
        if removal.FirstFails? { return RemoveFailed; }
        files := files - {name};
        if removal.SecondFails? { return RemoveFailed; }
        files := files - {name + ".part"};
      }
      return Removed;
    }

    function Snapshot(hash: Hash): Option<Progress>
      reads this`tracked
    {
      if hash in tracked then Some(tracked[hash]) else None
    }
  }

  class TorrentRepository {
    var rows: map<Hash, Torrent>

    constructor ()
      ensures rows == map[]
    {
      rows := map[];
    }

    method Create(hash: Hash, magnet: Hash, fails: bool) returns (result: Result)
      modifies this
      ensures rows == if result.Done? then old(rows)[hash := Torrent(magnet, false, "", 0, 0)] else old(rows)
      ensures result == if hash in old(rows) then AlreadyExists else if fails then Failed else Done
    {
      if hash in rows { return AlreadyExists; }
      if fails { return Failed; }
      rows := rows[hash := Torrent(magnet, false, "", 0, 0)];
      return Done;
    }

    method SetPaused(hash: Hash, paused: bool, fails: bool) returns (result: Result)
      modifies this
      ensures result == if fails then Failed else if hash !in old(rows) then NotFound else Done
      ensures rows == if result.Done? then old(rows)[hash := old(rows)[hash].(paused := paused)] else old(rows)
    {
      if fails { return Failed; }
      if hash !in rows { return NotFound; }
      rows := rows[hash := rows[hash].(paused := paused)];
      return Done;
    }

    /** Failures are logged and swallowed by the callers. */
    method SetMetadata(hash: Hash, name: string, length: nat, fails: bool)
      modifies this
      ensures rows == if fails || hash !in old(rows) then old(rows) else old(rows)[hash := old(rows)[hash].(name := name, length := length)]
    {
      if !fails && hash in rows { rows := rows[hash := rows[hash].(name := name, length := length)]; }
    }

    method SetBytesCompleted(hash: Hash, bytesCompleted: nat, fails: bool)
      modifies this
      ensures rows == if fails || hash !in old(rows) then old(rows) else old(rows)[hash := old(rows)[hash].(bytesCompleted := bytesCompleted)]
    {
      if !fails && hash in rows { rows := rows[hash := rows[hash].(bytesCompleted := bytesCompleted)]; }
    }

    /** Deleting a row also deletes its pieces, by the trigger. */
    method Delete(hash: Hash, fails: bool, pieces: PieceRepository) returns (result: Result)
      modifies this, pieces`table
      ensures result == if fails then Failed else if hash !in old(rows) then NotFound else Done
      ensures rows == if result.Done? then old(rows) - {hash} else old(rows)
      ensures pieces.table == if result.Done? then WithoutHash(old(pieces.table), hash) else old(pieces.table)
    {
      if fails { return Failed; }
      if hash !in rows { return NotFound; }
      rows := rows - {hash};
      pieces.Cascade(hash);
      return Done;
    }
  }

  /** The same rows, paused or not as before. */
  ghost predicate SamePaused(before: map<Hash, Torrent>, rows: map<Hash, Torrent>)
  {
    rows.Keys == before.Keys && forall h <- before :: rows[h].paused == before[h].paused
  }

  /** What is tracked once the rows in `done` have been restored. */
  ghost predicate RestoredAfter(tracked: map<Hash, Progress>, rows: map<Hash, Torrent>, done: seq<Hash>, outcome: Hash -> AddOutcome)
  {
    forall h :: h in tracked <==> h in done && h in rows && !rows[h].paused && outcome(h).Added?
  }

  lemma {:induction false} RestoreStart(rows: map<Hash, Torrent>, order: seq<Hash>, outcome: Hash -> AddOutcome)
    ensures SamePaused(rows, rows) && RestoredAfter(map[], rows, order[..0], outcome)
  {
  }

  lemma {:induction false} RestoreNext(tracked: map<Hash, Progress>, rows: map<Hash, Torrent>, done: seq<Hash>, h: Hash, outcome: Hash -> AddOutcome, live: Progress)
    requires RestoredAfter(tracked, rows, done, outcome) && h in rows && h !in done
    ensures RestoredAfter(if rows[h].paused then tracked else Trying(tracked, h, outcome(h), live), rows, done + [h], outcome)
  {
  }

  lemma {:induction false} Taken(order: seq<Hash>, i: nat)
    requires i < |order| && forall i, j | 0 <= i < j < |order| :: order[i] != order[j]
    ensures order[..i + 1] == order[..i] + [order[i]] && order[i] !in order[..i] && order[i] in order
  {
  }

  lemma {:induction false} PausedAt(before: map<Hash, Torrent>, rows: map<Hash, Torrent>, h: Hash)
    requires SamePaused(before, rows) && h in before
    ensures h in rows && rows[h].paused == before[h].paused
  {
  }

  lemma {:induction false} StillPaused(first: map<Hash, Torrent>, before: map<Hash, Torrent>, rows: map<Hash, Torrent>)
    requires SamePaused(first, before) && SamePaused(before, rows)
    ensures SamePaused(first, rows)
  {
  }

  lemma {:induction false} RestoreEnd(tracked: map<Hash, Progress>, before: map<Hash, Torrent>, rows: map<Hash, Torrent>, order: seq<Hash>, outcome: Hash -> AddOutcome)
    requires SamePaused(before, rows) && RestoredAfter(tracked, before, order[..|order|], outcome) && forall h :: h in order <==> h in before
    ensures rows.Keys == before.Keys && forall h <- rows :: rows[h].paused == before[h].paused
    ensures forall h :: h in tracked <==> h in rows && !rows[h].paused && outcome(h).Added?
  {
    assert order[..|order|] == order;
  }

  /** No paused torrent is tracked, and each row keeps the magnet of its own hash. */
  ghost predicate Consistent(rows: map<Hash, Torrent>, tracked: map<Hash, Progress>)
  {
    forall h <- rows :: rows[h].magnet == h && (rows[h].paused ==> h !in tracked)
  }

  class TorrentService {
    const engine: Engine
    const torrents: TorrentRepository
    const pieces: PieceRepository

    ghost predicate Valid()
      reads engine`tracked, torrents, pieces
    {
      Consistent(torrents.rows, engine.tracked) && pieces.Synced()
    }

    /** What a restart needs to find: each row keeps the magnet of its own hash. */
    ghost predicate Recoverable()
      reads torrents
    {
      forall h <- torrents.rows :: torrents.rows[h].magnet == h
    }

    constructor (engine: Engine, torrents: TorrentRepository, pieces: PieceRepository)
      ensures this.engine == engine && this.torrents == torrents && this.pieces == pieces
    {
      this.engine, this.torrents, this.pieces := engine, torrents, pieces;
    }

    method PersistMetadata(hash: Hash, fails: bool)
      modifies torrents
      ensures torrents.rows == match engine.Snapshot(hash)
        case None => old(torrents.rows)
        case Some(p) =>
          if p.name == "" || fails || hash !in old(torrents.rows) then old(torrents.rows)
          else old(torrents.rows)[hash := old(torrents.rows)[hash].(name := p.name, length := p.length)]
    {
      var snapshot := engine.Snapshot(hash);
      if snapshot.None? || snapshot.value.name == "" { return; }
      torrents.SetMetadata(hash, snapshot.value.name, snapshot.value.length, fails);
    }

    /** Adds a torrent. What it keeps, it keeps except when a paused row has the hash
        already: the engine takes the torrent before the conflict is seen. */
    method Add(magnet: Hash, outcome: AddOutcome, live: Progress, createFails: bool, metadataFails: bool) returns (result: Result)
      requires Valid()
      modifies engine`tracked, torrents
      ensures result == if !outcome.Added? then Failed else if magnet in old(torrents.rows) then AlreadyExists else if createFails then Failed else Done
      ensures torrents.rows.Keys == old(torrents.rows.Keys) + (if result.Done? then {magnet} else {})
      ensures forall h <- old(torrents.rows) :: torrents.rows[h] == old(torrents.rows)[h]
      ensures result.Done? ==> magnet in engine.tracked && !torrents.rows[magnet].paused
      ensures engine.tracked == Trying(old(engine.tracked), magnet, outcome, live)
      ensures Recoverable()
      ensures Valid() <==> !(outcome.Added? && magnet in old(torrents.rows) && old(torrents.rows)[magnet].paused)
    {
      var hash := engine.AddMagnet(magnet, outcome, live);
      if hash.None? { return Failed; }
      result := torrents.Create(hash.value, magnet, createFails);
      if !result.Done? { return; }
      PersistMetadata(hash.value, metadataFails);
    }

    /** Whether the download has finished, from the engine when it knows. */
    function IsComplete(hash: Hash, row: Torrent): bool
      reads engine`tracked
    {
      var progress := engine.Snapshot(hash);
      if progress.Some? && progress.value.length > 0 then progress.value.bytesCompleted >= progress.value.length
      else row.length > 0 && row.bytesCompleted >= row.length
    }

    /** Whether removing a torrent takes its content along. */
    ghost predicate Deletes(hash: Hash, deleteFiles: bool)
      reads engine`tracked, torrents
    {
      && hash in engine.tracked && hash in torrents.rows
      && (deleteFiles || !IsComplete(hash, torrents.rows[hash]))
    }

    /** Where the engine would look for a torrent's content. */
    ghost function Paths(hash: Hash): set<string>
      reads engine`tracked
    {
      if hash in engine.tracked then PathsOf(engine.tracked[hash].name) else {}
    }

    /** Removes a torrent. Content goes only of a torrent the engine tracks, and then
        whatever is at its paths, another torrent's too. */
    method Remove(hash: Hash, deleteFiles: bool, getFails: bool, removal: Removal, deleteFails: bool) returns (result: Result)
      requires Valid()
      modifies engine, torrents, pieces
      ensures Valid()
      ensures result.NotFound? <==> !getFails && hash !in old(torrents.rows)
      ensures result.Done? ==> hash !in torrents.rows && hash !in engine.tracked && forall k <- pieces.table :: k.infoHash != hash
      ensures result.Done? ==> torrents.rows == old(torrents.rows) - {hash} && pieces.table == WithoutHash(old(pieces.table), hash)
      ensures !result.Done? ==> torrents.rows == old(torrents.rows) && pieces.table == old(pieces.table)
      ensures engine.tracked == old(engine.tracked) || engine.tracked == old(engine.tracked) - {hash}
      ensures result.Done? <==> (!getFails && hash in old(torrents.rows) && !deleteFails
        && !(old(Deletes(hash, deleteFiles)) && old(Paths(hash)) != {} && !removal.AllRemoved?))
      ensures engine.files <= old(engine.files) && old(engine.files) - engine.files <= old(Paths(hash))
      ensures result.Done? ==> forall path <- old(engine.files) ::
        path !in engine.files <==> old(Deletes(hash, deleteFiles)) && path in old(Paths(hash))
    {
      if getFails { return Failed; }
      if hash !in torrents.rows { return NotFound; }
      var row := torrents.rows[hash];
      var actuallyDeleteFiles := deleteFiles || !IsComplete(hash, row);
      var removed := engine.Remove(hash, actuallyDeleteFiles, removal);
      if removed.RemoveFailed? { return Failed; }
      result := torrents.Delete(hash, deleteFails, pieces);
      if !result.Done? { return; }
      pieces.Forget(hash);
    }

    method PersistBytesCompleted(hash: Hash, fails: bool)
      modifies torrents
      ensures torrents.rows ==
        if hash in engine.tracked && !fails && hash in old(torrents.rows)
        then old(torrents.rows)[hash := old(torrents.rows)[hash].(bytesCompleted := engine.tracked[hash].bytesCompleted)]
        else old(torrents.rows)
    {
      var snapshot := engine.Snapshot(hash);
      if snapshot.None? { return; }
      torrents.SetBytesCompleted(hash, snapshot.value.bytesCompleted, fails);
    }

    /** Pauses a torrent: it leaves the engine first, so no failure leaves a paused
        torrent running. */
    method Pause(hash: Hash, bytesFail: bool, setFails: bool) returns (result: Result)
      requires Valid()
      modifies engine, torrents
      ensures Valid() && engine.tracked == old(engine.tracked) - {hash} && engine.files == old(engine.files)
      ensures result == if setFails then Failed else if hash !in old(torrents.rows) then NotFound else Done
      ensures torrents.rows.Keys == old(torrents.rows.Keys)
      ensures forall h <- torrents.rows | h != hash :: torrents.rows[h] == old(torrents.rows)[h]
      ensures hash in torrents.rows ==> torrents.rows[hash] == old(torrents.rows)[hash].(
        paused := result.Done? || old(torrents.rows)[hash].paused,
        bytesCompleted := if hash in old(engine.tracked) && !bytesFail then old(engine.tracked)[hash].bytesCompleted else old(torrents.rows)[hash].bytesCompleted)
    {
      PersistBytesCompleted(hash, bytesFail);
      var _ := engine.Remove(hash, false, AllRemoved);
      result := torrents.SetPaused(hash, true, setFails);
    }

    /** Resumes a torrent: the row is unpaused first, and paused again when the engine
        does not take the torrent. That breaks the rule exactly when the torrent was
        running already and the client itself refused. */
    method Resume(hash: Hash, getFails: bool, setFails: bool, outcome: AddOutcome, live: Progress, rollbackFails: bool, metadataFails: bool)
      returns (result: Result)
      requires Valid()
      modifies engine`tracked, torrents
      ensures result ==
        if getFails then Failed else if hash !in old(torrents.rows) then NotFound
        else if setFails || !outcome.Added? then Failed else Done
      ensures torrents.rows.Keys == old(torrents.rows.Keys)
      ensures result.Done? ==> !torrents.rows[hash].paused && hash in engine.tracked
      ensures forall h <- torrents.rows | h != hash :: torrents.rows[h] == old(torrents.rows)[h]
      ensures engine.tracked ==
        if getFails || setFails || hash !in old(torrents.rows) then old(engine.tracked)
        else Trying(old(engine.tracked), hash, outcome, live)
      ensures hash in torrents.rows ==>
        (torrents.rows[hash].paused <==> if getFails || setFails then old(torrents.rows)[hash].paused else !outcome.Added? && !rollbackFails)
      ensures Recoverable()
      ensures Valid() <==>
        !(!getFails && !setFails && hash in old(torrents.rows) && hash in old(engine.tracked) && outcome.ClientError? && !rollbackFails)
    {
      if getFails { return Failed; }
      if hash !in torrents.rows { return NotFound; }
      var row := torrents.rows[hash];
      result := torrents.SetPaused(hash, false, setFails);
      if !result.Done? { return; }
      var added := engine.AddMagnet(row.magnet, outcome, live);
      if added.None? {
        var _ := torrents.SetPaused(hash, true, rollbackFails);
        return Failed;
      }
      PersistMetadata(added.value, metadataFails);
    }

    /** Adds every torrent that is not paused to an empty engine, in whatever order the
        additions come. */
    method Restore(order: seq<Hash>, listFails: bool, outcome: Hash -> AddOutcome, live: Hash -> Progress, metadataFails: Hash -> bool)
      returns (result: Result)
      requires Valid() && engine.tracked == map[]
      requires (forall h :: h in order <==> h in torrents.rows) && forall i, j | 0 <= i < j < |order| :: order[i] != order[j]
      modifies engine`tracked, torrents
      ensures Valid() && torrents.rows.Keys == old(torrents.rows.Keys)
      ensures forall h <- torrents.rows :: torrents.rows[h].paused == old(torrents.rows)[h].paused
      ensures result == if listFails then Failed else Done
      ensures !listFails ==> forall h :: h in engine.tracked <==> h in torrents.rows && !torrents.rows[h].paused && outcome(h).Added?
    {
      hide *;
      RestoreStart(torrents.rows, order, outcome);
      if listFails { return Failed; }
      var rows := torrents.rows;
      for i := 0 to |order|
        invariant Valid() && SamePaused(rows, torrents.rows) && RestoredAfter(engine.tracked, rows, order[..i], outcome)
        modifies engine`tracked, torrents
      {
        var h := order[i];
        Taken(order, i);
        RestoreNext(engine.tracked, rows, order[..i], h, outcome, live(h));
        if rows[h].paused { continue; }
        PausedAt(rows, torrents.rows, h);
        ghost var before := torrents.rows;
        RestoreRow(h, outcome(h), live(h), metadataFails(h));
        StillPaused(rows, before, torrents.rows);
      }
      RestoreEnd(engine.tracked, rows, torrents.rows, order, outcome);
      result := Done;
    }

    method RestoreRow(hash: Hash, outcome: AddOutcome, live: Progress, metadataFails: bool)
      requires Valid() && hash in torrents.rows && !torrents.rows[hash].paused
      modifies engine`tracked, torrents
      ensures Valid() && SamePaused(old(torrents.rows), torrents.rows)
      ensures engine.tracked == Trying(old(engine.tracked), hash, outcome, live)
    {
      var added := engine.AddMagnet(torrents.rows[hash].magnet, outcome, live);
      if added.Some? { PersistMetadata(added.value, metadataFails); }
    }

    /** The server starts anew. The rows decide what is tracked, so the rule holds then
        whatever was tracked before. A server that does not get that far does not serve. */
    method Restart(loadFailsAt: Option<nat>, listFails: bool, outcome: Hash -> AddOutcome, live: Hash -> Progress, metadataFails: Hash -> bool)
      returns (up: bool)
      requires Recoverable()
      modifies engine`tracked, torrents, pieces`cache
      ensures Recoverable() && (up ==> Valid()) && (loadFailsAt.None? && !listFails ==> up) && (listFails ==> !up)
      ensures torrents.rows.Keys == old(torrents.rows.Keys)
      ensures forall h <- torrents.rows :: torrents.rows[h].paused == old(torrents.rows)[h].paused
      ensures up ==> forall h :: h in engine.tracked <==> h in torrents.rows && !torrents.rows[h].paused && outcome(h).Added?
    {
      engine.Reopen();
      pieces.Reopen();
      var rows := Scan(pieces.table);
      var loaded := pieces.Load(rows, loadFailsAt);
      if !loaded { return false; }
      var order := List(torrents.rows);
      var result := Restore(order, listFails, outcome, live, metadataFails);
      return result.Done?;
    }
  }

  /** The hashes of the rows, in some order. */
  method List(rows: map<Hash, Torrent>) returns (order: seq<Hash>)
    ensures (forall h :: h in order <==> h in rows) && forall i, j | 0 <= i < j < |order| :: order[i] != order[j]
  {
    order := [];
    var rest := rows.Keys;
    while rest != {}
      invariant rest <= rows.Keys && forall h :: h in order <==> h in rows && h !in rest
      invariant forall i, j | 0 <= i < j < |order| :: order[i] != order[j]
      decreases rest
    {
      var h :| h in rest;
      assert forall x :: x in order + [h] <==> x in order || x == h;
      rest := rest - {h};
      order := order + [h];
    }
  }

  /** A call with how its parts fail. */
  datatype Call =
    | AddCall(hash: Hash, outcome: AddOutcome, live: Progress, createFails: bool, metadataFails: bool)
    | RemoveCall(hash: Hash, deleteFiles: bool, getFails: bool, removal: Removal, deleteFails: bool)
    | PauseCall(hash: Hash, bytesFail: bool, setFails: bool)
    | ResumeCall(hash: Hash, getFails: bool, setFails: bool, outcome: AddOutcome, live: Progress, rollbackFails: bool, metadataFails: bool)
    | RestartCall(loadFailsAt: Option<nat>, listFails: bool, outcomes: Hash -> AddOutcome, lives: Hash -> Progress, metadatasFail: Hash -> bool)

  /** The two calls that break the rule: adding what is paused, and resuming what runs
      when the client refuses. */
  predicate Harmful(call: Call, rows: map<Hash, Torrent>, tracked: map<Hash, Progress>)
  {
    match call
    case AddCall(hash, outcome, _, _, _) => outcome.Added? && hash in rows && rows[hash].paused
    case ResumeCall(hash, getFails, setFails, outcome, _, rollbackFails, _) =>
      !getFails && !setFails && hash in rows && hash in tracked && outcome.ClientError? && !rollbackFails
    case _ => false
  }

  /** Over any run of calls and restarts with any of their parts failing, whenever the
      server is up a paused torrent is never tracked and the cache agrees with its table,
      up to the first harmful call. While it is down nobody answers but a restart. */
  method Run(service: TorrentService, calls: seq<Call>) returns (made: nat, up: bool)
    requires service.Valid()
    modifies service.engine, service.torrents, service.pieces
    ensures made <= |calls| && service.Recoverable() && (up ==> service.Valid())
    ensures made < |calls| ==> up && Harmful(calls[made], service.torrents.rows, service.engine.tracked)
    ensures (forall call <- calls :: !call.RestartCall?) ==> up
    // When no stored magnet is refused, only adding what is paused does harm.
    ensures made < |calls| && (forall call <- calls :: call.ResumeCall? ==> !call.outcome.ClientError?) ==> calls[made].AddCall?
  {
    made, up := 0, true;
    while made < |calls|
      invariant made <= |calls| && service.Recoverable() && (up ==> service.Valid())
      invariant (forall call <- calls :: !call.RestartCall?) ==> up
    {
      if up && Harmful(calls[made], service.torrents.rows, service.engine.tracked) { return; }
      if calls[made].RestartCall? {
        var call := calls[made];
        up := service.Restart(call.loadFailsAt, call.listFails, call.outcomes, call.lives, call.metadatasFail);
      } else if up {
        Answer(service, calls[made]);
      }
      made := made + 1;
    }
  }

  method Answer(service: TorrentService, call: Call)
    requires service.Valid() && !call.RestartCall? && !Harmful(call, service.torrents.rows, service.engine.tracked)
    modifies service.engine, service.torrents, service.pieces
    ensures service.Valid()
  {
    var result: Result;
    match call {
      case AddCall(hash, outcome, live, createFails, metadataFails) =>
        result := service.Add(hash, outcome, live, createFails, metadataFails);
      case RemoveCall(hash, deleteFiles, getFails, removal, deleteFails) =>
        result := service.Remove(hash, deleteFiles, getFails, removal, deleteFails);
      case PauseCall(hash, bytesFail, setFails) =>
        result := service.Pause(hash, bytesFail, setFails);
      case ResumeCall(hash, getFails, setFails, outcome, live, rollbackFails, metadataFails) =>
        result := service.Resume(hash, getFails, setFails, outcome, live, rollbackFails, metadataFails);
    }
  }

  /** Two torrents of one name: removing one, of which little has come, takes along what
      the other has. */
  method SharedName() returns (service: TorrentService, result: Result)
    ensures fresh(service.engine) && service.Valid() && result.Done?
    ensures 1 in service.engine.tracked && service.engine.tracked[1] == Progress("name", 8, 8) && service.engine.files == {}
  {
    service := NewService({"name"});
    result := service.Add(1, Added, Progress("name", 8, 8), false, false);
    result := service.Add(2, Added, Progress("name", 8, 0), false, false);
    result := service.Remove(2, false, false, AllRemoved, false);
  }

  method NewService(files: set<string>) returns (service: TorrentService)
    ensures fresh(service.engine) && fresh(service.torrents) && fresh(service.pieces) && service.Valid()
    ensures service.engine.tracked == map[] && service.engine.files == files && service.torrents.rows == map[] && service.pieces.table == map[]
  {
    var engine := new Engine(files);
    var torrents := new TorrentRepository();
    var pieces := new PieceRepository(map[]);
    service := new TorrentService(engine, torrents, pieces);
  }

  /** The harmful addition: a torrent is added, paused and added again. The next restart
      sets it right. */
  method AddWhilePaused() returns (service: TorrentService, broken: bool)
    ensures fresh(service.engine) && broken && service.Valid()
  {
    service := NewService({});
    var live := Progress("name", 8, 4);
    var result := service.Add(1, Added, live, false, false);
    result := service.Pause(1, false, false);
    assert 1 in service.torrents.rows && service.torrents.rows[1].paused;
    result := service.Add(1, Added, live, false, false);
    broken := 1 in service.torrents.rows && service.torrents.rows[1].paused && 1 in service.engine.tracked;
    var up := service.Restart(None, false, _ => Added, _ => live, _ => false);
  }

  /** The harmful resumption: a torrent runs, and the client refuses to add it again, as
      its interface allows. */
  method ResumeWhileRunning() returns (service: TorrentService)
    ensures fresh(service.engine) && !service.Valid()
    ensures 1 in service.torrents.rows && service.torrents.rows[1].paused && 1 in service.engine.tracked
  {
    service := NewService({});
    var result := service.Add(1, Added, Progress("name", 8, 4), false, false);
    result := service.Resume(1, false, false, ClientError, Progress("name", 8, 4), false, false);
  }

  /** Partial content that stays: the torrent is paused, so the engine does not track it
      when it is removed. */
  method PartialContentStays() returns (service: TorrentService, result: Result)
    ensures fresh(service.engine) && service.Valid() && result.Done? && service.engine.files == {"name"}
    ensures service.engine.tracked == map[] && service.torrents.rows == map[]
  {
    service := NewService({"name"});
    result := service.Add(1, Added, Progress("name", 8, 4), false, false);
    result := service.Pause(1, false, false);
    assert service.engine.tracked == map[] && service.torrents.rows.Keys == {1};
    result := service.Remove(1, true, false, AllRemoved, false);
  }
}
