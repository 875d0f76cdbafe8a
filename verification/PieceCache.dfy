/** The piece completion table of the server and the cache in front of it. */
module PieceCache {
  import opened Options

  type Hash = nat

  datatype PieceKey = PieceKey(infoHash: Hash, index: int)

  datatype Row = Row(key: PieceKey, complete: bool)

  function WithoutHash(m: map<PieceKey, bool>, infoHash: Hash): map<PieceKey, bool>
  {
    map k | k in m && k.infoHash != infoHash :: m[k]
  }

  function RowsOf(rows: seq<Row>): map<PieceKey, bool>
  {
    if rows == [] then map[] else RowsOf(rows[..|rows| - 1])[rows[|rows| - 1].key := rows[|rows| - 1].complete]
  }

  /** A scan that reads each row once reads the whole table. */
  lemma {:induction false} ScanIsTable(table: map<PieceKey, bool>, rows: seq<Row>)
    requires forall r <- rows :: r.key in table && table[r.key] == r.complete
    requires forall k <- table :: Row(k, table[k]) in rows
    ensures RowsOf(rows) == table
  {
    ScanCovers(table, rows);
  }

  lemma {:induction false} ScanCovers(table: map<PieceKey, bool>, rows: seq<Row>)
    requires forall r <- rows :: r.key in table && table[r.key] == r.complete
    ensures forall k :: k in RowsOf(rows) <==> k in table && Row(k, table[k]) in rows
    ensures forall k <- RowsOf(rows) :: RowsOf(rows)[k] == table[k]
  {
    if rows != [] {
      var rest, last := rows[..|rows| - 1], rows[|rows| - 1];
      ScanCovers(table, rest);
      assert rows == rest + [last] && last in rows;
    }
  }

  /** The rows of a table, in some order. */
  method Scan(table: map<PieceKey, bool>) returns (rows: seq<Row>)
    ensures forall r <- rows :: r.key in table && table[r.key] == r.complete
    ensures forall k <- table :: Row(k, table[k]) in rows
  {
    rows := [];
    var rest := table.Keys;
    while rest != {}
      invariant rest <= table.Keys && forall r <- rows :: r.key in table && table[r.key] == r.complete
      invariant forall k <- table.Keys - rest :: Row(k, table[k]) in rows
      decreases rest
    {
      var k :| k in rest;
      rest := rest - {k};
      rows := rows + [Row(k, table[k])];
    }
  }

  class PieceRepository {
    /** The rows on disk, and the copy in memory. */
    var table: map<PieceKey, bool>
    var cache: map<PieceKey, bool>

    ghost predicate Synced()
      reads this
    {
      cache == table
    }

    constructor (table: map<PieceKey, bool>)
      ensures this.table == table && cache == map[]
    {
      this.table, cache := table, map[];
    }

    /** Replaces the cache by what a scan of the table yields, unless the scan fails. */
    method Load(rows: seq<Row>, failsAt: Option<nat>) returns (ok: bool)
      requires forall r <- rows :: r.key in table && table[r.key] == r.complete
      requires forall k <- table :: Row(k, table[k]) in rows
      modifies this`cache
      ensures ok <==> failsAt.None? || failsAt.value > |rows|
      ensures if ok then Synced() else cache == old(cache)
    {
      var loaded: map<PieceKey, bool> := map[];
      for i := 0 to |rows|
        invariant loaded == RowsOf(rows[..i]) && (failsAt.Some? ==> failsAt.value >= i)
      {
        if failsAt == Some(i) { return false; }
        assert rows[..i + 1][..i] == rows[..i];
        loaded := loaded[rows[i].key := rows[i].complete];
      }
      if failsAt == Some(|rows|) { return false; }
      assert rows[..|rows|] == rows;
      ScanIsTable(table, rows);
      cache := loaded;
      return true;
    }

    /** The repository of a new process: the rows are still there, the copy is not. */
    method Reopen()
      modifies this`cache
      ensures cache == map[]
    {
      cache := map[];
    }

    /** Some when the state of the piece is known. */
    function Get(key: PieceKey): (complete: Option<bool>)
      reads this`cache
    {
      if key in cache then Some(cache[key]) else None
    }

    method Set(key: PieceKey, complete: bool, fails: bool) returns (ok: bool)
      requires Synced()
      modifies this`table, this`cache
      ensures Synced() && ok == !fails
      ensures table == if ok then old(table)[key := complete] else old(table)
    {
      if fails { return false; }
      table := table[key := complete];
      cache := cache[key := complete];
      return true;
    }

    /** What the trigger does when a torrent's row is deleted. */
    method Cascade(infoHash: Hash)
      modifies this`table
      ensures table == WithoutHash(old(table), infoHash)
    {
      table := map k | k in table && k.infoHash != infoHash :: table[k];
    }

    method Forget(infoHash: Hash)
      modifies this`cache
      ensures cache == WithoutHash(old(cache), infoHash)
    {
      cache := map k | k in cache && k.infoHash != infoHash :: cache[k];
    }
  }

  datatype Step = SetPiece(key: PieceKey, complete: bool, fails: bool) | Removal(infoHash: Hash)

  /** What the table must hold after a run. */
  ghost function After(table: map<PieceKey, bool>, steps: seq<Step>): map<PieceKey, bool>
  {
    if steps == [] then table
    else
      var before := After(table, steps[..|steps| - 1]);
      match steps[|steps| - 1]
      case SetPiece(key, complete, fails) => if fails then before else before[key := complete]
      case Removal(infoHash) => WithoutHash(before, infoHash)
  }

  /** Over any run of writes that may fail and of completed removals, reads agree with
      the table. */
  method Run(pieces: PieceRepository, steps: seq<Step>)
    requires pieces.Synced()
    modifies pieces
    ensures pieces.Synced() && pieces.table == After(old(pieces.table), steps)
    ensures forall key :: pieces.Get(key) == if key in pieces.table then Some(pieces.table[key]) else None
  {
    for i := 0 to |steps|
      invariant pieces.Synced() && pieces.table == After(old(pieces.table), steps[..i])
    {
      assert steps[..i + 1][..i] == steps[..i];
      match steps[i] {
        case SetPiece(key, complete, fails) =>
          var _ := pieces.Set(key, complete, fails);
        case Removal(infoHash) =>
          pieces.Cascade(infoHash);
          pieces.Forget(infoHash);
      }
    }
    assert steps[..|steps|] == steps;
  }

  /** A hash removed last, and not written since, has no known piece. */
  lemma {:induction false} RemovedStartsAfresh(table: map<PieceKey, bool>, steps: seq<Step>, later: seq<Step>, infoHash: Hash)
    requires forall s <- later :: s.SetPiece? ==> s.key.infoHash != infoHash
    ensures forall k <- After(table, steps + [Removal(infoHash)] + later) :: k.infoHash != infoHash
    decreases |later|
  {
    var all := steps + [Removal(infoHash)] + later;
    if later == [] {
      assert all == steps + [Removal(infoHash)];
      assert all[..|all| - 1] == steps;
    } else {
      var rest := later[..|later| - 1];
      RemovedStartsAfresh(table, steps, rest, infoHash);
      assert all[..|all| - 1] == steps + [Removal(infoHash)] + rest;
      assert all[|all| - 1] == later[|later| - 1] && later[|later| - 1] in later;
    }
  }
}
