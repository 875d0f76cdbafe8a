/** The writer that cuts the bytes of a piece into blocks and checks each of them
    against what peers sent for it earlier. */
module BlockWriter {
  import opened Arithmetic

  newtype Byte = x: int | 0 <= x < 256

  type Peer = nat

  /** The data cut into blocks of the chunk size; the last may be short. */
  function Split(data: seq<Byte>, size: nat): (r: seq<seq<Byte>>)
    requires size > 0
    decreases |data|
  {
    if data == [] then []
    else if |data| <= size then [data]
    else [data[..size]] + Split(data[size..], size)
  }

  function Flat(blocks: seq<seq<Byte>>): seq<Byte>
  {
    if blocks == [] then [] else blocks[0] + Flat(blocks[1..])
  }

  /** What a split means: nothing is lost, and every block but the last is full. */
  lemma {:induction false} SplitIsExact(data: seq<Byte>, size: nat)
    requires size > 0
    ensures Flat(Split(data, size)) == data
    ensures forall i | 0 <= i < |Split(data, size)| :: 0 < |Split(data, size)[i]| <= size
    ensures forall i | 0 <= i < |Split(data, size)| - 1 :: |Split(data, size)[i]| == size
    decreases |data|
  {
    if |data| > size {
      SplitIsExact(data[size..], size);
      assert data == data[..size] + data[size..];
    } else if data != [] {
      assert [data][1..] == [];
    }
  }

  predicate Full(blocks: seq<seq<Byte>>, size: nat) { forall b <- blocks :: |b| == size }

  lemma {:induction false} FlatNext(blocks: seq<seq<Byte>>, b: seq<Byte>)
    ensures Flat(blocks + [b]) == Flat(blocks) + b
  {
    if blocks == [] {
      assert [b][1..] == [];
    } else {
      FlatNext(blocks[1..], b);
      assert (blocks + [b])[1..] == blocks[1..] + [b];
    }
  }

  /** Full blocks and a short tail are the split of their data. */
  lemma {:induction false} SplitOfFull(blocks: seq<seq<Byte>>, tail: seq<Byte>, size: nat)
    requires Full(blocks, size) && |tail| < size
    ensures Split(Flat(blocks) + tail, size) == blocks + if tail == [] then [] else [tail]
  {
    hide *;
    if blocks == [] {
      NoBlocks(tail, size);
    } else {
      FullRest(blocks, size);
      SplitOfFull(blocks[1..], tail, size);
      SplitHead(blocks[0], Flat(blocks[1..]) + tail, size);
      assert blocks == [blocks[0]] + blocks[1..];
      assert [blocks[0]] + (blocks[1..] + if tail == [] then [] else [tail]) == [blocks[0]] + blocks[1..] + if tail == [] then [] else [tail];
      FlatHead(blocks, tail);
    }
  }

  lemma {:induction false} NoBlocks(tail: seq<Byte>, size: nat)
    requires |tail| < size
    ensures Split(Flat([]) + tail, size) == [] + if tail == [] then [] else [tail]
  {
    assert Flat([]) + tail == tail;
  }

  lemma {:induction false} FlatHead(blocks: seq<seq<Byte>>, tail: seq<Byte>)
    requires blocks != []
    ensures Flat(blocks) + tail == blocks[0] + (Flat(blocks[1..]) + tail)
  {
  }

  lemma {:induction false} FullRest(blocks: seq<seq<Byte>>, size: nat)
    requires Full(blocks, size) && blocks != []
    ensures |blocks[0]| == size && Full(blocks[1..], size)
  {
    assert blocks[0] in blocks && forall b <- blocks[1..] :: b in blocks;
  }

  lemma {:induction false} SplitHead(b: seq<Byte>, rest: seq<Byte>, size: nat)
    requires size > 0
    ensures |b| == size ==> Split(b + rest, size) == [b] + Split(rest, size)
  {
    if |b| == size { assert (b + rest)[..size] == b && (b + rest)[size..] == rest; }
    if rest == [] { assert b + rest == b; }
  }

  lemma {:induction false} Regroup(a: seq<Byte>, b: seq<Byte>, c: seq<Byte>)
    ensures (a + b) + c == a + (b + c)
  {
  }

  lemma {:induction false} FullNext(blocks: seq<seq<Byte>>, b: seq<Byte>, size: nat)
    requires Full(blocks, size) && |b| == size
    ensures Full(blocks + [b], size)
  {
  }

  /** The peers whose data differed in any of the blocks, numbered from `start`. */
  ghost function Mismatching(check: (nat, seq<Byte>) -> set<Peer>, start: nat, blocks: seq<seq<Byte>>): set<Peer>
  {
    if blocks == [] then {}
    else Mismatching(check, start, blocks[..|blocks| - 1]) + check(start + |blocks| - 1, blocks[|blocks| - 1])
  }

  /** A peer is found exactly when its data differed in some block at that block's own
      request index. */
  lemma {:induction false} FoundInSome(check: (nat, seq<Byte>) -> set<Peer>, start: nat, blocks: seq<seq<Byte>>, p: Peer)
    ensures p in Mismatching(check, start, blocks) <==> exists i | 0 <= i < |blocks| :: p in check(start + i, blocks[i])
  {
    if blocks != [] {
      var rest := blocks[..|blocks| - 1];
      FoundInSome(check, start, rest, p);
      if i :| 0 <= i < |blocks| && p in check(start + i, blocks[i]) {
        if i < |rest| { assert rest[i] == blocks[i]; }
      }
      if i :| 0 <= i < |rest| && p in check(start + i, rest[i]) { assert blocks[i] == rest[i]; }
    }
  }

  class BlockCheckingWriter {
    const check: (nat, seq<Byte>) -> set<Peer>
    const chunkBuffer: array<Byte>
    var bufferUsed: nat
    var requestIndex: nat
    var badPeers: set<Peer>

    /** The first request index, all that was written, and the blocks checked so far. */
    ghost const start: nat
    ghost var data: seq<Byte>
    ghost var blocks: seq<seq<Byte>>

    function ChunkSize(): nat { chunkBuffer.Length }

    ghost predicate Counted()
      reads this
    {
      requestIndex == start + |blocks| && badPeers == Mismatching(check, start, blocks)
    }

    ghost predicate Valid()
      reads this, chunkBuffer
    {
      && bufferUsed < ChunkSize() && Counted() && Full(blocks, ChunkSize())
      && data == Flat(blocks) + chunkBuffer[..bufferUsed]
    }

    constructor (check: (nat, seq<Byte>) -> set<Peer>, requestIndex: nat, chunkSize: nat)
      requires chunkSize > 0
      ensures Valid() && fresh(chunkBuffer) && ChunkSize() == chunkSize && data == [] && start == requestIndex && this.check == check
    {
      this.check, this.requestIndex := check, requestIndex;
      bufferUsed, badPeers := 0, {};
      chunkBuffer := new Byte[chunkSize](_ => 0);
      start, data, blocks := requestIndex, [], [];
    }

    method CheckBlock(b: seq<Byte>)
      requires Counted()
      modifies this`requestIndex, this`badPeers, this`blocks
      ensures Counted() && blocks == old(blocks) + [b] && Flat(blocks) == old(Flat(blocks)) + b
    {
      FlatNext(blocks, b);
      badPeers := badPeers + check(requestIndex, b);
      requestIndex := requestIndex + 1;
      blocks := blocks + [b];
      assert blocks[..|blocks| - 1] == old(blocks);
    }

    method CheckBufferedBlock()
      requires 0 < bufferUsed <= ChunkSize() && Counted()
      modifies this`requestIndex, this`badPeers, this`blocks, this`bufferUsed
      ensures Counted() && bufferUsed == 0
      ensures blocks == old(blocks) + [old(chunkBuffer[..bufferUsed])]
      ensures Flat(blocks) == old(Flat(blocks)) + old(chunkBuffer[..bufferUsed])
    {
      var b := chunkBuffer[..bufferUsed];
      bufferUsed := 0;
      CheckBlock(b);
    }

    /** Copies as much as fits behind the bytes already there; returns how much. */
    method Copy(at: nat, b: seq<Byte>) returns (n: nat)
      requires at <= ChunkSize()
      modifies chunkBuffer
      ensures n == Min(|b|, ChunkSize() - at) && chunkBuffer[..at + n] == old(chunkBuffer[..at]) + b[..n]
    {
      n := Min(|b|, ChunkSize() - at);
      for i := 0 to n
        invariant chunkBuffer[..at + i] == old(chunkBuffer[..at]) + b[..i]
      {
        chunkBuffer[at + i] := b[i];
      }
    }

    method FinishPartialBlock(b: seq<Byte>) returns (n: nat)
      requires Valid()
      modifies this, chunkBuffer
      ensures n <= |b| && bufferUsed < ChunkSize() && Counted() && Full(blocks, ChunkSize())
      ensures data == old(data) + b[..n] && data == Flat(blocks) + chunkBuffer[..bufferUsed]
      ensures n < |b| ==> bufferUsed == 0
    {
      hide Flat, Mismatching, Full;
      if bufferUsed == 0 { return 0; }
      n := BufferMore(b);
      if bufferUsed >= ChunkSize() {
        FullNext(blocks, chunkBuffer[..bufferUsed], ChunkSize());
        CheckBufferedBlock();
        assert chunkBuffer[..0] == [];
      }
    }

    /** Fills the buffer up as far as the bytes go. */
    method BufferMore(b: seq<Byte>) returns (n: nat)
      requires Valid()
      modifies this`bufferUsed, this`data, chunkBuffer
      ensures n <= |b| && bufferUsed <= ChunkSize() && Counted() && (n < |b| ==> bufferUsed == ChunkSize())
      ensures bufferUsed == old(bufferUsed) + n && data == old(data) + b[..n] && data == Flat(blocks) + chunkBuffer[..bufferUsed]
    {
      hide Flat, Mismatching, Full;
      ghost var done, before := Flat(blocks), chunkBuffer[..bufferUsed];
      n := Copy(bufferUsed, b);
      bufferUsed := bufferUsed + n;
      data := data + b[..n];
      Regroup(done, before, b[..n]);
    }

    lemma {:induction false} Opened()
      requires Valid()
      ensures 0 < ChunkSize() && bufferUsed < ChunkSize()
    {
    }

    /** Checks a full block straight from the data. */
    method CheckFullBlock(b: seq<Byte>)
      requires Counted() && Full(blocks, ChunkSize()) && data == Flat(blocks) && |b| == ChunkSize()
      modifies this`requestIndex, this`badPeers, this`blocks, this`data
      ensures Counted() && Full(blocks, ChunkSize()) && data == Flat(blocks) == old(data) + b
    {
      hide Flat, Full, Mismatching;
      FullNext(blocks, b, ChunkSize());
      CheckBlock(b);
      data := data + b;
    }

    /** Keeps what is too short for a block. */
    method BufferRest(b: seq<Byte>)
      requires bufferUsed == 0 && Counted() && Full(blocks, ChunkSize()) && data == Flat(blocks) && |b| < ChunkSize()
      modifies this`bufferUsed, this`data, chunkBuffer
      ensures Valid() && data == old(data) + b
    {
      hide Flat, Full, Mismatching;
      bufferUsed := Copy(0, b);
      assert chunkBuffer[..bufferUsed] == b;
      data := data + b;
    }

    lemma {:induction false} NothingBuffered()
      requires Counted() && Full(blocks, ChunkSize()) && bufferUsed < ChunkSize() && data == Flat(blocks) + chunkBuffer[..bufferUsed]
      ensures Valid() && (bufferUsed == 0 ==> data == Flat(blocks))
    {
      assert bufferUsed == 0 ==> chunkBuffer[..bufferUsed] == [];
    }

    /** Takes any stretch of the data. */
    method Write(b: seq<Byte>) returns (n: nat)
      requires Valid()
      modifies this, chunkBuffer
      ensures Valid() && n == |b| && data == old(data) + b
    {
      hide *;
      Opened();
      n := FinishPartialBlock(b);
      NothingBuffered();
      Further(old(data), b, n, 0);
      if n == |b| { return; }
      while |b| - n >= ChunkSize()
        invariant bufferUsed == 0 && Counted() && Full(blocks, ChunkSize()) && 0 < ChunkSize()
        invariant n <= |b| && data == old(data) + b[..n] && data == Flat(blocks)
      {
        Further(old(data), b, n, ChunkSize());
        CheckFullBlock(b[n..n + ChunkSize()]);
        n := n + ChunkSize();
      }
      Further(old(data), b, n, |b| - n);
      BufferRest(b[n..]);
      n := |b|;
    }

    lemma {:induction false} Further(was: seq<Byte>, b: seq<Byte>, n: nat, m: nat)
      requires n + m <= |b|
      ensures (was + b[..n]) + b[n..n + m] == was + b[..n + m]
      ensures b[..|b|] == b && b[n..] == b[n..|b|]
    {
    }

    /** Checks what remains. However the data was cut up by the writes, the blocks
        checked are its split, numbered on from the start. */
    method Flush()
      requires Valid()
      modifies this
      ensures bufferUsed == 0 && data == old(data) && blocks == Split(data, ChunkSize()) && Counted()
    {
      SplitOfFull(blocks, chunkBuffer[..bufferUsed], ChunkSize());
      if bufferUsed != 0 {
        CheckBufferedBlock();
      }
    }
  }

  /** Any two ways of cutting up the same data find the same peers. */
  method WriteAll(check: (nat, seq<Byte>) -> set<Peer>, requestIndex: nat, chunkSize: nat, writes: seq<seq<Byte>>) returns (badPeers: set<Peer>)
    requires chunkSize > 0
    ensures badPeers == Mismatching(check, requestIndex, Split(Flat(writes), chunkSize))
  {
    var w := new BlockCheckingWriter(check, requestIndex, chunkSize);
    for i := 0 to |writes|
      invariant w.Valid() && w.ChunkSize() == chunkSize && w.start == requestIndex && w.check == check
      invariant fresh(w) && fresh(w.chunkBuffer) && w.data == Flat(writes[..i])
    {
      FlatNext(writes[..i], writes[i]);
      assert writes[..i] + [writes[i]] == writes[..i + 1];
      var _ := w.Write(writes[i]);
    }
    assert writes[..|writes|] == writes;
    w.Flush();
    badPeers := w.badPeers;
  }
}
