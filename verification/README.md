# A verified model of the torrents server

The server keeps torrents in a database, runs them through an engine, and serves the
result. The engine is the anacrolix BitTorrent client, whose source is committed under
`licenses/`. This project models the parts of both that carry state across many calls,
and proves what they keep.

`dafny verify dfyconfig.toml` checks everything.

## What is modelled

| module | what it is |
|---|---|
| `Requests`, `Stealing` | which connection has asked for which chunk: one owner per chunk, outstanding and cancelled requests, receive credits, and stealing between connections |
| `Hashing`, `HashingProofs`, `HashingProgress`, `HashQueue` | verification of pieces as a protocol of steps between releases of the client lock: chunk writers, the hash queue, hashers bounded per torrent and per client, callers that wait, and why their waits end |
| `Availability` | the cached number of holders of each piece |
| `Announce`, `Dispatcher`, `Lexical` | which tracker announce to start next: the order, the counters, and the tables derived from them |
| `Pex`, `PexPeer` | the peer exchange feed (BEP 11) and its replay at the receiver |
| `Chunks`, `Files`, `MissingBytes`, `Arithmetic` | chunks, pieces and files of a version 1 torrent, in bytes; what a file reports as left, and what is really missing |
| `RingList`, `OrderedBitmap` | the ring list, and the set with an insertion order on top of it |
| `Heap`, `LessByValue` | the binary heap, and the order of requests it is used with |
| `Dht`, `DhtClosest` | the routing table (BEP 5) with its index by address, and the search for close nodes |
| `BlockWriter` | the writer that cuts a stream into blocks and checks each |
| `Service`, `PieceCache` | the server's own code: the life of a torrent under failures and restarts, and the cache of known pieces |

Code that changes objects step by step is a class with methods; each method states its
whole effect, either outright or through a function, and lemmas prove what that function
means. The panics of the original are assertions in the bodies (or a `false` result where
a caller can provoke them), so verification shows which of them cannot fire.

In `Hashing` an event is everything a goroutine does between taking the client lock and
giving it up. A run is any sequence of enabled events; `HashQueue` shows that the client's
methods, field by field, make exactly those steps.

In `Dispatcher` a trigger is the call it makes. The timer update nested in the triggers only
brings overdue flags up to date, so it is taken once at the end of a step.

## Where the code does not do what one would expect

For each of these the exact condition under which the code is right is proved, and an input
is given at which it is not.

- A have-none message after have-all leaves the connection in the set of those that have
  everything (`Availability.Torrent.PeerSentHaveNone`, `Availability.HaveNoneAfterHaveAll`).
- When the info arrives, a connection with as many claimed pieces as there are is taken to
  have all of them, and closed connections are counted (`Availability.Torrent.OnSetInfo`,
  `Availability.InfoAfterFarClaim`).
- A connection that comes back while its drop is held back is later reported as dropped
  (`Pex.FeedTogglesWhen`, `Pex.LiveConnectionLost`).
- The bound of 50 addresses does not hold for the initial message of a remote, which adds
  everything (`Pex.InitialMessageBound`, `Pex.InitialMessageTooLong`).
- A range count from ranks is wrong for most ranges with an empty end
  (`Chunks.RangeCardinalityRight`, `Chunks.EmptyRangeCountsAll`), and rounding division wraps
  at 32 bits (`Arithmetic.CeilDiv32IsExact`, `Arithmetic.CeilDiv32Wraps`).
- What a file reports as left goes by how many bytes of its first and last piece are written,
  not by which. It is exact, too small or too large as the written bytes inside the file there
  equal, fall short of or exceed what the sum takes off (`MissingBytes.Store.TotalIsExact`). A
  file can be reported complete with bytes missing (`MissingBytes.ReportedTooSoon`), and one
  that is there as missing (`MissingBytes.ReportedTooLate`). Even with chunks written in order,
  a file inside one incomplete piece can report too much when it stops short of where a piece
  of regular length would end, which a file in a shorter last piece always does
  (`MissingBytes.Store.OrderedTotal`, `Files.Progress.FileBytesLeft`, `Files.ShortLastPiece`).
  The torrent's own total is exact (`MissingBytes.Store.TorrentIsExact`).
- The search for close nodes never looks above the target's bucket, although the nodes there
  are closer than those below it (`Dht.Table.ClosestNodes`, `Dht.SearchSkipsCloser`), and it
  cuts the last bucket in whatever order it is ranged over, so even the very node searched for
  may be left out (`DhtClosest.SearchIsClosestWhen`, `DhtClosest.SearchMissesTarget`).
- An announce that is due can wait behind a tracker where less runs and the best announce is
  not due yet (`Dispatcher.AnnounceDispatcher.GetNextAnnounce`, `Dispatcher.DueAnnounceWaits`).
- Adding a hash whose row is paused, and resuming a torrent that runs when the client refuses
  it, leave a paused torrent tracked (`Service.TorrentService.Add`, `Service.AddWhilePaused`,
  `Service.TorrentService.Resume`, `Service.ResumeWhileRunning`); the next restart sets that
  right (`Service.TorrentService.Restart`). The refusal is one the client's interface allows;
  the client committed here refuses only magnets it cannot parse, which no row has, so with it
  only the addition does harm (`Service.Run`).
- The comment on removal says that partial content always goes; it stays when the engine does
  not track the torrent. And content goes by name, so removing one torrent can delete what
  another of the same name has (`Service.TorrentService.Remove`, `Service.PartialContentStays`,
  `Service.SharedName`).

## Model

| member | source | states |
|---|---|---|
| Stealing.SquaresEffect | licenses/github.com/anacrolix/torrent/requesting.go:380-393 | A steal moves one request, so the sum of squared request counts changes by twice the gap it closes. |
| Stealing.WeightsEffect | licenses/github.com/anacrolix/torrent/requesting.go:380-393 | A steal changes the staleness-weighted count by the difference of the two connections' staleness ranks. |
| Stealing.StealEffect | licenses/github.com/anacrolix/torrent/requesting.go:380-393 | Every steal the guard allows keeps the total and lowers the pair (sum of squares, weighted counts) lexicographically. |
| Stealing.PotentialDrops | licenses/github.com/anacrolix/torrent/requesting.go:380-393 | The same as one natural number that strictly drops with each steal. |
| Stealing.StealRunsEnd | licenses/github.com/anacrolix/torrent/requesting.go:355-400 | With last-useful-chunk times fixed, no run of steals among any connections is longer than the potential it starts with. |
| Stealing.NoStealMeansEven | licenses/github.com/anacrolix/torrent/requesting.go:380-393 | When no steal is allowed any more, two connections differ by at most one request, and the one ahead is not the staler one. |
| Requests.Torrent.AddConn | licenses/github.com/anacrolix/torrent/torrent.go:2492-2540 | A new connection without requests joins and the owner map still agrees with all request sets. |
| Requests.Torrent.CancelRequest | licenses/github.com/anacrolix/torrent/torrent.go:3296-3307 | Whoever owns the chunk loses it, keeps it as cancelled exactly when the remote acknowledges cancels, and afterwards nobody owns it; the panic behind it cannot fire. |
| Requests.Torrent.ReceiveChunk | licenses/github.com/anacrolix/torrent/peer.go:341-407 | A chunk is unexpected exactly when no credit is left; a wanted one ends with no owner at all, and the "should not be pending" panic cannot fire. |
| Requests.Torrent.DeletePeerConn | licenses/github.com/anacrolix/torrent/torrent.go:1966-1991 | Removing a closed connection takes its requests out of the owner map and no others; those left without requests are told when there were any; with the last connection gone the map is empty. |
| Requests.PeerConn.Write | licenses/github.com/anacrolix/torrent/peer-conn-msg-writer.go:158-168 | The buffer grows by the message and reports whether it stayed below the high mark. |
| Requests.PeerConn.AddRequest | licenses/github.com/anacrolix/torrent/peerconn.go:1762-1787 | Request set, credit and owner of a chunk are written together and the torrent-wide agreement holds afterwards. |
| Requests.PeerConn.Request | licenses/github.com/anacrolix/torrent/peerconn.go:1762-1787 | Asking is idempotent for own chunks, refused exactly at the request limit, and adds one request, one credit and the ownership otherwise. |
| Requests.PeerConn.DeleteRequest | licenses/github.com/anacrolix/torrent/peerconn.go:1838-1857 | A chunk leaves the request set and the owner map together; the "only one peer" panic cannot fire. |
| Requests.PeerConn.HandleCancel | licenses/github.com/anacrolix/torrent/peerconn.go:378-386 | A cancelled chunk is remembered exactly for remotes that reject cancels; the "already cancelled" panic cannot fire. |
| Requests.PeerConn.Cancel | licenses/github.com/anacrolix/torrent/peerconn.go:1789-1798 | Cancelling moves the chunk out of the requests, frees it, and asks for an update only when nothing is outstanding any more. |
| Requests.PeerConn.DecExpectedChunkReceive | licenses/github.com/anacrolix/torrent/peerconn.go:1825-1834 | One credit of one chunk is spent; the panic on a missing credit cannot fire where it is called. |
| Requests.PeerConn.RemoteRejectedRequest | licenses/github.com/anacrolix/torrent/peerconn.go:1811-1823 | A reject is valid exactly for an outstanding or cancelled chunk, which is then neither, at the cost of one credit. |
| Requests.PeerConn.CheckReceivedChunk | licenses/github.com/anacrolix/torrent/peerconn.go:1899-1931 | Without credit nothing changes; otherwise the chunk is intended exactly when it was outstanding or cancelled and one credit is spent. |
| Requests.PeerConn.DeleteAllRequests | licenses/github.com/anacrolix/torrent/peerconn.go:1859-1875 | All requests of one connection leave its set and the owner map, and nobody else's do; connections without requests are then told to update theirs, and none when there was nothing to delete. |
| Requests.PeerConn.CancelAllRequests | licenses/github.com/anacrolix/torrent/peerconn.go:1883-1889 | All requests are cancelled, kept as cancelled when the remote acknowledges, with every credit untouched. |
| Requests.PeerConn.SetInterested | licenses/github.com/anacrolix/torrent/peerconn.go:1700-1712 | A message is written only when the interest changes. |
| Requests.PeerConn.Steal | licenses/github.com/anacrolix/torrent/requesting.go:380-400 | The chunk changes hands in both sets and in the owner map; the "too many outstanding requests" panic cannot fire. |
| Requests.PeerConn.Consider | licenses/github.com/anacrolix/torrent/requesting.go:355-400 | One chunk from the heap is taken exactly when it is free, ours, or may be stolen; after a steal the thief has at most one request more than the victim. |
| Requests.PeerConn.ConsiderOwned | licenses/github.com/anacrolix/torrent/requesting.go:355-400 | On the request counts of all connections, looking at a chunk that has an owner is one allowed steal between its owner and this connection, or nothing. |
| Requests.Torrent.TakeTurn | licenses/github.com/anacrolix/torrent/requesting.go:355-400 | Any turn of a connection, a look at an owned chunk, a flushed buffer, a renewed update or an acknowledged cancel, is one allowed steal on the counts or leaves them alone. |
| Requests.Torrent.ConsiderAll | licenses/github.com/anacrolix/torrent/requesting.go:355-400 | Any such turns of any connections, in any order and for however long, make a run of allowed steals, so chunks change hands no more often than the potential of the counts at the start. |
| Requests.PeerConn.FillRequests | licenses/github.com/anacrolix/torrent/requesting.go:355-400 | Ownership only moves to this connection, nothing but desired chunks is added, and requests plus cancelled stay within the larger of the start and the limit. |
| Requests.PeerConn.ApplyRequestState | licenses/github.com/anacrolix/torrent/requesting.go:336-414 | The whole update keeps those bounds, the agreement of the owner map, and a write buffer that is not full. |
| Requests.WriteBudget | licenses/github.com/anacrolix/torrent/peer.go:253-266 | From the low mark an interest change and every request the limit of 963 allows still fit, so the "couldn't fill" panic of an update cannot fire. |
| HashingProofs.InitIsFine | licenses/github.com/anacrolix/torrent/client.go:1989-2022 | A client without torrents meets the invariant. |
| HashingProofs.BeginWriteKeeps | licenses/github.com/anacrolix/torrent/peer.go:386-399 | Taking a wanted chunk before the lock is released for the write keeps the invariant. |
| HashingProofs.EndWriteKeeps | licenses/github.com/anacrolix/torrent/peer.go:408-445 | Ending a write, failed or not, keeps it: only the last writer of a full piece queues it. |
| HashingProofs.QueueKeeps | licenses/github.com/anacrolix/torrent/torrent.go:2924-2941 | Queueing a check, and the hashers it starts, keep it. |
| HashingProofs.VerifyKeeps | licenses/github.com/anacrolix/torrent/piece.go:226-256 | A new waiter's target is within what has begun or is bound to begin. |
| HashingProofs.HashDoneKeeps | licenses/github.com/anacrolix/torrent/torrent.go:2857-2893 | The end of a hash keeps it, with the piece marked next or the hasher going on without looking at the limits. |
| HashingProofs.MarkDoneKeeps | licenses/github.com/anacrolix/torrent/torrent.go:2614-2722 | The end of marking keeps it, whatever the outcome. |
| HashingProofs.RefreshKeeps | licenses/github.com/anacrolix/torrent/torrent.go:1767-1842 | Fetching a completion state anew keeps it, changed or not. |
| HashingProofs.CloseKeeps | licenses/github.com/anacrolix/torrent/torrent.go:1101-1147 | Closing a torrent keeps it. |
| HashingProofs.InfoKeeps | licenses/github.com/anacrolix/torrent/torrent.go:587-612 | The arrival of a torrent's info keeps it: earlier pieces are left alone, and every new piece of which storage knows nothing has a hash begun or bound to begin, unless checks are off. |
| HashingProofs.EveryEventKeepsInv | licenses/github.com/anacrolix/torrent/torrent.go:2771-2893 | Every section between two lock releases keeps: one hasher at most on a piece, counters equal to the busy pieces and within both limits, no stuck piece, no idle hasher, no lost waiter. |
| HashingProofs.After | licenses/github.com/anacrolix/torrent/torrent.go:2771-2893 | So it holds wherever a run of any length and interleaving ends. |
| HashingProofs.EveryEventAdvances | licenses/github.com/anacrolix/torrent/torrent.go:2857-2893 | Verification counters never fall, nothing promised is taken back, and a hash begins at most one at a time. |
| HashingProofs.NoHashFromNowhere | licenses/github.com/anacrolix/torrent/piece.go:454-461 | Over a run, a hash that is over at the end and had not begun at the start was begun in between. |
| HashingProofs.WaiterIsServed | licenses/github.com/anacrolix/torrent/piece.go:226-256 | A verification target stays promised in every continuation, and is reached only by a hash that began after the request. |
| HashingProgress.EveryEventWorks | licenses/github.com/anacrolix/torrent/torrent.go:2794-2808 | A section of a hasher takes away at least one from the work on queued, hashed and marked pieces; a written chunk or a check adds two at most, an info two for each piece, and nothing else adds any. |
| HashingProgress.RunWorks | licenses/github.com/anacrolix/torrent/torrent.go:2794-2808 | So over any run hashers have no more sections than the work at the start and what other events add. |
| HashingProgress.QuietMeansServed | licenses/github.com/anacrolix/torrent/piece.go:226-256 | With no hasher at work and limits above zero, nothing is queued for a caller that waits on an open torrent, and it has what it waits for. |
| HashingProgress.HasherGoesOn | licenses/github.com/anacrolix/torrent/torrent.go:2794-2808 | A hasher at work can always take its next section. |
| HashingProgress.WaitEnds | licenses/github.com/anacrolix/torrent/piece.go:226-256 | So when only hashers go on, a wait ends: they take no more sections than there was work, there is a next one while any is at work, and otherwise every wait on an open torrent is over. |
| HashingProofs.PieceIsLookedAfter | licenses/github.com/anacrolix/torrent/peer.go:392-445 | On an open torrent a fully received piece without pending writes is queued, hashing or marking; a queued one waits only at a limit. |
| HashingProofs.StartAllKeepsCore | licenses/github.com/anacrolix/torrent/client.go:2001-2022 | Letting every torrent start hashers keeps the counters and leaves no startable hasher unstarted. |
| Hashing.State.PieceToHash | licenses/github.com/anacrolix/torrent/torrent.go:2821-2830 | The first queued piece that is neither hashed nor marked, and none exactly when there is none. |
| HashQueue.Client.StartHash | licenses/github.com/anacrolix/torrent/torrent.go:2810-2819 | Starting a hash clears the queue flag, sets hashing and counts the hasher twice. |
| HashQueue.Client.GetPieceToHash | licenses/github.com/anacrolix/torrent/torrent.go:2821-2830 | The scan finds what the specification names. |
| HashQueue.Client.StartPieceHashers | licenses/github.com/anacrolix/torrent/torrent.go:2771-2791 | The loop over both limits does what the state machine says. |
| HashQueue.Client.StartAllHashers | licenses/github.com/anacrolix/torrent/client.go:2001-2022 | So does the loop over the torrents. |
| HashQueue.Client.QueuePieceCheck | licenses/github.com/anacrolix/torrent/torrent.go:2924-2941 | Queueing returns the next novel hash count and does what the state machine says. |
| HashQueue.Client.VerifyData | licenses/github.com/anacrolix/torrent/piece.go:226-256 | The waiter is recorded with that target. |
| HashQueue.Client.BeginWrite | licenses/github.com/anacrolix/torrent/peer.go:386-399 | Dirty bit and pending write are set under the lock. |
| HashQueue.Client.EndWrite | licenses/github.com/anacrolix/torrent/peer.go:408-445 | The steps after the write are the state machine's, with the pending-writes panic out of reach. |
| HashQueue.Client.FinishHash | licenses/github.com/anacrolix/torrent/torrent.go:2794-2808 | The hasher takes the next piece or lets others start. |
| HashQueue.Client.HashDone | licenses/github.com/anacrolix/torrent/torrent.go:2857-2893 | The steps of a finished hash are the state machine's. |
| HashQueue.Client.MarkDone | licenses/github.com/anacrolix/torrent/torrent.go:2614-2722 | So are those of a finished mark. |
| HashQueue.Client.UpdateCompletion | licenses/github.com/anacrolix/torrent/torrent.go:1767-1842 | So are those of a fetched completion, which pends chunks only when it changed. |
| HashQueue.Client.SetInfo | licenses/github.com/anacrolix/torrent/torrent.go:587-612 | The loop over the new pieces, with the checks it queues, does what the state machine says. |
| Availability.Torrent.AvailabilityIsOpenHolders | licenses/github.com/anacrolix/torrent/piece.go:367-369 | With the info known, the availability of a piece is the number of open connections that have it, and its cached part is not negative. |
| Availability.Torrent.AllClosedMeansZero | licenses/github.com/anacrolix/torrent/torrent.go:1149-1156 | With all connections closed every counter is zero. |
| Availability.Torrent.AddConn | licenses/github.com/anacrolix/torrent/torrent.go:2492-2540 | A fresh connection counts for nothing. |
| Availability.Torrent.IncPieceAvailability | licenses/github.com/anacrolix/torrent/torrent.go:268-275 | One piece counts one more once the info is known. |
| Availability.Torrent.DecPieceAvailability | licenses/github.com/anacrolix/torrent/torrent.go:256-266 | One piece counts one less; the panic on a count of zero cannot fire where it is called. |
| Availability.Torrent.PeerSentHave | licenses/github.com/anacrolix/torrent/peerconn.go:460-477 | A have is refused exactly for a piece known not to exist, is counted once, and keeps the accounting. |
| Availability.Torrent.PeerSentBitfield | licenses/github.com/anacrolix/torrent/peerconn.go:479-534 | A bitfield replaces earlier claims, a full one becomes have-all, excess bits are ignored, and the accounting holds. |
| Availability.Torrent.OnPeerHasAllPieces | licenses/github.com/anacrolix/torrent/peerconn.go:536-564 | Have-all moves a connection from the per-piece counts to the set of those with everything. |
| Availability.Torrent.Flip | licenses/github.com/anacrolix/torrent/peerconn.go:479-534 | Turning single claims around keeps the accounting. |
| Availability.Torrent.PeerSentHaveNone | licenses/github.com/anacrolix/torrent/peerconn.go:566-574 | A have-none keeps the accounting exactly when the connection had not sent have-all. |
| Availability.HaveNoneAfterHaveAll | licenses/github.com/anacrolix/torrent/peerconn.go:566-574 | The failing case: have-all and then have-none leaves a holder too many. |
| Availability.Torrent.DecPeerPieceAvailability | licenses/github.com/anacrolix/torrent/torrent.go:1993-2004 | Everything one connection is counted for is taken back, and nothing else. |
| Availability.Torrent.Close | licenses/github.com/anacrolix/torrent/peer.go:217-235 | Closing, once or again, keeps the accounting. |
| Availability.Torrent.SelectiveAvailability | licenses/github.com/anacrolix/torrent/torrent.go:243-254 | The count made when the info arrives is the number of connections it takes to claim the piece. |
| Availability.Torrent.OnSetInfo | licenses/github.com/anacrolix/torrent/torrent.go:587-612 | After the info arrived the accounting is right exactly when every connection's earlier claims fit: closed ones claim nothing, and one with as many pieces as there are has exactly those. |
| Availability.InfoAfterFarClaim | licenses/github.com/anacrolix/torrent/torrent.go:587-612 | The failing case, from an empty torrent: one claim about piece 5, and an info with one piece. |
| Pex.AppendIsNetDiff | licenses/github.com/anacrolix/torrent/pex.go:56-139 | One more toggling event keeps the message the net difference: families, flags, order and both lookup sets. |
| Pex.BuildIsNetDiff | licenses/github.com/anacrolix/torrent/pex.go:56-139 | Over toggling events added is after minus before, dropped is before minus after, without repetition and with the flags of the last add. |
| Pex.GenmsgDelivers | licenses/github.com/anacrolix/torrent/pex.go:217-233 | Replaying a message takes a receiver to the live set at the new position; later messages add 50 and drop 50 at most, the initial one adds exactly the live set and drops nothing; progress is made; an empty one means the rest of the feed cancels out. |
| Pex.ActKeepsFollowing | licenses/github.com/anacrolix/torrent/pexconn.go:64-71 | Events and messages in any order keep a remote's belief equal to the live set at its position. |
| Pex.RunOf | licenses/github.com/anacrolix/torrent/pexconn.go:64-71 | So do whole runs of them. |
| Pex.RemoteCatchesUp | licenses/github.com/anacrolix/torrent/pexconn.go:64-71 | As many messages as there are untold events bring a remote up to date. |
| Pex.AddKeepsToggling | licenses/github.com/anacrolix/torrent/pex.go:176-193 | A new connection keeps the feed toggling exactly when its address is not among the held drops or the drops are released with it. |
| Pex.DropKeepsToggling | licenses/github.com/anacrolix/torrent/pex.go:195-212 | A lost connection always does, held back or not. |
| Pex.HeldDropLosesLiveConnection | licenses/github.com/anacrolix/torrent/pex.go:176-212 | Otherwise a live connection is reported as dropped when the held drops are released. |
| Pex.FeedTogglesWhen | licenses/github.com/anacrolix/torrent/pex.go:176-212 | Over any run of connections that come and go, the feed toggles at every point exactly when none comes back while its drop is held and stays held; then feed, held drops and live connections agree. |
| Pex.LiveConnectionLost | licenses/github.com/anacrolix/torrent/pex.go:176-212 | The failing run, from the start: 24 come, one goes and comes back, one more comes; the feed then has the one dropped, though it is live. |
| Pex.InitialMessageBound | licenses/github.com/anacrolix/torrent/pex.go:217-233 | The initial message adds the connections and the held drops, and is within 50 exactly when there are at most 50 connections. |
| Pex.InitialMessageTooLong | licenses/github.com/anacrolix/torrent/pex.go:217-233 | With 51 it adds 51. |
| PexPeer.MsgFactory.AddEvent | licenses/github.com/anacrolix/torrent/pex.go:56-91 | The in-place factory does what the specification function does with an add. |
| PexPeer.MsgFactory.DropEvent | licenses/github.com/anacrolix/torrent/pex.go:95-128 | And with a drop, flags staying aligned. |
| PexPeer.PexState.Add | licenses/github.com/anacrolix/torrent/pex.go:176-193 | The initial message always covers the whole feed; held drops are released before the add. |
| PexPeer.PexState.Drop | licenses/github.com/anacrolix/torrent/pex.go:195-212 | A drop of a listed connection is held or appended; of an unlisted one ignored. |
| PexPeer.PexState.Genmsg | licenses/github.com/anacrolix/torrent/pex.go:217-233 | The loop over the feed yields the specified message and position. |
| PexPeer.PexConn.Genmsg | licenses/github.com/anacrolix/torrent/pexconn.go:64-71 | An empty message is not sent and leaves the position alone. |
| PexPeer.PexConn.UpdateRemoteLiveConns | licenses/github.com/anacrolix/torrent/pexconn.go:99-121 | The receiver drops first and adds after, in both families; each added address gets the flags sent with it, and others keep theirs. |
| PexPeer.Exchange | licenses/github.com/anacrolix/torrent/pexconn.go:64-121 | Sender and receiver together: the receiver's record is the live set at the sender's position, and all of it when nothing is sent. |
| Arithmetic.CeilDiv32IsExact | licenses/github.com/anacrolix/torrent/math.go:8-12 | Rounding division on 32-bit operands is right exactly when the sum does not leave 32 bits. |
| Arithmetic.CeilDiv32Wraps | licenses/github.com/anacrolix/torrent/math.go:8-12 | Two divided by the largest 32-bit number comes out as zero instead of one. |
| Chunks.Layout.ChunkCounts | licenses/github.com/anacrolix/torrent/torrent.go:1201-1235 | Every piece has at least one chunk, no more than a regular piece, and its length is positive and bounded. |
| Chunks.Layout.PieceExtent | licenses/github.com/anacrolix/torrent/torrent.go:1215-1235 | Pieces tile the torrent: the piece length is what lies between its start and the next piece or the end. |
| Chunks.Layout.FromToRequest | licenses/github.com/anacrolix/torrent/torrent.go:3254-3269 | Index to request and back is the identity on valid indexes. |
| Chunks.Layout.IndexOfChunk | licenses/github.com/anacrolix/torrent/misc.go:108-115 | Every chunk of every piece has a valid index that stands for it. |
| Chunks.Layout.OffsetRequestIsChunk | licenses/github.com/anacrolix/torrent/misc.go:59-80 | The chunk found from an offset is the chunk of a valid index, cut as the per-piece rule cuts it, short last piece included, and contains the offset. |
| Chunks.Layout.OnlyChunkAround | licenses/github.com/anacrolix/torrent/misc.go:59-88 | No other index has a chunk around the offset, so chunks tile the torrent. |
| Chunks.Layout.DirtyBytesAreExact | licenses/github.com/anacrolix/torrent/piece.go:184-197 | The dirty bytes computed from a count are the sum of the lengths of the dirty chunks. |
| Chunks.Layout.DirtyBytesFit | licenses/github.com/anacrolix/torrent/piece.go:184-197 | They are never more than the piece, which is what the disabled panic asks for. |
| Chunks.Layout.BytesLeft | licenses/github.com/anacrolix/torrent/torrent.go:1061-1068 | The sum over incomplete pieces lies between zero and the length, and so do the bytes completed. |
| Chunks.RangeCardinalityRight | licenses/github.com/anacrolix/torrent/roaring.go:8-14 | A range count from ranks is right on proper ranges; on an empty end or a reversed range exactly when the stated stretch is empty. |
| Chunks.EmptyRangeCountsAll | licenses/github.com/anacrolix/torrent/roaring.go:8-14 | The empty range at zero counts a member at five. |
| Chunks.UnsetIsExact | licenses/github.com/anacrolix/torrent/undirtied-chunks-iter.go:7-27 | The chunks still wanted are exactly the unset ones, increasing. |
| Chunks.IterUnsetInRange | licenses/github.com/anacrolix/torrent/undirtied-chunks-iter.go:7-27 | The iterator yields them for every range and bitmap, the wrap-around at zero included. |
| Files.InitFiles | licenses/github.com/anacrolix/torrent/t.go:221-241 | Each file begins where the ones before it end. |
| Files.Progress.LeftInPiece | licenses/github.com/anacrolix/torrent/file.go:67-120 | Counting a piece's written bytes as its first ones, what is left of a stretch of the piece is what lies past them. |
| Files.Progress.FileBytesLeft | licenses/github.com/anacrolix/torrent/file.go:67-120 | The total is what the two boundary pieces and the pieces between come to, between zero and the file; at least the bytes past the written ones counted as first, and exactly those unless the file lies in one incomplete piece under the stated guard. |
| Files.FilesAddUp | licenses/github.com/anacrolix/torrent/file.go:63-134 | Over files laid out in a row the totals add up to at least the bytes past the written ones counted as first, and to exactly those when every total is that count. |
| Files.TorrentLeft | licenses/github.com/anacrolix/torrent/torrent.go:1061-1068 | The torrent's own sum over pieces is the same count over the whole torrent. |
| Files.FilesAgreeWithTorrent | licenses/github.com/anacrolix/torrent/file.go:122-134 | All files together report at least what the torrent reports, and the same exactly when each file's total is exact. |
| Files.NoDirtyIsExact | licenses/github.com/anacrolix/torrent/file.go:67-120 | Without dirty chunks every total is that count. |
| Files.ShortLastPiece | licenses/github.com/anacrolix/torrent/file.go:67-120 | A file that is a short last piece, written but not checked, reports all of it as left. |
| MissingBytes.Store.WrittenPiece | licenses/github.com/anacrolix/torrent/piece.go:184-197 | Byte by byte, a piece has as many written bytes, those in dirty chunks, as the client counts. |
| MissingBytes.Store.TotalAgainstMissing | licenses/github.com/anacrolix/torrent/file.go:67-120 | For any dirty chunks, a file's total exceeds the bytes really missing by its written bytes in its first and last piece less what the sum takes off there. |
| MissingBytes.Store.TotalIsExact | licenses/github.com/anacrolix/torrent/file.go:67-120 | So the total is exact, too small or too large exactly as those written bytes equal, fall short of or exceed what is taken off. |
| MissingBytes.Store.TorrentIsExact | licenses/github.com/anacrolix/torrent/torrent.go:1061-1068 | The torrent's own sum is the number of bytes really missing, wherever dirty chunks lie. |
| MissingBytes.Store.OrderedTotal | licenses/github.com/anacrolix/torrent/file.go:67-120 | When the dirty chunks of the first and last piece are their first ones, what is really missing is the count of `Files`, and its statement on the total holds. |
| MissingBytes.ReportedTooSoon | licenses/github.com/anacrolix/torrent/file.go:67-120 | A file with a missing byte that reports none left. |
| MissingBytes.ReportedTooLate | licenses/github.com/anacrolix/torrent/file.go:67-120 | A file with no missing byte that reports one left. |
| RingList.LinkAfter | licenses/github.com/anacrolix/generics/list/list.go:93-101 | Four pointer writes put an element into the ring after another, and the ring is whole again. |
| RingList.Bypass | licenses/github.com/anacrolix/generics/list/list.go:109-116 | Two pointer writes take an element out. |
| RingList.List.LazyInit | licenses/github.com/anacrolix/generics/list/list.go:86-90 | A zero list becomes a ring of the sentinel alone. |
| RingList.List.Insert | licenses/github.com/anacrolix/generics/list/list.go:93-101 | The ring is the old one with the element after the given position. |
| RingList.List.Unlink | licenses/github.com/anacrolix/generics/list/list.go:109-116 | The ring is the old one without the element, whose own pointers are cleared. |
| RingList.List.Move | licenses/github.com/anacrolix/generics/list/list.go:119-130 | The ring is the old one with the element taken out and put after the other. |
| RingList.List.Remove | licenses/github.com/anacrolix/generics/list/list.go:135-142 | Elements of other lists are left alone; an own one leaves the list. |
| RingList.List.PushFront | licenses/github.com/anacrolix/generics/list/list.go:145-148 | The new element comes first. |
| RingList.List.PushBack | licenses/github.com/anacrolix/generics/list/list.go:151-154 | The new element comes last. |
| RingList.List.InsertBefore | licenses/github.com/anacrolix/generics/list/list.go:159-165 | Right before the mark, or nothing for a foreign mark. |
| RingList.List.InsertAfter | licenses/github.com/anacrolix/generics/list/list.go:170-176 | Right after the mark, or nothing for a foreign mark. |
| RingList.List.MoveToFront | licenses/github.com/anacrolix/generics/list/list.go:181-187 | First, the others in their order. |
| RingList.List.MoveToBack | licenses/github.com/anacrolix/generics/list/list.go:192-198 | Last, the others in their order. |
| RingList.List.MoveBefore | licenses/github.com/anacrolix/generics/list/list.go:203-208 | Right before the mark, the others in their order, when both are of the list and differ. |
| RingList.List.MoveAfter | licenses/github.com/anacrolix/generics/list/list.go:213-218 | Right after the mark, likewise. |
| RingList.List.PushBackList | licenses/github.com/anacrolix/generics/list/list.go:222-227 | The values of the other list follow, also when it is the list itself; the other list is unchanged. |
| RingList.List.PushFrontList | licenses/github.com/anacrolix/generics/list/list.go:231-236 | The values of the other list precede, also when it is the list itself. |
| RingList.MovedNextTo | licenses/github.com/anacrolix/generics/list/list.go:119-130 | Moving along the ring means moving next to the mark in the sequence of elements. |
| OrderedBitmap.AgreeRemove | licenses/github.com/anacrolix/torrent/ordered-bitmap.go:66-73 | So does removing from all three. |
| OrderedBitmap.SizesAgree | licenses/github.com/anacrolix/torrent/ordered-bitmap.go:27-29 | The list is as long as the bitmap has members. |
| OrderedBitmap.Bitmap.GetCardinality | licenses/github.com/anacrolix/torrent/ordered-bitmap.go:27-29 | The length of the list is the number of members. |
| OrderedBitmap.Bitmap.Add | licenses/github.com/anacrolix/torrent/ordered-bitmap.go:35-40 | A new member comes last in the order; a known one keeps its place. |
| OrderedBitmap.Bitmap.CheckedRemove | licenses/github.com/anacrolix/torrent/ordered-bitmap.go:66-73 | True exactly for a member, which leaves all views; the others keep their order. |
| OrderedBitmap.Bitmap.Iterate | licenses/github.com/anacrolix/torrent/ordered-bitmap.go:46-54 | Members are visited in insertion order until the visitor stops it. |
| Heap.StepDown | licenses/github.com/anacrolix/generics/heap/heap.go:100-118 | Swapping with the smaller child keeps everything in order but the element sunk. |
| Heap.StepUp | licenses/github.com/anacrolix/generics/heap/heap.go:89-98 | Swapping with the parent keeps everything in order but the element floated. |
| Heap.RootIsLeast | licenses/github.com/anacrolix/generics/heap/heap.go:15-33 | Nothing in a heap is below its root, for any strict weak order. |
| Heap.Slice.Init | licenses/github.com/anacrolix/generics/heap/heap.go:41-47 | Heap order is established and the elements are the same. |
| Heap.Slice.Push | licenses/github.com/anacrolix/generics/heap/heap.go:51-54 | One element more, in heap order. |
| Heap.Slice.Pop | licenses/github.com/anacrolix/generics/heap/heap.go:59-64 | A least element leaves, the rest stay a heap. |
| Heap.Slice.Remove | licenses/github.com/anacrolix/generics/heap/heap.go:68-77 | The element at the index leaves, the rest stay a heap. |
| Heap.Slice.Fix | licenses/github.com/anacrolix/generics/heap/heap.go:83-87 | After one element was rewritten the heap is restored with the same elements. |
| Heap.Slice.Up | licenses/github.com/anacrolix/generics/heap/heap.go:89-98 | Floating ends in heap order; the truncating parent of the root is the root. |
| Heap.Slice.Down | licenses/github.com/anacrolix/generics/heap/heap.go:100-118 | Sinking ends in heap order below, says whether it moved, and leaves the tail alone. |
| Heap.Slice.Drain | licenses/github.com/anacrolix/torrent/requesting.go:349-366 | Heapify and repeated pops yield a sorted permutation. |
| LessByValue.LessIsLex | licenses/github.com/anacrolix/torrent/requesting.go:92-184 | The chain of comparisons is a lexicographic comparison of weights, and panics exactly on a request compared with itself. |
| LessByValue.BeforeIsTotalOrder | licenses/github.com/anacrolix/torrent/requesting.go:92-184 | In a frozen state it is a strict total order on requests. |
| LessByValue.FullerOwnerFirst | licenses/github.com/anacrolix/torrent/requesting.go:141-146 | Of two chunks others have, alike so far, that of the fuller owner comes first: the order moves with the counts that stealing changes. |
| LessByValue.HeapMayUse | licenses/github.com/anacrolix/torrent/requesting.go:349-353 | So it is an order the heap works with. |
| Dht.LongerPrefixIsCloser | licenses/github.com/anacrolix/dht/v2/table.go:66-74 | Whoever shares a longer prefix with the target is strictly closer in the XOR metric. |
| Dht.BucketIndex | licenses/github.com/anacrolix/dht/v2/table.go:66-74 | The bucket of an identifier is the first bit in which it differs from the root. |
| Dht.RandomIdInBucket | licenses/github.com/anacrolix/dht/v2/misc.go:30-37 | The identifier made for a bucket lands in that bucket, whatever the random bits. |
| Dht.UpperBucketIsCloser | licenses/github.com/anacrolix/dht/v2/table.go:92-111 | For i above j, both at or below the target's bucket, every node of bucket i is strictly closer to the target than every node of bucket j. |
| Dht.SkippedBucketIsCloser | licenses/github.com/anacrolix/dht/v2/table.go:92-111 | Nodes of buckets above the target's are closer than those of buckets below it, though the search never looks there. |
| Dht.OwnBucketIsCloser | licenses/github.com/anacrolix/dht/v2/table.go:92-111 | Every node of the target's own bucket is strictly closer to the target than every node of the buckets above. |
| Dht.SearchIsRight | licenses/github.com/anacrolix/dht/v2/table.go:92-111 | The result is full and beats every matching node above the target's bucket exactly when there is none, or the target's own bucket has k matching nodes. |
| Dht.SearchSkipsCloser | licenses/github.com/anacrolix/dht/v2/table.go:92-111 | The failing search, on a table built by adding two nodes: the one below the target's bucket is returned, the one above is closer. |
| DhtClosest.DistanceDecides | licenses/github.com/anacrolix/dht/v2/table.go:92-111 | Only equal identifiers are equally far from a target. |
| DhtClosest.SearchIsClosestWhen | licenses/github.com/anacrolix/dht/v2/table.go:92-111 | Whatever order buckets are ranged over in, every result is the k closest matching nodes exactly when none lies above the target's bucket or that bucket has k, and a bucket cut at k holds one identifier only. |
| DhtClosest.SearchMissesTarget | licenses/github.com/anacrolix/dht/v2/table.go:92-111 | A table, built by two additions, that has the very node searched for: a search for one node may return the other of its bucket. |
| Dht.AddKeepsPlaced | licenses/github.com/anacrolix/dht/v2/table.go:113-134 | An added node sits in its bucket, no two alike, within the bucket size. |
| Dht.AddKeepsIndexed | licenses/github.com/anacrolix/dht/v2/table.go:113-134 | The address index lists it too. |
| Dht.DropKeepsPlaced | licenses/github.com/anacrolix/dht/v2/table.go:39-53 | Dropping keeps the buckets proper and removes one node. |
| Dht.DropKeepsIndexed | licenses/github.com/anacrolix/dht/v2/table.go:39-53 | The address index loses exactly that node, and an entry left empty. |
| Dht.Table.GetNode | licenses/github.com/anacrolix/dht/v2/bucket.go:50-57 | The search finds a node with the address and identifier exactly when there is one. |
| Dht.Table.AddNode | licenses/github.com/anacrolix/dht/v2/table.go:113-134 | Each refusal is given in its case, a success adds exactly the node, and the table stays valid. |
| Dht.Table.DropNode | licenses/github.com/anacrolix/dht/v2/table.go:39-53 | Dropping panics exactly for a node that is not stored, and otherwise removes exactly it. |
| Dht.Table.AddrNodes | licenses/github.com/anacrolix/dht/v2/table.go:30-37 | The nodes at an address are exactly the stored ones; no lookup comes back empty. |
| Dht.Table.ClosestNodes | licenses/github.com/anacrolix/dht/v2/table.go:92-111 | At most k different matching nodes at or below the target's bucket; a node left out there is in no higher bucket than any returned, and strictly farther when in a lower one; nodes above are rightly left out exactly when there are none or the target's own bucket has k. |
| BlockWriter.SplitIsExact | licenses/github.com/anacrolix/torrent/smartban.go:30-82 | A split loses nothing and has only full blocks but the last. |
| BlockWriter.SplitOfFull | licenses/github.com/anacrolix/torrent/smartban.go:58-75 | Full blocks and a short tail are the split of their data. |
| BlockWriter.FoundInSome | licenses/github.com/anacrolix/torrent/smartban.go:37-43 | A peer is found exactly when its data differed in some block at that block's own index. |
| BlockWriter.BlockCheckingWriter.CheckBlock | licenses/github.com/anacrolix/torrent/smartban.go:37-43 | One block more is checked at the next request index. |
| BlockWriter.BlockCheckingWriter.FinishPartialBlock | licenses/github.com/anacrolix/torrent/smartban.go:45-56 | Bytes complete the buffered block first, and it is checked when full. |
| BlockWriter.BlockCheckingWriter.Write | licenses/github.com/anacrolix/torrent/smartban.go:58-73 | All bytes are taken, the buffer stays below the chunk size, and the blocks are the full ones of all data so far. |
| BlockWriter.BlockCheckingWriter.Flush | licenses/github.com/anacrolix/torrent/smartban.go:77-82 | The blocks checked are the split of all data at consecutive indexes. |
| BlockWriter.WriteAll | licenses/github.com/anacrolix/torrent/smartban.go:30-82 | However the stream is cut into writes, the peers found depend on the data alone. |
| Announce.CompareIsLexical | licenses/github.com/anacrolix/torrent/client-tracker-announcer.go:672-703 | The comparison of two announces is a lexicographic comparison of weights. |
| Announce.BeforeIsTotalOrder | licenses/github.com/anacrolix/torrent/client-tracker-announcer.go:227-233 | The index order is a strict total order on announces of different keys. |
| Announce.ActiveLast | licenses/github.com/anacrolix/torrent/client-tracker-announcer.go:672-703 | Behind a running announce of a tracker all announces run. |
| Announce.HeadsAreOrdered | licenses/github.com/anacrolix/torrent/client-tracker-announcer.go:125-138 | The order of heads is antisymmetric, total and transitive. |
| Announce.LeastHead | licenses/github.com/anacrolix/torrent/client-tracker-announcer.go:125-138 | The least head has the fewest running announces, and among equals is running, or not due, only if all are. |
| Dispatcher.StartCounted | licenses/github.com/anacrolix/torrent/client-tracker-announcer.go:439-455 | An announce that starts is counted once for its infohash and once for its tracker. |
| Dispatcher.FinishCounted | licenses/github.com/anacrolix/torrent/client-tracker-announcer.go:457-480 | One that ends is uncounted, and counts of zero disappear. |
| Dispatcher.QuietKeeps | licenses/github.com/anacrolix/torrent/client-tracker-announcer.go:482-513 | Changing an announce that neither starts nor ends leaves the counts alone. |
| Dispatcher.AnnounceDispatcher.FirstOf | licenses/github.com/anacrolix/torrent/client-tracker-announcer.go:240-247 | The first announce of a tracker is the least under the total order. |
| Dispatcher.AnnounceDispatcher.UpdateHead | licenses/github.com/anacrolix/torrent/client-tracker-announcer.go:196-214 | The head of the tracker is its least announce with the current count, or absent, and other heads are untouched. |
| Dispatcher.AnnounceDispatcher.UpdateData | licenses/github.com/anacrolix/torrent/client-tracker-announcer.go:140-149 | After each write to the table all heads are right. |
| Dispatcher.AnnounceDispatcher.SetInfohashAnnouncing | licenses/github.com/anacrolix/torrent/client-tracker-announcer.go:150-181 | All announces of an infohash learn its new count, and all heads follow. |
| Dispatcher.AnnounceDispatcher.SetTrackerAnnouncing | licenses/github.com/anacrolix/torrent/client-tracker-announcer.go:182-191 | A tracker's count changes within its limit and disappears at zero, with its head following. |
| Dispatcher.AnnounceDispatcher.UpdateOverdue | licenses/github.com/anacrolix/torrent/client-tracker-announcer.go:336-362 | Afterwards an announce is overdue exactly when its time has come. |
| Dispatcher.AnnounceDispatcher.StartAnnounce | licenses/github.com/anacrolix/torrent/client-tracker-announcer.go:439-455 | Starting keeps every count, agreement and head, and marks exactly that announce. |
| Dispatcher.AnnounceDispatcher.FinishedAnnounce | licenses/github.com/anacrolix/torrent/client-tracker-announcer.go:467-480 | Ending does too; no count goes below zero. |
| Dispatcher.AnnounceDispatcher.AddKey | licenses/github.com/anacrolix/torrent/client-tracker-announcer.go:378-401 | A new announce agrees with its infohash's count; a known one is left alone. |
| Dispatcher.AnnounceDispatcher.SyncInput | licenses/github.com/anacrolix/torrent/client-tracker-announcer.go:482-513 | Taking over new inputs keeps all of it. |
| Dispatcher.AnnounceDispatcher.HeadOf | licenses/github.com/anacrolix/torrent/client-tracker-announcer.go:196-214 | A tracker's head runs only if all its announces run, and is due if one that does not run is. |
| Dispatcher.AnnounceDispatcher.GetNextAnnounce | licenses/github.com/anacrolix/torrent/client-tracker-announcer.go:615-620 | What is offered does not run, has room, and comes before every announce of the table; nothing is offered exactly when nothing could start; and what is offered is not due exactly when everything due that could start waits behind a tracker with less running and nothing due. |
| Dispatcher.DueAnnounceWaits | licenses/github.com/anacrolix/torrent/client-tracker-announcer.go:615-620 | A dispatcher, built by its own calls, in which a due announce could start and one that is not due is offered. |
| Dispatcher.AnnounceDispatcher.DispatchAnnounces | licenses/github.com/anacrolix/torrent/client-tracker-announcer.go:411-437 | Exactly the returned announces were started, each once, none that ran, all due; what is due and could start waits only as stated. |
| Service.Engine.AddMagnet | internal/server/torrent/engine.go:87-108 | A refused magnet changes nothing; one without info or verification is dropped, even if it was tracked before. |
| Service.Engine.Remove | internal/server/torrent/engine.go:143-170 | The torrent is untracked whatever happens to its files; its two paths go by name, up to the one where deleting fails. |
| Service.TorrentRepository.Delete | internal/server/database/torrent.go:170-188 | Deleting a row deletes its pieces. |
| Service.TorrentService.Add | internal/server/service/torrent.go:141-148 | Adding keeps "no paused torrent is tracked" exactly unless a paused row has the hash. |
| Service.TorrentService.Remove | internal/server/service/torrent.go:229-259 | Removing leaves no row, no tracking and no known piece; of all paths on disk exactly the torrent's own two go, exactly when the engine tracked it and it was asked for or incomplete. |
| Service.TorrentService.Pause | internal/server/service/torrent.go:276-296 | The torrent leaves the engine whatever fails; success means paused. |
| Service.TorrentService.Resume | internal/server/service/torrent.go:308-336 | Success means unpaused and tracked, and every failure path is given; the rule holds exactly unless a running torrent was refused by the client and the rollback worked. |
| Service.TorrentService.Restore | internal/server/service/torrent.go:342-371 | From an empty engine exactly the unpaused torrents whose adding succeeded are tracked, in any order. |
| Service.TorrentService.Restart | internal/server/server.go:46-69 | A restart, wherever it ends, keeps all rows; when the server comes up the rule holds and the cache is the table, whatever was tracked before. |
| Service.SharedName | internal/server/torrent/engine.go:143-170 | Two torrents of one name: removing the unfinished one, without asking for its content to go, deletes the finished one's. |
| Service.AddWhilePaused | internal/server/service/torrent.go:141-148 | Added, paused and added again, a torrent is paused and tracked; a restart sets that right. |
| Service.ResumeWhileRunning | internal/server/service/torrent.go:308-336 | Resumed while it runs and refused by the client, a torrent is paused and tracked. |
| Service.PartialContentStays | internal/server/service/torrent.go:229-259 | Of a paused torrent the content stays even when its deletion is asked for. |
| Service.Run | internal/server/service/torrent.go:141-371 | Over any run of calls and restarts with any failures, whenever the server is up the rule and the piece cache hold, up to the first of the two harmful calls; when the client refuses no stored magnet, only adding what is paused is one. |
| PieceCache.ScanIsTable | internal/server/database/piece.go:47-86 | A scan that reads each row reads the table. |
| PieceCache.PieceRepository.Load | internal/server/database/piece.go:47-86 | The cache becomes the table, or stays as it was when the scan fails. |
| PieceCache.PieceRepository.Set | internal/server/database/piece.go:106-119 | Row and cache change together or not at all. |
| PieceCache.PieceRepository.Forget | internal/server/database/piece.go:127-134 | Exactly the entries of the hash leave the cache. |
| PieceCache.Run | internal/server/database/piece.go:91-134 | Over any run of writes and removals reads agree with the table for every key. |
| PieceCache.RemovedStartsAfresh | internal/server/service/torrent.go:248-256 | A removed hash has no known piece until one is written again. |

## Left out

- Requests.PeerConn.FillRequests: takes the chunks in the order the heap yields them as a
  sequence, because the order compares request counts that stealing changes under the heap;
  `LessByValue` and `Heap` are about a state that stands still.
- Requests.PeerConn.Request: the checks before a request that depend on hashing, marking,
  queueing, choking and the remote's pieces, with their panics, are not part of this model; the
  chunks they are about were excluded earlier.
- Requests.Torrent.AddConn: the limits on connections and duplicate peer ids are not modelled.
- Stealing.StealRunsEnd: times of useful chunks stand still during the run, and nothing but
  stealing happens; `Requests.Torrent.ConsiderAll` likewise looks only at chunks that have an
  owner.
- HashingProofs.InfoKeeps: every piece has its hash when the info arrives; hashes of version 2
  that come later, with the check they queue, are left out.
- HashQueue.Client.MarkDone: reader, priority, trust and ban bookkeeping around the outcome of
  a hash has no effect on the queue and is left out.
- HashingProofs.WaiterIsServed: a waiter may also leave early, by its context or a closed
  torrent, which ends its interest.
- HashingProgress.WaitEnds: waits end when only hashers go on. While checks and chunks keep
  coming they need not, because the queue is served in the order of pieces.
- Availability.Torrent.PeerSentHave: requests, interest and priorities that follow from a have
  are left out.
- PexPeer.PexState.Genmsg: the linked list of events is the sequence of them, a pointer into it
  a position, and aliasing of the initial message's slices is ignored.
- Pex.BuildIsNetDiff: an add that cancels a drop in the same message does not carry its flags,
  as in the code; addresses of version 4 wrapped in version 6 are not modelled.
- Chunks.Layout.ToRequest: request indexes are unbounded numbers; that they fit 32 bits is asked
  for where ranks are used.
- RingList.List.Init: clearing a list that is not empty leaves elements that still name the
  list, so only initializing an empty list is modelled; element values are written once, and
  the type of values is that of request indexes.
- Heap.Slice.Fix: takes the heap from before the rewriting as a ghost argument.
- Dht.Table.ClosestNodes: nodes of one bucket come in any order, as from a map; their times and
  change notifications of buckets are left out.
- BlockWriter.BlockCheckingWriter.CheckBlock: the ban cache is a function from an index and a
  block to peers, and indexes do not wrap.
- Dispatcher.AnnounceDispatcher.StartAnnounce: the announce itself, its event and its next time
  come from the environment; hashes and addresses are numbers in their order, the ordered
  tables are maps searched for the least record, and fairness between trackers is not claimed.
- Dispatcher.AnnounceDispatcher.UpdateOverdue: one step uses one time throughout.
- Service.Engine.AddMagnet: a magnet link is the hash it names, and pieces found while
  verifying are not written here; how a call fails is an argument.
- Service.TorrentService.Restore: additions come one after the other, and the server is not told
  to stop while they do; a restart resets the objects of the old process instead of making new.
- Service.Engine.Remove: a name is one path component, and a path is there or not.
- Service.TorrentService.Add: files, labels and directories are left out; adding a metainfo file
  ends in the same steps.
- PieceCache.PieceRepository.Load: hashes are compared as values, not as hexadecimal text; calls
  run one after the other.
- The HTTP API, command line, client, pages, configuration and SQL text, which only pass values on.
- Sockets, handshakes, encryption, transports, rate limits, logging and statistics, which are
  input and output.
- Web seeds, which this server turns off, and version 2 layouts (BEP 52).
- Readers, piece priorities, worst-connection choice and clean-chunk iteration past its first
  element, which the code does not decide cleanly.
