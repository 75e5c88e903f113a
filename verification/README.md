# LimyeDB in Dafny

LimyeDB is a vector database written in Go. This project models the parts of it whose correctness
is not visible in any single function, and proves what holds of them for every input, every
schedule or every run:

- the spinning reader-writer lock, over all interleavings of its atomic steps (`RWLock`);
- the search-result cache against concurrent writers (`SearchCache`);
- gossip membership: one node's table (`Gossip`), any number of nodes with a network that loses,
  repeats and reorders messages (`GossipNetwork`), and when their tables converge
  (`GossipConvergence`);
- durability: the write path and log replay over a saved index (`Recovery`, on `PointIndex`), and
  the write-ahead log below it, from writes down to bytes cut anywhere by any number of crashes
  (`Wal`, `WalCrash`, on `Bytes`);
- the binary point format, its legacy prefixes and its layout (`PointCodec`, `PointLayout`);
- these three joined: a changed point, encoded, logged, cut by crashes, replayed, decoded and
  applied to a saved index (`Durability`);
- the ingestion engine with concurrent callers, timer and workers (`Ingestion`);
- the consistent-hashing ring and shard assignment (`HashRing`, `ShardAssignment`);
- the query-result cache (`LruCache`), the token bucket (`TokenBucket`), the generational visited
  set (`VisitedList`), the WHERE-clause splitter and parser (`WhereClause`);
- the product and scalar quantizers, over real numbers (`ProductQuantizer`, `ScalarQuantizer`);
- the sharded store and the merge of its search results (`ShardedStore`, `TopK`).

Code that changes state step by step is a class or a method with loops, proved against a function
on values; the laws are lemmas about that function. Concurrent code is a state machine over its
shared-memory steps, and the laws are about every run of it. Clocks, hash functions, JSON, the
order in which a Go map is walked, the choice of `sort.Slice` among equal keys and the order in
which messages or shard results arrive are parameters or are left open.

`dafny verify dfyconfig.toml` checks the whole project.

## Where the code falls short of what it promises

In each of these cases the model keeps the code as it is, and the lemma named gives the exact
condition, over all inputs, under which the promise holds.

- The lock is exclusive only up to 2^31 threads (`RWLock.ExclusiveExactly`).
- `Upsert` and `InsertV2` leave stale results in the search cache (`SearchCache.FreshExactly`).
- A deleted ID stays taken in the index, so an upsert of an existing point loses it, and replaying
  the whole log over a saved index can lose live points (`Recovery.Collection.Upsert`,
  `Recovery.RecoveryExactly`, `Recovery.ReplayAgainExactly`).
- A batch applies points that it could not log, so the log may no longer give the index back
  (`Recovery.Collection.InsertBatch`).
- A log segment that ends inside a record fails the whole replay at almost every cut, and a torn
  batch swallows the single records after it (`WalCrash.CrashesDeliverExactly`,
  `Wal.ReplayExactly`).
- Multi-vectors and unequal sparse lists do not survive encoding (`PointCodec.RoundTrip`).
- Nodes that hold another one in different states outside the four named ones disagree for good
  (`Gossip.AgreesInTheEndExactly`, `GossipConvergence.ConvergesExactly`).
- Adding a node to the ring can change the lists of keys where two healthy nodes collide
  (`HashRing.AddKeepsListsExactly`).
- Above 256 centroids a product code is cut to its low byte (`ProductQuantizer.RestoresExactly`).
- An untrained scalar quantizer decodes no byte to a number
  (`ScalarQuantizer.DecodesToNumbersExactly`).
- A quantile below one half turns ranges upside down (`ScalarQuantizer.RangesOrderedExactly`).
- Cleanup of idle clients can hand out a full bucket too early, which shows in the answers and
  breaks the rate bound (`TokenBucket.CleanupInvisibleExactly`, `TokenBucket.WindowBoundExactly`).
- A visited list used without the pool starts with every ID visited
  (`VisitedList.IsASetExactly`).
- A `BETWEEN x AND y` condition is split at its AND, because a clause stays whole only without a
  top-level keyword (`WhereClause.SplitWholeExactly`, `WhereClause.BetweenIsSplit`).

## Model

| member | source | states |
|---|---|---|
| `RWLock.CountersExact` | internal/sync/rwlock.go:21-93 | in every interleaving of the atomic steps of all six operations, the reader and writer counters are the number of threads at the matching points, modulo the 32-bit width, and the mutex has at most one holder |
| `RWLock.StepAgrees` | internal/sync/rwlock.go:21-93 | every single step of every thread keeps both counters and the mutex exact |
| `RWLock.StepKeepsReadersOut` | internal/sync/rwlock.go:21-93 | no step puts a reader beside a writer: each side announces itself before it looks |
| `RWLock.MutualExclusion` | internal/sync/rwlock.go:21-93 | with at most 2^31 threads no reader is ever inside with a writer and no two writers are, in any run |
| `RWLock.WrapAdmitsWriter` | internal/sync/rwlock.go:31-54 | with more threads there is a run in which the reader counter wraps to a negative number and a writer enters beside readers |
| `RWLock.ExclusiveExactly` | internal/sync/rwlock.go:21-93 | all runs of n threads are exclusive if and only if n <= 2^31 |
| `RWLock.WriterEntersExactly` | internal/sync/rwlock.go:43-54 | with at most 2^31 threads, a writer that looks goes in if and only if no thread stands between announcing itself as a reader and leaving; otherwise Lock goes on spinning and TryLock backs out |
| `RWLock.ReaderEntersExactly` | internal/sync/rwlock.go:21-38 | with any number of threads, a reader goes past each of its two looks if and only if no thread has announced itself as a writer; otherwise it takes its announcement back |
| `RWLock.UncontendedWriterEnters` | internal/sync/rwlock.go:43-93 | Lock and TryLock end inside when no other thread reads, writes or is at the mutex |
| `RWLock.UncontendedReaderEnters` | internal/sync/rwlock.go:21-75 | RLock and TryRLock end inside when no other thread has announced itself as a writer |
| `RWLock.BlockingEndsInside` | internal/sync/rwlock.go:21-54 | in every run a call of Lock or RLock goes on until its thread is inside |
| `RWLock.NeverStuck` | internal/sync/rwlock.go:21-93 | with at most 2^31 threads, while any call is going on or any thread is inside, some such thread can change the state |
| `SearchCache.StepInv` | pkg/collection/collection.go:256-287 | every step of a search or a write keeps the invariant: locks exclude, phases are truthful, a stale cached entry exists only while every newer write still has its clear pending, searches remember, and every cached result is filed under the query it answers |
| `SearchCache.RunInv` | pkg/collection/collection.go:918-1053 | the invariant holds in every state of every run, with entries evicted at any moment |
| `SearchCache.StaleAfter` | pkg/collection/collection.go:768-794 | after an Upsert or InsertV2 that returned, a later search can be served a result computed before it |
| `SearchCache.FreshExactly` | pkg/collection/collection.go:399-412 | a search that starts after a write of a kind returned never sees an older cached result, in any run, if and only if the write is Insert, InsertBatch or Delete; for Upsert and InsertV2 it can |
| `SearchCache.ServedAnswersQuery` | pkg/collection/collection.go:918-1053 | in every run whatever is served, cached or computed, answers the query that was asked, on a version the index has had |
| `SearchCache.NeverStuck` | pkg/collection/collection.go:256-1053 | while any search or write is going on, one of them can take its next step |
| `Gossip.Gossiper.constructor` | pkg/cluster/gossip.go:100-127 | a new node knows itself as active at incarnation one |
| `Gossip.Gossiper.MergeStates` | pkg/cluster/gossip.go:512-558 | the loop leaves exactly the merge of the table with the received entries |
| `Gossip.Gossiper.Leave` | pkg/cluster/gossip.go:205-217 | own entry becomes Leaving under the next incarnation, all other entries stay, and the last queued message announces it |
| `Gossip.Gossiper.SetMetadata` | pkg/cluster/gossip.go:267-274 | own entry changes under a new incarnation of its own counter |
| `Gossip.Gossiper.StartSuspicion` | pkg/cluster/gossip.go:429-462 | only an entry that is Active and not suspected yet becomes Suspect; all other entries stay |
| `Gossip.Gossiper.ClearSuspicion` | pkg/cluster/gossip.go:464-479 | the suspicion is dropped, and only a Suspect entry becomes Active again; all other entries stay |
| `Gossip.Gossiper.CheckSuspicions` | pkg/cluster/gossip.go:481-510 | exactly the entries whose suspicion expired become Inactive, their incarnations unchanged, and these suspicions are dropped |
| `Gossip.Gossiper.GetAllStates` | pkg/cluster/gossip.go:575-584 | the listing holds every table entry exactly once, in any order |
| `Gossip.Gossiper.HandleMessage` | pkg/cluster/gossip.go:614-650 | the new state and the reply are those of the protocol step, for every message kind |
| `Gossip.QueueKeepsNewest` | pkg/cluster/gossip.go:593-599 | whatever is announced, the broadcast queue keeps the newest hundred messages in order, numbered without a gap |
| `Gossip.PushPullExchanges` | pkg/cluster/gossip.go:614-650 | a push-pull message that is handled, and its reply merged by the sender, is one full exchange |
| `Gossip.MergeIsMaximum` | pkg/cluster/gossip.go:512-573 | per node the merge keeps an entry that was seen and than which none seen is newer in (incarnation, state priority) |
| `Gossip.MergeTakesExactly` | pkg/cluster/gossip.go:512-573 | an entry is taken over if and only if its node is new, its incarnation is higher, or the incarnation is equal and its state comes later in Active, Suspect, Leaving, Inactive, before which any other state comes |
| `Gossip.GravestStateWins` | pkg/cluster/gossip.go:512-573 | among all entries seen of a node at its highest incarnation one Inactive makes the merged entry Inactive, without it one Leaving makes it Leaving, then one Suspect, then one Active |
| `Gossip.MergeInParts` | pkg/cluster/gossip.go:512-558 | merging in several messages is merging their concatenation |
| `Gossip.MergeIgnoresOrder` | pkg/cluster/gossip.go:512-573 | two nodes that heard the same entries agree on incarnation and rank, whatever the order and the repetitions |
| `Gossip.PushPullAgreesExactly` | pkg/cluster/gossip.go:174-202 | after an undisturbed push-pull both sides know the same nodes at the same incarnation and rank, and agree on the state of a node if and only if they did not both hold it at one incarnation in two different states outside the named four |
| `Gossip.AgreesInTheEndExactly` | pkg/cluster/gossip.go:512-573 | any positive number of push-pulls, in either direction, ends in agreement on the state of a node if and only if the two sides were not stuck on it at the start |
| `Gossip.OtherStatesDisagree` | pkg/cluster/gossip.go:560-573 | two nodes, stuck on one entry, that a full exchange leaves exactly as they were |
| `GossipConvergence.RunKnown` | pkg/cluster/gossip.go:174-202 | after any series of push-pulls between any number of nodes, every table holds, for each node, an entry than which none is newer among the starting tables whose contents have reached it |
| `GossipConvergence.ConvergesExactly` | pkg/cluster/gossip.go:512-573 | once push-pulls have carried every starting table to every node, all tables agree on the incarnation and rank of each node, and agree on its state if and only if no two nodes started with newest entries of it in two different states outside the named four |
| `GossipConvergence.GravestSpreads` | pkg/cluster/gossip.go:512-573 | and no table says less of a node than any starting entry at the highest incarnation: what one held as Inactive all hold as Inactive |
| `GossipConvergence.TwiceConnects` | pkg/cluster/gossip.go:174-202 | among n nodes, one node that meets all others twice, in 2(n-1) push-pulls, carries everything to everyone |
| `GossipNetwork.StepOk` | pkg/cluster/gossip.go:205-650 | every step of any node, and every delivery of any message ever sent, keeps the network invariant, and no table goes back |
| `GossipNetwork.RunInv` | pkg/cluster/gossip.go:205-650 | the network invariant holds in every state of every run of any number of nodes with distinct IDs |
| `GossipNetwork.NothingAhead` | pkg/cluster/gossip.go:512-584 | in every run no table and no message carries a higher incarnation for a node than that node, and its own entry carries exactly its counter |
| `GossipNetwork.TablesAdvance` | pkg/cluster/gossip.go:512-558 | between any two moments of a run no table forgets a node or lowers an incarnation |
| `GossipNetwork.NewsIsGrounded` | pkg/cluster/gossip.go:205-650 | in every run a table or message says of a node that it is Leaving only after it called Leave, Suspect only after some node began to suspect it, Inactive only after such a suspicion expired, and nothing outside the four states |
| `GossipNetwork.NeverStuck` | pkg/cluster/gossip.go:560-573 | so no two nodes of such a network are ever stuck on an entry |
| `PointIndex.Hnsw.constructor` | pkg/index/hnsw/hnsw.go:103-135 | a new index holds nothing |
| `PointIndex.Hnsw.Insert` | pkg/index/hnsw/hnsw.go:138-242 | refuses a wrong dimension, an ID that was ever inserted (even after its deletion) and a full index, in this order; otherwise the index gains exactly that point |
| `PointIndex.Hnsw.Delete` | pkg/index/hnsw/hnsw.go:594-613 | the point is marked and its ID stays taken; deleting it again succeeds; an unknown ID is an error |
| `PointIndex.Hnsw.Get` | pkg/index/hnsw/hnsw.go:616-636 | exactly the inserted and not deleted points are found |
| `PointIndex.Hnsw.Size` | pkg/index/hnsw/hnsw.go:639-641 | the difference of the two counters is the number of points a reader can get |
| `PointIndex.ContentsCount` | pkg/index/hnsw/hnsw.go:206-242 | counting nodes and marks counts the points held |
| `PointIndex.SlotLife` | pkg/index/hnsw/hnsw.go:138-636 | an ID is held with its first value from its first insert until it is deleted, and never again; other IDs are not touched |
| `Recovery.Collection.Insert` | pkg/collection/collection.go:256-350 | passes if and only if the point is valid, serializable, and without a vector or of the right dimension under an ID never used; then exactly that point was added; the index is still the replay of the log; when it passes with a vector, a reader gets its payload and its normalized vector |
| `Recovery.Collection.InsertBatch` | pkg/collection/collection.go:353-415 | applies every valid point but logs only those that can be serialized, with the counts of both; the index is still the replay of the log if and only if every new ID comes first with the same value among the applied and among the logged points, or in neither |
| `Recovery.BatchReplaysExactly` | pkg/collection/collection.go:353-415 | two lists of inserts leave the same index if and only if their first points agree on every ID new to the index |
| `Recovery.UnloggedPointIsLost` | pkg/collection/collection.go:385-412 | a batch of one point that cannot be serialized: the point is held, and the log replays to nothing |
| `Recovery.Collection.Upsert` | pkg/collection/collection.go:768-829 | passes if and only if the point is valid, of the right dimension, serializable and its ID was never used; the collection holds its payload and normalized vector afterwards exactly then (or when the call stopped before the log and it was held before); a failing upsert that reached the log deletes the point |
| `Recovery.Collection.Delete` | pkg/collection/collection.go:840-886 | logs first, so also an unknown ID is logged; exactly that point is gone |
| `Recovery.Collection.Get` | pkg/collection/collection.go:832-837 | returns exactly what the index holds under the ID |
| `Recovery.InsertThenGet` | pkg/collection/collection.go:256-837 | a point inserted is read back with its payload and its normalized vector |
| `Recovery.CheckPoint` | pkg/point/point.go:109-129 | a point is accepted if and only if it has an ID, some vector, and only finite coordinates; a missing ID is reported before a missing vector, and that before a coordinate |
| `Recovery.Manager.ReplayWAL` | pkg/collection/recovery.go:82-152 | every collection ends as the replay of its own readable records in log order, whatever other records lie between |
| `Recovery.RecordsForParts` | pkg/collection/recovery.go:82-152 | a collection gets, in log order, exactly the readable records that name it |
| `Recovery.ReplayConcat` | pkg/collection/recovery.go:82-152 | replaying two logs one after the other is replaying their concatenation |
| `Recovery.SlotFate` | pkg/collection/recovery.go:82-152 | a held point survives a replay unchanged if and only if the log neither updates nor deletes it; a deleted one stays deleted |
| `Recovery.ReplayHoldsWritten` | pkg/collection/recovery.go:82-152 | replaying a log over nothing holds exactly the points whose first storing record is followed by no update or delete of the ID, with the payload and the normalized vector of that record |
| `Recovery.HoldsWrittenExactly` | pkg/collection/recovery.go:82-152 | an index holds this if and only if it holds what the replay over nothing gives |
| `Recovery.RecoveryExactly` | pkg/collection/recovery.go:16-152 | replaying the whole log over the state saved after any prefix of it gives exactly what the writes of the log leave, payloads and vectors included, if and only if every point held at the save that was updated or deleted before it is so again after it |
| `Recovery.ReplayAgainExactly` | pkg/collection/recovery.go:82-152 | replaying the log a second time changes nothing if and only if it updates or deletes no point that the first replay left |
| `Recovery.UpsertedPointIsLost` | pkg/collection/recovery.go:120-140 | one upsert, a save and a recovery: the point is gone |
| `Recovery.ErasingRecovers` | pkg/collection/recovery.go:82-152 | over an index whose delete frees the ID, recovery from any save is exact for every log |
| `Wal.RecordRoundTrip` | pkg/storage/wal/wal.go:720-822 | decoding an encoded record gives it back if and only if its lengths and timestamp are within what the reader accepts |
| `Wal.RecordLayout` | pkg/storage/wal/wal.go:720-774 | where each field of an encoded record stands, byte by byte, and what the checksum covers |
| `Bytes.LEByte` | pkg/storage/wal/wal.go:745-771 | byte i of a written number is its digit for 256 to the power of i |
| `Wal.RecordCut` | pkg/storage/wal/wal.go:776-822 | a record cut anywhere is reported as a clean end at 0 and 4 bytes and as an error at every other cut |
| `Wal.BadCrcExactly` | pkg/storage/wal/wal.go:776-822 | a record is refused for its checksum if and only if the checksum is not that of its body |
| `Wal.CorruptRecordFails` | pkg/storage/wal/wal.go:664-688 | a body that does not fit its checksum, anywhere in a segment, fails the replay of the segment |
| `Wal.ReadSegment` | pkg/storage/wal/wal.go:664-688 | the read loop returns the records of the segment, or the error, of the specification |
| `Wal.TornSegment` | pkg/storage/wal/wal.go:664-688 | a segment with a torn last record replays its complete records if and only if 0 or 4 bytes of the torn one remain; any other cut fails the whole replay |
| `Wal.Replay` | pkg/storage/wal/wal.go:593-662 | all segments are read before anything is applied; then the marker automaton delivers, with markers told apart by record type and their size decoded |
| `Wal.Apply` | pkg/storage/wal/wal.go:623-657 | the loop over the collected records delivers what the marker automaton delivers |
| `Wal.BatchSizeBack` | pkg/storage/wal/wal.go:443-455 | a batch size decodes to itself, cut to 32 bits |
| `Wal.ReplayExactly` | pkg/storage/wal/wal.go:593-662 | replay delivers exactly the singles and the complete batches if and only if no torn batch is directly followed by a single record (and batch sizes fit) |
| `Wal.SingleAfterTornBatchIsLost` | pkg/storage/wal/wal.go:593-662 | a record written alone after a torn batch is not delivered |
| `Wal.CrashLeavesPieces` | pkg/storage/wal/wal.go:355-440 | a cut between any two records leaves exactly the entries of whole pieces followed by at most one torn batch |
| `Wal.LeftIsClean` | pkg/storage/wal/wal.go:355-440 | in what one crash leaves no torn batch is followed by a single record |
| `WalCrash.RecordsCut` | pkg/storage/wal/wal.go:355-440 | of a log of whole writes cut between any two records, exactly the complete writes are delivered |
| `WalCrash.SegmentCut` | pkg/storage/wal/wal.go:664-688 | a segment cut at any byte reads as its complete records if the cut falls between two records or just after a length prefix, and fails at every other byte |
| `WalCrash.SegmentsRead` | pkg/storage/wal/wal.go:593-688 | any number of segments, each cut at any byte, read as the complete records of all of them if every one ends between two records or just after a length prefix, and fail otherwise |
| `WalCrash.LifeKeeps` | pkg/storage/wal/wal.go:285-304 | a process starts a segment of its own and leaves whole segments before its last one, so a crash keeps a beginning of its records and only its last segment can end inside one |
| `WalCrash.CrashDelivers` | pkg/storage/wal/wal.go:355-688 | one process, singles and batches over any number of segments, the last one cut at any byte: the replay delivers exactly the records of the complete writes, or fails, by the condition on that cut |
| `WalCrash.CrashesDeliverExactly` | pkg/storage/wal/wal.go:285-688 | any number of processes, each cut at any byte of its last segment: the replay delivers exactly the complete writes of all of them if and only if every cut falls between two records or just after a length prefix and no torn batch is followed on disk by a single write; it fails when a cut does not |
| `PointCodec.EncodePoint` | pkg/point/point.go:161-270 | the writer produces the format, in any order of the named vectors, or fails where a length does not fit |
| `PointCodec.DecodePoint` | pkg/point/point.go:273-392 | the reader computes the decoder, for every byte string |
| `PointCodec.DecodeEncode` | pkg/point/point.go:161-392 | what decoding an encoding gives, for every point and every order of the named vectors |
| `PointCodec.RoundTrip` | pkg/point/point.go:161-392 | the point comes back if and only if its payload survives JSON, it has no multi-vectors, and its sparse lists have equal length |
| `PointCodec.PrefixDecodes` | pkg/point/point.go:273-392 | what every proper prefix of every encoding decodes to: nothing, except at the three legacy cuts and, when there are more sparse values than indices, past the values that are read |
| `PointCodec.OnlyLegacyCuts` | pkg/point/point.go:273-392 | with equal sparse lists, or none, a proper prefix decodes if and only if the payload does and the cut is after the payload, after the named vectors or after the version |
| `PointLayout.EncodingLayout` | pkg/point/point.go:161-270 | the parts of an encoded point in their order, each at its offset |
| `PointLayout.HeadLayout` | pkg/point/point.go:161-203 | where ID, coordinates and payload stand in it |
| `PointLayout.NamesLayout` | pkg/point/point.go:205-238 | the named vectors one behind the other, in the order of the walk |
| `PointLayout.NamedLayout` | pkg/point/point.go:213-238 | where the name and the coordinates of one of them stand |
| `PointLayout.SparseLayout` | pkg/point/point.go:245-270 | where the indices and values of a sparse vector stand, and the single zero byte of none |
| `Durability.ParsesBackExactly` | pkg/collection/collection.go:1391-1406 | a logged insert, upsert or delete is replayed with its meaning if and only if its point survives encoding and decoding as far as the index sees it |
| `Durability.RestorableSurvives` | pkg/collection/collection.go:1391-1406 | every point that the format restores survives |
| `Durability.ReplayGivesChanges` | pkg/collection/recovery.go:82-152 | from the bytes that any number of crashes leave, replay gives each collection exactly the changes of the complete writes, in order |
| `Durability.RecoversExactly` | pkg/collection/recovery.go:82-152 | writes, crashes at any byte, replay and recovery end to end: over an index saved after any beginning of its changes, a collection holds exactly the points that stand in the complete writes, with their payloads and normalized vectors, if and only if every point held at the save that was changed before it is changed again after it; without a saved index it always does |
| `Ingestion.BoundedStep` | pkg/ingestion/ingestion.go:153-289 | every step of callers, timer and workers keeps memory plus what callers past the check still owe within the bound |
| `Ingestion.MemoryBound` | pkg/ingestion/ingestion.go:153-193 | with k callers, in every schedule, tracked memory and its recorded peak stay within maxMemory + (k-1) * largest |
| `Ingestion.BoundIsReached` | pkg/ingestion/ingestion.go:165-187 | whenever points that fit into one batch fill the memory up to one largest point, some schedule of k callers reaches that bound |
| `Ingestion.MemoryIsPresent` | pkg/ingestion/ingestion.go:153-289 | in every schedule tracked memory is exactly what the batch, the queue and the batches in hand add up to, except while one caller, holding the mutex, is between its append and its count: then it is short by exactly that point |
| `Ingestion.AcceptedAreKept` | pkg/ingestion/ingestion.go:182-289 | every accepted point is in the batch, in the queue, in hand or processed, as often as it was accepted |
| `Ingestion.OrderIsKept` | pkg/ingestion/ingestion.go:180-260 | in every schedule batches hold the points in the order of their appends, and leave the queue in the order they came into it |
| `Ingestion.FullBatchIsFlushed` | pkg/ingestion/ingestion.go:180-225 | in every schedule a full batch has a thread in the critical section or a thread that is about to flush it |
| `Ingestion.EverythingCanFinish` | pkg/ingestion/ingestion.go:153-289 | with a worker beside the callers, every schedule can be continued until every accepted point is processed as often as it was accepted and the tracked memory is zero |
| `Ingestion.PeakIsHighest` | pkg/ingestion/ingestion.go:273-285 | the recorded peak is the highest of the memory values compared with it |
| `Ingestion.EstimateGrows` | pkg/ingestion/ingestion.go:362-375 | a point weighs 64, one more for each byte of its ID, four for each coordinate and 64 for each payload field |
| `HashRing.Consistent.constructor` | pkg/cluster/cluster.go:89-98 | an empty ring; a virtual-node count below one becomes 150 |
| `HashRing.Consistent.AddNode` | pkg/cluster/cluster.go:101-118 | the ring stays sorted and names exactly the nodes of the map; it gains exactly the virtual nodes of the new node |
| `HashRing.Consistent.RemoveNode` | pkg/cluster/cluster.go:121-135 | the ring stays sorted and names exactly the nodes of the map; it loses exactly the entries of that node, the others in order |
| `HashRing.Search` | pkg/cluster/cluster.go:148-150 | binary search finds the first entry at or after the hash |
| `HashRing.Consistent.GetNode` | pkg/cluster/cluster.go:138-159 | the node of an entry before which none is met going clockwise from the hash, healthy or not; None on an empty ring |
| `HashRing.Consistent.GetNodes` | pkg/cluster/cluster.go:162-197 | exactly min(n, number of healthy nodes) different healthy nodes, the first ones of the clockwise list |
| `HashRing.WalkIsClockwise` | pkg/cluster/cluster.go:148-197 | the walk meets every entry of the ring as often as it is there, and none later than one that lies farther on from the hash |
| `HashRing.ClockwiseByNearest` | pkg/cluster/cluster.go:162-197 | the nodes of a key are listed by their nearest virtual nodes |
| `HashRing.LabelsDiffer` | pkg/cluster/cluster.go:108-112 | the virtual nodes of a node are labelled with different numbers, written in decimal |
| `HashRing.ClockwiseIsHealthy` | pkg/cluster/cluster.go:162-197 | the clockwise list of every key holds every healthy node exactly once |
| `HashRing.RemoveDisruptsNothingElse` | pkg/cluster/cluster.go:121-197 | for every key the list after removing x is the old list with x deleted, collisions or not |
| `HashRing.RemoveMovesOnlyItsKeys` | pkg/cluster/cluster.go:121-159 | removing a node changes the owner of no key that it did not own |
| `HashRing.AddDisruptsNothingElse` | pkg/cluster/cluster.go:101-197 | for every key, deleting a newly added x from the new list gives the old list, when no two healthy old nodes share a hash |
| `HashRing.AddKeepsListsExactly` | pkg/cluster/cluster.go:101-197 | a new node leaves the list of every key as it was, however it is sorted in, if and only if no two different healthy old nodes share a hash |
| `ShardAssignment.ShardManager.constructor` | pkg/cluster/cluster.go:247-271 | the shards exist unassigned; a negative count becomes 16 |
| `ShardAssignment.ShardManager.AddNode` | pkg/cluster/cluster.go:305-311 | after every addition each shard has a primary and min(R, N) - 1 different replicas, all members, with primary counts differing by at most one |
| `ShardAssignment.ShardManager.RemoveNode` | pkg/cluster/cluster.go:314-320 | the same after every removal that leaves a node; removing the last node leaves the assignment as it was |
| `ShardAssignment.ShardManager.RebalanceShards` | pkg/cluster/cluster.go:323-344 | the assignment loop establishes this for any order in which the nodes are listed |
| `ShardAssignment.AssignedIsSpread` | pkg/cluster/cluster.go:330-343 | the round-robin choice puts the copies of a shard on different members |
| `ShardAssignment.PrimariesShare` | pkg/cluster/cluster.go:330-335 | node i is primary for the quotient of shards by nodes, plus one for the first remainder nodes |
| `ShardAssignment.Balanced` | pkg/cluster/cluster.go:330-335 | no node is primary for more than one shard beyond another |
| `LruCache.Cache.constructor` | pkg/cache/cache.go:32-39 | an empty cache with map and list in step |
| `LruCache.Cache.Get` | pkg/cache/cache.go:42-62 | a hit moves the entry to the front and an expired entry is removed; map and list hold the same keys without repeats |
| `LruCache.Cache.Set` | pkg/cache/cache.go:65-92 | the entry is first with its new expiry; a new key evicts the least recently used entry of a full cache; the capacity is never exceeded |
| `LruCache.Cache.Delete` | pkg/cache/cache.go:95-102 | exactly that key is gone |
| `LruCache.Cache.Clear` | pkg/cache/cache.go:105-111 | nothing is left |
| `LruCache.Cache.RemoveElement` | pkg/cache/cache.go:140-147 | an entry leaves the map and the list together |
| `LruCache.Cache.RemoveOldest` | pkg/cache/cache.go:149-154 | the last entry of the list goes |
| `LruCache.CachedIsLatest` | pkg/cache/cache.go:42-111 | over any trace, what is cached for a key is the latest value set for it and not deleted since |
| `LruCache.HitIsLatest` | pkg/cache/cache.go:42-92 | a hit returns that value, and it has not expired |
| `LruCache.HitExactly` | pkg/cache/cache.go:42-154 | over any trace a get returns a value if and only if the latest value set for the key has not expired, no get found it expired, and at no moment since its last set as many as capacity other keys, used since it and not gone, were ahead of it; and it returns that value |
| `LruCache.RecentHits` | pkg/cache/cache.go:42-92 | a value is found again until it expires as long as fewer than capacity other keys were set or got since |
| `LruCache.Inclusion` | pkg/cache/cache.go:42-154 | over any trace of operations and clock readings, what a smaller cache holds a larger one holds too, with the same value and expiry |
| `ProductQuantizer.NewProductQuantizer` | pkg/quantization/pq.go:25-35 | fails exactly when the dimension is not a multiple of the number of subspaces |
| `ProductQuantizer.Quantizer.Train` | pkg/quantization/pq.go:40-60 | centroid j of every subspace is the piece of vector j; too few vectors are an error that changes nothing |
| `ProductQuantizer.Quantizer.Encode` | pkg/quantization/pq.go:63-96 | the code holds, per subspace, the low byte of the index where the search ended; an untrained quantizer fails |
| `ProductQuantizer.Quantizer.Decode` | pkg/quantization/pq.go:99-116 | the named centroids in a row; a wrong code length is an error, trained or not |
| `ProductQuantizer.Quantizer.Distance` | pkg/quantization/pq.go:120-138 | the squared distance from the query to the decoded vector |
| `ProductQuantizer.Quantizer.BatchDistance` | pkg/quantization/pq.go:142-174 | the table lookup gives, for every code, the squared distance to its decoded vector |
| `ProductQuantizer.NearestCentroid` | pkg/quantization/pq.go:76-91 | the search loop is the scan of the specification |
| `ProductQuantizer.ScanNearest` | pkg/quantization/pq.go:76-91 | the scan ends on a nearest centroid if and only if some centroid is nearer than the largest float, or the first one is nearest |
| `ProductQuantizer.FlatDistance` | pkg/quantization/pq.go:120-138 | squared distances of the subspaces add up to that of the whole vectors |
| `ProductQuantizer.SqExpands` | pkg/quantization/pq.go:76-138 | the squared distance is what the dot products make of it |
| `ProductQuantizer.EncodedNearestExactly` | pkg/quantization/pq.go:63-116 | with at most 256 centroids the decoded code is a nearest one among all k^m codewords if and only if every subspace has a centroid in reach |
| `ProductQuantizer.TruncatedByte` | pkg/quantization/pq.go:92-92 | with more than 256 centroids some training vector does not come back |
| `ProductQuantizer.RestoresExactly` | pkg/quantization/pq.go:40-116 | every one of the first k training vectors decodes to itself, for all training sets, if and only if k <= 256 |
| `TokenBucket.RateLimiter.constructor` | api/rest/middleware.go:36-47 | no client is known |
| `TokenBucket.RateLimiter.Allow` | api/rest/middleware.go:113-141 | the answer and the new bucket of the client; a refusal changes nothing, and no other client is touched |
| `TokenBucket.RateLimiter.Cleanup` | api/rest/middleware.go:56-77 | exactly the clients idle for more than 3600 seconds are forgotten |
| `TokenBucket.WindowBoundExactly` | api/rest/middleware.go:56-141 | over every client, every trace with its cleanups and every window [s, t], at most capacity + rate * (t - s) requests get through, if and only if rate * 3600 >= capacity or capacity < 1 |
| `TokenBucket.GrantedBound` | api/rest/middleware.go:113-141 | without cleanups the bound holds for every rate and every capacity |
| `TokenBucket.SlowBucketOverdraws` | api/rest/middleware.go:56-77 | one token, no refill: two requests get through when a cleanup falls between them |
| `TokenBucket.CleanupInvisibleExactly` | api/rest/middleware.go:56-77 | cleanup changes no answer of any trace if and only if rate * 3600 >= capacity or capacity < 1 |
| `TokenBucket.UsedShows` | api/rest/middleware.go:56-77 | otherwise, from any used bucket, there is a trace on which cleanup changes an answer |
| `TokenBucket.BurstExactly` | api/rest/middleware.go:113-141 | of simultaneous requests of a new client exactly the first whole-capacity ones pass |
| `TokenBucket.PacedPasses` | api/rest/middleware.go:113-141 | a client that waits for one token between its requests is never refused, cleanups or not |
| `WhereClause.SplitByKeyword` | pkg/query/sql_parser.go:356-420 | the loop over depth, quote and buffer computes the split of the specification, which the laws below are about |
| `WhereClause.FindWord` | pkg/query/sql_parser.go:391-399 | the word-boundary test |
| `WhereClause.SplitShorter` | pkg/query/sql_parser.go:312-354 | every part of a split into more than one is shorter than the clause, so the recursion ends on every clause |
| `WhereClause.SplitWholeExactly` | pkg/query/sql_parser.go:356-420 | a trimmed clause comes out whole if and only if the keyword stands nowhere as a word outside quotes and parentheses |
| `WhereClause.CleanExactly` | pkg/query/sql_parser.go:356-420 | a clause written as characters, quoted strings and parenthesized groups is free of a top-level keyword if and only if the keyword begins at none of the characters outside strings and groups |
| `WhereClause.SplitRespectsExactly` | pkg/query/sql_parser.go:356-420 | and if and only if so it is not split |
| `WhereClause.QuotesProtect` | pkg/query/sql_parser.go:370-381 | a string in single or double quotes is never split, whatever it says |
| `WhereClause.ParenthesesProtect` | pkg/query/sql_parser.go:383-389 | a group in parentheses is never split, whatever it says |
| `WhereClause.IdentifierIsWhole` | pkg/query/sql_parser.go:391-399 | a name of letters, digits and underscores is not split even when the keyword is part of it |
| `WhereClause.LowerCaseToo` | pkg/query/sql_parser.go:363-394 | the case of the keyword does not matter |
| `WhereClause.SplitJoin` | pkg/query/sql_parser.go:356-420 | splitting undoes joining, for trimmed, quote-closed, balanced parts free of the keyword at top level |
| `WhereClause.CleanJoin` | pkg/query/sql_parser.go:356-420 | an AND-joined group has no top-level OR when its terms have none |
| `WhereClause.ParsePrint` | pkg/query/sql_parser.go:312-354 | parsing a printed OR of ANDs gives back that tree, AND binding tighter, single groups and terms collapsed, the first error of a term passed on |
| `WhereClause.ParseNegations` | pkg/query/sql_parser.go:345-353 | any number of NOTs before a condition gives that many negations over it; an error of the condition is passed on |
| `WhereClause.BetweenIsSplit` | pkg/query/sql_parser.go:331-343 | a BETWEEN is parsed as the AND of its first half and its upper bound, for every field and all bounds |
| `WhereClause.BetweenExample` | pkg/query/sql_parser.go:331-343 | the clause f BETWEEN 1 AND 2 splits into f BETWEEN 1 and 2 |
| `VisitedList.Tracker.constructor` | internal/pool/pool.go:300-305 | all slots and the generation are zero |
| `VisitedList.Tracker.Add` | internal/pool/pool.go:308-321 | the ID carries the current generation, across growth of the array; tells whether it did before |
| `VisitedList.Tracker.Contains` | internal/pool/pool.go:324-329 | whether the ID carries the current generation |
| `VisitedList.Tracker.Reset` | internal/pool/pool.go:332-339 | the next generation, or all slots zeroed and generation one when the counter wraps |
| `VisitedList.Pool.Get` | internal/pool/pool.go:357-361 | a list from the pool or a new one, always empty |
| `VisitedList.Pool.Put` | internal/pool/pool.go:363-365 | the list is available again |
| `VisitedList.HoldsSinceTake` | internal/pool/pool.go:294-361 | after any history of uses a list holds exactly the IDs added since it was last taken from the pool |
| `VisitedList.NeverTakenHoldsAll` | internal/pool/pool.go:300-329 | a list that was never reset reports every ID it has a slot for as visited |
| `VisitedList.IsASetExactly` | internal/pool/pool.go:294-361 | for every size and history of uses, the list behaves as the set of what was added if and only if it was taken from the pool, or every ID with a slot was added anyway |
| `ScalarQuantizer.SortFloat32s` | pkg/quantization/quantization.go:505-516 | insertion sort in place: ascending, and a permutation |
| `ScalarQuantizer.Quantizer.Train` | pkg/quantization/quantization.go:194-241 | each dimension keeps the two values that the quantile selects from the sorted values of the vectors that reach it; no vectors are an error that changes nothing |
| `ScalarQuantizer.Quantizer.Encode` | pkg/quantization/quantization.go:244-274 | one byte per coordinate, zero where no coordinate is given; an untrained quantizer is first trained on the vector itself |
| `ScalarQuantizer.Quantizer.Decode` | pkg/quantization/quantization.go:277-286 | one value per byte, zero where no byte is given; an untrained quantizer divides by its zero scales |
| `ScalarQuantizer.DecodesToNumbersExactly` | pkg/quantization/quantization.go:277-286 | every decoded byte is a number if and only if the scales are those of a training, and before that none is |
| `ScalarQuantizer.RangesOrderedExactly` | pkg/quantization/quantization.go:213-230 | training gives min <= max for every training set if and only if the quantile is at least one half |
| `ScalarQuantizer.IndexBounds` | pkg/quantization/quantization.go:213-230 | the kept values stand at the whole parts of n(1-q) and nq of the sorted ones |
| `ScalarQuantizer.EncodeIsTruncated` | pkg/quantization/quantization.go:256-271 | on an ordered range the code is the truncated scaled value, between 0 and 255, whatever the platform does with other numbers |
| `ScalarQuantizer.EncodeMonotone` | pkg/quantization/quantization.go:256-271 | a larger coordinate never gets a smaller code |
| `ScalarQuantizer.DecodeWithinStep` | pkg/quantization/quantization.go:244-286 | the decoded value is at most the clamped input and less than one step below it |
| `ScalarQuantizer.EncodesOntoBytes` | pkg/quantization/quantization.go:244-286 | inside a range the decoded value is less than the 255th part of the range too low; the ends and what lies beyond become 0 and 255 |
| `ScalarQuantizer.ByteRoundTripExactly` | pkg/quantization/quantization.go:244-286 | encoding a decoded byte gives it back if and only if it is zero or the range is not degenerate |
| `ScalarQuantizer.UntrainedRoundTrip` | pkg/quantization/quantization.go:248-253 | what Encode of an untrained quantizer makes of any vector is all-zero bytes, and Decode gives the vector back |
| `ShardedStore.Shard.Insert` | pkg/collection/shard.go:123-140 | an insert into the index of the shard with all its errors, refused while the shard is not active |
| `ShardedStore.Shard.Get` | pkg/collection/shard.go:155-160 | a lookup in the shard's index, in any state |
| `ShardedStore.Shard.Delete` | pkg/collection/shard.go:163-172 | a delete in the shard's index, refused while the shard is not active |
| `ShardedStore.ShardManager.constructor` | pkg/collection/shard.go:213-253 | active empty shards standing for one empty index; a count below one becomes one |
| `ShardedStore.ShardManager.Insert` | pkg/collection/shard.go:290-296 | the shards together act as one index: result and new contents are those of inserting into it, except that the room is that of the home shard |
| `ShardedStore.ShardManager.Get` | pkg/collection/shard.go:353-359 | result is that of looking up in the one index |
| `ShardedStore.ShardManager.Delete` | pkg/collection/shard.go:362-368 | result and new contents are those of deleting from the one index |
| `ShardedStore.HomesTakeTurns` | pkg/collection/shard.go:256-288 | hashes less than n apart belong to different shards |
| `TopK.SortCandidates` | pkg/collection/shard.go:342-350 | exchange sort in place: ascending by distance, and a permutation |
| `TopK.Merge` | pkg/collection/shard.go:318-338 | the collected candidates of the shards that answered, in any order of arrival, reduced to their k nearest in ascending order |
| `TopK.MergedKSmallest` | pkg/collection/shard.go:299-339 | the k nearest of the shards' own k nearest are the k nearest of all they hold |
| `TopK.SameDistances` | pkg/collection/shard.go:332-336 | two ascending lists of the k nearest of the same candidates have the same distances, position by position |
| `TopK.SearchIsGlobal` | pkg/collection/shard.go:299-339 | when every shard that answers returns its own k nearest, the merged list is the k nearest of those shards together, whatever the order of arrival and whichever shards fail |
| `TopK.SearchIsDetermined` | pkg/collection/shard.go:299-350 | two searches that get the same answers in whatever order serve the same distances in the same order, those of the k nearest of all that the answering shards hold |

## Left out

- HNSW graph construction and search, DiskANN, payload and sparse indexes: approximate structures whose answers depend on chance; only which points an index holds is modelled.
- The index's node limit (`MaxNodes`) in the recovery model, where the index never fills up, and the errors of memory-mapped storage.
- Floating-point rounding and overflow in distances, quantizers and token counts: arithmetic is over real numbers, with infinities and NaN only where an untrained scalar quantizer divides by zero.
- Wrap-around of 64-bit counters (gossip incarnation and sequence numbers, tracked memory): unbounded integers stand for them.
- Raft, REST and gRPC handlers, authentication, metrics, snapshots, mmap storage and change data capture: not modelled.
- Collections with named vectors in the write path, and creating or deleting collections during replay: not part of the recovery model.
- The order of log and index changes between concurrent writers of one collection: histories are sequential there.
- The count that replay returns, which is only logged.
- Stopping the ingestion engine, its statistics and its garbage-collection monitor: the model is the running engine.
- LruCache.Cache.Set: requires a capacity of at least one, because the eviction loop does not end otherwise.
- The forced removal of the oldest clients of the rate limiter above one hundred thousand entries.
- The self-locking of `startSuspicion`, `checkSuspicions` and `broadcastState` on `nextSeqNo` in the gossiper: the model gives them the number they ask for.
- Gossip restarts of a node under its old ID, where its counter starts again.
- Non-ASCII text in WHERE clauses, which the splitter re-encodes byte by byte, and the parsing of single conditions, which is a parameter.
- Parenthesized WHERE groups, which the single-condition parser does not parse again.
- SemanticCache, binary quantization, sharded locks, worker pools and the other pools: not modelled.
- HashRing.AddDisruptsNothingElse: requires that no two healthy old nodes share a hash, which AddKeepsListsExactly shows to be the exact condition.
- ScalarQuantizer.Quantizer.Train: requires a quantile above zero, no vector longer than the dimension and a value in every column, because the code indexes out of range otherwise.
- ScalarQuantizer.Quantizer.Decode: requires no more bytes than the dimension, because the code indexes out of range otherwise.
- ProductQuantizer.Quantizer.Decode: requires, for a code of the right length, a trained quantizer and bytes that name a centroid, because the code indexes out of range otherwise.
- VisitedList.Pool.Put: requires that the list does not share its array with one already in the pool, which holds for lists from the pool.
- ShardAssignment.ShardManager.AddNode: requires a replication factor of at least one, because the code allocates a list of negative capacity otherwise.
