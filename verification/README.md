# Verified model of the bukt key-value store

bukt is an in-memory key-value store in Go. This project models its core in Dafny and proves
what that core is for:

* **The copy-on-write store** (`internal/engine`). An index of 64 sorted segments behind one
  pointer; writers copy a segment, edit the copy in place and publish a new index; readers take
  no lock. `SegmentIndex`, `BatchDelete` and `MapWeight` say on values what an edit does to the
  map an index stands for, to its size and to its weight. `CowStore` has the store as objects over
  Go slices, proved against those values. `Interleaving*` is the same store as a machine whose
  steps interleave: one writer under the lock, step by step through its in-place edits, any number
  of readers probe by probe, ticks, flushes and panics; its theorems hold over all runs. `CountDrift` is
  a run on the objects after which the key count is negative. `Sharding` puts
  stores side by side.
* **Expiry** (`internal/gc`). A hashed timing wheel (`HashedWheel`), shown equal over all runs
  to a flat map of countdown timers (`WheelTimers`); a heap with a position map (`NearQueue*`),
  proved both as the code is and with a repaired swap; the collector and the delete coalescer
  (`Collector`); and when a key is deleted while its entry can still be read (`EarlyDeletes`).
* **The wire** (`internal/transport/tcp`, `internal/auth`). Frames (`Protocol`), the reassembly of
  a stream and the pooled zero-copy buffer (`Framing`, `Connection`), payloads (`Codec`), and
  access tokens (`Token`).

Time, the random smear, the hash, the keyed hash, the bytes that reads return and the failure of
a write are inputs. `GoTypes` holds Go's fixed-width integers and byte orders.

## Where the code does not do what it is meant to

Each of these is stated as an exact condition or shown by a concrete run; the code is modelled as
it is.

* `deleteBatch` publishes only if the sizes it removed add up to something
  (`internal/engine/in_memory.go:168`). For a batch whose only stored key is the empty one with an
  empty value it counts the key down and cancels it, but leaves it stored
  (`BatchDelete.DeleteTakesEffectIff`, `StoreLosses.SkippedIff`, `CowStores.EmptyKeyDrivesCountDown`).
* `deleteBatch` counts a key down before it cancels it (`internal/engine/in_memory.go:162-163`), and a
  Cancel can panic on a stale position (`internal/gc/near_queue.go:84-86`). The lock is released, nothing is
  published, and the key count stays too low; the HTTP server goes on with it. The keys lost are stated
  step by step (`StoreLosses.StepLoses`), the count is exact if and only if no step loses one
  (`StoreLosses.CountersExact`), the panic is stated on what the collector holds before the call
  (`CowStores.COWIndexStore.DeleteBatch`, `CollectorModel.SomeOrderPanicsIff`), and a run of three Sets
  and a few deletes leaves a negative count (`CountDrifts.CountAfterPanics`).
* The swap of the near queue does not update the position map
  (`internal/gc/near_queue.go:19-23`), which goes stale: Remove can take out another key's entry or
  index past the end. When each operation keeps the map right is stated in `NearQueueIndex`; the
  intended behaviour is proved in `NearQueueRepaired` with a swap that updates the map.
* `handleConn` slices `buf[13:frameLen]` (`internal/transport/tcp/server.go:159`) and panics for a
  length below 13, which `DecodeFrame` accepts (`Framing.FrontAgreesWithDecode`, `Framing.CrashIff`,
  `Connections.PanicsOnZeros`).
* After a failed write the buffer goes back to the pool with its start in front of the last frame
  (`internal/transport/tcp/server.go:167-169`), so the next connection writes over bytes that stored
  keys may view (`Connections.NextConnectionOverwrites`).
* Lengths are cut to 16 bits for strings and 32 bits for values, and the expiry of a token wraps
  around (`Codec.SetRoundTripIff`, `Tokens.ExpiryWrapsIff`).
* The collector adds the ttl as nanoseconds (`internal/gc/gc.go:42`), while the entry's own expiry is
  set in seconds (`internal/service/storage_service.go:48`), so that keys are deleted while their entries
  could be read. When that happens is stated exactly for either queue (`EarlyDeletes.NearEarlyIff`,
  `EarlyDeletes.WheelEarlyIff`), whether it can happen for a given ttl in `EarlyDeletes.EarlyPossibleIff`,
  and a run is shown in `EarlyDeletes.OneMinuteGoneAtOnce`.
* Scheduling a key again replaces its schedule on one of the two queues only (`internal/gc/gc.go:44-46`). What
  the other holds of the key stays and fires at the old time (`EarlyDeletes.OldScheduleStays`).

## Reading the state machine

`StoreSteps` defines the states and steps, `StoreInvariant` what holds in every state. A Set or a
batch delete takes the lock, then per segment copies it, and per key edits the key array, edits the
value array, counts and cancels; it installs the copy in its own index, publishes, accounts for the
size, schedules, and unlocks; each of these is one step, and any step of anyone else may come
between. A reader loads the pointer, loads it again for the segment number, probes, compares the
expiry, does its compare-and-swap, and requests a delete; or it lists the keys of one segment after the
other. Pointers are identities in an explicit
memory, so that sharing is visible: `StoreKeeps.PublishedUnchanged` is a theorem about identities,
not an assumption. Fields marked as history in `State` record the past; the only step that looks at
one is the allocation of an entry, for an identity not used before. `StoreHistory` relates the steps of
one run to each other: what one lookup or listing met on its way, and where an enqueued key went.
`StoreRequests` sees a run from outside: it compares what the store holds and what readers are given with the
arguments of the Sets and Deletes that the run's actions name, not with what the state says of them.

The collector is part of the state. A Cancel or a Schedule whose recorded position is past the end of
the near queue's heap is a step of its own: the lock holder panics, its deferred unlock frees the lock,
and nothing more of its job happens. The HTTP server recovers such a panic
(`internal/transport/http/middleware/recovery.go:11-18`) and the store goes on. In a flush or a TCP
connection it ends the process; there the machine has more runs than the code, those that go on.
`StoreLosses` says what the counters are worth then.

## Model

| member | source | states |
|---|---|---|
| `StoreHistory.LookupsAreAtomic` | internal/engine/in_memory.go:42-77 | over every interleaving of readers, writer, ticks and flushes, a finished Get or Exists finds its key exactly if the abstract map held it at the instant of its first pointer load, although the pointer is loaded a second time for the segment number; a Get of a stored key answers with the entry that map held exactly if it had not expired at the reader's own look at the clock and, for a single read, its counter was 0 at the reader's compare-and-swap, and otherwise answers nothing; it asks for the delete of its key exactly if it found the entry expired or got it for a single read |
| `StoreHistory.LookAndTouchAreRead` | internal/engine/in_memory.go:60-76 | the reader's two steps at an entry, a look at the time and the compare-and-swap or count, are together the read that a Get on the store object does; no other entry changes |
| `StoreRequests.RunIsAtomicMap` | internal/engine/in_memory.go:79-172 | over every run the store holds, entry by entry and field by field, what the Sets and Deletes asked for in the actions of the run make of an empty map, one after the other in the order in which they are published: a Set binds its key to the given entry, never read; a batch takes exactly its keys away or is passed over |
| `StoreRequests.BegunAsAsked` | internal/engine/in_memory.go:79-140 | whoever takes the lock does what its action asks for: a Set its key with the given value, size, ttl, times and single-read flag in a new cell, a Delete exactly its keys, a flush exactly the keys it took from the coalescer |
| `StoreRequests.JobsAsAsked` | internal/engine/in_memory.go:79-172 | the jobs published in a run are the requests of its actions, one by one |
| `StoreRuns.RunReplaysJobs` | internal/engine/in_memory.go:79-172 | over every run the store's map of cells is what the published jobs make of a map one after the other |
| `StoreRequests.StoredAsAsked` | internal/engine/in_memory.go:79-119 | whatever is stored under a key at any step is the entry of one Set of the run for that key |
| `StoreRequests.GivenAsAsked` | internal/engine/in_memory.go:42-77 | whatever a reader is given is the entry of one Set of the run for the reader's key |
| `StoreRuns.SnapshotsAreImmutable` | internal/engine/in_memory.go:89-119 | an index that was ever published shows the same keys and entry pointers in every later state, however the writer shifts arrays meanwhile |
| `StoreRequests.SingleReadServedOnce` | internal/engine/in_memory.go:64-70 | of all Gets of a run, on whatever snapshots, at most one is given the entry of one step that is a Set asking for a single read |
| `StoreRuns.OneHolder` | internal/engine/in_memory.go:64-70 | at most one reader ever holds a cell that is for a single read |
| `StoreRequests.ScheduledAfterSet` | internal/gc/gc.go:36-47 | when a Set is through with its Schedule the key is scheduled if it has a ttl, and nothing is scheduled for it if it has none |
| `StoreRequests.WheelTickFinds` | internal/gc/hashed_wheel.go:106-131 | in any reachable state a tick of the wheel puts exactly the keys whose timer fires into what it enqueues, each once |
| `StoreRequests.NearTickFinds` | internal/gc/gc.go:70-72 | in any reachable state a near tick puts exactly the keys with a due entry on the heap into what it enqueues |
| `StoreLosses.CountersOverRuns` | internal/engine/in_memory.go:101-165 | at every step usedBytes is the total size of the published index, or of the one just replaced while the lock holder has not yet accounted, and is never negative; keyCount is the number of stored keys plus the holder's open counts minus the keys lost: those that a batch counted down before one of its Cancels panicked, and the empty key of each batch that was passed over |
| `StoreLosses.CountersExact` | internal/engine/in_memory.go:162-206 | over all runs, whenever the lock is free usedBytes is the total size of the stored entries, and keyCount, which is never too high, is exact if and only if no step of the run was the panic of a Cancel or the passing over of a batch that finds the empty key alone; without such a step it is never negative |
| `StoreLosses.PositiveCountersExact` | internal/engine/in_memory.go:162-206 | while nothing of size zero is stored, keyCount is exact whenever the lock is free if and only if no Cancel of the run panicked |
| `StoreLosses.StepLoses` | internal/engine/in_memory.go:162-171 | what one step loses, key by key: the stored keys counted down by the batch whose Cancel panics, the empty key at the final test of deleteBatch, and nothing in any other step; the keys stay stored |
| `StoreCounters.PanicCount` | internal/engine/in_memory.go:153-163 | when a Cancel panics the batch has counted down exactly its stored keys up to and including the present one |
| `StoreLosses.CancelPanicsIff` | internal/engine/in_memory.go:162-163 | at that point the Cancel panics exactly if the position that the near queue has on record for the key is past the end of its heap |
| `StoreLosses.SkippedIff` | internal/engine/in_memory.go:168-171 | the final test of deleteBatch passes a batch over, leaving the key count too low by one, exactly when the only stored key of the batch is the empty one with nothing under it |
| `StoreLosses.OnlyPanicsLose` | internal/engine/in_memory.go:146-171 | if every Set of a run stores something of positive size, the run loses a key exactly if a Cancel panics in it |
| `StoreRuns.CollectorOverRuns` | internal/engine/in_memory.go:118-169 | with ticks, panics and flushes interleaved anywhere, every key on the wheel or in the near queue's map is stored, and once a delete is through with its batch neither the wheel's index nor any slot nor that map holds one of its keys |
| `StoreHistory.KeysAreAtomic` | internal/engine/in_memory.go:181-192 | a listing of the keys, segment by segment while writers work, yields every key stored at its pointer load exactly once and no other |
| `StoreHistory.NothingEnqueuedIsLost` | internal/gc/delete_coalescer.go:32-84 | a key that any step of a run enqueues, for the first time or again, is at every later step pending or in a flush, or a later flush has handed it over, the batch delete that took the lock with it holding the key |
| `StoreHistory.HeldOrHandedOver` | internal/gc/delete_coalescer.go:67-84 | no step of any actor takes a key from the coalescer but the flush that hands it to deleteBatch |
| `StoreRuns.CoalescerOverRuns` | internal/gc/delete_coalescer.go:32-84 | at every step the set of keys ever enqueued is that of the keys pending, in flight in a flush, or handed over at some time; a flush holds each of its keys once |
| `StoreRuns.WriterCanMove` | internal/engine/in_memory.go:83-171 | in every reachable state the lock holder has an enabled next step, which may be a panic, so no side condition of the machine hides a behaviour |
| `StoreRuns.WriterCanFinish` | internal/engine/in_memory.go:83-171 | from every reachable state whoever holds the lock can finish and release it by steps of its own alone |
| `StoreRuns.ReaderCanMove` | internal/engine/in_memory.go:50-77 | in every reachable state a reader that is not done has an enabled next step without waiting for anyone |
| `StoreRuns.RunKeepsInvariant` | internal/engine/in_memory.go:79-172 | every run keeps the whole invariant: sorted private and published segments, counters, wheel, readers, single reads, coalescer |
| `StoreRuns.SeenAtLoad` | internal/engine/in_memory.go:51 | what a reader works on is the contents of the store at one prefix of the run, the one ending at its load |
| `StoreKeeps.PublishedUnchanged` | internal/engine/in_memory.go:95-113 | no single step of any actor writes to an array that a published index can reach |
| `StoreKeeps.BuiltInstall` | internal/engine/in_memory.go:118-119 | putting the finished copy of a segment into the new index extends the map edit by that segment's keys and moves size and count by the copy's difference |
| `StoreKeeps.PublishKept` | internal/engine/in_memory.go:118-169 | the index that gets published is the old map with the job done on it; for a batch its delta is zero exactly if all its stored entries have size zero |
| `StoreKeeps.EditKept` | internal/engine/in_memory.go:153-161 | the in-place edit of the key array leaves the segment copy between the old and the new segment, or passes a missing key over |
| `StoreCounters.PublishCount` | internal/engine/in_memory.go:168-171 | publishing commits exactly the keys counted so far; not publishing turns them into an excess of decrements |
| `StoreWheel.StoredChangesAtPublish` | internal/engine/in_memory.go:119-169 | the abstract map changes in the publication step only, and there by the whole effect of the job |
| `StoreWheel.MissingNotScheduled` | internal/engine/in_memory.go:155-156 | a key passed over because the copy does not hold it is neither on the wheel nor in the near queue's map |
| `StoreReaders.LoadAgainOk` | internal/engine/in_memory.go:44-52 | the second load of the pointer yields the segment number that belongs to the first, because every published index has the same number of segments |
| `StoreReaders.ProbeOk` | internal/engine/in_memory.go:54 | one probe of a reader's binary search keeps the answer between its bounds |
| `StoreReaders.EndSearchOk` | internal/engine/in_memory.go:54-58 | where a reader's search ends it has found its key's entry exactly if the map it saw holds the key |
| `StoreReaders.AnswersKept` | internal/engine/in_memory.go:65-67 | a reader comes to hold a single-read entry only if no reader ever held it |
| `KeyOrder.LessIff` | internal/engine/in_memory.go:54 | a string is less than another exactly if they are alike up to a position where the first ends or has the smaller byte |
| `KeyOrder.LessTransitive` | internal/engine/in_memory.go:54 | bytewise lexicographic order, Go's order on strings, is transitive |
| `KeyOrder.LessTotal` | internal/engine/in_memory.go:54 | any two different keys are comparable in that order |
| `KeyOrder.BinarySearch` | internal/engine/in_memory.go:54-58 | the search returns the one position with smaller keys before it and none after it, and says whether the key is there |
| `KeyOrder.SplitFinds` | internal/engine/in_memory.go:54-57 | a stored key can only be at the position where the search ends |
| `SegmentIndex.SegPutExact` | internal/engine/in_memory.go:100-116 | Set on one segment is map update, keeps it strictly sorted with parallel arrays, and moves count and size by what it adds and replaces |
| `SegmentIndex.SegDeleteExact` | internal/engine/in_memory.go:158-161 | closing the gap of one key is removing it from the segment's map; order, parallel arrays, count and size follow |
| `SegmentIndex.ReplaceSegment` | internal/engine/in_memory.go:118-165 | replacing one segment changes the whole map on that segment's keys only, and every key stays in the segment its hash selects |
| `SegmentIndex.PutExact` | internal/engine/in_memory.go:79-119 | Set refines map update on the whole index |
| `SegmentIndex.LookupInContents` | internal/engine/in_memory.go:51-58 | looking a key up by search in its hash's segment is looking it up in the map |
| `SegmentIndex.ContentsSize` | internal/engine/in_memory.go:181-192 | no key is in two segments: the segment lengths add up to the size of the map |
| `BatchDelete.ShrunkFound` | internal/engine/in_memory.go:153-163 | one more key gone from the copy of a segment: map, size lost and the all-zero test |
| `BatchDelete.GroupProgress` | internal/engine/in_memory.go:147-166 | one more group of a batch done: the new index is the old map minus the keys so far, in whatever order groups and keys come and with any duplicates |
| `BatchDelete.ProgressDone` | internal/engine/in_memory.go:146-171 | after the last group the new index is the map minus the batch, its key count lower by the stored keys of the batch, and delta tells whether anything had a size |
| `BatchDelete.DeleteTakesEffectIff` | internal/engine/in_memory.go:168-171 | a batch takes its keys away exactly unless the empty key with nothing under it is the only one of them stored |
| `BatchDelete.DeleteKeepsCountIff` | internal/engine/in_memory.go:162-171 | an exact key count stays exact over a batch exactly if the batch takes effect |
| `MapWeights.IndexWeight` | internal/engine/in_memory.go:194-206 | the total that an index adds up segment by segment is the total entry size of the map it stands for |
| `CowStores.SizeOf` | internal/engine/in_memory.go:198-206 | the length of the key plus that of the value, for an entry whose original size is that length, as the service stores it; with any positive original size, the length of the key plus that; zero only for the empty key with an empty value |
| `Entries.EntrySize` | internal/engine/in_memory.go:198-206 | the same on values, as used by the machine |
| `CowStores.COWIndexStore.constructor` | internal/engine/in_memory.go:32-40 | a new store is empty, with exact counters |
| `CowStores.COWIndexStore.Set` | internal/engine/in_memory.go:79-123 | the contents become the old ones with the key bound to a new cell holding the given entry, count 0, access time now; the counters follow; the collector does what Schedule does, so that afterwards the key is scheduled if it has a ttl and nothing is scheduled for it if it has none; without a ttl it panics exactly if the position recorded for the key is past the end of the heap |
| `CowStores.COWIndexStore.BuildPut` | internal/engine/in_memory.go:86-118 | the index built for a Set stands for the updated map, and every object it does not share with the published one is new |
| `CowStores.PutInCopy` | internal/engine/in_memory.go:95-116 | the copied segment after Set's in-place edit, its size difference, and whether the key is new; the arrays shifted are new ones |
| `GoSlices.Clone` | internal/engine/in_memory.go:95-98 | a copied slice has the same elements in an array of its own |
| `GoSlices.InsertAt` | internal/engine/in_memory.go:107-113 | append, shift and store put one element in at a position, in the same array or a new one |
| `GoSlices.RemoveAt` | internal/engine/in_memory.go:160-161 | shifting the tail over one element takes it out, in the same array |
| `CowStores.COWIndexStore.DeleteBatch` | internal/engine/in_memory.go:127-172 | the contents afterwards and the exact key count change; wheel and near queue are what one Cancel after the other of the stored keys of the batch, each once, in some order, makes of them, so that no key of the batch is left on the wheel. It panics at the first key whose recorded position is past the end of the heap when its turn comes, said in terms of the collector before the call; then nothing is published, the Cancels before it have taken place, and the key count is too low by their number and one |
| `CowStores.COWIndexStore.DeleteEachGroup` | internal/engine/in_memory.go:146-166 | the loop over the groups in arbitrary order: map, size and count of the index under construction, the Cancels gone through, and the key count also after a panic |
| `CowStores.COWIndexStore.DeleteInCopy` | internal/engine/in_memory.go:148-164 | the inner loop on one copied segment: what is left, the size lost, the Cancels gone through, and the key count also after a panic |
| `CowStores.DeleteKey` | internal/engine/in_memory.go:154-161 | search and in-place removal of one key from the parallel arrays |
| `CowStores.COWIndexStore.GroupBySegment` | internal/engine/in_memory.go:140-144 | every key of the batch is in the group of its segment and nothing else is in any group |
| `CowStores.COWIndexStore.Delete` | internal/engine/in_memory.go:125 | Delete is the batch of one key: contents, and one Cancel if the key is stored; it panics exactly if the recorded position of a stored key is past the end of the heap; the count falls by one for a stored key, panic or not |
| `CowStores.COWIndexStore.Lookup` | internal/engine/in_memory.go:50-58 | the shared search of Get and Exists finds what the map holds |
| `CowStores.COWIndexStore.Get` | internal/engine/in_memory.go:50-77 | answered exactly if the key is stored, its entry is not past its expiry and, where it is for a single read, its count was 0; the answer is the stored entry with the count one higher and, unless for a single read, the cached time; the key is handed to the coalescer exactly if the entry is expired or this was its single read; the contents of the store do not change |
| `CowStores.COWIndexStore.ReadEntry` | internal/engine/in_memory.go:60-76 | the same for one entry: expired, first single read, later single read and ordinary read |
| `Entries.ReadExact` | internal/engine/in_memory.go:60-76 | what reading any entry makes of it, answers and dooms, case by case and for entries without an expiry too |
| `CowStores.COWIndexStore.Exists` | internal/engine/in_memory.go:174-179 | true exactly if the key is stored |
| `CowStores.COWIndexStore.Keys` | internal/engine/in_memory.go:181-192 | every stored key exactly once |
| `CowStores.COWIndexStore.Usage` | internal/engine/in_memory.go:194 | the total size of the stored entries |
| `SegmentIndex.KeyListExact` | internal/engine/in_memory.go:188-190 | segment by segment, the listed keys are the keys of the map, each once |
| `CowStores.EmptyKeyDrivesCountDown` | internal/engine/in_memory.go:162-168 | with the empty key stored with nothing under it, any number of its deletes leaves it stored and lowers the key count each time, below zero in the end |
| `CountDrifts.CountAfterPanics` | internal/engine/in_memory.go:162-163 | a, b and c set with rising deadlines, then a deleted: each delete of c panics, leaves b and c stored and lowers the count by one, so that n of them leave a count of 2 - n |
| `Entries.SingleReadAnswersOnce` | internal/engine/in_memory.go:60-70 | of any number of reads of a fresh single-read entry at any times exactly the first that is not too late is answered |
| `ShardModel.WholeUpdate` | internal/engine/sharding.go:46-64 | an operation on the shard of a key is that operation on the one map the shards stand for |
| `ShardModel.WholeSize` | internal/engine/sharding.go:101-107 | the shards share no key: their sizes add up to the size of the whole |
| `MapWeights.WholeWeight` | internal/engine/sharding.go:109-115 | their weights add up to the weight of the whole |
| `ShardModel.ShardMeetsSegment` | internal/engine/sharding.go:32-35 | shard and segment number of a key agree modulo every common divisor of shard count and 64 |
| `ShardModel.OneSegmentPerShard` | internal/engine/sharding.go:32-35 | when 64 divides the shard count, every shard uses one of its 64 segments only |
| `ShardContainers.ShardContainer.constructor` | internal/engine/sharding.go:15-30 | at least one shard, all empty with counts of zero, sharing no object |
| `ShardContainers.ShardContainer.Set` | internal/engine/sharding.go:37-40 | map update on the whole container; the other shards keep their objects and contents; the total of the key counts grows by one exactly for a new key; the collector of the key's shard does what Schedule does and then has the key scheduled exactly as its ttl asks |
| `ShardContainers.ShardContainer.Get` | internal/engine/sharding.go:42-45 | answered exactly if the whole map holds the key, its entry is not past its expiry and, where it is for a single read, its count was 0; the entry's statistics; a delete request to that shard's coalescer exactly if the entry is expired or this was its single read; the contents do not change |
| `ShardContainers.ShardContainer.Delete` | internal/engine/sharding.go:47-50 | the effect of a delete in the shard is the effect of the delete on the whole map; the total of the key counts falls by one exactly for a stored key, also when the delete panics, as it does exactly for a position past the end; the collector of the key's shard cancels the key if it is stored |
| `ShardContainers.ShardContainer.Exists` | internal/engine/sharding.go:52-55 | true exactly if the whole map holds the key |
| `ShardContainers.ShardContainer.Keys` | internal/engine/sharding.go:57-80 | every key of the container exactly once, whatever the order in which shards answer |
| `ShardContainers.ShardContainer.Count` | internal/engine/sharding.go:101-107 | the sum of the shards' key counts, which is the size of the whole map when each count is exact |
| `ShardContainers.ShardContainer.Usage` | internal/engine/sharding.go:109-115 | the weight of the whole map |
| `WheelTimers.WheelRefinesTimers` | internal/gc/hashed_wheel.go:53-131 | over every run of Add, Remove and Advance the wheel behaves as a flat map from keys to countdown timers, and returns exactly the timers that fire, each once |
| `WheelTimers.ReturnedExactly` | internal/gc/hashed_wheel.go:63-131 | while no operation names the key, an Advance returns it exactly if it is the first to look at its deadline late enough, the looks being Advance t+1 and every slotCount-th after it |
| `WheelTimers.ReturnedOnTime` | internal/gc/hashed_wheel.go:63-131 | if Advances are at least a tick apart and the first comes a full tick after the Add, the key is returned on Advance t+1 and on no other |
| `WheelTimers.ReturnedWithinOneTick` | internal/gc/hashed_wheel.go:63-131 | with Advances exactly a tick apart, the first a tick after the Add, an Advance returns the key exactly if it is the one that comes after the later of deadline and Add by at most one tick; a deadline already past is returned by the next Advance |
| `WheelTimers.PastDeadline` | internal/gc/hashed_wheel.go:66-72 | whatever the distances of the Advances, a key added past its deadline is returned by the next one and no other |
| `WheelTimers.ReturnedWithinOneLap` | internal/gc/hashed_wheel.go:63-131 | without that head start it is returned on Advance t+1 or exactly one lap later |
| `WheelTimers.RunTimerExact` | internal/gc/hashed_wheel.go:115-126 | one timer through any list of Advances: when it is still running, and where it then stands |
| `WheelTimers.AdvanceRefines` | internal/gc/hashed_wheel.go:106-131 | one Advance steps every timer and returns exactly those that come due |
| `WheelTimers.AddRefines` | internal/gc/hashed_wheel.go:53-82 | Add sets the timer of its key to as many ticks as fit between now and the deadline, none if that is past, and leaves every other timer |
| `WheelTimers.RemoveRefines` | internal/gc/hashed_wheel.go:84-104 | Remove takes out the timer of its key and no other |
| `WheelModel.IndexAgreement` | internal/gc/hashed_wheel.go:72-103 | keyIndex names slot s for a key exactly if the wheel holds one entry of the key and it lies in slot s |
| `WheelModel.AddKeepsOk` | internal/gc/hashed_wheel.go:74-81 | Add keeps index and slots in agreement and adds its key only |
| `WheelModel.RemoveKeepsOk` | internal/gc/hashed_wheel.go:90-104 | Remove keeps agreement and takes out every entry of the key and nothing else |
| `WheelModel.AdvanceKeepsOk` | internal/gc/hashed_wheel.go:115-130 | Advance keeps agreement; the keys it drops from the index are the ones it returns, each once |
| `HashedWheels.HashedWheel.constructor` | internal/gc/hashed_wheel.go:29-51 | slot count and tick within their limits, empty slots |
| `HashedWheels.HashedWheel.Add` | internal/gc/hashed_wheel.go:53-82 | the wheel object after Add with any smear is the specified wheel |
| `HashedWheels.HashedWheel.Remove` | internal/gc/hashed_wheel.go:84-88 | the wheel object after Remove is the specified wheel |
| `HashedWheels.HashedWheel.RemoveLocked` | internal/gc/hashed_wheel.go:90-104 | the loop finds and splices out the key's entry in place |
| `HashedWheels.HashedWheel.Advance` | internal/gc/hashed_wheel.go:106-131 | the wheel object after Advance is the specified wheel, and so is the list returned |
| `HashedWheels.HashedWheel.SweepCurrent` | internal/gc/hashed_wheel.go:111-128 | the loop that rebuilds a slot keeps, counts down or drops every entry |
| `NearQueueProofs.DrainExact` | internal/gc/near_queue.go:90-108 | on any heap-ordered queue DrainExpired takes out exactly the entries due, earliest first, and leaves a heap of later entries with correct positions |
| `NearQueueProofs.OperationsKeepOrder` | internal/gc/near_queue.go:59-88 | whatever the position map says, Add and Remove keep the heap ordered and every entry's own position right |
| `NearQueueProofs.RemoveAtExact` | internal/gc/near_queue.go:84-86 | heap.Remove takes out the entry at its position and nothing else |
| `NearQueueProofs.PopExact` | internal/gc/near_queue.go:97-104 | heap.Pop takes out the root and nothing else |
| `NearQueueProofs.PushExact` | internal/gc/near_queue.go:72-76 | heap.Push adds one entry, reports where it landed, and keeps the order |
| `NearQueueProofs.FixExact` | internal/gc/near_queue.go:68-71 | changing one deadline and calling heap.Fix changes that entry only and restores the order |
| `NearModel.RootIsEarliest` | internal/gc/near_queue.go:97-101 | in an ordered heap no entry is earlier than the root |
| `NearQueueIndex.CodeSwapAddNewIff` | internal/gc/near_queue.go:19-23 | as the code is, adding a new key keeps the position map right exactly if the entry need not rise above its parent |
| `NearQueueIndex.CodeSwapRescheduleIff` | internal/gc/near_queue.go:68-71 | as the code is, rescheduling keeps the map right exactly if the entry can keep its place |
| `NearQueueIndex.CodeSwapRemoveIff` | internal/gc/near_queue.go:84-86 | as the code is, Remove keeps the map right exactly if the key's entry is the last one |
| `NearQueueIndex.CodeSwapRemoveTakes` | internal/gc/near_queue.go:84-86 | Remove panics exactly if the recorded position is past the end, and otherwise takes out whatever entry stands there |
| `NearQueueIndex.CodeSwapDrainIff` | internal/gc/near_queue.go:97-105 | as the code is, draining keeps the map right exactly if no entry is due at the given time or every entry is |
| `NearQueueIndex.RemoveTakesTheWrongKey` | internal/gc/near_queue.go:19-88 | a run of three calls after which Remove has taken out another key's entry |
| `NearQueueIndex.RemovePanics` | internal/gc/near_queue.go:84-104 | a run of four calls at whose end Remove indexes past the end of the heap |
| `NearQueueRepaired.RepairedAdd` | internal/gc/near_queue.go:59-78 | with a Swap that also updates the map: Add sets the deadline of its key and no other, through every sift |
| `NearQueueRepaired.RepairedRemove` | internal/gc/near_queue.go:80-88 | with that Swap, Remove takes out exactly its key |
| `NearQueueRepaired.RepairedDrain` | internal/gc/near_queue.go:90-108 | with that Swap, draining takes exactly the keys that are due and keeps map and heap in agreement |
| `NearQueues.NearQueue.SiftUp` | internal/gc/near_queue.go:25-30 | container/heap's up on the queue object is the specified sift |
| `NearQueues.NearQueue.SiftDown` | internal/gc/near_queue.go:19-23 | container/heap's down on the queue object is the specified sift |
| `NearQueues.NearQueue.Swap` | internal/gc/near_queue.go:19-23 | the swap updates the two entries' own positions and leaves the map |
| `NearQueues.NearQueue.Add` | internal/gc/near_queue.go:59-78 | the queue object after Add, with its refusal beyond the window and the panic of a stale position |
| `NearQueues.NearQueue.Remove` | internal/gc/near_queue.go:80-88 | the queue object after Remove, or its panic |
| `NearQueues.NearQueue.DrainExpired` | internal/gc/near_queue.go:90-108 | the drain loop on the queue object is the specified drain |
| `CollectorModel.CancelClearsWheel` | internal/gc/gc.go:49-52 | Cancel takes the key, and no other, from the wheel and from the near queue's map |
| `CollectorModel.CancelExact` | internal/gc/gc.go:49-52 | Cancel panics exactly if the recorded position is past the end of the heap; otherwise nothing of the key is on the wheel or in the near queue's map, every other key keeps its timer and its position, and off the heap is the entry at the recorded position and no other |
| `CollectorModel.ScheduleWithoutTtl` | internal/gc/gc.go:36-40 | a Schedule without a ttl does exactly that too |
| `CollectorModel.CancelAllClears` | internal/gc/gc.go:49-52 | so do any number of Cancels, in whatever order |
| `CollectorModel.CancelTurn` | internal/gc/near_queue.go:84-86 | after any Cancels the next one panics exactly if the position recorded for its key before the first of them is at least the heap length then, less the number of cancelled keys that the map named |
| `CollectorModel.SomeOrderPanicsIff` | internal/gc/near_queue.go:84-86 | some order of Cancels of a set of keys panics exactly if one of them would panic as the last |
| `CollectorModel.ScheduleCovers` | internal/gc/gc.go:36-47 | after Schedule with a positive ttl the key is on the near queue or on the wheel, and the wheel lost no key |
| `EarlyDeletes.ReadableIsRead` | internal/engine/in_memory.go:60-76 | an entry that is not for a single read and expires ttl seconds after its creation is answered exactly up to that moment |
| `EarlyDeletes.NearOrWheel` | internal/gc/gc.go:36-47 | a key with a positive ttl goes to the near queue exactly if its deadline, ttl nanoseconds after its creation, is below the limit that the cached clock and the window set, and otherwise to the wheel |
| `EarlyDeletes.SmallTtlStaysNear` | internal/gc/gc.go:42-46 | with the cached clock at most lag behind the creation, a ttl that is together with the lag within the window, counted as nanoseconds, never reaches the wheel |
| `EarlyDeletes.LagReachesTheWheel` | internal/gc/gc.go:42-46 | with a cached clock 9 ms behind, a ttl of one less than the window in nanoseconds reaches the wheel |
| `EarlyDeletes.NearTickHandsOver` | internal/gc/gc.go:70-72 | whatever the position map says, a near tick hands over exactly the keys that have a due entry on the heap |
| `EarlyDeletes.WheelTickHandsOver` | internal/gc/gc.go:73-75 | a wheel tick hands over exactly the keys whose timer is through with its delay and whose deadline has passed |
| `EarlyDeletes.OldScheduleStays` | internal/gc/gc.go:36-47 | scheduling a key again leaves its old schedule on the queue that does not get the new one: a tick of that queue hands the key over exactly when it would have |
| `GoTypes.TruncDivExact` | internal/gc/hashed_wheel.go:64 | Go's division truncates: the quotient is the one whose multiple is nearest on the side of zero |
| `EarlyDeletes.NearEarlyIff` | internal/gc/gc.go:36-72 | for a key that the queue has nothing of, or any key while the position map is right: scheduled on the near queue, with an entry that expires ttl seconds after its creation, it is handed over by a tick while the entry can still be read exactly if the tick's cached clock has reached creation plus ttl nanoseconds, cut to milliseconds, and the wall clock has not passed creation plus ttl seconds |
| `EarlyDeletes.EarlyPossibleIff` | internal/gc/gc.go:42 | for a given lag of the cached clock some near tick is early exactly if the deadline of the collector plus the lag is not after the expiry of the entry, as it is for every lag up to nearly ttl seconds |
| `EarlyDeletes.FirstDueTick` | internal/gc/gc.go:70-72 | of any number of near ticks the first whose cached clock has reached the deadline hands the key over, and none before it |
| `EarlyDeletes.WheelEarlyIff` | internal/gc/gc.go:36-75 | a key scheduled on the wheel is handed over by an Advance while its entry can still be read exactly if that is the first Advance to look at the smeared deadline late enough and the wall clock has not passed creation plus ttl seconds |
| `EarlyDeletes.OneMinuteGoneAtOnce` | internal/gc/gc.go:42 | an entry with a ttl of 60 stored in the millisecond of a near tick is handed over by that tick, and could be read for another 60 seconds |
| `DeleteCoalescers.DeleteCoalescer.constructor` | internal/gc/delete_coalescer.go:16-30 | nothing pending; a flush interval below 5 ms becomes 5, one above 50 ms becomes 50 |
| `DeleteCoalescers.DeleteCoalescer.EnqueueBatch` | internal/gc/delete_coalescer.go:38-48 | the pending keys grow by exactly the batch |
| `DeleteCoalescers.DeleteCoalescer.TakePending` | internal/gc/delete_coalescer.go:67-79 | a flush takes every pending key exactly once and leaves none |
| `GarbageCollectors.GarbageCollector.Schedule` | internal/gc/gc.go:36-47 | the collector object after Schedule, or the near queue's panic with nothing changed; without a panic the key is scheduled if it has a ttl, and nothing is scheduled for it if it has none |
| `GarbageCollectors.GarbageCollector.Cancel` | internal/gc/gc.go:49-52 | the collector object after Cancel, or the panic with nothing changed |
| `GarbageCollectors.GarbageCollector.NearTick` | internal/gc/gc.go:70-72 | what a near tick drains is pending afterwards, and nothing else is added |
| `GarbageCollectors.GarbageCollector.WheelTick` | internal/gc/gc.go:73-75 | what an Advance returns is pending afterwards, and nothing else is added |
| `Connections.HandleConn` | internal/transport/tcp/server.go:108-177 | for any byte stream in any chunks up to 64 KiB: exactly the frames of the whole stream are handed over in order, the connection ends as the stream says, the buffer limit never trips, and every payload handed over, now or by earlier connections on this buffer, still holds its bytes and is out of reach of the next connection, except, after a failed write, the last |
| `Connections.ServeAll` | internal/transport/tcp/server.go:116-125 | one pooled buffer through any number of connections whose writes succeed: every payload ever handed over still holds its bytes |
| `Connections.NextConnectionOverwrites` | internal/transport/tcp/server.go:116-169 | after a failed write the first bytes that the next connection receives leave the last payload as it was exactly if they do not fit behind the buffer start or repeat every byte of it that they reach |
| `Connections.PanicsOnZeros` | internal/transport/tcp/server.go:146-161 | a connection that receives thirteen zero bytes panics and hands nothing over |
| `Connections.Ends` | internal/transport/tcp/server.go:127-176 | a connection whose input is encoded frames and something more hands the frames over and ends by its peer if the rest is an incomplete frame, for its size if it is a header that counts too much, and in a panic if it is one that counts too little |
| `Connections.HandleBuffered` | internal/transport/tcp/server.go:145-175 | the inner loop hands over the complete frames as views of the buffer, keeps the unread rest, and stops for an oversized frame, a length below the header, or a failed write |
| `Connections.Append` | internal/transport/tcp/server.go:143 | append moves to a new array exactly if the bytes do not fit, leaving the old one as it was, and otherwise writes them behind the end and nothing else in the array |
| `Connections.Grow` | internal/transport/tcp/server.go:143 | receiving more bytes keeps every payload handed over so far |
| `Connections.ViewExact` | internal/transport/tcp/server.go:157-161 | the frame handed over is the frame at the front of the buffer, its payload a view of the same bytes |
| `Connections.BinaryBEUint32Exact` | internal/transport/tcp/server.go:179-182 | the shifts and ors read a big-endian number |
| `Connections.BinaryBEUint64Exact` | internal/transport/tcp/server.go:183-187 | the same for eight bytes |
| `Framing.ParseResumes` | internal/transport/tcp/server.go:142-175 | parsing what has arrived and going on with the rest is parsing everything, for every way to cut a stream |
| `Framing.ParseOfEncodings` | internal/transport/tcp/server.go:145-175 | a stream of encoded frames within the payload limit, cut off inside a last one, parses to exactly those frames and keeps the cut |
| `Framing.RestIsShort` | internal/transport/tcp/server.go:139-142 | the unread rest is shorter than the largest frame, so that rest and chunk stay below 17 MiB |
| `Framing.FrontAgreesWithDecode` | internal/transport/tcp/server.go:146-161 | the connection and DecodeFrame read the front of a buffer alike, except that a length below 13, which DecodeFrame accepts, makes the connection panic |
| `Framing.CrashIff` | internal/transport/tcp/server.go:145-161 | behind any encoded frames, the next bytes make the connection panic exactly if they are a whole header with a length below 13 |
| `Framing.TooBigIff` | internal/transport/tcp/server.go:145-153 | behind any encoded frames, the next bytes end the connection for their size exactly if they are a whole header that counts more than the largest frame |
| `Framing.ZerosCrash` | internal/transport/tcp/server.go:146-161 | thirteen zero bytes, which DecodeFrame reads as a frame, make the connection panic |
| `Protocol.Encode` | internal/transport/tcp/protocol.go:50-65 | the bytes of a frame, filled in place |
| `Protocol.DecodeOfEncodeIff` | internal/transport/tcp/protocol.go:50-98 | decoding an encoded frame with anything after it gives it back exactly if its payload is within 16 MiB and the input length as a 32-bit number covers it |
| `Protocol.EncodeOfDecodeIff` | internal/transport/tcp/protocol.go:67-98 | what decodes, encodes to the bytes it came from exactly if its length field counts at least the header |
| `Protocol.NewResponseFrame` | internal/transport/tcp/protocol.go:109-117 | status byte and data as one payload |
| `Protocol.NewErrorFrame` | internal/transport/tcp/protocol.go:119-126 | status byte and message as one payload |
| `Protocol.ResponseRoundTripIff` | internal/transport/tcp/protocol.go:109-139 | a client gets back status, data and request identifier exactly if they fit one payload |
| `Codec.EncodeSetPayload` | internal/transport/tcp/codec.go:30-52 | the SET payload bytes, filled at an advancing offset |
| `Codec.SetLayout` | internal/transport/tcp/codec.go:29-52 | which bytes of a SET payload hold what: three length-prefixed strings, the ttl in two's complement, the flag, the length-prefixed value, at their offsets |
| `Codec.DecodeSetPayload` | internal/transport/tcp/codec.go:54-100 | the decoder stays in bounds on every input and computes the specified parse |
| `Codec.SetRoundTripIff` | internal/transport/tcp/codec.go:30-100 | a SET payload comes back exactly if its strings are shorter than 2^16 and its value shorter than 2^32 |
| `Codec.TakeSetExact` | internal/transport/tcp/codec.go:54-100 | an input decodes to a payload exactly if it is that payload's encoding, within the length limits, with any flag byte of that meaning and anything after it |
| `Codec.SetReencodeIff` | internal/transport/tcp/codec.go:83 | re-encoding what was decoded gives the consumed bytes exactly if the single-read byte was 0 or 1 |
| `Codec.EncodeGetPayload` | internal/transport/tcp/codec.go:103-113 | the GET payload bytes, filled at an advancing offset |
| `Codec.GetLayout` | internal/transport/tcp/codec.go:102-113 | which bytes of a GET payload hold what |
| `Codec.DecodeGetPayload` | internal/transport/tcp/codec.go:115-130 | the GET decoder computes the specified parse |
| `Codec.GetRoundTripIff` | internal/transport/tcp/codec.go:103-130 | a GET payload comes back exactly if its strings are shorter than 2^16 |
| `Codec.TakeGetExact` | internal/transport/tcp/codec.go:115-130 | exactly the encodings of fitting payloads decode |
| `Codec.EncodeDeletePayload` | internal/transport/tcp/codec.go:132-134 | a DELETE payload is encoded as a GET payload |
| `Codec.DecodeDeletePayload` | internal/transport/tcp/codec.go:136-138 | and decoded as one |
| `Codec.ReadString` | internal/transport/tcp/codec.go:16-27 | the length-prefixed string at an offset and the offset behind it, or the error when it does not fit, with the offset before or behind the length field |
| `Codec.WriteString` | internal/transport/tcp/codec.go:8-14 | the low 16 bits of the length and the bytes, behind what is already written |
| `Codec.EncodeValueResponse` | internal/transport/tcp/codec.go:141-167 | the value response bytes |
| `Codec.ResponseLayout` | internal/transport/tcp/codec.go:140-167 | which bytes of a value response hold what |
| `Codec.ResponsesDiffer` | internal/transport/tcp/codec.go:140-167 | two value responses within the length limits are equal if their bytes are |
| `Tokens.GenerateToken` | internal/auth/token.go:25-64 | name, expiry and signature with their separators, filled at an advancing position; with a lifetime of zero or less the token is accepted at every time, with a positive one whose sum with the time of issue stays below 2^63 up to that sum and not later, if no byte of name or expiry is a dot |
| `Tokens.ValidateToken` | internal/auth/token.go:68-131 | true exactly if the token is name '.' expiry '.' signature of these for the expected name, no dot inside name or expiry, and not expired |
| `Tokens.Separators` | internal/auth/token.go:78-102 | the two scanning loops find the separators of every acceptable token |
| `Tokens.AcceptsIff` | internal/auth/token.go:78-131 | position by position, what an acceptable token is: the name, a dot, eight bytes of expiry without a dot, a dot, and the keyed hash of everything before that dot |
| `Tokens.GeneratedAcceptedIff` | internal/auth/token.go:25-131 | a generated token for a non-empty name is accepted for it exactly if the name has no dot, no expiry byte is a dot, and it has not expired |
| `Tokens.Lifetimes` | internal/auth/token.go:28-33 | a generated token without a lifetime is accepted at every time, one with a lifetime exactly up to the time of issue plus the lifetime |
| `Tokens.OneBucketPerToken` | internal/auth/token.go:108-112 | no token is accepted for two names |
| `Tokens.ExpiryWrapsIff` | internal/auth/token.go:28-33 | a lifetime that takes the sum past 64 bits yields a token without expiration |

## Left out

- HTTP handlers, router, middleware, services, `BucketManager`, configuration, logging and `main`.
- Sockets, deadlines, the listener and goroutine scheduling: a connection is the list of chunks its
  reads return, and interleaving is that of `StoreSteps`.
- xxhash, HMAC-SHA256 and base64url: hash and keyed hash are function parameters, tokens are bytes
  before base64.
- The 64-bit wrap-around of `usedBytes`, `keyCount` and of deadlines in nanoseconds; they are
  unbounded here. The 32-bit access count and the expiry of a token do wrap.
- Which of two keys scheduled again while a delete of the old one is pending survives: deletes are by
  key, and nothing is claimed about an entry set again in between.
- `StartGC`, `StopGC` and `Close`: the ticks are steps that may come at any time.
- CowStores.COWIndexStore.Get: the `Key` field of an entry is not modelled, and the answer is copied in
  one step with the statistics update.
- NearQueues.NearQueue.Swap: the entries of the heap are values in a sequence, not shared cells; nothing
  else in the code points to them.
- Connections.HandleConn: what the handler does with a frame and the bytes of its response; the growth
  policy of `append` is one fixed policy.
- ShardContainers.ShardContainer.Keys: the goroutines and the channel are an arbitrary order of answers.
- Codec.DecodeSetPayload: the partial results that accompany an error.
- `CowStores.COWIndexStore.BuildPut`, `DeleteGroups`, `ShardContainer.SetIn` and their like split longer bodies;
  the split has no counterpart in the source.
