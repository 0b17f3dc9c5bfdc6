# boltqueue in Dafny

A model of the core of `boltqueue`, a persistent priority queue for Go that
stores its messages in a Bolt key/value database. The package has three queue
variants, and all three are modelled here:

- **`PQueue`** is the canonical queue. It keeps one Bolt bucket per priority
  byte (0 is the highest priority, 255 the lowest). Each message is stored
  under an 8-byte big-endian key, minted from the process-wide `atomicKey`
  clock. `Dequeue` takes the first key of the first non-empty bucket in byte
  order. `Requeue` puts a dequeued message back under its original key.
- **`UPQueue`** has the same bucket layout. Each message carries its own
  priority bucket name and key, and the key is stamped by `NewUMessage`.
- **`NPQueue`** keeps every message in one data bucket `"d"`. The key is the
  priority byte followed by an 8-byte timestamp. A count bucket `"c"` holds an
  8-byte big-endian count per priority.

The Bolt database is a value, `Bolt.Db = map<Bytes, Bucket>`, and a bucket is
a `map<Bytes, Bytes>`. Bolt iterates over bucket names and cursor keys in
lexicographic byte order, which is `Bytes.LexLess` here. `Bolt.TakeFirst` is
the first-entry-of-first-non-empty-bucket step that both `PQueue.Dequeue` and
`UPQueue.Dequeue` perform.

Each operation is a pure function from the old state to the new state and
its result:

- The wall clock (`time.Now().UnixNano()`) is a parameter `now`.
- The `aKey` singleton is a field of the `PQueue` state.
- The package globals `UlastTime`, `NlastTime` and `lastTime` form a
  `Clocks.Clocks` value that the message constructors thread through.
- A Go panic inside a Bolt `Update` rolls the transaction back, so it is
  modelled as the `NPQueues.Outcome.Panic` outcome, with the database
  unchanged.
- Go's `int64` and `uint64` arithmetic wraps, and the model spells the wrap
  out (`Bytes.Int64Inc`, `Uint64Inc`, `Uint64Dec`, `Int64ToUint64`).

Modules, one per file:

| file | module | models |
|---|---|---|
| `bytes.dfy` | `Bytes` | byte strings, Go integer widths, lexicographic order, big-endian `PutUint64`/`Uint64` |
| `results.dfy` | `Results` | `Option` and `Result` |
| `bolt.dfy` | `Bolt` | buckets, `CreateBucketIfNotExists`, `Get`/`Put`/`Delete`, cursor `First`, `ForEach` order |
| `varint.dfy` | `Varint` | `encoding/binary.Uvarint` |
| `message.dfy` | `Messages` | `Message`, `NewMessage`, `Priority`, `ToString` |
| `atomickey.dfy` | `AtomicKeys` | `atomicKey.Get` |
| `clocks.dfy` | `Clocks` | the `UlastTime`/`NlastTime` timestamp guard |
| `pqueue.dfy` | `PQueues` | `PQueue` and its invariant |
| `pqueue_scenarios.dfy` | `PQueueScenarios` | FIFO, requeue precedence, and the test scenarios |
| `upqueue.dfy` | `UPQueues` | `UMessage` and `UPQueue` |
| `npqueue.dfy` | `NPQueues` | `NMessage` and `NPQueue` |
| `npqueue_counts.dfy` | `NPQueueCounts` | the count invariant of `NPQueue` |

## Model

| member | source | states |
|---|---|---|
| `Bytes.Int64ToUint64` | atomickey.go:21 | `uint64(t)` keeps a non-negative value and adds 2^64 to a negative one |
| `Bytes.Int64Inc` | atomickey.go:18 | `key + 1` is the successor below MaxInt64 and wraps to MinInt64 at it |
| `Bytes.Uint64Inc` | npqueue.go:90 | the count `+1` wraps to 0 at 2^64 - 1 |
| `Bytes.Uint64Dec` | npqueue.go:130 | the count `-1` wraps at 0, which the underflow guard prevents |
| `Bytes.LexTransitive` | pqueue.go:117-122 | Bolt's byte order on names and keys is transitive |
| `Bytes.LexTotal` | pqueue.go:117-122 | Bolt's byte order is total: two distinct keys are always ordered |
| `Bytes.BigEndianRoundTrip` | pqueue.go:96-97 | decoding a big-endian encoding of a number gives the number back |
| `Bytes.BigEndianBytesRoundTrip` | npqueue.go:90 | re-encoding the decoded bytes gives the same bytes back |
| `Bytes.BigEndianOrder` | pqueue.go:96-97 | for fixed-width big-endian encodings, a < b exactly when the encoding of a sorts before the encoding of b |
| `Bytes.PutUint64Order` | pqueue.go:96-97 | 8-byte keys sort in the order of the uint64 values they encode, in both directions |
| `Bytes.PutUint64Injective` | pqueue.go:96-97 | distinct uint64 values give distinct 8-byte keys |
| `Bytes.PutUint64` | pqueue.go:96-97 | `binary.BigEndian.PutUint64` into a fresh slice gives 8 bytes whose big-endian value is v |
| `Bytes.Uint64` | npqueue.go:90 | `binary.BigEndian.Uint64` reads the value whose 8-byte big-endian encoding is the first eight bytes of the slice |
| `Bytes.Uint64RoundTrip` | npqueue.go:87 | `Uint64(PutUint64(v)) == v` |
| `Bytes.PutUint64OfUint64` | npqueue.go:90 | any 8-byte string is the encoding of its own decoded value |
| `Bytes.OverwriteUint64` | npqueue.go:89-90 | writing a count into the first 8 bytes of a cloned count leaves the rest alone and decodes to the new count |
| `Bolt.LeastExists` | pqueue.go:117-122 | every non-empty set of names or keys has a least element, which is where `ForEach` and `First` stop |
| `Bolt.First` | pqueue.go:121-122 | the cursor's first key is in the bucket and sorts before every other key |
| `Bolt.CreateBucketIfNotExists` | pqueue.go:82 | an existing bucket is kept as is; a missing one is added empty; no other bucket changes |
| `Bolt.Lookup` | npqueue.go:84 | `Get` yields a value exactly when the key is present, and that value is the stored one |
| `Bolt.Put` | pqueue.go:86 | `Put` stores the value under the key and changes no other key or bucket |
| `Bolt.Delete` | pqueue.go:127 | `Delete` removes just that key |
| `Bolt.TakeFirst` | pqueue.go:117-130 | nil when every bucket is empty (state unchanged); otherwise the least key of the least non-empty bucket, which is removed and nothing else changes |
| `Bolt.TakeOnlyEntry` | pqueue.go:117-130 | with one entry in the whole database, the scan takes that entry and leaves its bucket empty |
| `Bolt.PutOneSize` | pqueue.go:86 | a put grows the bucket by one for a new key and not at all for a stored key |
| `Bolt.PutOneEntries` | pqueue.go:86 | after a put, every entry is the new one or was there before |
| `Varint.LebAppend` | pqueue.go:123 | the reference value of a varint grows by the next byte's low seven bits at weight 128^i |
| `Varint.Uvarint` | pqueue.go:123 | a positive count n: bytes 0..n-2 carry the continuation bit, byte n-1 ends the number, n <= 10, and the value is the base-128 number of those n bytes; count 0 exactly when the buffer (at most 10 bytes) ends inside the number; a negative count is overflow: -11 when ten continuation bytes are followed by more, -10 when the tenth byte ends the number but exceeds 1; every failed decode yields 0 |
| `Varint.UvarintFrom` | pqueue.go:123 | the decoding loop from byte i: the same three outcomes, given the value of the continuation bytes before i |
| `Varint.UvarintOneByte` | pqueue.go:123 | a one-byte name below 0x80 decodes to itself; from 0x80 up it is an unterminated varint, decoded as 0 |
| `Messages.NewMessage` | message.go:12-14 | a new message has no key and priority -1, and its `ToString` is the given value |
| `Messages.Priority` | message.go:18-20 | `Priority()` returns the priority the message carries |
| `Messages.ToString` | message.go:23-25 | `ToString()` returns the payload bytes unchanged (Go strings are byte strings) |
| `AtomicKeys.Get` | atomickey.go:13-22 | the new key is `now` when the clock has moved past the stored key; otherwise it is the stored key plus one, wrapping at MaxInt64; it is stored, and its uint64 conversion is returned |
| `AtomicKeys.GetAll` | atomickey.go:13-22 | a run of `Get` calls yields one key per clock reading |
| `AtomicKeys.GetAllStrictlyIncreasing` | atomickey.go:13-22 | from a non-negative key, and short of int64 overflow, successive keys strictly increase whatever the clock reads, and the last key issued is the one stored |
| `AtomicKeys.GetAllDistinct` | atomickey.go:13-22 | under the same bounds, no two keys in the run are equal |
| `Clocks.GuardedTime` | upqueue.go:31-34 | the guarded timestamp is the clock reading when the reading is past the guard, otherwise the guard plus one, wrapping at MaxInt64 |
| `Clocks.GuardedTimesIncrease` | npqueue.go:34-37 | a guard that is kept up to date makes successive timestamps strictly increase |
| `PQueues.EnqueueMessage` | pqueue.go:74-92 | a priority outside 0..255 is an error and touches nothing; every valid priority succeeds, putting the key and payload into the bucket named by the priority byte |
| `PQueues.Enqueue` | pqueue.go:95-99 | the mint always advances, even when the priority is rejected; on a valid priority the freshly minted 8-byte key is put into that bucket |
| `PQueues.Requeue` | pqueue.go:105-110 | a message without a key is refused and nothing changes; otherwise it is put back under its own key; the mint is not used |
| `PQueues.Dequeue` | pqueue.go:114-141 | nil and no change when every bucket is empty; otherwise the least key of the least non-empty bucket, removed, stamped with that key and the Uvarint-decoded bucket name |
| `PQueues.Size` | pqueue.go:144-159 | an invalid priority is an error; a missing bucket counts 0; otherwise the count is the number of keys in the bucket |
| `PQueues.EmptyValid` | pqueue.go:17 | the fresh state satisfies the queue invariant: the mint starts at 0 and no bucket exists |
| `PQueues.IssuedKeyOrder` | pqueue.go:96-97 | two minted keys sort in the order of the values they encode, in both directions |
| `PQueues.MintedKeyNewest` | pqueue.go:95-97 | in a valid state the next minted key is 8 bytes, larger than the stored mint, and sorts after every stored key (mint below the int64 maximum) |
| `PQueues.PutOnePreservesValid` | pqueue.go:86 | putting an 8-byte key no newer than the mint into a one-byte bucket keeps the invariant |
| `PQueues.EnqueuePreservesValid` | pqueue.go:95-99 | Enqueue keeps the invariant, whether the priority is accepted or not (mint below the int64 maximum) |
| `PQueues.EnqueueGrowsBucket` | pqueue.go:95-99 | the minted key is new to its bucket, and the bucket grows by exactly one (mint below the int64 maximum) |
| `PQueues.EnqueueMintsNewestKey` | pqueue.go:95-99 | the bucket grows by exactly one, with a new key, and the state stays valid (mint below the int64 maximum) |
| `PQueues.EnqueueMessageState` | pqueue.go:74-92 | on a valid priority the resulting database is the old one with the key set in that bucket, which is created if it was missing |
| `PQueues.EnqueueState` | pqueue.go:95-99 | the resulting state of an accepted Enqueue, as a database and mint |
| `PQueues.RequeueState` | pqueue.go:105-110 | the resulting state of an accepted Requeue |
| `PQueues.RequeuePreservesValid` | pqueue.go:105-110 | requeueing a message that Dequeue handed out keeps the invariant |
| `PQueues.DequeuePreservesValid` | pqueue.go:114-141 | Dequeue keeps the invariant, and the message it returns can be requeued |
| `PQueues.RemovePreservesValid` | pqueue.go:127 | deleting a key keeps the invariant |
| `PQueues.DequeueLowestPriority` | pqueue.go:114-141 | the returned message comes from the lowest priority whose bucket is non-empty, and it is the oldest key there; its reported priority is that byte below 0x80 and 0 from 0x80 up |
| `PQueues.DequeueFromBucket` | pqueue.go:117-130 | when every lower bucket is empty and k is the first key of bucket p, Dequeue returns and removes exactly k |
| `PQueues.DequeueEmpty` | pqueue.go:132-140 | on an empty queue Dequeue returns nil and changes nothing |
| `PQueues.DrainedSizeZero` | pqueue.go:132-159 | once Dequeue returns nil, Size is 0 at every valid priority |
| `PQueues.EnqueueSize` | pqueue.go:95-99 | an accepted Enqueue grows Size of its priority by one and leaves every other Size alone (mint below the int64 maximum) |
| `PQueues.EnqueueSizeAt` | pqueue.go:144-159 | an accepted Enqueue grows Size of its priority by one (mint below the int64 maximum) |
| `PQueues.PutFreshKeySize` | pqueue.go:144-159 | putting a new key into a priority's bucket grows its Size by one |
| `PQueues.EnqueueSizeOther` | pqueue.go:144-159 | Enqueue leaves the Size of every other priority unchanged |
| `PQueues.DequeueSize` | pqueue.go:144-159 | Dequeue shrinks the Size of the priority it took from by one and leaves every other Size alone |
| `PQueues.RemoveSize` | pqueue.go:127 | deleting a stored key shrinks its priority's Size by one and no other |
| `PQueues.SizeIsBucketCount` | pqueue.go:152-158 | Size of a valid priority is the number of keys in its bucket, absent counting 0 |
| `PQueues.EnqueueAllSize` | pqueue_test.go:21-39 | n Enqueues at one priority, short of int64 overflow, keep the invariant and grow that bucket by exactly n |
| `PQueues.ReportedPriority` | pqueue.go:123-124 | `int(priority)` of the Uvarint-decoded name: 0 when the decode fails, the value below 2^63, and the value minus 2^64 from 2^63 up |
| `PQueues.DequeuedAccessors` | message.go:18-25 | on a dequeued message, `ToString` is the payload stored under its key and `Priority` is its bucket's byte below 0x80 and 0 from 0x80 up, never -1 |
| `PQueues.ReportedPriorityOneByte` | pqueue.go:123-124 | the reported priority is the bucket byte below 0x80 and 0 from 0x80 up |
| `PQueues.HighPriorityReportedAsZero` | pqueue.go:123-124 | a message enqueued at priority 200 is dequeued reporting priority 0 |
| `PQueues.DequeueIntended` | pqueue.go:114-141 | the corrected Dequeue changes the same state and returns the same key and payload as Dequeue |
| `PQueues.DequeueIntendedReportsPriority` | pqueue.go:114-141 | the corrected Dequeue reports the bucket's own priority for all of 0..255, and agrees with Dequeue below 0x80 |
| `PQueueScenarios.FifoWithinPriority` | pqueue.go:112-113 | of two Enqueues at one priority, the first key sorts before the second and both entries are stored (mint below the int64 maximum) |
| `PQueueScenarios.RequeuePrecedesLaterEnqueues` | pqueue.go:101-104 | a requeued message keeps its key, which sorts before the key of any later Enqueue at that priority (mint below the int64 maximum) |
| `PQueueScenarios.DequeueLowerOfTwo` | pqueue.go:117-130 | with two buckets, Dequeue takes the first key of the lower one |
| `PQueueScenarios.DequeueUpperOfTwo` | pqueue.go:117-120 | with the lower bucket empty, it is skipped and the first key of the upper one is taken |
| `PQueueScenarios.FirstEnqueue` | pqueue.go:95-99 | the first Enqueue on a fresh queue creates its priority's bucket holding just the new entry |
| `PQueueScenarios.EnqueueSecondBucket` | pqueue.go:74-92 | an Enqueue at a new priority adds its bucket with the one entry and leaves the other bucket alone (mint below the int64 maximum) |
| `PQueueScenarios.ScenarioFirstEnqueues` | pqueue_test.go:52-59 | two Enqueues at priority 1 fill its bucket with both entries, oldest key first |
| `PQueueScenarios.ScenarioEnqueues` | pqueue_test.go:52-59 | Enqueue(1, a), Enqueue(1, b), Enqueue(0, c) build buckets 0 = {c} and 1 = {a, b} |
| `PQueueScenarios.ScenarioFirstDequeue` | pqueue_test.go:61-76 | the first Dequeue returns c at priority 0, leaving Size(1) = 2 and Size(0) = 0 |
| `PQueueScenarios.ScenarioSecondDequeue` | pqueue_test.go:61-76 | the second Dequeue returns a at priority 1 |
| `PQueueScenarios.ScenarioThirdDequeue` | pqueue_test.go:61-86 | the third Dequeue returns b; after it Dequeue returns nil and every priority has Size 0 |
| `PQueueScenarios.ScenarioPriorityThenFifo` | pqueue_test.go:42-86 | from a fresh queue, messages come out in priority order and then FIFO (c, a, b with priorities 0, 1, 1), Sizes match, and the drained queue yields nil with Size 0 at every priority |
| `PQueueScenarios.ScenarioRequeueEnqueues` | pqueue_test.go:97-102 | one Enqueue each at priorities 1 and 2 gives two one-entry buckets |
| `PQueueScenarios.ScenarioRequeueDequeues` | pqueue_test.go:103-108 | the two Dequeues return the priority-1 message and then the priority-2 message, leaving both buckets empty |
| `PQueueScenarios.ScenarioRequeueThenEnqueue` | pqueue.go:101-104 | after requeueing the first message at priority 1 into the emptied queue and enqueueing a new one there, the next Dequeue returns the requeued message |
| `PQueueScenarios.ScenarioRequeueThenDequeue` | pqueue_test.go:110-124 | requeueing the first message at priority 1 into the emptied queue succeeds, and the next Dequeue returns it with its key, payload and priority 1 |
| `PQueueScenarios.ScenarioRequeue` | pqueue_test.go:88-126 | the requeue test: enqueue at priorities 1 and 2, dequeue both, requeue the first at priority 1, and the next Dequeue returns it with its original key and payload |
| `PQueueScenarios.ScenarioRequeueBeforeNewer` | pqueue.go:101-104 | the same run with a new message enqueued at priority 1 after the requeue: the requeued message still comes out first, with its original key and payload |
| `UPQueues.NewUMessage` | upqueue.go:25-39 | a priority outside 0..255 is refused; otherwise the bucket name is the priority byte and the 8-byte key encodes the timestamp guarded by `UlastTime`; that timestamp is written to `lastTime`, and neither guard variable changes |
| `UPQueues.ToString` | upqueue.go:42-44 | `ToString()` returns the payload bytes unchanged |
| `UPQueues.Enqueue` | upqueue.go:61-72 | the message's payload is put under its key in its own bucket, which is created if missing |
| `UPQueues.Dequeue` | upqueue.go:76-102 | nil when every bucket is empty; otherwise the least key of the least non-empty bucket, removed and returned with the raw bucket name as its priority |
| `UPQueues.Size` | upqueue.go:105-120 | an invalid priority is an error; a missing bucket counts 0; otherwise the number of keys in the bucket |
| `UPQueues.EnqueueIntoEmpty` | upqueue.go:61-72 | on a queue with no messages, Enqueue leaves exactly one entry in the message's bucket |
| `UPQueues.DequeueOnlyEntry` | upqueue.go:76-102 | with one stored entry, Dequeue returns it and empties its bucket |
| `UPQueues.EnqueueDequeueRoundTrip` | upqueue.go:61-102 | on a queue with no messages, Dequeue after Enqueue returns the same message |
| `UPQueues.EnqueueDequeueLeavesEmptyBucket` | upqueue.go:61-102 | and leaves the message's bucket existing but empty |
| `UPQueues.EnqueueSize` | upqueue.go:105-120 | Enqueue of a new key grows Size of its priority by one; a stored key is overwritten and Size stays the same |
| `UPQueues.EnqueueSizeOther` | upqueue.go:105-120 | Enqueue leaves every other priority's Size alone |
| `UPQueues.DequeueSize` | upqueue.go:105-120 | Dequeue shrinks the Size of the bucket it took from by one and leaves every other Size alone |
| `UPQueues.SameReadingSameKey` | upqueue.go:31-37 | two `NewUMessage` calls at the same clock reading get the same key |
| `UPQueues.SameReadingLosesMessage` | upqueue.go:31-37 | enqueueing both into an empty bucket keeps only the second payload, so Size is 1 |
| `UPQueues.NewUMessageIntended` | upqueue.go:25-39 | the corrected constructor records the timestamp in `UlastTime`, which then strictly increases and is never behind the clock |
| `UPQueues.IntendedKeysIncrease` | upqueue.go:25-39 | with the corrected guard, a second message's key sorts strictly after the first, whatever the second clock reading (guard and first reading below the int64 maximum) |
| `NPQueues.BucketNamesDiffer` | npqueue.go:11-14 | the count bucket and the data bucket are different buckets |
| `NPQueues.NKey` | npqueue.go:32-39 | the 9-byte key is the priority byte followed by the big-endian stamp |
| `NPQueues.NKeyParts` | npqueue.go:32-39 | every 9-byte key is the key of its own first byte and stamp |
| `NPQueues.NKeyOrder` | npqueue.go:32-39 | keys sort by priority byte and then by stamp, in both directions |
| `NPQueues.NKeyInjective` | npqueue.go:32-39 | two keys are equal exactly when both priority and stamp are |
| `NPQueues.ToString` | npqueue.go:44-46 | `ToString()` returns the payload bytes unchanged |
| `NPQueues.NewNMessage` | npqueue.go:28-41 | a priority outside 0..255 is refused; otherwise the key holds the priority byte and the timestamp guarded by `NlastTime`; that timestamp is written to `lastTime`, and neither guard variable changes |
| `NPQueues.NewNPQueue` | npqueue.go:54-78 | the data and count buckets exist afterwards, and every existing bucket is kept as it was |
| `NPQueues.IncrementCount` | npqueue.go:84-91 | a missing count becomes an 8-byte 1; a stored count is incremented in place, wrapping at 2^64; one too short to decode panics |
| `NPQueues.DecrementCount` | npqueue.go:126-130 | the count is decremented exactly when it is present, decodable and non-zero; a missing, short or zero count panics |
| `NPQueues.Enqueue` | npqueue.go:81-104 | it panics, with no change, exactly when a bucket is missing, the key is empty or the stored count is too short to decode; otherwise the count of the key's priority byte is incremented and the message is put into the data bucket, in one transaction |
| `NPQueues.Dequeue` | npqueue.go:108-143 | a missing data bucket panics; an empty one gives nil, and only an empty one does; it panics, with no change, exactly when the bucket is missing or, on a non-empty one, the least key is empty, the count bucket is missing or its count is missing, short or zero; otherwise the least data key is removed and returned, and its priority's count is decremented |
| `NPQueues.Size` | npqueue.go:146-161 | as written, the one-byte priority is looked up in the data bucket, and a missing entry reads 0 |
| `NPQueues.SizeIntended` | npqueue.go:146-161 | the corrected Size reads the priority's count from the count bucket |
| `NPQueues.NewNMessageIntended` | npqueue.go:28-41 | the corrected constructor records the timestamp in `NlastTime`, which then strictly increases and is never behind the clock |
| `NPQueueCounts.NewQueueCounted` | npqueue.go:54-78 | a new queue on an empty file satisfies the count invariant |
| `NPQueueCounts.NewNPQueueIdempotent` | npqueue.go:60-71 | opening an already-initialised queue again changes nothing |
| `NPQueueCounts.KeysAtPut` | npqueue.go:98 | putting a new key adds it to the keys of its priority byte and to no other |
| `NPQueueCounts.CountAtUpdate` | npqueue.go:92 | writing an 8-byte count for p changes the count read for p and no other |
| `NPQueueCounts.PutKeepsCountsMatch` | npqueue.go:84-98 | a new key plus a count one higher for its priority keeps every count equal to its number of keys |
| `NPQueueCounts.EnqueueCount` | npqueue.go:84-92 | in a counted queue, with the count unable to wrap, Enqueue writes an 8-byte count one higher than before |
| `NPQueueCounts.EnqueueKeepsCount` | npqueue.go:81-104 | Enqueue of a fresh 9-byte key returns normally, adds exactly that message, and keeps the count invariant |
| `NPQueueCounts.KeysAtRemove` | npqueue.go:121 | deleting a key removes it from the keys of its priority byte only |
| `NPQueueCounts.RemoveKeepsCountsMatch` | npqueue.go:121-131 | deleting a key plus a count one lower for its priority keeps every count equal to its number of keys |
| `NPQueueCounts.DequeueKeepsCount` | npqueue.go:108-143 | in a counted queue Dequeue never panics ("queue underflow" cannot fire), returns a message whenever the data bucket is non-empty, and keeps the count invariant |
| `NPQueueCounts.DequeueLowestPriorityOldest` | npqueue.go:112-118 | a non-empty counted queue always yields a message, and it has the lowest priority byte present and the oldest stamp within that priority |
| `NPQueueCounts.DequeueOnlyMessage` | npqueue.go:108-143 | with one stored message, Dequeue returns it, empties the data bucket and keeps the invariant |
| `NPQueueCounts.EnqueueDequeueRoundTrip` | npqueue.go:81-143 | on a counted queue with no messages, Dequeue after Enqueue returns the same message and restores an empty, counted queue |
| `NPQueueCounts.SizeAlwaysZero` | npqueue.go:154-160 | under the invariant, Size as written reads 0 for every priority, because data keys are 9 bytes and the lookup key is 1 byte |
| `NPQueueCounts.OneMessageSizeZero` | npqueue.go:154-160 | after one Enqueue at priority 3, Size(3) reads 0 while the corrected Size reads 1 |
| `NPQueueCounts.SizeIntendedCounts` | npqueue.go:146-161 | under the invariant, the corrected Size is the number of stored messages of that priority |
| `NPQueueCounts.SizeIntendedReadsCount` | npqueue.go:154-160 | the corrected Size reads the stored count, with absent counting 0 |
| `NPQueueCounts.EnqueueIntoEmpty` | npqueue.go:81-104 | the first Enqueue on an empty counted queue stores just that message, which is the only one of its priority |
| `NPQueueCounts.EnqueueStoredKeyBreaksCount` | npqueue.go:84-98 | enqueueing a key that is already stored overwrites its payload but still bumps the count, so the count runs one ahead and the invariant breaks |
| `NPQueueCounts.CountAheadOfOne` | npqueue.go:154-160 | a count of two over a single stored key is read as 2 by the corrected Size and violates the invariant |
| `NPQueueCounts.EnqueueBumpsCount` | npqueue.go:84-98 | Enqueue onto a stored 8-byte count below the maximum returns normally, raises that count by one and stores the payload |
| `NPQueueCounts.EnqueueOverOnlyMessage` | npqueue.go:84-98 | re-enqueueing the key of the only stored message overwrites it, and the count reads 2 |
| `NPQueueCounts.EnqueueSameKeyTwice` | npqueue.go:81-104 | two Enqueues with one key on an empty queue both succeed, store one entry, and count two |
| `NPQueueCounts.SameReadingSameKey` | npqueue.go:34-39 | two `NewNMessage` calls of one priority at the same clock reading get the same key |
| `NPQueueCounts.SameReadingBreaksCount` | npqueue.go:34-39 | enqueueing both counts two but stores one, so the count invariant breaks |
| `NPQueueCounts.IntendedKeysIncrease` | npqueue.go:28-41 | with the corrected guard, two messages never share a key, and at one priority the second sorts after the first (guard and first reading below the int64 maximum) |

## Left out

- Opening and closing the database (`NewPQueue`, `NewUPQueue`, `Open`, `Close`, `Options`): a queue starts from a database value. `NewNPQueue` is modelled on the contents of the file it opens.
- Bolt's own failures (I/O errors, a full disk, a read-only file, `Put` refusing an empty or oversized key or value): every storage call is taken to succeed. In the model, `Requeue` keys come from `Dequeue`, so they are 8 bytes long.
- The `err` that `UPQueue.Enqueue` receives from `CreateBucketIfNotExists` and then drops: the call is taken to succeed, so the bucket always exists.
- The package-wide `aKey` (pqueue.go:17) is one key mint shared by every `PQueue` in a process. The model gives each queue its own mint, starting at 0. One queue's keys still increase, because a shared mint only advances further between its calls, but the key values differ when several queues are used.
- The mutex in `atomicKey` and Bolt's transaction locking: every call is one atomic step, and concurrent interleavings (`TestGoroutines`) are not modelled.
- The wall clock is the parameter `now`, taken as nanoseconds in int64.
- `Bucket.Stats().KeyN`, `cloneBytes`, the `foundItem` sentinel and the cursor: they become map size, plain values, and `Bolt.TakeFirst`.
- Error texts: errors are the constructors of `QueueError`, `UError` and `NError`.
- The missing `tx.Rollback()` in `PQueues.Size` when the bucket does not exist, and the `tx.Commit()` that `NPQueues.Size` calls on its read-only transaction, whose `ErrTxNotWritable` it ignores and which leaves that transaction open: a read-only transaction has no effect on the state.
- `lastTime` is declared in none of the modelled Go files. The model treats it as a third package global, next to `UlastTime` and `NlastTime`.
- The benchmark and package documentation.
- `NPQueues.Enqueue`: Go panics on `m.key[0:1]` only when the key's capacity is 0; the model panics on every empty key, since it does not track slice capacity.
- `NPQueueCounts.EnqueueKeepsCount`: requires fewer than 2^64 - 1 stored messages, so the 64-bit count cannot wrap.
- `NPQueueCounts.EnqueueCount`: requires the same bound.
- `NPQueueCounts.EnqueueStoredKeyBreaksCount`: requires the same bound.
- `PQueues.EnqueueAllSize`: requires the clock readings and the mint to stay short of the int64 maximum, where the key wraps to MinInt64.
- `AtomicKeys.GetAllStrictlyIncreasing`: requires a non-negative starting key and no int64 wrap within the run.
- `AtomicKeys.GetAllDistinct`: requires the same bounds.
- `Clocks.GuardedTimesIncrease`: requires the guard below MaxInt64 - 1.
- `PQueues.MintedKeyNewest`: requires the mint below MaxInt64. At MaxInt64 the next `Get` wraps to MinInt64, minting the key `PutUint64(2^63)`; a following Enqueue at clock reading 5 mints key 5, which sorts before it, so FIFO order and the invariant break.
- `PQueues.EnqueuePreservesValid`: requires the mint below MaxInt64, for the same wrap.
- `PQueues.EnqueueGrowsBucket`: requires the mint below MaxInt64, for the same wrap.
- `PQueues.EnqueueMintsNewestKey`: requires the mint below MaxInt64, for the same wrap.
- `PQueues.EnqueueSize`: requires the mint below MaxInt64, for the same wrap.
- `PQueues.EnqueueSizeAt`: requires the mint below MaxInt64, for the same wrap.
- `PQueueScenarios.FifoWithinPriority`: requires the mint below MaxInt64 - 1 and the first reading below MaxInt64, so neither key wraps.
- `PQueueScenarios.RequeuePrecedesLaterEnqueues`: requires the mint below MaxInt64, for the same wrap.
- `PQueueScenarios.EnqueueSecondBucket`: requires the mint below MaxInt64 - 1, for the same wrap.
- `UPQueues.IntendedKeysIncrease`: requires a non-negative guard below MaxInt64 - 1 and the first reading below MaxInt64, so the corrected guard does not wrap.
- `NPQueueCounts.IntendedKeysIncrease`: requires the same bounds on `NlastTime`.
- `PQueueScenarios.ScenarioPriorityThenFifo`: requires every clock reading more than 8 below the int64 maximum. The same holds for the other scenario lemmas.
- `PQueueScenarios.ScenarioRequeue`: uses one message each at priorities 1 and 2, where the Go test enqueues at priorities 1 to 5. The two extra buckets do not change which message comes out first.
- `PQueueScenarios.ScenarioEnqueues`: uses three messages at priorities 1, 1 and 0, where the Go test uses ten messages at each of priorities 5 down to 1. The general cases are `EnqueueAllSize` and `DequeueLowestPriority`.

## Findings

| source | as written | input that shows it | evidently intended | confidence | as-written member | corrected member |
|---|---|---|---|---|---|---|
| pqueue.go:123 | the bucket name is decoded with `binary.Uvarint`, and a one-byte name of 0x80 or more is an unterminated varint, decoded as 0 | `Enqueue(200, m)` on an empty queue, then `Dequeue`: the message reports priority 0 | report the bucket's own priority byte, 0..255, as `Enqueue` and `Size` accept | high (not executed) | `PQueues.HighPriorityReportedAsZero` | `PQueues.DequeueIntendedReportsPriority` |
| upqueue.go:32-35 | the guard compares against `UlastTime` but stores into `lastTime`, so `UlastTime` stays 0 | two `NewUMessage(p, …)` calls at one clock reading get the same key; enqueueing both keeps only the second | store the guarded timestamp back into `UlastTime`, so keys strictly increase | high (not executed) | `UPQueues.SameReadingLosesMessage` | `UPQueues.IntendedKeysIncrease` |
| npqueue.go:35-38 | the same guard mistake with `NlastTime` | two `NewNMessage(p, …)` calls at one clock reading, both enqueued: one entry stored, count 2 | store the guarded timestamp back into `NlastTime` | high (not executed) | `NPQueueCounts.SameReadingBreaksCount` | `NPQueueCounts.IntendedKeysIncrease` |
| npqueue.go:155 | `Size` looks the one-byte priority up in the data bucket, whose keys are 9 bytes, so it always reads 0 | `Enqueue` of one message at priority 3 on a new queue, then `Size(3)`: 0 | read the count bucket `c`, which `Enqueue` and `Dequeue` maintain | high (not executed) | `NPQueueCounts.OneMessageSizeZero` | `NPQueueCounts.SizeIntendedCounts` |
