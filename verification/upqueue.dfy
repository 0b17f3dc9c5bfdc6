/**
 The variant queue of `upqueue.go`. A message carries its own bucket name,
 the one priority byte, and its own 8-byte key: the big-endian bytes of a
 guarded clock reading taken when the message is made. Dequeue walks the
 buckets in name order and reports the raw bucket name as the priority.
 */
module UPQueues {
  import opened Bytes
  import opened Results
  import opened Bolt
  import opened Clocks
  import Messages

  datatype UError = InvalidPriority

  /** A message: bucket name (the priority byte), key, payload. */
  datatype UMessage = UMessage(priority: Bytes, key: Bytes, value: Bytes)

  /** The queue: its Bolt database. */
  datatype UPQueue = UPQueue(db: Db)

  /** `ToString()`: the payload, byte for byte. */
  function ToString(m: UMessage): (s: Bytes)
    ensures s == m.value
  {
    m.value
  }

  /**
   `NewUMessage`, as written: a priority outside 0..255 is refused before the
   clock is read. Otherwise the timestamp is guarded by `UlastTime`, but the
   result is recorded in `lastTime`, so `UlastTime` never moves.
   */
  function NewUMessage(c: Clocks, priority: int, value: Bytes, now: int64): (r: (Clocks, Result<UMessage, UError>))
    ensures !Messages.ValidPriority(priority) ==> r == (c, Err(InvalidPriority))
    ensures Messages.ValidPriority(priority) ==>
      && r.1.Ok?
      && r.1.value.priority == [priority]
      && |r.1.value.key| == 8
      && Uint64(r.1.value.key) == Int64ToUint64(GuardedTime(c.uLastTime, now))
      && ToString(r.1.value) == value
    ensures r.0.uLastTime == c.uLastTime && r.0.nLastTime == c.nLastTime
    ensures Messages.ValidPriority(priority) ==> r.0.lastTime == GuardedTime(c.uLastTime, now)
  {
    if !Messages.ValidPriority(priority) then (c, Err(InvalidPriority))
    else
      var t := GuardedTime(c.uLastTime, now);
      Uint64RoundTrip(Int64ToUint64(t));
      (c.(lastTime := t), Ok(UMessage([priority], PutUint64(Int64ToUint64(t)), value)))
  }

  /** `Enqueue`: ensures the message's bucket and puts its key and payload
      there, overwriting an entry with the same key. */
  function Enqueue(q: UPQueue, m: UMessage): (r: UPQueue)
    ensures PutOne(q.db, r.db, m.priority, m.key, m.value)
  {
    var db := CreateBucketIfNotExists(q.db, m.priority);
    UPQueue(Put(db, m.priority, m.key, m.value))
  }

  /** `Dequeue`: the first entry of the first non-empty bucket in name order,
      removed, with the bucket name itself as the priority; nil and no change
      when every bucket is empty. */
  function Dequeue(q: UPQueue): (r: (UPQueue, Option<UMessage>))
    ensures r.1.None? <==> NonEmptyBuckets(q.db) == {}
    ensures r.1.None? ==> r.0 == q
    ensures r.1.Some? ==>
      var m := r.1.value;
      && IsLeast(m.priority, NonEmptyBuckets(q.db))
      && IsLeast(m.key, q.db[m.priority].Keys)
      && m.value == q.db[m.priority][m.key]
      && r.0.db == q.db[m.priority := q.db[m.priority] - {m.key}]
  {
    var (db, e) := TakeFirst(q.db);
    LeastUnique(NonEmptyBuckets(q.db));
    match e
    case None => (q, None)
    case Some(Entry(name, k, v)) => (UPQueue(db), Some(UMessage(name, k, v)))
  }

  /** `Size`: the entry count of a priority's bucket, 0 for a bucket never
      created, an error outside 0..255. */
  function Size(q: UPQueue, priority: int): (r: Result<nat, UError>)
    ensures !Messages.ValidPriority(priority) <==> r == Err(InvalidPriority)
    ensures Messages.ValidPriority(priority) && [priority] !in q.db ==> r == Ok(0)
    ensures Messages.ValidPriority(priority) && [priority] in q.db ==> r == Ok(|q.db[[priority]]|)
  {
    if !Messages.ValidPriority(priority) then Err(InvalidPriority)
    else
      var name: Bytes := [priority];
      if name !in q.db then Ok(0) else Ok(|q.db[name]|)
  }

  // ---------------------------------------------------------------------
  // Round trip and sizes
  // ---------------------------------------------------------------------

  /** On a queue whose buckets are all empty, Enqueue leaves one entry. */
  lemma EnqueueIntoEmpty(q: UPQueue, m: UMessage)
    requires forall n :: n in q.db ==> q.db[n] == map[]
    ensures Enqueue(q, m).db == q.db[m.priority := map[m.key := m.value]]
  {
  }

  /** A queue whose one entry sits in bucket `name` dequeues exactly that
      entry and is left with every bucket empty. */
  lemma DequeueOnlyEntry(db: Db, name: Bytes, key: Bytes, value: Bytes)
    requires name in db && db[name] == map[key := value]
    requires forall n :: n in db && n != name ==> db[n] == map[]
    ensures Dequeue(UPQueue(db)) == (UPQueue(db[name := map[]]), Some(UMessage(name, key, value)))
  {
    TakeOnlyEntry(db, name, key, value);
  }

  /** On a queue whose buckets are all empty, Dequeue hands back exactly the
      message just enqueued: bucket name, key and payload. */
  lemma EnqueueDequeueRoundTrip(q: UPQueue, m: UMessage)
    requires forall n :: n in q.db ==> q.db[n] == map[]
    ensures Dequeue(Enqueue(q, m)).1 == Some(m)
  {
    EnqueueIntoEmpty(q, m);
    DequeueOnlyEntry(q.db[m.priority := map[m.key := m.value]], m.priority, m.key, m.value);
  }

  /** ... and leaves the database as it was but for the message's bucket,
      which now exists and is empty. */
  lemma EnqueueDequeueLeavesEmptyBucket(q: UPQueue, m: UMessage)
    requires forall n :: n in q.db ==> q.db[n] == map[]
    ensures Dequeue(Enqueue(q, m)).0.db == q.db[m.priority := map[]]
  {
    var db1 := q.db[m.priority := map[m.key := m.value]];
    EnqueueIntoEmpty(q, m);
    DequeueOnlyEntry(db1, m.priority, m.key, m.value);
    ReplaceBucketTwice(q.db, m.priority, map[m.key := m.value], map[]);
  }

  /** Enqueue grows Size(p) by one when the key is new to bucket p, and
      leaves it as it is when the key is already there (the payload is
      overwritten). */
  lemma EnqueueSize(q: UPQueue, p: byte, key: Bytes, value: Bytes)
    ensures key !in BucketOf(q.db, [p]) ==> Size(Enqueue(q, UMessage([p], key, value)), p) == Ok(Size(q, p).value + 1)
    ensures key in BucketOf(q.db, [p]) ==> Size(Enqueue(q, UMessage([p], key, value)), p) == Size(q, p)
  {
    var q2 := Enqueue(q, UMessage([p], key, value));
    var n := |BucketOf(q.db, [p])|;
    PutOneSize(q.db, q2.db, [p], key, value);
    assert Size(q, p) == Ok(n) && Size(q, p).value == n;
    assert Size(q2, p) == Ok(|q2.db[[p]]|);
    if key !in BucketOf(q.db, [p]) {
      assert |q2.db[[p]]| == n + 1;
    }
  }

  /** Enqueue at p changes no other priority's Size. */
  lemma EnqueueSizeOther(q: UPQueue, p: byte, key: Bytes, value: Bytes, other: int)
    requires other != p
    ensures Size(Enqueue(q, UMessage([p], key, value)), other) == Size(q, other)
  {
    if Messages.ValidPriority(other) {
      assert [other] != [p] by { assert [other][0] != [p][0]; }
    }
  }

  /** Dequeue shrinks exactly the Size of the bucket it took from, when that
      bucket is named by one priority byte. */
  lemma DequeueSize(q: UPQueue, other: int)
    ensures Dequeue(q).1.Some? && |Dequeue(q).1.value.priority| == 1 ==>
      var p := Dequeue(q).1.value.priority[0];
      && Size(Dequeue(q).0, p) == Ok(Size(q, p).value - 1)
      && (other != p ==> Size(Dequeue(q).0, other) == Size(q, other))
    ensures Dequeue(q).1.None? ==> Size(Dequeue(q).0, other) == Size(q, other)
  {
    if Dequeue(q).1.Some? && |Dequeue(q).1.value.priority| == 1 {
      var m := Dequeue(q).1.value;
      var p := m.priority[0];
      assert m.priority == [p];
      assert |q.db[m.priority].Keys - {m.key}| == |q.db[m.priority].Keys| - 1;
      if other != p && Messages.ValidPriority(other) {
        assert [other] != [p] by { assert [other][0] != [p][0]; }
      }
    }
  }

  // ---------------------------------------------------------------------
  // The timestamp guard
  // ---------------------------------------------------------------------

  /** Two messages of one priority made at the same clock reading get the same
      key: the guard variable the first call should have raised is unchanged. */
  lemma SameReadingSameKey(c: Clocks, p: byte, v1: Bytes, v2: Bytes, now: int64)
    ensures
      var (c1, m1) := NewUMessage(c, p, v1, now);
      var (c2, m2) := NewUMessage(c1, p, v2, now);
      m1.Ok? && m2.Ok? && m1.value.key == m2.value.key
  {
  }

  /** The consequence: enqueueing both into an empty bucket keeps only the
      second payload, so Size reports 1 and the first message is lost. */
  lemma SameReadingLosesMessage(q: UPQueue, c: Clocks, p: byte, v1: Bytes, v2: Bytes, now: int64)
    requires BucketOf(q.db, [p]) == map[]
    ensures
      var (c1, m1) := NewUMessage(c, p, v1, now);
      var (c2, m2) := NewUMessage(c1, p, v2, now);
      var q2 := Enqueue(Enqueue(q, m1.value), m2.value);
      && Size(q2, p) == Ok(1)
      && q2.db[[p]] == map[m1.value.key := v2]
  {
    var (c1, m1) := NewUMessage(c, p, v1, now);
    var (c2, m2) := NewUMessage(c1, p, v2, now);
    SameReadingSameKey(c, p, v1, v2, now);
    var q1 := Enqueue(q, m1.value);
    assert q1.db[[p]] == map[m1.value.key := v1];
    var q2 := Enqueue(q1, m2.value);
    assert q2.db[[p]] == map[m1.value.key := v2];
  }

  /** `NewUMessage` as evidently intended: the guard variable itself records
      the timestamp, so the next call is guarded against it. */
  function NewUMessageIntended(c: Clocks, priority: int, value: Bytes, now: int64): (r: (Clocks, Result<UMessage, UError>))
    ensures !Messages.ValidPriority(priority) ==> r == (c, Err(InvalidPriority))
    ensures Messages.ValidPriority(priority) ==>
      && r.1.Ok?
      && r.1.value.priority == [priority]
      && |r.1.value.key| == 8
      && Uint64(r.1.value.key) == Int64ToUint64(r.0.uLastTime)
      && ToString(r.1.value) == value
      && (c.uLastTime < MAX_INT64 ==> r.0.uLastTime > c.uLastTime && r.0.uLastTime >= now)
  {
    if !Messages.ValidPriority(priority) then (c, Err(InvalidPriority))
    else
      var t := GuardedTime(c.uLastTime, now);
      Uint64RoundTrip(Int64ToUint64(t));
      (c.(uLastTime := t), Ok(UMessage([priority], PutUint64(Int64ToUint64(t)), value)))
  }

  /** With the intended guard, from a non-negative guard and short of the int64
      maximum, a second message sorts strictly after the first, whatever the
      two clock readings and priorities, so the keys never collide. */
  lemma IntendedKeysIncrease(c: Clocks, p1: byte, v1: Bytes, n1: int64, p2: byte, v2: Bytes, n2: int64)
    requires 0 <= c.uLastTime < MAX_INT64 - 1 && n1 < MAX_INT64
    ensures
      var (c1, m1) := NewUMessageIntended(c, p1, v1, n1);
      var (c2, m2) := NewUMessageIntended(c1, p2, v2, n2);
      && m1.Ok? && m2.Ok?
      && Uint64(m1.value.key) < Uint64(m2.value.key)
      && LexLess(m1.value.key, m2.value.key)
      && m1.value.key != m2.value.key
  {
    var (c1, m1) := NewUMessageIntended(c, p1, v1, n1);
    var (c2, m2) := NewUMessageIntended(c1, p2, v2, n2);
    PutUint64OfUint64(m1.value.key);
    PutUint64OfUint64(m2.value.key);
    PutUint64Order(Uint64(m1.value.key), Uint64(m2.value.key));
    LexIrreflexive(m1.value.key);
  }
}
