/**
 The canonical priority queue of `pqueue.go`: one Bolt bucket per priority,
 named by the single priority byte and created on first use, holding entries
 keyed by the 8-byte big-endian key the mint hands out. Each operation is one
 Bolt transaction, here one pure state transition; the clock reading the mint
 needs is a parameter.
 */
module PQueues {
  import opened Bytes
  import opened Results
  import opened Bolt
  import opened AtomicKeys
  import opened Messages
  import opened Varint

  datatype QueueError = InvalidPriority(priority: int) | CannotRequeueNewMessage

  /** A queue: its Bolt database, and the key mint (a package-wide singleton in Go). */
  datatype PQueue = PQueue(db: Db, aKey: AtomicKey)

  /** A new queue on an empty database, with the mint as the package starts it. */
  const Empty: PQueue := PQueue(map[], Initial)

  /** `enqueueMessage`: rejects a priority outside 0..255 before touching the
      database, otherwise puts key -> payload into the priority's bucket. */
  function EnqueueMessage(db: Db, priority: int, key: Bytes, m: Message): (r: Result<Db, QueueError>)
    ensures !ValidPriority(priority) <==> r == Err(InvalidPriority(priority))
    ensures ValidPriority(priority) ==> r.Ok?
    ensures r.Ok? ==> PutOne(db, r.value, [priority], key, m.value)
  {
    if !ValidPriority(priority) then Err(InvalidPriority(priority))
    else
      var name: Bytes := [priority];
      Ok(Put(CreateBucketIfNotExists(db, name), name, key, m.value))
  }

  /** The 8-byte key `Enqueue` would mint at clock reading `now`. */
  function MintedKey(q: PQueue, now: int64): Bytes
  {
    PutUint64(Get(q.aKey, now).1)
  }

  /** `Enqueue`: mints a key first, so the mint advances even when the priority
      is then rejected; the caller's message is not stamped. */
  function Enqueue(q: PQueue, priority: int, m: Message, now: int64): (r: (PQueue, Result<(), QueueError>))
    ensures r.0.aKey == Get(q.aKey, now).0
    ensures !ValidPriority(priority) ==> r.1 == Err(InvalidPriority(priority)) && r.0.db == q.db
    ensures ValidPriority(priority) ==> r.1 == Ok(()) && PutOne(q.db, r.0.db, [priority], MintedKey(q, now), m.value)
  {
    var (aKey, k) := Get(q.aKey, now);
    match EnqueueMessage(q.db, priority, PutUint64(k), m)
    case Err(e) => (PQueue(q.db, aKey), Err(e))
    case Ok(db) => (PQueue(db, aKey), Ok(()))
  }

  /** `Requeue`: puts a previously dequeued message back under its own key; a
      message that never had a key is refused, and neither failure changes
      anything. The mint is not used. */
  function Requeue(q: PQueue, priority: int, m: Message): (r: (PQueue, Result<(), QueueError>))
    ensures r.0.aKey == q.aKey
    ensures m.key.None? ==> r == (q, Err(CannotRequeueNewMessage))
    ensures m.key.Some? && !ValidPriority(priority) ==> r == (q, Err(InvalidPriority(priority)))
    ensures m.key.Some? && ValidPriority(priority) ==>
      r.1 == Ok(()) && PutOne(q.db, r.0.db, [priority], m.key.value, m.value)
  {
    if m.key.None? then (q, Err(CannotRequeueNewMessage))
    else
      match EnqueueMessage(q.db, priority, m.key.value, m)
      case Err(e) => (q, Err(e))
      case Ok(db) => (PQueue(db, q.aKey), Ok(()))
  }

  /** The priority `Dequeue` reports for bucket `name`: `binary.Uvarint` of the
      name, converted with `int(...)`. */
  function ReportedPriority(name: Bytes): (p: int)
    ensures Uvarint(name).1 <= 0 ==> p == 0
    ensures Uvarint(name).0 < 0x8000_0000_0000_0000 ==> p == Uvarint(name).0
    ensures Uvarint(name).0 >= 0x8000_0000_0000_0000 ==> p == Uvarint(name).0 - TWO_TO_THE_64
  {
    Uint64ToInt64(Uvarint(name).0)
  }

  /** `Dequeue`: the first entry of the first non-empty bucket in name order,
      removed in the same transaction and returned stamped with its key and the
      decoded bucket name; an all-empty queue yields nil and stays as it is. */
  function Dequeue(q: PQueue): (r: (PQueue, Option<Message>))
    ensures r.0.aKey == q.aKey
    ensures r.1.None? <==> NonEmptyBuckets(q.db) == {}
    ensures r.1.None? ==> r.0 == q
    ensures r.1.Some? ==>
      var name := Least(NonEmptyBuckets(q.db));
      var m := r.1.value;
      && m.key.Some?
      && IsLeast(m.key.value, q.db[name].Keys)
      && m.value == q.db[name][m.key.value]
      && m.priority == ReportedPriority(name)
      && r.0.db == q.db[name := q.db[name] - {m.key.value}]
  {
    var (db, e) := TakeFirst(q.db);
    LeastUnique(NonEmptyBuckets(q.db));
    match e
    case None => (q, None)
    case Some(Entry(name, k, v)) =>
      (PQueue(db, q.aKey), Some(Message(Some(k), v, ReportedPriority(name))))
  }

  /** `Size`: the number of entries at a priority, 0 for a bucket never
      created; a priority outside 0..255 is an error. */
  function Size(q: PQueue, priority: int): (r: Result<nat, QueueError>)
    ensures !ValidPriority(priority) <==> r == Err(InvalidPriority(priority))
    ensures ValidPriority(priority) && [priority] !in q.db ==> r == Ok(0)
    ensures ValidPriority(priority) && [priority] in q.db ==> r == Ok(|q.db[[priority]]|)
  {
    if !ValidPriority(priority) then Err(InvalidPriority(priority))
    else
      var name: Bytes := [priority];
      if name !in q.db then Ok(0) else Ok(|q.db[name]|)
  }

  // ---------------------------------------------------------------------
  // The state invariant and what it buys
  // ---------------------------------------------------------------------

  /** The states the operations can reach from `Empty`: the mint is
      non-negative, every bucket is named by one priority byte, and every key is
      an 8-byte big-endian number the mint has already handed out. */
  predicate Valid(q: PQueue)
  {
    && q.aKey.key >= 0
    && OneByteNames(q.db)
    && (forall n, k :: n in q.db && k in q.db[n] ==> |k| == 8 && Uint64(k) <= q.aKey.key)
  }

  /** Every bucket is named by a single priority byte. */
  predicate OneByteNames(db: Db)
  {
    forall n :: n in db ==> |n| == 1
  }

  /** A message `Requeue` may take in a valid state: it carries a key the mint
      has already handed out, as every dequeued message does. */
  predicate Issued(q: PQueue, m: Message)
  {
    m.key.Some? && |m.key.value| == 8 && Uint64(m.key.value) <= q.aKey.key
  }

  lemma EmptyValid()
    ensures Valid(Empty)
  {
  }

  /** Byte order of issued keys is the order in which they were minted. */
  lemma IssuedKeyOrder(j: Bytes, k: Bytes)
    requires |j| == 8 && |k| == 8
    ensures Uint64(j) < Uint64(k) <==> LexLess(j, k)
  {
    PutUint64OfUint64(j);
    PutUint64OfUint64(k);
    PutUint64Order(Uint64(j), Uint64(k));
  }

  /** In a valid state (short of int64 overflow) the key Enqueue mints is
      numerically above the mint's last key and so sorts after every key
      already stored, in every bucket. */
  lemma MintedKeyNewest(q: PQueue, now: int64)
    requires Valid(q) && q.aKey.key < MAX_INT64
    ensures |MintedKey(q, now)| == 8
    ensures Uint64(MintedKey(q, now)) == Get(q.aKey, now).0.key > q.aKey.key
    ensures forall n, j :: n in q.db && j in q.db[n] ==> LexLess(j, MintedKey(q, now))
  {
    var k := MintedKey(q, now);
    Uint64RoundTrip(Get(q.aKey, now).1);
    forall n, j | n in q.db && j in q.db[n]
      ensures LexLess(j, k)
    {
      IssuedKeyOrder(j, k);
    }
  }

  /** Putting one issued key into a one-byte bucket keeps a state valid. */
  lemma PutOnePreservesValid(q: PQueue, q2: PQueue, name: Bytes, key: Bytes, value: Bytes)
    requires Valid(q) && PutOne(q.db, q2.db, name, key, value)
    requires |name| == 1 && |key| == 8 && Uint64(key) <= q2.aKey.key && q.aKey.key <= q2.aKey.key
    ensures Valid(q2)
  {
    assert OneByteNames(q2.db) by {
      forall n | n in q2.db
        ensures |n| == 1
      {
        if n != name {
          assert n in q.db;
        }
      }
    }
    forall n, k | n in q2.db && k in q2.db[n]
      ensures |k| == 8 && Uint64(k) <= q2.aKey.key
    {
      PutOneEntries(q.db, q2.db, name, key, value, n, k);
      if n != name || k != key {
        ValidEntry(q, n, k);
      }
    }
  }

  /** A stored key of a valid state is eight bytes and already issued. */
  lemma ValidEntry(q: PQueue, n: Bytes, k: Bytes)
    requires Valid(q) && n in q.db && k in q.db[n]
    ensures |k| == 8 && Uint64(k) <= q.aKey.key
  {
  }

  /** Enqueue (short of int64 overflow) keeps a state valid. */
  lemma EnqueuePreservesValid(q: PQueue, priority: int, m: Message, now: int64)
    requires Valid(q) && q.aKey.key < MAX_INT64
    ensures Valid(Enqueue(q, priority, m, now).0)
  {
    MintedKeyNewest(q, now);
    var q2 := Enqueue(q, priority, m, now).0;
    if ValidPriority(priority) {
      PutOnePreservesValid(q, q2, [priority], MintedKey(q, now), m.value);
    } else {
      assert q2.db == q.db;
    }
  }

  /** The minted key is therefore new to its bucket, the bucket grows by
      exactly one entry, and the state stays valid. */
  lemma EnqueueMintsNewestKey(q: PQueue, priority: int, m: Message, now: int64)
    requires Valid(q) && q.aKey.key < MAX_INT64
    ensures ValidPriority(priority) ==>
      && MintedKey(q, now) !in BucketOf(q.db, [priority])
      && |Enqueue(q, priority, m, now).0.db[[priority]]| == |BucketOf(q.db, [priority])| + 1
    ensures Valid(Enqueue(q, priority, m, now).0)
  {
    EnqueuePreservesValid(q, priority, m, now);
    if ValidPriority(priority) {
      EnqueueGrowsBucket(q, priority, m, now);
    }
  }

  /** The minted key is new to its bucket, which grows by one entry. */
  lemma EnqueueGrowsBucket(q: PQueue, priority: int, m: Message, now: int64)
    requires Valid(q) && q.aKey.key < MAX_INT64 && ValidPriority(priority)
    ensures MintedKey(q, now) !in BucketOf(q.db, [priority])
    ensures |Enqueue(q, priority, m, now).0.db[[priority]]| == |BucketOf(q.db, [priority])| + 1
  {
    var k := MintedKey(q, now);
    MintedKeyNewest(q, now);
    if k in BucketOf(q.db, [priority]) {
      LexIrreflexive(k);
    }
    PutOneSize(q.db, Enqueue(q, priority, m, now).0.db, [priority], k, m.value);
  }

  /** A successful enqueueMessage, as one map update. */
  lemma EnqueueMessageState(db: Db, priority: int, key: Bytes, m: Message)
    requires ValidPriority(priority)
    ensures EnqueueMessage(db, priority, key, m) == Ok(db[[priority] := BucketOf(db, [priority])[key := m.value]])
  {
    var name: Bytes := [priority];
    var created := CreateBucketIfNotExists(db, name);
    assert created[name] == BucketOf(db, name);
    assert Put(created, name, key, m.value) == created[name := BucketOf(db, name)[key := m.value]];
    var updated := BucketOf(db, name)[key := m.value];
    if name !in db {
      assert created == db[name := map[]];
      assert created[name := updated] == db[name := updated];
    }
  }

  /** The state after a successful Enqueue, as one map update. */
  lemma EnqueueState(q: PQueue, priority: int, m: Message, now: int64)
    requires ValidPriority(priority)
    ensures Enqueue(q, priority, m, now).0
      == PQueue(q.db[[priority] := BucketOf(q.db, [priority])[MintedKey(q, now) := m.value]], Get(q.aKey, now).0)
  {
    EnqueueMessageState(q.db, priority, MintedKey(q, now), m);
  }

  /** The state after a successful Requeue, as one map update. */
  lemma RequeueState(q: PQueue, priority: int, m: Message)
    requires ValidPriority(priority) && m.key.Some?
    ensures Requeue(q, priority, m)
      == (PQueue(q.db[[priority] := BucketOf(q.db, [priority])[m.key.value := m.value]], q.aKey), Ok(()))
  {
    EnqueueMessageState(q.db, priority, m.key.value, m);
  }

  /** Requeue of an issued message keeps the state valid. */
  lemma RequeuePreservesValid(q: PQueue, priority: int, m: Message)
    requires Valid(q) && Issued(q, m)
    ensures Valid(Requeue(q, priority, m).0)
  {
    if ValidPriority(priority) {
      PutOnePreservesValid(q, Requeue(q, priority, m).0, [priority], m.key.value, m.value);
    }
  }

  /** Dequeue keeps the state valid, and what it hands out is issued. */
  lemma DequeuePreservesValid(q: PQueue)
    requires Valid(q)
    ensures Valid(Dequeue(q).0)
    ensures Dequeue(q).1.Some? ==> Issued(Dequeue(q).0, Dequeue(q).1.value)
  {
    if Dequeue(q).1.Some? {
      var name := Least(NonEmptyBuckets(q.db));
      RemovePreservesValid(q, name, Dequeue(q).1.value.key.value);
    }
  }

  /** Removing a key from a bucket keeps a state valid. */
  lemma RemovePreservesValid(q: PQueue, name: Bytes, k: Bytes)
    requires Valid(q) && name in q.db
    ensures Valid(PQueue(q.db[name := q.db[name] - {k}], q.aKey))
  {
    var db2 := q.db[name := q.db[name] - {k}];
    forall n, j | n in db2 && j in db2[n]
      ensures |j| == 8 && Uint64(j) <= q.aKey.key
    {
      assert j in q.db[n];
    }
  }

  /** Every one-byte bucket below the least non-empty bucket [p] is absent or empty. */
  lemma BelowLeastBucketEmpty(db: Db, p: byte)
    requires NonEmptyBuckets(db) != {} && Least(NonEmptyBuckets(db)) == [p]
    ensures forall p': byte :: 0 <= p' < p ==> BucketOf(db, [p']) == map[]
  {
    forall p': byte | 0 <= p' < p
      ensures BucketOf(db, [p']) == map[]
    {
      if [p'] in db && |db[[p']]| > 0 {
        assert [p'] in NonEmptyBuckets(db);
        LexPrefixByte(p, [], p', []);
        LexPrefixByte(p', [], p, []);
        assert false;
      }
    }
  }

  /**
   Priority order: in a valid state Dequeue takes the lowest priority p whose
   bucket is non-empty (every bucket below p is absent or empty), within it the
   oldest key, and reports p correctly when p is below 0x80; for p of 0x80 or
   more the varint decode reports 0.
   */
  lemma DequeueLowestPriority(q: PQueue)
    requires Valid(q)
    ensures Dequeue(q).1.Some? ==>
      var m := Dequeue(q).1.value;
      exists p :: 0 <= p < 256
        && [p] in q.db && m.key.value in q.db[[p]]
        && (forall j :: j in q.db[[p]] && j != m.key.value ==> Uint64(m.key.value) < Uint64(j))
        && (forall p' :: 0 <= p' < p ==> BucketOf(q.db, [p']) == map[])
        && m.priority == (if p < 0x80 then p else 0)
  {
    if Dequeue(q).1.Some? {
      var m := Dequeue(q).1.value;
      var name := Least(NonEmptyBuckets(q.db));
      assert |name| == 1;
      var p: byte := name[0];
      assert name == [p];
      BelowLeastBucketEmpty(q.db, p);
      forall j | j in q.db[[p]] && j != m.key.value
        ensures Uint64(m.key.value) < Uint64(j)
      {
        IssuedKeyOrder(m.key.value, j);
      }
      UvarintOneByte(p);
    }
  }

  /**
   The converse view of Dequeue: when bucket p holds key k, every bucket below
   p is absent or empty, and k sorts before the other keys of bucket p, Dequeue
   hands out exactly (k, its payload) and deletes exactly that entry.
   */
  lemma DequeueFromBucket(q: PQueue, p: byte, k: Bytes)
    requires OneByteNames(q.db)
    requires [p] in q.db && k in q.db[[p]]
    requires forall p' :: 0 <= p' < p ==> BucketOf(q.db, [p']) == map[]
    requires forall j :: j in q.db[[p]] && j != k ==> LexLess(k, j)
    ensures Dequeue(q).1 == Some(Message(Some(k), q.db[[p]][k], ReportedPriority([p])))
    ensures Dequeue(q).0 == PQueue(q.db[[p] := q.db[[p]] - {k}], q.aKey)
  {
    var names := NonEmptyBuckets(q.db);
    assert [p] in names;
    forall n | n in names && n != [p]
      ensures LexLess([p], n)
    {
      assert n == [n[0]];
      LexPrefixByte(p, [], n[0], []);
    }
    assert IsLeast([p], names);
    LeastUnique(names);
    assert IsLeast(k, q.db[[p]].Keys);
    LeastUnique(q.db[[p]].Keys);
  }

  /** Dequeue on a queue with no entries returns nil and changes nothing
      (no error is modelled, as Go returns none). */
  lemma DequeueEmpty(q: PQueue)
    requires forall n :: n in q.db ==> q.db[n] == map[]
    ensures Dequeue(q) == (q, None)
  {
    assert NonEmptyBuckets(q.db) == {};
  }

  // ---------------------------------------------------------------------
  // Sizes
  // ---------------------------------------------------------------------

  /** Once Dequeue returns nil, every valid priority reports Size 0. */
  lemma DrainedSizeZero(q: PQueue)
    requires Dequeue(q).1.None?
    ensures forall p :: ValidPriority(p) ==> Size(q, p) == Ok(0)
  {
    forall p | ValidPriority(p)
      ensures Size(q, p) == Ok(0)
    {
      var name: Bytes := [p as byte];
      assert name !in NonEmptyBuckets(q.db);
    }
  }

  /** Enqueue at p (valid, no overflow) grows Size(p) by one and leaves every
      other priority's Size alone; an invalid priority changes no Size. */
  lemma EnqueueSize(q: PQueue, priority: int, m: Message, now: int64, other: int)
    requires Valid(q) && q.aKey.key < MAX_INT64
    ensures var q2 := Enqueue(q, priority, m, now).0;
      && (ValidPriority(priority) ==> Size(q2, priority) == Ok(Size(q, priority).value + 1))
      && (other != priority ==> Size(q2, other) == Size(q, other))
  {
    if ValidPriority(priority) {
      EnqueueSizeAt(q, priority, m, now);
      if other != priority {
        EnqueueSizeOther(q, priority, m, now, other);
      }
    }
  }

  /** Enqueue at a valid priority grows that priority's Size by one. */
  lemma EnqueueSizeAt(q: PQueue, priority: int, m: Message, now: int64)
    requires Valid(q) && q.aKey.key < MAX_INT64 && ValidPriority(priority)
    ensures Size(Enqueue(q, priority, m, now).0, priority) == Ok(Size(q, priority).value + 1)
  {
    EnqueueGrowsBucket(q, priority, m, now);
    PutFreshKeySize(q, Enqueue(q, priority, m, now).0, priority, MintedKey(q, now), m.value);
  }

  /** Putting a key new to a priority's bucket grows that priority's Size by
      one. */
  lemma PutFreshKeySize(q: PQueue, q2: PQueue, priority: int, key: Bytes, value: Bytes)
    requires ValidPriority(priority) && PutOne(q.db, q2.db, [priority], key, value)
    requires key !in BucketOf(q.db, [priority])
    ensures Size(q2, priority) == Ok(Size(q, priority).value + 1)
  {
    PutOneSize(q.db, q2.db, [priority], key, value);
    assert Size(q, priority).value == |BucketOf(q.db, [priority])|;
  }

  /** Enqueue at a valid priority leaves every other priority's Size alone. */
  lemma EnqueueSizeOther(q: PQueue, priority: int, m: Message, now: int64, other: int)
    requires ValidPriority(priority) && other != priority
    ensures Size(Enqueue(q, priority, m, now).0, other) == Size(q, other)
  {
    if ValidPriority(other) {
      assert [other] != [priority] by { assert [other][0] != [priority][0]; }
    }
  }

  /** Dequeue shrinks exactly the Size of the priority it took from. */
  lemma DequeueSize(q: PQueue, other: int)
    requires Valid(q)
    ensures Dequeue(q).1.Some? ==>
      var p := Least(NonEmptyBuckets(q.db))[0];
      && Size(Dequeue(q).0, p) == Ok(Size(q, p).value - 1)
      && (other != p ==> Size(Dequeue(q).0, other) == Size(q, other))
    ensures Dequeue(q).1.None? ==> Size(Dequeue(q).0, other) == Size(q, other)
  {
    if Dequeue(q).1.Some? {
      var name := Least(NonEmptyBuckets(q.db));
      RemoveSize(q, name, Dequeue(q).1.value.key.value, other);
    }
  }

  /** Removing a stored key from a one-byte bucket lowers that priority's
      Size by one and no other. */
  lemma RemoveSize(q: PQueue, name: Bytes, k: Bytes, other: int)
    requires |name| == 1 && name in q.db && k in q.db[name]
    ensures var q2 := PQueue(q.db[name := q.db[name] - {k}], q.aKey);
      && Size(q2, name[0]) == Ok(Size(q, name[0]).value - 1)
      && (other != name[0] ==> Size(q2, other) == Size(q, other))
  {
    assert name == [name[0]];
    assert |q.db[name].Keys - {k}| == |q.db[name].Keys| - 1;
    if other != name[0] && ValidPriority(other) {
      assert [other] != name by { assert [other][0] != name[0]; }
    }
  }

  /** Successive Enqueues of `values` at one priority, one clock reading each. */
  function EnqueueAll(q: PQueue, priority: int, values: seq<Bytes>, nows: seq<int64>): (r: PQueue)
    requires |values| == |nows|
    decreases |values|
  {
    if |values| == 0 then q
    else EnqueueAll(Enqueue(q, priority, NewMessage(values[0]), nows[0]).0, priority, values[1..], nows[1..])
  }

  /** Size reads the bucket's entry count, absent buckets counting 0. */
  lemma SizeIsBucketCount(q: PQueue, priority: int)
    requires ValidPriority(priority)
    ensures Size(q, priority) == Ok(|BucketOf(q.db, [priority])|)
  {
  }

  /**
   After k Enqueues at priority p the bucket of p holds k more entries (so,
   read through SizeIsBucketCount, Size(p) has grown by k and a priority never
   used before reports k), provided no key + 1 overflows int64.
   */
  lemma {:induction false} EnqueueAllSize(q: PQueue, priority: int, values: seq<Bytes>, nows: seq<int64>, bound: int)
    requires ValidPriority(priority) && |values| == |nows|
    requires Valid(q) && q.aKey.key <= bound
    requires forall i :: 0 <= i < |nows| ==> nows[i] <= bound
    requires bound + |nows| <= MAX_INT64
    ensures Valid(EnqueueAll(q, priority, values, nows))
    ensures |BucketOf(EnqueueAll(q, priority, values, nows).db, [priority])| == |BucketOf(q.db, [priority])| + |values|
    decreases |values|
  {
    if |values| > 0 {
      var m := NewMessage(values[0]);
      var q1 := Enqueue(q, priority, m, nows[0]).0;
      EnqueueMintsNewestKey(q, priority, m, nows[0]);
      assert q1.aKey.key <= bound + 1;
      assert forall i :: 0 <= i < |nows[1..]| ==> nows[1..][i] <= bound + 1;
      EnqueueAllSize(q1, priority, values[1..], nows[1..], bound + 1);
    }
  }

  // ---------------------------------------------------------------------
  // The reported priority
  // ---------------------------------------------------------------------

  /** The varint decode of a one-byte bucket name is the byte below 0x80 and 0 from 0x80 up. */
  lemma ReportedPriorityOneByte(p: byte)
    ensures p < 0x80 ==> ReportedPriority([p]) == p
    ensures 0x80 <= p ==> ReportedPriority([p]) == 0
  {
    UvarintOneByte(p);
  }

  /** What the accessors of a dequeued message report in a valid state:
      `ToString` is the payload stored under its key in the bucket it came
      from, and `Priority` is that bucket's byte below 0x80 and 0 from 0x80
      up; never the -1 of a new message. */
  lemma DequeuedAccessors(q: PQueue)
    requires Valid(q)
    ensures Dequeue(q).1.Some? ==>
      var m := Dequeue(q).1.value;
      var name := Least(NonEmptyBuckets(q.db));
      && |name| == 1 && m.key.Some? && m.key.value in q.db[name]
      && ToString(m) == q.db[name][m.key.value]
      && 0 <= Priority(m) < 0x80
      && Priority(m) == (if name[0] < 0x80 then name[0] else 0)
  {
    if Dequeue(q).1.Some? {
      var name := Least(NonEmptyBuckets(q.db));
      assert name == [name[0]];
      ReportedPriorityOneByte(name[0]);
    }
  }

  /** A message enqueued at priority 200 on an empty queue comes back from
      Dequeue claiming priority 0. */
  lemma HighPriorityReportedAsZero(m: Message, now: int64)
    ensures var q := Enqueue(Empty, 200, m, now).0;
      && Dequeue(q).1.Some?
      && Dequeue(q).1.value.priority == 0
  {
    var q := Enqueue(Empty, 200, m, now).0;
    assert q.db.Keys == {[200]};
    assert NonEmptyBuckets(q.db) == {[200]};
    ReportedPriorityOneByte(200);
  }

  /** The priority a one-byte bucket name stands for: the byte itself. */
  function BucketPriority(name: Bytes): int
  {
    if |name| == 1 then name[0] else -1
  }

  /** Dequeue reporting the bucket's own priority byte, for every 0..255. */
  function DequeueIntended(q: PQueue): (r: (PQueue, Option<Message>))
    ensures r.0 == Dequeue(q).0
    ensures r.1.None? <==> Dequeue(q).1.None?
    ensures r.1.Some? ==>
      r.1.value.key == Dequeue(q).1.value.key && r.1.value.value == Dequeue(q).1.value.value
  {
    var (db, e) := TakeFirst(q.db);
    LeastUnique(NonEmptyBuckets(q.db));
    match e
    case None => (q, None)
    case Some(Entry(name, k, v)) =>
      (PQueue(db, q.aKey), Some(Message(Some(k), v, BucketPriority(name))))
  }

  /** In a valid state the intended Dequeue reports the priority of the bucket
      it took from, whichever of 0..255 that is, and agrees with Dequeue
      entirely below 0x80. */
  lemma DequeueIntendedReportsPriority(q: PQueue)
    requires Valid(q)
    ensures DequeueIntended(q).1.Some? ==>
      var name := Least(NonEmptyBuckets(q.db));
      && name == [DequeueIntended(q).1.value.priority]
      && (DequeueIntended(q).1.value.priority < 0x80 ==> DequeueIntended(q) == Dequeue(q))
  {
    if DequeueIntended(q).1.Some? {
      var name := Least(NonEmptyBuckets(q.db));
      assert name == [name[0]];
      ReportedPriorityOneByte(name[0]);
    }
  }
}
