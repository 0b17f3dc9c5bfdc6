/**
 The single-bucket queue of `npqueue.go`. Every message lives in the data
 bucket "d" under a 9-byte key, the priority byte followed by the big-endian
 guarded timestamp, so Bolt's key order is priority first and age second. A
 second bucket "c" keeps, per one-byte priority, an 8-byte big-endian count of
 the messages enqueued at that priority. A Go panic inside a Bolt update rolls
 the transaction back, so a panicking call leaves the database as it was; the
 model makes the panic an explicit outcome.
 */
module NPQueues {
  import opened Bytes
  import opened Results
  import opened Bolt
  import opened Clocks
  import Messages

  /** The count bucket "c" and the data bucket "d". */
  const CountBucket: Bytes := [0x63]
  const DataBucket: Bytes := [0x64]

  datatype NError = InvalidPriority

  /** What a call does: return a value, or panic. */
  datatype Outcome<+T> = Returned(value: T) | Panic

  /** A message: its 9-byte key and its payload. */
  datatype NMessage = NMessage(key: Bytes, value: Bytes)

  /** The queue: its Bolt database. */
  datatype NPQueue = NPQueue(db: Db)

  /** `ToString()`: the payload, byte for byte. */
  function ToString(m: NMessage): (s: Bytes)
    ensures s == m.value
  {
    m.value
  }

  lemma BucketNamesDiffer()
    ensures CountBucket != DataBucket
  {
    assert CountBucket[0] != DataBucket[0];
  }

  // ---------------------------------------------------------------------
  // Keys
  // ---------------------------------------------------------------------

  /** The data key of a message: the priority byte, then the 8-byte big-endian stamp. */
  function NKey(priority: byte, stamp: uint64): (k: Bytes)
    ensures |k| == 9 && k[0] == priority && Uint64(k[1..]) == stamp
  {
    Uint64RoundTrip(stamp);
    var k := [priority] + PutUint64(stamp);
    assert k[1..] == PutUint64(stamp);
    k
  }

  /** Every 9-byte key is the key of its own priority byte and stamp. */
  lemma NKeyParts(k: Bytes)
    requires |k| == 9
    ensures NKey(k[0], Uint64(k[1..])) == k
  {
    PutUint64OfUint64(k[1..]);
    assert k == [k[0]] + k[1..];
  }

  /** Bolt's byte order on data keys is priority order, then stamp order. */
  lemma NKeyOrder(p1: byte, s1: uint64, p2: byte, s2: uint64)
    ensures LexLess(NKey(p1, s1), NKey(p2, s2)) <==> p1 < p2 || (p1 == p2 && s1 < s2)
  {
    LexPrefixByte(p1, PutUint64(s1), p2, PutUint64(s2));
    PutUint64Order(s1, s2);
  }

  /** Distinct (priority, stamp) pairs give distinct keys. */
  lemma NKeyInjective(p1: byte, s1: uint64, p2: byte, s2: uint64)
    ensures NKey(p1, s1) == NKey(p2, s2) <==> p1 == p2 && s1 == s2
  {
  }

  // ---------------------------------------------------------------------
  // Operations
  // ---------------------------------------------------------------------

  /**
   `NewNMessage`, as written: a priority outside 0..255 is refused before the
   clock is read. Otherwise the timestamp is guarded by `NlastTime`, but the
   result is recorded in `lastTime`, so `NlastTime` never moves.
   */
  function NewNMessage(c: Clocks, priority: int, value: Bytes, now: int64): (r: (Clocks, Result<NMessage, NError>))
    ensures !Messages.ValidPriority(priority) ==> r == (c, Err(InvalidPriority))
    ensures Messages.ValidPriority(priority) ==>
      && r.1.Ok?
      && |r.1.value.key| == 9
      && r.1.value.key[0] == priority
      && Uint64(r.1.value.key[1..]) == Int64ToUint64(GuardedTime(c.nLastTime, now))
      && ToString(r.1.value) == value
    ensures r.0.uLastTime == c.uLastTime && r.0.nLastTime == c.nLastTime
    ensures Messages.ValidPriority(priority) ==> r.0.lastTime == GuardedTime(c.nLastTime, now)
  {
    if !Messages.ValidPriority(priority) then (c, Err(InvalidPriority))
    else
      var t := GuardedTime(c.nLastTime, now);
      (c.(lastTime := t), Ok(NMessage(NKey(priority, Int64ToUint64(t)), value)))
  }

  /** `NewNPQueue` on the contents of an opened file: ensures the data and
      count buckets exist and changes nothing else. */
  function NewNPQueue(db: Db): (r: NPQueue)
    ensures r.db.Keys == db.Keys + {DataBucket, CountBucket}
    ensures forall n :: n in db ==> r.db[n] == db[n]
    ensures DataBucket !in db ==> r.db[DataBucket] == map[]
    ensures CountBucket !in db ==> r.db[CountBucket] == map[]
  {
    NPQueue(CreateBucketIfNotExists(CreateBucketIfNotExists(db, DataBucket), CountBucket))
  }

  /** The count Enqueue stores: 1 when the priority has none yet, otherwise
      the stored count plus one (mod 2^64) over its first eight bytes; a stored
      count shorter than eight bytes makes the decode panic. */
  function IncrementCount(countb: Option<Bytes>): (r: Outcome<Bytes>)
    ensures countb.None? ==> r.Returned? && |r.value| == 8 && Uint64(r.value) == 1
    ensures countb.Some? && |countb.value| < 8 ==> r == Panic
    ensures countb.Some? && |countb.value| >= 8 ==>
      r.Returned? && |r.value| == |countb.value| && Uint64(r.value) == Uint64Inc(Uint64(countb.value))
  {
    match countb
    case None =>
      Uint64RoundTrip(1);
      Returned(PutUint64(1))
    case Some(b) =>
      if |b| < 8 then Panic else Returned(OverwriteUint64(b, Uint64Inc(Uint64(b))))
  }

  /** The count Dequeue stores: the stored count minus one over its first
      eight bytes. A missing count (cloned to an empty slice), a short one, and
      a zero one ("queue underflow") all panic. */
  function DecrementCount(countb: Option<Bytes>): (r: Outcome<Bytes>)
    ensures r.Returned? <==> countb.Some? && |countb.value| >= 8 && Uint64(countb.value) > 0
    ensures r.Returned? ==>
      |r.value| == |countb.value| && Uint64(r.value) == Uint64(countb.value) - 1
  {
    match countb
    case None => Panic
    case Some(b) =>
      if |b| < 8 || Uint64(b) == 0 then Panic else Returned(OverwriteUint64(b, Uint64(b) - 1))
  }

  /**
   `Enqueue`: bumps the count of the key's priority byte and puts the message
   into the data bucket, in one transaction. It panics, changing nothing, when
   the count bucket or the data bucket is missing, when the key is empty, or
   when the stored count is too short to decode.
   */
  function Enqueue(q: NPQueue, m: NMessage): (r: (NPQueue, Outcome<()>))
    ensures CountBucket !in q.db || DataBucket !in q.db || |m.key| == 0 ==> r == (q, Panic)
    ensures r.1 == Panic <==>
      || CountBucket !in q.db || DataBucket !in q.db || |m.key| == 0
      || IncrementCount(Lookup(q.db, CountBucket, m.key[..1])).Panic?
    ensures r.1 == Panic ==> r.0 == q
    ensures r.1.Returned? ==>
      var pk := m.key[..1];
      && CountBucket in q.db && DataBucket in q.db && |m.key| > 0
      && IncrementCount(Lookup(q.db, CountBucket, pk)).Returned?
      && r.0.db.Keys == q.db.Keys
      && r.0.db[CountBucket] == q.db[CountBucket][pk := IncrementCount(Lookup(q.db, CountBucket, pk)).value]
      && r.0.db[DataBucket] == q.db[DataBucket][m.key := m.value]
      && (forall n :: n in q.db && n != CountBucket && n != DataBucket ==> r.0.db[n] == q.db[n])
  {
    BucketNamesDiffer();
    if CountBucket !in q.db || |m.key| == 0 then (q, Panic)
    else
      var pk := m.key[..1];
      match IncrementCount(Lookup(q.db, CountBucket, pk))
      case Panic => (q, Panic)
      case Returned(countb) =>
        var db := Put(q.db, CountBucket, pk, countb);
        if DataBucket !in db then (q, Panic)
        else (NPQueue(Put(db, DataBucket, m.key, m.value)), Returned(()))
  }

  /**
   `Dequeue`: takes the least key of the data bucket with its payload,
   deletes it, and decrements the count of its priority byte, in one
   transaction; an empty data bucket yields nil and no change. It panics,
   changing nothing, when the data bucket is missing, when the key is empty,
   when the count bucket is missing, or when the count is missing, short or
   zero.
   */
  function Dequeue(q: NPQueue): (r: (NPQueue, Outcome<Option<NMessage>>))
    ensures DataBucket !in q.db ==> r == (q, Panic)
    ensures DataBucket in q.db && q.db[DataBucket] == map[] ==> r == (q, Returned(None))
    ensures DataBucket in q.db && q.db[DataBucket] != map[] ==> r.1 != Returned(None)
    ensures r.1 == Panic <==>
      || DataBucket !in q.db
      || (q.db[DataBucket] != map[] &&
          var k := First(q.db[DataBucket]);
          || |k| == 0 || CountBucket !in q.db
          || DecrementCount(Lookup(q.db, CountBucket, k[..1])).Panic?)
    ensures r.1 == Panic ==> r.0 == q
    ensures r.1.Returned? && r.1.value.Some? ==>
      DataBucket in q.db && CountBucket in q.db && |r.1.value.value.key| > 0
    ensures r.1.Returned? && r.1.value.Some? ==>
      var m := r.1.value.value;
      var pk := m.key[..1];
      && IsLeast(m.key, q.db[DataBucket].Keys)
      && m.value == q.db[DataBucket][m.key]
      && DecrementCount(Lookup(q.db, CountBucket, pk)).Returned?
      && r.0.db.Keys == q.db.Keys
      && r.0.db[DataBucket] == q.db[DataBucket] - {m.key}
      && r.0.db[CountBucket] == q.db[CountBucket][pk := DecrementCount(Lookup(q.db, CountBucket, pk)).value]
      && (forall n :: n in q.db && n != CountBucket && n != DataBucket ==> r.0.db[n] == q.db[n])
  {
    BucketNamesDiffer();
    if DataBucket !in q.db then (q, Panic)
    else if q.db[DataBucket] == map[] then (q, Returned(None))
    else
      var k := First(q.db[DataBucket]);
      LeastUnique(q.db[DataBucket].Keys);
      var v := q.db[DataBucket][k];
      var db := Delete(q.db, DataBucket, k);
      if |k| == 0 || CountBucket !in db then (q, Panic)
      else
        var pk := k[..1];
        match DecrementCount(Lookup(db, CountBucket, pk))
        case Panic => (q, Panic)
        case Returned(countb) =>
          (NPQueue(Put(db, CountBucket, pk, countb)), Returned(Some(NMessage(k, v))))
  }

  /**
   `Size`, as written: looks the one-byte priority key up in the data bucket
   (whose keys are 9 bytes long) rather than in the count bucket; a priority
   outside 0..255 is an error, a missing data bucket panics, a missing entry
   reads as 0 and a stored value shorter than eight bytes panics.
   */
  function Size(q: NPQueue, priority: int): (r: Outcome<Result<uint64, NError>>)
    ensures !Messages.ValidPriority(priority) ==> r == Returned(Err(InvalidPriority))
    ensures Messages.ValidPriority(priority) ==>
      && (DataBucket !in q.db ==> r == Panic)
      && (DataBucket in q.db && [priority] !in q.db[DataBucket] ==> r == Returned(Ok(0)))
      && (DataBucket in q.db && [priority] in q.db[DataBucket] ==>
            r == if |q.db[DataBucket][[priority]]| < 8 then Panic
                 else Returned(Ok(Uint64(q.db[DataBucket][[priority]]))))
  {
    if !Messages.ValidPriority(priority) then Returned(Err(InvalidPriority))
    else if DataBucket !in q.db then Panic
    else
      match Lookup(q.db, DataBucket, [priority])
      case None => Returned(Ok(0))
      case Some(b) => if |b| < 8 then Panic else Returned(Ok(Uint64(b)))
  }

  /** `Size` as evidently intended: the same read, from the count bucket. */
  function SizeIntended(q: NPQueue, priority: int): (r: Outcome<Result<uint64, NError>>)
    ensures !Messages.ValidPriority(priority) ==> r == Returned(Err(InvalidPriority))
    ensures Messages.ValidPriority(priority) ==>
      && (CountBucket !in q.db ==> r == Panic)
      && (CountBucket in q.db && [priority] !in q.db[CountBucket] ==> r == Returned(Ok(0)))
      && (CountBucket in q.db && [priority] in q.db[CountBucket] ==>
            r == if |q.db[CountBucket][[priority]]| < 8 then Panic
                 else Returned(Ok(Uint64(q.db[CountBucket][[priority]]))))
  {
    if !Messages.ValidPriority(priority) then Returned(Err(InvalidPriority))
    else if CountBucket !in q.db then Panic
    else
      match Lookup(q.db, CountBucket, [priority])
      case None => Returned(Ok(0))
      case Some(b) => if |b| < 8 then Panic else Returned(Ok(Uint64(b)))
  }

  /** `NewNMessage` as evidently intended: the guard variable itself records
      the timestamp, so the next call is guarded against it. */
  function NewNMessageIntended(c: Clocks, priority: int, value: Bytes, now: int64): (r: (Clocks, Result<NMessage, NError>))
    ensures !Messages.ValidPriority(priority) ==> r == (c, Err(InvalidPriority))
    ensures Messages.ValidPriority(priority) ==>
      && r.1.Ok?
      && |r.1.value.key| == 9
      && r.1.value.key[0] == priority
      && Uint64(r.1.value.key[1..]) == Int64ToUint64(r.0.nLastTime)
      && ToString(r.1.value) == value
      && (c.nLastTime < MAX_INT64 ==> r.0.nLastTime > c.nLastTime && r.0.nLastTime >= now)
  {
    if !Messages.ValidPriority(priority) then (c, Err(InvalidPriority))
    else
      var t := GuardedTime(c.nLastTime, now);
      (c.(nLastTime := t), Ok(NMessage(NKey(priority, Int64ToUint64(t)), value)))
  }
}
