/**
 The count invariant of the single-bucket queue: the count bucket holds, for
 every priority byte, the number of data keys that start with it. Enqueue of a
 fresh key and Dequeue keep it, so on a queue made by `NewNPQueue` the
 "queue underflow" panic cannot fire. Under the invariant Size as written
 always reads 0, and the intended Size reads the count.
 */
module NPQueueCounts {
  import opened Bytes
  import opened Results
  import opened Bolt
  import opened Clocks
  import opened NPQueues
  import Messages

  /** The data keys of priority p. */
  function KeysAt(d: Bucket, p: byte): set<Bytes>
  {
    set k | k in d && |k| > 0 && k[0] == p
  }

  /** The count stored for priority p, absent counting 0. */
  function CountAt(c: Bucket, p: byte): nat
  {
    if [p] in c && |c[[p]]| >= 8 then Uint64(c[[p]]) else 0
  }

  /** Both buckets exist, data keys are 9 bytes, counts are 8 bytes under
      one-byte names, and every priority's count is its number of data keys. */
  predicate Counted(q: NPQueue)
  {
    && CountBucket in q.db && DataBucket in q.db
    && (forall k :: k in q.db[DataBucket] ==> |k| == 9)
    && (forall n :: n in q.db[CountBucket] ==> |n| == 1 && |q.db[CountBucket][n]| == 8)
    && CountsMatch(q.db[CountBucket], q.db[DataBucket])
  }

  /** Every priority's count is its number of data keys. */
  predicate CountsMatch(c: Bucket, d: Bucket)
  {
    forall p: byte :: CountAt(c, p) == |KeysAt(d, p)|
  }

  /** A subset is no larger than its superset. */
  lemma {:induction false} SubsetCard(a: set<Bytes>, b: set<Bytes>)
    requires a <= b
    ensures |a| <= |b|
    decreases |b|
  {
    if a != {} {
      var x :| x in a;
      SubsetCard(a - {x}, b - {x});
    }
  }

  /** The queue `NewNPQueue` makes on a new, empty file is counted. */
  lemma NewQueueCounted()
    ensures Counted(NewNPQueue(map[]))
  {
    var q := NewNPQueue(map[]);
    forall p: byte
      ensures CountAt(q.db[CountBucket], p) == |KeysAt(q.db[DataBucket], p)|
    {
      assert KeysAt(q.db[DataBucket], p) == {};
    }
  }

  /** Opening a file twice ensures nothing more the second time. */
  lemma NewNPQueueIdempotent(db: Db)
    ensures NewNPQueue(NewNPQueue(db).db) == NewNPQueue(db)
  {
    var r1 := NewNPQueue(db).db;
    assert NewNPQueue(r1).db == r1;
  }

  // ---------------------------------------------------------------------
  // Enqueue
  // ---------------------------------------------------------------------

  /** Adding key k to the data bucket adds it to its own priority only. */
  lemma KeysAtPut(d: Bucket, k: Bytes, v: Bytes, p: byte)
    requires |k| > 0 && k !in d
    ensures k[0] == p ==> KeysAt(d[k := v], p) == KeysAt(d, p) + {k}
    ensures k[0] != p ==> KeysAt(d[k := v], p) == KeysAt(d, p)
  {
  }

  /** Overwriting the count of p with an 8-byte value changes the count of p
      only. */
  lemma CountAtUpdate(c: Bucket, p: byte, b: Bytes, p': byte)
    requires |b| == 8
    ensures CountAt(c[[p] := b], p') == if p' == p then Uint64(b) else CountAt(c, p')
  {
    if p' != p {
      assert [p'] != [p] by { assert [p'][0] != [p][0]; }
    }
  }

  /** Storing a fresh key together with its priority's count plus one keeps
      counts and keys matched. */
  lemma PutKeepsCountsMatch(c: Bucket, d: Bucket, k: Bytes, v: Bytes, b: Bytes)
    requires CountsMatch(c, d) && |k| > 0 && k !in d
    requires |b| == 8 && Uint64(b) == CountAt(c, k[0]) + 1
    ensures CountsMatch(c[[k[0]] := b], d[k := v])
  {
    var c2, d2 := c[[k[0]] := b], d[k := v];
    forall p: byte
      ensures CountAt(c2, p) == |KeysAt(d2, p)|
    {
      KeysAtPut(d, k, v, p);
      CountAtUpdate(c, k[0], b, p);
      assert CountAt(c, p) == |KeysAt(d, p)|;
    }
  }

  /** The count Enqueue writes for a fresh key in a counted queue: eight
      bytes holding one more than the stored count, which cannot wrap while
      fewer than 2^64 - 1 messages are stored. */
  lemma EnqueueCount(q: NPQueue, m: NMessage)
    requires Counted(q) && |m.key| == 9
    requires |q.db[DataBucket]| < TWO_TO_THE_64 - 1
    ensures Enqueue(q, m).1 == Returned(())
    ensures var c2 := Enqueue(q, m).0.db[CountBucket];
      var pk: Bytes := [m.key[0]];
      && pk in c2
      && c2 == q.db[CountBucket][pk := c2[pk]]
      && |c2[pk]| == 8
      && Uint64(c2[pk]) == CountAt(q.db[CountBucket], m.key[0]) + 1
  {
    var c, d := q.db[CountBucket], q.db[DataBucket];
    var p := m.key[0];
    assert m.key[..1] == [p];
    SubsetCard(KeysAt(d, p), d.Keys);
    assert CountAt(c, p) == |KeysAt(d, p)|;
  }

  /** In a counted queue Enqueue of a fresh 9-byte key returns normally, adds
      exactly that message to the data bucket and keeps the queue counted,
      provided the count cannot wrap (fewer than 2^64 - 1 messages stored). */
  lemma EnqueueKeepsCount(q: NPQueue, m: NMessage)
    requires Counted(q) && |m.key| == 9 && m.key !in q.db[DataBucket]
    requires |q.db[DataBucket]| < TWO_TO_THE_64 - 1
    ensures Enqueue(q, m).1 == Returned(())
    ensures Enqueue(q, m).0.db[DataBucket] == q.db[DataBucket][m.key := m.value]
    ensures Counted(Enqueue(q, m).0)
  {
    EnqueueCount(q, m);
    var c := q.db[CountBucket];
    var c2 := Enqueue(q, m).0.db[CountBucket];
    var pk: Bytes := [m.key[0]];
    PutKeepsCountsMatch(c, q.db[DataBucket], m.key, m.value, c2[pk]);
    assert c2 == c[pk := c2[pk]];
  }

  // ---------------------------------------------------------------------
  // Dequeue
  // ---------------------------------------------------------------------

  /** Removing key k from the data bucket removes it from its own priority only. */
  lemma KeysAtRemove(d: Bucket, k: Bytes, p: byte)
    requires |k| > 0 && k in d
    ensures k[0] == p ==> KeysAt(d - {k}, p) == KeysAt(d, p) - {k}
    ensures k[0] != p ==> KeysAt(d - {k}, p) == KeysAt(d, p)
  {
  }

  /** Removing a stored key together with lowering its priority's count by
      one keeps counts and keys matched. */
  lemma RemoveKeepsCountsMatch(c: Bucket, d: Bucket, k: Bytes, b: Bytes)
    requires CountsMatch(c, d) && |k| > 0 && k in d
    requires |b| == 8 && Uint64(b) == CountAt(c, k[0]) - 1
    ensures CountsMatch(c[[k[0]] := b], d - {k})
  {
    var c2, d2 := c[[k[0]] := b], d - {k};
    forall p: byte
      ensures CountAt(c2, p) == |KeysAt(d2, p)|
    {
      KeysAtRemove(d, k, p);
      CountAtUpdate(c, k[0], b, p);
      assert CountAt(c, p) == |KeysAt(d, p)|;
    }
  }

  /** In a counted queue Dequeue never panics: it returns nil on an empty data
      bucket and otherwise its least entry, and the queue stays counted. */
  lemma DequeueKeepsCount(q: NPQueue)
    requires Counted(q)
    ensures Dequeue(q).1.Returned?
    ensures q.db[DataBucket] != map[] ==> Dequeue(q).1.value.Some?
    ensures Counted(Dequeue(q).0)
  {
    if q.db[DataBucket] != map[] {
      DequeueNonEmptyCounted(q);
    }
  }

  /** The non-empty case of `DequeueKeepsCount`: the least key's count is at
      least one, so it is decremented and the message handed out. */
  lemma DequeueNonEmptyCounted(q: NPQueue)
    requires Counted(q) && q.db[DataBucket] != map[]
    ensures Dequeue(q).1.Returned? && Dequeue(q).1.value.Some?
    ensures Counted(Dequeue(q).0)
  {
    BucketNamesDiffer();
    var c, d := q.db[CountBucket], q.db[DataBucket];
    var k := First(d);
    var p := k[0];
    var pk := k[..1];
    assert pk == [p];
    assert k in KeysAt(d, p);
    assert CountAt(c, p) >= 1;
    assert DecrementCount(Lookup(q.db, CountBucket, pk)).Returned?;
    LeastUnique(d.Keys);
    assert Dequeue(q).1.value.value.key == k;
    var c2 := Dequeue(q).0.db[CountBucket];
    RemoveKeepsCountsMatch(c, d, k, c2[pk]);
    assert c2 == c[pk := c2[pk]];
  }


  /**
   Dequeue order: in a counted queue the message Dequeue hands out has the
   lowest priority byte present, and the oldest stamp within that priority.
   */
  lemma DequeueLowestPriorityOldest(q: NPQueue)
    requires Counted(q)
    ensures q.db[DataBucket] != map[] ==> Dequeue(q).1.Returned? && Dequeue(q).1.value.Some?
    ensures Dequeue(q).1.Returned? && Dequeue(q).1.value.Some? ==>
      var k := Dequeue(q).1.value.value.key;
      forall j :: j in q.db[DataBucket] && j != k ==>
        k[0] < j[0] || (k[0] == j[0] && Uint64(k[1..]) < Uint64(j[1..]))
  {
    if Dequeue(q).1.Returned? && Dequeue(q).1.value.Some? {
      var k := Dequeue(q).1.value.value.key;
      forall j | j in q.db[DataBucket] && j != k
        ensures k[0] < j[0] || (k[0] == j[0] && Uint64(k[1..]) < Uint64(j[1..]))
      {
        NKeyParts(k);
        NKeyParts(j);
        NKeyOrder(k[0], Uint64(k[1..]), j[0], Uint64(j[1..]));
      }
    }
    DequeueKeepsCount(q);
  }

  /** A counted queue holding one message dequeues exactly that message and
      is left counted and without messages. */
  lemma DequeueOnlyMessage(q: NPQueue, m: NMessage)
    requires Counted(q) && q.db[DataBucket] == map[m.key := m.value]
    ensures Dequeue(q).1 == Returned(Some(m))
    ensures Dequeue(q).0.db[DataBucket] == map[]
    ensures Counted(Dequeue(q).0)
  {
    DequeueKeepsCount(q);
    LeastUnique(q.db[DataBucket].Keys);
    assert IsLeast(m.key, q.db[DataBucket].Keys);
    assert map[m.key := m.value] - {m.key} == map[];
  }

  /** On a counted queue with no messages, Dequeue hands back exactly the
      message just enqueued, and the data bucket is empty again. */
  lemma EnqueueDequeueRoundTrip(q: NPQueue, m: NMessage)
    requires Counted(q) && q.db[DataBucket] == map[] && |m.key| == 9
    ensures Enqueue(q, m).1 == Returned(())
    ensures Dequeue(Enqueue(q, m).0).1 == Returned(Some(m))
    ensures Dequeue(Enqueue(q, m).0).0.db[DataBucket] == map[]
    ensures Counted(Dequeue(Enqueue(q, m).0).0)
  {
    EnqueueIntoEmpty(q, m);
    DequeueOnlyMessage(Enqueue(q, m).0, m);
  }

  // ---------------------------------------------------------------------
  // Size
  // ---------------------------------------------------------------------

  /** Size as written: in a counted queue it reads 0 for every priority,
      whatever the queue holds, since no 9-byte data key is a one-byte key. */
  lemma SizeAlwaysZero(q: NPQueue, p: byte)
    requires Counted(q)
    ensures Size(q, p) == Returned(Ok(0))
  {
    assert [p] !in q.db[DataBucket];
  }

  /** The intended Size reads, in a counted queue, the number of messages of
      that priority. */
  lemma SizeIntendedCounts(q: NPQueue, p: byte)
    requires Counted(q)
    ensures SizeIntended(q, p) == Returned(Ok(|KeysAt(q.db[DataBucket], p)|))
  {
    assert CountAt(q.db[CountBucket], p) == |KeysAt(q.db[DataBucket], p)|;
  }

  /** The intended Size reports the stored count whenever the count of that
      priority, if present, is eight bytes long. */
  lemma SizeIntendedReadsCount(q: NPQueue, p: byte)
    requires CountBucket in q.db
    requires [p] in q.db[CountBucket] ==> |q.db[CountBucket][[p]]| == 8
    ensures SizeIntended(q, p) == Returned(Ok(CountAt(q.db[CountBucket], p)))
  {
  }

  /** The first message enqueued on a counted queue with no messages is the
      only one of its priority. */
  lemma EnqueueIntoEmpty(q: NPQueue, m: NMessage)
    requires Counted(q) && q.db[DataBucket] == map[] && |m.key| == 9
    ensures Enqueue(q, m).1 == Returned(())
    ensures var q1 := Enqueue(q, m).0;
      && Counted(q1)
      && q1.db[DataBucket] == map[m.key := m.value]
      && KeysAt(q1.db[DataBucket], m.key[0]) == {m.key}
  {
    EnqueueKeepsCount(q, m);
  }

  /** A concrete case: after one Enqueue at priority 3 on a new queue, Size(3)
      reads 0 while the intended Size reads 1. */
  lemma OneMessageSizeZero(c: Clocks, v: Bytes, now: int64)
    ensures
      var m := NewNMessage(c, 3, v, now).1.value;
      var q1 := Enqueue(NewNPQueue(map[]), m).0;
      && Size(q1, 3) == Returned(Ok(0))
      && SizeIntended(q1, 3) == Returned(Ok(1))
  {
    var m := NewNMessage(c, 3, v, now).1.value;
    var q0 := NewNPQueue(map[]);
    NewQueueCounted();
    EnqueueIntoEmpty(q0, m);
    var q1 := Enqueue(q0, m).0;
    SizeAlwaysZero(q1, 3);
    SizeIntendedCounts(q1, 3);
  }

  /** Enqueue of a key already stored overwrites its payload but still bumps
      the count, so the count runs one ahead and the queue is no longer
      counted. */
  lemma EnqueueStoredKeyBreaksCount(q: NPQueue, m: NMessage)
    requires Counted(q) && |m.key| == 9 && m.key in q.db[DataBucket]
    requires |q.db[DataBucket]| < TWO_TO_THE_64 - 1
    ensures Enqueue(q, m).1 == Returned(())
    ensures var q2 := Enqueue(q, m).0;
      && q2.db[DataBucket] == q.db[DataBucket][m.key := m.value]
      && |q2.db[DataBucket]| == |q.db[DataBucket]|
      && CountBucket in q2.db && [m.key[0]] in q2.db[CountBucket]
      && |q2.db[CountBucket][[m.key[0]]]| == 8
      && CountAt(q2.db[CountBucket], m.key[0]) == |KeysAt(q2.db[DataBucket], m.key[0])| + 1
      && !Counted(q2)
  {
    EnqueueCount(q, m);
    var d := q.db[DataBucket];
    var p := m.key[0];
    var q2 := Enqueue(q, m).0;
    assert q2.db[DataBucket].Keys == d.Keys;
    assert KeysAt(q2.db[DataBucket], p) == KeysAt(d, p);
    assert CountAt(q2.db[CountBucket], p) == CountAt(q.db[CountBucket], p) + 1;
  }

  // ---------------------------------------------------------------------
  // The timestamp guard
  // ---------------------------------------------------------------------

  /** Two messages of one priority made at the same clock reading get the same
      key, since the guard variable is never raised. */
  lemma SameReadingSameKey(c: Clocks, p: byte, v1: Bytes, v2: Bytes, now: int64)
    ensures
      var (c1, m1) := NewNMessage(c, p, v1, now);
      var (c2, m2) := NewNMessage(c1, p, v2, now);
      m1.Ok? && m2.Ok? && m1.value.key == m2.value.key
  {
    var (c1, m1) := NewNMessage(c, p, v1, now);
    var (c2, m2) := NewNMessage(c1, p, v2, now);
    NKeyParts(m1.value.key);
    NKeyParts(m2.value.key);
  }

  /** A count of two against a data bucket holding a single key: the
      intended Size reads two and the queue is not counted. */
  lemma CountAheadOfOne(q: NPQueue, k: Bytes, v: Bytes)
    requires |k| > 0 && CountBucket in q.db && DataBucket in q.db
    requires q.db[DataBucket] == map[k := v]
    requires [k[0]] in q.db[CountBucket] && |q.db[CountBucket][[k[0]]]| == 8
    requires CountAt(q.db[CountBucket], k[0]) == 2
    ensures SizeIntended(q, k[0]) == Returned(Ok(2))
    ensures !Counted(q)
  {
    assert KeysAt(q.db[DataBucket], k[0]) == {k};
    SizeIntendedReadsCount(q, k[0]);
  }

  /** Enqueue onto a stored eight-byte count below the maximum returns
      normally, bumps that count by one and stores the payload. */
  lemma EnqueueBumpsCount(q: NPQueue, m: NMessage)
    requires CountBucket in q.db && DataBucket in q.db && |m.key| > 0
    requires [m.key[0]] in q.db[CountBucket] && |q.db[CountBucket][[m.key[0]]]| == 8
    requires Uint64(q.db[CountBucket][[m.key[0]]]) < TWO_TO_THE_64 - 1
    ensures Enqueue(q, m).1 == Returned(())
    ensures Enqueue(q, m).0.db[DataBucket] == q.db[DataBucket][m.key := m.value]
    ensures var c2 := Enqueue(q, m).0.db[CountBucket];
      && CountBucket in Enqueue(q, m).0.db
      && [m.key[0]] in c2 && |c2[[m.key[0]]]| == 8
      && CountAt(c2, m.key[0]) == Uint64(q.db[CountBucket][[m.key[0]]]) + 1
  {
    assert m.key[..1] == [m.key[0]];
  }

  /** A second message with the key of the one stored message, whose
      priority counts one: the payload is overwritten, the count reads two,
      and the queue is no longer counted. */
  lemma EnqueueOverOnlyMessage(q: NPQueue, m: NMessage, v: Bytes)
    requires CountBucket in q.db && |m.key| == 9 && DataBucket in q.db
    requires q.db[DataBucket] == map[m.key := v]
    requires [m.key[0]] in q.db[CountBucket] && |q.db[CountBucket][[m.key[0]]]| == 8
    requires Uint64(q.db[CountBucket][[m.key[0]]]) == 1
    ensures Enqueue(q, m).1 == Returned(())
    ensures Enqueue(q, m).0.db[DataBucket] == map[m.key := m.value]
    ensures SizeIntended(Enqueue(q, m).0, m.key[0]) == Returned(Ok(2))
    ensures !Counted(Enqueue(q, m).0)
  {
    EnqueueBumpsCount(q, m);
    assert q.db[DataBucket][m.key := m.value] == map[m.key := m.value];
    CountAheadOfOne(Enqueue(q, m).0, m.key, m.value);
  }

  /** Two messages with one key enqueued on a counted queue with no messages:
      both calls succeed, one entry is stored, and the count reads two. */
  lemma EnqueueSameKeyTwice(q: NPQueue, m1: NMessage, m2: NMessage)
    requires Counted(q) && q.db[DataBucket] == map[]
    requires |m1.key| == 9 && m2.key == m1.key
    ensures var q1 := Enqueue(q, m1).0;
      && Enqueue(q, m1).1 == Returned(())
      && Enqueue(q1, m2).1 == Returned(())
      && Enqueue(q1, m2).0.db[DataBucket] == map[m1.key := m2.value]
      && SizeIntended(Enqueue(q1, m2).0, m1.key[0]) == Returned(Ok(2))
      && !Counted(Enqueue(q1, m2).0)
  {
    EnqueueIntoEmpty(q, m1);
    var q1 := Enqueue(q, m1).0;
    var p := m1.key[0];
    assert CountAt(q1.db[CountBucket], p) == |KeysAt(q1.db[DataBucket], p)| == 1;
    EnqueueOverOnlyMessage(q1, m2, m1.value);
  }

  /** The consequence: enqueueing both on a queue with no messages counts two
      but stores one, so the queue is no longer counted. */
  lemma SameReadingBreaksCount(q: NPQueue, c: Clocks, p: byte, v1: Bytes, v2: Bytes, now: int64)
    requires Counted(q) && q.db[DataBucket] == map[]
    ensures
      var (c1, m1) := NewNMessage(c, p, v1, now);
      var (c2, m2) := NewNMessage(c1, p, v2, now);
      var q1 := Enqueue(q, m1.value).0;
      var q2 := Enqueue(q1, m2.value);
      && q2.1 == Returned(())
      && q2.0.db[DataBucket] == map[m1.value.key := v2]
      && SizeIntended(q2.0, p) == Returned(Ok(2))
      && !Counted(q2.0)
  {
    var (c1, m1) := NewNMessage(c, p, v1, now);
    var (c2, m2) := NewNMessage(c1, p, v2, now);
    SameReadingSameKey(c, p, v1, v2, now);
    EnqueueSameKeyTwice(q, m1.value, m2.value);
  }

  /** With the intended guard, from a non-negative guard and short of the int64
      maximum, a second message's key differs from the first, and at the same
      priority sorts after it: no overwrite, and FIFO within a priority. */
  lemma IntendedKeysIncrease(c: Clocks, p1: byte, v1: Bytes, n1: int64, p2: byte, v2: Bytes, n2: int64)
    requires 0 <= c.nLastTime < MAX_INT64 - 1 && n1 < MAX_INT64
    ensures
      var (c1, m1) := NewNMessageIntended(c, p1, v1, n1);
      var (c2, m2) := NewNMessageIntended(c1, p2, v2, n2);
      && m1.Ok? && m2.Ok?
      && m1.value.key != m2.value.key
      && (p1 == p2 ==> LexLess(m1.value.key, m2.value.key))
  {
    var (c1, m1) := NewNMessageIntended(c, p1, v1, n1);
    var (c2, m2) := NewNMessageIntended(c1, p2, v2, n2);
    var k1, k2 := m1.value.key, m2.value.key;
    NKeyParts(k1);
    NKeyParts(k2);
    NKeyOrder(p1, Uint64(k1[1..]), p2, Uint64(k2[1..]));
  }
}
