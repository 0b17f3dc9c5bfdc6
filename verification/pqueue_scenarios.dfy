/**
 The ordering promises of the canonical queue, stated over whole runs of
 operations: FIFO within a priority, requeue precedence, and the concrete runs
 of `pqueue_test.go` and of the package documentation, with symbolic payloads
 and symbolic clock readings (any readings, as long as they stay clear of the
 int64 maximum).
 */
module PQueueScenarios {
  import opened Bytes
  import opened Results
  import opened Bolt
  import opened AtomicKeys
  import opened Messages
  import opened PQueues

  /** A clock reading comfortably below the int64 maximum. */
  predicate Sane(now: int64)
  {
    now < MAX_INT64 - 8
  }

  /**
   FIFO within a priority: of two successive Enqueues at the same priority, the
   first key sorts strictly before the second and both entries sit in the
   bucket with their payloads, so Bolt's cursor meets the older one first.
   */
  lemma FifoWithinPriority(q: PQueue, p: byte, a: Message, b: Message, n1: int64, n2: int64)
    requires Valid(q) && q.aKey.key < MAX_INT64 - 1 && n1 < MAX_INT64
    ensures
      var q1 := Enqueue(q, p, a, n1).0;
      var q2 := Enqueue(q1, p, b, n2).0;
      var ka := MintedKey(q, n1);
      var kb := MintedKey(q1, n2);
      && LexLess(ka, kb)
      && ka in q2.db[[p]] && q2.db[[p]][ka] == a.value
      && kb in q2.db[[p]] && q2.db[[p]][kb] == b.value
      && Valid(q2)
  {
    var q1 := Enqueue(q, p, a, n1).0;
    EnqueueMintsNewestKey(q, p, a, n1);
    MintedKeyNewest(q1, n2);
    EnqueueMintsNewestKey(q1, p, b, n2);
    LexIrreflexive(MintedKey(q, n1));
  }

  /**
   Requeue precedence: a requeued message keeps its issued key, which sorts
   before the key of any later Enqueue, at whichever priority it is put back.
   */
  lemma RequeuePrecedesLaterEnqueues(q: PQueue, p: byte, m: Message, later: Message, now: int64)
    requires Valid(q) && q.aKey.key < MAX_INT64 && Issued(q, m)
    ensures
      var q1 := Requeue(q, p, m).0;
      var q2 := Enqueue(q1, p, later, now).0;
      && Requeue(q, p, m).1 == Ok(())
      && m.key.value in q2.db[[p]] && q2.db[[p]][m.key.value] == m.value
      && MintedKey(q1, now) in q2.db[[p]]
      && LexLess(m.key.value, MintedKey(q1, now))
  {
    var q1 := Requeue(q, p, m).0;
    RequeuePreservesValid(q, p, m);
    MintedKeyNewest(q1, now);
    LexIrreflexive(m.key.value);
  }

  /** A database of exactly two buckets, priorities p < r, with contents bp and br. */
  predicate TwoBuckets(db: Db, p: byte, bp: Bucket, r: byte, br: Bucket)
  {
    p < r && db.Keys == {[p], [r]} && db[[p]] == bp && db[[r]] == br
  }

  /** Dequeue on two buckets takes the least key k of the lower one while it is non-empty. */
  lemma DequeueLowerOfTwo(q: PQueue, p: byte, bp: Bucket, r: byte, br: Bucket, k: Bytes)
    requires TwoBuckets(q.db, p, bp, r, br)
    requires k in bp && forall j :: j in bp && j != k ==> LexLess(k, j)
    ensures Dequeue(q).1 == Some(Message(Some(k), bp[k], ReportedPriority([p])))
    ensures TwoBuckets(Dequeue(q).0.db, p, bp - {k}, r, br) && Dequeue(q).0.aKey == q.aKey
  {
    assert [p] != [r] by { assert [p][0] != [r][0]; }
    forall p' | 0 <= p' < p
      ensures BucketOf(q.db, [p']) == map[]
    {
      assert [p'] != [p] && [p'] != [r] by { assert [p'][0] != [p][0] && [p'][0] != [r][0]; }
    }
    DequeueFromBucket(q, p, k);
  }

  /** Once the lower bucket is empty, Dequeue takes the least key k of the upper one. */
  lemma DequeueUpperOfTwo(q: PQueue, p: byte, r: byte, br: Bucket, k: Bytes)
    requires TwoBuckets(q.db, p, map[], r, br)
    requires k in br && forall j :: j in br && j != k ==> LexLess(k, j)
    ensures Dequeue(q).1 == Some(Message(Some(k), br[k], ReportedPriority([r])))
    ensures TwoBuckets(Dequeue(q).0.db, p, map[], r, br - {k}) && Dequeue(q).0.aKey == q.aKey
  {
    assert [p] != [r] by { assert [p][0] != [r][0]; }
    forall p' | 0 <= p' < r
      ensures BucketOf(q.db, [p']) == map[]
    {
      assert [p'] != [r] by { assert [p'][0] != [r][0]; }
    }
    DequeueFromBucket(q, r, k);
  }

  /** The first Enqueue on a fresh queue creates the one bucket of its priority holding the one entry. */
  lemma FirstEnqueue(p: byte, v: Bytes, n: int64)
    requires Sane(n)
    ensures
      var q1 := Enqueue(Empty, p, NewMessage(v), n).0;
      && Valid(q1) && q1.aKey.key < MAX_INT64 - 8
      && q1.db.Keys == {[p]} && q1.db[[p]] == map[MintedKey(Empty, n) := v]
  {
    EmptyValid();
    EnqueueState(Empty, p, NewMessage(v), n);
    EnqueueMintsNewestKey(Empty, p, NewMessage(v), n);
  }

  /** An Enqueue at a new priority r next to the one bucket p adds bucket r
      holding just the new entry and leaves bucket p alone. */
  lemma EnqueueSecondBucket(q1: PQueue, p: byte, bp: Bucket, r: byte, v: Bytes, n: int64)
    requires Valid(q1) && q1.aKey.key < MAX_INT64 - 1 && Sane(n)
    requires p != r && q1.db.Keys == {[p]} && q1.db[[p]] == bp
    ensures
      var q2 := Enqueue(q1, r, NewMessage(v), n).0;
      && Valid(q2) && q2.aKey.key < MAX_INT64
      && q2.db.Keys == {[p], [r]} && q2.db[[p]] == bp && q2.db[[r]] == map[MintedKey(q1, n) := v]
  {
    EnqueueState(q1, r, NewMessage(v), n);
    EnqueueMintsNewestKey(q1, r, NewMessage(v), n);
    assert [r] !in q1.db by { assert [r] != [p] by { assert [r][0] != [p][0]; } }
  }

  /** The first two Enqueues of the priority-then-FIFO scenario fill bucket 1 with a then b. */
  lemma ScenarioFirstEnqueues(a: Bytes, b: Bytes, n1: int64, n2: int64)
    requires Sane(n1) && Sane(n2)
    ensures
      var q1 := Enqueue(Empty, 1, NewMessage(a), n1).0;
      var q2 := Enqueue(q1, 1, NewMessage(b), n2).0;
      var ka, kb := MintedKey(Empty, n1), MintedKey(q1, n2);
      && Valid(q2) && q2.aKey.key < MAX_INT64 - 7 && LexLess(ka, kb)
      && q2.db.Keys == {[1]} && q2.db[[1]] == map[ka := a, kb := b]
  {
    var q1 := Enqueue(Empty, 1, NewMessage(a), n1).0;
    FirstEnqueue(1, a, n1);
    EnqueueState(q1, 1, NewMessage(b), n2);
    MintedKeyNewest(q1, n2);
    EnqueueMintsNewestKey(q1, 1, NewMessage(b), n2);
  }

  /** The three Enqueues of the priority-then-FIFO scenario, as the database they build. */
  lemma ScenarioEnqueues(a: Bytes, b: Bytes, c: Bytes, n1: int64, n2: int64, n3: int64)
    requires Sane(n1) && Sane(n2) && Sane(n3)
    ensures
      var q1 := Enqueue(Empty, 1, NewMessage(a), n1).0;
      var q2 := Enqueue(q1, 1, NewMessage(b), n2).0;
      var q3 := Enqueue(q2, 0, NewMessage(c), n3).0;
      var ka, kb, kc := MintedKey(Empty, n1), MintedKey(q1, n2), MintedKey(q2, n3);
      && LexLess(ka, kb)
      && TwoBuckets(q3.db, 0, map[kc := c], 1, map[ka := a, kb := b])
  {
    var q1 := Enqueue(Empty, 1, NewMessage(a), n1).0;
    var q2 := Enqueue(q1, 1, NewMessage(b), n2).0;
    ScenarioFirstEnqueues(a, b, n1, n2);
    EnqueueSecondBucket(q2, 1, map[MintedKey(Empty, n1) := a, MintedKey(q1, n2) := b], 0, c, n3);
  }

  /** The first Dequeue of the priority-then-FIFO scenario takes c, and leaves Size(1) at 2 and Size(0) at 0. */
  lemma ScenarioFirstDequeue(q3: PQueue, a: Bytes, b: Bytes, c: Bytes, ka: Bytes, kb: Bytes, kc: Bytes)
    requires ka != kb && TwoBuckets(q3.db, 0, map[kc := c], 1, map[ka := a, kb := b])
    ensures Dequeue(q3).1 == Some(Message(Some(kc), c, 0))
    ensures TwoBuckets(Dequeue(q3).0.db, 0, map[], 1, map[ka := a, kb := b])
    ensures Size(Dequeue(q3).0, 1) == Ok(2) && Size(Dequeue(q3).0, 0) == Ok(0)
  {
    ReportedPriorityOneByte(0);
    TakeOfSingle(kc, c);
    DequeueLowerOfTwo(q3, 0, map[kc := c], 1, map[ka := a, kb := b], kc);
    assert |map[ka := a, kb := b]| == 2;
  }

  /** Removing the only key k of a one-entry bucket empties it. */
  lemma TakeOfSingle(k: Bytes, v: Bytes)
    ensures map[k := v][k] == v
    ensures forall j :: j in map[k := v] && j != k ==> LexLess(k, j)
    ensures map[k := v] - {k} == map[]
  {
    assert (map[k := v] - {k}).Keys == {};
  }

  /** Removing the older key ka of a two-entry bucket leaves the entry of kb alone. */
  lemma TakeOfPair(ka: Bytes, a: Bytes, kb: Bytes, b: Bytes)
    requires LexLess(ka, kb)
    ensures ka != kb && map[ka := a, kb := b][ka] == a
    ensures forall j :: j in map[ka := a, kb := b] && j != ka ==> LexLess(ka, j)
    ensures map[ka := a, kb := b] - {ka} == map[kb := b]
  {
    LexIrreflexive(ka);
  }

  /** The second Dequeue takes the older entry a of priority 1. */
  lemma ScenarioSecondDequeue(q4: PQueue, a: Bytes, b: Bytes, ka: Bytes, kb: Bytes)
    requires LexLess(ka, kb) && TwoBuckets(q4.db, 0, map[], 1, map[ka := a, kb := b])
    ensures Dequeue(q4).1 == Some(Message(Some(ka), a, 1))
    ensures TwoBuckets(Dequeue(q4).0.db, 0, map[], 1, map[kb := b])
  {
    ReportedPriorityOneByte(1);
    LexIrreflexive(ka);
    TakeOfPair(ka, a, kb, b);
    DequeueUpperOfTwo(q4, 0, 1, map[ka := a, kb := b], ka);
  }

  /** The third Dequeue takes b, after which the queue is drained. */
  lemma ScenarioThirdDequeue(q5: PQueue, b: Bytes, kb: Bytes)
    requires TwoBuckets(q5.db, 0, map[], 1, map[kb := b])
    ensures Dequeue(q5).1 == Some(Message(Some(kb), b, 1))
    ensures Dequeue(Dequeue(q5).0) == (Dequeue(q5).0, None)
    ensures forall p :: ValidPriority(p) ==> Size(Dequeue(q5).0, p) == Ok(0)
  {
    ReportedPriorityOneByte(1);
    TakeOfSingle(kb, b);
    DequeueUpperOfTwo(q5, 0, 1, map[kb := b], kb);
    DequeueEmpty(Dequeue(q5).0);
    DrainedSizeZero(Dequeue(q5).0);
  }

  /**
   A priority-then-FIFO scenario: Enqueue(1, a), Enqueue(1, b), Enqueue(0, c) from a
   fresh queue dequeue as c, a, b with priorities 0, 1, 1; after the first
   Dequeue, Size(1) is 2 and Size(0) is 0; once drained, Dequeue yields nil
   and every priority has Size 0.
   */
  lemma ScenarioPriorityThenFifo(a: Bytes, b: Bytes, c: Bytes, n1: int64, n2: int64, n3: int64)
    requires Sane(n1) && Sane(n2) && Sane(n3)
    ensures
      var q1 := Enqueue(Empty, 1, NewMessage(a), n1).0;
      var q2 := Enqueue(q1, 1, NewMessage(b), n2).0;
      var q3 := Enqueue(q2, 0, NewMessage(c), n3).0;
      var (q4, m1) := Dequeue(q3);
      var (q5, m2) := Dequeue(q4);
      var (q6, m3) := Dequeue(q5);
      && m1.Some? && ToString(m1.value) == c && Priority(m1.value) == 0
      && Size(q4, 1) == Ok(2) && Size(q4, 0) == Ok(0)
      && m2.Some? && ToString(m2.value) == a && Priority(m2.value) == 1
      && m3.Some? && ToString(m3.value) == b && Priority(m3.value) == 1
      && Dequeue(q6) == (q6, None)
      && forall p :: ValidPriority(p) ==> Size(q6, p) == Ok(0)
  {
    var q1 := Enqueue(Empty, 1, NewMessage(a), n1).0;
    var q2 := Enqueue(q1, 1, NewMessage(b), n2).0;
    var q3 := Enqueue(q2, 0, NewMessage(c), n3).0;
    var ka, kb, kc := MintedKey(Empty, n1), MintedKey(q1, n2), MintedKey(q2, n3);
    ScenarioEnqueues(a, b, c, n1, n2, n3);
    LexIrreflexive(ka);
    ScenarioFirstDequeue(q3, a, b, c, ka, kb, kc);
    ScenarioSecondDequeue(Dequeue(q3).0, a, b, ka, kb);
    ScenarioThirdDequeue(Dequeue(Dequeue(q3).0).0, b, kb);
  }

  /** The two Enqueues of the requeue test: v1 alone at priority 1, v2 alone at priority 2. */
  lemma ScenarioRequeueEnqueues(v1: Bytes, v2: Bytes, n1: int64, n2: int64)
    requires Sane(n1) && Sane(n2)
    ensures
      var q1 := Enqueue(Empty, 1, NewMessage(v1), n1).0;
      var q2 := Enqueue(q1, 2, NewMessage(v2), n2).0;
      && Valid(q2) && q2.aKey.key < MAX_INT64
      && TwoBuckets(q2.db, 1, map[MintedKey(Empty, n1) := v1], 2, map[MintedKey(q1, n2) := v2])
  {
    var q1 := Enqueue(Empty, 1, NewMessage(v1), n1).0;
    FirstEnqueue(1, v1, n1);
    EnqueueSecondBucket(q1, 1, map[MintedKey(Empty, n1) := v1], 2, v2, n2);
  }

  /** Both Dequeues of the requeue test: v1 first, then v2, leaving two empty buckets. */
  lemma ScenarioRequeueDequeues(q2: PQueue, v1: Bytes, v2: Bytes, k1: Bytes, k2: Bytes)
    requires Valid(q2) && TwoBuckets(q2.db, 1, map[k1 := v1], 2, map[k2 := v2])
    ensures
      var (q3, mp1) := Dequeue(q2);
      var (q4, mp2) := Dequeue(q3);
      && mp1 == Some(Message(Some(k1), v1, 1))
      && mp2.Some? && ToString(mp2.value) == v2
      && Valid(q4) && q4.aKey == q2.aKey && Issued(q4, mp1.value)
      && TwoBuckets(q4.db, 1, map[], 2, map[])
  {
    ReportedPriorityOneByte(1);
    TakeOfSingle(k1, v1);
    TakeOfSingle(k2, v2);
    DequeueLowerOfTwo(q2, 1, map[k1 := v1], 2, map[k2 := v2], k1);
    DequeuePreservesValid(q2);
    var q3 := Dequeue(q2).0;
    DequeueUpperOfTwo(q3, 1, 2, map[k2 := v2], k2);
    DequeuePreservesValid(q3);
  }

  /** Requeue of the first message into the emptied queue, then a fresh Enqueue
      at the same priority: the requeued key still comes out first. */
  lemma ScenarioRequeueThenEnqueue(q4: PQueue, m: Message, v3: Bytes, n3: int64)
    requires Valid(q4) && q4.aKey.key < MAX_INT64 && Issued(q4, m)
    requires TwoBuckets(q4.db, 1, map[], 2, map[])
    ensures
      var (q5, e) := Requeue(q4, 1, m);
      var q6 := Enqueue(q5, 1, NewMessage(v3), n3).0;
      && e == Ok(())
      && Dequeue(q6).1 == Some(Message(m.key, m.value, 1))
  {
    ReportedPriorityOneByte(1);
    var k1 := m.key.value;
    var q5 := Requeue(q4, 1, m).0;
    RequeueState(q4, 1, m);
    RequeuePreservesValid(q4, 1, m);
    assert TwoBuckets(q5.db, 1, map[k1 := m.value], 2, map[]);
    var k3 := MintedKey(q5, n3);
    EnqueueState(q5, 1, NewMessage(v3), n3);
    MintedKeyNewest(q5, n3);
    LexIrreflexive(k1);
    var q6 := Enqueue(q5, 1, NewMessage(v3), n3).0;
    assert TwoBuckets(q6.db, 1, map[k1 := m.value, k3 := v3], 2, map[]);
    DequeueLowerOfTwo(q6, 1, map[k1 := m.value, k3 := v3], 2, map[], k1);
  }

  /** Requeue of the first message into the emptied queue at priority 1:
      the next Dequeue returns it with its original key and payload. */
  lemma ScenarioRequeueThenDequeue(q4: PQueue, m: Message)
    requires m.key.Some? && TwoBuckets(q4.db, 1, map[], 2, map[])
    ensures
      var (q5, e) := Requeue(q4, 1, m);
      && e == Ok(())
      && Dequeue(q5).1 == Some(Message(m.key, m.value, 1))
  {
    ReportedPriorityOneByte(1);
    var k1 := m.key.value;
    var q5 := Requeue(q4, 1, m).0;
    RequeueState(q4, 1, m);
    assert TwoBuckets(q5.db, 1, map[k1 := m.value], 2, map[]);
    DequeueLowerOfTwo(q5, 1, map[k1 := m.value], 2, map[], k1);
  }

  /**
   The requeue test: one message each at priorities 1 and 2; both are
   dequeued; the first is requeued at priority 1; the next Dequeue returns
   it, with its original key and payload, at priority 1.
   */
  lemma ScenarioRequeue(v1: Bytes, v2: Bytes, n1: int64, n2: int64)
    requires Sane(n1) && Sane(n2)
    ensures
      var q1 := Enqueue(Empty, 1, NewMessage(v1), n1).0;
      var q2 := Enqueue(q1, 2, NewMessage(v2), n2).0;
      var (q3, mp1) := Dequeue(q2);
      var (q4, mp2) := Dequeue(q3);
      mp1.Some? && mp2.Some? && ToString(mp2.value) == v2 &&
      var (q5, e) := Requeue(q4, 1, mp1.value);
      var (q6, m) := Dequeue(q5);
      && e == Ok(())
      && m.Some? && ToString(m.value) == v1 && m.value.key == mp1.value.key && Priority(m.value) == 1
  {
    var q1 := Enqueue(Empty, 1, NewMessage(v1), n1).0;
    var q2 := Enqueue(q1, 2, NewMessage(v2), n2).0;
    ScenarioRequeueEnqueues(v1, v2, n1, n2);
    ScenarioRequeueDequeues(q2, v1, v2, MintedKey(Empty, n1), MintedKey(q1, n2));
    var q4 := Dequeue(Dequeue(q2).0).0;
    ScenarioRequeueThenDequeue(q4, Dequeue(q2).1.value);
  }

  /**
   Requeue precedence on the same run: after the requeue at priority 1, a new
   message is enqueued at priority 1 as well; the next Dequeue still returns
   the requeued message, with its original key and payload.
   */
  lemma ScenarioRequeueBeforeNewer(v1: Bytes, v2: Bytes, v3: Bytes, n1: int64, n2: int64, n3: int64)
    requires Sane(n1) && Sane(n2) && Sane(n3)
    ensures
      var q1 := Enqueue(Empty, 1, NewMessage(v1), n1).0;
      var q2 := Enqueue(q1, 2, NewMessage(v2), n2).0;
      var (q3, mp1) := Dequeue(q2);
      var (q4, mp2) := Dequeue(q3);
      mp1.Some? && mp2.Some? && ToString(mp2.value) == v2 &&
      var (q5, e) := Requeue(q4, 1, mp1.value);
      var q6 := Enqueue(q5, 1, NewMessage(v3), n3).0;
      var (q7, m) := Dequeue(q6);
      && e == Ok(())
      && m.Some? && ToString(m.value) == v1 && m.value.key == mp1.value.key && Priority(m.value) == 1
  {
    var q1 := Enqueue(Empty, 1, NewMessage(v1), n1).0;
    var q2 := Enqueue(q1, 2, NewMessage(v2), n2).0;
    ScenarioRequeueEnqueues(v1, v2, n1, n2);
    ScenarioRequeueDequeues(q2, v1, v2, MintedKey(Empty, n1), MintedKey(q1, n2));
    var q4 := Dequeue(Dequeue(q2).0).0;
    ScenarioRequeueThenEnqueue(q4, Dequeue(q2).1.value, v3, n3);
  }
}
