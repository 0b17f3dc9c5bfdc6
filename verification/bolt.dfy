/**
 The part of Bolt the queues rely on: named buckets, each an ordered map from
 byte-string keys to byte-string values. Bucket iteration (`tx.ForEach`) and
 cursor order (`Cursor.First`) are both lexicographic on bytes. One `Update`
 transaction is one pure state transition.
 */
module Bolt {
  import opened Bytes
  import opened Results

  type Bucket = map<Bytes, Bytes>
  type Db = map<Bytes, Bucket>

  /** k is the lexicographically first element of s. */
  predicate IsLeast(k: Bytes, s: set<Bytes>)
  {
    k in s && forall j :: j in s && j != k ==> LexLess(k, j)
  }

  /** Every finite non-empty set of byte strings has a first element. */
  lemma {:induction false} LeastExists(s: set<Bytes>)
    requires s != {}
    ensures exists k :: IsLeast(k, s)
    decreases |s|
  {
    var x :| x in s;
    if s == {x} {
      assert IsLeast(x, s);
    } else {
      var rest := s - {x};
      LeastExists(rest);
      var k :| IsLeast(k, rest);
      LexTotal(x, k);
      if LexLess(x, k) {
        forall j | j in s && j != x
          ensures LexLess(x, j)
        {
          if j != k {
            LexTransitive(x, k, j);
          }
        }
        assert IsLeast(x, s);
      } else {
        assert IsLeast(k, s);
      }
    }
  }

  /** The first element is unique. */
  lemma LeastUnique(s: set<Bytes>)
    ensures forall a, b :: IsLeast(a, s) && IsLeast(b, s) ==> a == b
  {
    LexAsymmetricAll();
  }

  /** The lexicographically first element of a non-empty set. */
  function Least(s: set<Bytes>): (k: Bytes)
    requires s != {}
    ensures IsLeast(k, s)
  {
    LeastExists(s);
    LeastUnique(s);
    var k :| IsLeast(k, s);
    k
  }

  /** `bucket.Cursor().First()` on a non-empty bucket: its least key. */
  function First(b: Bucket): (k: Bytes)
    requires |b| > 0
    ensures k in b
    ensures forall j :: j in b && j != k ==> LexLess(k, j)
  {
    Least(b.Keys)
  }

  /** `tx.CreateBucketIfNotExists(name)`: an existing bucket is kept as it is,
      an absent one is created empty. */
  function CreateBucketIfNotExists(db: Db, name: Bytes): (r: Db)
    ensures r.Keys == db.Keys + {name}
    ensures name in db ==> r == db
    ensures name !in db ==> r[name] == map[]
    ensures forall n :: n in db ==> r[n] == db[n]
  {
    if name in db then db else db[name := map[]]
  }

  /** The bucket named `name`, or an empty one where Bolt has none. */
  function BucketOf(db: Db, name: Bytes): Bucket
  {
    if name in db then db[name] else map[]
  }

  /** db2 is db1 with bucket `name` ensured and exactly the entry key -> value
      put into it: every other entry and every other bucket is as it was. */
  predicate PutOne(db1: Db, db2: Db, name: Bytes, key: Bytes, value: Bytes)
  {
    && db2.Keys == db1.Keys + {name}
    && db2[name].Keys == BucketOf(db1, name).Keys + {key}
    && db2[name][key] == value
    && (forall k :: k in BucketOf(db1, name) && k != key ==> db2[name][k] == db1[name][k])
    && (forall n :: n in db1 && n != name ==> db2[n] == db1[n])
  }

  /** `bucket.Get(key)` on an existing bucket: the stored value, or nil. */
  function Lookup(db: Db, name: Bytes, key: Bytes): (r: Option<Bytes>)
    requires name in db
    ensures r.Some? <==> key in db[name]
    ensures r.Some? ==> r.value == db[name][key]
  {
    if key in db[name] then Some(db[name][key]) else None
  }

  /** `bucket.Put(key, value)` on an existing bucket: inserts or overwrites one entry. */
  function Put(db: Db, name: Bytes, key: Bytes, value: Bytes): (r: Db)
    requires name in db
    ensures r.Keys == db.Keys
    ensures r[name].Keys == db[name].Keys + {key}
    ensures r[name][key] == value
    ensures forall k :: k in db[name] && k != key ==> r[name][k] == db[name][k]
    ensures forall n :: n in db && n != name ==> r[n] == db[n]
  {
    db[name := db[name][key := value]]
  }

  /** `cursor.Delete()` of one entry. */
  function Delete(db: Db, name: Bytes, key: Bytes): (r: Db)
    requires name in db
    ensures r.Keys == db.Keys
    ensures r[name].Keys == db[name].Keys - {key}
    ensures forall k :: k in r[name] ==> r[name][k] == db[name][k]
    ensures forall n :: n in db && n != name ==> r[n] == db[n]
  {
    db[name := db[name] - {key}]
  }

  /** Names of the buckets holding at least one entry (`Stats().KeyN != 0`). */
  function NonEmptyBuckets(db: Db): set<Bytes>
  {
    set n | n in db && |db[n]| > 0
  }

  /** One entry as a cursor reads it, together with the bucket it came from. */
  datatype Entry = Entry(bucket: Bytes, key: Bytes, value: Bytes)

  /**
   The shared body of both bucket-per-priority Dequeues: `tx.ForEach` visits the
   buckets in name order, skips empty ones, and at the first non-empty one takes
   `Cursor.First()` and deletes it, then stops. An all-empty database yields
   nothing and is left as it is.
   */
  function TakeFirst(db: Db): (r: (Db, Option<Entry>))
    ensures r.1.None? <==> NonEmptyBuckets(db) == {}
    ensures r.1.None? ==> r.0 == db
    ensures r.1.Some? ==>
      var e := r.1.value;
      && IsLeast(e.bucket, NonEmptyBuckets(db))
      && e.key in db[e.bucket]
      && (forall j :: j in db[e.bucket] && j != e.key ==> LexLess(e.key, j))
      && e.value == db[e.bucket][e.key]
      && r.0.Keys == db.Keys
      && r.0[e.bucket].Keys == db[e.bucket].Keys - {e.key}
      && (forall k :: k in r.0[e.bucket] ==> r.0[e.bucket][k] == db[e.bucket][k])
      && (forall n :: n in db && n != e.bucket ==> r.0[n] == db[n])
  {
    var names := NonEmptyBuckets(db);
    if names == {} then (db, None)
    else
      var name := Least(names);
      var key := First(db[name]);
      (Delete(db, name, key), Some(Entry(name, key, db[name][key])))
  }

  /** A database whose only entry is key -> value in bucket `name` yields
      exactly that entry, and is left with every bucket empty. */
  lemma TakeOnlyEntry(db: Db, name: Bytes, key: Bytes, value: Bytes)
    requires name in db && db[name] == map[key := value]
    requires forall n :: n in db && n != name ==> db[n] == map[]
    ensures TakeFirst(db).1 == Some(Entry(name, key, value))
    ensures TakeFirst(db).0 == db[name := map[]]
  {
    assert NonEmptyBuckets(db) == {name};
    LeastUnique({name});
    assert IsLeast(name, {name});
    LeastUnique(db[name].Keys);
    assert IsLeast(key, db[name].Keys);
    assert map[key := value] - {key} == map[];
  }

  /** Replacing a bucket twice is replacing it once with the later contents. */
  lemma ReplaceBucketTwice(db: Db, name: Bytes, b1: Bucket, b2: Bucket)
    ensures db[name := b1][name := b2] == db[name := b2]
  {
  }

  /** A put grows its bucket by one entry when the key is new to it, and
      leaves its size as it is otherwise. */
  lemma PutOneSize(db1: Db, db2: Db, name: Bytes, key: Bytes, value: Bytes)
    requires PutOne(db1, db2, name, key, value)
    ensures key !in BucketOf(db1, name) ==> |db2[name]| == |BucketOf(db1, name)| + 1
    ensures key in BucketOf(db1, name) ==> |db2[name]| == |BucketOf(db1, name)|
  {
    var b := BucketOf(db1, name);
    if key in b {
      assert db2[name].Keys == b.Keys;
    }
    assert |db2[name].Keys| == |db2[name]| && |b.Keys| == |b|;
  }

  /** After a put, every entry is the one put or was there before. */
  lemma PutOneEntries(db1: Db, db2: Db, name: Bytes, key: Bytes, value: Bytes, n: Bytes, k: Bytes)
    requires PutOne(db1, db2, name, key, value)
    requires n in db2 && k in db2[n]
    ensures (n == name && k == key) || (n in db1 && k in db1[n])
    ensures n in db1 || n == name
  {
    if n == name && k != key {
      assert k in BucketOf(db1, name).Keys;
    }
  }
}
