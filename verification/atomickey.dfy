/**
 The key mint of `atomickey.go`: a process-wide counter that hands out a
 strictly increasing uint64 per call, taken from the wall clock unless the
 clock has not moved past the last key. The mutex is dropped (each call is one
 atomic step) and the clock reading `now` is a parameter.
 */
module AtomicKeys {
  import opened Bytes

  /** The mint's state: the last key handed out, stored as an int64. */
  datatype AtomicKey = AtomicKey(key: int64)

  /** The zero value `new(atomicKey)` the queue package starts from. */
  const Initial: AtomicKey := AtomicKey(0)

  function Max(x: int, y: int): int
  {
    if x < y then y else x
  }

  /** `Get` with clock reading `now`: the new state and the key returned. */
  function Get(a: AtomicKey, now: int64): (r: (AtomicKey, uint64))
    // the stored key and the returned key are the same 64 bits
    ensures r.1 == Int64ToUint64(r.0.key)
    // without int64 overflow: the later of the clock and one past the last key
    ensures a.key < MAX_INT64 ==> r.0.key == Max(now, a.key + 1)
    ensures a.key < MAX_INT64 ==> r.0.key > a.key && r.0.key >= now
    ensures now > a.key ==> r.0.key == now
    // `a.key + 1` wraps in Go when the last key is the int64 maximum
    ensures now <= a.key && a.key == MAX_INT64 ==> r.0.key == MIN_INT64
    // a non-negative clock and no overflow: the uint64 equals the stored int64
    ensures 0 <= now && a.key < MAX_INT64 ==> r.1 == r.0.key
  {
    var t := if now <= a.key then Int64Inc(a.key) else now;
    (AtomicKey(t), Int64ToUint64(t))
  }

  /** A run of successive calls, one per clock reading, in order. */
  function GetAll(a: AtomicKey, nows: seq<int64>): (r: (AtomicKey, seq<uint64>))
    ensures |r.1| == |nows|
    decreases |nows|
  {
    if |nows| == 0 then (a, [])
    else
      var (a1, k) := Get(a, nows[0]);
      var (a2, ks) := GetAll(a1, nows[1..]);
      (a2, [k] + ks)
  }

  /**
   Whatever the clock reads, even going backwards, successive keys strictly
   increase and so never repeat, and all exceed the last key before the run,
   provided no intermediate `key + 1` overflows int64 (every reading and the
   starting key are at most `bound`, and `bound + |nows|` still fits).
   */
  lemma {:induction false} GetAllStrictlyIncreasing(a: AtomicKey, nows: seq<int64>, bound: int)
    requires 0 <= a.key <= bound
    requires forall i :: 0 <= i < |nows| ==> nows[i] <= bound
    requires bound + |nows| <= MAX_INT64
    ensures forall i, j :: 0 <= i < j < |nows| ==> GetAll(a, nows).1[i] < GetAll(a, nows).1[j]
    ensures forall i :: 0 <= i < |nows| ==> GetAll(a, nows).1[i] > a.key
    ensures GetAll(a, nows).0.key >= a.key
    ensures |nows| > 0 ==> GetAll(a, nows).0.key == GetAll(a, nows).1[|nows| - 1]
    decreases |nows|
  {
    if |nows| > 0 {
      var (a1, k) := Get(a, nows[0]);
      assert k == a1.key && a.key < a1.key <= bound + 1;
      GetAllStrictlyIncreasing(a1, nows[1..], bound + 1);
      var ks := GetAll(a1, nows[1..]).1;
      assert GetAll(a, nows).1 == [k] + ks;
    }
  }

  /** Keys minted in one run are pairwise distinct. */
  lemma GetAllDistinct(a: AtomicKey, nows: seq<int64>, bound: int)
    requires 0 <= a.key <= bound
    requires forall i :: 0 <= i < |nows| ==> nows[i] <= bound
    requires bound + |nows| <= MAX_INT64
    ensures forall i, j :: 0 <= i < |nows| && 0 <= j < |nows| && i != j ==>
      GetAll(a, nows).1[i] != GetAll(a, nows).1[j]
  {
    GetAllStrictlyIncreasing(a, nows, bound);
  }
}
