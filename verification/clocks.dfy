/**
 The package-level timestamp guards of `upqueue.go` and `npqueue.go`. Each
 message constructor reads the wall clock (a parameter here), bumps the
 reading past its guard variable when the clock has not moved on, and then
 records the result. The three package globals involved are kept apart: the
 guards `UlastTime` and `NlastTime`, and `lastTime`, which is the one the
 constructors actually write.
 */
module Clocks {
  import opened Bytes

  /** The package's three timestamp globals, all starting at zero. */
  datatype Clocks = Clocks(uLastTime: int64, nLastTime: int64, lastTime: int64)

  const Start: Clocks := Clocks(0, 0, 0)

  /** The guarded timestamp: the clock reading `now` when it is past `last`,
      otherwise `last + 1` with Go's int64 wrap-around. */
  function GuardedTime(last: int64, now: int64): (t: int64)
    ensures now > last ==> t == now
    ensures now <= last && last < MAX_INT64 ==> t == last + 1
    ensures last == MAX_INT64 ==> t == MIN_INT64
    ensures last < MAX_INT64 ==> t > last && t >= now
  {
    if now <= last then Int64Inc(last) else now
  }

  /** Short of the int64 maximum, a guard that is kept up to date makes every
      timestamp strictly later than the one before, whatever the clock reads. */
  lemma GuardedTimesIncrease(last: int64, now1: int64, now2: int64)
    requires last < MAX_INT64 - 1 && now1 < MAX_INT64
    ensures GuardedTime(last, now1) < GuardedTime(GuardedTime(last, now1), now2)
  {
  }
}
