/** One row of the `queueItem` table and the three row rewrites the queue service performs. */
module QueueItems {
  import opened Wrappers

  /** Timestamps, in whole minutes. The database's `current_timestamp` is passed in as `now`. */
  type Minutes = int

  /** How long a lock may be held before clearStaleLocks takes it back. */
  const LOCK_TIMEOUT_MINUTES: int := 15

  /** The columns of a queue item (createdAt and updatedAt are not modelled: no operation here writes them). */
  datatype QueueItem = QueueItem(
    id: int,
    batchId: int,
    uid: string,
    site: int,
    expectedCount: Option<int>,
    lockedAt: Option<Minutes>,
    lockedBy: Option<string>,
    completedAt: Option<Minutes>,
    matchedCount: Option<int>,
    confirmedCount: Option<int>)

  /** The filter of lockNextItem's select: neither completed nor locked. */
  predicate Claimable(r: QueueItem)
  {
    r.completedAt.None? && r.lockedAt.None?
  }

  /** The filter of clearStaleLocks: uncompleted and locked before `now` minus the timeout.
      In SQL `null < x` is not true, so a row without lockedAt is never stale. */
  predicate IsStale(r: QueueItem, now: Minutes)
  {
    r.completedAt.None? && r.lockedAt.Some? && r.lockedAt.value < now - LOCK_TIMEOUT_MINUTES
  }

  /** The convention the queue keeps: a completed row holds no lock, and lockedBy is set only under lockedAt. */
  predicate Coherent(r: QueueItem)
  {
    (r.completedAt.Some? ==> r.lockedAt.None? && r.lockedBy.None?) &&
    (r.lockedAt.None? ==> r.lockedBy.None?)
  }

  /** The Completed state: completed, and no lock left on it. */
  predicate Finished(r: QueueItem)
  {
    r.completedAt.Some? && r.lockedAt.None? && r.lockedBy.None?
  }

  /** `a` and `b` agree on every column except lockedAt and lockedBy. */
  predicate SameButLock(a: QueueItem, b: QueueItem)
  {
    a.(lockedAt := b.lockedAt, lockedBy := b.lockedBy) == b
  }

  /** `a` and `b` agree on every column except the lock and completion columns. */
  predicate SameButCompletion(a: QueueItem, b: QueueItem)
  {
    a.(lockedAt := b.lockedAt, lockedBy := b.lockedBy,
       completedAt := b.completedAt, matchedCount := b.matchedCount) == b
  }

  /** The value a column holds after an UPDATE that is given `given` for it: an omitted
      (undefined) value is dropped from the SET list, so the column keeps what it had. */
  function Assigned<T>(current: Option<T>, given: Option<T>): Option<T>
  {
    if given.Some? then given else current
  }

  /** lockNextItem's update: stamps lockedAt with the current time and writes lockedBy
      when the caller gave one. */
  function Lock(r: QueueItem, now: Minutes, lockedBy: Option<string>): (l: QueueItem)
    ensures SameButLock(r, l)
    ensures l.lockedAt == Some(now) && !Claimable(l)
    ensures lockedBy.Some? ==> l.lockedBy == lockedBy
    ensures lockedBy.None? ==> l.lockedBy == r.lockedBy
    ensures Claimable(r) ==> l.completedAt.None? && !Finished(l)
    ensures Claimable(r) && Coherent(r) ==> Coherent(l)
  {
    r.(lockedAt := Some(now), lockedBy := Assigned(r.lockedBy, lockedBy))
  }

  /** completeitem's update: stamps completedAt with the current time, writes matchedCount
      when the caller gave one, and nulls both lock columns. */
  function Complete(r: QueueItem, now: Minutes, matchedCount: Option<int>): (c: QueueItem)
    ensures SameButCompletion(r, c)
    ensures c.completedAt == Some(now) && Finished(c) && Coherent(c)
    ensures matchedCount.Some? ==> c.matchedCount == matchedCount
    ensures matchedCount.None? ==> c.matchedCount == r.matchedCount
    ensures !Claimable(c) && forall t :: !IsStale(c, t)
  {
    r.(completedAt := Some(now), matchedCount := Assigned(r.matchedCount, matchedCount),
       lockedAt := None, lockedBy := None)
  }

  /** clearStaleLocks' update: nulls both lock columns. */
  function Release(r: QueueItem): (u: QueueItem)
    ensures SameButLock(r, u)
    ensures u.lockedAt.None? && u.lockedBy.None?
    ensures Claimable(u) <==> r.completedAt.None?
    ensures forall t :: !IsStale(u, t)
    ensures Coherent(r) ==> Coherent(u)
  {
    r.(lockedAt := None, lockedBy := None)
  }

  /** A row that lockNextItem may claim is never one that clearStaleLocks clears, at any time. */
  lemma ClaimableNeverStale(r: QueueItem, now: Minutes)
    ensures Claimable(r) ==> !IsStale(r, now)
  {
  }

  /** Completing twice leaves the row as one completion with the second call's arguments,
      except that an omitted second matchedCount keeps the first one's. */
  lemma CompleteTwice(r: QueueItem, now1: Minutes, m1: Option<int>, now2: Minutes, m2: Option<int>)
    ensures Complete(Complete(r, now1, m1), now2, m2) == Complete(r, now2, Assigned(m1, m2))
    ensures m2.Some? ==> Complete(Complete(r, now1, m1), now2, m2) == Complete(r, now2, m2)
  {
  }
}
