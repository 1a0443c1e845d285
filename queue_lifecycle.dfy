/** Runs of the queue: any sequence of the three operations, each one atomic step. */
module QueueLifecycle {
  import opened Wrappers
  import opened QueueItems
  import opened QueueTable

  /** One call of the queue service, with the `current_timestamp` it ran at. */
  datatype Op =
    | LockNext(lockedBy: Option<string>, now: Minutes)
    | CompleteItem(id: int, matchedCount: Option<int>, now: Minutes)
    | ClearStaleLocks(now: Minutes)

  /** `t2` is a table the operation `op` may leave behind when applied to `t`. lockNextItem may
      claim any claimable row (its select has no ordering); a completion of a missing id throws
      and changes nothing. */
  ghost predicate Next(t: Table, op: Op, t2: Table)
  {
    match op
    case LockNext(lockedBy, now) =>
      (ClaimableIds(t) == {} && t2 == t) ||
      (exists id :: id in ClaimableIds(t) && t2 == LockAt(t, id, now, lockedBy))
    case CompleteItem(id, matchedCount, now) =>
      t2 == if id in t then CompleteAt(t, id, now, matchedCount) else t
    case ClearStaleLocks(now) =>
      t2 == ClearStale(t, now)
  }

  /** `ts` is the sequence of tables a run of `ops` passes through. */
  ghost predicate IsRun(ts: seq<Table>, ops: seq<Op>)
  {
    |ts| == |ops| + 1 &&
    forall i :: 0 <= i < |ops| ==> Next(ts[i], ops[i], ts[i + 1])
  }

  /** What one step keeps: the set of ids, the constraints, the lifecycle convention,
      and every row that is already in the Completed state. */
  lemma StepKeeps(t: Table, op: Op, t2: Table)
    requires Next(t, op, t2)
    ensures t2.Keys == t.Keys
    ensures Constraints(t) ==> Constraints(t2)
    ensures AllCoherent(t) ==> AllCoherent(t2)
    ensures forall k :: k in t && Finished(t[k]) ==> Finished(t2[k])
  {
    match op
    case LockNext(lockedBy, now) =>
      if ClaimableIds(t) != {} || t2 != t {
        var id :| id in ClaimableIds(t) && t2 == LockAt(t, id, now, lockedBy);
      }
    case CompleteItem(id, matchedCount, now) =>
    case ClearStaleLocks(now) =>
  }

  /** Along a run, every table has the same ids and satisfies the constraints and the
      lifecycle convention whenever the first one does. */
  lemma {:induction false} RunKeepsInvariants(ts: seq<Table>, ops: seq<Op>, i: nat)
    requires IsRun(ts, ops) && i < |ts|
    ensures ts[i].Keys == ts[0].Keys
    ensures Constraints(ts[0]) ==> Constraints(ts[i])
    ensures AllCoherent(ts[0]) ==> AllCoherent(ts[i])
  {
    if i > 0 {
      RunKeepsInvariants(ts, ops, i - 1);
      StepKeeps(ts[i - 1], ops[i - 1], ts[i]);
    }
  }

  /** A completed row is never locked again: once in the Completed state, a row stays in it
      for the rest of any run. */
  lemma {:induction false} CompletedStaysCompleted(ts: seq<Table>, ops: seq<Op>, i: nat, j: nat, k: int)
    requires IsRun(ts, ops) && i <= j < |ts|
    requires k in ts[i] && Finished(ts[i][k])
    ensures k in ts[j] && Finished(ts[j][k])
  {
    if i < j {
      CompletedStaysCompleted(ts, ops, i, j - 1, k);
      StepKeeps(ts[j - 1], ops[j - 1], ts[j]);
    }
  }

  /** Sequential claims: after `i` calls of lockNextItem on a table with M claimable rows,
      min(i, M) distinct rows have been locked and max(M - i, 0) remain claimable. */
  lemma {:induction false} ClaimsDrainPool(ts: seq<Table>, ops: seq<Op>, i: nat)
    requires IsRun(ts, ops) && i < |ts|
    requires forall n :: 0 <= n < |ops| ==> ops[n].LockNext?
    ensures ts[i].Keys == ts[0].Keys && ClaimableIds(ts[i]) <= ClaimableIds(ts[0])
    ensures |ClaimableIds(ts[i])| == if i <= |ClaimableIds(ts[0])| then |ClaimableIds(ts[0])| - i else 0
    ensures forall k :: k in ClaimableIds(ts[0]) && k !in ClaimableIds(ts[i]) ==>
              ts[i][k].lockedAt.Some? && ts[i][k].completedAt.None?
  {
    if i > 0 {
      ClaimsDrainPool(ts, ops, i - 1);
      var t, t2 := ts[i - 1], ts[i];
      assert Next(t, ops[i - 1], t2);
      if ClaimableIds(t) != {} {
        var id :| id in ClaimableIds(t) && t2 == LockAt(t, id, ops[i - 1].now, ops[i - 1].lockedBy);
        assert ClaimableIds(t2) == ClaimableIds(t) - {id};
      }
    }
  }
}
