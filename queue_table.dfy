/** The `queueItem` table as a map from id to row, and the table-wide effect of each queue operation. */
module QueueTable {
  import opened Wrappers
  import opened QueueItems

  type Table = map<int, QueueItem>

  /** The primary key: every row is stored under its own id. */
  ghost predicate KeyedById(t: Table)
  {
    forall k :: k in t ==> t[k].id == k
  }

  /** The unique constraint `batch_uid_site` on (batchId, uid, site). */
  ghost predicate UniqueBusinessKey(t: Table)
  {
    forall j, k ::
      j in t && k in t && t[j].batchId == t[k].batchId && t[j].uid == t[k].uid && t[j].site == t[k].site
      ==> j == k
  }

  /** What the database itself enforces on the table. */
  ghost predicate Constraints(t: Table)
  {
    KeyedById(t) && UniqueBusinessKey(t)
  }

  /** Every row keeps the lock/completion convention. */
  ghost predicate AllCoherent(t: Table)
  {
    forall k :: k in t ==> Coherent(t[k])
  }

  /** `t2` has the ids of `t1`; rows in `ids` differ at most in their lock columns, all others are equal. */
  ghost predicate LocksChangedOnlyAt(t1: Table, t2: Table, ids: set<int>)
  {
    t2.Keys == t1.Keys &&
    forall k :: k in t1 ==> if k in ids then SameButLock(t1[k], t2[k]) else t2[k] == t1[k]
  }

  /** A non-empty set of ids has a member to pick. */
  lemma NonEmptyHasMember(s: set<int>)
    requires s != {}
    ensures exists k :: k in s
  {
    if forall k :: k !in s {
      assert false;
    }
  }

  /** The ids lockNextItem's select may return. */
  function ClaimableIds(t: Table): (s: set<int>)
    ensures s <= t.Keys
  {
    set k | k in t && Claimable(t[k])
  }

  /** The ids clearStaleLocks' update matches at time `now`. */
  function StaleIds(t: Table, now: Minutes): (s: set<int>)
    ensures s <= t.Keys
    ensures s * ClaimableIds(t) == {}
  {
    var s := set k | k in t && IsStale(t[k], now);
    assert s * ClaimableIds(t) == {} by {
      forall k | k in s ensures k !in ClaimableIds(t) {
        ClaimableNeverStale(t[k], now);
      }
    }
    s
  }

  /** Changing only lock columns never breaks the database constraints. */
  lemma LockChangesKeepConstraints(t1: Table, t2: Table, ids: set<int>)
    requires LocksChangedOnlyAt(t1, t2, ids)
    ensures Constraints(t1) ==> Constraints(t2)
  {
  }

  /** lockNextItem's update of the row `id`. */
  function LockAt(t: Table, id: int, now: Minutes, lockedBy: Option<string>): (t2: Table)
    requires id in t
    ensures LocksChangedOnlyAt(t, t2, {id})
    ensures t2[id].lockedAt == Some(now) && (lockedBy.Some? ==> t2[id].lockedBy == lockedBy)
    ensures lockedBy.None? ==> t2[id].lockedBy == t[id].lockedBy
    ensures Constraints(t) ==> Constraints(t2)
    ensures id in ClaimableIds(t) ==> ClaimableIds(t2) == ClaimableIds(t) - {id}
    ensures id in ClaimableIds(t) && AllCoherent(t) ==> AllCoherent(t2)
  {
    var t2 := t[id := Lock(t[id], now, lockedBy)];
    LockChangesKeepConstraints(t, t2, {id});
    t2
  }

  /** completeitem's update of the row `id`. */
  function CompleteAt(t: Table, id: int, now: Minutes, matchedCount: Option<int>): (t2: Table)
    requires id in t
    ensures t2.Keys == t.Keys
    ensures forall k :: k in t && k != id ==> t2[k] == t[k]
    ensures SameButCompletion(t[id], t2[id]) && Finished(t2[id]) && t2[id].completedAt == Some(now)
    ensures matchedCount.Some? ==> t2[id].matchedCount == matchedCount
    ensures matchedCount.None? ==> t2[id].matchedCount == t[id].matchedCount
    ensures Constraints(t) ==> Constraints(t2)
    ensures ClaimableIds(t2) == ClaimableIds(t) - {id}
    ensures AllCoherent(t) ==> AllCoherent(t2)
  {
    t[id := Complete(t[id], now, matchedCount)]
  }

  /** Clears the lock columns of the rows in `ids`. */
  function ReleaseAll(t: Table, ids: set<int>): (t2: Table)
    ensures LocksChangedOnlyAt(t, t2, ids)
    ensures forall k :: k in t && k in ids ==> t2[k] == Release(t[k])
  {
    map k | k in t :: if k in ids then Release(t[k]) else t[k]
  }

  /** clearStaleLocks' bulk update at time `now`. */
  function ClearStale(t: Table, now: Minutes): (t2: Table)
    ensures LocksChangedOnlyAt(t, t2, StaleIds(t, now))
    ensures forall k :: k in StaleIds(t, now) ==> t2[k].lockedAt.None? && t2[k].lockedBy.None?
    ensures StaleIds(t2, now) == {}
    ensures ClaimableIds(t2) == ClaimableIds(t) + StaleIds(t, now)
    ensures Constraints(t) ==> Constraints(t2)
    ensures AllCoherent(t) ==> AllCoherent(t2)
  {
    var stale := StaleIds(t, now);
    var t2 := ReleaseAll(t, stale);
    LockChangesKeepConstraints(t, t2, stale);
    assert ClaimableIds(t2) == ClaimableIds(t) + stale by {
      forall k | k in t ensures k in ClaimableIds(t2) <==> k in ClaimableIds(t) || k in stale {
        if k in stale {
          assert t2[k] == Release(t[k]);
        } else {
          assert t2[k] == t[k];
        }
      }
    }
    t2
  }

  /** Completing a row twice is completing it once with the second call's arguments
      (an omitted second matchedCount keeps the first one's). */
  lemma CompleteAtTwice(t: Table, id: int, now1: Minutes, m1: Option<int>, now2: Minutes, m2: Option<int>)
    requires id in t
    ensures CompleteAt(CompleteAt(t, id, now1, m1), id, now2, m2) == CompleteAt(t, id, now2, Assigned(m1, m2))
    ensures m2.Some? ==> CompleteAt(CompleteAt(t, id, now1, m1), id, now2, m2) == CompleteAt(t, id, now2, m2)
  {
    CompleteTwice(t[id], now1, m1, now2, m2);
  }

  /** A second clearStaleLocks at the same time changes nothing. */
  lemma ClearStaleTwice(t: Table, now: Minutes)
    ensures ClearStale(ClearStale(t, now), now) == ClearStale(t, now)
  {
  }
}
