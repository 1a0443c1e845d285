/** QueueService: the three operations on the `queueItem` table, each one atomic call. */
module QueueServices {
  import opened Wrappers
  import opened QueueItems
  import opened QueueTable
  import QueueLifecycle

  /** The ids of a list of returned rows. */
  function IdsOf(rows: seq<QueueItem>): set<int>
  {
    set i | 0 <= i < |rows| :: rows[i].id
  }

  /** No row appears twice in a returned list. */
  predicate DistinctIds(rows: seq<QueueItem>)
  {
    forall i, j :: 0 <= i < j < |rows| ==> rows[i].id != rows[j].id
  }

  /** Every row of `rows` is the row the table holds under its id. */
  predicate RowsAsIn(rows: seq<QueueItem>, t: Table)
  {
    forall i :: 0 <= i < |rows| ==> rows[i].id in t && rows[i] == t[rows[i].id]
  }

  /** Storing and listing a row with a new id keeps the listed rows as stored. */
  lemma StoreNewRow(rows: seq<QueueItem>, t: Table, row: QueueItem)
    requires RowsAsIn(rows, t) && row.id !in IdsOf(rows)
    ensures RowsAsIn(rows + [row], t[row.id := row])
  {
  }

  /** Appending a row with a new id to a list of distinct rows. */
  lemma AppendNewRow(rows: seq<QueueItem>, row: QueueItem)
    requires DistinctIds(rows) && row.id !in IdsOf(rows)
    ensures IdsOf(rows + [row]) == IdsOf(rows) + {row.id} && DistinctIds(rows + [row])
  {
    assert forall i :: 0 <= i < |rows| ==> (rows + [row])[i] == rows[i];
    assert (rows + [row])[|rows|] == row;
    assert forall i :: 0 <= i < |rows| ==> rows[i].id in IdsOf(rows);
  }

  /** A list of rows with distinct ids has one id per row. */
  lemma {:induction false} DistinctIdsCount(rows: seq<QueueItem>)
    requires DistinctIds(rows)
    ensures |IdsOf(rows)| == |rows|
  {
    if rows != [] {
      var init, last := rows[..|rows| - 1], rows[|rows| - 1];
      assert rows == init + [last];
      assert DistinctIds(init);
      DistinctIdsCount(init);
      assert IdsOf(rows) == IdsOf(init) + {last.id} by {
        assert forall i :: 0 <= i < |init| ==> rows[i] == init[i];
      }
      assert last.id !in IdsOf(init);
    }
  }

  /** Clearing one more row's lock extends a bulk clear by that id. */
  lemma ReleaseOneMore(t: Table, done: set<int>, k: int)
    requires k in t && k !in done
    ensures ReleaseAll(t, done)[k := Release(t[k])] == ReleaseAll(t, done + {k})
  {
  }

  /** Clearing the locks of exactly the stale rows is clearStaleLocks' update, one step of a run. */
  lemma ClearedAllStale(t: Table, now: Minutes, t2: Table)
    requires Constraints(t) && t2 == ReleaseAll(t, StaleIds(t, now))
    ensures t2 == ClearStale(t, now) && Constraints(t2)
    ensures QueueLifecycle.Next(t, QueueLifecycle.ClearStaleLocks(now), t2)
  {
  }

  class QueueService {
    /** The `queueItem` table, keyed by id. */
    var items: Table

    ghost predicate Valid()
      reads this
    {
      Constraints(items)
    }

    constructor (rows: Table)
      requires Constraints(rows)
      ensures Valid() && items == rows
    {
      items := rows;
    }

    /** Claims some row that is neither completed nor locked, stamping lockedAt and lockedBy,
        and returns the updated row; returns None, changing nothing, when there is no such row. */
    method LockNextItem(lockedBy: Option<string>, now: Minutes) returns (r: Option<QueueItem>)
      requires Valid()
      modifies this
      ensures Valid()
      ensures r.None? <==> ClaimableIds(old(items)) == {}
      ensures r.None? ==> items == old(items)
      ensures r.Some? ==> r.value.id in ClaimableIds(old(items))
                          && items == LockAt(old(items), r.value.id, now, lockedBy)
                          && r.value == items[r.value.id]
      ensures QueueLifecycle.Next(old(items), QueueLifecycle.LockNext(lockedBy, now), items)
      ensures AllCoherent(old(items)) ==> AllCoherent(items)
    {
      var candidates := ClaimableIds(items);
      if candidates == {} {
        return None;
      }
      NonEmptyHasMember(candidates);
      var k :| k in candidates;
      items := LockAt(items, k, now, lockedBy);
      r := Some(items[k]);
    }

    /** Marks the row `id` completed at `now` with `matchedCount`, clearing its lock whatever its
        prior state, and returns the updated row; fails, changing nothing, when there is no such row. */
    method CompleteItem(id: int, matchedCount: Option<int>, now: Minutes) returns (r: Result<QueueItem, Error>)
      requires Valid()
      modifies this
      ensures Valid()
      ensures id !in old(items) ==> r == Failure(NoResultError) && items == old(items)
      ensures id in old(items) ==> items == CompleteAt(old(items), id, now, matchedCount)
                                   && r == Success(items[id])
      ensures QueueLifecycle.Next(old(items), QueueLifecycle.CompleteItem(id, matchedCount, now), items)
      ensures AllCoherent(old(items)) ==> AllCoherent(items)
    {
      if id !in items {
        return Failure(NoResultError);
      }
      items := CompleteAt(items, id, now, matchedCount);
      r := Success(items[id]);
    }

    /** Clears the lock of every uncompleted row locked more than LOCK_TIMEOUT_MINUTES before `now`
        and returns exactly those rows, each once, in their updated form. */
    method ClearStaleLocks(now: Minutes) returns (cleared: seq<QueueItem>)
      requires Valid()
      modifies this
      ensures Valid()
      ensures items == ClearStale(old(items), now)
      ensures IdsOf(cleared) == StaleIds(old(items), now) && DistinctIds(cleared)
      ensures |cleared| == |StaleIds(old(items), now)|
      ensures RowsAsIn(cleared, items)
      ensures QueueLifecycle.Next(old(items), QueueLifecycle.ClearStaleLocks(now), items)
      ensures AllCoherent(old(items)) ==> AllCoherent(items)
    {
      ghost var t0 := items;
      var stale := StaleIds(items, now);
      var todo, done := stale, {};
      cleared := [];
      while todo != {}
        invariant todo <= stale && done == stale - todo
        invariant items == ReleaseAll(t0, done)
        invariant IdsOf(cleared) == done && DistinctIds(cleared)
        invariant RowsAsIn(cleared, items)
        decreases todo
      {
        NonEmptyHasMember(todo);
        var k :| k in todo;
        assert items[k] == t0[k];
        var row := Release(items[k]);
        ReleaseOneMore(t0, done, k);
        AppendNewRow(cleared, row);
        StoreNewRow(cleared, items, row);
        items := items[k := row];
        cleared := cleared + [row];
        todo, done := todo - {k}, done + {k};
      }
      assert done == stale;
      ClearedAllStale(t0, now, items);
      DistinctIdsCount(cleared);
    }
  }
}
