/** The statements on the outbox table and the publishing script, as updates in place. */
module OutboxTable {
  import opened Common
  import opened Outbox

  class EventOutbox<P(==)> {
    var rows: map<Key, Row<P>>
    const maxAttempts: nat

    constructor (maxAttempts: nat)
      ensures rows == map[] && this.maxAttempts == maxAttempts
    {
      rows := map[];
      this.maxAttempts := maxAttempts;
    }

    /** Every row but one is as it was. */
    twostate predicate OthersKept(k: Key)
      reads this
    {
      forall j :: j != k ==> (j in rows <==> j in old(rows)) && (j in rows ==> rows[j] == old(rows)[j])
    }

    /**
     * Puts a message in the outbox, once. A new row has never been tried, is nobody's and is due
     * at once; a replay changes nothing; another payload under the same key is refused.
     */
    method Enqueue(k: Key, payload: P, at: int) returns (ok: bool)
      modifies this
      ensures ok <==> k !in old(rows) || old(rows)[k].payload == payload
      ensures k in rows && (ok ==> rows[k].payload == payload) && OthersKept(k)
      ensures k in old(rows) ==> rows == old(rows)
      ensures k !in old(rows) ==> rows == old(rows)[k := Row(payload, Pending, 0, at, None, None, at)]
      ensures k !in old(rows) ==>
                && (maxAttempts > 0 ==> Due(rows[k], at, maxAttempts))
                && forall early :: early < at ==> !Due(rows[k], early, maxAttempts)
      ensures ok ==> EnqueueRow(old(rows), k, payload, at) == Some(rows)
    {
      if k !in rows {
        rows := rows[k := Row(payload, Pending, 0, at, None, None, at)];
        return true;
      }
      return rows[k].payload == payload;
    }

    /** Rows that are due and not locked by another transaction. */
    function Available(locked: set<Key>, at: int): set<Key>
      reads this
    {
      set k | k in rows && k !in locked && Due(rows[k], at, maxAttempts)
    }

    /** A row to publish: with attempts left, and waiting for its time or claimed by a worker whose lease is over. */
    predicate Claimable(k: Key, locked: set<Key>, at: int)
      reads this
    {
      && k in rows && k !in locked && rows[k].attempts < maxAttempts
      && if rows[k].status == Pending then rows[k].nextAttemptAt <= at
         else rows[k].status == Publishing && rows[k].leaseUntil.Some? && rows[k].leaseUntil.value <= at
    }

    /**
     * Claims up to limit available rows, those due longest first and the older of equally due ones,
     * and leaves no available row behind while the limit is not reached.
     */
    method Claim(worker: string, at: int, leaseMs: int, limit: nat, locked: set<Key>)
      returns (tasks: seq<Task<P>>, ghost picks: set<Key>)
      modifies this
      ensures picks <= old(Available(locked, at)) && |tasks| == |picks| <= limit
      ensures |picks| < limit ==> picks == old(Available(locked, at))
      ensures forall k :: k in old(Available(locked, at)) <==> old(Claimable(k, locked, at))
      ensures forall k <- picks, j <- old(Available(locked, at)) - picks ::
                || old(rows)[k].nextAttemptAt < old(rows)[j].nextAttemptAt
                || (old(rows)[k].nextAttemptAt == old(rows)[j].nextAttemptAt
                    && old(rows)[k].createdAt <= old(rows)[j].createdAt)
      ensures rows.Keys == old(rows).Keys
      ensures forall k <- rows ::
                var row := old(rows)[k];
                rows[k] == if k in picks then Row(row.payload, Publishing, row.attempts + 1, row.nextAttemptAt,
                                                  Some(at + leaseMs), Some(worker), row.createdAt) else row
      ensures ToSet(tasks) == set k | k in picks ::
                                Task(worker, k, old(rows)[k].payload, old(rows)[k].attempts + 1, false)
      ensures rows == ClaimRows(old(rows), worker, picks, at, leaseMs)
    {
      var available := Available(locked, at);
      var chosen: set<Key> := {};
      tasks := [];
      while |chosen| < limit && chosen != available
        invariant rows == old(rows) && (forall k <- available :: k in rows)
        invariant chosen <= available && |tasks| == |chosen| <= limit
        invariant forall k <- chosen, j <- available - chosen :: !ClaimedLater(rows[k], rows[j])
        invariant ToSet(tasks) == set k | k in chosen :: TaskOf(worker, k, rows[k])
        decreases available - chosen
      {
        var k := Earliest(available - chosen);
        ToSetAppend(tasks, TaskOf(worker, k, rows[k]));
        tasks := tasks + [TaskOf(worker, k, rows[k])];
        chosen := chosen + {k};
      }
      picks := chosen;
      rows := ClaimRows(rows, worker, chosen, at, leaseMs);
    }

    method Earliest(candidates: set<Key>) returns (first: Key)
      requires candidates != {} && forall k <- candidates :: k in rows
      ensures first in candidates && forall k <- candidates :: !ClaimedLater(rows[first], rows[k])
    {
      first :| first in candidates;
      var left := candidates - {first};
      while left != {}
        invariant left <= candidates && first in candidates
        invariant forall k <- candidates - left :: !ClaimedLater(rows[first], rows[k])
        decreases left
      {
        var k :| k in left;
        if ClaimedLater(rows[first], rows[k]) {
          first := k;
        }
        left := left - {k};
      }
    }

    /** Finishing a row keeps what it was for and gives up its lock, so that no task can finish it again. */
    twostate predicate Finished(task: Task<P>)
      reads this
      requires task.key in rows && task.key in old(rows)
    {
      var (row, before) := (rows[task.key], old(rows)[task.key]);
      && row.lockedBy.None? && row.leaseUntil.None?
      && row.payload == before.payload && row.attempts == before.attempts && row.createdAt == before.createdAt
    }

    /**
     * Only the worker that still holds the row's lock publishes it: after a lapsed lease was taken
     * over, nothing happens. A published row is never due again.
     */
    method MarkPublished(task: Task<P>)
      modifies this
      ensures OthersKept(task.key)
      ensures !old(Holds(rows, task)) ==> rows == old(rows)
      ensures old(Holds(rows, task)) ==>
                && task.key in rows && Finished(task) && rows[task.key].status == Published
                && rows[task.key].nextAttemptAt == old(rows)[task.key].nextAttemptAt
                && forall at :: !Due(rows[task.key], at, maxAttempts)
      ensures rows == PublishedRows(old(rows), task)
    {
      if task.key in rows && rows[task.key].lockedBy == Some(task.worker) {
        rows := rows[task.key := rows[task.key].(status := Published, leaseUntil := None, lockedBy := None)];
      }
    }

    /**
     * The same for a row that could not be published: after its last attempt it is never due
     * again, before that it is due again once the retry delay is over and not before.
     */
    method MarkFailed(task: Task<P>, at: int, retryMs: int)
      modifies this
      ensures OthersKept(task.key)
      ensures !old(Holds(rows, task)) ==> rows == old(rows)
      ensures old(Holds(rows, task)) ==>
                && task.key in rows && Finished(task)
                && (rows[task.key].status == if task.attempts >= maxAttempts then Failed else Pending)
                && rows[task.key].nextAttemptAt == at + retryMs
                && forall later :: Due(rows[task.key], later, maxAttempts) <==>
                                   task.attempts < maxAttempts && rows[task.key].attempts < maxAttempts
                                   && later >= at + retryMs
      ensures rows == FailedRows(old(rows), task, at, retryMs, maxAttempts)
    {
      var exhausted := task.attempts >= maxAttempts;
      if task.key in rows && rows[task.key].lockedBy == Some(task.worker) {
        rows := rows[task.key := rows[task.key].(status := if exhausted then Failed else Pending,
                                                 nextAttemptAt := at + retryMs, leaseUntil := None, lockedBy := None)];
      }
    }
  }
}
