/** The delivery tables and the notification service's transactions on them, statement by statement. */
module DeliveryTables {
  import opened Common
  import Outbox
  import opened AlertFence
  import opened NotificationDelivery

  /** How taking up a job ends: two errors, nothing to do, or a delivery to claim. */
  datatype Begun = EventMissing | JobMismatch | IdentityChanged | Skipped | Record(id: Uuid)

  /** The claim a delivery waits for is this one, and its attempt is open. */
  ghost predicate Current(deliveries: map<Uuid, Delivery>, attempts: map<Uuid, Attempt>, k: Ticket, token: Uuid) {
    && k.deliveryId in deliveries && token in attempts && attempts[token].status == Open
    && var d := deliveries[k.deliveryId];
       d.status == Sending && d.claimSeq == k.claimSeq && d.lease.Some? && d.lease.value.token == token
  }

  /** The lease is over, and with it nothing but status, retry number and next attempt may have changed. */
  ghost predicate Released(d: Delivery, e: Delivery) {
    && e.eventId == d.eventId && e.key == d.key && e.maxAttempts == d.maxAttempts && e.claimSeq == d.claimSeq
    && e.lease.None?
  }

  /** What an answer makes of the delivery and of its attempt. */
  ghost predicate AnswerRecorded(answer: Answer, retryAt: int, d: Delivery, e: Delivery, attempt: AttemptStatus,
                                 r: Outcome) {
    && Released(d, e) && e.attempts == d.attempts
    && match answer
       case AcceptedBy =>
         && e.status == Sent && attempt == Accepted && r == Delivered
         && e.retrySeq == d.retrySeq && e.nextAttemptAt == d.nextAttemptAt
       case RetryableFailure(unknownEffect) =>
         if unknownEffect then
           && e.status == Ambiguous && attempt == Unknown && r == Terminal
           && e.retrySeq == d.retrySeq && e.nextAttemptAt == d.nextAttemptAt
         else
           && attempt == Retryable && e.retrySeq == d.retrySeq + 1
           && (if d.attempts < d.maxAttempts then
                 e.status == RetryScheduled && e.nextAttemptAt == Some(retryAt) && r == Scheduled
               else e.status == DeadLettered && e.nextAttemptAt.None? && r == Terminal)
       case PermanentFailure(suppress) =>
         && e.status == (if suppress then Suppressed else Failed) && attempt == Permanent && r == Terminal
         && e.retrySeq == d.retrySeq && e.nextAttemptAt == d.nextAttemptAt
  }

  class NotificationTables {
    var events: Events
    var deliveries: map<Uuid, Delivery>
    var attempts: map<Uuid, Attempt>
    var outbox: OutboxRows

    function View(): Tables
      reads this
    {
      Tables(deliveries, attempts)
    }

    /** Undoes a transaction. */
    method Rollback(before: Tables, rows: OutboxRows)
      modifies this`deliveries, this`attempts, this`outbox
      ensures View() == before && outbox == rows
    {
      deliveries, attempts, outbox := before.deliveries, before.attempts, rows;
    }

    /** A delivery a claim may follow on: not finished, not scheduled for later, not being sent. */
    predicate Claimable(id: Uuid, at: int)
      reads this
    {
      && id in deliveries
      && var d := deliveries[id];
         && d.status in {Pending, RetryScheduled, Sending}
         && (d.status == RetryScheduled ==> d.nextAttemptAt.Some? && d.nextAttemptAt.value <= at)
         && (d.status == Sending ==> d.lease.Some? && d.lease.value.until <= at)
    }

    /**
     * Loads the event, inserts its delivery unless there is one under its key, and reads that one
     * back. Two jobs of one event always end at one delivery.
     */
    method TakeUp(job: Job, id: Uuid, maxAttempts: nat, at: int) returns (r: Begun)
      requires id !in deliveries
      modifies this`deliveries
      ensures View() == Begin(old(View()), events, job, id, maxAttempts)
      ensures r.EventMissing? <==> job.eventId !in events
      ensures r.JobMismatch? <==> job.eventId in events && StoredJob(events[job.eventId]) != job
      ensures r.Record? ==>
                && Claimable(r.id, at) && deliveries[r.id].eventId == job.eventId
                && deliveries[r.id].key == job.idempotencyKey + ":" + job.notificationType
      ensures r.Skipped? ==>
                exists other <- deliveries ::
                  deliveries[other].key == job.idempotencyKey + ":" + job.notificationType && !Claimable(other, at)
      ensures r.IdentityChanged? ==>
                exists other <- deliveries ::
                  deliveries[other].key == job.idempotencyKey + ":" + job.notificationType
                  && deliveries[other].eventId != job.eventId
      ensures deliveries != old(deliveries) ==>
                && (forall d <- old(deliveries).Values :: d.key != job.idempotencyKey + ":" + job.notificationType)
                && deliveries ==
                   old(deliveries)[
                     id := Delivery(job.eventId, job.idempotencyKey + ":" + job.notificationType, Pending, 0,
                                    maxAttempts, 0, 0, None, None)]
      ensures r.EventMissing? || r.JobMismatch? ==> deliveries == old(deliveries)
    {
      if job.eventId !in events { return EventMissing; }
      if StoredJob(events[job.eventId]) != job { return JobMismatch; }
      if forall d <- deliveries.Values :: d.key != DeliveryKey(job) {
        var created := Delivery(job.eventId, DeliveryKey(job), Pending, 0, maxAttempts, 0, 0, None, None);
        deliveries := deliveries[id := created];
        assert deliveries[id].key == DeliveryKey(job);
      }
      assert exists d <- deliveries.Values :: d.key == DeliveryKey(job);
      var row :| row in deliveries && deliveries[row].key == DeliveryKey(job);
      if deliveries[row].eventId != job.eventId { return IdentityChanged; }
      var d := deliveries[row];
      if d.status.Complete() || (d.status == RetryScheduled && !Reached(d.nextAttemptAt, at))
         || (d.status == Sending && !Expired(d, at)) {
        return Skipped;
      }
      return Record(row);
    }

    /** Claims a delivery under a new lease, parks an expired one, or dead-letters an exhausted one. */
    method ClaimDelivery(id: Uuid, token: Uuid, at: int, leaseMs: int) returns (r: ClaimResult)
      modifies this`deliveries, this`attempts, this`outbox
      ensures outbox == old(outbox)
      ensures (View(), r) == Claim(old(View()), id, token, at, leaseMs)
      ensures !old(Claimable(id, at)) ==> r.Nothing? && View() == old(View())
      ensures r.ClaimError? ==> View() == old(View())
      ensures r.Claimed? ==>
                var d := old(deliveries)[id];
                && old(Claimable(id, at)) && d.status != Sending && d.attempts < d.maxAttempts
                && r.claimSeq == d.claimSeq + 1 && token !in old(attempts)
                && deliveries ==
                   old(deliveries)[
                     id := Delivery(d.eventId, d.key, Sending, d.attempts + 1, d.maxAttempts, d.claimSeq + 1,
                                    d.retrySeq, Some(Lease(token, at + leaseMs)), None)]
                && attempts == old(attempts)[token := Attempt(id, d.claimSeq + 1, Open)]
      ensures old(Claimable(id, at)) && old(deliveries)[id].status == Sending ==>
                var d := old(deliveries)[id];
                var expired := d.lease.value.token;
                if expired in old(attempts) && old(attempts)[expired].status == Open then
                  && r.Nothing? && deliveries == old(deliveries)[id := d.(status := Ambiguous, lease := None)]
                  && attempts == old(attempts)[expired := old(attempts)[expired].(status := Unknown)]
                else r.ClaimError?
      ensures old(Claimable(id, at)) && old(deliveries)[id].status != Sending
              && old(deliveries)[id].attempts >= old(deliveries)[id].maxAttempts ==>
                && r.Nothing? && attempts == old(attempts)
                && deliveries == old(deliveries)[id := old(deliveries)[id].(status := DeadLettered, lease := None)]
    {
      var before := View();
      if id !in deliveries { return Nothing; }
      var d := deliveries[id];
      if d.status.Complete() { return Nothing; }
      if d.status == RetryScheduled && !Reached(d.nextAttemptAt, at) { return Nothing; }
      if d.status == Sending && !Expired(d, at) { return Nothing; }
      if d.status == Sending {
        var expired := d.lease.value.token;
        var live := LiveAttempt(View(), expired);
        if live { attempts := attempts[expired := attempts[expired].(status := Unknown)]; }
        if !live {
          Rollback(before, outbox);
          return ClaimError;
        }
        deliveries := deliveries[id := d.(status := Ambiguous, lease := None)];
        return Nothing;
      }
      if d.attempts >= d.maxAttempts {
        deliveries := deliveries[id := d.(status := DeadLettered, lease := None)];
        return Nothing;
      }
      var claimSeq := d.claimSeq + 1;
      deliveries := deliveries[id := d.(status := Sending, attempts := d.attempts + 1, claimSeq := claimSeq,
                                        lease := Some(Lease(token, at + leaseMs)), nextAttemptAt := None)];
      if !AttemptInserts(View(), token, id, claimSeq) {
        Rollback(before, outbox);
        return ClaimError;
      }
      attempts := attempts[token := Attempt(id, claimSeq, Open)];
      return Claimed(claimSeq);
    }

    /** Gives a claim back before the provider was called. */
    method DeferClaimed(k: Ticket, token: Uuid, retryAt: int) returns (r: Outcome)
      modifies this`deliveries, this`attempts, this`outbox
      ensures outbox == old(outbox)
      ensures (View(), r) == DeferClaim(old(View()), k, token, retryAt)
      ensures r == Scheduled <==> old(Current(deliveries, attempts, k, token))
      ensures r != Scheduled ==> View() == old(View())
      ensures r == Scheduled ==>
                var (id, d) := (k.deliveryId, old(deliveries)[k.deliveryId]);
                && id in deliveries && deliveries == old(deliveries)[id := deliveries[id]]
                && Released(d, deliveries[id]) && deliveries[id].status == RetryScheduled
                && deliveries[id].attempts == (if d.attempts == 0 then 0 else d.attempts - 1)
                && deliveries[id].retrySeq == d.retrySeq + 1 && deliveries[id].nextAttemptAt == Some(retryAt)
                && attempts == old(attempts)[token := old(attempts)[token].(status := Deferred)]
    {
      var before := View();
      if !LiveAttempt(before, token) { return Late; }
      attempts := attempts[token := attempts[token].(status := Deferred)];
      if !Holds(before, k, token) {
        Rollback(before, outbox);
        return FenceError;
      }
      var d := deliveries[k.deliveryId];
      var used := if d.attempts > 0 then d.attempts - 1 else 0;
      deliveries := deliveries[k.deliveryId := d.(status := RetryScheduled, attempts := used, lease := None,
                                                  retrySeq := d.retrySeq + 1, nextAttemptAt := Some(retryAt))];
      return Scheduled;
    }

    /** Records the provider's answer under the claim it belongs to; a late one changes nothing. */
    method ApplyProviderResult(k: Ticket, token: Uuid, answer: Answer, retryAt: int) returns (r: Outcome)
      modifies this`deliveries, this`attempts, this`outbox
      ensures outbox == old(outbox)
      ensures (View(), r) == Apply(old(View()), k, token, answer, retryAt)
      ensures r in {Late, FenceError} <==> !old(Current(deliveries, attempts, k, token))
      ensures r in {Late, FenceError} ==> View() == old(View())
      ensures old(Current(deliveries, attempts, k, token)) ==>
                && k.deliveryId in deliveries && token in attempts
                && deliveries == old(deliveries)[k.deliveryId := deliveries[k.deliveryId]]
                && attempts == old(attempts)[token := old(attempts)[token].(status := attempts[token].status)]
                && AnswerRecorded(answer, retryAt, old(deliveries)[k.deliveryId], deliveries[k.deliveryId],
                                  attempts[token].status, r)
    {
      var before := View();
      if !Holds(before, k, token) { return Late; }
      var row := deliveries[k.deliveryId];
      var live := LiveAttempt(before, token);
      var status := match answer
        case AcceptedBy => Accepted
        case RetryableFailure(unknownEffect) => if unknownEffect then Unknown else Retryable
        case PermanentFailure(_) => Permanent;
      if live { attempts := attempts[token := attempts[token].(status := status)]; }
      if !live {
        Rollback(before, outbox);
        return FenceError;
      }
      match answer {
        case AcceptedBy =>
          deliveries := deliveries[k.deliveryId := row.(status := Sent, lease := None)];
          return Delivered;
        case RetryableFailure(unknownEffect) =>
          if unknownEffect {
            deliveries := deliveries[k.deliveryId := row.(status := Ambiguous, lease := None)];
            return Terminal;
          }
          var exhausted := row.attempts >= row.maxAttempts;
          deliveries := deliveries[k.deliveryId := row.(status := if exhausted then DeadLettered else RetryScheduled,
                                                        nextAttemptAt := if exhausted then None else Some(retryAt),
                                                        retrySeq := row.retrySeq + 1, lease := None)];
          return if exhausted then Terminal else Scheduled;
        case PermanentFailure(suppress) =>
          var refused := if suppress then Suppressed else Failed;
          deliveries := deliveries[k.deliveryId := row.(status := refused, lease := None)];
          return Terminal;
      }
    }

    /** One outbox insert inside the transaction; false stands for the thrown error. */
    method Enqueue(k: Key, payload: Payload, at: int) returns (ok: bool)
      modifies this`outbox
      ensures ok <==> Outbox.EnqueueRow(old(outbox), k, payload, at).Some?
      ensures outbox == if ok then Outbox.EnqueueRow(old(outbox), k, payload, at).value else old(outbox)
    {
      if k !in outbox {
        outbox := outbox[k := Outbox.Row(payload, Outbox.Pending, 0, at, None, None, at)];
        return true;
      }
      return outbox[k].payload == payload;
    }

    /** The retry scan over the due deliveries it locked; false stands for an error, which undoes all of it. */
    method RepublishDue(picks: seq<Uuid>, at: int) returns (ok: bool)
      requires forall id <- picks :: RetryDue(Reaped(View(), at), events, id, at)
      modifies this`deliveries, this`attempts, this`outbox
      ensures var result := Republish(old(View()), events, old(outbox), picks, at);
              ok == result.Some? && (View(), outbox) == if ok then result.value else (old(View()), old(outbox))
    {
      hide Expired, RetryOf, KeyOf;
      var before, rows := View(), outbox;
      var t := Reaped(before, at);
      attempts := t.attempts;
      deliveries := t.deliveries;
      deliveries := WithResumed(t, picks).deliveries;
      assert forall id <- picks :: RetryDue(t, events, id, at);
      for i := 0 to |picks|
        invariant HaveEvents(t, events, picks[..i])
        invariant View() == WithResumed(t, picks)
        invariant EnqueueRetries(t, events, rows, picks[..i], at) == Some(outbox)
      {
        assert picks[..i + 1] == picks[..i] + [picks[i]] && picks[i] in picks;
        RetryStep(t, events, rows, picks[..i], picks[i], at, outbox);
        ok := Enqueue(KeyOf(t, picks[i]), RetryOf(t, events, picks[i]), at);
        if !ok {
          assert picks[..|picks|] == picks;
          RetryFails(t, events, rows, picks, i + 1, at);
          Rollback(before, rows);
          return false;
        }
      }
      assert picks[..|picks|] == picks;
      return true;
    }
  }

  lemma RetryStep(t: Tables, events: Events, outbox: OutboxRows, init: seq<Uuid>, id: Uuid, at: int, rows: OutboxRows)
    requires HaveEvents(t, events, init) && EnqueueRetries(t, events, outbox, init, at) == Some(rows)
    requires id in t.deliveries && t.deliveries[id].eventId in events
    ensures HaveEvents(t, events, init + [id])
    ensures EnqueueRetries(t, events, outbox, init + [id], at) ==
            Outbox.EnqueueRow(rows, KeyOf(t, id), RetryOf(t, events, id), at)
  {
    hide KeyOf, RetryOf;
    assert (init + [id])[..|init|] == init;
  }

  /** A refused insert makes the scan fail. */
  lemma {:induction false} RetryFails(t: Tables, events: Events, outbox: OutboxRows, picks: seq<Uuid>, n: nat, at: int)
    requires n <= |picks| && HaveEvents(t, events, picks) && HaveEvents(t, events, picks[..n])
    requires EnqueueRetries(t, events, outbox, picks[..n], at).None?
    ensures EnqueueRetries(t, events, outbox, picks, at).None?
  {
    hide KeyOf, RetryOf;
    if n == |picks| {
      assert picks[..n] == picks;
    } else {
      var init := picks[..|picks| - 1];
      assert init[..n] == picks[..n];
      RetryFails(t, events, outbox, init, n, at);
    }
  }
}
