/** The alert tables and the statements on them, each one transaction, as updates in place. */
module AlertEventWriter {
  import opened Common
  import Outbox
  import opened AlertFence

  class AlertDatabase {
    var alerts: map<Uuid, Alert>
    var events: map<Uuid, AlertEvent>
    var outbox: OutboxRows

    function View(): Db
      reads this
    {
      Db(alerts, events, outbox)
    }

    /** One outbox insert inside the transaction; false stands for the thrown error. */
    method Enqueue(k: Key, payload: Payload, at: int) returns (ok: bool)
      modifies this`outbox
      ensures ok <==> Outbox.EnqueueRow(old(outbox), k, payload, at).Some?
      ensures outbox == if ok then Outbox.EnqueueRow(old(outbox), k, payload, at).value else old(outbox)
    {
      if k !in outbox {
        outbox := outbox[k := Outbox.Row(payload, Outbox.Pending, 0, at, None, None, at)];
        return true;
      }
      return outbox[k].payload == payload;
    }

    /** Fires the alert, records the event and enqueues its three messages, or rolls all of it back. */
    method WriteCandidateTx(c: Candidate, eventId: Uuid, at: int) returns (r: WriteResult)
      modifies this
      ensures (View(), r) == WriteCandidate(old(View()), c, eventId, at)
    {
      var before := View();
      var id := c.snapshot.id;
      if id !in alerts || alerts[id].generation != c.snapshot.generation || !alerts[id].active || alerts[id].triggered {
        return Stale;
      }
      var definition := alerts[id];
      alerts := alerts[definition.id := definition.(triggered := true, active := false)];
      if !SameDefinition(definition, c.snapshot) {
        Rollback(before);
        return Rejected;
      }
      if eventId in events || exists e <- events.Values :: e.idempotencyKey == c.idempotencyKey {
        Rollback(before);
        return Rejected;
      }
      if !Storable(c.currentValue) {
        Rollback(before);
        return Rejected;
      }
      events := events[eventId := EventOf(c, eventId)];
      var job := NewJob(c, eventId);
      var ok := Enqueue(NotificationKey(eventId, c.snapshot.notificationType), NotificationJob(job), at);
      if ok {
        ok := Enqueue(TriggeredKey(eventId), TriggeredNotice(job, c.sourceEventId), at);
      }
      if ok {
        ok := Enqueue(IndexKey(eventId), IndexUpdate(c.snapshot.id, c.snapshot.tokenAddress), at);
      }
      if !ok {
        Rollback(before);
        return Rejected;
      }
      return Created(eventId);
    }

    method Rollback(before: Db)
      modifies this
      ensures View() == before
    {
      alerts, events, outbox := before.alerts, before.events, before.outbox;
    }

    /**
     * The update of the alerts route; false stands for the not-found reply. Only the addressed row
     * of its owner changes, and of that row never the owner or what the alert watches. A new
     * threshold, a new condition and a re-arming move it to the next generation; without one of
     * them its definition stays. A fired alert is armed again only by a re-arming.
     */
    method UpdateAlert(id: Uuid, userId: string, edit: Edit) returns (ok: bool)
      modifies this`alerts
      ensures ok <==> id in old(alerts) && old(alerts)[id].userId == userId
      ensures !ok ==> alerts == old(alerts)
      ensures alerts.Keys == old(alerts).Keys
              && forall other <- alerts :: other != id ==> alerts[other] == old(alerts)[other]
      ensures ok ==>
                var (before, after) := (old(alerts)[id], alerts[id]);
                var moves := edit.thresholdValue.Some? || edit.condition.Some? || edit.isActive == Some(true);
                && after.generation == before.generation + (if moves then 1 else 0)
                && (!moves ==> after.thresholdValue == before.thresholdValue && after.condition == before.condition)
                && (edit.thresholdValue.Some? ==> after.thresholdValue == edit.thresholdValue.value)
                && (edit.condition.Some? ==> after.condition == edit.condition.value)
                && after.active == (if edit.isActive.Some? then edit.isActive.value else before.active)
                && (before.triggered && !after.triggered <==> before.triggered && edit.isActive == Some(true))
                && (after.triggered ==> before.triggered)
                && after.id == before.id && after.userId == before.userId && after.tokenAddress == before.tokenAddress
                && after.thresholdType == before.thresholdType && after.notificationType == before.notificationType
                && after == EditAlert(before, edit)
    {
      if id !in alerts || alerts[id].userId != userId {
        return false;
      }
      var row := alerts[id];
      if edit.thresholdValue.Some? {
        row := row.(thresholdValue := edit.thresholdValue.value);
      }
      if edit.condition.Some? {
        row := row.(condition := edit.condition.value);
      }
      if edit.isActive.Some? {
        row := row.(active := edit.isActive.value);
        if edit.isActive.value {
          row := row.(triggered := false);
        }
      }
      if edit.thresholdValue.Some? || edit.condition.Some? || edit.isActive == Some(true) {
        row := row.(generation := row.generation + 1);
      }
      alerts := alerts[id := row];
      return true;
    }
  }
}
