/** Alert rows, their edits, and the fenced transaction that turns a candidate into one event and its messages. */
module AlertFence {
  // Each SQL transaction is one atomic step; candidates may come from any past snapshot of a row,
  // any number of times, from any number of workers. Event and alert identifiers are fresh random
  // UUIDs and never reused.

  import opened Common
  import Outbox

  type Key = Outbox.Key

  type OutboxRows = map<Outbox.Key, Outbox.Row<Payload>>

  type Uuid = s: string | ':' !in s witness ""

  datatype Alert = Alert(
    id: Uuid,
    userId: string,
    tokenAddress: string,
    thresholdType: string,
    thresholdValue: real,
    condition: string,
    notificationType: string,
    active: bool,
    triggered: bool,
    generation: nat)

  /** A matched candidate: copied from a snapshot of the alert, plus what was observed. */
  datatype Candidate = Candidate(snapshot: Alert, currentValue: real, sourceEventId: string, idempotencyKey: string)

  datatype AlertEvent = AlertEvent(
    id: Uuid,
    alertId: Uuid,
    userId: string,
    tokenAddress: string,
    thresholdType: string,
    thresholdValue: real,
    condition: string,
    currentValue: real,
    notificationType: string,
    idempotencyKey: string,
    generation: nat,
    sourceEventId: string)

  /** What a notification worker is told about an event. */
  datatype Job = Job(
    eventId: Uuid,
    alertId: Uuid,
    userId: string,
    tokenAddress: string,
    currentValue: real,
    notificationType: string,
    idempotencyKey: string)

  /** The messages of an event, and those of every other producer of the outbox. */
  datatype Payload =
    | NotificationJob(job: Job)
    | TriggeredNotice(job: Job, sourceEventId: string)
    | IndexUpdate(alertId: Uuid, tokenAddress: string)
    | Other(text: string)

  datatype Db = Db(alerts: map<Uuid, Alert>, events: map<Uuid, AlertEvent>, outbox: OutboxRows)

  datatype WriteResult = Created(eventId: Uuid) | Stale | Rejected

  const NOTIFICATIONS_PENDING: Outbox.StreamName := "notifications.pending"
  const ALERTS_TRIGGERED: Outbox.StreamName := "alerts.triggered"
  const ALERT_INDEX_UPDATES: Outbox.StreamName := "alerts.index_updates"

  const NOTIFICATION_PREFIX := "alert-notification:"
  const TRIGGERED_PREFIX := "alert-triggered:"
  const INDEX_PREFIX := "alert-triggered-index:"

  // ---------------------------------------------------------------------------------
  // Values as an event row holds them: thirty digits, twelve of them decimals

  const VALUE_SCALE := 1_000_000_000_000
  const VALUE_LIMIT := 1_000_000_000_000_000_000_000_000_000_000

  /** The value in units of the last decimal, rounded to the nearest unit and halves away from zero. */
  function ValueUnits(x: real): int {
    if x >= 0.0 then (x * VALUE_SCALE as real + 0.5).Floor else -((0.5 - x * VALUE_SCALE as real).Floor)
  }

  function Stored(x: real): real { ValueUnits(x) as real / VALUE_SCALE as real }

  /** Larger values are a database error. */
  predicate Storable(x: real) { -VALUE_LIMIT < ValueUnits(x) < VALUE_LIMIT }

  /** The value has at most twelve decimals. */
  predicate WholeUnits(x: real) { (x * 1_000_000_000_000.0).Floor as real == x * 1_000_000_000_000.0 }

  /**
   * What is stored is the nearest value of twelve decimals, of two the one further from zero. A
   * value survives storage exactly if it has at most twelve decimals.
   */
  lemma StoredExactly(x: real)
    ensures WholeUnits(Stored(x))
    ensures -0.5 <= (Stored(x) - x) * 1_000_000_000_000.0 <= 0.5
    ensures (Stored(x) - x) * 1_000_000_000_000.0 == 0.5 ==> x > 0.0
    ensures (Stored(x) - x) * 1_000_000_000_000.0 == -0.5 ==> x < 0.0
    ensures Storable(x) <==> -1_000_000_000_000_000_000.0 < Stored(x) < 1_000_000_000_000_000_000.0
    ensures Stored(x) == x <==> WholeUnits(x)
    ensures Stored(Stored(x)) == Stored(x)
  {
    assert Stored(x) * 1_000_000_000_000.0 == ValueUnits(x) as real;
    UnitsOfWhole(ValueUnits(x));
    if WholeUnits(x) {
      UnitsOfWhole((x * VALUE_SCALE as real).Floor);
    }
  }

  lemma UnitsOfWhole(n: int)
    ensures ValueUnits(n as real / VALUE_SCALE as real) == n
    ensures (n as real / VALUE_SCALE as real * VALUE_SCALE as real).Floor == n
  {
    assert n as real / VALUE_SCALE as real * VALUE_SCALE as real == n as real;
  }

  // ---------------------------------------------------------------------------------
  // Transactions

  function EventOf(c: Candidate, eventId: Uuid): AlertEvent {
    var a := c.snapshot;
    AlertEvent(eventId, a.id, a.userId, a.tokenAddress, a.thresholdType, a.thresholdValue, a.condition,
               Stored(c.currentValue), a.notificationType, c.idempotencyKey, a.generation, c.sourceEventId)
  }

  /** The job of a new event, made from the candidate. */
  function NewJob(c: Candidate, eventId: Uuid): Job {
    var a := c.snapshot;
    Job(eventId, a.id, a.userId, a.tokenAddress, c.currentValue, a.notificationType, c.idempotencyKey)
  }

  /** The job of an event that was stored, made from its row. */
  function StoredJob(e: AlertEvent): Job {
    Job(e.id, e.alertId, e.userId, e.tokenAddress, e.currentValue, e.notificationType, e.idempotencyKey)
  }

  function NotificationKey(eventId: Uuid, notificationType: string): Key {
    Outbox.Key(NOTIFICATIONS_PENDING, NOTIFICATION_PREFIX + eventId + ":" + notificationType)
  }

  function TriggeredKey(eventId: Uuid): Key { Outbox.Key(ALERTS_TRIGGERED, TRIGGERED_PREFIX + eventId) }

  function IndexKey(eventId: Uuid): Key { Outbox.Key(ALERT_INDEX_UPDATES, INDEX_PREFIX + eventId) }

  function EnqueueAll(outbox: OutboxRows, c: Candidate, eventId: Uuid, at: int): Option<OutboxRows> {
    var first :- Outbox.EnqueueRow(outbox, NotificationKey(eventId, c.snapshot.notificationType),
                                   NotificationJob(NewJob(c, eventId)), at);
    var notice := TriggeredNotice(NewJob(c, eventId), c.sourceEventId);
    var second :- Outbox.EnqueueRow(first, TriggeredKey(eventId), notice, at);
    Outbox.EnqueueRow(second, IndexKey(eventId), IndexUpdate(c.snapshot.id, c.snapshot.tokenAddress), at)
  }

  /** The fence: the row still has the candidate's generation and has not fired. */
  predicate Fenced(db: Db, c: Candidate) {
    && c.snapshot.id in db.alerts
    && var row := db.alerts[c.snapshot.id];
       row.generation == c.snapshot.generation && row.active && !row.triggered
  }

  /** The definition check against the row the fence returned. */
  predicate SameDefinition(row: Alert, snapshot: Alert) {
    && row.userId == snapshot.userId
    && row.tokenAddress == snapshot.tokenAddress
    && row.thresholdType == snapshot.thresholdType
    && row.thresholdValue == snapshot.thresholdValue
    && row.condition == snapshot.condition
    && row.notificationType == snapshot.notificationType
    && row.generation == snapshot.generation
  }

  /** The whole transaction; any error rolls every change back. */
  function WriteCandidate(db: Db, c: Candidate, eventId: Uuid, at: int): (Db, WriteResult) {
    if !Fenced(db, c) then (db, Stale)
    else
      var row := db.alerts[c.snapshot.id];
      if !SameDefinition(row, c.snapshot) then (db, Rejected)
      else if eventId in db.events || exists e <- db.events.Values :: e.idempotencyKey == c.idempotencyKey then
        (db, Rejected)
      else if !Storable(c.currentValue) then (db, Rejected)
      else
        match EnqueueAll(db.outbox, c, eventId, at)
        case None => (db, Rejected)
        case Some(outbox) =>
          (Db(db.alerts[row.id := row.(triggered := true, active := false)],
              db.events[eventId := EventOf(c, eventId)], outbox),
           Created(eventId))
  }

  datatype Edit = Edit(thresholdValue: Option<real>, condition: Option<string>, isActive: Option<bool>)

  /** The update rule of the alerts route: edits and re-arms move to a new generation. */
  function EditAlert(a: Alert, e: Edit): Alert {
    var edited := a.(thresholdValue := if e.thresholdValue.Some? then e.thresholdValue.value else a.thresholdValue,
                     condition := if e.condition.Some? then e.condition.value else a.condition,
                     active := if e.isActive.Some? then e.isActive.value else a.active,
                     triggered := if e.isActive == Some(true) then false else a.triggered);
    if e.thresholdValue.Some? || e.condition.Some? || e.isActive == Some(true)
    then edited.(generation := a.generation + 1)
    else edited
  }

  // ---------------------------------------------------------------------------------
  // Steps and runs

  datatype Action =
    | Insert(alert: Alert)
    | Update(id: Uuid, userId: string, edit: Edit)
    | Delete(id: Uuid, userId: string)
    | MergeOwner(toUser: string, fromUser: string)
    | DeleteUser(userId: string)
    | Write(candidate: Candidate, eventId: Uuid, at: int)
    | Enqueue(key: Key, payload: Payload, at: int)

  /** The database, every row version it ever held, and every alert event it ever wrote. */
  datatype World = World(db: Db, snapshots: set<Alert>, written: seq<AlertEvent>)

  ghost predicate Enabled(w: World, a: Action) {
    match a
    case Insert(alert) =>
      (forall s <- w.snapshots :: s.id != alert.id) && alert.active && !alert.triggered && alert.generation == 1
    case Update(id, userId, _) => id in w.db.alerts && w.db.alerts[id].userId == userId
    case Delete(id, userId) => id in w.db.alerts && w.db.alerts[id].userId == userId
    case MergeOwner(_, _) => true
    case DeleteUser(_) => true
    case Write(c, eventId, _) => c.snapshot in w.snapshots && forall e <- w.written :: e.id != eventId
    case Enqueue(key, _, _) => !EventKeyed(key)
  }

  /** The keys of an event's three messages; every other producer of the outbox has other keys. */
  predicate EventKeyed(k: Key) {
    || (k.stream == NOTIFICATIONS_PENDING && NOTIFICATION_PREFIX <= k.eventKey)
    || (k.stream == ALERTS_TRIGGERED && TRIGGERED_PREFIX <= k.eventKey)
    || (k.stream == ALERT_INDEX_UPDATES && INDEX_PREFIX <= k.eventKey)
  }

  function AlertsAfter(db: Db, a: Action): map<Uuid, Alert> {
    match a
    case Insert(alert) => db.alerts[alert.id := alert]
    case Update(id, _, edit) => if id in db.alerts then db.alerts[id := EditAlert(db.alerts[id], edit)] else db.alerts
    case Delete(id, _) => db.alerts - {id}
    case MergeOwner(to, from) =>
      map id | id in db.alerts :: if db.alerts[id].userId == from then db.alerts[id].(userId := to) else db.alerts[id]
    case DeleteUser(userId) => map id | id in db.alerts && db.alerts[id].userId != userId :: db.alerts[id]
    case Write(c, eventId, at) => WriteCandidate(db, c, eventId, at).0.alerts
    case Enqueue(_, _, _) => db.alerts
  }

  function DbAfter(db: Db, a: Action): Db {
    match a
    case Write(c, eventId, at) => WriteCandidate(db, c, eventId, at).0
    case Delete(id, _) =>
      db.(alerts := AlertsAfter(db, a), events := map e | e in db.events && db.events[e].alertId != id :: db.events[e])
    case DeleteUser(userId) =>
      var alerts := AlertsAfter(db, a);
      db.(alerts := alerts,
          events := map e | e in db.events && db.events[e].userId != userId && db.events[e].alertId in alerts ::
                      db.events[e])
    case Enqueue(key, payload, at) =>
      var rows := Outbox.EnqueueRow(db.outbox, key, payload, at);
      if rows.Some? then db.(outbox := rows.value) else db
    case _ => db.(alerts := AlertsAfter(db, a))
  }

  ghost function Step(w: World, a: Action): World {
    if !Enabled(w, a) then w
    else
      var db := DbAfter(w.db, a);
      World(db,
            w.snapshots + db.alerts.Values,
            if a.Write? && WriteCandidate(w.db, a.candidate, a.eventId, a.at).1.Created?
            then w.written + [EventOf(a.candidate, a.eventId)] else w.written)
  }

  ghost function Run(actions: seq<Action>): World {
    if actions == [] then World(Db(map[], map[], map[]), {}, [])
    else Step(Run(actions[..|actions| - 1]), actions[|actions| - 1])
  }

  // ---------------------------------------------------------------------------------
  // The invariant

  /** No snapshot is ahead of its row; one of the same generation has the row's whole definition but its owner. */
  ghost predicate AgreesWith(s: Alert, row: Alert) {
    && s.generation <= row.generation
    && s.tokenAddress == row.tokenAddress && s.thresholdType == row.thresholdType
    && s.notificationType == row.notificationType
    && (s.generation == row.generation ==> s.thresholdValue == row.thresholdValue && s.condition == row.condition)
  }

  ghost predicate SnapshotsAgree(w: World) {
    && (forall id <- w.db.alerts :: w.db.alerts[id].id == id && w.db.alerts[id] in w.snapshots)
    && (forall s <- w.snapshots :: s.id in w.db.alerts ==> AgreesWith(s, w.db.alerts[s.id]))
  }

  /** An event belongs to a generation its alert has reached; if that is the current one, the alert has fired. */
  ghost predicate EventsFenced(w: World) {
    forall e <- w.written ::
      && (exists s <- w.snapshots :: s.id == e.alertId)
      && (e.alertId in w.db.alerts ==>
            && e.generation <= w.db.alerts[e.alertId].generation
            && (e.generation == w.db.alerts[e.alertId].generation ==> w.db.alerts[e.alertId].triggered))
  }

  ghost predicate OncePerGeneration(w: World) {
    forall i, j :: 0 <= i < j < |w.written| ==>
      && w.written[i].id != w.written[j].id
      && (w.written[i].alertId != w.written[j].alertId || w.written[i].generation != w.written[j].generation)
  }

  ghost function KeysOf(e: AlertEvent): set<Key> {
    {NotificationKey(e.id, e.notificationType), TriggeredKey(e.id), IndexKey(e.id)}
  }

  /** Of the event-keyed rows, the outbox holds exactly the three of each event ever written. */
  ghost predicate OutboxExact(w: World) {
    EventRows(w.db.outbox) == set e, k | e in w.written && k in KeysOf(e) :: k
  }

  ghost function EventRows(outbox: OutboxRows): set<Key> { set k | k in outbox && EventKeyed(k) }

  ghost predicate EventsRecorded(w: World) {
    forall id <- w.db.events :: w.db.events[id].id == id && w.db.events[id] in w.written
  }

  ghost predicate Invariant(w: World) {
    SnapshotsAgree(w) && EventsFenced(w) && OncePerGeneration(w) && OutboxExact(w) && EventsRecorded(w)
  }

  // ---------------------------------------------------------------------------------
  // Keys of different events differ

  lemma PrefixedInjective(prefix: string, a: Uuid, x: string, b: Uuid, y: string)
    requires prefix + a + ":" + x == prefix + b + ":" + y
    ensures a == b && x == y
  {
    var s, n := prefix + a + ":" + x, |prefix|;
    var u, v := a + ":" + x, b + ":" + y;
    assert s == prefix + u && s == prefix + v;
    assert u == s[n..] && v == s[n..];
    assert forall i :: 0 <= i < |a| ==> u[i] == a[i] && a[i] in a;
    assert forall i :: 0 <= i < |b| ==> v[i] == b[i] && b[i] in b;
    assert u[|a|] == ':' && v[|b|] == ':';
    assert a == u[..|a|] && b == v[..|b|];
    assert x == u[|a| + 1..] && y == v[|b| + 1..];
  }

  lemma KeysDistinct(e: AlertEvent, f: AlertEvent)
    requires e.id != f.id
    ensures KeysOf(e) !! KeysOf(f)
  {
    if NotificationKey(e.id, e.notificationType) == NotificationKey(f.id, f.notificationType) {
      PrefixedInjective(NOTIFICATION_PREFIX, e.id, e.notificationType, f.id, f.notificationType);
    }
    assert forall id: Uuid :: TriggeredKey(id).eventKey[|TRIGGERED_PREFIX|..] == id;
    assert forall id: Uuid :: IndexKey(id).eventKey[|INDEX_PREFIX|..] == id;
    StreamsDistinct();
  }

  lemma EventKeys(e: AlertEvent)
    ensures forall k <- KeysOf(e) :: EventKeyed(k)
  {
    assert NOTIFICATION_PREFIX <= NotificationKey(e.id, e.notificationType).eventKey;
  }

  lemma StreamsDistinct()
    ensures NOTIFICATIONS_PENDING != ALERTS_TRIGGERED && ALERTS_TRIGGERED != ALERT_INDEX_UPDATES
            && NOTIFICATIONS_PENDING != ALERT_INDEX_UPDATES
  {
    assert NOTIFICATIONS_PENDING[0] == 'n' && ALERTS_TRIGGERED[0] == 'a' && ALERT_INDEX_UPDATES[0] == 'a';
    assert ALERTS_TRIGGERED[7] == 't' && ALERT_INDEX_UPDATES[7] == 'i';
  }

  // ---------------------------------------------------------------------------------
  // Every step keeps the invariant

  function PendingRow(payload: Payload, at: int): Outbox.Row<Payload> {
    Outbox.Row(payload, Outbox.Pending, 0, at, None, None, at)
  }

  /** The outbox with a pending row for each of an event's three messages. */
  function WithMessages(outbox: OutboxRows, c: Candidate, eventId: Uuid, at: int): OutboxRows {
    var job := NewJob(c, eventId);
    outbox[NotificationKey(eventId, c.snapshot.notificationType) := PendingRow(NotificationJob(job), at)]
          [TriggeredKey(eventId) := PendingRow(TriggeredNotice(job, c.sourceEventId), at)]
          [IndexKey(eventId) := PendingRow(IndexUpdate(c.snapshot.id, c.snapshot.tokenAddress), at)]
  }

  /** With a fresh event identifier the three outbox rows are new, so no insert conflicts. */
  lemma EnqueueFresh(w: World, c: Candidate, eventId: Uuid, at: int)
    requires OutboxExact(w) && forall e <- w.written :: e.id != eventId
    ensures EnqueueAll(w.db.outbox, c, eventId, at).Some?
    ensures EnqueueAll(w.db.outbox, c, eventId, at).value.Keys == w.db.outbox.Keys + KeysOf(EventOf(c, eventId))
    ensures EnqueueAll(w.db.outbox, c, eventId, at).value == WithMessages(w.db.outbox, c, eventId, at)
  {
    var event := EventOf(c, eventId);
    forall e | e in w.written
      ensures KeysOf(e) !! KeysOf(event)
    {
      KeysDistinct(e, event);
    }
    EventKeys(event);
    forall k | k in KeysOf(event)
      ensures k !in w.db.outbox
    {
      assert k in EventRows(w.db.outbox) <==> k in w.db.outbox;
    }
    StreamsDistinct();
  }

  /** The row after a step, if the step keeps it: same definition unless the generation grows, fired until it grows. */
  ghost predicate Advances(before: Alert, after: Alert) {
    && after.id == before.id
    && AgreesWith(before, after)
    && (after.generation == before.generation && before.triggered ==> after.triggered)
  }

  lemma {:induction false} RowsAdvance(w: World, a: Action)
    requires Invariant(w) && Enabled(w, a)
    ensures var alerts := DbAfter(w.db, a).alerts;
            forall id <- alerts :: alerts[id].id == id && (id in w.db.alerts ==> Advances(w.db.alerts[id], alerts[id]))
                                   && (id !in w.db.alerts ==> forall s <- w.snapshots :: s.id != id)
  {
    hide EventsFenced, OncePerGeneration, OutboxExact, EventsRecorded, EnqueueAll;
  }

  lemma SnapshotsKeep(w: World, a: Action)
    requires Invariant(w) && Enabled(w, a)
    ensures SnapshotsAgree(Step(w, a))
  {
    hide EventsFenced, OncePerGeneration, OutboxExact, EventsRecorded, DbAfter;
    RowsAdvance(w, a);
    var after := Step(w, a);
    forall s | s in after.snapshots && s.id in after.db.alerts
      ensures AgreesWith(s, after.db.alerts[s.id])
    {
      if s in w.snapshots {
        assert s.id in w.db.alerts;
      }
    }
  }

  lemma WriteAdds(w: World, c: Candidate, eventId: Uuid, at: int)
    requires Invariant(w) && Enabled(w, Write(c, eventId, at)) && WriteCandidate(w.db, c, eventId, at).1.Created?
    ensures var event, after := EventOf(c, eventId), Step(w, Write(c, eventId, at));
            && Fenced(w.db, c)
            && event.alertId == c.snapshot.id && event.id == eventId && event.generation == c.snapshot.generation
            && after.written == w.written + [event]
            && after.db.events == w.db.events[eventId := event]
            && after.db.outbox.Keys == w.db.outbox.Keys + KeysOf(event)
            && after.db.alerts[c.snapshot.id].triggered
            && after.db.alerts[c.snapshot.id].generation == c.snapshot.generation
            && forall id <- after.db.alerts ::
                 id in w.db.alerts && (id != c.snapshot.id ==> after.db.alerts[id] == w.db.alerts[id])
  {
    hide EnqueueAll, KeysOf, EventsFenced, OncePerGeneration, EventsRecorded, AgreesWith;
    EnqueueFresh(w, c, eventId, at);
  }

  ghost predicate WroteOne(w: World, after: World, event: AlertEvent) {
    && after.written == w.written + [event]
    && after.db.events == w.db.events[event.id := event]
    && after.db.outbox.Keys == w.db.outbox.Keys + KeysOf(event)
    && (forall id <- after.db.alerts ::
          id in w.db.alerts && (id != event.alertId ==> after.db.alerts[id] == w.db.alerts[id]))
    && event.alertId in w.db.alerts && w.db.alerts[event.alertId].generation == event.generation
    && !w.db.alerts[event.alertId].triggered
    && (event.alertId in after.db.alerts ==>
          after.db.alerts[event.alertId].triggered && after.db.alerts[event.alertId].generation == event.generation)
  }

  /** The event just written is the first of its alert and generation: the row had not fired in it. */
  lemma FirstOfGeneration(w: World, after: World, event: AlertEvent)
    requires EventsFenced(w) && OncePerGeneration(w) && WroteOne(w, after, event)
    requires forall e <- w.written :: e.id != event.id
    ensures OncePerGeneration(after)
  {
    hide KeysOf;
    forall e | e in w.written
      ensures e.alertId != event.alertId || e.generation != event.generation
    {
    }
  }

  lemma OutboxGrows(w: World, after: World, event: AlertEvent)
    requires OutboxExact(w) && WroteOne(w, after, event)
    ensures OutboxExact(after)
  {
    hide KeysOf, EventKeyed;
    EventKeys(event);
    forall k
      ensures k in EventRows(after.db.outbox) <==> exists e :: e in after.written && k in KeysOf(e)
    {
      assert k in EventRows(after.db.outbox) <==> k in EventRows(w.db.outbox) || k in KeysOf(event);
      if k in EventRows(w.db.outbox) {
        var e :| e in w.written && k in KeysOf(e);
        assert e in after.written;
      }
      if k in KeysOf(event) { assert event in after.written; }
    }
  }

  lemma FiredStays(w: World, after: World, event: AlertEvent)
    requires EventsFenced(w) && WroteOne(w, after, event) && w.snapshots <= after.snapshots
    requires exists s <- w.snapshots :: s.id == event.alertId
    ensures EventsFenced(after)
  {
    hide KeysOf;
    forall e | e in after.written
      ensures exists s <- after.snapshots :: s.id == e.alertId
    {
      var s :| s in w.snapshots && s.id == e.alertId;
      assert s in after.snapshots;
    }
  }

  lemma WriteKeeps(w: World, c: Candidate, eventId: Uuid, at: int)
    requires Invariant(w) && Enabled(w, Write(c, eventId, at)) && WriteCandidate(w.db, c, eventId, at).1.Created?
    ensures Invariant(Step(w, Write(c, eventId, at)))
  {
    hide EnqueueAll, KeysOf, WriteCandidate, AgreesWith, DbAfter;
    var event, after := EventOf(c, eventId), Step(w, Write(c, eventId, at));
    SnapshotsKeep(w, Write(c, eventId, at));
    WriteAdds(w, c, eventId, at);
    assert WroteOne(w, after, event);
    FirstOfGeneration(w, after, event);
    OutboxGrows(w, after, event);
    FiredStays(w, after, event);
    assert event in after.written;
  }

  lemma StepKeeps(w: World, a: Action)
    requires Invariant(w)
    ensures Invariant(Step(w, a))
  {
    hide EnqueueAll, KeysOf, AgreesWith;
    if Enabled(w, a) {
      if a.Write? && WriteCandidate(w.db, a.candidate, a.eventId, a.at).1.Created? {
        WriteKeeps(w, a.candidate, a.eventId, a.at);
      } else {
        SnapshotsKeep(w, a);
        RowsAdvance(w, a);
        UnwrittenKeeps(w, a);
      }
    }
  }

  lemma UnwrittenKeeps(w: World, a: Action)
    requires Invariant(w) && Enabled(w, a)
    requires a.Write? ==> !WriteCandidate(w.db, a.candidate, a.eventId, a.at).1.Created?
    ensures var after := Step(w, a);
            EventsFenced(after) && OncePerGeneration(after) && OutboxExact(after) && EventsRecorded(after)
  {
    hide EnqueueAll, KeysOf, EditAlert, EventKeyed;
    RowsAdvance(w, a);
    var after := Step(w, a);
    assert after.written == w.written && (!a.Enqueue? ==> after.db.outbox == w.db.outbox);
    assert EventRows(after.db.outbox) == EventRows(w.db.outbox);
    forall e | e in after.written
      ensures exists s <- after.snapshots :: s.id == e.alertId
      ensures e.alertId in after.db.alerts ==> e.alertId in w.db.alerts
    {
      var s :| s in w.snapshots && s.id == e.alertId;
      assert s in after.snapshots;
    }
  }

  lemma {:induction false} RunKeeps(actions: seq<Action>)
    ensures Invariant(Run(actions))
  {
    hide Step, Invariant;
    if actions != [] {
      RunKeeps(actions[..|actions| - 1]);
      StepKeeps(Run(actions[..|actions| - 1]), actions[|actions| - 1]);
    } else {
      StartInvariant();
    }
  }

  lemma StartInvariant()
    ensures Invariant(Run([]))
  {
  }

  // ---------------------------------------------------------------------------------
  // Main results

  /**
   * In every interleaving of redeliveries, crashes, edits, re-arms, deletions, owner merges,
   * deleted users and other producers of the outbox, each alert and generation has at most one
   * alert event, and of the event-keyed rows the outbox holds exactly three per event, no two
   * events sharing a row.
   */
  lemma {:induction false} OneEventPerGeneration(actions: seq<Action>)
    ensures var w := Run(actions);
            && (forall i, j :: 0 <= i < j < |w.written| ==>
                  && (w.written[i].alertId != w.written[j].alertId
                      || w.written[i].generation != w.written[j].generation)
                  && KeysOf(w.written[i]) !! KeysOf(w.written[j]))
            && EventRows(w.db.outbox) == set e, k | e in w.written && k in KeysOf(e) :: k
  {
    hide Run, KeysOf;
    RunKeeps(actions);
    var w := Run(actions);
    forall i, j | 0 <= i < j < |w.written|
      ensures KeysOf(w.written[i]) !! KeysOf(w.written[j])
    {
      KeysDistinct(w.written[i], w.written[j]);
    }
  }

  /** Any past version of a row that has the row's generation has its threshold and condition. */
  lemma {:induction false} SnapshotsNeverDisagree(actions: seq<Action>, s: Alert)
    requires s in Run(actions).snapshots && s.id in Run(actions).db.alerts
    requires s.generation == Run(actions).db.alerts[s.id].generation
    ensures var row := Run(actions).db.alerts[s.id];
            && s.thresholdValue == row.thresholdValue && s.condition == row.condition
            && s.tokenAddress == row.tokenAddress && s.thresholdType == row.thresholdType
            && s.notificationType == row.notificationType
  {
    hide Run;
    RunKeeps(actions);
  }

  /**
   * What becomes of a candidate from any past snapshot: it is stale exactly when the fence is
   * closed, and past the fence it creates its event exactly when the owner has not been merged
   * away, its value fits the column and its idempotency key is unused. Without a created event
   * nothing changes.
   */
  lemma CandidateOutcome(actions: seq<Action>, c: Candidate, eventId: Uuid, at: int)
    requires Enabled(Run(actions), Write(c, eventId, at))
    ensures var db := Run(actions).db;
            var (after, result) := WriteCandidate(db, c, eventId, at);
            && (result.Stale? <==>
                || c.snapshot.id !in db.alerts
                || db.alerts[c.snapshot.id].generation != c.snapshot.generation
                || !db.alerts[c.snapshot.id].active
                || db.alerts[c.snapshot.id].triggered)
            && (result.Created? <==>
                && !result.Stale? && db.alerts[c.snapshot.id].userId == c.snapshot.userId
                && -1_000_000_000_000_000_000.0 < Stored(c.currentValue) < 1_000_000_000_000_000_000.0
                && forall e <- db.events.Values :: e.idempotencyKey != c.idempotencyKey)
            && (!result.Created? ==> after == db)
            && (result.Created? ==> after.alerts[c.snapshot.id].triggered && !after.alerts[c.snapshot.id].active)
  {
    hide Run, EnqueueAll, KeysOf, EventsFenced, OncePerGeneration;
    RunKeeps(actions);
    EnqueueFresh(Run(actions), c, eventId, at);
    StoredExactly(c.currentValue);
    if Fenced(Run(actions).db, c) {
      SnapshotsNeverDisagree(actions, c.snapshot);
    }
  }

  /**
   * What becomes of any candidate in any database: past the fence it creates its event exactly when
   * the row is still what was matched, event and key are new, the value fits its column and none of
   * its three messages meets another one under its key.
   */
  lemma CreatedExactly(db: Db, c: Candidate, eventId: Uuid, at: int)
    ensures var (after, result) := WriteCandidate(db, c, eventId, at);
            && (result.Stale? <==>
                || c.snapshot.id !in db.alerts
                || db.alerts[c.snapshot.id].generation != c.snapshot.generation
                || !db.alerts[c.snapshot.id].active
                || db.alerts[c.snapshot.id].triggered)
            && (result.Created? <==>
                && !result.Stale?
                && var row := db.alerts[c.snapshot.id];
                   && row.userId == c.snapshot.userId && row.tokenAddress == c.snapshot.tokenAddress
                   && row.thresholdType == c.snapshot.thresholdType && row.thresholdValue == c.snapshot.thresholdValue
                   && row.condition == c.snapshot.condition && row.notificationType == c.snapshot.notificationType
                   && eventId !in db.events && (forall e <- db.events.Values :: e.idempotencyKey != c.idempotencyKey)
                   && -1_000_000_000_000_000_000.0 < Stored(c.currentValue) < 1_000_000_000_000_000_000.0
                   && EnqueueAll(db.outbox, c, eventId, at).Some?)
            && (!result.Created? ==> after == db)
  {
    hide Stored, EnqueueAll;
    StoredExactly(c.currentValue);
  }

  /** When a statement can happen: edits and deletions by the owner, writes of what was once a row under a new event. */
  lemma EnabledExactly(w: World, a: Action)
    ensures Enabled(w, a) <==>
            match a
            case Insert(alert) =>
              alert.active && !alert.triggered && alert.generation == 1 && forall s <- w.snapshots :: s.id != alert.id
            case Update(id, userId, _) => id in w.db.alerts && w.db.alerts[id].userId == userId
            case Delete(id, userId) => id in w.db.alerts && w.db.alerts[id].userId == userId
            case MergeOwner(_, _) => true
            case DeleteUser(_) => true
            case Write(c, eventId, _) => c.snapshot in w.snapshots && forall e <- w.written :: e.id != eventId
            case Enqueue(key, _, _) =>
              && !(key.stream == "notifications.pending" && "alert-notification:" <= key.eventKey)
              && !(key.stream == "alerts.triggered" && "alert-triggered:" <= key.eventKey)
              && !(key.stream == "alerts.index_updates" && "alert-triggered-index:" <= key.eventKey)
  {
  }

  /** What a row keeps and what an edit of it changes. */
  ghost predicate Edited(before: Alert, after: Alert, edit: Edit) {
    var moves := edit.thresholdValue.Some? || edit.condition.Some? || edit.isActive == Some(true);
    && after.id == before.id && after.userId == before.userId && after.tokenAddress == before.tokenAddress
    && after.thresholdType == before.thresholdType && after.notificationType == before.notificationType
    && after.thresholdValue == (if edit.thresholdValue.Some? then edit.thresholdValue.value else before.thresholdValue)
    && after.condition == (if edit.condition.Some? then edit.condition.value else before.condition)
    && after.active == (if edit.isActive.Some? then edit.isActive.value else before.active)
    && after.triggered == (before.triggered && edit.isActive != Some(true))
    && after.generation == before.generation + (if moves then 1 else 0)
  }

  /** The statements besides the candidate's transaction: which rows each touches, and what becomes of them. */
  lemma StatementsMean(w: World, a: Action)
    requires Enabled(w, a)
    ensures var (before, after) := (w.db, Step(w, a).db);
            match a
            case Insert(alert) => after == before.(alerts := before.alerts[alert.id := alert])
            case Update(id, userId, edit) =>
              && id in before.alerts && before.alerts[id].userId == userId && id in after.alerts
              && after == before.(alerts := before.alerts[id := after.alerts[id]])
              && Edited(before.alerts[id], after.alerts[id], edit)
            case Delete(id, userId) =>
              && id in before.alerts && before.alerts[id].userId == userId && after.outbox == before.outbox
              && after.alerts == before.alerts - {id}
              && (forall e <- before.events :: e in after.events <==> before.events[e].alertId != id)
              && (forall e <- after.events :: e in before.events && after.events[e] == before.events[e])
            case MergeOwner(to, from) =>
              && after.events == before.events && after.outbox == before.outbox
              && after.alerts.Keys == before.alerts.Keys
              && forall id <- before.alerts ::
                   after.alerts[id] == before.alerts[id].(userId := if before.alerts[id].userId == from then to
                                                                    else before.alerts[id].userId)
            case DeleteUser(userId) =>
              && after.outbox == before.outbox
              && (forall id <- before.alerts :: id in after.alerts <==> before.alerts[id].userId != userId)
              && (forall id <- after.alerts :: id in before.alerts && after.alerts[id] == before.alerts[id])
              && (forall e <- before.events ::
                    e in after.events <==>
                    before.events[e].userId != userId && before.events[e].alertId in after.alerts)
              && (forall e <- after.events :: e in before.events && after.events[e] == before.events[e])
            case Write(_, _, _) => true
            case Enqueue(key, payload, at) =>
              && after.alerts == before.alerts && after.events == before.events
              && after.outbox == (if key in before.outbox then before.outbox
                                  else before.outbox[key := Outbox.Row(payload, Outbox.Pending, 0, at, None, None, at)])
  {
    hide EnqueueAll, EventKeyed;
  }

  // ---------------------------------------------------------------------------------
  // Paused alerts

  /** The row is gone or not active. */
  ghost predicate Paused(w: World, id: Uuid) { id in w.db.alerts ==> !w.db.alerts[id].active }

  ghost predicate Known(w: World, id: Uuid) { exists s <- w.snapshots :: s.id == id }

  ghost predicate Rearms(a: Action, id: Uuid) { a.Update? && a.id == id && a.edit.isActive == Some(true) }

  lemma PauseStays(w: World, a: Action, id: Uuid)
    requires Invariant(w) && Paused(w, id) && Known(w, id) && !Rearms(a, id)
    ensures Paused(Step(w, a), id) && Known(Step(w, a), id)
  {
    hide EventsFenced, OncePerGeneration, OutboxExact, EventsRecorded, EnqueueAll, Storable, Stored;
    var s :| s in w.snapshots && s.id == id;
    assert s in Step(w, a).snapshots;
  }

  lemma {:induction false} StillPaused(actions: seq<Action>, i: nat, j: nat, id: Uuid)
    requires i < j <= |actions| && Paused(Run(actions[..i + 1]), id) && Known(Run(actions[..i + 1]), id)
    requires forall k :: i < k < j ==> !Rearms(actions[k], id)
    ensures Paused(Run(actions[..j]), id) && Known(Run(actions[..j]), id)
  {
    hide Paused, Known, Step;
    if j > i + 1 {
      StillPaused(actions, i, j - 1, id);
      assert actions[..j][..j - 1] == actions[..j - 1];
      RunKeeps(actions[..j - 1]);
      PauseStays(Run(actions[..j - 1]), actions[j - 1], id);
    }
  }

  /**
   * A paused alert does not fire: after its owner has switched it off, and until it is switched
   * on again, every candidate of it is stale, whatever else happens, and changes nothing.
   */
  lemma PausedNeverFires(actions: seq<Action>, i: nat, j: nat)
    requires i < j < |actions| && actions[i].Update? && Enabled(Run(actions[..i]), actions[i])
    requires actions[i].edit.isActive == Some(false)
    requires forall k :: i < k < j ==> !Rearms(actions[k], actions[i].id)
    requires actions[j].Write? && actions[j].candidate.snapshot.id == actions[i].id
    ensures Run(actions[..j + 1]).db == Run(actions[..j]).db
    ensures Run(actions[..j + 1]).written == Run(actions[..j]).written
    ensures WriteCandidate(Run(actions[..j]).db, actions[j].candidate, actions[j].eventId, actions[j].at).1 == Stale
  {
    hide Run, EnqueueAll, Storable, Stored;
    var id := actions[i].id;
    SwitchedOff(actions, i);
    StillPaused(actions, i, j, id);
    NextRun(actions, j);
  }

  lemma NextRun(actions: seq<Action>, j: nat)
    requires j < |actions|
    ensures Run(actions[..j + 1]) == Step(Run(actions[..j]), actions[j])
  {
    assert actions[..j + 1][..j] == actions[..j];
  }

  lemma SwitchedOff(actions: seq<Action>, i: nat)
    requires i < |actions| && actions[i].Update? && Enabled(Run(actions[..i]), actions[i])
    requires actions[i].edit.isActive == Some(false)
    ensures Paused(Run(actions[..i + 1]), actions[i].id) && Known(Run(actions[..i + 1]), actions[i].id)
  {
    hide Run;
    NextRun(actions, i);
    RunKeeps(actions[..i]);
    var w, id := Run(actions[..i]), actions[i].id;
    assert w.db.alerts[id] in w.snapshots && w.db.alerts[id].id == id;
  }

  /**
   * A created event carries the definition of the row it fired, owner included; the row is spent,
   * and its three messages are pending under keys nothing else has.
   */
  ghost predicate FiredFrom(db: Db, after: Db, c: Candidate, eventId: Uuid, at: int) {
    && c.snapshot.id in db.alerts && eventId !in db.events && eventId in after.events
    && var row, event := db.alerts[c.snapshot.id], after.events[eventId];
       && after.alerts == db.alerts[row.id := row.(triggered := true, active := false)]
       && after.events == db.events[eventId := event]
       && event.id == eventId && event.alertId == row.id && event.userId == row.userId
       && event.generation == row.generation
       && event.tokenAddress == row.tokenAddress && event.thresholdType == row.thresholdType
       && event.thresholdValue == row.thresholdValue && event.condition == row.condition
       && event.notificationType == row.notificationType
       && event.currentValue == Stored(c.currentValue) && event.idempotencyKey == c.idempotencyKey
       && event.sourceEventId == c.sourceEventId
       && after.outbox == WithMessages(db.outbox, c, eventId, at)
       && Announced(db.outbox, after.outbox, event, c.currentValue, at)
  }

  /** The outbox gains three pending rows: the notification, the notice and the index update of an event. */
  ghost predicate Announced(before: OutboxRows, after: OutboxRows, e: AlertEvent, value: real, at: int) {
    var job := Job(e.id, e.alertId, e.userId, e.tokenAddress, value, e.notificationType, e.idempotencyKey);
    after ==
    before[Outbox.Key("notifications.pending", "alert-notification:" + e.id + ":" + e.notificationType)
             := Outbox.Row(NotificationJob(job), Outbox.Pending, 0, at, None, None, at)]
          [Outbox.Key("alerts.triggered", "alert-triggered:" + e.id)
             := Outbox.Row(TriggeredNotice(job, e.sourceEventId), Outbox.Pending, 0, at, None, None, at)]
          [Outbox.Key("alerts.index_updates", "alert-triggered-index:" + e.id)
             := Outbox.Row(IndexUpdate(e.alertId, e.tokenAddress), Outbox.Pending, 0, at, None, None, at)]
  }

  lemma {:induction false} CreatedEffect(actions: seq<Action>, c: Candidate, eventId: Uuid, at: int)
    requires Enabled(Run(actions), Write(c, eventId, at))
    ensures var (after, result) := WriteCandidate(Run(actions).db, c, eventId, at);
            result.Created? ==> FiredFrom(Run(actions).db, after, c, eventId, at)
  {
    hide Run, EnqueueAll, WithMessages, KeysOf, EventsFenced, OncePerGeneration, Announced, Stored;
    RunKeeps(actions);
    EnqueueFresh(Run(actions), c, eventId, at);
    MessagesMean(Run(actions).db.outbox, c, eventId, at);
  }

  lemma MessagesMean(outbox: OutboxRows, c: Candidate, eventId: Uuid, at: int)
    ensures Announced(outbox, WithMessages(outbox, c, eventId, at), EventOf(c, eventId), c.currentValue, at)
  {
  }
}
