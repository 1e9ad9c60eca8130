/** Alerts, the outbox, its workers, the deliveries and their retries on one database: what of an alert is sent. */
module AlertPipeline {
  import opened Common
  import Outbox
  import opened AlertFence
  import opened NotificationDelivery
  import DeliveryFence
  import opened DeliveryRetries

  /** The fence's outbox and the rows the outbox workers see are one table. */
  datatype System = System(fence: AlertFence.World, queue: Outbox.World<Payload>, desk: DeliveryFence.Desk)

  /**
   * A transaction on the alerts, an insert by a producer that has nothing to do with alerts, a
   * step of an outbox worker, a step of a notification worker, or a retry scan.
   */
  datatype Move =
    | Alerting(action: AlertFence.Action)
    | Producing(key: Key, text: string, at: int)
    | Working(work: Outbox.Action<Payload>)
    | Delivering(step: DeliveryFence.Work)
    | Retrying(picks: seq<Uuid>, at: int)

  /** Orders and executions have streams of their own. */
  predicate Foreign(k: Key) { k.stream !in {NOTIFICATIONS_PENDING, ALERTS_TRIGGERED, ALERT_INDEX_UPDATES} }

  ghost predicate Arrived(entries: seq<Outbox.Entry<Payload>>, job: Job) {
    exists e <- entries :: e.key.stream == NOTIFICATIONS_PENDING && e.payload == NotificationJob(job)
  }

  function WithRows(s: System, rows: OutboxRows): System {
    s.(fence := s.fence.(db := s.fence.db.(outbox := rows)), queue := s.queue.(rows := rows))
  }

  ghost predicate Possible(s: System, m: Move) {
    match m
    case Alerting(action) => !action.Enqueue?
    case Producing(key, _, _) => Foreign(key)
    case Working(work) => !work.Enqueue?
    case Delivering(step) => step.BeginWork? ==> Arrived(s.queue.entries, step.job)
    case Retrying(picks, at) => Picked(Reaped(s.desk.tables, at), s.fence.db.events, picks, at)
  }

  ghost function After(s: System, m: Move, maxAttempts: nat): System
    requires Possible(s, m)
  {
    match m
    case Alerting(action) =>
      var fence := AlertFence.Step(s.fence, action);
      System(fence, s.queue.(rows := fence.db.outbox),
             s.desk.(tables := Cascade(s.desk.tables, fence.db.events)))
    case Producing(key, text, at) =>
      var rows := Outbox.EnqueueRow(s.queue.rows, key, Other(text), at);
      if rows.Some? then WithRows(s, rows.value) else s
    case Working(work) =>
      var queue := Outbox.Step(s.queue, work, maxAttempts);
      WithRows(s, queue.rows).(queue := queue)
    case Delivering(step) => s.(desk := DeliveryFence.Step(s.desk, s.fence.db.events, step))
    case Retrying(picks, at) =>
      match Republish(s.desk.tables, s.fence.db.events, s.queue.rows, picks, at)
      case Some((tables, rows)) => WithRows(s, rows).(desk := s.desk.(tables := tables))
      case None => s
  }

  ghost function Step(s: System, m: Move, maxAttempts: nat): System {
    if Possible(s, m) then After(s, m, maxAttempts) else s
  }

  ghost function Run(moves: seq<Move>, maxAttempts: nat): System {
    if moves == [] then System(AlertFence.Run([]), Outbox.Run([], maxAttempts), DeliveryFence.NOBODY)
    else Step(Run(moves[..|moves| - 1], maxAttempts), moves[|moves| - 1], maxAttempts)
  }

  // ---------------------------------------------------------------------------------
  // The invariant

  /** A job about an event: all its fields, and a value that is stored as the event's. */
  predicate JobOf(e: AlertEvent, job: Job) {
    Stored(job.currentValue) == e.currentValue && job.(currentValue := e.currentValue) == StoredJob(e)
  }

  /** A message about an event: its own notification, or a retry that repeats the stored event. */
  predicate JobUnder(e: AlertEvent, k: Key, payload: Payload) {
    && payload.NotificationJob? && JobOf(e, payload.job)
    && (k == NotificationKey(e.id, e.notificationType) || (RetryKeyed(k) && payload.job == StoredJob(e)))
  }

  ghost predicate JobsExact(written: seq<AlertEvent>, rows: OutboxRows) {
    forall k <- rows :: k.stream == NOTIFICATIONS_PENDING ==> JobKnown(written, k, rows[k].payload)
  }

  ghost predicate JobKnown(written: seq<AlertEvent>, k: Key, payload: Payload) {
    exists e <- written :: JobUnder(e, k, payload)
  }

  /** The event's own notification repeats the stored event: its value survived storage. */
  ghost predicate Kept(written: seq<AlertEvent>, rows: OutboxRows, eventId: Uuid) {
    exists e <- written :: e.id == eventId && KeptRow(rows, e)
  }

  predicate KeptRow(rows: OutboxRows, e: AlertEvent) {
    var k := NotificationKey(e.id, e.notificationType);
    k in rows && rows[k].payload == NotificationJob(StoredJob(e))
  }

  /** Deliveries, claims and retries are of events whose value survived storage. */
  ghost predicate ValuesKept(s: System) {
    var written, rows := s.fence.written, s.queue.rows;
    && (forall id <- s.desk.tables.deliveries :: Kept(written, rows, s.desk.tables.deliveries[id].eventId))
    && (forall token <- s.desk.tickets :: Kept(written, rows, s.desk.tickets[token].eventId))
    && (forall k <- rows :: RetryKeyed(k) && rows[k].payload.NotificationJob? ==>
          Kept(written, rows, rows[k].payload.job.eventId))
  }

  ghost predicate Sound(s: System, maxAttempts: nat) {
    && s.fence.db.outbox == s.queue.rows
    && AlertFence.Invariant(s.fence)
    && Outbox.Invariant(s.queue, maxAttempts)
    && DeliveryFence.Invariant(s.desk, s.fence.db.events)
    && RetriesBehind(s.desk, s.queue.rows.Keys)
    && JobsExact(s.fence.written, s.queue.rows)
    && ValuesKept(s)
  }

  // ---------------------------------------------------------------------------------
  // What new rows and new events keep

  /** Rows are added and keep their payloads; events are added. */
  ghost predicate Extends(written: seq<AlertEvent>, rows: OutboxRows, written': seq<AlertEvent>, rows': OutboxRows) {
    && (forall e <- written :: e in written')
    && (forall k <- rows :: k in rows' && rows'[k].payload == rows[k].payload)
  }

  lemma KeptStays(written: seq<AlertEvent>, rows: OutboxRows, written': seq<AlertEvent>, rows': OutboxRows, id: Uuid)
    requires Extends(written, rows, written', rows') && Kept(written, rows, id)
    ensures Kept(written', rows', id)
  {
    var e :| e in written && e.id == id && KeptRow(rows, e);
    assert e in written' && KeptRow(rows', e);
  }

  lemma JobStays(written: seq<AlertEvent>, written': seq<AlertEvent>, k: Key, payload: Payload)
    requires JobKnown(written, k, payload) && forall e <- written :: e in written'
    ensures JobKnown(written', k, payload)
  {
    var e :| e in written && JobUnder(e, k, payload);
    assert e in written';
  }

  /** New rows of the notification stream need their event, and new retries one whose value survived. */
  lemma RowsKeep(s: System, after: System)
    requires JobsExact(s.fence.written, s.queue.rows) && ValuesKept(s)
    requires Extends(s.fence.written, s.queue.rows, after.fence.written, after.queue.rows)
    requires forall k <- after.queue.rows :: k !in s.queue.rows && k.stream == NOTIFICATIONS_PENDING ==>
               JobKnown(after.fence.written, k, after.queue.rows[k].payload)
    requires forall k <- after.queue.rows ::
               k !in s.queue.rows && RetryKeyed(k) && after.queue.rows[k].payload.NotificationJob? ==>
                 Kept(after.fence.written, after.queue.rows, after.queue.rows[k].payload.job.eventId)
    requires forall id <- after.desk.tables.deliveries ::
               Kept(s.fence.written, s.queue.rows, after.desk.tables.deliveries[id].eventId)
    requires forall token <- after.desk.tickets ::
               Kept(s.fence.written, s.queue.rows, after.desk.tickets[token].eventId)
    ensures JobsExact(after.fence.written, after.queue.rows) && ValuesKept(after)
  {
    hide Kept, JobKnown, RetryKeyed;
    var written, rows, written', rows' := s.fence.written, s.queue.rows, after.fence.written, after.queue.rows;
    forall id | Kept(written, rows, id)
      ensures Kept(written', rows', id)
    {
      KeptStays(written, rows, written', rows', id);
    }
    forall k, payload | JobKnown(written, k, payload)
      ensures JobKnown(written', k, payload)
    {
      JobStays(written, written', k, payload);
    }
  }

  lemma FenceRows(w: AlertFence.World, rows: OutboxRows)
    requires AlertFence.Invariant(w) && EventRows(rows) == EventRows(w.db.outbox)
    ensures AlertFence.Invariant(w.(db := w.db.(outbox := rows)))
  {
    hide AgreesWith, KeysOf, EventRows;
    var after := w.(db := w.db.(outbox := rows));
    assert SnapshotsAgree(after) && EventsFenced(after) && OncePerGeneration(after) && EventsRecorded(after);
    assert OutboxExact(after);
  }

  // ---------------------------------------------------------------------------------
  // Outbox workers and other producers

  /** A worker's step keeps every row's key and payload. */
  lemma WorkKeepsRows(w: Outbox.World<Payload>, work: Outbox.Action<Payload>, maxAttempts: nat)
    requires !work.Enqueue?
    ensures var rows := Outbox.Step(w, work, maxAttempts).rows;
            rows.Keys == w.rows.Keys && forall k <- rows :: rows[k].payload == w.rows[k].payload
  {
    hide Outbox.MarkerKey;
  }

  lemma WorkingKeeps(s: System, work: Outbox.Action<Payload>, maxAttempts: nat)
    requires Sound(s, maxAttempts) && !work.Enqueue?
    ensures Sound(Step(s, Working(work), maxAttempts), maxAttempts)
  {
    hide AlertFence.Invariant, Outbox.Invariant, DeliveryFence.Invariant, Outbox.Step, JobsExact, ValuesKept,
         EventKeyed, RetriesBehind, Kept, JobKnown;
    Outbox.StepKeeps(s.queue, work, maxAttempts);
    WorkKeepsRows(s.queue, work, maxAttempts);
    var after := Step(s, Working(work), maxAttempts);
    FenceRows(s.fence, after.queue.rows);
    DeskValues(s);
    RowsKeep(s, after);
  }

  lemma DeskValues(s: System)
    requires ValuesKept(s)
    ensures forall id <- s.desk.tables.deliveries ::
              Kept(s.fence.written, s.queue.rows, s.desk.tables.deliveries[id].eventId)
    ensures forall token <- s.desk.tickets :: Kept(s.fence.written, s.queue.rows, s.desk.tickets[token].eventId)
  {
    hide Kept;
  }

  lemma ProducingKeeps(s: System, key: Key, text: string, at: int, maxAttempts: nat)
    requires Sound(s, maxAttempts) && Foreign(key)
    ensures Sound(Step(s, Producing(key, text, at), maxAttempts), maxAttempts)
  {
    hide AlertFence.Invariant, Outbox.Invariant, DeliveryFence.Invariant, JobsExact, ValuesKept, RetriesBehind, Kept,
         JobKnown, RetryBehind;
    var after := Step(s, Producing(key, text, at), maxAttempts);
    EnqueueKeeps(s.queue, key, Other(text), at, maxAttempts);
    assert EventRows(after.queue.rows) == EventRows(s.queue.rows);
    FenceRows(s.fence, after.queue.rows);
    BehindAlso(s.desk, s.queue.rows.Keys, after.queue.rows.Keys);
    DeskValues(s);
    RowsKeep(s, after);
  }

  lemma EnqueueKeeps(q: Outbox.World<Payload>, k: Key, payload: Payload, at: int, maxAttempts: nat)
    requires Outbox.Invariant(q, maxAttempts)
    ensures var rows := Outbox.EnqueueRow(q.rows, k, payload, at);
            rows.Some? ==> Outbox.Invariant(q.(rows := rows.value), maxAttempts)
  {
    hide Outbox.Invariant;
    Outbox.StepKeeps(q, Outbox.Enqueue(k, payload, at), maxAttempts);
  }

  /** Keys that are no retries change nothing about retries. */
  lemma BehindAlso(d: DeliveryFence.Desk, keys: set<Key>, more: set<Key>)
    requires RetriesBehind(d, keys) && forall k <- more :: k in keys || !RetryKeyed(k)
    ensures RetriesBehind(d, more)
  {
    hide RetryBehind, RetryKeyed;
  }

  // ---------------------------------------------------------------------------------
  // Notification workers

  /** Where deliveries and tickets come from. */
  lemma DeskSources(d: DeliveryFence.Desk, events: Events, step: DeliveryFence.Work)
    requires forall id <- d.tables.deliveries :: id in d.known
    ensures var after := DeliveryFence.Step(d, events, step);
            && (forall id <- after.tables.deliveries ::
                  if id in d.tables.deliveries then
                    after.tables.deliveries[id].eventId == d.tables.deliveries[id].eventId
                  else step.BeginWork? && LoadContext(events, step.job).Loaded?
                       && after.tables.deliveries[id].eventId == step.job.eventId)
            && (forall token <- after.tickets ::
                  if token in d.tickets then after.tickets[token] == d.tickets[token]
                  else exists id <- d.tables.deliveries ::
                         after.tickets[token].eventId == d.tables.deliveries[id].eventId)
  {
    hide LoadContext, Finish, Expired, LiveAttempt, AttemptInserts, DeliveryKey;
    if DeliveryFence.Ready(d, step) {
      match step
      case BeginWork(_, _, _) =>
      case ClaimWork(_, _, _, _) =>
      case RefuseWork(_, _) =>
      case DeferWork(_, _) =>
      case DeferClaimWork(_, _) =>
      case CallWork(_) =>
      case ApplyWork(_, _, _) =>
      case CrashWork(_) =>
    }
  }

  /** A job that arrived and matches its event repeats it, so the event's value survived storage. */
  lemma ArrivedKept(s: System, maxAttempts: nat, job: Job)
    requires Sound(s, maxAttempts) && Arrived(s.queue.entries, job) && LoadContext(s.fence.db.events, job).Loaded?
    ensures Kept(s.fence.written, s.queue.rows, job.eventId)
  {
    hide DeliveryFence.Invariant, RetriesBehind, SnapshotsAgree, EventsFenced, OutboxExact, RetryKeyed, NotificationKey,
         Outbox.RowsLocked, Outbox.TasksExact, Outbox.EntriesCounted, Outbox.PublishedSent, Kept;
    var x :| x in s.queue.entries && x.key.stream == NOTIFICATIONS_PENDING && x.payload == NotificationJob(job);
    assert x.key in s.queue.rows && s.queue.rows[x.key].payload == x.payload;
    assert JobKnown(s.fence.written, x.key, x.payload);
    var e :| e in s.fence.written && JobUnder(e, x.key, x.payload);
    if x.key == NotificationKey(e.id, e.notificationType) {
      SameEvent(s.fence, e, job.eventId);
      KeptHere(s.fence.written, s.queue.rows, e);
    } else {
      assert RetryKeyed(x.key);
    }
  }

  /** The stored event of an identifier is the one that was written. */
  lemma SameEvent(w: AlertFence.World, e: AlertEvent, id: Uuid)
    requires OncePerGeneration(w) && EventsRecorded(w) && e in w.written && e.id == id && id in w.db.events
    ensures w.db.events[id] == e
  {
    var f := w.db.events[id];
    var i :| 0 <= i < |w.written| && w.written[i] == e;
    var j :| 0 <= j < |w.written| && w.written[j] == f;
    assert w.written[i].id == w.written[j].id;
  }

  lemma KeptHere(written: seq<AlertEvent>, rows: OutboxRows, e: AlertEvent)
    requires e in written && KeptRow(rows, e)
    ensures Kept(written, rows, e.id)
  {
  }

  lemma DeliveringKeeps(s: System, step: DeliveryFence.Work, maxAttempts: nat)
    requires Sound(s, maxAttempts) && Possible(s, Delivering(step))
    ensures Sound(Step(s, Delivering(step), maxAttempts), maxAttempts)
  {
    hide AlertFence.Invariant, Outbox.Invariant, DeliveryFence.Invariant, JobsExact, ValuesKept, RetriesBehind, Kept,
         DeliveryFence.Step, LoadContext, Arrived, JobKnown, RetriesAdvance;
    var after := Step(s, Delivering(step), maxAttempts);
    DeliveryFence.StepKeeps(s.desk, s.fence.db.events, step);
    DeskKnown(s.desk, s.fence.db.events);
    StepAdvances(s.desk, s.fence.db.events, step);
    BehindStays(s.desk, after.desk, s.queue.rows.Keys);
    DeskSources(s.desk, s.fence.db.events, step);
    DeskValues(s);
    if step.BeginWork? && LoadContext(s.fence.db.events, step.job).Loaded? { ArrivedKept(s, maxAttempts, step.job); }
    RowsKeep(s, after);
  }

  lemma DeskKnown(d: DeliveryFence.Desk, events: Events)
    requires DeliveryFence.Invariant(d, events)
    ensures forall id <- d.tables.deliveries :: id in d.known
    ensures forall id <- d.tables.deliveries :: d.tables.deliveries[id].eventId in events
  {
    hide DeliveryFence.TablesExact, DeliveryFence.LiveGuarded, DeliveryFence.OneLive, DeliveryFence.CallsApart;
  }

  // ---------------------------------------------------------------------------------
  // Retry scans

  lemma {:induction false} RetryRowsKeep(t: Tables, events: Events, q: Outbox.World<Payload>, picks: seq<Uuid>, at: int,
                                         maxAttempts: nat)
    requires Outbox.Invariant(q, maxAttempts) && HaveEvents(t, events, picks)
    ensures var rows := EnqueueRetries(t, events, q.rows, picks, at);
            rows.Some? ==> Outbox.Invariant(q.(rows := rows.value), maxAttempts)
  {
    hide Outbox.Invariant, KeyOf, RetryOf;
    if picks == [] {
      assert q.(rows := q.rows) == q;
    } else {
      var init, id := picks[..|picks| - 1], picks[|picks| - 1];
      RetryRowsKeep(t, events, q, init, at, maxAttempts);
      var earlier := EnqueueRetries(t, events, q.rows, init, at);
      if earlier.Some? {
        EnqueueKeeps(q.(rows := earlier.value), KeyOf(t, id), RetryOf(t, events, id), at, maxAttempts);
      }
    }
  }

  /** What a retry scan adds to the outbox. */
  lemma RetryRows(s: System, picks: seq<Uuid>, at: int, maxAttempts: nat)
    requires Sound(s, maxAttempts) && Possible(s, Retrying(picks, at))
    ensures var d := s.desk.(tables := Reaped(s.desk.tables, at));
            var rows := EnqueueRetries(d.tables, s.fence.db.events, s.queue.rows, picks, at);
            && rows.Some? && RetriesAdded(d.tables, s.fence.db.events, picks, at, s.queue.rows, rows.value)
            && RetriesBehind(d.(tables := WithResumed(d.tables, picks)), rows.value.Keys)
            && DeliveryFence.Invariant(d.(tables := WithResumed(d.tables, picks)), s.fence.db.events)
            && Outbox.Invariant(s.queue.(rows := rows.value), maxAttempts)
  {
    hide AlertFence.Invariant, Outbox.Invariant, DeliveryFence.Invariant, JobsExact, ValuesKept, RetriesBehind, Reaped,
         WithResumed, RetriesAdded, EnqueueRetries;
    var d := s.desk.(tables := Reaped(s.desk.tables, at));
    ReapKeeps(s.desk, s.fence.db.events, at);
    ReapAdvances(s.desk, at);
    BehindStays(s.desk, d, s.queue.rows.Keys);
    RetriesEnqueued(d, s.fence.db.events, s.queue.rows, picks, at);
    RetryRowsKeep(d.tables, s.fence.db.events, s.queue, picks, at, maxAttempts);
    DeskKnown(d, s.fence.db.events);
    ScanBehind(d, s.fence.db.events, s.queue.rows, picks, at,
               EnqueueRetries(d.tables, s.fence.db.events, s.queue.rows, picks, at).value);
    ResumeKeeps(d, s.fence.db.events, picks);
  }

  /** Retry rows are no event rows, and repeat a stored event whose value survived. */
  lemma RetryRowsKnown(s: System, picks: seq<Uuid>, at: int, maxAttempts: nat)
    requires Sound(s, maxAttempts) && Possible(s, Retrying(picks, at))
    ensures var after := Step(s, Retrying(picks, at), maxAttempts);
            && Extends(s.fence.written, s.queue.rows, after.fence.written, after.queue.rows)
            && EventRows(after.queue.rows) == EventRows(s.queue.rows)
            && forall k <- after.queue.rows :: k !in s.queue.rows ==>
                 RetryRowKnown(after.fence.written, after.queue.rows, k)
  {
    hide Sound, RetryRowKnown, EventKeyed, Step, Picked, RetriesAdded;
    var after := Step(s, Retrying(picks, at), maxAttempts);
    RetriesExtend(s, picks, at, maxAttempts);
    forall k | k in after.queue.rows && k !in s.queue.rows
      ensures !EventKeyed(k) && RetryRowKnown(after.fence.written, after.queue.rows, k)
    {
      RetryRowIs(s, picks, at, maxAttempts, k);
    }
  }

  lemma RetriesExtend(s: System, picks: seq<Uuid>, at: int, maxAttempts: nat)
    requires Sound(s, maxAttempts) && Possible(s, Retrying(picks, at))
    ensures var after := Step(s, Retrying(picks, at), maxAttempts);
            Extends(s.fence.written, s.queue.rows, after.fence.written, after.queue.rows)
  {
    hide AlertFence.Invariant, Outbox.Invariant, DeliveryFence.Invariant, JobsExact, ValuesKept, RetriesBehind, Reaped,
         WithResumed, EnqueueRetries, KeyOf, PickedKeys, RetriesPending;
    RetryRows(s, picks, at, maxAttempts);
  }

  /** The picked delivery whose retry a new row is. */
  lemma RetriedUnder(s: System, picks: seq<Uuid>, at: int, maxAttempts: nat, k: Key) returns (id: Uuid)
    requires Sound(s, maxAttempts) && Possible(s, Retrying(picks, at))
    requires k in Step(s, Retrying(picks, at), maxAttempts).queue.rows && k !in s.queue.rows
    ensures var after, t := Step(s, Retrying(picks, at), maxAttempts), Reaped(s.desk.tables, at);
            && id in picks && id in t.deliveries && t.deliveries[id].eventId in s.fence.db.events && k == KeyOf(t, id)
            && after.queue.rows[k].payload == RetryOf(t, s.fence.db.events, id)
            && after.fence.written == s.fence.written
  {
    hide AlertFence.Invariant, Outbox.Invariant, DeliveryFence.Invariant, JobsExact, ValuesKept, RetriesBehind, Reaped,
         WithResumed, EnqueueRetries, KeyOf, RetryOf;
    RetryRows(s, picks, at, maxAttempts);
    id :| id in picks && k == KeyOf(Reaped(s.desk.tables, at), id);
  }

  lemma RetryRowIs(s: System, picks: seq<Uuid>, at: int, maxAttempts: nat, k: Key)
    requires Sound(s, maxAttempts) && Possible(s, Retrying(picks, at))
    requires k in Step(s, Retrying(picks, at), maxAttempts).queue.rows && k !in s.queue.rows
    ensures var after := Step(s, Retrying(picks, at), maxAttempts);
            !EventKeyed(k) && RetryRowKnown(after.fence.written, after.queue.rows, k)
  {
    hide Sound, Step, Possible, Kept, JobKnown, EventKeyed, Extends, KeyOf, Reaped;
    var after, t := Step(s, Retrying(picks, at), maxAttempts), Reaped(s.desk.tables, at);
    RetriesExtend(s, picks, at, maxAttempts);
    var id := RetriedUnder(s, picks, at, maxAttempts, k);
    PickedKept(s, picks, at, maxAttempts, id);
    SoundFence(s, maxAttempts);
    PickedKnown(s, t, id);
    KeptStays(s.fence.written, s.queue.rows, after.fence.written, after.queue.rows, t.deliveries[id].eventId);
  }

  ghost predicate RetryRowKnown(written: seq<AlertEvent>, rows: OutboxRows, k: Key) {
    && k in rows && JobKnown(written, k, rows[k].payload)
    && rows[k].payload.NotificationJob? && Kept(written, rows, rows[k].payload.job.eventId)
  }

  lemma PickedKnown(s: System, t: Tables, id: Uuid)
    requires OncePerGeneration(s.fence) && EventsRecorded(s.fence) && JobsExact(s.fence.written, s.queue.rows)
    requires id in t.deliveries && t.deliveries[id].eventId in s.fence.db.events
    requires Kept(s.fence.written, s.queue.rows, t.deliveries[id].eventId)
    ensures !EventKeyed(KeyOf(t, id))
    ensures JobKnown(s.fence.written, KeyOf(t, id), RetryOf(t, s.fence.db.events, id))
  {
    hide OncePerGeneration, EventsRecorded, EventKeyed, RetryKeyed, RetryKey, JobOf, Kept, JobsExact, JobKnown;
    var row := t.deliveries[id];
    RetryKeyIsKeyed(id, row.retrySeq, row.attempts);
    RetryNotEvent(KeyOf(t, id));
    KeptEvent(s, row.eventId);
    RetryKnown(s.fence.written, s.fence.db.events[row.eventId], KeyOf(t, id));
  }

  /** A picked delivery's event is stored, and its value survived. */
  lemma PickedKept(s: System, picks: seq<Uuid>, at: int, maxAttempts: nat, id: Uuid)
    requires Sound(s, maxAttempts) && Possible(s, Retrying(picks, at)) && id in picks
    ensures var t := Reaped(s.desk.tables, at);
            && id in t.deliveries && t.deliveries[id].eventId in s.fence.db.events
            && Kept(s.fence.written, s.queue.rows, t.deliveries[id].eventId)
            && s.fence.db.events[t.deliveries[id].eventId].id == t.deliveries[id].eventId
  {
    hide AlertFence.Invariant, Outbox.Invariant, DeliveryFence.Invariant, JobsExact, RetriesBehind, Reaped, Kept,
         ValuesKept, RetryDue;
    RetryDueRow(Reaped(s.desk.tables, at), s.fence.db.events, id, at);
    ReapedSame(s.desk.tables, at);
    DeskValues(s);
    FenceFacts(s.fence);
  }

  lemma RetryDueRow(t: Tables, events: Events, id: Uuid, at: int)
    requires RetryDue(t, events, id, at)
    ensures id in t.deliveries && t.deliveries[id].eventId in events
  {
  }

  lemma FenceFacts(w: AlertFence.World)
    requires AlertFence.Invariant(w)
    ensures OncePerGeneration(w) && EventsRecorded(w)
  {
  }

  lemma RetryKnown(written: seq<AlertEvent>, e: AlertEvent, k: Key)
    requires e in written && JobOf(e, StoredJob(e)) && RetryKeyed(k)
    ensures JobKnown(written, k, NotificationJob(StoredJob(e)))
  {
    hide JobOf, RetryKeyed;
    assert JobUnder(e, k, NotificationJob(StoredJob(e)));
  }

  /** An event whose value survived storage is stored with a value that storing leaves alone. */
  lemma KeptEvent(s: System, id: Uuid)
    requires OncePerGeneration(s.fence) && EventsRecorded(s.fence) && JobsExact(s.fence.written, s.queue.rows)
    requires Kept(s.fence.written, s.queue.rows, id) && id in s.fence.db.events
    ensures s.fence.db.events[id] in s.fence.written && s.fence.db.events[id].id == id
    ensures JobOf(s.fence.db.events[id], StoredJob(s.fence.db.events[id]))
  {
    hide Stored;
    var e :| e in s.fence.written && e.id == id && KeptRow(s.queue.rows, e);
    SameEvent(s.fence, e, id);
    var k := NotificationKey(e.id, e.notificationType);
    assert JobKnown(s.fence.written, k, s.queue.rows[k].payload);
    var f :| f in s.fence.written && JobUnder(f, k, s.queue.rows[k].payload);
    assert StoredJob(f).eventId == StoredJob(e).eventId;
    SameEvent(s.fence, f, id);
  }

  lemma RetryingKeeps(s: System, picks: seq<Uuid>, at: int, maxAttempts: nat)
    requires Sound(s, maxAttempts) && Possible(s, Retrying(picks, at))
    ensures Sound(Step(s, Retrying(picks, at), maxAttempts), maxAttempts)
  {
    hide AlertFence.Invariant, Outbox.Invariant, DeliveryFence.Invariant, JobsExact, ValuesKept, RetriesBehind, Reaped,
         WithResumed, Kept, JobKnown, EnqueueRetries, EventRows, RetryKeyed, RetriesAdded, Picked, Extends;
    var after := Step(s, Retrying(picks, at), maxAttempts);
    RetryRows(s, picks, at, maxAttempts);
    RetryRowsKnown(s, picks, at, maxAttempts);
    FenceRows(s.fence, after.queue.rows);
    DeskValues(s);
    ResumedSources(s.desk.tables, picks, at);
    RowsKeep(s, after);
  }

  lemma ResumedSources(t: Tables, picks: seq<Uuid>, at: int)
    ensures var after := WithResumed(Reaped(t, at), picks);
            after.deliveries.Keys == t.deliveries.Keys
            && forall id <- t.deliveries :: after.deliveries[id].eventId == t.deliveries[id].eventId
  {
  }

  // ---------------------------------------------------------------------------------
  // Alert transactions

  /** Three inserts of pending rows keep the outbox sound. */
  lemma MessagesKeep(q: Outbox.World<Payload>, c: Candidate, eventId: Uuid, at: int, maxAttempts: nat)
    requires Outbox.Invariant(q, maxAttempts) && EnqueueAll(q.rows, c, eventId, at).Some?
    ensures Outbox.Invariant(q.(rows := EnqueueAll(q.rows, c, eventId, at).value), maxAttempts)
  {
    hide Outbox.Invariant, NotificationKey, TriggeredKey, IndexKey, NewJob;
    var job := NewJob(c, eventId);
    var k, notice := NotificationKey(eventId, c.snapshot.notificationType), TriggeredNotice(job, c.sourceEventId);
    EnqueueKeeps(q, k, NotificationJob(job), at, maxAttempts);
    var one := q.(rows := Outbox.EnqueueRow(q.rows, k, NotificationJob(job), at).value);
    EnqueueKeeps(one, TriggeredKey(eventId), notice, at, maxAttempts);
    var two := one.(rows := Outbox.EnqueueRow(one.rows, TriggeredKey(eventId), notice, at).value);
    EnqueueKeeps(two, IndexKey(eventId), IndexUpdate(c.snapshot.id, c.snapshot.tokenAddress), at, maxAttempts);
  }

  lemma FreshMessages(w: AlertFence.World, c: Candidate, eventId: Uuid, at: int)
    requires AlertFence.Invariant(w) && forall e <- w.written :: e.id != eventId
    ensures EnqueueAll(w.db.outbox, c, eventId, at) == Some(WithMessages(w.db.outbox, c, eventId, at))
    ensures forall k <- KeysOf(EventOf(c, eventId)) :: k !in w.db.outbox
  {
    hide EnqueueAll, WithMessages, KeysOf, EventsFenced, OncePerGeneration, SnapshotsAgree, EventsRecorded;
    EnqueueFresh(w, c, eventId, at);
    FreshKeys(w, c, eventId);
  }

  lemma FreshKeys(w: AlertFence.World, c: Candidate, eventId: Uuid)
    requires OutboxExact(w) && forall e <- w.written :: e.id != eventId
    ensures forall k <- KeysOf(EventOf(c, eventId)) :: k !in w.db.outbox
  {
    hide KeysOf, EventKeyed;
    var event := EventOf(c, eventId);
    EventKeys(event);
    forall e | e in w.written
      ensures KeysOf(e) !! KeysOf(event)
    {
      KeysDistinct(e, event);
    }
    assert forall k <- w.db.outbox :: EventKeyed(k) ==> k in EventRows(w.db.outbox);
  }

  /** A step of the alert transactions adds events, and messages of the events it adds. */
  lemma AlertingRows(s: System, action: AlertFence.Action, maxAttempts: nat)
    requires Sound(s, maxAttempts) && !action.Enqueue?
    ensures var after := AlertFence.Step(s.fence, action);
            && Outbox.Invariant(s.queue.(rows := after.db.outbox), maxAttempts)
            && Extends(s.fence.written, s.queue.rows, after.written, after.db.outbox)
            && (forall k <- after.db.outbox :: k !in s.queue.rows ==> !RetryKeyed(k))
            && (forall k <- after.db.outbox :: k !in s.queue.rows && k.stream == NOTIFICATIONS_PENDING ==>
                  JobKnown(after.written, k, after.db.outbox[k].payload))
  {
    hide AlertFence.Invariant, Outbox.Invariant, DeliveryFence.Invariant, WithMessages, EnqueueAll, JobsExact,
         EditAlert, ValuesKept, RetriesBehind, RetryKeyed, JobKnown, Extends, NewJob, KeysOf;
    var after := AlertFence.Step(s.fence, action);
    if AlertFence.Enabled(s.fence, action) && action.Write?
       && WriteCandidate(s.fence.db, action.candidate, action.eventId, action.at).1.Created? {
      var c, eventId, at := action.candidate, action.eventId, action.at;
      FreshMessages(s.fence, c, eventId, at);
      MessagesKeep(s.queue, c, eventId, at, maxAttempts);
      MessagesKnown(s.fence.written, s.queue.rows, c, eventId, at);
    } else {
      assert after.db.outbox == s.queue.rows && after.written == s.fence.written;
      assert s.queue.(rows := s.queue.rows) == s.queue;
      SameExtends(s.fence.written, s.queue.rows);
    }
  }

  lemma SameExtends(written: seq<AlertEvent>, rows: OutboxRows)
    ensures Extends(written, rows, written, rows)
  {
  }

  lemma MessagesKnown(written: seq<AlertEvent>, rows: OutboxRows, c: Candidate, eventId: Uuid, at: int)
    requires forall k <- KeysOf(EventOf(c, eventId)) :: k !in rows
    ensures var (more, after) := (written + [EventOf(c, eventId)], WithMessages(rows, c, eventId, at));
            && Extends(written, rows, more, after)
            && (forall k <- after :: k !in rows ==> !RetryKeyed(k))
            && (forall k <- after :: k !in rows && k.stream == NOTIFICATIONS_PENDING ==>
                  JobKnown(more, k, after[k].payload))
  {
    hide NotificationKey, TriggeredKey, IndexKey, RetryKeyed, Stored;
    var event, more, after := EventOf(c, eventId), written + [EventOf(c, eventId)], WithMessages(rows, c, eventId, at);
    assert forall e <- written :: e in more;
    MessageStreams(event);
    assert JobUnder(event, NotificationKey(eventId, event.notificationType), NotificationJob(NewJob(c, eventId)));
    assert event in more;
  }

  lemma MessageStreams(e: AlertEvent)
    ensures NotificationKey(e.id, e.notificationType).stream == NOTIFICATIONS_PENDING
    ensures TriggeredKey(e.id).stream != NOTIFICATIONS_PENDING && IndexKey(e.id).stream != NOTIFICATIONS_PENDING
    ensures forall k <- KeysOf(e) :: !RetryKeyed(k)
    ensures TriggeredKey(e.id) != IndexKey(e.id)
  {
    hide RetryKeyed;
    StreamsDistinct();
    EventKeys(e);
    forall k | k in KeysOf(e)
      ensures !RetryKeyed(k)
    {
      if RetryKeyed(k) { RetryNotEvent(k); }
    }
  }

  /** Written events never come back under the identifier of a ticket. */
  lemma EventsOnlyNew(s: System, action: AlertFence.Action)
    requires AlertFence.Invariant(s.fence) && ValuesKept(s)
    ensures EventsChange(s.desk, s.fence.db.events, AlertFence.Step(s.fence, action).db.events)
  {
    hide EnqueueAll, SnapshotsAgree, EventsFenced, OutboxExact, EditAlert, KeptRow;
    forall token | token in s.desk.tickets
      ensures exists e <- s.fence.written :: e.id == s.desk.tickets[token].eventId
    {
      assert Kept(s.fence.written, s.queue.rows, s.desk.tickets[token].eventId);
    }
  }

  lemma AlertingKeeps(s: System, action: AlertFence.Action, maxAttempts: nat)
    requires Sound(s, maxAttempts) && !action.Enqueue?
    ensures Sound(Step(s, Alerting(action), maxAttempts), maxAttempts)
  {
    hide AlertFence.Invariant, Outbox.Invariant, DeliveryFence.Invariant, JobsExact, ValuesKept, RetriesBehind, Kept,
         JobKnown, AlertFence.Step, Cascade, RetriesAdvance, EventsChange, RetryKeyed;
    var after := Step(s, Alerting(action), maxAttempts);
    AlertFence.StepKeeps(s.fence, action);
    AlertingRows(s, action, maxAttempts);
    EventsOnlyNew(s, action);
    CascadeKeeps(s.desk, s.fence.db.events, after.fence.db.events);
    CascadeAdvances(s.desk, after.fence.db.events);
    BehindStays(s.desk, after.desk, s.queue.rows.Keys);
    BehindAlso(after.desk, s.queue.rows.Keys, after.queue.rows.Keys);
    DeskValues(s);
    CascadeSources(s.desk.tables, after.fence.db.events);
    RowsKeep(s, after);
  }

  lemma CascadeSources(t: Tables, later: Events)
    ensures forall id <- Cascade(t, later).deliveries ::
              id in t.deliveries && Cascade(t, later).deliveries[id].eventId == t.deliveries[id].eventId
  {
  }

  // ---------------------------------------------------------------------------------
  // Runs

  lemma MoveKeeps(s: System, m: Move, maxAttempts: nat)
    requires Sound(s, maxAttempts)
    ensures Sound(Step(s, m, maxAttempts), maxAttempts)
  {
    hide Sound, After;
    if Possible(s, m) {
      match m
      case Alerting(action) => AlertingKeeps(s, action, maxAttempts);
      case Producing(key, text, at) => ProducingKeeps(s, key, text, at, maxAttempts);
      case Working(work) => WorkingKeeps(s, work, maxAttempts);
      case Delivering(step) => DeliveringKeeps(s, step, maxAttempts);
      case Retrying(picks, at) => RetryingKeeps(s, picks, at, maxAttempts);
    }
  }

  lemma {:induction false} SystemKeeps(moves: seq<Move>, maxAttempts: nat)
    ensures Sound(Run(moves, maxAttempts), maxAttempts)
  {
    hide Step, Sound;
    if moves == [] {
      StartSound(maxAttempts);
    } else {
      SystemKeeps(moves[..|moves| - 1], maxAttempts);
      MoveKeeps(Run(moves[..|moves| - 1], maxAttempts), moves[|moves| - 1], maxAttempts);
    }
  }

  lemma StartSound(maxAttempts: nat)
    ensures Sound(Run([], maxAttempts), maxAttempts)
  {
    hide AlertFence.Invariant, Outbox.Invariant, DeliveryFence.Invariant;
    AlertFence.StartInvariant();
    Outbox.StartInvariant<Payload>(maxAttempts);
    DeliveryFence.StartInvariant();
  }

  // ---------------------------------------------------------------------------------
  // Main results

  predicate SameGeneration(e: AlertEvent, f: AlertEvent) { e.alertId == f.alertId && e.generation == f.generation }

  lemma {:induction false} CountTwice(entries: seq<Outbox.Entry<Payload>>, i: nat, j: nat)
    requires i < j < |entries| && entries[i].key == entries[j].key
    ensures Outbox.EntryCount(entries, entries[i].key) >= 2
  {
    var init, last := entries[..|entries| - 1], entries[|entries| - 1];
    if j < |init| {
      CountTwice(init, i, j);
    } else {
      CountOnce(init, i);
    }
  }

  lemma {:induction false} CountOnce(entries: seq<Outbox.Entry<Payload>>, i: nat)
    requires i < |entries|
    ensures Outbox.EntryCount(entries, entries[i].key) >= 1
  {
    if i < |entries| - 1 {
      CountOnce(entries[..|entries| - 1], i);
    }
  }

  lemma OneOfGeneration(w: AlertFence.World, e: AlertEvent, f: AlertEvent)
    requires OncePerGeneration(w) && e in w.written && f in w.written && (SameGeneration(e, f) || e.id == f.id)
    ensures e == f
  {
    var i :| 0 <= i < |w.written| && w.written[i] == e;
    var j :| 0 <= j < |w.written| && w.written[j] == f;
  }

  /** What is on the notification stream is about a written event. */
  lemma EntryKnown(s: System, maxAttempts: nat, i: nat)
    requires Sound(s, maxAttempts) && i < |s.queue.entries| && s.queue.entries[i].key.stream == NOTIFICATIONS_PENDING
    ensures JobKnown(s.fence.written, s.queue.entries[i].key, s.queue.entries[i].payload)
  {
    hide AlertFence.Invariant, DeliveryFence.Invariant, RetriesBehind, ValuesKept, JobKnown, Outbox.RowsLocked,
         Outbox.TasksExact, Outbox.EntriesCounted, Outbox.PublishedSent;
    var x := s.queue.entries[i];
    assert x in s.queue.entries && x.key in s.queue.rows && s.queue.rows[x.key].payload == x.payload;
  }

  /** A key is on its stream once while no marker of it has expired. */
  lemma OncePerMarker(s: System, maxAttempts: nat, i: nat, j: nat)
    requires Sound(s, maxAttempts) && i < j < |s.queue.entries| && s.queue.entries[i].key == s.queue.entries[j].key
    ensures s.queue.expirations[Outbox.MarkerKey(s.queue.entries[i].key)] > 0
  {
    hide AlertFence.Invariant, DeliveryFence.Invariant, RetriesBehind, ValuesKept, JobsExact, Outbox.RowsLocked,
         Outbox.TasksExact, Outbox.EntriesExact, Outbox.PublishedSent, Outbox.MarkerKey;
    CountTwice(s.queue.entries, i, j);
    assert Outbox.EntryCount(s.queue.entries, s.queue.entries[i].key) >= 2;
  }

  /**
   * In every run, marker expiry, redelivery and retries included, any two messages on the
   * notification stream about one generation of an alert are about one and the same event. If
   * both are its own notification and not retries, a deduplication marker has expired.
   */
  lemma NotificationsOfOneEvent(moves: seq<Move>, maxAttempts: nat, i: nat, j: nat)
    requires var entries := Run(moves, maxAttempts).queue.entries;
             && i < j < |entries|
             && entries[i].key.stream == NOTIFICATIONS_PENDING && entries[j].key.stream == NOTIFICATIONS_PENDING
    ensures var s := Run(moves, maxAttempts);
            var x, y := s.queue.entries[i], s.queue.entries[j];
            exists e, f ::
              && e in s.fence.written && f in s.fence.written
              && JobUnder(e, x.key, x.payload) && JobUnder(f, y.key, y.payload)
              && (SameGeneration(e, f) ==> e == f)
              && (SameGeneration(e, f) && !RetryKeyed(x.key) && !RetryKeyed(y.key) ==>
                    s.queue.expirations[Outbox.MarkerKey(x.key)] > 0)
  {
    hide Run, Sound, RetryKeyed, NotificationKey, Outbox.MarkerKey;
    SystemKeeps(moves, maxAttempts);
    var s := Run(moves, maxAttempts);
    var x, y := s.queue.entries[i], s.queue.entries[j];
    EntryKnown(s, maxAttempts, i);
    EntryKnown(s, maxAttempts, j);
    var e :| e in s.fence.written && JobUnder(e, x.key, x.payload);
    var f :| f in s.fence.written && JobUnder(f, y.key, y.payload);
    SoundFence(s, maxAttempts);
    if SameGeneration(e, f) {
      OneOfGeneration(s.fence, e, f);
      if !RetryKeyed(x.key) && !RetryKeyed(y.key) { OncePerMarker(s, maxAttempts, i, j); }
    }
  }

  lemma SoundFence(s: System, maxAttempts: nat)
    requires Sound(s, maxAttempts)
    ensures OncePerGeneration(s.fence) && EventsRecorded(s.fence) && JobsExact(s.fence.written, s.queue.rows)
  {
    hide Outbox.Invariant, DeliveryFence.Invariant, RetriesBehind, ValuesKept, JobsExact;
  }

  lemma TicketWritten(s: System, maxAttempts: nat, token: Uuid)
    requires Sound(s, maxAttempts) && token in s.desk.tickets
    ensures exists e <- s.fence.written :: e.id == s.desk.tickets[token].eventId && KeptRow(s.queue.rows, e)
  {
    hide Outbox.Invariant, DeliveryFence.Invariant, AlertFence.Invariant, RetriesBehind, JobsExact, KeptRow;
    assert Kept(s.fence.written, s.queue.rows, s.desk.tickets[token].eventId);
  }

  lemma CallsKnown(d: DeliveryFence.Desk, events: Events)
    requires DeliveryFence.Invariant(d, events)
    ensures DeliveryFence.CallsApart(d) && forall token <- d.calls :: token in d.tickets
  {
    hide DeliveryFence.TablesExact, DeliveryFence.LiveGuarded, DeliveryFence.OneLive, DeliveryFence.EventsExact,
         DeliveryFence.CallsApart;
  }

  /**
   * Nobody is notified twice: in every run, a provider is called again for one generation of an
   * alert only if every earlier call is on record as a failure without effect. An accepted call,
   * one with an unknown effect and one whose worker never came back stay the last.
   */
  lemma NotifiedOnce(moves: seq<Move>, maxAttempts: nat, i: nat, j: nat)
    requires i < j < |Run(moves, maxAttempts).desk.calls|
    ensures var s := Run(moves, maxAttempts);
            var x, y := s.desk.calls[i], s.desk.calls[j];
            && x in s.desk.tickets && y in s.desk.tickets
            && exists e, f ::
                 && e in s.fence.written && e.id == s.desk.tickets[x].eventId
                 && f in s.fence.written && f.id == s.desk.tickets[y].eventId
                 && (SameGeneration(e, f) ==> x in s.desk.spared)
  {
    hide Run, Sound, KeptRow, DeliveryFence.Invariant;
    SystemKeeps(moves, maxAttempts);
    var s := Run(moves, maxAttempts);
    SoundDesk(s, maxAttempts);
    CallsKnown(s.desk, s.fence.db.events);
    var x, y := s.desk.calls[i], s.desk.calls[j];
    assert x in s.desk.calls && y in s.desk.calls;
    TicketWritten(s, maxAttempts, x);
    TicketWritten(s, maxAttempts, y);
    var e :| e in s.fence.written && e.id == s.desk.tickets[x].eventId;
    var f :| f in s.fence.written && f.id == s.desk.tickets[y].eventId;
    SoundFence(s, maxAttempts);
    if SameGeneration(e, f) {
      OneOfGeneration(s.fence, e, f);
      assert DeliveryFence.SameEvent(s.desk, x, y);
    }
  }

  lemma SoundDesk(s: System, maxAttempts: nat)
    requires Sound(s, maxAttempts)
    ensures DeliveryFence.Invariant(s.desk, s.fence.db.events) && RetriesBehind(s.desk, s.queue.rows.Keys)
  {
    hide Outbox.Invariant, AlertFence.Invariant, DeliveryFence.Invariant, RetriesBehind, ValuesKept, JobsExact;
  }

  /** In every run no claim, deferral or answer finds the tables inconsistent, and no delivery exceeds its attempts. */
  lemma FencesNeverFail(moves: seq<Move>, maxAttempts: nat, token: Uuid)
    ensures var d := Run(moves, maxAttempts).desk;
            && (forall id, at, leaseMs :: token !in d.tickets ==>
                  !Claim(d.tables, id, token, at, leaseMs).1.ClaimError?)
            && (forall retryAt :: token in d.tickets ==>
                  DeferClaim(d.tables, d.tickets[token], token, retryAt).1 != FenceError)
            && (forall answer, retryAt :: token in d.tickets ==>
                  Apply(d.tables, d.tickets[token], token, answer, retryAt).1 != FenceError)
            && (forall id <- d.tables.deliveries ::
                  d.tables.deliveries[id].attempts <= d.tables.deliveries[id].maxAttempts)
  {
    hide Run, Sound, DeliveryFence.Invariant, Claim, DeferClaim, Apply;
    SystemKeeps(moves, maxAttempts);
    var s := Run(moves, maxAttempts);
    SoundDesk(s, maxAttempts);
    DeliveryFence.FencesHold(s.desk, s.fence.db.events, token);
    AttemptsBounded(s.desk, s.fence.db.events);
  }

  lemma AttemptsBounded(d: DeliveryFence.Desk, events: Events)
    requires DeliveryFence.Invariant(d, events)
    ensures forall id <- d.tables.deliveries :: d.tables.deliveries[id].attempts <= d.tables.deliveries[id].maxAttempts
  {
    hide DeliveryFence.AttemptsExact, DeliveryFence.ClaimsNumbered, DeliveryFence.LiveGuarded, DeliveryFence.OneLive,
         DeliveryFence.CallsApart, DeliveryFence.EventsExact, DeliveryFence.TicketsExact;
  }

  /**
   * No retry is swallowed: in every run a retry scan succeeds and adds one new pending row for
   * each delivery it picks, with the job of the delivery's event.
   */
  lemma RetriesNeverSwallowed(moves: seq<Move>, maxAttempts: nat, picks: seq<Uuid>, at: int)
    requires Possible(Run(moves, maxAttempts), Retrying(picks, at))
    ensures var s := Run(moves, maxAttempts);
            var result := Republish(s.desk.tables, s.fence.db.events, s.queue.rows, picks, at);
            result.Some? && RetriesAdded(Reaped(s.desk.tables, at), s.fence.db.events, picks, at, s.queue.rows,
                                         result.value.1)
  {
    hide Run, Sound, RetriesAdded, Reaped, DeliveryFence.Invariant, Outbox.Invariant, RetriesBehind;
    SystemKeeps(moves, maxAttempts);
    RetryRows(Run(moves, maxAttempts), picks, at, maxAttempts);
  }

  /**
   * A message on the notification stream is taken up exactly if its event has not been deleted and
   * its value has at most twelve decimals; with more of them it never matches the stored event.
   */
  lemma TakenUpExactly(moves: seq<Move>, maxAttempts: nat, i: nat)
    requires var entries := Run(moves, maxAttempts).queue.entries;
             i < |entries| && entries[i].key.stream == NOTIFICATIONS_PENDING
    ensures var s := Run(moves, maxAttempts);
            var payload, events := s.queue.entries[i].payload, s.fence.db.events;
            && payload.NotificationJob?
            && (LoadContext(events, payload.job).Missing? <==> payload.job.eventId !in events)
            && (LoadContext(events, payload.job).Loaded? <==>
                payload.job.eventId in events && WholeUnits(payload.job.currentValue))
  {
    hide Run, Sound, Stored, RetryKeyed, NotificationKey;
    SystemKeeps(moves, maxAttempts);
    var s := Run(moves, maxAttempts);
    EntryKnown(s, maxAttempts, i);
    var x := s.queue.entries[i];
    var e :| e in s.fence.written && JobUnder(e, x.key, x.payload);
    SoundFence(s, maxAttempts);
    StoredExactly(x.payload.job.currentValue);
    assert x.payload.job.eventId == StoredJob(e).eventId == e.id;
    if e.id in s.fence.db.events { SameEvent(s.fence, e, e.id); }
  }

  /**
   * An alert whose matched value has more than twelve decimals is recorded and announced, and
   * nobody is ever notified of it: every provider call is for an event whose own notification
   * carries a value of at most twelve.
   */
  lemma CalledOnlyIfStorable(moves: seq<Move>, maxAttempts: nat, token: Uuid)
    requires token in Run(moves, maxAttempts).desk.calls
    ensures var s := Run(moves, maxAttempts);
            && token in s.desk.tickets
            && exists e <- s.fence.written ::
                 && e.id == s.desk.tickets[token].eventId
                 && NotificationKey(e.id, e.notificationType) in s.queue.rows
                 && s.queue.rows[NotificationKey(e.id, e.notificationType)].payload == NotificationJob(StoredJob(e))
                 && WholeUnits(e.currentValue)
  {
    hide Run, Sound, Stored, NotificationKey, DeliveryFence.Invariant, JobsExact;
    SystemKeeps(moves, maxAttempts);
    var s := Run(moves, maxAttempts);
    SoundDesk(s, maxAttempts);
    CallsKnown(s.desk, s.fence.db.events);
    TicketWritten(s, maxAttempts, token);
    var e :| e in s.fence.written && e.id == s.desk.tickets[token].eventId && KeptRow(s.queue.rows, e);
    KeptWhole(s, maxAttempts, e);
  }

  lemma KeptWhole(s: System, maxAttempts: nat, e: AlertEvent)
    requires Sound(s, maxAttempts) && e in s.fence.written && KeptRow(s.queue.rows, e)
    ensures WholeUnits(e.currentValue)
  {
    hide Outbox.Invariant, DeliveryFence.Invariant, AlertFence.Invariant, RetriesBehind, ValuesKept, Stored, RetryKeyed;
    var k := NotificationKey(e.id, e.notificationType);
    assert JobKnown(s.fence.written, k, s.queue.rows[k].payload);
    var f :| f in s.fence.written && JobUnder(f, k, s.queue.rows[k].payload);
    assert StoredJob(e).currentValue == e.currentValue;
    StoredExactly(e.currentValue);
    assert f.currentValue == StoredJob(e).(currentValue := f.currentValue).currentValue;
    SoundFence(s, maxAttempts);
    assert f.id == e.id by { assert StoredJob(f).eventId == f.id && StoredJob(e).eventId == e.id; }
    OneOfGeneration(s.fence, e, f);
  }
}
