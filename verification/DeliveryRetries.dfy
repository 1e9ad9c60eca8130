/** Expired claims, deleted events and the retry scan: each retry gets an outbox row of its own. */
module DeliveryRetries {
  import opened Common
  import Outbox
  import opened AlertFence
  import opened NotificationDelivery
  import opened DeliveryFence

  // ---------------------------------------------------------------------------------
  // The tables after the scan

  lemma ReapedTables(t: Tables, at: int)
    requires TablesExact(t)
    ensures TablesExact(Reaped(t, at)) && SameIdentities(t, Reaped(t, at))
  {
    hide Reaped, LeasesExact, AttemptsExact, ClaimsNumbered, SameIdentities;
    ReapedSame(t, at);
    ReapedLeases(t, at);
    ReapedAttempts(t, at);
    NumbersSame(t, Reaped(t, at));
  }

  lemma ReapedSame(t: Tables, at: int)
    ensures SameIdentities(t, Reaped(t, at))
  {
  }

  lemma ReapedLeases(t: Tables, at: int)
    requires TablesExact(t)
    ensures LeasesExact(Reaped(t, at))
  {
    hide ClaimsNumbered, AttemptsExact;
  }

  lemma ReapedAttempts(t: Tables, at: int)
    requires TablesExact(t)
    ensures AttemptsExact(Reaped(t, at))
  {
    hide ClaimsNumbered;
  }

  lemma NumbersSame(t: Tables, after: Tables)
    requires ClaimsNumbered(t) && SameIdentities(t, after)
    ensures ClaimsNumbered(after)
  {
    assert forall x, y :: x in t.attempts && y in t.attempts ==>
                            SameClaim(after.attempts[x], after.attempts[y]) == SameClaim(t.attempts[x], t.attempts[y]);
  }

  lemma ReapKeeps(d: Desk, events: Events, at: int)
    requires DeliveryFence.Invariant(d, events)
    ensures DeliveryFence.Invariant(d.(tables := Reaped(d.tables, at)), events)
  {
    hide TablesExact, OneLive, CallsApart, TicketsExact, EventsExact, LiveGuarded, Reaped;
    ReapedTables(d.tables, at);
    ReapGuards(d, events, at);
    SparedApart(d);
    TablesMove(d, d.(tables := Reaped(d.tables, at)), events);
  }

  lemma ReapGuards(d: Desk, events: Events, at: int)
    requires LiveGuarded(d, events)
    ensures LiveGuarded(d.(tables := Reaped(d.tables, at)), events)
  {
    var after := d.(tables := Reaped(d.tables, at));
    forall x | Live(after, x)
      ensures Guarded(after.tables, events, after.tickets[x], x)
    {
      assert Live(d, x) && Guarded(d.tables, events, d.tickets[x], x);
    }
  }

  lemma ResumeKeeps(d: Desk, events: Events, picks: seq<Uuid>)
    requires DeliveryFence.Invariant(d, events)
    requires forall id <- picks :: id in d.tables.deliveries && d.tables.deliveries[id].status == RetryScheduled
    ensures DeliveryFence.Invariant(d.(tables := WithResumed(d.tables, picks)), events)
  {
    hide TablesExact, OneLive, CallsApart, TicketsExact, EventsExact, LiveGuarded, WithResumed;
    ResumedTables(d.tables, picks);
    ResumeGuards(d, events, picks);
    SparedApart(d);
    TablesMove(d, d.(tables := WithResumed(d.tables, picks)), events);
  }

  lemma SparedApart(d: Desk)
    requires TicketsExact(d)
    ensures forall token <- d.spared :: token in d.calls && token !in d.held
  {
  }

  lemma ResumedTables(t: Tables, picks: seq<Uuid>)
    requires TablesExact(t) && forall id <- picks :: id in t.deliveries && t.deliveries[id].status == RetryScheduled
    ensures TablesExact(WithResumed(t, picks)) && SameIdentities(t, WithResumed(t, picks))
  {
    hide LeasesExact, AttemptsExact, ClaimsNumbered, WithResumed, SameIdentities;
    ResumedSame(t, picks);
    ResumedLeases(t, picks);
    NumbersSame(t, WithResumed(t, picks));
  }

  lemma ResumedSame(t: Tables, picks: seq<Uuid>)
    ensures SameIdentities(t, WithResumed(t, picks))
  {
  }

  lemma ResumedLeases(t: Tables, picks: seq<Uuid>)
    requires LeasesExact(t) && AttemptsExact(t)
    requires forall id <- picks :: id in t.deliveries && t.deliveries[id].status == RetryScheduled
    ensures LeasesExact(WithResumed(t, picks)) && AttemptsExact(WithResumed(t, picks))
  {
    var after := WithResumed(t, picks);
    assert forall id <- t.deliveries :: after.deliveries[id].lease == t.deliveries[id].lease;
  }

  lemma ResumeGuards(d: Desk, events: Events, picks: seq<Uuid>)
    requires TablesExact(d.tables) && LiveGuarded(d, events)
    requires forall id <- picks :: id in d.tables.deliveries && d.tables.deliveries[id].status == RetryScheduled
    ensures LiveGuarded(d.(tables := WithResumed(d.tables, picks)), events)
  {
    hide AttemptsExact, ClaimsNumbered;
    var after := d.(tables := WithResumed(d.tables, picks));
    forall x | Live(after, x)
      ensures Guarded(after.tables, events, after.tickets[x], x)
    {
      assert Live(d, x) && Guarded(d.tables, events, d.tickets[x], x);
    }
  }

  // ---------------------------------------------------------------------------------
  // Deleted and new events

  /** Events only come and go whole, and no ticket is of one that comes. */
  ghost predicate EventsChange(d: Desk, events: Events, later: Events) {
    && (forall id :: id in events && id in later ==> later[id] == events[id])
    && (forall token <- d.tickets :: d.tickets[token].eventId in later ==> d.tickets[token].eventId in events)
  }

  lemma CascadeKeeps(d: Desk, events: Events, later: Events)
    requires DeliveryFence.Invariant(d, events) && EventsChange(d, events, later)
    ensures DeliveryFence.Invariant(d.(tables := Cascade(d.tables, later)), later)
  {
    var after := d.(tables := Cascade(d.tables, later));
    hide TablesExact, LiveGuarded, EventsExact, TicketsExact, EventsChange, Cascade;
    CascadeTables(d.tables, later);
    CascadeGuards(d, events, later);
    CascadeEvents(d, events, later);
    CascadeTickets(d, events, later);
    assert forall x :: Live(after, x) == Live(d, x);
    assert forall x, y :: SameEvent(after, x, y) == SameEvent(d, x, y);
    assert OneLive(after) && CallsApart(after);
  }

  lemma CascadeEvents(d: Desk, events: Events, later: Events)
    requires EventsExact(d.tables, events) && EventsChange(d, events, later)
    ensures EventsExact(Cascade(d.tables, later), later)
  {
    hide DeliveryKey;
  }

  lemma CascadeTickets(d: Desk, events: Events, later: Events)
    requires TicketsExact(d)
    ensures TicketsExact(d.(tables := Cascade(d.tables, later)))
  {
  }

  lemma CascadeTables(t: Tables, later: Events)
    requires TablesExact(t)
    ensures TablesExact(Cascade(t, later))
  {
    var after := Cascade(t, later);
    assert LeasesExact(after) && AttemptsExact(after) && ClaimsNumbered(after);
  }

  lemma CascadeGuards(d: Desk, events: Events, later: Events)
    requires TicketsExact(d) && LiveGuarded(d, events) && EventsChange(d, events, later)
    ensures LiveGuarded(d.(tables := Cascade(d.tables, later)), later)
  {
    var after := d.(tables := Cascade(d.tables, later));
    forall x | Live(after, x)
      ensures Guarded(after.tables, later, after.tickets[x], x)
    {
      assert Live(d, x) && Guarded(d.tables, events, d.tickets[x], x);
    }
  }

  // ---------------------------------------------------------------------------------
  // Retry rows lie behind their deliveries

  /** A retry row's number is one its delivery has used, and a scheduled retry has a number yet unused. */
  ghost predicate RetryBehind(d: Desk, k: Key, id: Uuid, retrySeq: nat, attempts: nat) {
    && k == RetryKey(id, retrySeq, attempts) && id in d.known
    && (id in d.tables.deliveries ==>
          var row := d.tables.deliveries[id];
          retrySeq <= row.retrySeq && (row.status == RetryScheduled ==> retrySeq < row.retrySeq))
  }

  ghost predicate RetriesBehind(d: Desk, keys: set<Key>) {
    forall k <- keys :: RetryKeyed(k) ==> exists id, retrySeq, attempts :: RetryBehind(d, k, id, retrySeq, attempts)
  }

  /** Retry numbers only grow, and a retry is scheduled only under a new one. */
  ghost predicate RetriesAdvance(d: Desk, after: Desk) {
    && d.known <= after.known
    && forall id <- after.tables.deliveries ::
         if id in d.tables.deliveries then RowAdvances(d.tables.deliveries[id], after.tables.deliveries[id])
         else id !in d.known
  }

  predicate RowAdvances(before: Delivery, after: Delivery) {
    && before.retrySeq <= after.retrySeq
    && (after.status == RetryScheduled ==> before.status == RetryScheduled || before.retrySeq < after.retrySeq)
  }

  lemma BehindStays(d: Desk, after: Desk, keys: set<Key>)
    requires RetriesBehind(d, keys) && RetriesAdvance(d, after)
    ensures RetriesBehind(after, keys)
  {
    hide RetryKey, RetryKeyed;
    forall k | k in keys && RetryKeyed(k)
      ensures exists id, retrySeq, attempts :: RetryBehind(after, k, id, retrySeq, attempts)
    {
      var id, retrySeq, attempts :| RetryBehind(d, k, id, retrySeq, attempts);
      assert RetryBehind(after, k, id, retrySeq, attempts);
    }
  }

  lemma StepAdvances(d: Desk, events: Events, a: Work)
    requires forall id <- d.tables.deliveries :: id in d.known
    ensures RetriesAdvance(d, DeliveryFence.Step(d, events, a))
  {
    hide LoadContext, Finish, Expired, LiveAttempt, AttemptInserts, DeliveryKey;
    if Ready(d, a) {
      match a
      case BeginWork(_, _, _) =>
      case ClaimWork(_, _, _, _) =>
      case RefuseWork(_, _) =>
      case DeferWork(_, _) =>
      case DeferClaimWork(_, _) =>
      case CallWork(_) =>
      case ApplyWork(_, _, _) =>
      case CrashWork(_) =>
    }
  }

  lemma ReapAdvances(d: Desk, at: int)
    ensures RetriesAdvance(d, d.(tables := Reaped(d.tables, at)))
  {
  }

  lemma CascadeAdvances(d: Desk, later: Events)
    ensures RetriesAdvance(d, d.(tables := Cascade(d.tables, later)))
  {
  }

  lemma ResumeAdvances(d: Desk, picks: seq<Uuid>)
    ensures RetriesAdvance(d, d.(tables := WithResumed(d.tables, picks)))
  {
  }

  // ---------------------------------------------------------------------------------
  // The scan's outbox rows

  ghost predicate Picked(t: Tables, events: Events, picks: seq<Uuid>, at: int) {
    NoDup(picks) && forall id <- picks :: RetryDue(t, events, id, at)
  }

  ghost function PickedKeys(t: Tables, picks: seq<Uuid>): set<Key>
    requires forall id <- picks :: id in t.deliveries
  {
    set id | id in picks :: KeyOf(t, id)
  }

  /** The rows the scan adds: one per picked delivery, pending and new, and nothing else changes. */
  ghost predicate RetriesAdded(t: Tables, events: Events, picks: seq<Uuid>, at: int, outbox: OutboxRows,
                               rows: OutboxRows)
    requires HaveEvents(t, events, picks)
  {
    && RowsAdded(outbox, rows, PickedKeys(t, picks)) && |PickedKeys(t, picks)| == |picks|
    && RetriesPending(t, events, picks, at, rows)
  }

  ghost predicate RowsAdded(outbox: OutboxRows, rows: OutboxRows, keys: set<Key>) {
    rows.Keys == outbox.Keys + keys && outbox.Keys !! keys && forall k <- outbox :: rows[k] == outbox[k]
  }

  ghost predicate RetriesPending(t: Tables, events: Events, picks: seq<Uuid>, at: int, rows: OutboxRows)
    requires HaveEvents(t, events, picks)
  {
    forall id <- picks ::
      KeyOf(t, id) in rows && rows[KeyOf(t, id)] == PendingRow(RetryOf(t, events, id), at)
  }

  /** A scheduled retry's key is new. */
  lemma KeyIsNew(d: Desk, keys: set<Key>, id: Uuid)
    requires RetriesBehind(d, keys) && id in d.tables.deliveries && d.tables.deliveries[id].status == RetryScheduled
    ensures KeyOf(d.tables, id) !in keys
  {
    hide RetryKey, RetryKeyed;
    var row := d.tables.deliveries[id];
    var k := KeyOf(d.tables, id);
    RetryKeyIsKeyed(id, row.retrySeq, row.attempts);
    if k in keys {
      var other, retrySeq, attempts :| RetryBehind(d, k, other, retrySeq, attempts);
      RetryKeyInjective(id, row.retrySeq, row.attempts, other, retrySeq, attempts);
    }
  }

  lemma KeysDiffer(t: Tables, id: Uuid, other: Uuid)
    requires id in t.deliveries && other in t.deliveries && id != other
    ensures KeyOf(t, id) != KeyOf(t, other)
  {
    hide RetryKey;
    if KeyOf(t, id) == KeyOf(t, other) {
      RetryKeyInjective(id, t.deliveries[id].retrySeq, t.deliveries[id].attempts, other, t.deliveries[other].retrySeq,
                        t.deliveries[other].attempts);
    }
  }

  /** Every retry is inserted: no key repeats one of the outbox or of the scan itself. */
  lemma {:induction false} RetriesEnqueued(d: Desk, events: Events, outbox: OutboxRows, picks: seq<Uuid>, at: int)
    requires RetriesBehind(d, outbox.Keys) && Picked(d.tables, events, picks, at)
    ensures var rows := EnqueueRetries(d.tables, events, outbox, picks, at);
            rows.Some? && RetriesAdded(d.tables, events, picks, at, outbox, rows.value)
  {
    hide RetryKey, RetriesBehind, RetriesAdded, RetryOf, KeyOf;
    if picks == [] {
      NothingAdded(d.tables, events, at, outbox);
    } else {
      var init, id := picks[..|picks| - 1], picks[|picks| - 1];
      assert picks == init + [id];
      assert forall i :: 0 <= i < |init| ==> init[i] == picks[i] && init[i] in picks;
      assert id in picks && id !in init;
      RetriesEnqueued(d, events, outbox, init, at);
      KeyIsNew(d, outbox.Keys, id);
      assert HaveEvents(d.tables, events, [id]);
      OneMoreRow(d.tables, events, init, id, at, outbox, EnqueueRetries(d.tables, events, outbox, init, at).value);
    }
  }

  lemma NothingAdded(t: Tables, events: Events, at: int, outbox: OutboxRows)
    ensures RetriesAdded(t, events, [], at, outbox, outbox)
  {
  }

  lemma OneMoreRow(t: Tables, events: Events, init: seq<Uuid>, id: Uuid, at: int, outbox: OutboxRows, rows: OutboxRows)
    requires HaveEvents(t, events, init) && HaveEvents(t, events, [id]) && HaveEvents(t, events, init + [id])
             && id !in init
    requires id in t.deliveries && t.deliveries[id].eventId in events
    requires RetriesAdded(t, events, init, at, outbox, rows) && KeyOf(t, id) !in outbox
    ensures var after := Outbox.EnqueueRow(rows, KeyOf(t, id), RetryOf(t, events, id), at);
            after.Some? && RetriesAdded(t, events, init + [id], at, outbox, after.value)
  {
    hide KeyOf, RetryOf, PickedKeys, RowsAdded, RetriesPending;
    OneMoreKey(t, init, id);
    RowAdded(outbox, rows, PickedKeys(t, init), KeyOf(t, id), PendingRow(RetryOf(t, events, id), at));
    OneMorePending(t, events, init, id, at, rows);
  }

  lemma RowAdded(outbox: OutboxRows, rows: OutboxRows, keys: set<Key>, k: Key, row: Outbox.Row<Payload>)
    requires RowsAdded(outbox, rows, keys) && k !in outbox && k !in keys
    ensures k !in rows && RowsAdded(outbox, rows[k := row], keys + {k}) && |keys + {k}| == |keys| + 1
  {
    var after, more := rows[k := row], keys + {k};
    assert after.Keys == rows.Keys + {k};
    assert after.Keys == outbox.Keys + more;
    assert outbox.Keys !! more;
  }

  lemma OneMorePending(t: Tables, events: Events, init: seq<Uuid>, id: Uuid, at: int, rows: OutboxRows)
    requires HaveEvents(t, events, init) && HaveEvents(t, events, init + [id]) && id !in init
    requires id in t.deliveries && t.deliveries[id].eventId in events
    requires RetriesPending(t, events, init, at, rows) && KeyOf(t, id) !in PickedKeys(t, init)
    ensures RetriesPending(t, events, init + [id], at, rows[KeyOf(t, id) := PendingRow(RetryOf(t, events, id), at)])
  {
    hide KeyOf, RetryOf;
    forall x | x in init
      ensures KeyOf(t, x) != KeyOf(t, id)
    {
      AmongPicked(t, init, x);
    }
  }

  lemma AmongPicked(t: Tables, picks: seq<Uuid>, id: Uuid)
    requires (forall x <- picks :: x in t.deliveries) && id in picks
    ensures KeyOf(t, id) in PickedKeys(t, picks)
  {
    hide KeyOf;
  }

  lemma OneMoreKey(t: Tables, init: seq<Uuid>, id: Uuid)
    requires (forall x <- init :: x in t.deliveries) && id in t.deliveries && id !in init
    ensures PickedKeys(t, init + [id]) == PickedKeys(t, init) + {KeyOf(t, id)}
    ensures KeyOf(t, id) !in PickedKeys(t, init)
  {
    hide KeyOf;
    var picks := init + [id];
    assert forall x :: x in picks <==> x in init || x == id;
    forall x | x in init
      ensures KeyOf(t, x) != KeyOf(t, id)
    {
      KeysDiffer(t, x, id);
    }
  }

  /** The numbers the scan used are behind the deliveries it resumed. */
  lemma ScanBehind(d: Desk, events: Events, outbox: OutboxRows, picks: seq<Uuid>, at: int, rows: OutboxRows)
    requires RetriesBehind(d, outbox.Keys) && Picked(d.tables, events, picks, at)
    requires forall id <- d.tables.deliveries :: id in d.known
    requires RetriesAdded(d.tables, events, picks, at, outbox, rows)
    ensures RetriesBehind(d.(tables := WithResumed(d.tables, picks)), rows.Keys)
  {
    hide RetryKey, RetryKeyed, RetryBehind, RetriesPending, RetriesAdvance, WithResumed, PendingRow;
    var after := d.(tables := WithResumed(d.tables, picks));
    ResumeAdvances(d, picks);
    BehindStays(d, after, outbox.Keys);
    forall k | k in rows && RetryKeyed(k)
      ensures exists id, retrySeq, attempts :: RetryBehind(after, k, id, retrySeq, attempts)
    {
      if k !in outbox {
        var id :| id in picks && k == KeyOf(d.tables, id);
        ResumedBehind(d, picks, id);
      }
    }
  }

  lemma ResumedBehind(d: Desk, picks: seq<Uuid>, id: Uuid)
    requires id in picks && id in d.tables.deliveries && id in d.known
    ensures var row := d.tables.deliveries[id];
            RetryBehind(d.(tables := WithResumed(d.tables, picks)), KeyOf(d.tables, id), id, row.retrySeq, row.attempts)
  {
    hide RetryKey;
  }

  // ---------------------------------------------------------------------------------
  // What the scan does to each row

  /** A delivery whose lease has run out. */
  predicate RanOut(d: Delivery, at: int) { d.status == Sending && d.lease.Some? && d.lease.value.until <= at }

  /** A delivery that could be tried again but has no attempts left. */
  predicate UsedUp(d: Delivery, at: int) {
    d.status == RetryScheduled && d.attempts >= d.maxAttempts && d.nextAttemptAt.Some? && d.nextAttemptAt.value <= at
  }

  /** A delivery whose retry is due. */
  predicate RetryTime(d: Delivery, at: int) {
    d.status == RetryScheduled && d.attempts < d.maxAttempts && d.nextAttemptAt.Some? && d.nextAttemptAt.value <= at
  }

  /**
   * The scan picks due retries only, and of their stored events. Expired claims are parked with
   * their open attempt, used-up deliveries are dead-lettered, picked ones wait for their message.
   */
  lemma ScanMeans(t: Tables, events: Events, outbox: OutboxRows, picks: seq<Uuid>, at: int)
    requires (forall id <- picks :: RetryDue(Reaped(t, at), events, id, at))
    ensures forall id <- picks ::
              id in t.deliveries && RetryTime(t.deliveries[id], at) && t.deliveries[id].eventId in events
    ensures var result := Republish(t, events, outbox, picks, at);
            result.Some? ==>
              var after := result.value.0;
              && after.deliveries.Keys == t.deliveries.Keys && after.attempts.Keys == t.attempts.Keys
              && (forall id <- t.deliveries ::
                    after.deliveries[id] ==
                    if RanOut(t.deliveries[id], at) then t.deliveries[id].(status := Ambiguous, lease := None)
                    else if UsedUp(t.deliveries[id], at) then t.deliveries[id].(status := DeadLettered)
                    else if id in picks then t.deliveries[id].(status := Pending, nextAttemptAt := None, lease := None)
                    else t.deliveries[id])
              && (forall token <- t.attempts ::
                    var a := t.attempts[token];
                    after.attempts[token] ==
                    if a.status == Open && a.deliveryId in t.deliveries && RanOut(t.deliveries[a.deliveryId], at)
                       && t.deliveries[a.deliveryId].lease.value.token == token
                    then a.(status := Unknown) else a)
  {
    hide EnqueueRetries;
    forall id | id in picks
      ensures id in t.deliveries && RetryTime(t.deliveries[id], at) && t.deliveries[id].eventId in events
    {
      assert RetryDue(Reaped(t, at), events, id, at);
    }
  }

  /** Exactly the due retries of stored events may be picked. */
  lemma DueExactly(t: Tables, events: Events, id: Uuid, at: int)
    ensures RetryDue(Reaped(t, at), events, id, at)
            <==> id in t.deliveries && RetryTime(t.deliveries[id], at) && t.deliveries[id].eventId in events
  {
  }

  /** The message of a retry: the stored event, under the delivery's number of retries and attempts. */
  lemma RetryMeans(t: Tables, events: Events, id: Uuid)
    requires id in t.deliveries && t.deliveries[id].eventId in events
    ensures var (d, e) := (t.deliveries[id], events[t.deliveries[id].eventId]);
            && KeyOf(t, id).stream == "notifications.pending"
            && KeyOf(t, id).eventKey ==
               "delivery-retry:" + id + ":" + Decimal(d.retrySeq) + ":" + Decimal(d.attempts)
            && RetryOf(t, events, id) ==
               NotificationJob(Job(e.id, e.alertId, e.userId, e.tokenAddress, e.currentValue, e.notificationType,
                                   e.idempotencyKey))
  {
    var d := t.deliveries[id];
    assert KeyOf(t, id).eventKey == RETRY_PREFIX + id + ":" + (Decimal(d.retrySeq) + ":" + Decimal(d.attempts));
  }

  /** Refusals and deferrals touch a delivery that nobody is sending and that is not finished, and nothing else. */
  lemma RefusalsMean(t: Tables, id: Uuid, suppressed: bool, retryAt: int)
    ensures var waiting := id in t.deliveries && t.deliveries[id].status in {Pending, RetryScheduled};
            && Refuse(t, id, suppressed) ==
               (if !waiting then t
                else Tables(t.deliveries[id := t.deliveries[id].(status := if suppressed then Suppressed else Failed)],
                            t.attempts))
            && Defer(t, id, retryAt) ==
               (if !waiting then t
                else Tables(t.deliveries[id := t.deliveries[id].(status := RetryScheduled,
                                                                 retrySeq := t.deliveries[id].retrySeq + 1,
                                                                 nextAttemptAt := Some(retryAt))],
                            t.attempts))
  {
  }

  /** With an event go its deliveries, and with a delivery its attempts; everything else stays. */
  lemma CascadeMeans(t: Tables, events: Events)
    ensures var after := Cascade(t, events);
            && (forall id <- t.deliveries :: id in after.deliveries <==> t.deliveries[id].eventId in events)
            && (forall id <- after.deliveries :: id in t.deliveries && after.deliveries[id] == t.deliveries[id])
            && (forall token <- t.attempts ::
                  token in after.attempts <==> t.attempts[token].deliveryId in after.deliveries)
            && (forall token <- after.attempts ::
                  token in t.attempts && after.attempts[token] == t.attempts[token])
  {
  }
}
