/** Notification workers in any interleaving: what their claims keep, and when a provider is called again. */
module DeliveryFence {
  import opened Common
  import opened AlertFence
  import opened NotificationDelivery

  /**
   * The tables and the workers: a ticket per lease token ever claimed, the claims workers still
   * hold, the tokens under which the provider was called, in order, those of them whose call is on
   * record as without effect, and every delivery identifier ever used.
   */
  datatype Desk = Desk(
    tables: Tables,
    tickets: map<Uuid, Ticket>,
    held: set<Uuid>,
    calls: seq<Uuid>,
    spared: set<Uuid>,
    known: set<Uuid>)

  const NOBODY := Desk(Tables(map[], map[]), map[], {}, [], {}, {})

  datatype Work =
    | BeginWork(job: Job, id: Uuid, maxAttempts: nat)
    | ClaimWork(id: Uuid, token: Uuid, at: int, leaseMs: int)
    | RefuseWork(id: Uuid, suppressed: bool)
    | DeferWork(id: Uuid, retryAt: int)
    | DeferClaimWork(token: Uuid, retryAt: int)
    | CallWork(token: Uuid)
    | ApplyWork(token: Uuid, answer: Answer, retryAt: int)
    | CrashWork(token: Uuid)

  predicate Ready(d: Desk, a: Work) {
    match a
    case BeginWork(_, id, _) => id !in d.known
    case ClaimWork(_, token, _, _) => token !in d.tickets
    case DeferClaimWork(token, _) => token in d.held && token !in d.calls && token in d.tickets
    case CallWork(token) => token in d.held && token !in d.calls
    case ApplyWork(token, _, _) => token in d.calls && token in d.tickets
    case _ => true
  }

  function After(d: Desk, events: Events, a: Work): Desk
    requires Ready(d, a)
  {
    match a
    case BeginWork(job, id, maxAttempts) =>
      d.(tables := Begin(d.tables, events, job, id, maxAttempts), known := d.known + {id})
    case ClaimWork(id, token, at, leaseMs) =>
      var (tables, result) := Claim(d.tables, id, token, at, leaseMs);
      if !result.Claimed? || id !in d.tables.deliveries then d.(tables := tables)
      else
        d.(tables := tables, held := d.held + {token},
           tickets := d.tickets[token := Ticket(id, d.tables.deliveries[id].eventId, result.claimSeq)])
    case RefuseWork(id, suppressed) => d.(tables := Refuse(d.tables, id, suppressed))
    case DeferWork(id, retryAt) => d.(tables := Defer(d.tables, id, retryAt))
    case DeferClaimWork(token, retryAt) =>
      d.(tables := DeferClaim(d.tables, d.tickets[token], token, retryAt).0, held := d.held - {token})
    case CallWork(token) => d.(calls := d.calls + [token])
    case ApplyWork(token, answer, retryAt) =>
      d.(tables := Apply(d.tables, d.tickets[token], token, answer, retryAt).0, held := d.held - {token},
         spared := if SparedBy(d, token, answer) then d.spared + {token} else d.spared)
    case CrashWork(token) => d.(held := d.held - {token})
  }

  /** The answer is put on record as a failure without effect. */
  predicate SparedBy(d: Desk, token: Uuid, answer: Answer)
    requires token in d.tickets
  {
    && answer == RetryableFailure(false)
    && Holds(d.tables, d.tickets[token], token) && LiveAttempt(d.tables, token)
  }

  function Step(d: Desk, events: Events, a: Work): Desk {
    if Ready(d, a) then After(d, events, a) else d
  }

  // ---------------------------------------------------------------------------------
  // The tables

  /** A delivery is being sent exactly under its lease, and the lease has the one open attempt. */
  ghost predicate LeasesExact(t: Tables) {
    forall id <- t.deliveries ::
      var d := t.deliveries[id];
      && (d.status == Sending <==> d.lease.Some?)
      && d.attempts <= d.maxAttempts
      && (d.lease.Some? ==>
            d.lease.value.token in t.attempts && t.attempts[d.lease.value.token] == Attempt(id, d.claimSeq, Open))
  }

  /** An open attempt is that of its delivery's lease. */
  ghost predicate AttemptsExact(t: Tables) {
    forall token <- t.attempts ::
      var a := t.attempts[token];
      && a.deliveryId in t.deliveries
      && a.claimSeq <= t.deliveries[a.deliveryId].claimSeq
      && (a.status == Open ==> LeasedUnder(t.deliveries[a.deliveryId], token))
  }

  predicate LeasedUnder(d: Delivery, token: Uuid) { d.lease.Some? && d.lease.value.token == token }

  ghost predicate ClaimsNumbered(t: Tables) {
    forall x, y :: x in t.attempts && y in t.attempts && SameClaim(t.attempts[x], t.attempts[y]) ==> x == y
  }

  predicate SameClaim(a: Attempt, b: Attempt) { a.deliveryId == b.deliveryId && a.claimSeq == b.claimSeq }

  ghost predicate TablesExact(t: Tables) { LeasesExact(t) && AttemptsExact(t) && ClaimsNumbered(t) }

  /** A delivery is of a stored event, and no other delivery is. */
  ghost predicate EventsExact(t: Tables, events: Events) {
    && (forall id <- t.deliveries ::
          t.deliveries[id].eventId in events
          && t.deliveries[id].key == DeliveryKey(StoredJob(events[t.deliveries[id].eventId])))
    && (forall i, j :: i in t.deliveries && j in t.deliveries && t.deliveries[i].key == t.deliveries[j].key ==> i == j)
  }

  // ---------------------------------------------------------------------------------
  // The workers

  /** Under a live token the provider may still be called, or was called and may have had an effect. */
  predicate Live(d: Desk, token: Uuid) {
    token in d.tickets && (token in d.held || (token in d.calls && token !in d.spared))
  }

  /** The delivery of a live token is claimed under it, finished, or gone with its event. */
  predicate Guarded(t: Tables, events: Events, k: Ticket, token: Uuid) {
    if k.deliveryId in t.deliveries then
      t.deliveries[k.deliveryId].status.Complete() || LeasedUnder(t.deliveries[k.deliveryId], token)
    else k.eventId !in events
  }

  ghost predicate TicketsExact(d: Desk) {
    && d.held <= d.tickets.Keys && NoDup(d.calls)
    && (forall token <- d.calls :: token in d.tickets)
    && (forall token <- d.spared :: token in d.calls && token !in d.held)
    && (forall id <- d.tables.deliveries :: id in d.known)
    && (forall token <- d.tickets ::
          d.tickets[token].deliveryId in d.known
          && (d.tickets[token].deliveryId in d.tables.deliveries ==>
                d.tables.deliveries[d.tickets[token].deliveryId].eventId == d.tickets[token].eventId))
    && (forall token <- d.tables.attempts ::
          token in d.tickets
          && d.tickets[token].deliveryId == d.tables.attempts[token].deliveryId
          && d.tickets[token].claimSeq == d.tables.attempts[token].claimSeq)
  }

  ghost predicate LiveGuarded(d: Desk, events: Events) {
    forall token :: Live(d, token) ==> Guarded(d.tables, events, d.tickets[token], token)
  }

  ghost predicate OneLive(d: Desk) {
    forall x, y :: Live(d, x) && Live(d, y) && SameEvent(d, x, y) ==> x == y
  }

  predicate SameEvent(d: Desk, x: Uuid, y: Uuid) {
    x in d.tickets && y in d.tickets && d.tickets[x].eventId == d.tickets[y].eventId
  }

  /** A second call for an event comes only after the first is on record as without effect. */
  ghost predicate CallsApart(d: Desk) {
    forall i, j ::
      0 <= i < j < |d.calls| && SameEvent(d, d.calls[i], d.calls[j]) ==> d.calls[i] in d.spared
  }

  ghost predicate Invariant(d: Desk, events: Events) {
    && TablesExact(d.tables) && EventsExact(d.tables, events)
    && TicketsExact(d) && LiveGuarded(d, events) && OneLive(d) && CallsApart(d)
  }

  // ---------------------------------------------------------------------------------
  // Statements on one delivery

  /** The same delivery, not being sent. */
  predicate Rests(before: Delivery, after: Delivery) {
    && after.eventId == before.eventId && after.key == before.key && after.maxAttempts == before.maxAttempts
    && after.claimSeq == before.claimSeq && after.attempts <= after.maxAttempts
    && after.status != Sending && after.lease.None?
  }

  function WithRow(t: Tables, id: Uuid, row: Delivery): Tables { t.(deliveries := t.deliveries[id := row]) }

  function WithFinished(t: Tables, id: Uuid, row: Delivery, token: Uuid, status: AttemptStatus): Tables {
    Tables(t.deliveries[id := row], Finish(t, token, status))
  }

  lemma RowTables(t: Tables, id: Uuid, row: Delivery)
    requires TablesExact(t) && id in t.deliveries && t.deliveries[id].lease.None? && Rests(t.deliveries[id], row)
    ensures TablesExact(WithRow(t, id, row))
  {
    assert ClaimsNumbered(WithRow(t, id, row));
  }

  lemma FinishedTables(t: Tables, id: Uuid, row: Delivery, token: Uuid, status: AttemptStatus)
    requires TablesExact(t) && id in t.deliveries && LeasedUnder(t.deliveries[id], token)
    requires Rests(t.deliveries[id], row) && status != Open
    ensures TablesExact(WithFinished(t, id, row, token, status))
  {
    var after := WithFinished(t, id, row, token, status);
    assert t.attempts[token] == Attempt(id, t.deliveries[id].claimSeq, Open);
    assert AttemptsExact(after);
    assert LeasesExact(after);
    assert ClaimsNumbered(after);
  }

  /** Rows and attempts keep what identifies them. */
  ghost predicate SameIdentities(t: Tables, after: Tables) {
    && after.deliveries.Keys == t.deliveries.Keys && after.attempts.Keys == t.attempts.Keys
    && (forall id <- t.deliveries ::
          after.deliveries[id].eventId == t.deliveries[id].eventId && after.deliveries[id].key == t.deliveries[id].key)
    && (forall token <- t.attempts ::
          after.attempts[token].deliveryId == t.attempts[token].deliveryId
          && after.attempts[token].claimSeq == t.attempts[token].claimSeq)
  }

  /** A step on the tables that makes no token live. */
  lemma TablesMove(d: Desk, after: Desk, events: Events)
    requires Invariant(d, events) && TablesExact(after.tables) && SameIdentities(d.tables, after.tables)
    requires after.tickets == d.tickets && after.calls == d.calls && after.known == d.known
    requires after.held <= d.held && d.spared <= after.spared
    requires forall token <- after.spared :: token in d.calls && token !in after.held
    requires LiveGuarded(after, events)
    ensures Invariant(after, events)
  {
    hide TablesExact, Guarded;
    assert forall token :: Live(after, token) ==> Live(d, token);
    assert forall x, y :: SameEvent(after, x, y) == SameEvent(d, x, y);
    assert OneLive(after);
    assert CallsApart(after);
    assert EventsExact(after.tables, events);
    assert TicketsExact(after);
  }

  lemma RowKeeps(d: Desk, events: Events, id: Uuid, row: Delivery)
    requires Invariant(d, events) && id in d.tables.deliveries && d.tables.deliveries[id].lease.None?
    requires Rests(d.tables.deliveries[id], row)
    requires d.tables.deliveries[id].status.Complete() ==> row.status.Complete()
    ensures Invariant(d.(tables := WithRow(d.tables, id, row)), events)
  {
    hide TablesExact, OneLive, CallsApart, TicketsExact, EventsExact;
    RowTables(d.tables, id, row);
    var after := d.(tables := WithRow(d.tables, id, row));
    RowSpared(d);
    forall token | Live(after, token)
      ensures Guarded(after.tables, events, after.tickets[token], token)
    {
      assert Live(d, token) && Guarded(d.tables, events, d.tickets[token], token);
    }
    TablesMove(d, after, events);
  }

  lemma RowSpared(d: Desk)
    requires TicketsExact(d)
    ensures forall token <- d.spared :: token in d.calls && token !in d.held
  {
  }

  /** The claim under a token ends: its delivery is finished, or the token is no longer live. */
  lemma FinishKeeps(d: Desk, after: Desk, events: Events, id: Uuid, row: Delivery, token: Uuid, status: AttemptStatus)
    requires Invariant(d, events) && id in d.tables.deliveries && LeasedUnder(d.tables.deliveries[id], token)
    requires Rests(d.tables.deliveries[id], row) && status != Open
    requires after == d.(tables := WithFinished(d.tables, id, row, token, status), held := after.held,
                         spared := after.spared)
    requires after.held <= d.held && d.spared <= after.spared
    requires forall x <- after.spared :: x in d.calls && x !in after.held
    requires row.status.Complete() || !Live(after, token)
    ensures Invariant(after, events)
  {
    hide TablesExact, OneLive, CallsApart, TicketsExact, EventsExact, LiveGuarded, Rests, Live;
    FinishedTables(d.tables, id, row, token, status);
    LeasedAttempt(d.tables, id, token);
    FinishGuards(d, after, events, id, row, token, status);
    FinishIdentities(d.tables, id, row, token, status);
    TablesMove(d, after, events);
  }

  lemma FinishIdentities(t: Tables, id: Uuid, row: Delivery, token: Uuid, status: AttemptStatus)
    requires id in t.deliveries && token in t.attempts && Rests(t.deliveries[id], row)
    ensures SameIdentities(t, WithFinished(t, id, row, token, status))
  {
  }

  lemma FinishGuards(d: Desk, after: Desk, events: Events, id: Uuid, row: Delivery, token: Uuid, status: AttemptStatus)
    requires LiveGuarded(d, events) && id in d.tables.deliveries && LeasedUnder(d.tables.deliveries[id], token)
    requires !d.tables.deliveries[id].status.Complete()
    requires after == d.(tables := WithFinished(d.tables, id, row, token, status), held := after.held,
                         spared := after.spared)
    requires after.held <= d.held && d.spared <= after.spared
    requires row.status.Complete() || !Live(after, token)
    ensures LiveGuarded(after, events)
  {
    forall x | Live(after, x)
      ensures Guarded(after.tables, events, after.tickets[x], x)
    {
      assert Live(d, x) && Guarded(d.tables, events, d.tickets[x], x);
    }
  }

  lemma LeasedAttempt(t: Tables, id: Uuid, token: Uuid)
    requires TablesExact(t) && id in t.deliveries && LeasedUnder(t.deliveries[id], token)
    ensures t.deliveries[id].status == Sending && !t.deliveries[id].status.Complete()
    ensures token in t.attempts && t.attempts[token] == Attempt(id, t.deliveries[id].claimSeq, Open)
  {
  }

  lemma DropKeeps(d: Desk, events: Events, token: Uuid)
    requires Invariant(d, events)
    ensures Invariant(d.(held := d.held - {token}), events)
  {
    var after := d.(held := d.held - {token});
    hide TablesExact, OneLive, CallsApart, EventsExact;
    forall x | Live(after, x)
      ensures Guarded(after.tables, events, after.tickets[x], x)
    {
      assert Live(d, x);
    }
    TablesMove(d, after, events);
  }

  // ---------------------------------------------------------------------------------
  // New deliveries and claims

  lemma BeginKeeps(d: Desk, events: Events, job: Job, id: Uuid, maxAttempts: nat)
    requires Invariant(d, events) && id !in d.known
    ensures Invariant(d.(tables := Begin(d.tables, events, job, id, maxAttempts), known := d.known + {id}), events)
  {
    hide LeasesExact, AttemptsExact, ClaimsNumbered, TicketsExact, EventsExact, LiveGuarded, Begin;
    var t, after := d.tables, d.(tables := Begin(d.tables, events, job, id, maxAttempts), known := d.known + {id});
    BeginFresh(d, id);
    BeginTables(t, events, job, id, maxAttempts);
    assert forall token :: Live(after, token) == Live(d, token);
    assert forall x, y :: SameEvent(after, x, y) == SameEvent(d, x, y);
    assert OneLive(after) && CallsApart(after);
    BeginEvents(t, events, job, id, maxAttempts);
    BeginTickets(d, events, job, id, maxAttempts);
  }

  lemma BeginFresh(d: Desk, id: Uuid)
    requires TicketsExact(d) && id !in d.known
    ensures id !in d.tables.deliveries
  {
  }

  lemma BeginEvents(t: Tables, events: Events, job: Job, id: Uuid, maxAttempts: nat)
    requires EventsExact(t, events) && id !in t.deliveries
    ensures EventsExact(Begin(t, events, job, id, maxAttempts), events)
  {
    hide DeliveryKey;
  }

  lemma BeginTickets(d: Desk, events: Events, job: Job, id: Uuid, maxAttempts: nat)
    requires TicketsExact(d) && LiveGuarded(d, events) && id !in d.known
    ensures var after := d.(tables := Begin(d.tables, events, job, id, maxAttempts), known := d.known + {id});
            TicketsExact(after) && LiveGuarded(after, events)
  {
    hide DeliveryKey, LoadContext;
    var after := d.(tables := Begin(d.tables, events, job, id, maxAttempts), known := d.known + {id});
    assert forall token :: Live(after, token) == Live(d, token);
  }

  lemma BeginTables(t: Tables, events: Events, job: Job, id: Uuid, maxAttempts: nat)
    requires TablesExact(t) && id !in t.deliveries
    ensures TablesExact(Begin(t, events, job, id, maxAttempts))
  {
    hide LoadContext, DeliveryKey;
    assert ClaimsNumbered(Begin(t, events, job, id, maxAttempts));
  }

  /** A claim that succeeds. */
  function Claimed(d: Delivery, token: Uuid, until: int): Delivery {
    d.(status := Sending, attempts := d.attempts + 1, claimSeq := d.claimSeq + 1, lease := Some(Lease(token, until)),
       nextAttemptAt := None)
  }

  function WithClaim(t: Tables, id: Uuid, token: Uuid, until: int): Tables
    requires id in t.deliveries
  {
    Tables(t.deliveries[id := Claimed(t.deliveries[id], token, until)],
           t.attempts[token := Attempt(id, t.deliveries[id].claimSeq + 1, Open)])
  }

  lemma ClaimTables(t: Tables, id: Uuid, token: Uuid, until: int)
    requires TablesExact(t) && id in t.deliveries && token !in t.attempts
    requires t.deliveries[id].lease.None? && t.deliveries[id].attempts < t.deliveries[id].maxAttempts
    ensures TablesExact(WithClaim(t, id, token, until))
    ensures AttemptInserts(t, token, id, t.deliveries[id].claimSeq + 1)
  {
    var after := WithClaim(t, id, token, until);
    assert LeasesExact(after);
    assert AttemptsExact(after);
    assert ClaimsNumbered(after);
  }

  function DeskClaim(d: Desk, id: Uuid, token: Uuid, until: int): Desk
    requires id in d.tables.deliveries
  {
    var row := d.tables.deliveries[id];
    d.(tables := WithClaim(d.tables, id, token, until), held := d.held + {token},
       tickets := d.tickets[token := Ticket(id, row.eventId, row.claimSeq + 1)])
  }

  /** Nothing was live for the event of a delivery that can be claimed. */
  lemma NothingLive(d: Desk, events: Events, id: Uuid, x: Uuid)
    requires EventsExact(d.tables, events) && TicketsExact(d) && LiveGuarded(d, events)
    requires id in d.tables.deliveries && d.tables.deliveries[id].lease.None?
    requires !d.tables.deliveries[id].status.Complete()
    ensures !(Live(d, x) && d.tickets[x].eventId == d.tables.deliveries[id].eventId)
  {
  }

  lemma ClaimKeeps(d: Desk, events: Events, id: Uuid, token: Uuid, until: int)
    requires Invariant(d, events) && id in d.tables.deliveries && token !in d.tickets
    requires d.tables.deliveries[id].lease.None? && !d.tables.deliveries[id].status.Complete()
    requires d.tables.deliveries[id].attempts < d.tables.deliveries[id].maxAttempts
    ensures Invariant(DeskClaim(d, id, token, until), events)
  {
    hide LeasesExact, AttemptsExact, ClaimsNumbered, TicketsExact, OneLive, CallsApart, LiveGuarded, Live, Guarded;
    NotYetAttempted(d, token);
    ClaimTables(d.tables, id, token, until);
    ClaimTickets(d, id, token, until);
    ClaimLive(d, events, id, token, until);
    assert EventsExact(DeskClaim(d, id, token, until).tables, events);
  }

  lemma NotYetAttempted(d: Desk, token: Uuid)
    requires TicketsExact(d) && token !in d.tickets
    ensures token !in d.tables.attempts
  {
  }

  lemma ClaimTickets(d: Desk, id: Uuid, token: Uuid, until: int)
    requires TicketsExact(d) && CallsApart(d) && id in d.tables.deliveries && token !in d.tickets
    requires token !in d.tables.attempts
    ensures TicketsExact(DeskClaim(d, id, token, until)) && CallsApart(DeskClaim(d, id, token, until))
  {
    var after := DeskClaim(d, id, token, until);
    assert TicketsExact(after);
    assert forall i :: 0 <= i < |d.calls| ==> d.calls[i] in d.calls && d.calls[i] in d.tickets;
    assert forall i, j :: 0 <= i < j < |d.calls| && SameEvent(after, d.calls[i], d.calls[j]) ==>
                            SameEvent(d, d.calls[i], d.calls[j]);
    assert CallsApart(after);
  }

  /** The new token is the only live one of its event. */
  lemma ClaimLive(d: Desk, events: Events, id: Uuid, token: Uuid, until: int)
    requires EventsExact(d.tables, events) && TicketsExact(d) && LiveGuarded(d, events) && OneLive(d)
    requires id in d.tables.deliveries && d.tables.deliveries[id].lease.None? && token !in d.tickets
    requires !d.tables.deliveries[id].status.Complete()
    ensures LiveGuarded(DeskClaim(d, id, token, until), events) && OneLive(DeskClaim(d, id, token, until))
  {
    hide EventsExact, Guarded;
    var after := DeskClaim(d, id, token, until);
    forall x | Live(after, x)
      ensures Guarded(after.tables, events, after.tickets[x], x)
      ensures x == token || (Live(d, x) && d.tickets[x].eventId != d.tables.deliveries[id].eventId)
    {
      ClaimGuard(d, events, id, token, until, x);
    }
    forall x, y | Live(after, x) && Live(after, y) && SameEvent(after, x, y)
      ensures x == y
    {
      assert x != token && y != token ==> SameEvent(d, x, y);
    }
  }

  lemma ClaimGuard(d: Desk, events: Events, id: Uuid, token: Uuid, until: int, x: Uuid)
    requires EventsExact(d.tables, events) && TicketsExact(d) && LiveGuarded(d, events)
    requires id in d.tables.deliveries && d.tables.deliveries[id].lease.None? && token !in d.tickets
    requires !d.tables.deliveries[id].status.Complete() && Live(DeskClaim(d, id, token, until), x)
    ensures var after := DeskClaim(d, id, token, until); Guarded(after.tables, events, after.tickets[x], x)
    ensures x == token || (Live(d, x) && d.tickets[x].eventId != d.tables.deliveries[id].eventId)
  {
    hide EventsExact;
    if x != token {
      assert Live(d, x);
      NothingLive(d, events, id, x);
      assert d.tickets[x].deliveryId != id;
    }
  }

  // ---------------------------------------------------------------------------------
  // Every step keeps the invariant

  lemma ClaimWorkKeeps(d: Desk, events: Events, id: Uuid, token: Uuid, at: int, leaseMs: int)
    requires Invariant(d, events) && token !in d.tickets
    ensures Invariant(After(d, events, ClaimWork(id, token, at, leaseMs)), events)
  {
    hide OneLive, CallsApart, LiveGuarded, EventsExact, TablesExact, TicketsExact, Expired;
    if id in d.tables.deliveries {
      var row := d.tables.deliveries[id];
      LeasedWhileSending(d.tables, id);
      if row.status == Sending {
        if Expired(row, at) { ExpiredKeeps(d, events, id); }
      } else if !row.status.Complete() {
        if row.attempts >= row.maxAttempts {
          RowKeeps(d, events, id, row.(status := DeadLettered, lease := None));
        } else {
          NotYetAttempted(d, token);
          ClaimTables(d.tables, id, token, at + leaseMs);
          ClaimKeeps(d, events, id, token, at + leaseMs);
        }
      }
    }
  }

  lemma LeasedWhileSending(t: Tables, id: Uuid)
    requires TablesExact(t) && id in t.deliveries
    ensures var d := t.deliveries[id];
            && (d.status == Sending <==> d.lease.Some?) && d.attempts <= d.maxAttempts
            && (d.status == Sending ==> LiveAttempt(t, d.lease.value.token))
  {
  }

  /** An expired claim is parked for good. */
  lemma ExpiredKeeps(d: Desk, events: Events, id: Uuid)
    requires Invariant(d, events) && id in d.tables.deliveries && d.tables.deliveries[id].lease.Some?
    ensures var row := d.tables.deliveries[id];
            Invariant(d.(tables := WithFinished(d.tables, id, row.(status := Ambiguous, lease := None),
                                                row.lease.value.token, Unknown)), events)
  {
    hide OneLive, CallsApart, LiveGuarded, EventsExact, TablesExact;
    var row := d.tables.deliveries[id];
    LeasedWhileSending(d.tables, id);
    var next, token := row.(status := Ambiguous, lease := None), row.lease.value.token;
    FinishKeeps(d, d.(tables := WithFinished(d.tables, id, next, token, Unknown)), events, id, next, token, Unknown);
  }

  lemma DeferClaimKeeps(d: Desk, events: Events, token: Uuid, retryAt: int)
    requires Invariant(d, events) && Ready(d, DeferClaimWork(token, retryAt))
    ensures Invariant(After(d, events, DeferClaimWork(token, retryAt)), events)
  {
    hide Invariant, After, GivenBack, Finish;
    if LiveAttempt(d.tables, token) {
      OpenIsHeld(d, events, token);
      GiveBackKeeps(d, events, token, retryAt);
    } else {
      LateDefer(d, events, token, retryAt);
      DropKeeps(d, events, token);
    }
  }

  lemma GiveBackKeeps(d: Desk, events: Events, token: Uuid, retryAt: int)
    requires Invariant(d, events) && Ready(d, DeferClaimWork(token, retryAt))
    requires LiveAttempt(d.tables, token) && Holds(d.tables, d.tickets[token], token)
    ensures Invariant(After(d, events, DeferClaimWork(token, retryAt)), events)
  {
    hide OneLive, CallsApart, LiveGuarded, EventsExact, TablesExact;
    var id, after := d.tickets[token].deliveryId, After(d, events, DeferClaimWork(token, retryAt));
    AttemptsLeft(d.tables, id);
    FinishKeeps(d, after, events, id, GivenBack(d.tables.deliveries[id], retryAt), token, Deferred);
  }

  lemma LateDefer(d: Desk, events: Events, token: Uuid, retryAt: int)
    requires Ready(d, DeferClaimWork(token, retryAt)) && !LiveAttempt(d.tables, token)
    ensures After(d, events, DeferClaimWork(token, retryAt)) == d.(held := d.held - {token})
  {
  }

  lemma LateAnswer(d: Desk, events: Events, token: Uuid, answer: Answer, retryAt: int)
    requires Ready(d, ApplyWork(token, answer, retryAt)) && !Holds(d.tables, d.tickets[token], token)
    ensures After(d, events, ApplyWork(token, answer, retryAt)) == d.(held := d.held - {token})
  {
  }

  lemma AttemptsLeft(t: Tables, id: Uuid)
    requires TablesExact(t) && id in t.deliveries
    ensures t.deliveries[id].attempts <= t.deliveries[id].maxAttempts
  {
  }

  lemma AnsweredRests(d: Delivery, answer: Answer, retryAt: int)
    requires d.attempts <= d.maxAttempts
    ensures Rests(d, Answered(d, answer, retryAt)) && Recorded(answer) != Open
    ensures answer == RetryableFailure(false) || Answered(d, answer, retryAt).status.Complete()
  {
  }

  /** An open attempt belongs to the claim its delivery waits for. */
  lemma OpenIsHeld(d: Desk, events: Events, token: Uuid)
    requires Invariant(d, events) && LiveAttempt(d.tables, token)
    ensures token in d.tickets && Holds(d.tables, d.tickets[token], token)
  {
    hide OneLive, CallsApart, LiveGuarded, EventsExact, ClaimsNumbered;
  }

  lemma HeldIsOpen(d: Desk, events: Events, token: Uuid)
    requires Invariant(d, events) && token in d.tickets && Holds(d.tables, d.tickets[token], token)
    ensures LiveAttempt(d.tables, token)
  {
    hide OneLive, CallsApart, LiveGuarded, EventsExact, ClaimsNumbered, TicketsExact;
  }

  lemma ApplyKeeps(d: Desk, events: Events, token: Uuid, answer: Answer, retryAt: int)
    requires Invariant(d, events) && Ready(d, ApplyWork(token, answer, retryAt))
    ensures Invariant(After(d, events, ApplyWork(token, answer, retryAt)), events)
  {
    hide Invariant, After, Answered, Finish;
    if Holds(d.tables, d.tickets[token], token) {
      HeldIsOpen(d, events, token);
      AnswerKeeps(d, events, token, answer, retryAt);
    } else {
      LateAnswer(d, events, token, answer, retryAt);
      DropKeeps(d, events, token);
    }
  }

  lemma AnswerKeeps(d: Desk, events: Events, token: Uuid, answer: Answer, retryAt: int)
    requires Invariant(d, events) && Ready(d, ApplyWork(token, answer, retryAt))
    requires LiveAttempt(d.tables, token) && Holds(d.tables, d.tickets[token], token)
    ensures Invariant(After(d, events, ApplyWork(token, answer, retryAt)), events)
  {
    hide OneLive, CallsApart, LiveGuarded, EventsExact, TablesExact, Answered, Recorded;
    var id, after := d.tickets[token].deliveryId, After(d, events, ApplyWork(token, answer, retryAt));
    var row := d.tables.deliveries[id];
    AttemptsLeft(d.tables, id);
    AnsweredRests(row, answer, retryAt);
    FinishKeeps(d, after, events, id, Answered(row, answer, retryAt), token, Recorded(answer));
  }

  /**
   * No fence ever finds the tables inconsistent: an expired lease has its open attempt, claim
   * numbers never repeat, and an open attempt and its delivery agree on who holds the claim.
   */
  lemma FencesHold(d: Desk, events: Events, token: Uuid)
    requires Invariant(d, events)
    ensures forall id, at, leaseMs :: token !in d.tickets ==> !Claim(d.tables, id, token, at, leaseMs).1.ClaimError?
    ensures forall retryAt :: token in d.tickets ==>
              DeferClaim(d.tables, d.tickets[token], token, retryAt).1 != FenceError
    ensures forall answer, retryAt :: token in d.tickets ==>
              Apply(d.tables, d.tickets[token], token, answer, retryAt).1 != FenceError
  {
    hide OneLive, CallsApart, LiveGuarded, EventsExact, Answered, GivenBack;
    forall id, at, leaseMs | token !in d.tickets
      ensures !Claim(d.tables, id, token, at, leaseMs).1.ClaimError?
    {
      ClaimSucceeds(d, events, id, token, at, leaseMs);
    }
    if token in d.tickets && LiveAttempt(d.tables, token) { OpenIsHeld(d, events, token); }
    if token in d.tickets && Holds(d.tables, d.tickets[token], token) { HeldIsOpen(d, events, token); }
  }

  lemma ClaimSucceeds(d: Desk, events: Events, id: Uuid, token: Uuid, at: int, leaseMs: int)
    requires Invariant(d, events) && token !in d.tickets
    ensures !Claim(d.tables, id, token, at, leaseMs).1.ClaimError?
  {
    hide OneLive, CallsApart, LiveGuarded, EventsExact, ClaimsNumbered;
    NotYetAttempted(d, token);
  }

  lemma CallKeeps(d: Desk, events: Events, token: Uuid)
    requires Invariant(d, events) && token in d.held && token !in d.calls
    ensures Invariant(d.(calls := d.calls + [token]), events)
  {
    hide TablesExact, EventsExact, Guarded;
    var after := d.(calls := d.calls + [token]);
    assert forall x :: Live(after, x) == Live(d, x);
    assert forall x, y :: SameEvent(after, x, y) == SameEvent(d, x, y);
    assert Live(d, token);
    forall i, j | 0 <= i < j < |after.calls| && SameEvent(after, after.calls[i], after.calls[j])
      ensures after.calls[i] in after.spared
    {
      var x := after.calls[i];
      assert x in d.calls && x != token;
      assert x in d.spared || Live(d, x);
    }
  }

  lemma StepKeeps(d: Desk, events: Events, a: Work)
    requires Invariant(d, events)
    ensures Invariant(Step(d, events, a), events)
  {
    hide Begin, Claim, DeferClaim, Apply, OneLive, CallsApart, LiveGuarded, EventsExact, AttemptsExact, ClaimsNumbered;
    if Ready(d, a) {
      match a
      case BeginWork(job, id, maxAttempts) => BeginKeeps(d, events, job, id, maxAttempts);
      case ClaimWork(id, token, at, leaseMs) => ClaimWorkKeeps(d, events, id, token, at, leaseMs);
      case RefuseWork(id, suppressed) =>
        if id in d.tables.deliveries && d.tables.deliveries[id].status in {Pending, RetryScheduled} {
          RowKeeps(d, events, id, d.tables.deliveries[id].(status := if suppressed then Suppressed else Failed));
        }
      case DeferWork(id, retryAt) =>
        if id in d.tables.deliveries && d.tables.deliveries[id].status in {Pending, RetryScheduled} {
          var row := d.tables.deliveries[id];
          RowKeeps(d, events, id, row.(status := RetryScheduled, retrySeq := row.retrySeq + 1,
                                       nextAttemptAt := Some(retryAt)));
        }
      case DeferClaimWork(token, retryAt) => DeferClaimKeeps(d, events, token, retryAt);
      case CallWork(token) => CallKeeps(d, events, token);
      case ApplyWork(token, answer, retryAt) => ApplyKeeps(d, events, token, answer, retryAt);
      case CrashWork(token) => DropKeeps(d, events, token);
    }
  }

  lemma StartInvariant()
    ensures Invariant(NOBODY, map[])
  {
    hide TablesExact, EventsExact, TicketsExact, LiveGuarded, OneLive, CallsApart;
    NoTables(NOBODY.tables, map[]);
    NoTickets(NOBODY, map[]);
  }

  lemma NoTables(t: Tables, events: Events)
    requires t == Tables(map[], map[])
    ensures TablesExact(t) && EventsExact(t, events)
  {
  }

  lemma NoTickets(d: Desk, events: Events)
    requires d == NOBODY
    ensures TicketsExact(d) && LiveGuarded(d, events) && OneLive(d) && CallsApart(d)
  {
    hide Guarded;
    assert d.tickets == map[] && d.held == {} && d.calls == [] && d.spared == {};
    assert forall token :: !Live(d, token);
  }

  // ---------------------------------------------------------------------------------
  // What the history records

  /**
   * A call is recorded as without effect only when its own claim, still current, brings that
   * answer, and then its attempt says so. A call is made only under a claim that is held and
   * under which none was made. A ticket is what a successful claim was of.
   */
  lemma HistoryMeans(d: Desk, events: Events, a: Work)
    ensures var after := Step(d, events, a);
            && (forall token :: token in after.spared && token !in d.spared ==>
                  && a.ApplyWork? && a.token == token && a.answer == RetryableFailure(false)
                  && token in d.calls && token in d.tickets && token in d.tables.attempts
                  && d.tables.attempts[token].status == Open
                  && token in after.tables.attempts && after.tables.attempts[token].status == Retryable
                  && d.tickets[token].deliveryId in d.tables.deliveries
                  && d.tables.deliveries[d.tickets[token].deliveryId].lease.Some?
                  && d.tables.deliveries[d.tickets[token].deliveryId].lease.value.token == token)
            && (after.calls == d.calls
                || (a.CallWork? && after.calls == d.calls + [a.token] && a.token in d.held && a.token !in d.calls))
            && (forall token :: token in after.tickets && token !in d.tickets ==>
                  && a.ClaimWork? && a.token == token && a.id in d.tables.deliveries
                  && after.tickets[token].deliveryId == a.id
                  && after.tickets[token].eventId == d.tables.deliveries[a.id].eventId
                  && token in after.tables.attempts
                  && after.tables.attempts[token] == Attempt(a.id, after.tickets[token].claimSeq, Open))
            && (forall token <- d.tickets :: token in after.tickets && after.tickets[token] == d.tickets[token])
            && d.spared <= after.spared
  {
    hide Begin, Refuse, Defer, AttemptInserts;
    if Ready(d, a) {
      match a
      case BeginWork(_, _, _) =>
      case ClaimWork(_, _, _, _) =>
      case RefuseWork(_, _) =>
      case DeferWork(_, _) =>
      case DeferClaimWork(_, _) =>
      case CallWork(_) =>
      case ApplyWork(_, _, _) =>
      case CrashWork(_) =>
    }
  }

  /** When a worker's step can happen: calls and deferrals under a held claim without a call, answers to calls. */
  lemma ReadyExactly(d: Desk, a: Work)
    ensures Ready(d, a) <==>
            match a
            case BeginWork(_, id, _) => id !in d.known
            case ClaimWork(_, token, _, _) => token !in d.tickets
            case RefuseWork(_, _) => true
            case DeferWork(_, _) => true
            case DeferClaimWork(token, _) => token in d.tickets && token in d.held && token !in d.calls
            case CallWork(token) => token in d.held && token !in d.calls
            case ApplyWork(token, _, _) => token in d.tickets && token in d.calls
            case CrashWork(_) => true
  {
  }
}
