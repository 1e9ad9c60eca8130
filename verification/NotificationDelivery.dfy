/** Deliveries of notifications: leased claims, provider calls, deferrals and retries. */
module NotificationDelivery {
  // Each SQL transaction is one atomic step; workers may crash, stall past their lease and answer
  // late. Lease tokens and delivery identifiers are fresh random UUIDs. What a provider does with
  // a call is told by its result alone.

  import opened Common
  import Outbox
  import opened AlertFence

  type Events = map<Uuid, AlertEvent>

  datatype Status = Pending | Sending | RetryScheduled | Ambiguous | Sent | Suppressed | Failed | DeadLettered
  {
    /** No statement moves a delivery on from here. */
    predicate Complete() { this !in {Pending, Sending, RetryScheduled} }
  }

  datatype Lease = Lease(token: Uuid, until: int)

  datatype Delivery = Delivery(
    eventId: Uuid,
    key: string,
    status: Status,
    attempts: nat,
    maxAttempts: nat,
    claimSeq: nat,
    retrySeq: nat,
    lease: Option<Lease>,
    nextAttemptAt: Option<int>)

  datatype AttemptStatus = Open | Accepted | Retryable | Permanent | Deferred | Unknown

  datatype Attempt = Attempt(deliveryId: Uuid, claimSeq: nat, status: AttemptStatus)

  /** Deliveries by identifier, provider attempts by lease token. */
  datatype Tables = Tables(deliveries: map<Uuid, Delivery>, attempts: map<Uuid, Attempt>)

  // ---------------------------------------------------------------------------------
  // Taking up a job

  datatype Context = Missing | Mismatch | Loaded(event: AlertEvent)

  /** The event a job names; a job that differs from it is an error. */
  function LoadContext(events: Events, job: Job): Context {
    if job.eventId !in events then Missing
    else if StoredJob(events[job.eventId]) != job then Mismatch
    else Loaded(events[job.eventId])
  }

  /** A new event's job matches the stored event exactly if the matched value has at most twelve decimals. */
  lemma NewJobMatches(events: Events, c: Candidate, eventId: Uuid)
    requires eventId in events && events[eventId] == EventOf(c, eventId)
    ensures LoadContext(events, NewJob(c, eventId)).Loaded? <==> WholeUnits(c.currentValue)
    ensures LoadContext(events, NewJob(c, eventId)).Mismatch? <==> !WholeUnits(c.currentValue)
  {
    hide Stored;
    StoredExactly(c.currentValue);
  }

  /** A price of a tenth of the last stored decimal, in any candidate. */
  lemma SmallPriceMismatch(events: Events, c: Candidate, eventId: Uuid)
    requires eventId in events && events[eventId] == EventOf(c, eventId) && c.currentValue == 0.0000000000001
    ensures LoadContext(events, NewJob(c, eventId)).Mismatch? && events[eventId].currentValue == 0.0
  {
    assert c.currentValue * VALUE_SCALE as real == 0.1;
    NewJobMatches(events, c, eventId);
  }

  function DeliveryKey(job: Job): string { job.idempotencyKey + ":" + job.notificationType }

  /** One delivery per key: a second one is not inserted. */
  function Begin(t: Tables, events: Events, job: Job, id: Uuid, maxAttempts: nat): Tables {
    if !LoadContext(events, job).Loaded? || (exists d <- t.deliveries.Values :: d.key == DeliveryKey(job)) then t
    else
      t.(deliveries := t.deliveries[id := Delivery(job.eventId, DeliveryKey(job), Pending, 0, maxAttempts, 0, 0,
                                                   None, None)])
  }

  // ---------------------------------------------------------------------------------
  // Claims

  predicate Reached(time: Option<int>, at: int) { time.Some? && time.value <= at }

  predicate Expired(d: Delivery, at: int) { d.status == Sending && d.lease.Some? && d.lease.value.until <= at }

  /** An error stands for the exceptions of the fences, which roll the transaction back. */
  datatype ClaimResult = Nothing | Claimed(claimSeq: nat) | ClaimError

  predicate LiveAttempt(t: Tables, token: Uuid) { token in t.attempts && t.attempts[token].status == Open }

  function Finish(t: Tables, token: Uuid, status: AttemptStatus): map<Uuid, Attempt> {
    if token in t.attempts then t.attempts[token := t.attempts[token].(status := status)] else t.attempts
  }

  predicate AttemptInserts(t: Tables, token: Uuid, id: Uuid, claimSeq: nat) {
    token !in t.attempts && forall a <- t.attempts.Values :: a.deliveryId != id || a.claimSeq != claimSeq
  }

  function Claim(t: Tables, id: Uuid, token: Uuid, at: int, leaseMs: int): (Tables, ClaimResult) {
    if id !in t.deliveries then (t, Nothing)
    else
      var d := t.deliveries[id];
      if d.status.Complete() || (d.status == RetryScheduled && !Reached(d.nextAttemptAt, at))
         || (d.status == Sending && !Expired(d, at)) then (t, Nothing)
      else if d.status == Sending then
        if !LiveAttempt(t, d.lease.value.token) then (t, ClaimError)
        else (Tables(t.deliveries[id := d.(status := Ambiguous, lease := None)],
                     Finish(t, d.lease.value.token, Unknown)),
              Nothing)
      else if d.attempts >= d.maxAttempts then
        (t.(deliveries := t.deliveries[id := d.(status := DeadLettered, lease := None)]), Nothing)
      else if !AttemptInserts(t, token, id, d.claimSeq + 1) then (t, ClaimError)
      else (Tables(t.deliveries[id := d.(status := Sending, attempts := d.attempts + 1, claimSeq := d.claimSeq + 1,
                                         lease := Some(Lease(token, at + leaseMs)), nextAttemptAt := None)],
                   t.attempts[token := Attempt(id, d.claimSeq + 1, Open)]),
            Claimed(d.claimSeq + 1))
  }

  /** What a worker remembers of a claim. */
  datatype Ticket = Ticket(deliveryId: Uuid, eventId: Uuid, claimSeq: nat)

  /** The claim is still the one the delivery waits for. */
  predicate Holds(t: Tables, k: Ticket, token: Uuid) {
    && k.deliveryId in t.deliveries
    && var d := t.deliveries[k.deliveryId];
       d.status == Sending && d.claimSeq == k.claimSeq && d.lease.Some? && d.lease.value.token == token
  }

  datatype Outcome = Delivered | Scheduled | Terminal | Late | FenceError

  /** A claim given back before the provider is called; the attempt is not counted. */
  function DeferClaim(t: Tables, k: Ticket, token: Uuid, retryAt: int): (Tables, Outcome) {
    if !LiveAttempt(t, token) then (t, Late)
    else if !Holds(t, k, token) then (t, FenceError)
    else
      (Tables(t.deliveries[k.deliveryId := GivenBack(t.deliveries[k.deliveryId], retryAt)], Finish(t, token, Deferred)),
       Scheduled)
  }

  function GivenBack(d: Delivery, retryAt: int): Delivery {
    d.(status := RetryScheduled, attempts := if d.attempts > 0 then d.attempts - 1 else 0, retrySeq := d.retrySeq + 1,
       lease := None, nextAttemptAt := Some(retryAt))
  }

  /** What a provider answers; a retryable failure had no effect, or nobody knows. */
  datatype Answer = AcceptedBy | RetryableFailure(unknownEffect: bool) | PermanentFailure(suppress: bool)

  function Apply(t: Tables, k: Ticket, token: Uuid, answer: Answer, retryAt: int): (Tables, Outcome) {
    if !Holds(t, k, token) then (t, Late)
    else if !LiveAttempt(t, token) then (t, FenceError)
    else
      var d := t.deliveries[k.deliveryId];
      var answered := Answered(d, answer, retryAt);
      (Tables(t.deliveries[k.deliveryId := answered], Finish(t, token, Recorded(answer))),
       if answered.status == Sent then Delivered else if answered.status == RetryScheduled then Scheduled else Terminal)
  }

  /** Only a failure without effect, and only before the last attempt, is tried again. */
  function Answered(d: Delivery, answer: Answer, retryAt: int): Delivery {
    match answer
    case AcceptedBy => d.(status := Sent, lease := None)
    case RetryableFailure(unknownEffect) =>
      if unknownEffect then d.(status := Ambiguous, lease := None)
      else if d.attempts >= d.maxAttempts then
        d.(status := DeadLettered, retrySeq := d.retrySeq + 1, nextAttemptAt := None, lease := None)
      else d.(status := RetryScheduled, retrySeq := d.retrySeq + 1, nextAttemptAt := Some(retryAt), lease := None)
    case PermanentFailure(suppress) => d.(status := if suppress then Suppressed else Failed, lease := None)
  }

  function Recorded(answer: Answer): AttemptStatus {
    match answer
    case AcceptedBy => Accepted
    case RetryableFailure(unknownEffect) => if unknownEffect then Unknown else Retryable
    case PermanentFailure(_) => Permanent
  }

  /** The recipient or the provider is not available. */
  function Refuse(t: Tables, id: Uuid, suppressed: bool): Tables {
    if id !in t.deliveries || t.deliveries[id].status !in {Pending, RetryScheduled} then t
    else t.(deliveries := t.deliveries[id := t.deliveries[id].(status := if suppressed then Suppressed else Failed)])
  }

  function Defer(t: Tables, id: Uuid, retryAt: int): Tables {
    if id !in t.deliveries || t.deliveries[id].status !in {Pending, RetryScheduled} then t
    else
      var d := t.deliveries[id];
      t.(deliveries := t.deliveries[id := d.(status := RetryScheduled, retrySeq := d.retrySeq + 1,
                                             nextAttemptAt := Some(retryAt))])
  }

  // ---------------------------------------------------------------------------------
  // The retry scan

  const RETRY_PREFIX := "delivery-retry:"

  function Digit(n: nat): char
    requires n < 10
  {
    ('0' as int + n) as char
  }

  function Decimal(n: nat): (s: Uuid)
    ensures s != "" && forall i :: 0 <= i < |s| ==> '0' <= s[i] <= '9'
  {
    var last := [Digit(n % 10)];
    if n < 10 then last else Decimal(n / 10) + last
  }

  function RetryKey(id: Uuid, retrySeq: nat, attempts: nat): Key {
    Outbox.Key(NOTIFICATIONS_PENDING, RETRY_PREFIX + id + ":" + (Decimal(retrySeq) + ":" + Decimal(attempts)))
  }

  predicate RetryKeyed(k: Key) { k.stream == NOTIFICATIONS_PENDING && RETRY_PREFIX <= k.eventKey }

  /** An expired claim may have reached the provider: its delivery is never claimed again. */
  function Reaped(t: Tables, at: int): Tables {
    Tables(map id | id in t.deliveries ::
             var d := t.deliveries[id];
             if Expired(d, at) then d.(status := Ambiguous, lease := None)
             else if d.status == RetryScheduled && d.attempts >= d.maxAttempts && Reached(d.nextAttemptAt, at)
             then d.(status := DeadLettered)
             else d,
           map token | token in t.attempts ::
             var a := t.attempts[token];
             if a.status == Open && a.deliveryId in t.deliveries
                && Expired(t.deliveries[a.deliveryId], at) && t.deliveries[a.deliveryId].lease.value.token == token
             then a.(status := Unknown) else a)
  }

  predicate RetryDue(t: Tables, events: Events, id: Uuid, at: int) {
    && id in t.deliveries
    && var d := t.deliveries[id];
       && d.status == RetryScheduled && d.attempts < d.maxAttempts && Reached(d.nextAttemptAt, at)
       && d.eventId in events
  }

  function Resumed(d: Delivery): Delivery { d.(status := Pending, nextAttemptAt := None, lease := None) }

  function WithResumed(t: Tables, picks: seq<Uuid>): Tables {
    t.(deliveries := map id | id in t.deliveries :: if id in picks then Resumed(t.deliveries[id]) else t.deliveries[id])
  }

  /** The retry job of a delivery, made from the stored event. */
  function RetryOf(t: Tables, events: Events, id: Uuid): Payload
    requires id in t.deliveries && t.deliveries[id].eventId in events
  {
    NotificationJob(StoredJob(events[t.deliveries[id].eventId]))
  }

  function KeyOf(t: Tables, id: Uuid): Key
    requires id in t.deliveries
  {
    RetryKey(id, t.deliveries[id].retrySeq, t.deliveries[id].attempts)
  }

  predicate HaveEvents(t: Tables, events: Events, picks: seq<Uuid>) {
    forall id <- picks :: id in t.deliveries && t.deliveries[id].eventId in events
  }

  function EnqueueRetries(t: Tables, events: Events, outbox: OutboxRows, picks: seq<Uuid>, at: int): Option<OutboxRows>
    requires HaveEvents(t, events, picks)
  {
    if picks == [] then Some(outbox)
    else
      var id := picks[|picks| - 1];
      var earlier :- EnqueueRetries(t, events, outbox, picks[..|picks| - 1], at);
      Outbox.EnqueueRow(earlier, KeyOf(t, id), RetryOf(t, events, id), at)
  }

  /** The whole scan over the picked due deliveries; None if an outbox insert throws. */
  function Republish(t: Tables, events: Events, outbox: OutboxRows, picks: seq<Uuid>, at: int)
    : Option<(Tables, OutboxRows)>
    requires forall id <- picks :: RetryDue(Reaped(t, at), events, id, at)
  {
    var reaped := Reaped(t, at);
    assert forall id <- picks :: RetryDue(reaped, events, id, at);
    var rows :- EnqueueRetries(reaped, events, outbox, picks, at);
    Some((WithResumed(reaped, picks), rows))
  }

  /** Deleting an event deletes its deliveries, and a delivery its attempts. */
  function Cascade(t: Tables, events: Events): Tables {
    var deliveries := map id | id in t.deliveries && t.deliveries[id].eventId in events :: t.deliveries[id];
    Tables(deliveries,
           map token | token in t.attempts && t.attempts[token].deliveryId in deliveries :: t.attempts[token])
  }

  // ---------------------------------------------------------------------------------
  // Retries have keys of their own

  function NumberOf(s: string): nat
    requires forall i :: 0 <= i < |s| ==> '0' <= s[i] <= '9'
  {
    if s == "" then 0 else NumberOf(s[..|s| - 1]) * 10 + (s[|s| - 1] as int - '0' as int)
  }

  lemma {:induction false} DecimalRead(n: nat)
    ensures NumberOf(Decimal(n)) == n
  {
    var s := Decimal(n);
    assert s[|s| - 1] == Digit(n % 10);
    if n < 10 {
      assert s[..|s| - 1] == "";
    } else {
      DecimalRead(n / 10);
      assert s[..|s| - 1] == Decimal(n / 10);
    }
  }

  /** Two retries share a key only if they are of one delivery, one retry number and one attempt count. */
  lemma RetryKeyInjective(a: Uuid, s: nat, x: nat, b: Uuid, r: nat, y: nat)
    requires RetryKey(a, s, x) == RetryKey(b, r, y)
    ensures a == b && s == r && x == y
  {
    PrefixedInjective(RETRY_PREFIX, a, Decimal(s) + ":" + Decimal(x), b, Decimal(r) + ":" + Decimal(y));
    assert "" + Decimal(s) + ":" + Decimal(x) == Decimal(s) + ":" + Decimal(x);
    assert "" + Decimal(r) + ":" + Decimal(y) == Decimal(r) + ":" + Decimal(y);
    PrefixedInjective("", Decimal(s), Decimal(x), Decimal(r), Decimal(y));
    DecimalRead(s);
    DecimalRead(r);
    DecimalRead(x);
    DecimalRead(y);
  }

  lemma RetryNotEvent(k: Key)
    requires RetryKeyed(k)
    ensures !EventKeyed(k)
  {
    StreamsDistinct();
    assert k.eventKey[0] == 'd' && NOTIFICATION_PREFIX[0] == 'a';
  }

  lemma RetryKeyIsKeyed(id: Uuid, s: nat, x: nat)
    ensures RetryKeyed(RetryKey(id, s, x))
  {
    var tail := id + ":" + (Decimal(s) + ":" + Decimal(x));
    assert RetryKey(id, s, x).eventKey == RETRY_PREFIX + tail;
  }

  // ---------------------------------------------------------------------------------
  // Claims, field by field

  /** A claim follows on a delivery that waits, whose retry is due, or whose sender's lease is over, and on no other. */
  ghost predicate Free(t: Tables, id: Uuid, at: int) {
    && id in t.deliveries
    && var d := t.deliveries[id];
       || d.status == Pending
       || (d.status == RetryScheduled && d.nextAttemptAt.Some? && d.nextAttemptAt.value <= at)
       || (d.status == Sending && d.lease.Some? && d.lease.value.until <= at)
  }

  /** What a claim does: an expired one is parked with its attempt, a used-up delivery ends, any other is leased. */
  lemma ClaimMeans(t: Tables, id: Uuid, token: Uuid, at: int, leaseMs: int)
    ensures !Free(t, id, at) ==> Claim(t, id, token, at, leaseMs) == (t, Nothing)
    ensures Free(t, id, at) ==>
              var d := t.deliveries[id];
              Claim(t, id, token, at, leaseMs) ==
              if d.status == Sending then
                var expired := d.lease.value.token;
                if expired in t.attempts && t.attempts[expired].status == Open then
                  (Tables(t.deliveries[id := d.(status := Ambiguous, lease := None)],
                          t.attempts[expired := t.attempts[expired].(status := Unknown)]),
                   Nothing)
                else (t, ClaimError)
              else if d.attempts >= d.maxAttempts then
                (Tables(t.deliveries[id := d.(status := DeadLettered, lease := None)], t.attempts), Nothing)
              else if token in t.attempts
                      || exists a <- t.attempts.Values :: a.deliveryId == id && a.claimSeq == d.claimSeq + 1 then
                (t, ClaimError)
              else
                var lease := Lease(token, at + leaseMs);
                (Tables(t.deliveries[id := Delivery(d.eventId, d.key, Sending, d.attempts + 1, d.maxAttempts,
                                                    d.claimSeq + 1, d.retrySeq, Some(lease), None)],
                        t.attempts[token := Attempt(id, d.claimSeq + 1, Open)]),
                 Claimed(d.claimSeq + 1))
  {
  }

  /** A job is begun once per key, and only if it repeats its stored event. */
  lemma BeginMeans(t: Tables, events: Events, job: Job, id: Uuid, maxAttempts: nat)
    ensures var key := job.idempotencyKey + ":" + job.notificationType;
            var repeats := job.eventId in events && var e := events[job.eventId];
                           job == Job(e.id, e.alertId, e.userId, e.tokenAddress, e.currentValue, e.notificationType,
                                      e.idempotencyKey);
            Begin(t, events, job, id, maxAttempts) ==
            if repeats && forall d <- t.deliveries.Values :: d.key != key then
              Tables(t.deliveries[id := Delivery(job.eventId, key, Pending, 0, maxAttempts, 0, 0, None, None)],
                     t.attempts)
            else t
  {
  }
}
