/**
 * The raw market journal: an append-only table of events and, per subscription, the checkpoint of
 * the highest one. Each envelope is accepted in one transaction.
 */
module MarketJournal {
  import opened Common
  import opened Ordering

  const I64_LIMIT: nat := 0x8000_0000_0000_0000

  /** `wellFormed` is the verdict of the envelope's own validation and of the column checks. */
  datatype Envelope = Envelope(
    provider: string,
    commitment: string,
    eventId: string,
    subscription: string,
    slot: nat,
    hash: Bytes,
    payload: Bytes,
    details: string,
    wellFormed: bool)
  {
    function Key(): EventKey { EventKey(provider, commitment, eventId) }

    function Stream(): StreamKey { StreamKey(provider, subscription) }

    predicate Storable() { wellFormed && slot < I64_LIMIT }
  }

  datatype EventKey = EventKey(provider: string, commitment: string, eventId: string)

  datatype StreamKey = StreamKey(provider: string, subscription: string)

  datatype Row = Row(hash: Bytes, payload: Bytes, subscription: string, slot: nat, details: string)

  datatype Checkpoint = Checkpoint(commitment: string, slot: nat, eventId: string)

  datatype Tables = Tables(events: map<EventKey, Row>, checkpoints: map<StreamKey, Checkpoint>)

  datatype Outcome = Inserted | Replayed | Refused

  /** The collation of event ids, a total order on text. */
  type Collation = (string, string) -> bool

  // ---------------------------------------------------------------------------------
  // The three statements

  function InsertEvent(events: map<EventKey, Row>, e: Envelope): map<EventKey, Row> {
    if e.Key() in events then events
    else events[e.Key() := RowOf(e)]
  }

  function RowOf(e: Envelope): Row { Row(e.hash, e.payload, e.subscription, e.slot, e.details) }

  predicate SameBytes(events: map<EventKey, Row>, e: Envelope)
    requires e.Key() in events
  {
    events[e.Key()].hash == e.hash && events[e.Key()].payload == e.payload
  }

  function Greatest(less: Collation, a: string, b: string): string { if less(a, b) then b else a }

  function Upsert(less: Collation, checkpoints: map<StreamKey, Checkpoint>, e: Envelope)
    : Option<map<StreamKey, Checkpoint>>
  {
    if e.Stream() !in checkpoints then Some(checkpoints[e.Stream() := Checkpoint(e.commitment, e.slot, e.eventId)])
    else
      var c := checkpoints[e.Stream()];
      if c.commitment != e.commitment then None
      else
        var lastId := if e.slot > c.slot then e.eventId
                      else if e.slot == c.slot then Greatest(less, c.eventId, e.eventId) else c.eventId;
        Some(checkpoints[e.Stream() := Checkpoint(c.commitment, if c.slot < e.slot then e.slot else c.slot, lastId)])
  }

  function Accept(less: Collation, s: Tables, e: Envelope): (Tables, Outcome) {
    if !e.Storable() || (e.Key() in s.events && !SameBytes(s.events, e)) then (s, Refused)
    else
      var checkpoints := Upsert(less, s.checkpoints, e);
      if checkpoints.None? then (s, Refused)
      else (Tables(InsertEvent(s.events, e), checkpoints.value), if e.Key() in s.events then Replayed else Inserted)
  }

  /** The checkpoint after a position was delivered: the greater one, by slot and then by event id. */
  ghost predicate Advanced(less: Collation, before: Option<Checkpoint>, e: Envelope, after: Checkpoint) {
    after ==
    if before.None? || before.value.slot < e.slot then Checkpoint(e.commitment, e.slot, e.eventId)
    else if before.value.slot == e.slot && less(before.value.eventId, e.eventId)
      then before.value.(eventId := e.eventId)
    else before.value
  }

  /** The service, working on its two tables in place. */
  class Journal {
    var events: map<EventKey, Row>
    var checkpoints: map<StreamKey, Checkpoint>
    const less: Collation

    function Contents(): Tables
      reads this
    {
      Tables(events, checkpoints)
    }

    constructor (less: Collation)
      ensures Contents() == Tables(map[], map[]) && this.less == less
    {
      this.less := less;
      events, checkpoints := map[], map[];
    }

    /**
     * An envelope is refused for one of four causes: it cannot be stored, its slot does not fit
     * the column, its key holds other bytes, or its subscription has another commitment. A refused
     * envelope rolls the whole transaction back.
     */
    method AcceptEnvelope(e: Envelope) returns (outcome: Outcome)
      modifies this
      ensures outcome == Refused <==>
              var (key, stream) := (EventKey(e.provider, e.commitment, e.eventId),
                                    StreamKey(e.provider, e.subscription));
              || !e.wellFormed || e.slot >= 0x8000_0000_0000_0000
              || (key in old(events) && (old(events)[key].hash != e.hash || old(events)[key].payload != e.payload))
              || (stream in old(checkpoints) && old(checkpoints)[stream].commitment != e.commitment)
      ensures outcome == Refused ==> Contents() == old(Contents())
      ensures outcome != Refused ==>
                var (key, stream) := (EventKey(e.provider, e.commitment, e.eventId),
                                      StreamKey(e.provider, e.subscription));
                && (outcome == Inserted <==> key !in old(events))
                && events == (if key in old(events) then old(events)
                              else old(events)[key := Row(e.hash, e.payload, e.subscription, e.slot, e.details)])
                && stream in checkpoints && checkpoints == old(checkpoints)[stream := checkpoints[stream]]
                && Advanced(less, if stream in old(checkpoints) then Some(old(checkpoints)[stream]) else None, e,
                            checkpoints[stream])
      ensures (Contents(), outcome) == Accept(less, old(Contents()), e)
    {
      RefusedExactly(less, Contents(), e);
      if !e.Storable() {
        return Refused;
      }
      var beforeTransaction := events;
      events := InsertEvent(events, e);
      var inserted := events != beforeTransaction;
      if !inserted {
        if events[e.Key()].hash != e.hash || events[e.Key()].payload != e.payload {
          return Refused;
        }
      }
      var upserted := Upsert(less, checkpoints, e);
      if upserted.None? {
        events := beforeTransaction;
        return Refused;
      }
      checkpoints := upserted.value;
      return if inserted then Inserted else Replayed;
    }

    /**
     * Where a subscription resumes: after any consistent delivery, at the greatest slot delivered
     * for it under its commitment.
     */
    method ResumeSlot(stream: StreamKey, commitment: string) returns (slot: Option<nat>)
      ensures forall es ::
                TotalOrder(less) && Consistent(ToSet(es)) && Contents() == Run(less, es) ==>
                  Latest(ToSet(es), stream, commitment, slot)
      ensures slot.Some? ==> stream in checkpoints && slot.value == checkpoints[stream].slot
    {
      forall es | TotalOrder(less) && Consistent(ToSet(es)) && Contents() == Run(less, es)
        ensures Latest(ToSet(es), stream, commitment, Resume(Contents(), stream, commitment))
      {
        ResumesAtGreatest(less, es, stream, commitment);
      }
      if stream in checkpoints && checkpoints[stream].commitment == commitment {
        return Some(checkpoints[stream].slot);
      }
      return None;
    }
  }

  function Resume(s: Tables, stream: StreamKey, commitment: string): Option<nat> {
    if stream !in s.checkpoints || s.checkpoints[stream].commitment != commitment then None
    else Some(s.checkpoints[stream].slot)
  }

  // ---------------------------------------------------------------------------------
  // Any run

  /** The tables after a list of envelopes, starting empty. */
  function Run(less: Collation, es: seq<Envelope>): Tables {
    if es == [] then Tables(map[], map[]) else Accept(less, Run(less, es[..|es| - 1]), es[|es| - 1]).0
  }

  function OutcomeAt(less: Collation, es: seq<Envelope>, i: nat): Outcome
    requires i < |es|
  {
    Accept(less, Run(less, es[..i]), es[i]).1
  }

  /** Position (slot, event id) a is not after position b. */
  predicate NotAfter(less: Collation, a: Checkpoint, b: Checkpoint) {
    a.slot < b.slot || (a.slot == b.slot && !less(b.eventId, a.eventId))
  }

  function Position(e: Envelope): Checkpoint { Checkpoint(e.commitment, e.slot, e.eventId) }

  /** Rows are never changed or removed, and checkpoints only move forward. */
  ghost predicate OnlyAdds(less: Collation, s: Tables, t: Tables) {
    && (forall k :: k in s.events ==> k in t.events && t.events[k] == s.events[k])
    && (forall k :: k in s.checkpoints ==>
          && k in t.checkpoints && t.checkpoints[k].commitment == s.checkpoints[k].commitment
          && NotAfter(less, s.checkpoints[k], t.checkpoints[k]))
  }

  /** Whatever is sent, in whatever order: a prefix's rows stay and its checkpoints are never lowered. */
  lemma {:induction false} RunOnlyAdds(less: Collation, es: seq<Envelope>, n: nat)
    requires TotalOrder(less) && n <= |es|
    ensures OnlyAdds(less, Run(less, es[..n]), Run(less, es))
    decreases |es|
  {
    if n == |es| {
      assert es[..n] == es;
    } else {
      var front := es[..|es| - 1];
      assert front[..n] == es[..n];
      RunOnlyAdds(less, front, n);
    }
  }

  // The guards of acceptance, all in one place.
  lemma RefusedExactly(less: Collation, s: Tables, e: Envelope)
    ensures Accept(less, s, e).1 == Refused <==>
            || !e.wellFormed || e.slot >= I64_LIMIT
            || (e.Key() in s.events && (s.events[e.Key()].hash != e.hash || s.events[e.Key()].payload != e.payload))
            || (e.Stream() in s.checkpoints && s.checkpoints[e.Stream()].commitment != e.commitment)
    ensures Accept(less, s, e).1 == Refused ==> Accept(less, s, e).0 == s
  {
  }

  // ---------------------------------------------------------------------------------
  // Consistent deliveries

  /** The same key always brings the same bytes, and a subscription has one commitment. */
  ghost predicate Consistent(es: set<Envelope>) {
    && (forall e :: e in es ==> e.Storable())
    && (forall e, f :: e in es && f in es && e.Key() == f.Key() ==> e.hash == f.hash && e.payload == f.payload)
    && (forall e, f :: e in es && f in es && e.Stream() == f.Stream() ==> e.commitment == f.commitment)
  }

  ghost predicate Delivered(es: set<Envelope>, k: EventKey) {
    exists e :: e in es && e.Key() == k
  }

  ghost predicate Reached(es: set<Envelope>, k: StreamKey, c: Checkpoint) {
    exists e :: e in es && e.Stream() == k && Position(e) == c
  }

  ghost predicate StoredFrom(es: set<Envelope>, k: EventKey, row: Row) {
    exists e :: e in es && e.Key() == k && row == RowOf(e)
  }

  /** The events are those delivered, with their bytes, each row being one envelope's. */
  ghost predicate EventsReflect(events: map<EventKey, Row>, es: set<Envelope>) {
    && (forall k :: k in events ==> StoredFrom(es, k, events[k]))
    && (forall e :: e in es ==> e.Key() in events && SameBytes(events, e))
  }

  /** Each checkpoint is the greatest position delivered for its subscription. */
  ghost predicate CheckpointsReflect(less: Collation, checkpoints: map<StreamKey, Checkpoint>, es: set<Envelope>) {
    && (forall k :: k in checkpoints ==> Reached(es, k, checkpoints[k]))
    && (forall e :: e in es ==> e.Stream() in checkpoints && NotAfter(less, Position(e), checkpoints[e.Stream()]))
  }

  ghost predicate Reflects(less: Collation, s: Tables, es: set<Envelope>) {
    EventsReflect(s.events, es) && CheckpointsReflect(less, s.checkpoints, es)
  }

  lemma EventsStep(events: map<EventKey, Row>, es: set<Envelope>, e: Envelope)
    requires EventsReflect(events, es) && Consistent(es + {e})
    ensures e.Key() in events <==> Delivered(es, e.Key())
    ensures e.Key() in events ==> SameBytes(events, e)
    ensures EventsReflect(InsertEvent(events, e), es + {e})
  {
    assert e in es + {e};
    if e.Key() in events {
      var f :| f in es && f.Key() == e.Key();
      assert f in es + {e};
    }
    var after := InsertEvent(events, e);
    forall k | k in after
      ensures StoredFrom(es + {e}, k, after[k])
    {
      if k in events {
        var f :| f in es && f.Key() == k && events[k] == RowOf(f);
        assert f in es + {e};
      }
    }
  }

  lemma CheckpointsStep(less: Collation, checkpoints: map<StreamKey, Checkpoint>, es: set<Envelope>, e: Envelope)
    requires TotalOrder(less) && CheckpointsReflect(less, checkpoints, es) && Consistent(es + {e})
    ensures Upsert(less, checkpoints, e).Some? && CheckpointsReflect(less, Upsert(less, checkpoints, e).value, es + {e})
  {
    hide Upsert, NotAfter, TotalOrder, Consistent;
    Upserted(less, checkpoints, es, e);
    var after := Upsert(less, checkpoints, e).value;
    Raised(less, checkpoints, e);
    forall k | k in after
      ensures Reached(es + {e}, k, after[k])
    {
      if k in checkpoints && after[k] == checkpoints[k] {
        var f :| f in es && f.Stream() == k && Position(f) == checkpoints[k];
        assert f in es + {e};
      }
    }
    forall f | f in es + {e}
      ensures f.Stream() in after && NotAfter(less, Position(f), after[f.Stream()])
    {
      if f != e {
        assert f in es;
      }
    }
  }

  lemma Upserted(less: Collation, checkpoints: map<StreamKey, Checkpoint>, es: set<Envelope>, e: Envelope)
    requires CheckpointsReflect(less, checkpoints, es) && Consistent(es + {e})
    ensures Upsert(less, checkpoints, e).Some?
  {
    hide NotAfter;
    assert e in es + {e};
    if e.Stream() in checkpoints {
      var f :| f in es && f.Stream() == e.Stream() && Position(f) == checkpoints[e.Stream()];
      assert f in es + {e};
    }
  }

  /** The upsert leaves the greater of the stored position and the new one. */
  lemma Raised(less: Collation, checkpoints: map<StreamKey, Checkpoint>, e: Envelope)
    requires TotalOrder(less) && Upsert(less, checkpoints, e).Some?
    ensures var after := Upsert(less, checkpoints, e).value;
            && after.Keys == checkpoints.Keys + {e.Stream()}
            && (forall k :: k in checkpoints && k != e.Stream() ==> after[k] == checkpoints[k])
            && NotAfter(less, Position(e), after[e.Stream()])
            && (after[e.Stream()] == Position(e)
                || (e.Stream() in checkpoints && after[e.Stream()] == checkpoints[e.Stream()]))
            && (e.Stream() in checkpoints ==>
                  forall c :: NotAfter(less, c, checkpoints[e.Stream()]) ==> NotAfter(less, c, after[e.Stream()]))
  {
  }

  lemma ReflectsStep(less: Collation, s: Tables, es: set<Envelope>, e: Envelope)
    requires TotalOrder(less) && Reflects(less, s, es) && Consistent(es + {e})
    ensures Accept(less, s, e).1 == if Delivered(es, e.Key()) then Replayed else Inserted
    ensures Reflects(less, Accept(less, s, e).0, es + {e})
  {
    hide EventsReflect, CheckpointsReflect, Upsert, InsertEvent, TotalOrder;
    assert e.Storable() by {
      assert e in es + {e};
    }
    EventsStep(s.events, es, e);
    CheckpointsStep(less, s.checkpoints, es, e);
  }

  /**
   * Every envelope of a consistent list is accepted, `true` is answered exactly for the first of
   * each key, and the tables reflect the set of envelopes delivered.
   */
  lemma {:induction false} ConsistentRun(less: Collation, es: seq<Envelope>)
    requires TotalOrder(less) && Consistent(ToSet(es))
    ensures Reflects(less, Run(less, es), ToSet(es))
    ensures forall i :: 0 <= i < |es| ==>
              OutcomeAt(less, es, i) == if Delivered(ToSet(es[..i]), es[i].Key()) then Replayed else Inserted
  {
    hide Reflects, Accept, Consistent, Delivered, TotalOrder;
    if es == [] {
      NothingDelivered(less);
      assert ToSet(es) == {};
    } else {
      var front, e := es[..|es| - 1], es[|es| - 1];
      assert es == front + [e];
      ToSetAppend(front, e);
      FewerConsistent(ToSet(front), e);
      ConsistentRun(less, front);
      ReflectsStep(less, Run(less, front), ToSet(front), e);
      forall i | 0 <= i < |es|
        ensures OutcomeAt(less, es, i) == if Delivered(ToSet(es[..i]), es[i].Key()) then Replayed else Inserted
      {
        if i < |front| {
          assert front[..i] == es[..i] && OutcomeAt(less, front, i) == OutcomeAt(less, es, i);
        }
      }
    }
  }

  lemma NothingDelivered(less: Collation)
    ensures Reflects(less, Tables(map[], map[]), {})
  {
  }

  lemma FewerConsistent(es: set<Envelope>, e: Envelope)
    requires Consistent(es + {e})
    ensures Consistent(es)
  {
    assert forall f :: f in es ==> f in es + {e};
  }

  /** The number of envelopes of one key that were answered `true`. */
  function Insertions(less: Collation, es: seq<Envelope>, k: EventKey, n: nat): nat
    requires n <= |es|
  {
    if n == 0 then 0
    else Insertions(less, es, k, n - 1)
         + (if es[n - 1].Key() == k && OutcomeAt(less, es, n - 1) == Inserted then 1 else 0)
  }

  lemma {:induction false} InsertedOnce(less: Collation, es: seq<Envelope>, k: EventKey, n: nat)
    requires TotalOrder(less) && Consistent(ToSet(es)) && n <= |es|
    ensures Insertions(less, es, k, n) == if Delivered(ToSet(es[..n]), k) then 1 else 0
  {
    hide TotalOrder, Consistent, OutcomeAt, Delivered, ToSet, Reflects, Run;
    if n == 0 {
      NoneDelivered(es[..0], k);
    } else {
      InsertedOnce(less, es, k, n - 1);
      ConsistentRun(less, es);
      assert es[..n] == es[..n - 1] + [es[n - 1]];
      ToSetAppend(es[..n - 1], es[n - 1]);
      OneMore(ToSet(es[..n - 1]), es[n - 1], k);
    }
  }

  lemma NoneDelivered(es: seq<Envelope>, k: EventKey)
    requires es == []
    ensures !Delivered(ToSet(es), k)
  {
  }

  lemma OneMore(es: set<Envelope>, e: Envelope, k: EventKey)
    ensures Delivered(es + {e}, k) <==> Delivered(es, k) || e.Key() == k
  {
    assert e in es + {e};
    if Delivered(es, k) {
      var f :| f in es && f.Key() == k;
      assert f in es + {e};
    }
  }

  /** The bytes stored under each key. */
  function Stored(s: Tables): map<EventKey, (Bytes, Bytes)> {
    map k | k in s.events :: (s.events[k].hash, s.events[k].payload)
  }

  /** Order and repetition of a consistent delivery change neither the stored bytes nor a checkpoint. */
  lemma {:induction false} OrderIrrelevant(less: Collation, es: seq<Envelope>, fs: seq<Envelope>)
    requires TotalOrder(less) && Consistent(ToSet(es)) && ToSet(es) == ToSet(fs)
    ensures Stored(Run(less, es)) == Stored(Run(less, fs))
    ensures Run(less, es).checkpoints == Run(less, fs).checkpoints
  {
    hide Consistent, Run;
    ConsistentRun(less, es);
    ConsistentRun(less, fs);
    SameStored(Run(less, es), Run(less, fs), ToSet(es));
    SameCheckpoints(less, Run(less, es).checkpoints, Run(less, fs).checkpoints, ToSet(es));
  }

  lemma SameStored(s: Tables, t: Tables, es: set<Envelope>)
    requires EventsReflect(s.events, es) && EventsReflect(t.events, es)
    ensures Stored(s) == Stored(t)
  {
    forall k
      ensures k in s.events <==> k in t.events
      ensures k in s.events ==> s.events[k].hash == t.events[k].hash && s.events[k].payload == t.events[k].payload
    {
      if Delivered(es, k) {
        var e :| e in es && e.Key() == k;
        assert SameBytes(s.events, e) && SameBytes(t.events, e);
      }
    }
  }

  lemma SameCheckpoints(less: Collation, c: map<StreamKey, Checkpoint>, d: map<StreamKey, Checkpoint>,
                        es: set<Envelope>)
    requires TotalOrder(less) && Consistent(es) && CheckpointsReflect(less, c, es) && CheckpointsReflect(less, d, es)
    ensures c == d
  {
    hide CheckpointsReflect, TotalOrder, Consistent;
    forall k
      ensures k in c <==> k in d
      ensures k in c && k in d ==> c[k] == d[k]
    {
      if k in c { NotAhead(less, c, d, es, k); }
      if k in d { NotAhead(less, d, c, es, k); }
      if k in c && k in d { SamePosition(less, c[k], d[k]); }
    }
  }

  lemma NotAhead(less: Collation, c: map<StreamKey, Checkpoint>, d: map<StreamKey, Checkpoint>, es: set<Envelope>,
                 k: StreamKey)
    requires Consistent(es) && CheckpointsReflect(less, c, es) && CheckpointsReflect(less, d, es) && k in c
    ensures k in d && NotAfter(less, c[k], d[k]) && c[k].commitment == d[k].commitment
  {
    var e :| e in es && e.Stream() == k && Position(e) == c[k];
    var f :| f in es && f.Stream() == k && Position(f) == d[k];
    assert e.commitment == f.commitment;
  }

  lemma SamePosition(less: Collation, a: Checkpoint, b: Checkpoint)
    requires TotalOrder(less) && NotAfter(less, a, b) && NotAfter(less, b, a) && a.commitment == b.commitment
    ensures a == b
  {
  }

  /** The greatest slot among a subscription's envelopes of one commitment, if there are any. */
  ghost predicate Latest(es: set<Envelope>, stream: StreamKey, commitment: string, slot: Option<nat>) {
    && (forall e <- es :: e.Stream() == stream && e.commitment == commitment ==> slot.Some? && e.slot <= slot.value)
    && (slot.Some? ==>
          exists e <- es :: e.Stream() == stream && e.commitment == commitment && e.slot == slot.value)
  }

  /**
   * After a consistent delivery a subscription resumes at the greatest slot delivered for it under
   * the commitment asked for, and nowhere if nothing was.
   */
  lemma ResumesAtGreatest(less: Collation, es: seq<Envelope>, stream: StreamKey, commitment: string)
    requires TotalOrder(less) && Consistent(ToSet(es))
    ensures Latest(ToSet(es), stream, commitment, Resume(Run(less, es), stream, commitment))
  {
    hide Run, EventsReflect, CheckpointsReflect, TotalOrder, Consistent, Latest;
    ConsistentRun(less, es);
    CheckpointIsLatest(less, Run(less, es), ToSet(es), stream, commitment);
  }

  lemma CheckpointIsLatest(less: Collation, s: Tables, es: set<Envelope>, stream: StreamKey, commitment: string)
    requires CheckpointsReflect(less, s.checkpoints, es) && Consistent(es)
    ensures Latest(es, stream, commitment, Resume(s, stream, commitment))
  {
    if stream in s.checkpoints {
      var top :| top in es && top.Stream() == stream && Position(top) == s.checkpoints[stream];
      forall e | e in es && e.Stream() == stream
        ensures e.commitment == top.commitment && e.slot <= top.slot
      {
        assert NotAfter(less, Position(e), s.checkpoints[stream]);
      }
    }
  }

  /** Whatever is sent, a subscription never resumes earlier than it could before. */
  lemma ResumeNeverEarlier(less: Collation, es: seq<Envelope>, n: nat, stream: StreamKey, commitment: string)
    requires TotalOrder(less) && n <= |es| && Resume(Run(less, es[..n]), stream, commitment).Some?
    ensures var (before, after) :=
              (Resume(Run(less, es[..n]), stream, commitment), Resume(Run(less, es), stream, commitment));
            after.Some? && before.value <= after.value
  {
    hide Run;
    RunOnlyAdds(less, es, n);
  }
}
