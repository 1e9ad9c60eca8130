/** The transactional outbox and its publishing workers, one atomic step per SQL statement or Lua script. */
module Outbox {
  // Workers may crash, leases expire, replies get lost and deduplication markers expire between
  // any two steps. Rows are never pruned and streams never trimmed here, and only outbox workers
  // publish under an outbox row's stream and key.

  import opened Common

  /** Stream names hold no colon, so a marker key splits in one way only. */
  type StreamName = s: string | ':' !in s witness ""

  datatype Key = Key(stream: StreamName, eventKey: string)

  datatype Status = Pending | Publishing | Published | Failed

  datatype Row<P> = Row(
    payload: P,
    status: Status,
    attempts: nat,
    nextAttemptAt: int,
    leaseUntil: Option<int>,
    lockedBy: Option<string>,
    createdAt: int)

  /** The order in which due rows are claimed. */
  predicate ClaimedLater<P>(x: Row<P>, y: Row<P>) {
    y.nextAttemptAt < x.nextAttemptAt || (y.nextAttemptAt == x.nextAttemptAt && y.createdAt < x.createdAt)
  }

  /** What a worker holds in memory about one claimed row. */
  datatype Task<P> = Task(worker: string, key: Key, payload: P, attempts: nat, sent: bool)

  datatype Entry<P> = Entry(key: Key, payload: P)

  datatype World<P(==)> = World(
    rows: map<Key, Row<P>>,
    tasks: set<Task<P>>,
    markers: set<string>,
    entries: seq<Entry<P>>,
    expirations: multiset<string>)

  /** How a request to the database or to Redis can end: its effect and its reply are independent. */
  datatype Outcome = Outcome(executed: bool, acknowledged: bool) {
    predicate Possible() { acknowledged ==> executed }
  }

  datatype Action<P> =
    | Enqueue(key: Key, payload: P, at: int)
    | Claim(worker: string, picks: set<Key>, at: int, leaseMs: int)
    | Publish(task: Task<P>, outcome: Outcome)
    | MarkPublished(task: Task<P>, outcome: Outcome)
    | MarkFailed(task: Task<P>, outcome: Outcome, at: int, retryMs: int)
    | Crash(worker: string)
    | ExpireMarker(marker: string)

  // ---------------------------------------------------------------------------------
  // Statements

  function MarkerKey(k: Key): string { "stream:seen:" + k.stream + ":" + k.eventKey }

  /** Two rows never share a marker. */
  lemma {:induction false} MarkerKeyInjective(a: Key, b: Key)
    requires MarkerKey(a) == MarkerKey(b)
    ensures a == b
  {
    var x, y := a.stream + ":" + a.eventKey, b.stream + ":" + b.eventKey;
    assert MarkerKey(a)[|"stream:seen:"|..] == x && MarkerKey(b)[|"stream:seen:"|..] == y;
    var m, n := |a.stream|, |b.stream|;
    assert x[m] == ':' && y[n] == ':';
    assert forall i :: 0 <= i < m ==> x[i] == a.stream[i] && a.stream[i] in a.stream;
    assert forall i :: 0 <= i < n ==> y[i] == b.stream[i] && b.stream[i] in b.stream;
    assert m == n;
    assert a.stream == x[..m] && b.stream == y[..n];
    assert a.eventKey == x[m + 1..] && b.eventKey == y[n + 1..];
  }

  /** Inserts a pending row; a replay with the same payload is accepted, another payload is an error. */
  function EnqueueRow<P(==)>(rows: map<Key, Row<P>>, k: Key, payload: P, at: int): Option<map<Key, Row<P>>> {
    if k !in rows then Some(rows[k := Row(payload, Pending, 0, at, None, None, at)])
    else if rows[k].payload == payload then Some(rows)
    else None
  }

  predicate Due<P>(row: Row<P>, at: int, maxAttempts: nat) {
    && row.attempts < maxAttempts
    && (|| (row.status == Pending && row.nextAttemptAt <= at)
        || (row.status == Publishing && row.leaseUntil.Some? && row.leaseUntil.value <= at))
  }

  function ClaimRow<P>(row: Row<P>, worker: string, at: int, leaseMs: int): Row<P> {
    row.(status := Publishing, attempts := row.attempts + 1, leaseUntil := Some(at + leaseMs), lockedBy := Some(worker))
  }

  function ClaimRows<P>(rows: map<Key, Row<P>>, worker: string, picks: set<Key>, at: int, leaseMs: int)
    : map<Key, Row<P>>
  {
    map k | k in rows :: if k in picks then ClaimRow(rows[k], worker, at, leaseMs) else rows[k]
  }

  function TaskOf<P>(worker: string, k: Key, row: Row<P>): Task<P> {
    Task(worker, k, row.payload, row.attempts + 1, false)
  }

  /** Only the worker that still holds the row's lock can finish it. */
  predicate Holds<P>(rows: map<Key, Row<P>>, task: Task<P>) {
    task.key in rows && rows[task.key].lockedBy == Some(task.worker)
  }

  function PublishedRows<P>(rows: map<Key, Row<P>>, task: Task<P>): map<Key, Row<P>> {
    if !Holds(rows, task) then rows
    else rows[task.key := rows[task.key].(status := Published, leaseUntil := None, lockedBy := None)]
  }

  function FailedRows<P>(rows: map<Key, Row<P>>, task: Task<P>, at: int, retryMs: int, maxAttempts: nat)
    : map<Key, Row<P>>
  {
    if !Holds(rows, task) then rows
    else rows[task.key := rows[task.key].(status := if task.attempts >= maxAttempts then Failed else Pending,
                                          nextAttemptAt := at + retryMs, leaseUntil := None, lockedBy := None)]
  }

  /** The publishing script: at most one entry while the marker lives. */
  function PublishOnce<P(==)>(w: World<P>, k: Key, payload: P): World<P> {
    if MarkerKey(k) in w.markers then w
    else w.(markers := w.markers + {MarkerKey(k)}, entries := w.entries + [Entry(k, payload)])
  }

  // ---------------------------------------------------------------------------------
  // One step; an action whose guard fails changes nothing

  ghost predicate Enabled<P(!new)>(w: World<P>, a: Action<P>, maxAttempts: nat) {
    match a
    case Enqueue(_, _, _) => true
    case Claim(_, picks, at, _) => forall k <- picks :: k in w.rows && Due(w.rows[k], at, maxAttempts)
    case Publish(task, outcome) => task in w.tasks && !task.sent && outcome.Possible()
    case MarkPublished(task, outcome) => task in w.tasks && task.sent && outcome.Possible()
    case MarkFailed(task, outcome, _, _) => task in w.tasks && outcome.Possible()
    case Crash(_) => true
    case ExpireMarker(m) => m in w.markers
  }

  ghost function Effect<P(!new)>(w: World<P>, a: Action<P>, maxAttempts: nat): World<P>
    requires Enabled(w, a, maxAttempts)
  {
    match a
    case Enqueue(k, payload, at) =>
      var rows := EnqueueRow(w.rows, k, payload, at);
      if rows.Some? then w.(rows := rows.value) else w
    case Claim(worker, picks, at, leaseMs) =>
      w.(rows := ClaimRows(w.rows, worker, picks, at, leaseMs),
         tasks := w.tasks + set k | k in picks :: TaskOf(worker, k, w.rows[k]))
    case Publish(task, outcome) =>
      var after := if outcome.executed then PublishOnce(w, task.key, task.payload) else w;
      if outcome.acknowledged then after.(tasks := after.tasks - {task} + {task.(sent := true)}) else after
    case MarkPublished(task, outcome) =>
      w.(rows := if outcome.executed then PublishedRows(w.rows, task) else w.rows,
         tasks := if outcome.acknowledged then w.tasks - {task} else w.tasks)
    case MarkFailed(task, outcome, at, retryMs) =>
      w.(rows := if outcome.executed then FailedRows(w.rows, task, at, retryMs, maxAttempts) else w.rows,
         tasks := w.tasks - {task})
    case Crash(worker) => w.(tasks := set t | t in w.tasks && t.worker != worker)
    case ExpireMarker(m) => w.(markers := w.markers - {m}, expirations := w.expirations + multiset{m})
  }

  ghost function Step<P(!new)>(w: World<P>, a: Action<P>, maxAttempts: nat): World<P> {
    if Enabled(w, a, maxAttempts) then Effect(w, a, maxAttempts) else w
  }

  ghost function Run<P(!new)>(actions: seq<Action<P>>, maxAttempts: nat): World<P> {
    if actions == [] then World(map[], {}, {}, [], multiset{})
    else Step(Run(actions[..|actions| - 1], maxAttempts), actions[|actions| - 1], maxAttempts)
  }

  // ---------------------------------------------------------------------------------
  // The invariant

  ghost function EntryCount<P(!new)>(entries: seq<Entry<P>>, k: Key): nat {
    if entries == [] then 0
    else EntryCount(entries[..|entries| - 1], k) + (if entries[|entries| - 1].key == k then 1 else 0)
  }

  /** Everything on the stream under a row's key is that row's payload. */
  ghost predicate EntriesExact<P(!new)>(w: World<P>) {
    forall e <- w.entries :: e.key in w.rows && w.rows[e.key].payload == e.payload
  }

  ghost predicate RowsLocked<P(!new)>(w: World<P>, maxAttempts: nat) {
    forall k <- w.rows ::
      && w.rows[k].attempts <= maxAttempts
      && (w.rows[k].status == Publishing <==> w.rows[k].lockedBy.Some?)
      && (w.rows[k].status == Publishing <==> w.rows[k].leaseUntil.Some?)
  }

  ghost predicate TasksExact<P(!new)>(w: World<P>) {
    forall t <- w.tasks ::
      t.key in w.rows && t.payload == w.rows[t.key].payload && (t.sent ==> EntryCount(w.entries, t.key) > 0)
  }

  /** Entries under a key: one per life of its marker. */
  ghost predicate EntriesCounted<P(!new)>(w: World<P>) {
    forall k :: EntryCount(w.entries, k) == w.expirations[MarkerKey(k)] + (if MarkerKey(k) in w.markers then 1 else 0)
  }

  ghost predicate PublishedSent<P(!new)>(w: World<P>) {
    forall k <- w.rows :: w.rows[k].status == Published ==> EntryCount(w.entries, k) > 0
  }

  ghost predicate Invariant<P(!new)>(w: World<P>, maxAttempts: nat) {
    EntriesExact(w) && RowsLocked(w, maxAttempts) && TasksExact(w) && EntriesCounted(w) && PublishedSent(w)
  }

  // ---------------------------------------------------------------------------------
  // Every step keeps it

  lemma EntryCountAppend<P(!new)>(entries: seq<Entry<P>>, e: Entry<P>, k: Key)
    ensures EntryCount(entries + [e], k) == EntryCount(entries, k) + (if e.key == k then 1 else 0)
  {
    assert (entries + [e])[..|entries|] == entries;
  }

  lemma PublishKeeps<P(!new)>(w: World<P>, task: Task<P>, outcome: Outcome, maxAttempts: nat)
    requires Invariant(w, maxAttempts) && Enabled(w, Publish(task, outcome), maxAttempts)
    ensures Invariant(Effect(w, Publish(task, outcome), maxAttempts), maxAttempts)
  {
    var after := if outcome.executed then PublishOnce(w, task.key, task.payload) else w;
    var key := task.key;
    if outcome.executed && MarkerKey(key) !in w.markers {
      forall k
        ensures EntryCount(after.entries, k) == EntryCount(w.entries, k) + (if key == k then 1 else 0)
        ensures MarkerKey(k) == MarkerKey(key) ==> k == key
      {
        EntryCountAppend(w.entries, Entry(key, task.payload), k);
        if MarkerKey(k) == MarkerKey(key) { MarkerKeyInjective(k, key); }
      }
    }
    assert EntriesExact(after) && RowsLocked(after, maxAttempts) && TasksExact(after) && EntriesCounted(after)
           && PublishedSent(after);
    assert outcome.executed ==> EntryCount(after.entries, key) > 0;
  }

  lemma ExpireKeeps<P(!new)>(w: World<P>, m: string, maxAttempts: nat)
    requires Invariant(w, maxAttempts) && m in w.markers
    ensures Invariant(Effect(w, ExpireMarker(m), maxAttempts), maxAttempts)
  {
    var after := Effect(w, ExpireMarker(m), maxAttempts);
    forall k
      ensures EntryCount(after.entries, k) ==
              after.expirations[MarkerKey(k)] + (if MarkerKey(k) in after.markers then 1 else 0)
    {
      assert after.expirations[MarkerKey(k)] == w.expirations[MarkerKey(k)] + (if MarkerKey(k) == m then 1 else 0);
    }
  }

  lemma StepKeeps<P(!new)>(w: World<P>, a: Action<P>, maxAttempts: nat)
    requires Invariant(w, maxAttempts)
    ensures Invariant(Step(w, a, maxAttempts), maxAttempts)
  {
    hide Invariant, Effect, MarkerKey, EntryCount;
    if Enabled(w, a, maxAttempts) {
      match a
      case Publish(task, outcome) => PublishKeeps(w, task, outcome, maxAttempts);
      case ExpireMarker(m) => ExpireKeeps(w, m, maxAttempts);
      case Enqueue(_, _, _) => RowsKeep(w, a, maxAttempts);
      case Claim(_, _, _, _) => ClaimKeeps(w, a, maxAttempts);
      case MarkPublished(_, _) => RowsKeep(w, a, maxAttempts);
      case MarkFailed(_, _, _, _) => RowsKeep(w, a, maxAttempts);
      case Crash(_) => RowsKeep(w, a, maxAttempts);
    }
  }

  lemma RowsKeep<P(!new)>(w: World<P>, a: Action<P>, maxAttempts: nat)
    requires Invariant(w, maxAttempts) && Enabled(w, a, maxAttempts)
    requires a.Enqueue? || a.MarkPublished? || a.MarkFailed? || a.Crash?
    ensures Invariant(Effect(w, a, maxAttempts), maxAttempts)
  {
    hide MarkerKey, EntryCount, Invariant;
    RowsStayLocked(w, a, maxAttempts);
    var after := Effect(w, a, maxAttempts);
    assert after == w.(rows := after.rows, tasks := after.tasks);
    assert forall t <- after.tasks :: t in w.tasks;
    SameEntriesKeep(w, after.rows, after.tasks, maxAttempts);
  }

  /** The rows after one of these actions: payloads kept, locks exact, only a sent task's row newly published. */
  lemma RowsStayLocked<P(!new)>(w: World<P>, a: Action<P>, maxAttempts: nat)
    requires Invariant(w, maxAttempts) && Enabled(w, a, maxAttempts)
    requires a.Enqueue? || a.MarkPublished? || a.MarkFailed? || a.Crash?
    ensures var rows := Effect(w, a, maxAttempts).rows;
            && (forall k <- w.rows :: k in rows && rows[k].payload == w.rows[k].payload)
            && (forall k <- rows :: rows[k].status == Published ==> EntryCount(w.entries, k) > 0)
            && RowsLocked(Effect(w, a, maxAttempts), maxAttempts)
  {
    hide MarkerKey, EntryCount, EntriesExact, EntriesCounted;
  }

  /** The rest of the invariant speaks of the entries, the payloads and the tasks alone. */
  lemma SameEntriesKeep<P(!new)>(w: World<P>, rows: map<Key, Row<P>>, tasks: set<Task<P>>, maxAttempts: nat)
    requires Invariant(w, maxAttempts) && tasks <= w.tasks
    requires forall k <- w.rows :: k in rows && rows[k].payload == w.rows[k].payload
    requires forall k <- rows :: rows[k].status == Published ==> EntryCount(w.entries, k) > 0
    requires RowsLocked(w.(rows := rows, tasks := tasks), maxAttempts)
    ensures Invariant(w.(rows := rows, tasks := tasks), maxAttempts)
  {
    hide MarkerKey, EntryCount, RowsLocked;
  }

  lemma ClaimKeeps<P(!new)>(w: World<P>, a: Action<P>, maxAttempts: nat)
    requires Invariant(w, maxAttempts) && Enabled(w, a, maxAttempts) && a.Claim?
    ensures Invariant(Effect(w, a, maxAttempts), maxAttempts)
  {
    hide MarkerKey, EntryCount;
    var after := Effect(w, a, maxAttempts);
    assert after.rows.Keys == w.rows.Keys && forall k <- w.rows :: after.rows[k].payload == w.rows[k].payload;
  }

  lemma {:induction false} RunKeeps<P(!new)>(actions: seq<Action<P>>, maxAttempts: nat)
    ensures Invariant(Run(actions, maxAttempts), maxAttempts)
  {
    hide Step, MarkerKey;
    if actions != [] {
      RunKeeps(actions[..|actions| - 1], maxAttempts);
      StepKeeps(Run(actions[..|actions| - 1], maxAttempts), actions[|actions| - 1], maxAttempts);
    } else {
      StartInvariant<P>(maxAttempts);
    }
  }

  lemma StartInvariant<P(!new)>(maxAttempts: nat)
    ensures Invariant(Run<P>([], maxAttempts), maxAttempts)
  {
  }

  // ---------------------------------------------------------------------------------
  // Main results

  lemma {:induction false} CountedEntry<P(!new)>(entries: seq<Entry<P>>, k: Key)
    requires EntryCount(entries, k) > 0
    ensures exists e <- entries :: e.key == k
  {
    if entries[|entries| - 1].key != k {
      CountedEntry(entries[..|entries| - 1], k);
      var e :| e in entries[..|entries| - 1] && e.key == k;
      assert e in entries;
    }
  }

  /** In every run, a published row's exact payload is on its stream. */
  lemma {:induction false} PublishedIsOnStream<P(!new)>(actions: seq<Action<P>>, maxAttempts: nat, k: Key)
    requires k in Run(actions, maxAttempts).rows && Run(actions, maxAttempts).rows[k].status == Published
    ensures Entry(k, Run(actions, maxAttempts).rows[k].payload) in Run(actions, maxAttempts).entries
  {
    hide Run, MarkerKey;
    RunKeeps(actions, maxAttempts);
    CountedEntry(Run(actions, maxAttempts).entries, k);
  }

  /** In every run attempts stay within the maximum, and a key has one entry per life of its marker. */
  lemma EntriesPerMarker<P(!new)>(actions: seq<Action<P>>, maxAttempts: nat, k: Key)
    ensures var w := Run(actions, maxAttempts);
            && (k in w.rows ==> w.rows[k].attempts <= maxAttempts)
            && EntryCount(w.entries, k) == w.expirations[MarkerKey(k)] + (if MarkerKey(k) in w.markers then 1 else 0)
            && (w.expirations[MarkerKey(k)] == 0 ==> EntryCount(w.entries, k) <= 1)
  {
    hide Run;
    RunKeeps(actions, maxAttempts);
  }

  /** Published and failed rows never change again, and no row is ever lost or has its payload replaced. */
  lemma {:induction false} FinishedRowsStay<P(!new)>(before: seq<Action<P>>, after: seq<Action<P>>, maxAttempts: nat,
                                                     k: Key)
    requires k in Run(before, maxAttempts).rows
    ensures var row, rows := Run(before, maxAttempts).rows[k], Run(before + after, maxAttempts).rows;
            && k in rows && rows[k].payload == row.payload && rows[k].attempts >= row.attempts
            && (row.status in {Published, Failed} ==> rows[k] == row)
  {
    hide Step, Invariant;
    if after == [] {
      assert before + after == before;
    } else {
      var init := after[..|after| - 1];
      FinishedRowsStay(before, init, maxAttempts, k);
      assert (before + after)[..|before + after| - 1] == before + init;
      RunKeeps(before + init, maxAttempts);
      RowStays(Run(before + init, maxAttempts), after[|after| - 1], maxAttempts, k);
    }
  }

  lemma RowStays<P(!new)>(w: World<P>, a: Action<P>, maxAttempts: nat, k: Key)
    requires Invariant(w, maxAttempts) && k in w.rows
    ensures var rows := Step(w, a, maxAttempts).rows;
            && k in rows && rows[k].payload == w.rows[k].payload && rows[k].attempts >= w.rows[k].attempts
            && (w.rows[k].status in {Published, Failed} ==> rows[k] == w.rows[k])
  {
    hide MarkerKey, EntryCount;
  }

  /**
   * What each step does, row by row: an insert happens once per key, a claim counts an attempt and
   * leases the row, only the holder of a row's lock finishes it, and an entry goes on the stream
   * only while no marker of its key lives.
   */
  lemma StepMeans<P(!new)>(w: World<P>, a: Action<P>, maxAttempts: nat)
    requires Enabled(w, a, maxAttempts)
    ensures var after := Step(w, a, maxAttempts);
            match a
            case Enqueue(k, payload, at) =>
              after == if k in w.rows then w else w.(rows := w.rows[k := Row(payload, Pending, 0, at, None, None, at)])
            case Claim(worker, picks, at, leaseMs) =>
              && after == w.(rows := after.rows, tasks := after.tasks) && after.rows.Keys == w.rows.Keys
              && (forall k <- picks ::
                    && k in w.rows && w.rows[k].attempts < maxAttempts
                    && (|| (w.rows[k].status == Pending && w.rows[k].nextAttemptAt <= at)
                        || (w.rows[k].status == Publishing && Lapsed(w.rows[k], at))))
              && (forall k <- w.rows :: after.rows[k] == if k in picks then Leased(w.rows[k], worker, at + leaseMs)
                                                         else w.rows[k])
              && (forall t: Task<P> ::
                    t in after.tasks <==>
                    t in w.tasks || (t.key in picks && t == Task(worker, t.key, w.rows[t.key].payload,
                                                                 w.rows[t.key].attempts + 1, false)))
            case Publish(task, outcome) =>
              && task in w.tasks && !task.sent && after.rows == w.rows && after.expirations == w.expirations
              && (if outcome.executed && SeenKey(task.key) !in w.markers then
                    && after.markers == w.markers + {SeenKey(task.key)}
                    && after.entries == w.entries + [Entry(task.key, task.payload)]
                  else after.markers == w.markers && after.entries == w.entries)
              && after.tasks == (if outcome.acknowledged then w.tasks - {task} + {task.(sent := true)} else w.tasks)
            case MarkPublished(task, outcome) =>
              && task in w.tasks && task.sent
              && after == w.(rows := after.rows, tasks := if outcome.acknowledged then w.tasks - {task} else w.tasks)
              && after.rows == (if outcome.executed && LockedBy(w.rows, task.key, task.worker)
                                then
                                  var row := w.rows[task.key];
                                  w.rows[task.key := Finished(row, Published, row.nextAttemptAt)]
                                else w.rows)
            case MarkFailed(task, outcome, at, retryMs) =>
              && task in w.tasks
              && after == w.(rows := after.rows, tasks := w.tasks - {task})
              && after.rows == (if outcome.executed && LockedBy(w.rows, task.key, task.worker)
                                then
                                  var status := if task.attempts < maxAttempts then Pending else Failed;
                                  w.rows[task.key := Finished(w.rows[task.key], status, at + retryMs)]
                                else w.rows)
            case Crash(worker) =>
              after == w.(tasks := after.tasks) && forall t :: t in after.tasks <==> t in w.tasks && t.worker != worker
            case ExpireMarker(m) =>
              && m in w.markers
              && after == w.(markers := w.markers - {m}, expirations := w.expirations + multiset{m})
  {
  }

  /** The marker of a row's key in Redis. */
  function SeenKey(k: Key): string { "stream:seen:" + k.stream + ":" + k.eventKey }

  predicate Lapsed<P>(row: Row<P>, at: int) { row.leaseUntil.Some? && row.leaseUntil.value <= at }

  predicate LockedBy<P>(rows: map<Key, Row<P>>, k: Key, worker: string) {
    k in rows && rows[k].lockedBy == Some(worker)
  }

  function Leased<P>(row: Row<P>, worker: string, until: int): Row<P> {
    Row(row.payload, Publishing, row.attempts + 1, row.nextAttemptAt, Some(until), Some(worker), row.createdAt)
  }

  function Finished<P>(row: Row<P>, status: Status, nextAttemptAt: int): Row<P> {
    Row(row.payload, status, row.attempts, nextAttemptAt, None, None, row.createdAt)
  }

  /** When a step can happen: a claim of rows that are due or whose lease is over, reports by whoever holds the task. */
  lemma EnabledExactly<P(!new)>(w: World<P>, a: Action<P>, maxAttempts: nat)
    ensures Enabled(w, a, maxAttempts) <==>
            match a
            case Enqueue(_, _, _) => true
            case Claim(_, picks, at, _) =>
              forall k <- picks ::
                && k in w.rows
                && var row := w.rows[k];
                   && row.attempts < maxAttempts
                   && (|| (row.status == Pending && row.nextAttemptAt <= at)
                       || (row.status == Publishing && row.leaseUntil.Some? && row.leaseUntil.value <= at))
            case Publish(task, outcome) => task in w.tasks && !task.sent && (outcome.acknowledged ==> outcome.executed)
            case MarkPublished(task, outcome) =>
              task in w.tasks && task.sent && (outcome.acknowledged ==> outcome.executed)
            case MarkFailed(task, outcome, _, _) => task in w.tasks && (outcome.acknowledged ==> outcome.executed)
            case Crash(_) => true
            case ExpireMarker(m) => m in w.markers
  {
  }
}
