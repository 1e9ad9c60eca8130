/** When the sliding window keeps its limit: the exact condition on clock readings, repeated keys and limits. */
module SlidingLimit {
  import opened Common
  import opened SlidingWindow
  import opened SlidingRuns

  // ---------------------------------------------------------------------------------
  // Counting grants in a window

  /** Grants in the half-open window (from, to]. */
  function CountIn(s: Grants, from: int, to: int): nat {
    if s == [] then 0 else CountIn(s[..|s| - 1], from, to) + (if from < s[|s| - 1] <= to then 1 else 0)
  }

  lemma {:induction false} CountAdd(s: Grants, at: int, from: int, to: int)
    ensures CountIn(Add(s, at), from, to) == CountIn(s, from, to) + (if from < at <= to then 1 else 0)
  {
    if s != [] && s[|s| - 1] > at {
      var front := Add(s[..|s| - 1], at);
      CountAdd(s[..|s| - 1], at, from, to);
      assert (front + [s[|s| - 1]])[..|front|] == front;
    } else {
      assert (s + [at])[..|s|] == s;
    }
  }

  /** A part that holds all the grants of a window is at least as large as their number. */
  lemma {:induction false} CountAtMost(s: Grants, part: multiset<int>, from: int, to: int)
    requires forall x :: from < x <= to ==> part[x] >= multiset(s)[x]
    ensures CountIn(s, from, to) <= |part|
  {
    if s != [] {
      var init, x := s[..|s| - 1], s[|s| - 1];
      assert s == init + [x];
      if from < x <= to {
        CountAtMost(init, part - multiset{x}, from, to);
      } else {
        CountAtMost(init, part, from, to);
      }
    }
  }

  /** Grants known to lie in a window are counted. */
  lemma {:induction false} CountAtLeast(s: Grants, part: multiset<int>, from: int, to: int)
    requires part <= multiset(s) && forall x <- part :: from < x <= to
    ensures CountIn(s, from, to) >= |part|
  {
    if s != [] {
      var init, x := s[..|s| - 1], s[|s| - 1];
      assert s == init + [x];
      var others := if x in part then part - multiset{x} else part;
      assert others <= multiset(init) by {
        forall y ensures others[y] <= multiset(init)[y] { assert part[y] <= multiset(s)[y]; }
      }
      assert forall y <- others :: y in part;
      CountAtLeast(init, others, from, to);
    }
  }

  lemma {:induction false} EmptyWindow(s: Grants, t: int)
    ensures CountIn(s, t, t) == 0
  {
    if s != [] {
      EmptyWindow(s[..|s| - 1], t);
    }
  }

  // ---------------------------------------------------------------------------------
  // Forgetting

  predicate Near(w: Window, a: int, b: int) { a - b < w.windowMs && b - a < w.windowMs }

  /**
   * A grant made at reading i may be gone from the stored set at reading j. Trimming removes what
   * is a window old; expiry removes everything once the last grant is a window and the slack old.
   * At a cap of one a grant is only ever replaced by a later one, unless a call of several keys
   * trims it and is then refused for another key.
   */
  ghost predicate Lost(w: Window, ts: seq<int>, alone: bool, i: nat, j: nat)
    requires i < |ts| && j < |ts|
  {
    if w.limit >= 2 then ts[i] + w.windowMs <= ts[j] || exists m :: i <= m <= j && Stale(w, ts, m, j)
    else if alone then Stale(w, ts, i, j)
    else ts[i] + w.windowMs <= ts[j]
  }

  predicate Stale(w: Window, ts: seq<int>, m: nat, j: nat)
    requires m < |ts| && j < |ts|
  {
    ts[m] + w.windowMs + EXPIRY_SLACK_MS <= ts[j]
  }

  /** Some grant can be forgotten and then be less than a window away from a later reading. */
  ghost predicate Forgets(w: Window, ts: seq<int>, alone: bool) {
    exists i: nat, j: nat, k: nat :: i <= j <= k < |ts| && Lost(w, ts, alone, i, j) && Near(w, ts[i], ts[k])
  }

  function Clock(es: seq<Event>): seq<int> { seq(|es|, i requires 0 <= i < |es| => Now(es[i])) }

  /** Calls that name the key name nothing else. */
  ghost predicate Alone(es: seq<Event>, key: string) {
    forall e <- es :: e.Call? && Times(e.ws, key) > 0 ==> |e.ws| == 1
  }

  // ---------------------------------------------------------------------------------
  // What the stored set remembers of the log

  ghost predicate Seen(ts: seq<int>, x: int, last: nat) {
    exists i: nat :: i <= last && i < |ts| && ts[i] == x
  }

  ghost predicate Gone(w: Window, ts: seq<int>, alone: bool, x: int) {
    exists i: nat, j: nat :: i <= j < |ts| && ts[i] == x && Lost(w, ts, alone, i, j)
  }

  /** At a cap of one, a later grant a window away stands for the ones before it. */
  predicate Replaced(w: Window, store: Grants, alone: bool, x: int) {
    alone && Cap(w) == 1 && store != [] && store[0] >= x + w.windowMs
  }

  ghost predicate Renewed(w: Window, ts: seq<int>, store: Grants, expiry: int, m: nat) {
    m < |ts| && expiry == ts[m] + w.windowMs + EXPIRY_SLACK_MS && forall x <- store :: Seen(ts, x, m)
  }

  ghost predicate ExpiryKnown(w: Window, ts: seq<int>, store: Grants, expiry: Option<int>) {
    store != [] && expiry.Some? ==>
      if Cap(w) == 1 then expiry.value == store[0] + w.windowMs + EXPIRY_SLACK_MS
      else exists m: nat :: Renewed(w, ts, store, expiry.value, m)
  }

  ghost predicate Tracked(w: Window, ts: seq<int>, alone: bool, store: Grants, log: Grants) {
    && |store| <= Cap(w)
    && (forall x :: multiset(store)[x] <= multiset(log)[x])
    && (forall x :: multiset(store)[x] < multiset(log)[x] ==> Gone(w, ts, alone, x) || Replaced(w, store, alone, x))
    && (forall x <- log :: Seen(ts, x, |ts|))
  }

  lemma SeenLater(ts: seq<int>, n: int, x: int, last: nat)
    requires Seen(ts, x, last)
    ensures Seen(ts + [n], x, last)
  {
    var i: nat :| i <= last && i < |ts| && ts[i] == x;
    assert (ts + [n])[i] == x;
  }

  lemma LostLater(w: Window, ts: seq<int>, n: int, alone: bool, i: nat, j: nat)
    requires i < |ts| && j < |ts| && Lost(w, ts, alone, i, j)
    ensures Lost(w, ts + [n], alone, i, j)
  {
    var all := ts + [n];
    assert forall m: nat :: m < |ts| ==> all[m] == ts[m];
    if w.limit >= 2 && !(ts[i] + w.windowMs <= ts[j]) {
      var m :| i <= m <= j && Stale(w, ts, m, j);
      assert Stale(w, all, m, j);
    }
  }

  lemma GoneLater(w: Window, ts: seq<int>, n: int, alone: bool, x: int)
    requires Gone(w, ts, alone, x)
    ensures Gone(w, ts + [n], alone, x)
  {
    var i: nat, j: nat :| i <= j < |ts| && ts[i] == x && Lost(w, ts, alone, i, j);
    LostLater(w, ts, n, alone, i, j);
    assert (ts + [n])[i] == x;
  }

  /** A grant a window old, where trimming alone forgets it. */
  lemma GoneByTrim(w: Window, ts: seq<int>, n: int, alone: bool, x: int)
    requires Seen(ts, x, |ts|) && x + w.windowMs <= n && (Cap(w) >= 2 || !alone)
    ensures Gone(w, ts + [n], alone, x)
  {
    var i: nat :| i <= |ts| && i < |ts| && ts[i] == x;
    var all := ts + [n];
    assert all[i] == x && all[|ts|] == n;
    assert Lost(w, all, alone, i, |ts|);
  }

  lemma GoneByExpiry(w: Window, ts: seq<int>, n: int, alone: bool, x: int)
    requires Seen(ts, x, |ts|) && x + w.windowMs + EXPIRY_SLACK_MS <= n
    ensures Gone(w, ts + [n], alone, x)
  {
    var i: nat :| i <= |ts| && i < |ts| && ts[i] == x;
    var all := ts + [n];
    assert all[i] == x && all[|ts|] == n;
    assert Stale(w, all, i, |ts|);
    assert Lost(w, all, alone, i, |ts|);
  }

  lemma GoneByRenewal(w: Window, ts: seq<int>, n: int, alone: bool, store: Grants, expiry: int, m: nat, x: int)
    requires w.limit >= 2 && Renewed(w, ts, store, expiry, m) && x in store && expiry <= n
    ensures Gone(w, ts + [n], alone, x)
  {
    var i: nat :| i <= m && i < |ts| && ts[i] == x;
    var all := ts + [n];
    assert all[i] == x && all[m] == ts[m] && all[|ts|] == n;
    assert Stale(w, all, m, |ts|);
    assert Lost(w, all, alone, i, |ts|);
  }

  // ---------------------------------------------------------------------------------
  // Every step keeps track

  lemma TrackIdle(w: Window, ts: seq<int>, n: int, alone: bool, store: Grants, log: Grants, expiry: Option<int>)
    requires Tracked(w, ts, alone, store, log) && ExpiryKnown(w, ts, store, expiry)
    ensures Tracked(w, ts + [n], alone, store, log) && ExpiryKnown(w, ts + [n], store, expiry)
  {
    hide Gone, Seen, Replaced;
    forall x | Gone(w, ts, alone, x) ensures Gone(w, ts + [n], alone, x) { GoneLater(w, ts, n, alone, x); }
    forall x | x in log ensures Seen(ts + [n], x, |ts| + 1) { SeenFurther(ts, n, x); }
    RenewedLater(w, ts, n, store, expiry);
  }

  lemma SeenFurther(ts: seq<int>, n: int, x: int)
    requires Seen(ts, x, |ts|)
    ensures Seen(ts + [n], x, |ts|) && Seen(ts + [n], x, |ts| + 1)
  {
    SeenLater(ts, n, x, |ts|);
  }

  lemma RenewedLater(w: Window, ts: seq<int>, n: int, store: Grants, expiry: Option<int>)
    requires ExpiryKnown(w, ts, store, expiry)
    ensures ExpiryKnown(w, ts + [n], store, expiry)
  {
    hide Seen;
    if store != [] && expiry.Some? && Cap(w) != 1 {
      var m: nat :| Renewed(w, ts, store, expiry.value, m);
      forall x | x in store ensures Seen(ts + [n], x, m) { SeenLater(ts, n, x, m); }
      assert Renewed(w, ts + [n], store, expiry.value, m);
    }
  }

  /** Trimming forgets only what trimming may forget; alone at a cap of one, a refused call trims nothing. */
  lemma TrackTrimmed(w: Window, ts: seq<int>, n: int, alone: bool, store: Grants, log: Grants, expiry: Option<int>)
    requires Tracked(w, ts, alone, store, log) && ExpiryKnown(w, ts, store, expiry)
    requires alone && Cap(w) == 1 ==> After(store, n - w.windowMs) != []
    ensures var live := After(store, n - w.windowMs);
            Tracked(w, ts + [n], alone, live, log) && ExpiryKnown(w, ts + [n], live, expiry)
  {
    hide Gone, Seen, After;
    TrackIdle(w, ts, n, alone, store, log, expiry);
    var live := After(store, n - w.windowMs);
    AfterMembers(store, n - w.windowMs);
    OneOrNone(w, store, live);
    forall x | multiset(live)[x] < multiset(log)[x]
      ensures Gone(w, ts + [n], alone, x) || Replaced(w, live, alone, x)
    {
      if multiset(live)[x] < multiset(store)[x] {
        assert x in store && x in multiset(log);
        if Cap(w) >= 2 || !alone { GoneByTrim(w, ts, n, alone, x); }
      }
    }
    RenewedPart(w, ts + [n], store, live, expiry);
  }

  lemma OneOrNone(w: Window, store: Grants, live: Grants)
    requires |store| <= Cap(w) && |live| <= |store| && forall x :: multiset(live)[x] <= multiset(store)[x]
    ensures Cap(w) == 1 && live != [] ==> live == store
  {
    if Cap(w) == 1 && live != [] {
      var x := live[0];
      assert multiset(live)[x] > 0 && multiset(store)[x] > 0 && x in store;
    }
  }

  lemma RenewedPart(w: Window, ts: seq<int>, store: Grants, live: Grants, expiry: Option<int>)
    requires ExpiryKnown(w, ts, store, expiry) && (forall x <- live :: x in store)
             && (Cap(w) == 1 && live != [] ==> live == store)
    ensures ExpiryKnown(w, ts, live, expiry)
  {
    hide Seen;
    if live != [] && expiry.Some? && Cap(w) != 1 {
      var x := live[0];
      assert x in live && x in store;
      var m: nat :| Renewed(w, ts, store, expiry.value, m);
      assert Renewed(w, ts, live, expiry.value, m);
    }
  }

  lemma TrackDropped(w: Window, ts: seq<int>, n: int, alone: bool, store: Grants, log: Grants, expiry: int)
    requires Tracked(w, ts, alone, store, log) && ExpiryKnown(w, ts, store, Some(expiry)) && expiry <= n
    ensures Tracked(w, ts + [n], alone, [], log) && ExpiryKnown(w, ts + [n], [], None)
  {
    hide Gone, Seen;
    TrackIdle(w, ts, n, alone, store, log, Some(expiry));
    forall x | 0 < multiset(log)[x]
      ensures Gone(w, ts + [n], alone, x)
    {
      assert x in log;
      if multiset(store)[x] < multiset(log)[x] {
        if Replaced(w, store, alone, x) { GoneByExpiry(w, ts, n, alone, x); }
      } else {
        assert x in store;
        if Cap(w) == 1 {
          GoneByExpiry(w, ts, n, alone, x);
        } else {
          var m: nat :| Renewed(w, ts, store, expiry, m);
          GoneByRenewal(w, ts, n, alone, store, expiry, m, x);
        }
      }
    }
  }

  lemma TrackRecorded(w: Window, ts: seq<int>, n: int, alone: bool, store: Grants, log: Grants)
    requires Tracked(w, ts, alone, store, log)
    requires var live := After(store, n - w.windowMs); live == [] || |live| < w.limit
    ensures Tracked(w, ts + [n], alone, Add(After(store, n - w.windowMs), n), Add(log, n))
  {
    hide Gone, Seen, After, Add, Replaced;
    var live := After(store, n - w.windowMs);
    AfterMembers(store, n - w.windowMs);
    AddMembers(live, n);
    AddMembers(log, n);
    AloneMember(w, live, n);
    forall x | multiset(Add(live, n))[x] < multiset(Add(log, n))[x]
      ensures Gone(w, ts + [n], alone, x) || Replaced(w, Add(live, n), alone, x)
    {
      MissingRecorded(w, ts, n, alone, store, log, x);
    }
    RecordedSeen(ts, n, store, log, live);
  }

  lemma RenewedNow(w: Window, ts: seq<int>, n: int, alone: bool, store: Grants, log: Grants)
    requires Tracked(w, ts, alone, store, log)
    requires var live := After(store, n - w.windowMs); live == [] || |live| < w.limit
    ensures var after := Add(After(store, n - w.windowMs), n);
            ExpiryKnown(w, ts + [n], after, Some(n + w.windowMs + EXPIRY_SLACK_MS))
  {
    hide Seen, After, Add;
    var live := After(store, n - w.windowMs);
    AfterMembers(store, n - w.windowMs);
    AloneMember(w, live, n);
    RecordedSeen(ts, n, store, log, live);
    var expiry := n + w.windowMs + EXPIRY_SLACK_MS;
    assert Cap(w) != 1 ==> Renewed(w, ts + [n], Add(live, n), expiry, |ts|);
  }

  lemma MissingRecorded(w: Window, ts: seq<int>, n: int, alone: bool, store: Grants, log: Grants, x: int)
    requires Tracked(w, ts, alone, store, log)
    requires var live := After(store, n - w.windowMs);
             (live == [] || |live| < w.limit) && multiset(live)[x] < multiset(log)[x]
    ensures Gone(w, ts + [n], alone, x) || Replaced(w, Add(After(store, n - w.windowMs), n), alone, x)
  {
    hide Gone, Seen, After, Add;
    var live := After(store, n - w.windowMs);
    AfterMembers(store, n - w.windowMs);
    AloneMember(w, live, n);
    if multiset(live)[x] < multiset(store)[x] {
      assert x in store && x in multiset(log);
      if Cap(w) >= 2 || !alone { GoneByTrim(w, ts, n, alone, x); }
    } else if Gone(w, ts, alone, x) {
      GoneLater(w, ts, n, alone, x);
    } else {
      var last := store[0];
      assert last in store && last !in live;
    }
  }

  lemma RecordedSeen(ts: seq<int>, n: int, store: Grants, log: Grants, live: Grants)
    requires (forall x <- log :: Seen(ts, x, |ts|)) && (forall x :: multiset(live)[x] <= multiset(log)[x])
    ensures forall x <- Add(log, n) :: Seen(ts + [n], x, |ts| + 1)
    ensures forall x <- Add(live, n) :: Seen(ts + [n], x, |ts|)
  {
    hide Seen, Add;
    AddMembers(live, n);
    AddMembers(log, n);
    SeenNow(ts, n);
    forall x | x in log
      ensures Seen(ts + [n], x, |ts|) && Seen(ts + [n], x, |ts| + 1)
    {
      SeenFurther(ts, n, x);
    }
    forall x | x in Add(log, n)
      ensures x == n || x in log
    {
      assert x in multiset(Add(log, n));
    }
    forall x | x in Add(live, n)
      ensures x == n || x in log
    {
      assert x in multiset(Add(live, n));
      assert x != n ==> multiset(live)[x] > 0 && multiset(log)[x] > 0;
    }
  }

  lemma SeenNow(ts: seq<int>, n: int)
    ensures Seen(ts + [n], n, |ts|) && Seen(ts + [n], n, |ts| + 1)
  {
    assert (ts + [n])[|ts|] == n;
  }

  lemma AloneMember(w: Window, live: Grants, n: int)
    requires live == [] || |live| < w.limit
    ensures |live| < Cap(w) && (Cap(w) == 1 ==> live == [] && Add(live, n) == [n])
  {
  }

  /** A grant near which nothing was forgotten leaves every window within the cap. */
  lemma GrantWithin(w: Window, ts: seq<int>, n: int, alone: bool, store: Grants, log: Grants, t: int)
    requires Tracked(w, ts, alone, store, log) && !Forgets(w, ts + [n], alone)
    requires var live := After(store, n - w.windowMs); live == [] || |live| < w.limit
    requires CountIn(log, t - w.windowMs, t) <= Cap(w)
    ensures CountIn(Add(log, n), t - w.windowMs, t) <= Cap(w)
  {
    hide After, Add, CountIn, Forgets, Gone, Seen, Replaced;
    CountAdd(log, n, t - w.windowMs, t);
    var live := After(store, n - w.windowMs);
    AloneMember(w, live, n);
    AfterMembers(store, n - w.windowMs);
    if t - w.windowMs < n <= t {
      forall x | t - w.windowMs < x <= t
        ensures multiset(live)[x] >= multiset(log)[x]
      {
        if multiset(store)[x] < multiset(log)[x] {
          if Gone(w, ts, alone, x) {
            NotGone(w, ts, n, alone, x);
          } else {
            ReplacedFar(w, store, alone, n, x);
          }
        }
      }
      CountAtMost(log, multiset(live), t - w.windowMs, t);
    }
  }

  lemma ReplacedFar(w: Window, store: Grants, alone: bool, n: int, x: int)
    requires Replaced(w, store, alone, x)
    requires var live := After(store, n - w.windowMs); live == [] || |live| < w.limit
    ensures !Near(w, x, n)
  {
    hide After;
    AfterMembers(store, n - w.windowMs);
    assert store[0] in store;
  }

  lemma NotGone(w: Window, ts: seq<int>, n: int, alone: bool, x: int)
    requires Gone(w, ts, alone, x) && Near(w, x, n)
    ensures Forgets(w, ts + [n], alone)
  {
    var i: nat, j: nat :| i <= j < |ts| && ts[i] == x && Lost(w, ts, alone, i, j);
    LostLater(w, ts, n, alone, i, j);
    assert (ts + [n])[i] == x && (ts + [n])[|ts|] == n;
  }

  lemma ForgetsLater(w: Window, ts: seq<int>, n: int, alone: bool)
    requires Forgets(w, ts, alone)
    ensures Forgets(w, ts + [n], alone)
  {
    var i: nat, j: nat, k: nat :| i <= j <= k < |ts| && Lost(w, ts, alone, i, j) && Near(w, ts[i], ts[k]);
    LostLater(w, ts, n, alone, i, j);
    assert (ts + [n])[i] == ts[i] && (ts + [n])[k] == ts[k];
  }

  // ---------------------------------------------------------------------------------
  // Runs

  predicate Within(w: Window, log: Grants, t: int) { CountIn(log, t - w.windowMs, t) <= Cap(w) }

  /** What a run keeps for one key. */
  ghost predicate Kept(w: Window, ts: seq<int>, alone: bool, s: State) {
    && Tracked(w, ts, alone, Stored(s.store, w.key), Stored(s.log, w.key))
    && ExpiryKnown(w, ts, Stored(s.store, w.key), ExpiryOf(s, w.key))
    && forall t :: Within(w, Stored(s.log, w.key), t)
  }

  lemma StepKept(w: Window, ts: seq<int>, alone: bool, s: State, e: Event, after: State, step: KeyStep)
    requires Kept(w, ts, alone, s) && KeyDone(s, e, after, w, step) && !Forgets(w, ts + [Now(e)], alone)
    requires step.Recorded? ==> step.times == 1
    requires alone && step.Trimmed? ==> Blocked(s.store, w, e.now)
    ensures Kept(w, ts + [Now(e)], alone, after)
  {
    hide Tracked, ExpiryKnown, CountIn, After, Add, AddTimes, Times, Forgets;
    var n, store, log, expiry := e.now, Stored(s.store, w.key), Stored(s.log, w.key), ExpiryOf(s, w.key);
    match step
    case Idle => TrackIdle(w, ts, n, alone, store, log, expiry);
    case Trimmed => TrackTrimmed(w, ts, n, alone, store, log, expiry);
    case Dropped => TrackDropped(w, ts, n, alone, store, log, expiry.value);
    case Recorded(_) =>
      AddOnce(After(store, n - w.windowMs), n);
      AddOnce(log, n);
      TrackRecorded(w, ts, n, alone, store, log);
      RenewedNow(w, ts, n, alone, store, log);
      forall t
        ensures Within(w, Add(log, n), t)
      {
        assert Within(w, log, t);
        GrantWithin(w, ts, n, alone, store, log, t);
      }
  }

  /** The runs a key can be in: one window per key, no key named twice in a call, and no other key if alone. */
  ghost predicate KeyRun(config: Config, es: seq<Event>, w: Window, alone: bool) {
    && Calls(config, es) && w.key in config && config[w.key] == w
    && Once(es, w.key) && (alone ==> Alone(es, w.key))
  }

  lemma KeyRunPrefix(config: Config, init: seq<Event>, last: Event, w: Window, alone: bool)
    requires KeyRun(config, init + [last], w, alone)
    ensures KeyRun(config, init, w, alone) && (last.Call? ==> Named(config, last.ws) && Times(last.ws, w.key) <= 1)
    ensures alone && last.Call? && Times(last.ws, w.key) > 0 ==> last.ws == [w]
  {
    hide Times;
    CallsPrefix(config, init, last, w.key);
    var es := init + [last];
    assert last in es && forall e <- init :: e in es;
    if alone && last.Call? && Times(last.ws, w.key) > 0 {
      TimesPositive(last.ws, w.key);
      assert last.ws == [last.ws[0]];
    }
  }

  lemma {:induction false} RunKept(config: Config, es: seq<Event>, w: Window, alone: bool)
    requires KeyRun(config, es, w, alone) && !Forgets(w, Clock(es), alone)
    ensures Kept(w, Clock(es), alone, Run(es))
  {
    hide Step, Kept, Forgets, KeyRun, Times, Blocked;
    if es == [] {
      StartKept(w, alone);
      assert Clock(es) == [];
    } else {
      var init, last := es[..|es| - 1], es[|es| - 1];
      assert es == init + [last];
      assert Clock(es) == Clock(init) + [Now(last)];
      KeyRunPrefix(config, init, last, w, alone);
      if Forgets(w, Clock(init), alone) { ForgetsLater(w, Clock(init), Now(last), alone); }
      RunKept(config, init, w, alone);
      StepOfKey(config, init, last, w, alone);
    }
  }

  lemma StepOfKey(config: Config, init: seq<Event>, last: Event, w: Window, alone: bool)
    requires KeyRun(config, init + [last], w, alone) && !Forgets(w, Clock(init) + [Now(last)], alone)
    requires Kept(w, Clock(init), alone, Run(init))
    ensures Kept(w, Clock(init) + [Now(last)], alone, Step(Run(init), last))
  {
    hide Step, Run, Kept, Forgets, Times, Blocked;
    KeyRunPrefix(config, init, last, w, alone);
    var step := OneStep(config, Run(init), last, w);
    StepKept(w, Clock(init), alone, Run(init), last, Step(Run(init), last), step);
  }

  lemma StartKept(w: Window, alone: bool)
    ensures Kept(w, [], alone, START)
  {
  }

  /** No window holds more grants than the cap, on any clock on which no grant is forgotten too early. */
  lemma RememberedWithin(config: Config, es: seq<Event>, w: Window, alone: bool, t: int)
    requires KeyRun(config, es, w, alone) && !Forgets(w, Clock(es), alone)
    ensures CountIn(Stored(Run(es).log, w.key), t - w.windowMs, t) <= Cap(w)
  {
    hide Run, Forgets, Tracked, ExpiryKnown, CountIn;
    RunKept(config, es, w, alone);
    assert Within(w, Stored(Run(es).log, w.key), t);
  }

  /** A clock that never steps back forgets nothing too early. */
  lemma SteadyRemembers(w: Window, ts: seq<int>, alone: bool)
    requires forall i, j :: 0 <= i < j < |ts| ==> ts[i] <= ts[j]
    ensures !Forgets(w, ts, alone)
  {
    forall i: nat, j: nat, k: nat | i <= j <= k < |ts| && Lost(w, ts, alone, i, j)
      ensures !Near(w, ts[i], ts[k])
    {
      assert ts[j] <= ts[k];
    }
  }

  /** In every run over a clock that never steps back, no window of any key exceeds its limit. */
  lemma NeverOverLimit(config: Config, es: seq<Event>, key: string, t: int)
    requires Calls(config, es) && key in config && config[key].limit >= 1 && Once(es, key) && NonDecreasing(es)
    ensures CountIn(Stored(Run(es).log, key), t - config[key].windowMs, t) <= config[key].limit
  {
    hide Run, Forgets, CountIn;
    SteadyRemembers(config[key], Clock(es), false);
    RememberedWithin(config, es, config[key], false, t);
  }
}
