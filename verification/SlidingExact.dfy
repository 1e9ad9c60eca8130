/** The conditions of the sliding window are exact: where one fails, some run exceeds the limit. */
module SlidingExact {
  import opened Common
  import opened SlidingWindow
  import opened SlidingRuns
  import opened SlidingLimit

  // ---------------------------------------------------------------------------------
  // Building runs

  function Burst(w: Window, at: int, n: nat): seq<Event> { seq(n, _ => Call([w], at)) }

  lemma {:induction false} RunConcat(s: State, a: seq<Event>, b: seq<Event>)
    ensures RunFrom(s, a + b) == RunFrom(RunFrom(s, a), b)
  {
    if b == [] {
      assert a + b == a;
    } else {
      RunConcat(s, a, b[..|b| - 1]);
      assert (a + b)[..|a + b| - 1] == a + b[..|b| - 1];
    }
  }

  /** Calls at one time are granted as long as there is room. */
  ghost predicate Filled(s: State, after: State, w: Window, at: int, n: nat) {
    && (forall x :: multiset(Stored(after.log, w.key))[x] ==
          multiset(Stored(s.log, w.key))[x] + (if x == at then n else 0))
    && (w.windowMs > 0 ==> multiset(Stored(after.store, w.key))[at] >= n)
    && (n > 0 ==>
          && |Stored(after.store, w.key)| <= |Live(s.store, w, at)| + n
          && (forall x <- Stored(after.store, w.key) :: x == at || x in Live(s.store, w, at))
          && ExpiryOf(after, w.key) == Some(at + w.windowMs + EXPIRY_SLACK_MS))
  }

  lemma {:induction false} BurstGranted(config: Config, s: State, w: Window, at: int, n: nat)
    requires w.key in config && config[w.key] == w && |Live(s.store, w, at)| + n <= Cap(w)
    ensures Filled(s, RunFrom(s, Burst(w, at, n)), w, at, n)
  {
    hide Step, After, Add, AddTimes;
    if n > 0 {
      var before := RunFrom(s, Burst(w, at, n - 1));
      assert Burst(w, at, n) == Burst(w, at, n - 1) + [Call([w], at)];
      RunAppend(s, Burst(w, at, n - 1), Call([w], at));
      BurstGranted(config, s, w, at, n - 1);
      RoomLeft(s, before, w, at, n - 1);
      OneGranted(config, before, w, at);
      GrantFills(s, before, Step(before, Call([w], at)), w, at, n - 1);
    }
  }

  lemma RoomLeft(s: State, before: State, w: Window, at: int, n: nat)
    requires Filled(s, before, w, at, n) && |Live(s.store, w, at)| + n < Cap(w) && (n == 0 ==> before == s)
    ensures |Live(before.store, w, at)| <= |Live(s.store, w, at)| + n && !Blocked(before.store, w, at)
    ensures forall x <- Live(before.store, w, at) :: x == at || x in Live(s.store, w, at)
    ensures w.windowMs > 0 ==> multiset(Live(before.store, w, at))[at] >= n
  {
    hide After;
    AfterMembers(Stored(before.store, w.key), at - w.windowMs);
  }

  /** A call of a key with room is granted. */
  lemma OneGranted(config: Config, s: State, w: Window, at: int)
    requires w.key in config && config[w.key] == w && !Blocked(s.store, w, at)
    ensures var after := Step(s, Call([w], at));
            && Stored(after.store, w.key) == Add(Live(s.store, w, at), at)
            && Stored(after.log, w.key) == Add(Stored(s.log, w.key), at)
            && ExpiryOf(after, w.key) == Some(at + w.windowMs + EXPIRY_SLACK_MS)
  {
    hide Step, Live, Add, AddTimes;
    assert Named(config, [w]);
    var step := OneStep(config, s, Call([w], at), w);
    AddOnce(Live(s.store, w, at), at);
    AddOnce(Stored(s.log, w.key), at);
  }

  lemma GrantFills(s: State, before: State, after: State, w: Window, at: int, n: nat)
    requires Filled(s, before, w, at, n)
    requires |Live(before.store, w, at)| <= |Live(s.store, w, at)| + n
    requires forall x <- Live(before.store, w, at) :: x == at || x in Live(s.store, w, at)
    requires w.windowMs > 0 ==> multiset(Live(before.store, w, at))[at] >= n
    requires Stored(after.store, w.key) == Add(Live(before.store, w, at), at)
    requires Stored(after.log, w.key) == Add(Stored(before.log, w.key), at)
    requires ExpiryOf(after, w.key) == Some(at + w.windowMs + EXPIRY_SLACK_MS)
    ensures Filled(s, after, w, at, n + 1)
  {
    hide Live, Add;
    var live := Live(before.store, w, at);
    AddMembers(live, at);
    AddMembers(Stored(before.log, w.key), at);
    forall x | x in Add(live, at)
      ensures x == at || x in Live(s.store, w, at)
    {
      assert x in multiset(Add(live, at));
      assert x != at ==> x in live;
    }
  }

  // ---------------------------------------------------------------------------------
  // Runs over given readings

  /** Each event of a run happens at a reading, and the readings come in order. */
  ghost predicate Over(es: seq<Event>, ts: seq<int>, at: seq<nat>) {
    && |at| == |es|
    && (forall i :: 0 <= i < |es| ==> at[i] < |ts| && Now(es[i]) == ts[at[i]])
    && (forall i, j :: 0 <= i < j < |es| ==> at[i] <= at[j])
  }

  /** A run over the readings in which a window of the key holds more grants than the bound. */
  ghost predicate Overruns(config: Config, w: Window, ts: seq<int>, alone: bool, bound: nat) {
    exists es, at, t ::
      KeyRun(config, es, w, alone) && Over(es, ts, at) && Exceeds(w, Stored(Run(es).log, w.key), t, bound)
  }

  predicate Exceeds(w: Window, log: Grants, t: int, bound: nat) { CountIn(log, t - w.windowMs, t) > bound }

  /** What a run forgets, its readings forget. */
  lemma ForgetsOver(w: Window, es: seq<Event>, ts: seq<int>, at: seq<nat>, alone: bool)
    requires Over(es, ts, at) && Forgets(w, Clock(es), alone)
    ensures Forgets(w, ts, alone)
  {
    var clock := Clock(es);
    var i: nat, j: nat, k: nat :| i <= j <= k < |clock| && Lost(w, clock, alone, i, j) && Near(w, clock[i], clock[k]);
    if w.limit >= 2 && !(clock[i] + w.windowMs <= clock[j]) {
      var m :| i <= m <= j && Stale(w, clock, m, j);
      assert Stale(w, ts, at[m], at[j]);
    }
    assert Lost(w, ts, alone, at[i], at[j]);
    assert Near(w, ts[at[i]], ts[at[k]]);
  }

  lemma OverAppend(a: seq<Event>, p: seq<nat>, b: seq<Event>, q: seq<nat>, ts: seq<int>)
    requires Over(a, ts, p) && Over(b, ts, q)
    requires forall i, j :: 0 <= i < |p| && 0 <= j < |q| ==> p[i] <= q[j]
    ensures Over(a + b, ts, p + q)
  {
  }

  lemma KeyRunAppend(config: Config, a: seq<Event>, b: seq<Event>, w: Window, alone: bool)
    requires KeyRun(config, a, w, alone) && KeyRun(config, b, w, alone)
    ensures KeyRun(config, a + b, w, alone)
  {
    hide Times;
    assert forall e <- a + b :: e in a || e in b;
  }

  lemma BurstRun(config: Config, w: Window, v: Window, ts: seq<int>, i: nat, n: nat, alone: bool)
    requires (forall key <- config :: config[key].key == key) && w.key in config && config[w.key] == w
    requires v.key in config && config[v.key] == v && i < |ts|
    ensures KeyRun(config, Burst(v, ts[i], n), w, alone) && Over(Burst(v, ts[i], n), ts, seq(n, _ => i))
  {
    hide Times;
    OnceAlone(v);
  }

  lemma OnceAlone(v: Window)
    ensures forall key :: Times([v], key) <= 1
  {
    assert [v][..0] == [];
    assert forall key :: Times([], key) == 0;
  }

  lemma DropRun(config: Config, w: Window, ts: seq<int>, i: nat, alone: bool)
    requires (forall key <- config :: config[key].key == key) && w.key in config && config[w.key] == w && i < |ts|
    ensures KeyRun(config, [Expire(w.key, ts[i])], w, alone) && Over([Expire(w.key, ts[i])], ts, [i])
  {
  }

  /** Enough grants at two near times exceed any smaller bound. */
  lemma NearExceeds(w: Window, log: Grants, a: int, p: nat, b: int, q: nat, bound: nat)
    requires Near(w, a, b) && p + q > bound
    requires if a == b then multiset(log)[a] >= p + q else multiset(log)[a] >= p && multiset(log)[b] >= q
    ensures exists t :: Exceeds(w, log, t, bound)
  {
    var t := if a < b then b else a;
    var part: multiset<int> := multiset{}[a := p];
    part := part[b := part[b] + q];
    CountAtLeast(log, part, t - w.windowMs, t);
    assert |part| == p + q by {
      assert part == multiset{}[a := p] + multiset{}[b := q];
    }
    assert Exceeds(w, log, t, bound);
  }

  // ---------------------------------------------------------------------------------
  // Runs that exceed the cap

  ghost predicate Known(config: Config, w: Window) {
    (forall key <- config :: config[key].key == key) && w.key in config && config[w.key] == w
  }

  /** Fill the key, trim it all away at a later reading, and use the room left beside the newest grant. */
  lemma TrimOverruns(config: Config, w: Window, ts: seq<int>, alone: bool, i: nat, j: nat, k: nat)
    requires Known(config, w) && w.limit >= 2 && i <= j <= k < |ts|
    requires ts[i] + w.windowMs <= ts[j] && Near(w, ts[i], ts[k])
    ensures Overruns(config, w, ts, alone, Cap(w))
  {
    hide RunFrom, KeyRun, Over, After, CountIn;
    var n := w.limit;
    var a, b, c := Burst(w, ts[i], n), Burst(w, ts[j], 1), Burst(w, ts[k], 1);
    StartEmpty(w, ts[i]);
    BurstGranted(config, START, w, ts[i], n);
    var full := RunFrom(START, a);
    AfterNone(Stored(full.store, w.key), ts[j] - w.windowMs);
    BurstGranted(config, full, w, ts[j], 1);
    var moved := RunFrom(full, b);
    AfterMembers(Stored(moved.store, w.key), ts[k] - w.windowMs);
    BurstGranted(config, moved, w, ts[k], 1);
    var es, at := a + b + c, seq(n, _ => i) + seq(1, _ => j) + seq(1, _ => k);
    ThreeBursts(config, w, ts, alone, i, n, j, 1, k, 1);
    RunConcat(START, a, b);
    RunConcat(START, a + b, c);
    NearExceeds(w, Stored(Run(es).log, w.key), ts[i], n, ts[k], 1, Cap(w));
    var t :| Exceeds(w, Stored(Run(es).log, w.key), t, Cap(w));
    assert KeyRun(config, es, w, alone) && Over(es, ts, at);
  }

  lemma ThreeBursts(config: Config, w: Window, ts: seq<int>, alone: bool, i: nat, n: nat, j: nat, m: nat, k: nat,
                    p: nat)
    requires Known(config, w) && i <= j <= k < |ts|
    ensures var es := Burst(w, ts[i], n) + Burst(w, ts[j], m) + Burst(w, ts[k], p);
            KeyRun(config, es, w, alone) && Over(es, ts, seq(n, _ => i) + seq(m, _ => j) + seq(p, _ => k))
  {
    hide KeyRun, Over;
    var a, b, c := Burst(w, ts[i], n), Burst(w, ts[j], m), Burst(w, ts[k], p);
    BurstRun(config, w, w, ts, i, n, alone);
    BurstRun(config, w, w, ts, j, m, alone);
    BurstRun(config, w, w, ts, k, p, alone);
    KeyRunAppend(config, a, b, w, alone);
    KeyRunAppend(config, a + b, c, w, alone);
    OverAppend(a, seq(n, _ => i), b, seq(m, _ => j), ts);
    OverAppend(a + b, seq(n, _ => i) + seq(m, _ => j), c, seq(p, _ => k), ts);
  }

  /** Let the key expire, which drops grants made at readings ahead of the last one, and fill it again. */
  lemma ExpiryOverruns(config: Config, w: Window, ts: seq<int>, alone: bool, i: nat, m: nat, j: nat, k: nat)
    requires Known(config, w) && i <= m <= j <= k < |ts| && (w.limit >= 2 || i == m)
    requires Stale(w, ts, m, j) && Near(w, ts[i], ts[k])
    ensures Overruns(config, w, ts, alone, Cap(w))
  {
    hide KeyRun, Over, CountIn, ExpiryEvents;
    var n := Cap(w) - 1;
    var es := ExpiryEvents(w, ts, i, n, m, j, k, Cap(w));
    var at := seq(n, _ => i) + seq(1, _ => m) + [j] + seq(Cap(w), _ => k);
    ExpiryRun(config, w, ts, alone, i, n, m, j, k, Cap(w));
    ExpiryFills(config, w, ts, i, m, j, k);
    var log := Stored(Run(es).log, w.key);
    NearExceeds(w, log, ts[i], if w.limit >= 2 then n else 1, ts[k], Cap(w), Cap(w));
    var t :| Exceeds(w, log, t, Cap(w));
    assert KeyRun(config, es, w, alone) && Over(es, ts, at);
  }

  function ExpiryEvents(w: Window, ts: seq<int>, i: nat, n: nat, m: nat, j: nat, k: nat, p: nat): seq<Event>
    requires i < |ts| && m < |ts| && j < |ts| && k < |ts|
  {
    Burst(w, ts[i], n) + Burst(w, ts[m], 1) + [Expire(w.key, ts[j])] + Burst(w, ts[k], p)
  }

  lemma ExpiryFills(config: Config, w: Window, ts: seq<int>, i: nat, m: nat, j: nat, k: nat)
    requires Known(config, w) && i <= m <= j <= k < |ts| && Stale(w, ts, m, j)
    ensures var log := multiset(Stored(Run(ExpiryEvents(w, ts, i, Cap(w) - 1, m, j, k, Cap(w))).log, w.key));
            forall x :: log[x] == (if x == ts[i] then Cap(w) - 1 else 0) + (if x == ts[m] then 1 else 0)
                                  + (if x == ts[k] then Cap(w) else 0)
  {
    hide RunFrom, After, CountIn, Step;
    var n := Cap(w) - 1;
    var a, b, c := Burst(w, ts[i], n), Burst(w, ts[m], 1), Burst(w, ts[k], Cap(w));
    StartEmpty(w, ts[i]);
    BurstGranted(config, START, w, ts[i], n);
    var part := RunFrom(START, a);
    SmallStart(w, ts[i], n);
    AfterMembers(Stored(part.store, w.key), ts[m] - w.windowMs);
    BurstGranted(config, part, w, ts[m], 1);
    var full := RunFrom(part, b);
    DroppedKey(full, w, ts[j]);
    var dropped := Step(full, Expire(w.key, ts[j]));
    AfterNone(Stored(dropped.store, w.key), ts[k] - w.windowMs);
    BurstGranted(config, dropped, w, ts[k], Cap(w));
    RunConcat(START, a, b);
    RunAppend(START, a + b, Expire(w.key, ts[j]));
    RunConcat(START, a + b + [Expire(w.key, ts[j])], c);
  }

  lemma StartEmpty(w: Window, at: int)
    ensures Live(START.store, w, at) == []
  {
    AfterNone([], at - w.windowMs);
  }

  lemma SmallStart(w: Window, at: int, n: nat)
    requires Filled(START, RunFrom(START, Burst(w, at, n)), w, at, n)
    ensures |Stored(RunFrom(START, Burst(w, at, n)).store, w.key)| <= n
  {
    hide Live;
    StartEmpty(w, at);
    if n == 0 {
      assert Burst(w, at, 0) == [];
    }
  }

  lemma DroppedKey(s: State, w: Window, now: int)
    requires ExpiryOf(s, w.key).Some? && ExpiryOf(s, w.key).value <= now
    ensures var after := Step(s, Expire(w.key, now));
            Stored(after.store, w.key) == [] && Stored(after.log, w.key) == Stored(s.log, w.key)
  {
  }

  lemma ExpiryRun(config: Config, w: Window, ts: seq<int>, alone: bool, i: nat, n: nat, m: nat, j: nat, k: nat, p: nat)
    requires Known(config, w) && i <= m <= j <= k < |ts|
    ensures var es := ExpiryEvents(w, ts, i, n, m, j, k, p);
            KeyRun(config, es, w, alone) && Over(es, ts, seq(n, _ => i) + seq(1, _ => m) + [j] + seq(p, _ => k))
  {
    hide KeyRun, Over;
    var a, b, c := Burst(w, ts[i], n), Burst(w, ts[m], 1), Burst(w, ts[k], p);
    var d := [Expire(w.key, ts[j])];
    BurstRun(config, w, w, ts, i, n, alone);
    BurstRun(config, w, w, ts, m, 1, alone);
    BurstRun(config, w, w, ts, k, p, alone);
    DropRun(config, w, ts, j, alone);
    KeyRunAppend(config, a, b, w, alone);
    KeyRunAppend(config, a + b, d, w, alone);
    KeyRunAppend(config, a + b + d, c, w, alone);
    OverAppend(a, seq(n, _ => i), b, seq(1, _ => m), ts);
    OverAppend(a + b, seq(n, _ => i) + seq(1, _ => m), d, [j], ts);
    OverAppend(a + b + d, seq(n, _ => i) + seq(1, _ => m) + [j], c, seq(p, _ => k), ts);
  }

  /**
   * The exact condition on clock readings. A limit of two or more is kept in every run over some
   * readings if and only if no grant made at one of them can be forgotten and then be less than a
   * window away from a later one. The same holds for any limit if calls name one key each.
   */
  lemma KeptExactly(config: Config, w: Window, ts: seq<int>, alone: bool)
    requires Known(config, w) && (w.limit >= 2 || alone)
    ensures Overruns(config, w, ts, alone, Cap(w)) <==> Forgets(w, ts, alone)
  {
    hide KeyRun, Over, CountIn, Run;
    if Forgets(w, ts, alone) {
      var i: nat, j: nat, k: nat :| i <= j <= k < |ts| && Lost(w, ts, alone, i, j) && Near(w, ts[i], ts[k]);
      if w.limit >= 2 && ts[i] + w.windowMs <= ts[j] {
        TrimOverruns(config, w, ts, alone, i, j, k);
      } else if w.limit >= 2 {
        var m :| i <= m <= j && Stale(w, ts, m, j);
        ExpiryOverruns(config, w, ts, alone, i, m, j, k);
      } else {
        ExpiryOverruns(config, w, ts, alone, i, i, j, k);
      }
    }
    if Overruns(config, w, ts, alone, Cap(w)) {
      var es, at, t :| KeyRun(config, es, w, alone) && Over(es, ts, at)
                       && Exceeds(w, Stored(Run(es).log, w.key), t, Cap(w));
      WithinUnlessForgotten(config, es, at, w, ts, alone, t);
    }
  }

  lemma WithinUnlessForgotten(config: Config, es: seq<Event>, at: seq<nat>, w: Window, ts: seq<int>, alone: bool,
                              t: int)
    requires KeyRun(config, es, w, alone) && Over(es, ts, at) && Exceeds(w, Stored(Run(es).log, w.key), t, Cap(w))
    ensures Forgets(w, ts, alone)
  {
    hide KeyRun, Over, CountIn, Run, Forgets;
    if Forgets(w, Clock(es), alone) {
      ForgetsOver(w, es, ts, at, alone);
    } else {
      RememberedWithin(config, es, w, alone, t);
    }
  }

  // ---------------------------------------------------------------------------------
  // A limit of one in calls of several keys

  /** A call that names the key beside a full one trims the key and is then refused. */
  lemma OtherOverruns(config: Config, w: Window, v: Window, ts: seq<int>, i: nat, j: nat, k: nat)
    requires Known(config, w) && Known(config, v) && v.key != w.key && v.windowMs > 0 && Cap(w) == 1
    requires i <= j <= k < |ts| && ts[i] + w.windowMs <= ts[j] && Near(w, ts[i], ts[k])
    ensures Overruns(config, w, ts, false, 1)
  {
    hide KeyRun, Over, CountIn, OtherEvents;
    var es := OtherEvents(w, v, ts, i, j, k);
    OtherRun(config, w, v, ts, i, j, k);
    OtherFills(config, w, v, ts, i, j, k);
    var log := Stored(Run(es).log, w.key);
    NearExceeds(w, log, ts[i], 1, ts[k], 1, 1);
    var t :| Exceeds(w, log, t, 1);
    assert KeyRun(config, es, w, false) && Over(es, ts, [i] + seq(Cap(v), _ => j) + [j] + [k]);
  }

  function OtherEvents(w: Window, v: Window, ts: seq<int>, i: nat, j: nat, k: nat): seq<Event>
    requires i < |ts| && j < |ts| && k < |ts|
  {
    Burst(w, ts[i], 1) + Burst(v, ts[j], Cap(v)) + [Call([w, v], ts[j])] + Burst(w, ts[k], 1)
  }

  lemma OtherRun(config: Config, w: Window, v: Window, ts: seq<int>, i: nat, j: nat, k: nat)
    requires Known(config, w) && Known(config, v) && v.key != w.key && i <= j <= k < |ts|
    ensures var es := OtherEvents(w, v, ts, i, j, k);
            KeyRun(config, es, w, false) && Over(es, ts, [i] + seq(Cap(v), _ => j) + [j] + [k])
  {
    hide Over;
    var a, b, c := Burst(w, ts[i], 1), Burst(v, ts[j], Cap(v)), Burst(w, ts[k], 1);
    var d := [Call([w, v], ts[j])];
    BurstRun(config, w, w, ts, i, 1, false);
    BurstRun(config, w, v, ts, j, Cap(v), false);
    BurstRun(config, w, w, ts, k, 1, false);
    PairRun(config, w, v, ts, j);
    assert seq(1, _ => i) == [i] && seq(1, _ => k) == [k];
    KeyRunAppend(config, a, b, w, false);
    KeyRunAppend(config, a + b, d, w, false);
    KeyRunAppend(config, a + b + d, c, w, false);
    OverAppend(a, [i], b, seq(Cap(v), _ => j), ts);
    OverAppend(a + b, [i] + seq(Cap(v), _ => j), d, [j], ts);
    OverAppend(a + b + d, [i] + seq(Cap(v), _ => j) + [j], c, [k], ts);
  }

  lemma PairRun(config: Config, w: Window, v: Window, ts: seq<int>, j: nat)
    requires Known(config, w) && Known(config, v) && v.key != w.key && j < |ts|
    ensures KeyRun(config, [Call([w, v], ts[j])], w, false) && Over([Call([w, v], ts[j])], ts, [j])
    ensures Times([w, v], w.key) == 1
  {
    assert [w, v][..1] == [w] && [w][..0] == [];
    assert Times([w], w.key) == 1;
  }

  /** Calls of another key leave a key alone. */
  lemma {:induction false} BurstApart(config: Config, s: State, w: Window, v: Window, at: int, n: nat)
    requires Known(config, w) && Known(config, v) && v.key != w.key
    ensures Untouched(s, RunFrom(s, Burst(v, at, n)), w.key)
  {
    hide Step;
    if n > 0 {
      assert Burst(v, at, n) == Burst(v, at, n - 1) + [Call([v], at)];
      RunAppend(s, Burst(v, at, n - 1), Call([v], at));
      BurstApart(config, s, w, v, at, n - 1);
      var before := RunFrom(s, Burst(v, at, n - 1));
      assert Consistent([v]);
      AllOrNone(before, [v], at);
      assert [v][..0] == [] && Times([], w.key) == 0 && Times([v], w.key) == 0;
    }
  }

  lemma OtherFills(config: Config, w: Window, v: Window, ts: seq<int>, i: nat, j: nat, k: nat)
    requires Known(config, w) && Known(config, v) && v.key != w.key && v.windowMs > 0 && Cap(w) == 1
    requires i <= j <= k < |ts| && ts[i] + w.windowMs <= ts[j]
    ensures var log := multiset(Stored(Run(OtherEvents(w, v, ts, i, j, k)).log, w.key));
            forall x :: log[x] == (if x == ts[i] then 1 else 0) + (if x == ts[k] then 1 else 0)
  {
    hide RunFrom, After, CountIn, Step, Times;
    var a, b, c := Burst(w, ts[i], 1), Burst(v, ts[j], Cap(v)), Burst(w, ts[k], 1);
    StartEmpty(w, ts[i]);
    BurstGranted(config, START, w, ts[i], 1);
    var one := RunFrom(START, a);
    BurstApart(config, START, v, w, ts[i], 1);
    StartEmpty(v, ts[j]);
    BurstGranted(config, one, v, ts[j], Cap(v));
    BurstApart(config, one, w, v, ts[j], Cap(v));
    var both := RunFrom(one, b);
    PairRefused(config, both, w, v, ts[j]);
    var trimmed := Step(both, Call([w, v], ts[j]));
    AfterNone(Stored(both.store, w.key), ts[j] - w.windowMs);
    AfterNone([], ts[k] - w.windowMs);
    BurstGranted(config, trimmed, w, ts[k], 1);
    RunConcat(START, a, b);
    RunAppend(START, a + b, Call([w, v], ts[j]));
    RunConcat(START, a + b + [Call([w, v], ts[j])], c);
  }

  lemma PairRefused(config: Config, s: State, w: Window, v: Window, at: int)
    requires Known(config, w) && Known(config, v) && v.key != w.key && v.windowMs > 0
    requires multiset(Stored(s.store, v.key))[at] >= Cap(v)
    ensures var after := Step(s, Call([w, v], at));
            Stored(after.store, w.key) == Live(s.store, w, at) && Stored(after.log, w.key) == Stored(s.log, w.key)
  {
    hide Step, After;
    assert Consistent([w, v]);
    AllOrNone(s, [w, v], at);
    AfterMembers(Stored(s.store, v.key), at - v.windowMs);
    ManyMembers(Live(s.store, v, at), at, Cap(v));
    assert v in [w, v] && w in [w, v] && Blocked(s.store, v, at);
  }

  lemma {:induction false} ManyMembers(s: Grants, x: int, n: nat)
    requires multiset(s)[x] >= n
    ensures |s| >= n
  {
    assert |multiset(s)| == |s|;
    assert multiset{}[x := n] <= multiset(s);
    assert |multiset(s)| == |multiset{}[x := n]| + |multiset(s) - multiset{}[x := n]|;
  }

  /**
   * If calls may name a second key with a window of its own, a limit of one or none is kept
   * exactly on the readings on which trimming alone forgets no grant too early.
   */
  lemma KeptAmongOthersExactly(config: Config, w: Window, v: Window, ts: seq<int>)
    requires Known(config, w) && Known(config, v) && v.key != w.key && v.windowMs > 0 && Cap(w) == 1
    ensures Overruns(config, w, ts, false, 1) <==> Forgets(w, ts, false)
  {
    hide KeyRun, Over, CountIn, Run;
    if Forgets(w, ts, false) {
      var i: nat, j: nat, k: nat :| i <= j <= k < |ts| && Lost(w, ts, false, i, j) && Near(w, ts[i], ts[k]);
      OtherOverruns(config, w, v, ts, i, j, k);
    }
    if Overruns(config, w, ts, false, 1) {
      var es, at, t :| KeyRun(config, es, w, false) && Over(es, ts, at) && Exceeds(w, Stored(Run(es).log, w.key), t, 1);
      WithinUnlessForgotten(config, es, at, w, ts, false, t);
    }
  }
}
