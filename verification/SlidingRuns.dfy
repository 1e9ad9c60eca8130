/** Whole runs of the reservation script: what each call does to every key, and when a refused call may retry. */
module SlidingRuns {
  import opened Common
  import opened SlidingWindow

  /** The limit and window each key is always called with. */
  type Config = map<string, Window>

  /** A call of the script, or the server dropping a key whose time to live has passed. */
  datatype Event = Call(ws: seq<Window>, now: int) | Expire(key: string, now: int)

  function Now(e: Event): int { e.now }

  /** The stored sets, when each expires, and every grant ever made per key. */
  datatype State = State(store: Store, expireAt: map<string, int>, log: Store)

  const START := State(map[], map[], map[])

  const EXPIRY_SLACK_MS: nat := 1000

  function ExpiryAfter(expireAt: map<string, int>, ws: seq<Window>, now: int): map<string, int> {
    if ws == [] then expireAt
    else
      var w := ws[|ws| - 1];
      ExpiryAfter(expireAt, ws[..|ws| - 1], now)[w.key := now + w.windowMs + EXPIRY_SLACK_MS]
  }

  predicate Expires(s: State, key: string, now: int) { key in s.expireAt && s.expireAt[key] <= now }

  function Step(s: State, e: Event): State {
    match e
    case Call(ws, now) =>
      var (store, reply) := Reserve(s.store, ws, now);
      if reply.Wait? then s.(store := store)
      else State(store, ExpiryAfter(s.expireAt, ws, now), Record(s.log, ws, now))
    case Expire(key, now) =>
      if Expires(s, key, now) then s.(store := s.store - {key}, expireAt := s.expireAt - {key}) else s
  }

  function RunFrom(s: State, es: seq<Event>): State {
    if es == [] then s else Step(RunFrom(s, es[..|es| - 1]), es[|es| - 1])
  }

  function Run(es: seq<Event>): State { RunFrom(START, es) }

  lemma RunAppend(s: State, es: seq<Event>, e: Event)
    ensures RunFrom(s, es + [e]) == Step(RunFrom(s, es), e)
  {
    assert (es + [e])[..|es|] == es;
  }

  function ExpiryOf(s: State, key: string): Option<int> {
    if key in s.expireAt then Some(s.expireAt[key]) else None
  }

  // ---------------------------------------------------------------------------------
  // Calls with one window per key

  /** Every window is the one its key is configured with. */
  ghost predicate Named(config: Config, ws: seq<Window>) {
    forall w <- ws :: w.key in config && config[w.key] == w
  }

  ghost predicate Calls(config: Config, es: seq<Event>) {
    && (forall key <- config :: config[key].key == key)
    && (forall e <- es :: e.Call? ==> Named(config, e.ws))
  }

  /** No call names the key twice. */
  ghost predicate Once(es: seq<Event>, key: string) {
    forall e <- es :: e.Call? ==> Times(e.ws, key) <= 1
  }

  ghost predicate NonDecreasing(es: seq<Event>) {
    forall i, j :: 0 <= i < j < |es| ==> Now(es[i]) <= Now(es[j])
  }

  lemma NamedConsistent(config: Config, ws: seq<Window>)
    requires Named(config, ws)
    ensures Consistent(ws)
  {
  }

  lemma CallsPrefix(config: Config, init: seq<Event>, last: Event, key: string)
    requires Calls(config, init + [last])
    ensures Calls(config, init) && (last.Call? ==> Named(config, last.ws))
    ensures Once(init + [last], key) <==> Once(init, key) && (last.Call? ==> Times(last.ws, key) <= 1)
  {
    var es := init + [last];
    assert last in es && (forall e <- init :: e in es) && forall e <- es :: e in init || e == last;
  }

  // ---------------------------------------------------------------------------------
  // What one call does

  lemma {:induction false} ExpiryEach(expireAt: map<string, int>, ws: seq<Window>, now: int)
    requires Consistent(ws)
    ensures var after := ExpiryAfter(expireAt, ws, now);
            && (forall w <- ws :: w.key in after && after[w.key] == now + w.windowMs + EXPIRY_SLACK_MS)
            && (forall key :: Times(ws, key) == 0 ==>
                  (key in after <==> key in expireAt) && (key in after ==> after[key] == expireAt[key]))
  {
    if ws != [] {
      var init, last := ws[..|ws| - 1], ws[|ws| - 1];
      assert ws == init + [last];
      ConsistentPrefix(init, last);
      ExpiryEach(expireAt, init, now);
    }
  }

  /**
   * A call trims every key it names. Granted, it adds its time to each of them, once for every
   * time it names the key, and renews their expiry; refused, it does nothing more. Keys it does
   * not name are left alone.
   */
  ghost predicate CallDone(s: State, ws: seq<Window>, now: int, after: State, granted: bool) {
    && (forall w <- ws ::
          if granted then
            && !Blocked(s.store, w, now)
            && Stored(after.store, w.key) == AddTimes(Live(s.store, w, now), now, Times(ws, w.key))
            && Stored(after.log, w.key) == AddTimes(Stored(s.log, w.key), now, Times(ws, w.key))
            && ExpiryOf(after, w.key) == Some(now + w.windowMs + EXPIRY_SLACK_MS)
          else
            && Stored(after.store, w.key) == Live(s.store, w, now)
            && Stored(after.log, w.key) == Stored(s.log, w.key)
            && ExpiryOf(after, w.key) == ExpiryOf(s, w.key))
    && (forall key :: Times(ws, key) == 0 ==> Untouched(s, after, key))
  }

  ghost predicate Untouched(s: State, after: State, key: string) {
    && Stored(after.store, key) == Stored(s.store, key)
    && Stored(after.log, key) == Stored(s.log, key)
    && ExpiryOf(after, key) == ExpiryOf(s, key)
  }

  /** All keys of a call are recorded or none is. */
  lemma AllOrNone(s: State, ws: seq<Window>, now: int)
    requires Consistent(ws)
    ensures CallDone(s, ws, now, Step(s, Call(ws, now)), forall w <- ws :: !Blocked(s.store, w, now))
  {
    hide Trim, Record, MaxWait, Live, Blocked, ExpiryAfter, AddTimes, Times, Consistent;
    GrantedExactly(s.store, ws, now);
    TrimEach(s.store, ws, now);
    RecordEach(Trim(s.store, ws, now), ws, now);
    RecordEach(s.log, ws, now);
    ExpiryEach(s.expireAt, ws, now);
    AddNever(now);
  }

  lemma AddNever(now: int)
    ensures forall s :: AddTimes(s, now, 0) == s
  {
  }

  /** The same for calls of distinct keys: one grant on every key, or none on any. */
  lemma AllOnceOrNone(s: State, ws: seq<Window>, now: int)
    requires DistinctKeys(ws)
    ensures var after := Step(s, Call(ws, now));
            if forall w <- ws :: !Blocked(s.store, w, now) then
              forall w <- ws :: Stored(after.store, w.key) == Add(Live(s.store, w, now), now)
            else
              forall w <- ws :: Stored(after.store, w.key) == Live(s.store, w, now)
  {
    hide Step, Live, Blocked, Add, AddTimes, Times;
    assert Consistent(ws);
    AllOrNone(s, ws, now);
    DistinctOnce(ws);
    forall w | w in ws
      ensures Times(ws, w.key) == 1 && AddTimes(Live(s.store, w, now), now, 1) == Add(Live(s.store, w, now), now)
    {
      TimesPositive(ws, w.key);
      AddOnce(Live(s.store, w, now), now);
    }
  }

  /** What one event does to one key. */
  datatype KeyStep = Idle | Trimmed | Recorded(times: nat) | Dropped

  ghost predicate KeyDone(s: State, e: Event, after: State, w: Window, step: KeyStep) {
    match step
    case Idle => Untouched(s, after, w.key)
    case Trimmed =>
      && e.Call? && Times(e.ws, w.key) > 0
      && Stored(after.store, w.key) == Live(s.store, w, e.now)
      && Stored(after.log, w.key) == Stored(s.log, w.key)
      && ExpiryOf(after, w.key) == ExpiryOf(s, w.key)
    case Recorded(times) =>
      && e.Call? && times == Times(e.ws, w.key) > 0
      && !Blocked(s.store, w, e.now)
      && Stored(after.store, w.key) == AddTimes(Live(s.store, w, e.now), e.now, times)
      && Stored(after.log, w.key) == AddTimes(Stored(s.log, w.key), e.now, times)
      && ExpiryOf(after, w.key) == Some(e.now + w.windowMs + EXPIRY_SLACK_MS)
    case Dropped =>
      && ExpiryOf(s, w.key).Some? && ExpiryOf(s, w.key).value <= e.now
      && Stored(after.store, w.key) == []
      && Stored(after.log, w.key) == Stored(s.log, w.key)
      && ExpiryOf(after, w.key).None?
  }

  lemma OneStep(config: Config, s: State, e: Event, w: Window) returns (step: KeyStep)
    requires (e.Call? ==> Named(config, e.ws)) && w.key in config && config[w.key] == w
    ensures KeyDone(s, e, Step(s, e), w, step)
    ensures e.Call? && e.ws == [w] && !Blocked(s.store, w, e.now) ==> step == Recorded(1)
    ensures e.Call? && e.ws == [w] && Blocked(s.store, w, e.now) ==> step == Trimmed
    ensures e.Expire? && e.key == w.key && Expires(s, w.key, e.now) ==> step == Dropped
  {
    hide Reserve, Live, Blocked, AddTimes, Times;
    match e {
      case Expire(key, now) => step := if key == w.key && Expires(s, key, now) then Dropped else Idle;
      case Call(ws, now) => step := CallStep(config, s, ws, now, w);
    }
  }

  lemma CallStep(config: Config, s: State, ws: seq<Window>, now: int, w: Window) returns (step: KeyStep)
    requires Named(config, ws) && w.key in config && config[w.key] == w
    ensures KeyDone(s, Call(ws, now), Step(s, Call(ws, now)), w, step)
    ensures ws == [w] ==> step == if Blocked(s.store, w, now) then Trimmed else Recorded(1)
  {
    hide Step, Live, Blocked, AddTimes, Times;
    NamedConsistent(config, ws);
    AllOrNone(s, ws, now);
    TimesPositive(ws, w.key);
    OnlyOne(w);
    var granted := forall v <- ws :: !Blocked(s.store, v, now);
    if Times(ws, w.key) == 0 {
      step := Idle;
    } else {
      var v :| v in ws && v.key == w.key;
      assert v == w;
      step := if granted then Recorded(Times(ws, w.key)) else Trimmed;
    }
    if ws == [w] {
      assert w in ws;
    }
  }

  lemma OnlyOne(w: Window)
    ensures Times([w], w.key) == 1
  {
    assert [w][..0] == [];
    assert Times([], w.key) == 0;
  }

  // ---------------------------------------------------------------------------------
  // What every run keeps, whatever its clock does

  lemma StepHolds(s: State, e: Event, after: State, w: Window, step: KeyStep)
    requires KeyDone(s, e, after, w, step) && Holds(s.store, w) && (step.Recorded? ==> step.times == 1)
    ensures Holds(after.store, w)
  {
    hide After, Add, AddTimes, Times;
    var stored := Stored(s.store, w.key);
    AfterMembers(stored, e.now - w.windowMs);
    AfterAscending(stored, e.now - w.windowMs);
    var live := After(stored, e.now - w.windowMs);
    AddOnce(live, e.now);
    AddMembers(live, e.now);
    AddAscending(live, e.now);
  }

  lemma {:induction false} RunHolds(config: Config, es: seq<Event>, w: Window)
    requires Calls(config, es) && Once(es, w.key) && w.key in config && config[w.key] == w
    ensures Holds(Run(es).store, w)
  {
    hide Step, Times;
    if es != [] {
      var init, last := es[..|es| - 1], es[|es| - 1];
      assert es == init + [last];
      CallsPrefix(config, init, last, w.key);
      RunHolds(config, init, w);
      var step := OneStep(config, Run(init), last, w);
      StepHolds(Run(init), last, Run(es), w, step);
    }
  }

  // ---------------------------------------------------------------------------------
  // Retrying

  /** A key's grants are in the past, and its expiry waits for all of them to leave the window. */
  ghost predicate Timely(s: State, w: Window, now: int) {
    forall x <- Stored(s.store, w.key) ::
      x <= now && (ExpiryOf(s, w.key).Some? ==> x + w.windowMs <= ExpiryOf(s, w.key).value)
  }

  lemma StepTimely(s: State, e: Event, after: State, w: Window, step: KeyStep)
    requires KeyDone(s, e, after, w, step) && Timely(s, w, e.now)
    ensures Timely(after, w, e.now)
  {
    hide After, AddTimes, Times;
    var stored := Stored(s.store, w.key);
    AfterMembers(stored, e.now - w.windowMs);
    var live := After(stored, e.now - w.windowMs);
    if step.Recorded? {
      AddTimesMembers(live, e.now, step.times);
      forall x | x in Stored(after.store, w.key)
        ensures x == e.now || x in stored
      {
        assert x in multiset(AddTimes(live, e.now, step.times));
        assert x != e.now ==> x in multiset(live);
      }
    }
  }

  lemma {:induction false} RunTimely(config: Config, es: seq<Event>, w: Window, now: int)
    requires Calls(config, es) && w.key in config && config[w.key] == w && NonDecreasing(es)
    requires es != [] ==> Now(es[|es| - 1]) <= now
    ensures Timely(Run(es), w, now)
  {
    hide Step, KeyDone;
    if es != [] {
      var init, last := es[..|es| - 1], es[|es| - 1];
      assert es == init + [last];
      assert forall i :: 0 <= i < |init| ==> init[i] == es[i];
      CallsPrefix(config, init, last, w.key);
      RunTimely(config, init, w, last.now);
      var step := OneStep(config, Run(init), last, w);
      StepTimely(Run(init), last, Run(es), w, step);
    }
  }

  /** Only expirations happened, none after a given time. */
  ghost predicate Expirations(es: seq<Event>, later: int) {
    forall e <- es :: e.Expire? && e.now <= later
  }

  /** Expirations leave a key's set alone, or drop grants that have left the window by then. */
  lemma {:induction false} OnlyExpired(s: State, es: seq<Event>, w: Window, now: int, later: int)
    requires Timely(s, w, now) && Expirations(es, later)
    ensures var after := RunFrom(s, es);
            && (Untouched(s, after, w.key)
                || (Stored(after.store, w.key) == [] && ExpiryOf(after, w.key).None?
                    && forall x <- Stored(s.store, w.key) :: x <= later - w.windowMs))
  {
    if es != [] {
      var init, last := es[..|es| - 1], es[|es| - 1];
      assert last in es && forall e <- init :: e in es;
      OnlyExpired(s, init, w, now, later);
    }
  }

  lemma ExpiredUnblocked(s: State, after: State, w: Window, later: int)
    requires Untouched(s, after, w.key)
             || (Stored(after.store, w.key) == [] && forall x <- Stored(s.store, w.key) :: x <= later - w.windowMs)
    ensures Blocked(after.store, w, later) <==> Blocked(s.store, w, later)
  {
    hide After;
    if !Untouched(s, after, w.key) {
      AfterNone(Stored(s.store, w.key), later - w.windowMs);
      AfterNone([], later - w.windowMs);
    }
  }

  /**
   * In every run, the wait a refused call is told is exactly when the same call will succeed, if
   * nothing else reserves meanwhile. With a clock that never steps back, keys may expire in
   * between; without expirations the clock may have done anything before.
   */
  lemma RetryAfterWait(config: Config, es: seq<Event>, ws: seq<Window>, now: int, expired: seq<Event>, later: int)
    requires Calls(config, es + [Call(ws, now)]) && (forall w <- ws :: Once(es, w.key)) && later >= now
    requires Expirations(expired, later) && (expired != [] ==> NonDecreasing(es + [Call(ws, now)]))
    requires Reserve(Run(es).store, ws, now).1.Wait?
    ensures var wait := Reserve(Run(es).store, ws, now).1.ms;
            var retry := RunFrom(Step(Run(es), Call(ws, now)), expired);
            Reserve(retry.store, ws, later).1.Granted? <==> later >= now + wait
  {
    hide Run, RunFrom, Step, Reserve, Once, Times, Holds, Blocked, Timely, NonDecreasing, Expirations, Untouched;
    var s := Run(es);
    CallsPrefix(config, es, Call(ws, now), "");
    NamedConsistent(config, ws);
    forall w | w in ws
      ensures Holds(s.store, w)
    {
      RunHolds(config, es, w);
    }
    WaitIsExact(s.store, ws, now, later);
    Refused(s, ws, now);
    var refused := Step(s, Call(ws, now));
    var retry := RunFrom(refused, expired);
    if expired == [] {
      Nothing(refused);
    } else {
      forall w | w in ws
        ensures Blocked(retry.store, w, later) <==> Blocked(refused.store, w, later)
      {
        TimelyRefusal(config, es, ws, now, w);
        OnlyExpired(refused, expired, w, now, later);
        ExpiredUnblocked(refused, retry, w, later);
      }
      GrantedExactly(refused.store, ws, later);
      GrantedExactly(retry.store, ws, later);
    }
  }

  lemma Nothing(s: State)
    ensures RunFrom(s, []) == s
  {
  }

  lemma Refused(s: State, ws: seq<Window>, now: int)
    requires Reserve(s.store, ws, now).1.Wait?
    ensures Step(s, Call(ws, now)).store == Reserve(s.store, ws, now).0
  {
  }

  lemma TimelyRefusal(config: Config, es: seq<Event>, ws: seq<Window>, now: int, w: Window)
    requires Calls(config, es + [Call(ws, now)]) && NonDecreasing(es + [Call(ws, now)]) && w in ws
    ensures Timely(Step(Run(es), Call(ws, now)), w, now)
  {
    hide Step, Timely, Times;
    CallsPrefix(config, es, Call(ws, now), w.key);
    RunAppend(START, es, Call(ws, now));
    RunTimely(config, es + [Call(ws, now)], w, now);
  }
}
