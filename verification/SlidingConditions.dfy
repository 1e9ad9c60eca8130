/** What callers must respect: distinct keys in a call, limits of at least one, and a clock that keeps its word. */
module SlidingConditions {
  import opened SlidingWindow
  import opened SlidingRuns
  import opened SlidingLimit
  import opened SlidingExact

  // ---------------------------------------------------------------------------------
  // Keys named more than once

  /** A run without repeated keys on a steady clock, followed by one call. */
  ghost predicate Ready(config: Config, es: seq<Event>, ws: seq<Window>, now: int, w: Window) {
    && Calls(config, es) && w.key in config && config[w.key] == w && Once(es, w.key)
    && NonDecreasing(es + [Call(ws, now)])
  }

  /** A call after which some key exceeds its cap, at the end of a run that never did. */
  ghost predicate CallOverruns(config: Config, ws: seq<Window>) {
    exists es, now, w, t ::
      Ready(config, es, ws, now, w) && Exceeds(w, Stored(Run(es + [Call(ws, now)]).log, w.key), t, Cap(w))
  }

  /** Two positions of a call name one key whose window is not empty. */
  ghost predicate Repeats(ws: seq<Window>) {
    exists i, j :: 0 <= i < j < |ws| && ws[i].key == ws[j].key && ws[i].windowMs > 0
  }

  /** A call can exceed a cap at the end of some run exactly if it repeats a key whose window is not empty. */
  lemma RepeatedKeysExactly(config: Config, ws: seq<Window>)
    requires (forall key <- config :: config[key].key == key) && Named(config, ws)
    ensures CallOverruns(config, ws) <==> Repeats(ws)
  {
    hide Run, CountIn, Ready;
    if Repeats(ws) {
      var i, j :| 0 <= i < j < |ws| && ws[i].key == ws[j].key && ws[i].windowMs > 0;
      RepeatOverruns(config, ws, i, j);
    }
    if CallOverruns(config, ws) {
      var es, now, w, t :|
        Ready(config, es, ws, now, w) && Exceeds(w, Stored(Run(es + [Call(ws, now)]).log, w.key), t, Cap(w));
      OverrunRepeats(config, es, ws, now, w, t);
    }
  }

  lemma OverrunRepeats(config: Config, es: seq<Event>, ws: seq<Window>, now: int, w: Window, t: int)
    requires Ready(config, es, ws, now, w) && Named(config, ws)
    requires Exceeds(w, Stored(Run(es + [Call(ws, now)]).log, w.key), t, Cap(w))
    ensures Repeats(ws)
  {
    hide Run, CountIn, Times, Forgets;
    var all := es + [Call(ws, now)];
    if w.windowMs == 0 {
      EmptyWindow(Stored(Run(all).log, w.key), t);
    } else {
      TimesRepeated(ws, w.key);
      if Times(ws, w.key) >= 2 {
        var i, j :| 0 <= i < j < |ws| && ws[i].key == w.key && ws[j].key == w.key;
        assert ws[i] in ws;
      } else {
        assert KeyRun(config, all, w, false) by { ReadyRun(config, es, ws, now, w); }
        SteadyRemembers(w, Clock(all), false);
        RememberedWithin(config, all, w, false, t);
      }
    }
  }

  lemma ReadyRun(config: Config, es: seq<Event>, ws: seq<Window>, now: int, w: Window)
    requires Ready(config, es, ws, now, w) && Named(config, ws) && Times(ws, w.key) <= 1
    ensures KeyRun(config, es + [Call(ws, now)], w, false)
  {
    hide Times;
    assert forall e <- es + [Call(ws, now)] :: e in es || e == Call(ws, now);
  }

  /** After filling the key up to one below its cap, the call is granted and charges it at least twice. */
  lemma RepeatOverruns(config: Config, ws: seq<Window>, i: nat, j: nat)
    requires (forall key <- config :: config[key].key == key) && Named(config, ws)
    requires i < j < |ws| && ws[i].key == ws[j].key && ws[i].windowMs > 0
    ensures CallOverruns(config, ws)
  {
    hide RunFrom, Step, CountIn, Times, After, AddTimes;
    assert ws[i] in ws;
    var w := ws[i];
    var n := Cap(w) - 1;
    var es := Burst(w, 0, n);
    StartEmpty(w, 0);
    BurstGranted(config, START, w, 0, n);
    SmallStart(w, 0, n);
    var part := Run(es);
    NamedConsistent(config, ws);
    AllOrNone(part, ws, 0);
    forall u | u in ws
      ensures !Blocked(part.store, u, 0)
    {
      if u.key != w.key {
        BurstApart(config, START, u, w, 0, n);
        StartEmpty(u, 0);
      } else {
        AfterMembers(Stored(part.store, w.key), 0 - w.windowMs);
      }
    }
    RunAppend(START, es, Call(ws, 0));
    TimesRepeated(ws, w.key);
    var log := Stored(Run(es + [Call(ws, 0)]).log, w.key);
    AddTimesMembers(Stored(part.log, w.key), 0, Times(ws, w.key));
    NearExceeds(w, log, 0, Cap(w) + 1, 0, 0, Cap(w));
    var t :| Exceeds(w, log, t, Cap(w));
    BurstReady(config, ws, w, n);
  }

  lemma BurstReady(config: Config, ws: seq<Window>, w: Window, n: nat)
    requires Known(config, w)
    ensures Ready(config, Burst(w, 0, n), ws, 0, w)
  {
    hide Times;
    OnceAlone(w);
  }

  // ---------------------------------------------------------------------------------
  // A limit of zero

  /** A steady run in which a window of the key holds more grants than its limit. */
  ghost predicate LimitOverruns(config: Config, w: Window) {
    exists es, t ::
      KeyRun(config, es, w, false) && NonDecreasing(es) && Exceeds(w, Stored(Run(es).log, w.key), t, w.limit)
  }

  /** On steady clocks a limit is kept in every run exactly if it is at least one or its window is empty. */
  lemma LimitKeptExactly(config: Config, w: Window)
    requires Known(config, w)
    ensures !LimitOverruns(config, w) <==> w.limit >= 1 || w.windowMs == 0
  {
    hide RunFrom, CountIn, Times, Forgets, After;
    if w.limit == 0 && w.windowMs > 0 {
      var es := Burst(w, 0, 1);
      StartEmpty(w, 0);
      BurstGranted(config, START, w, 0, 1);
      var log := Stored(Run(es).log, w.key);
      NearExceeds(w, log, 0, 1, 0, 0, 0);
      var t :| Exceeds(w, log, t, 0);
      BurstRun(config, w, w, [0], 0, 1, false);
    } else {
      forall es, t | KeyRun(config, es, w, false) && NonDecreasing(es)
        ensures !Exceeds(w, Stored(Run(es).log, w.key), t, w.limit)
      {
        if w.windowMs == 0 {
          EmptyWindow(Stored(Run(es).log, w.key), t);
        } else {
          NeverOverLimit(config, es, w.key, t);
        }
      }
    }
  }

  // ---------------------------------------------------------------------------------
  // Clocks that step back

  /** The readings before, at and after one step back can exceed the cap. */
  ghost predicate StepOverruns(config: Config, w: Window, late: int, at: int) {
    exists g :: g <= late && Overruns(config, w, [g, late, at], true, Cap(w))
  }

  /**
   * A limit of two or more is lost to every step back, however small; a limit of one, in calls of
   * that key alone, only to steps longer than the slack of the expiry.
   */
  lemma BackwardStepExactly(config: Config, w: Window, late: int, at: int)
    requires Known(config, w) && w.windowMs > 0 && at < late
    ensures StepOverruns(config, w, late, at) <==> w.limit >= 2 || late - at > 1_000
  {
    hide Overruns, Forgets;
    if w.limit >= 2 || late - at > EXPIRY_SLACK_MS {
      var back := if w.limit >= 2 then late - w.windowMs else late - w.windowMs - EXPIRY_SLACK_MS;
      var g := if back < at then back else at;
      StepForgets(w, g, late, at);
      KeptExactly(config, w, [g, late, at], true);
    } else {
      forall g | g <= late
        ensures !Overruns(config, w, [g, late, at], true, Cap(w))
      {
        SmallStepsRemember(w, [g, late, at]);
        KeptExactly(config, w, [g, late, at], true);
      }
    }
  }

  lemma StepForgets(w: Window, g: int, late: int, at: int)
    requires Near(w, g, at) && g + w.windowMs + (if w.limit >= 2 then 0 else EXPIRY_SLACK_MS) <= late
    ensures Forgets(w, [g, late, at], true)
  {
    var ts := [g, late, at];
    assert ts[0] == g && ts[1] == late && ts[2] == at;
    assert Lost(w, ts, true, 0, 1);
  }

  /** A limit of one survives a clock that is never behind an earlier reading by more than the slack. */
  lemma SmallStepsRemember(w: Window, ts: seq<int>)
    requires w.limit <= 1 && forall j, k :: 0 <= j <= k < |ts| ==> ts[j] - ts[k] <= 1_000
    ensures !Forgets(w, ts, true)
  {
    forall i: nat, j: nat, k: nat | i <= j <= k < |ts| && Lost(w, ts, true, i, j)
      ensures !Near(w, ts[i], ts[k])
    {
      assert ts[j] - ts[k] <= EXPIRY_SLACK_MS;
    }
  }
}
