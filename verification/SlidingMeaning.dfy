/** One call of the sliding window, said of grant times alone: when it is granted, what it waits for, what it stores. */
module SlidingMeaning {
  import opened Common
  import opened SlidingWindow
  import opened SlidingRuns

  /** How many grants are later than a time. */
  function LaterThan(s: Grants, time: int): nat {
    if s == [] then 0 else (if s[0] > time then 1 else 0) + LaterThan(s[1..], time)
  }

  /** Grants a window ago or longer do not count; a key with a counted grant and no room beside it is full. */
  predicate Full(stored: Grants, w: Window, now: int) {
    var counted := LaterThan(stored, now - w.windowMs); counted > 0 && counted >= w.limit
  }

  /** The grant that leaves the window first of those that count. */
  ghost predicate Oldest(stored: Grants, w: Window, now: int, x: int) {
    x in stored && x > now - w.windowMs && forall y <- stored :: y > now - w.windowMs ==> x <= y
  }

  ghost predicate FullSince(store: Store, w: Window, now: int, x: int) {
    Full(Stored(store, w.key), w, now) && Oldest(Stored(store, w.key), w, now, x)
  }

  /** The stored grants after a call: those that still count, and the call once for every time it names the key. */
  ghost predicate Kept(before: Grants, after: Grants, w: Window, now: int, times: nat) {
    && Ascending(after)
    && forall x: int ::
         multiset(after)[x] ==
         (if x > now - w.windowMs then multiset(before)[x] else 0) + (if x == now then times else 0)
  }

  lemma {:induction false} LaterExactly(s: Grants, time: int)
    ensures LaterThan(s, time) == |After(s, time)|
  {
    if s != [] { LaterExactly(s[1..], time); }
  }

  lemma FullExactly(store: Store, w: Window, now: int)
    ensures Full(Stored(store, w.key), w, now) <==> Blocked(store, w, now)
  {
    hide After;
    LaterExactly(Stored(store, w.key), now - w.windowMs);
  }

  lemma {:induction false} AddTimesAscending(s: Grants, at: int, n: nat)
    requires Ascending(s)
    ensures Ascending(AddTimes(s, at, n))
  {
    if n > 0 {
      AddTimesAscending(s, at, n - 1);
      AddAscending(AddTimes(s, at, n - 1), at);
    }
  }

  /** The longest wait of a full key is until its oldest counted grant leaves the window. */
  lemma OldestWaits(store: Store, w: Window, now: int)
    requires Ascending(Stored(store, w.key)) && Blocked(store, w, now)
    ensures var x := KeyWait(store, w, now) - w.windowMs + now; Oldest(Stored(store, w.key), w, now, x)
  {
    hide After;
    var stored, bound := Stored(store, w.key), now - w.windowMs;
    AfterMembers(stored, bound);
    AfterAscending(stored, bound);
    var live := After(stored, bound);
    assert live[0] in live;
    forall y | y in stored && y > bound
      ensures live[0] <= y
    {
      assert y in live;
      var i :| 0 <= i < |live| && live[i] == y;
    }
  }

  ghost predicate AllAscending(store: Store, ws: seq<Window>) { forall w <- ws :: Ascending(Stored(store, w.key)) }

  /**
   * A call is granted exactly if no key it names is full. A refused call is told how long it takes
   * until the oldest counted grant of a full key leaves its window, the longest such time.
   */
  lemma AnswerMeans(store: Store, ws: seq<Window>, now: int)
    requires Consistent(ws) && AllAscending(store, ws)
    ensures var reply := Reserve(store, ws, now).1;
            && (reply.Granted? <==> forall w <- ws :: !Full(Stored(store, w.key), w, now))
            && (reply.Wait? ==>
                  && reply.ms > 0
                  && (exists w: Window, x: int ::
                        w in ws && FullSince(store, w, now, x) && x + w.windowMs == now + reply.ms)
                  && (forall w: Window, x: int ::
                        w in ws && FullSince(store, w, now, x) ==> x + w.windowMs <= now + reply.ms))
  {
    hide Trim, Record, KeyWait, MaxWait, Blocked, Full, Live, Oldest, Ascending;
    GrantedExactly(store, ws, now);
    MaxWaitBounds(store, ws, now);
    forall w | w in ws
      ensures Full(Stored(store, w.key), w, now) <==> Blocked(store, w, now)
      ensures Blocked(store, w, now) ==>
                Oldest(Stored(store, w.key), w, now, KeyWait(store, w, now) - w.windowMs + now)
      ensures KeyWait(store, w, now) > 0 <==> Blocked(store, w, now)
    {
      FullExactly(store, w, now);
      BlockedWaits(store, w, now);
      if Blocked(store, w, now) { OldestWaits(store, w, now); }
    }
    forall w: Window, x: int, y: int
      | Oldest(Stored(store, w.key), w, now, x) && Oldest(Stored(store, w.key), w, now, y)
      ensures x == y
    {
      OneOldest(Stored(store, w.key), w, now, x, y);
    }
    if Reserve(store, ws, now).1.Wait? {
      var w :| w in ws && KeyWait(store, w, now) == MaxWait(store, ws, now);
      assert FullSince(store, w, now, KeyWait(store, w, now) - w.windowMs + now);
    }
  }

  lemma OneOldest(stored: Grants, w: Window, now: int, x: int, y: int)
    requires Oldest(stored, w, now, x) && Oldest(stored, w, now, y)
    ensures x == y
  {
  }

  /** What a call leaves behind: trimmed sets, its grants on all named keys or none, expiries renewed by grants only. */
  lemma CallMeans(s: State, ws: seq<Window>, now: int)
    requires Consistent(ws) && AllAscending(s.store, ws) && AllAscending(s.log, ws)
    ensures var after := Step(s, Call(ws, now));
            var granted := forall w <- ws :: !Full(Stored(s.store, w.key), w, now);
            && (forall w <- ws ::
                  && Kept(Stored(s.store, w.key), Stored(after.store, w.key), w, now,
                          if granted then Times(ws, w.key) else 0)
                  && ExpiryOf(after, w.key) ==
                     (if granted then Some(now + w.windowMs + 1_000) else ExpiryOf(s, w.key))
                  && (forall x: int ::
                        multiset(Stored(after.log, w.key))[x] ==
                        multiset(Stored(s.log, w.key))[x] + (if granted && x == now then Times(ws, w.key) else 0)))
            && (forall key :: (forall w <- ws :: w.key != key) ==> Untouched(s, after, key))
  {
    hide Step, Blocked, Live, Full, AddTimes, Times, Untouched, Ascending, Kept;
    AllOrNone(s, ws, now);
    forall w | w in ws
      ensures Full(Stored(s.store, w.key), w, now) <==> Blocked(s.store, w, now)
      ensures Kept(Stored(s.store, w.key), Live(s.store, w, now), w, now, 0)
      ensures Kept(Stored(s.store, w.key), AddTimes(Live(s.store, w, now), now, Times(ws, w.key)), w, now,
                   Times(ws, w.key))
      ensures forall x: int :: multiset(AddTimes(Stored(s.log, w.key), now, Times(ws, w.key)))[x] ==
                               multiset(Stored(s.log, w.key))[x] + (if x == now then Times(ws, w.key) else 0)
    {
      FullExactly(s.store, w, now);
      KeptLive(s.store, w, now, 0);
      KeptLive(s.store, w, now, Times(ws, w.key));
      NoneAdded(Live(s.store, w, now), now);
      AddTimesMembers(Stored(s.log, w.key), now, Times(ws, w.key));
    }
    forall key | forall w <- ws :: w.key != key
      ensures Times(ws, key) == 0
    {
      TimesPositive(ws, key);
    }
  }

  lemma NoneAdded(s: Grants, now: int)
    ensures AddTimes(s, now, 0) == s
  {
  }

  lemma KeptLive(store: Store, w: Window, now: int, times: nat)
    requires Ascending(Stored(store, w.key))
    ensures Kept(Stored(store, w.key), AddTimes(Live(store, w, now), now, times), w, now, times)
  {
    hide After, AddTimes, Ascending;
    var stored, bound := Stored(store, w.key), now - w.windowMs;
    AfterMembers(stored, bound);
    AfterAscending(stored, bound);
    AddTimesMembers(After(stored, bound), now, times);
    AddTimesAscending(After(stored, bound), now, times);
  }
}
