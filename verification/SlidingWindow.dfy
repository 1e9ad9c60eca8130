/** The sliding-window reservation script: grants are recorded on every key of a call, or on none. */
module SlidingWindow {
  // Each key holds a sorted set of grant times. Scores are the callers' clock readings, and every
  // member a call adds has a name of its own.


  datatype Window = Window(key: string, limit: nat, windowMs: nat)

  /** A sorted set of grant times, oldest first. */
  type Grants = seq<int>

  type Store = map<string, Grants>

  datatype Reply = Granted | Wait(ms: nat)

  // ---------------------------------------------------------------------------------
  // The script as a function of the stored sets

  /** The set after removing every score up to the bound. */
  function After(s: Grants, bound: int): Grants {
    if s == [] then [] else (if s[0] > bound then [s[0]] else []) + After(s[1..], bound)
  }

  /** The set after adding a member: behind every score that is not later. */
  function Add(s: Grants, at: int): Grants {
    if s == [] then [at]
    else if s[|s| - 1] <= at then s + [at]
    else Add(s[..|s| - 1], at) + [s[|s| - 1]]
  }

  function Stored(store: Store, key: string): Grants {
    if key in store then store[key] else []
  }

  function Live(store: Store, w: Window, now: int): Grants {
    After(Stored(store, w.key), now - w.windowMs)
  }

  /** How long one key asks to wait: until its oldest counted grant leaves the window. */
  function KeyWait(store: Store, w: Window, now: int): int {
    var live := Live(store, w, now);
    if |live| >= w.limit && live != [] then live[0] + w.windowMs - now else 0
  }

  function Trim(store: Store, ws: seq<Window>, now: int): Store {
    if ws == [] then store
    else
      var earlier, w := Trim(store, ws[..|ws| - 1], now), ws[|ws| - 1];
      earlier[w.key := Live(earlier, w, now)]
  }

  /** The longest wait any key asks for, each looked at after the keys before it were trimmed. */
  function MaxWait(store: Store, ws: seq<Window>, now: int): nat {
    if ws == [] then 0
    else
      var init := ws[..|ws| - 1];
      var earlier, last := MaxWait(store, init, now), KeyWait(Trim(store, init, now), ws[|ws| - 1], now);
      if last > earlier then last else earlier
  }

  function Record(store: Store, ws: seq<Window>, now: int): Store {
    if ws == [] then store
    else
      var earlier, w := Record(store, ws[..|ws| - 1], now), ws[|ws| - 1];
      earlier[w.key := Add(Stored(earlier, w.key), now)]
  }

  /** One atomic run of the script. */
  function Reserve(store: Store, ws: seq<Window>, now: int): (Store, Reply) {
    var trimmed, wait := Trim(store, ws, now), MaxWait(store, ws, now);
    if wait > 0 then (trimmed, Wait(wait)) else (Record(trimmed, ws, now), Granted)
  }

  // ---------------------------------------------------------------------------------
  // Sorted sets

  ghost predicate Ascending(s: Grants) {
    forall i, j :: 0 <= i < j < |s| ==> s[i] <= s[j]
  }

  lemma {:induction false} AfterIdempotent(s: Grants, x: int, y: int)
    requires x <= y
    ensures After(After(s, x), y) == After(s, y)
  {
    if s != [] {
      AfterIdempotent(s[1..], x, y);
      var t := After(s[1..], x);
      assert ([s[0]] + t)[1..] == t;
      assert [] + t == t;
    }
  }

  /** Removing scores up to a bound keeps each later one as often as it was there. */
  lemma {:induction false} AfterMembers(s: Grants, bound: int)
    ensures |After(s, bound)| <= |s|
    ensures forall x :: multiset(After(s, bound))[x] == if x > bound then multiset(s)[x] else 0
    ensures forall x :: x in After(s, bound) <==> x > bound && x in s
  {
    if s != [] {
      AfterMembers(s[1..], bound);
      assert s == [s[0]] + s[1..];
    }
  }

  lemma {:induction false} AfterAll(s: Grants, bound: int)
    requires forall x <- s :: x > bound
    ensures After(s, bound) == s
  {
    if s != [] {
      assert forall x <- s[1..] :: x in s;
      assert s[0] in s;
      AfterAll(s[1..], bound);
    }
  }

  lemma {:induction false} AfterNone(s: Grants, bound: int)
    requires forall x <- s :: x <= bound
    ensures After(s, bound) == []
  {
    if s != [] {
      assert forall x <- s[1..] :: x in s;
      assert s[0] in s;
      AfterNone(s[1..], bound);
    }
  }

  /** On an ascending set, removing scores up to a bound cuts off a prefix. */
  lemma {:induction false} AfterIsSuffix(s: Grants, bound: int)
    requires Ascending(s)
    ensures |After(s, bound)| <= |s| && After(s, bound) == s[|s| - |After(s, bound)|..]
    ensures forall i :: 0 <= i < |s| - |After(s, bound)| ==> s[i] <= bound
  {
    if s != [] {
      if s[0] > bound {
        AfterAll(s, bound);
      } else {
        AfterIsSuffix(s[1..], bound);
        var t := After(s[1..], bound);
        assert [] + t == t;
        assert forall i :: 1 <= i < |s| - |t| ==> s[i] == s[1..][i - 1];
      }
    }
  }

  lemma AfterAscending(s: Grants, bound: int)
    requires Ascending(s)
    ensures Ascending(After(s, bound))
  {
    AfterIsSuffix(s, bound);
    var n := |s| - |After(s, bound)|;
    assert forall i :: 0 <= i < |After(s, bound)| ==> After(s, bound)[i] == s[n + i];
  }

  lemma {:induction false} AddMembers(s: Grants, at: int)
    ensures |Add(s, at)| == |s| + 1 && multiset(Add(s, at)) == multiset(s) + multiset{at}
  {
    if s != [] && s[|s| - 1] > at {
      AddMembers(s[..|s| - 1], at);
      assert s == s[..|s| - 1] + [s[|s| - 1]];
    }
  }

  lemma {:induction false} AddAscending(s: Grants, at: int)
    requires Ascending(s)
    ensures Ascending(Add(s, at))
  {
    if s != [] && s[|s| - 1] > at {
      var init := s[..|s| - 1];
      AddAscending(init, at);
      AddMembers(init, at);
      var front := Add(init, at);
      forall x | x in front
        ensures x <= s[|s| - 1]
      {
        assert x in multiset(front);
      }
      AppendAscending(front, s[|s| - 1]);
    } else {
      forall x | x in s
        ensures x <= at
      {
        var i :| 0 <= i < |s| && s[i] == x;
        assert s[i] <= s[|s| - 1];
      }
      AppendAscending(s, at);
    }
  }

  lemma AppendAscending(s: Grants, last: int)
    requires Ascending(s) && forall x <- s :: x <= last
    ensures Ascending(s + [last])
  {
    var all := s + [last];
    forall i, j | 0 <= i < j < |all|
      ensures all[i] <= all[j]
    {
      assert s[i] in s;
    }
  }

  /** The set after adding several members of one score. */
  function AddTimes(s: Grants, at: int, n: nat): Grants {
    if n == 0 then s else Add(AddTimes(s, at, n - 1), at)
  }

  lemma {:induction false} AddTimesMembers(s: Grants, at: int, n: nat)
    ensures |AddTimes(s, at, n)| == |s| + n
    ensures forall x :: multiset(AddTimes(s, at, n))[x] == multiset(s)[x] + (if x == at then n else 0)
  {
    if n > 0 {
      AddTimesMembers(s, at, n - 1);
      AddMembers(AddTimes(s, at, n - 1), at);
    }
  }

  lemma AddOnce(s: Grants, at: int)
    ensures AddTimes(s, at, 0) == s && AddTimes(s, at, 1) == Add(s, at)
  {
    assert AddTimes(s, at, 0) == s;
  }

  // ---------------------------------------------------------------------------------
  // What one run does, key by key

  /** One window per key: a key named again is named with the same window. */
  ghost predicate Consistent(ws: seq<Window>) {
    forall v, w :: v in ws && w in ws && v.key == w.key ==> v == w
  }

  ghost predicate DistinctKeys(ws: seq<Window>) {
    forall i, j :: 0 <= i < j < |ws| ==> ws[i].key != ws[j].key
  }

  /** How often a call names a key. */
  function Times(ws: seq<Window>, key: string): nat {
    if ws == [] then 0 else Times(ws[..|ws| - 1], key) + (if ws[|ws| - 1].key == key then 1 else 0)
  }

  lemma {:induction false} TimesPositive(ws: seq<Window>, key: string)
    ensures Times(ws, key) > 0 <==> exists w <- ws :: w.key == key
  {
    if ws != [] {
      TimesPositive(ws[..|ws| - 1], key);
      assert ws == ws[..|ws| - 1] + [ws[|ws| - 1]];
      assert ws[|ws| - 1] in ws;
    }
  }

  /** A key named at two positions is counted at least twice, and no other is. */
  lemma {:induction false} TimesRepeated(ws: seq<Window>, key: string)
    ensures Times(ws, key) >= 2 <==> exists i, j :: 0 <= i < j < |ws| && ws[i].key == key && ws[j].key == key
  {
    if ws != [] {
      var init, n := ws[..|ws| - 1], |ws| - 1;
      TimesRepeated(init, key);
      TimesPositive(init, key);
      if Times(init, key) >= 2 {
        var i, j :| 0 <= i < j < |init| && init[i].key == key && init[j].key == key;
        assert ws[i].key == key && ws[j].key == key;
      } else if ws[n].key == key && Times(init, key) > 0 {
        var w :| w in init && w.key == key;
        var i :| 0 <= i < n && init[i] == w;
        assert ws[i].key == key && ws[n].key == key;
      }
      forall i, j | 0 <= i < j < |ws| && ws[i].key == key && ws[j].key == key
        ensures Times(ws, key) >= 2
      {
        assert init[i].key == key && init[i] in init;
        if j < n { assert init[j].key == key; }
      }
    }
  }

  lemma DistinctOnce(ws: seq<Window>)
    ensures DistinctKeys(ws) <==> forall key :: Times(ws, key) <= 1
  {
    hide Times;
    if !DistinctKeys(ws) {
      var i, j :| 0 <= i < j < |ws| && ws[i].key == ws[j].key;
      TimesRepeated(ws, ws[i].key);
      assert Times(ws, ws[i].key) >= 2;
    } else {
      forall key
        ensures Times(ws, key) <= 1
      {
        TimesRepeated(ws, key);
      }
    }
  }

  lemma ConsistentPrefix(init: seq<Window>, last: Window)
    requires Consistent(init + [last])
    ensures Consistent(init) && forall w <- init :: w.key == last.key ==> w == last
  {
    assert last in init + [last] && forall w <- init :: w in init + [last];
  }

  /** Trimming one more key, whether or not it was trimmed before. */
  lemma TrimOne(store: Store, trimmed: Store, w: Window, now: int)
    requires Stored(trimmed, w.key) == Stored(store, w.key) || Stored(trimmed, w.key) == Live(store, w, now)
    ensures Live(trimmed, w, now) == Live(store, w, now)
  {
    hide After;
    AfterIdempotent(Stored(store, w.key), now - w.windowMs, now - w.windowMs);
  }

  lemma {:induction false} TrimEach(store: Store, ws: seq<Window>, now: int)
    requires Consistent(ws)
    ensures forall w <- ws :: Stored(Trim(store, ws, now), w.key) == Live(store, w, now)
    ensures forall key :: Times(ws, key) == 0 ==> Stored(Trim(store, ws, now), key) == Stored(store, key)
  {
    hide Live, Consistent;
    if ws != [] {
      var init, last := ws[..|ws| - 1], ws[|ws| - 1];
      assert ws == init + [last];
      ConsistentPrefix(init, last);
      TrimEach(store, init, now);
      TimesPositive(init, last.key);
      TrimOne(store, Trim(store, init, now), last, now);
    }
  }

  lemma {:induction false} RecordEach(store: Store, ws: seq<Window>, now: int)
    ensures forall key :: Stored(Record(store, ws, now), key) == AddTimes(Stored(store, key), now, Times(ws, key))
  {
    hide Add;
    if ws != [] {
      RecordEach(store, ws[..|ws| - 1], now);
    }
  }

  /** What holds a key up: a counted grant, and no room beside the counted ones. */
  predicate Blocked(store: Store, w: Window, now: int) {
    Live(store, w, now) != [] && |Live(store, w, now)| >= w.limit
  }

  lemma BlockedWaits(store: Store, w: Window, now: int)
    ensures KeyWait(store, w, now) > 0 <==> Blocked(store, w, now)
    ensures Blocked(store, w, now) ==> KeyWait(store, w, now) == Live(store, w, now)[0] + w.windowMs - now
  {
    hide After;
    AfterMembers(Stored(store, w.key), now - w.windowMs);
    if Live(store, w, now) != [] {
      assert Live(store, w, now)[0] in Live(store, w, now);
    }
  }

  lemma TrimmedWait(store: Store, init: seq<Window>, last: Window, now: int)
    requires Consistent(init + [last])
    ensures KeyWait(Trim(store, init, now), last, now) == KeyWait(store, last, now)
  {
    hide Live, Trim;
    ConsistentPrefix(init, last);
    TrimEach(store, init, now);
    TimesPositive(init, last.key);
    TrimOne(store, Trim(store, init, now), last, now);
  }

  lemma {:induction false} MaxWaitBounds(store: Store, ws: seq<Window>, now: int)
    requires Consistent(ws)
    ensures forall w <- ws :: KeyWait(store, w, now) <= MaxWait(store, ws, now)
    ensures MaxWait(store, ws, now) > 0 ==> exists w <- ws :: KeyWait(store, w, now) == MaxWait(store, ws, now)
  {
    hide Trim, KeyWait;
    if ws != [] {
      var init, last := ws[..|ws| - 1], ws[|ws| - 1];
      assert ws == init + [last];
      ConsistentPrefix(init, last);
      MaxWaitBounds(store, init, now);
      TrimmedWait(store, init, last, now);
      assert last in ws && forall w <- init :: w in ws;
    }
  }

  /**
   * A call is granted exactly when none of its keys is blocked. A limit of zero blocks only a key
   * that has a counted grant, so an unused key is always granted.
   */
  lemma GrantedExactly(store: Store, ws: seq<Window>, now: int)
    requires Consistent(ws)
    ensures Reserve(store, ws, now).1.Granted? <==> forall w <- ws :: !Blocked(store, w, now)
  {
    hide Trim, Record, KeyWait, MaxWait, Blocked;
    MaxWaitBounds(store, ws, now);
    forall w | w in ws
      ensures KeyWait(store, w, now) > 0 <==> Blocked(store, w, now)
    {
      BlockedWaits(store, w, now);
    }
  }

  // ---------------------------------------------------------------------------------
  // Waiting

  /** A refused call succeeds after the wait it was told, and not before, if nothing happens meanwhile. */
  lemma WaitIsExact(store: Store, ws: seq<Window>, now: int, later: int)
    requires Consistent(ws) && forall w <- ws :: Holds(store, w)
    requires Reserve(store, ws, now).1.Wait? && later >= now
    ensures Reserve(Reserve(store, ws, now).0, ws, later).1.Granted? <==> later >= now + Reserve(store, ws, now).1.ms
  {
    hide Trim, Record, KeyWait, MaxWait, Blocked, Holds, Consistent;
    var trimmed := Trim(store, ws, now);
    GrantedExactly(trimmed, ws, later);
    MaxWaitBounds(store, ws, now);
    forall w | w in ws
      ensures Blocked(trimmed, w, later) <==> KeyWait(store, w, now) > later - now
    {
      BlockedLater(store, ws, w, now, later);
    }
  }

  /** What the script never exceeds: a limit of zero is served like a limit of one. */
  function Cap(w: Window): nat { if w.limit == 0 then 1 else w.limit }

  /** A key's set is sorted and no larger than its cap. */
  ghost predicate Holds(store: Store, w: Window) {
    Ascending(Stored(store, w.key)) && |Stored(store, w.key)| <= Cap(w)
  }

  /** A blocked key stays blocked until its oldest counted grant leaves the window, and no longer. */
  lemma BlockedLater(store: Store, ws: seq<Window>, w: Window, now: int, later: int)
    requires Consistent(ws) && w in ws && Holds(store, w) && now <= later
    ensures Blocked(Trim(store, ws, now), w, later) <==> KeyWait(store, w, now) > later - now
  {
    hide Trim, After, KeyWait;
    TrimEach(store, ws, now);
    BlockedWaits(store, w, now);
    var stored := Stored(store, w.key);
    AfterMembers(stored, now - w.windowMs);
    AfterAscending(stored, now - w.windowMs);
    StillFull(After(stored, now - w.windowMs), Cap(w), later - w.windowMs);
    AfterIdempotent(stored, now - w.windowMs, later - w.windowMs);
  }

  /** A sorted set of at most cap members loses its fullness with its first member. */
  lemma StillFull(s: Grants, cap: nat, bound: int)
    requires Ascending(s) && |s| <= cap && cap > 0
    ensures |After(s, bound)| >= cap <==> |s| == cap && s[0] > bound
  {
    hide After;
    AfterMembers(s, bound);
    if s != [] && s[0] > bound {
      assert forall x <- s :: x > bound;
      AfterAll(s, bound);
    } else if s != [] {
      assert s[0] in s && s[0] !in After(s, bound);
      assert |After(s, bound)| == |s| ==> After(s, bound) == s by { AfterIsSuffix(s, bound); }
    }
  }

  /** The windows of a call with every limit of zero replaced by one. */
  function AtLeastOne(ws: seq<Window>): seq<Window> {
    seq(|ws|, i requires 0 <= i < |ws| => ws[i].(limit := Cap(ws[i])))
  }

  /** The script cannot tell a limit of zero from a limit of one. */
  lemma ZeroServedAsOne(store: Store, ws: seq<Window>, now: int)
    ensures Reserve(store, AtLeastOne(ws), now) == Reserve(store, ws, now)
  {
    hide Trim, MaxWait, Record;
    ZeroSteps(store, ws, now);
    ZeroRecords(Trim(store, ws, now), ws, now);
  }

  lemma {:induction false} ZeroSteps(store: Store, ws: seq<Window>, now: int)
    ensures Trim(store, AtLeastOne(ws), now) == Trim(store, ws, now)
    ensures MaxWait(store, AtLeastOne(ws), now) == MaxWait(store, ws, now)
  {
    hide KeyWait, Live;
    if ws != [] {
      var init, w := ws[..|ws| - 1], ws[|ws| - 1];
      ZeroSteps(store, init, now);
      assert AtLeastOne(ws)[..|ws| - 1] == AtLeastOne(init);
      ZeroWait(Trim(store, init, now), w, now);
    }
  }

  lemma ZeroWait(store: Store, w: Window, now: int)
    ensures KeyWait(store, w.(limit := Cap(w)), now) == KeyWait(store, w, now)
    ensures Live(store, w.(limit := Cap(w)), now) == Live(store, w, now)
  {
  }

  lemma {:induction false} ZeroRecords(store: Store, ws: seq<Window>, now: int)
    ensures Record(store, AtLeastOne(ws), now) == Record(store, ws, now)
  {
    hide Add;
    if ws != [] {
      var init := ws[..|ws| - 1];
      ZeroRecords(store, init, now);
      assert AtLeastOne(ws)[..|ws| - 1] == AtLeastOne(init);
    }
  }

  // ---------------------------------------------------------------------------------
  // The script as a loop over its keys

  class RateLimiter {
    var store: Store

    /** Trims every key and finds the longest wait. */
    method TrimAll(ws: seq<Window>, now: int) returns (wait: nat)
      modifies this
      ensures store == Trim(old(store), ws, now) && wait == MaxWait(old(store), ws, now)
    {
      hide After;
      wait := 0;
      for i := 0 to |ws|
        invariant store == Trim(old(store), ws[..i], now) && wait == MaxWait(old(store), ws[..i], now)
      {
        assert ws[..i + 1][..i] == ws[..i];
        var w := ws[i];
        var live := After(Stored(store, w.key), now - w.windowMs);
        store := store[w.key := live];
        if |live| >= w.limit && live != [] && live[0] + w.windowMs - now > wait {
          wait := live[0] + w.windowMs - now;
        }
      }
      assert ws[..|ws|] == ws;
    }

    /** Trims every key and finds the longest wait, then records the reservation on every key or none. */
    method ReserveSliding(ws: seq<Window>, now: int) returns (r: Reply)
      modifies this
      ensures (store, r) == Reserve(old(store), ws, now)
    {
      hide Trim, MaxWait, Add;
      var wait := TrimAll(ws, now);
      if wait > 0 {
        return Wait(wait);
      }
      ghost var trimmed := store;
      for i := 0 to |ws|
        invariant store == Record(trimmed, ws[..i], now)
      {
        assert ws[..i + 1][..i] == ws[..i];
        store := store[ws[i].key := Add(Stored(store, ws[i].key), now)];
      }
      assert ws[..|ws|] == ws;
      return Granted;
    }
  }
}
