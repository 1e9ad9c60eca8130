/**
 * The in-memory alert index: per token and metric, thresholds in sorted order and a binary search
 * in place of a scan over all alerts, on one shard of the tokens.
 */
module ThresholdIndex {
  import opened Common
  import opened Ordering

  /** A floating-point number; NaN and the infinities are one case. */
  datatype Number = Finite(value: real) | NonFinite

  datatype Alert = Alert(id: string, token: string, kind: string, condition: string, threshold: Number, generation: nat)

  datatype Quality = Quality(confidence: Number, stale: bool)

  datatype Tick = Tick(token: string, values: map<string, Number>, quality: map<string, Quality>)

  datatype Thresholds = Thresholds(above: seq<Alert>, below: seq<Alert>)

  type TokenIndex = map<string, Thresholds>

  // ---------------------------------------------------------------------------------
  // Which alerts a tick triggers

  function QualityKey(kind: string): string {
    if kind in {"price", "market_cap", "liquidity"} then kind else "rolling"
  }

  predicate Eligible(value: Number, quality: Quality) {
    value.Finite? && quality.confidence.Finite? && 0.0 <= quality.confidence.value <= 1.0 && !quality.stale
  }

  /** The value a tick offers for alerts of one kind, if it may be used. */
  function Usable(kind: string, tick: Tick): Option<real> {
    if kind in tick.values && QualityKey(kind) in tick.quality
       && Eligible(tick.values[kind], tick.quality[QualityKey(kind)])
    then Some(tick.values[kind].value)
    else None
  }

  predicate Reached(a: Alert, value: real) {
    a.threshold.Finite? && ((a.condition == "above" && value >= a.threshold.value)
                            || (a.condition == "below" && value <= a.threshold.value))
  }

  /** The linear matcher: one alert against one tick. */
  function Hit(tick: Tick): Alert -> bool {
    (a: Alert) => var value := Usable(a.kind, tick); value.Some? && Reached(a, value.value)
  }

  /**
   * An alert fires on a tick that offers its metric, fresh and with a confidence between zero and
   * one, at or beyond its threshold. Rolling metrics share one quality.
   */
  ghost predicate Fires(a: Alert, tick: Tick) {
    var source := if a.kind == "price" || a.kind == "market_cap" || a.kind == "liquidity" then a.kind else "rolling";
    && a.threshold.Finite?
    && a.kind in tick.values && tick.values[a.kind].Finite?
    && source in tick.quality && !tick.quality[source].stale
    && tick.quality[source].confidence.Finite? && 0.0 <= tick.quality[source].confidence.value <= 1.0
    && var value := tick.values[a.kind].value;
       || (a.condition == "above" && a.threshold.value <= value)
       || (a.condition == "below" && a.threshold.value >= value)
  }

  lemma FiresExactly(tick: Tick)
    ensures forall a :: Hit(tick)(a) <==> Fires(a, tick)
  {
  }

  /** Each alert that fires, as often as it is there, and no other. */
  ghost predicate Fired(matched: seq<Alert>, alerts: seq<Alert>, tick: Tick) {
    forall a :: multiset(matched)[a] == if Fires(a, tick) then multiset(alerts)[a] else 0
  }

  lemma FiredExactly(matched: seq<Alert>, alerts: seq<Alert>, tick: Tick)
    requires multiset(matched) == multiset(Filter(alerts, Hit(tick)))
    ensures Fired(matched, alerts, tick)
  {
    hide Filter, Hit, Fires;
    FiresExactly(tick);
    FilterCounts(alerts, Hit(tick));
  }

  // ---------------------------------------------------------------------------------
  // Binary search

  /** True on a prefix of s and false after it. */
  ghost predicate Cut<T>(s: seq<T>, matches: T -> bool, n: nat) {
    n <= |s| && forall i :: 0 <= i < |s| ==> (matches(s[i]) <==> i < n)
  }

  /** The number of binary digits. */
  function Bits(n: nat): nat { if n == 0 then 0 else 1 + Bits(n / 2) }

  function Pow2(n: nat): nat { if n == 0 then 1 else 2 * Pow2(n - 1) }

  /** Bits(n) is the floor of the binary logarithm of n, plus one. */
  lemma {:induction false} BitsIsLog(n: nat)
    requires n > 0
    ensures Bits(n) > 0 && Pow2(Bits(n) - 1) <= n < Pow2(Bits(n))
  {
    if n > 1 {
      BitsIsLog(n / 2);
    }
  }

  lemma {:induction false} BitsMonotone(m: nat, n: nat)
    requires m <= n
    ensures Bits(m) <= Bits(n)
  {
    if m > 0 {
      BitsMonotone(m / 2, n / 2);
    }
  }

  /** Finds the cut, if there is one, in at most floor(log2 n) + 1 comparisons. */
  method PartitionIndex<T>(values: seq<T>, matches: T -> bool) returns (low: nat, comparisons: nat)
    ensures low <= |values|
    ensures forall n: nat :: Cut(values, matches, n) ==> low == n
    ensures comparisons <= Bits(|values|)
  {
    low := 0;
    var high := |values|;
    comparisons := 0;
    while low < high
      invariant low <= high <= |values|
      invariant forall n: nat :: Cut(values, matches, n) ==> low <= n <= high
      invariant comparisons + Bits(high - low) <= Bits(|values|)
    {
      var middle := low + (high - low) / 2;
      BitsMonotone(high - middle - 1, (high - low) / 2);
      comparisons := comparisons + 1;
      if matches(values[middle]) {
        low := middle + 1;
      } else {
        high := middle;
      }
    }
  }

  // ---------------------------------------------------------------------------------
  // Building

  function Group(kind: string, condition: string): Alert -> bool {
    (a: Alert) => a.threshold.Finite? && a.kind == kind && a.condition == condition
  }

  /** Only alerts with finite thresholds are ever compared. */
  function Level(a: Alert): real { if a.threshold.Finite? then a.threshold.value else 0.0 }

  predicate AboveLess(a: Alert, b: Alert) { Level(a) < Level(b) }

  predicate BelowLess(a: Alert, b: Alert) { Level(a) > Level(b) }

  function At(index: TokenIndex, kind: string): Thresholds {
    if kind in index then index[kind] else Thresholds([], [])
  }

  /** The index holds, by kind and condition, the finite alerts in the order they came. */
  ghost predicate Grouped(index: TokenIndex, alerts: seq<Alert>) {
    forall kind ::
      At(index, kind) == Thresholds(Filter(alerts, Group(kind, "above")), Filter(alerts, Group(kind, "below")))
  }

  /** The index holds the same alerts, in threshold order. */
  ghost predicate Indexes(index: TokenIndex, alerts: seq<Alert>) {
    forall kind ::
      At(index, kind) == Thresholds(Sort(AboveLess, Filter(alerts, Group(kind, "above"))),
                                    Sort(BelowLess, Filter(alerts, Group(kind, "below"))))
  }

  method Push(index: TokenIndex, alert: Alert) returns (r: TokenIndex)
    requires alert.threshold.Finite?
    ensures forall kind :: At(r, kind) ==
                           Thresholds(At(index, kind).above + (if Group(kind, "above")(alert) then [alert] else []),
                                      At(index, kind).below + (if Group(kind, "below")(alert) then [alert] else []))
  {
    var thresholds := At(index, alert.kind);
    if alert.condition == "above" {
      thresholds := thresholds.(above := thresholds.above + [alert]);
    } else if alert.condition == "below" {
      thresholds := thresholds.(below := thresholds.below + [alert]);
    }
    return index[alert.kind := thresholds];
  }

  lemma GroupedStep(index: TokenIndex, next: TokenIndex, alerts: seq<Alert>, alert: Alert)
    requires Grouped(index, alerts)
    requires forall kind :: At(next, kind) ==
                            Thresholds(At(index, kind).above + (if Group(kind, "above")(alert) then [alert] else []),
                                       At(index, kind).below + (if Group(kind, "below")(alert) then [alert] else []))
    ensures Grouped(next, alerts + [alert])
  {
    hide Filter, Group, At;
    forall kind
      ensures At(next, kind) ==
                Thresholds(Filter(alerts + [alert], Group(kind, "above")),
                           Filter(alerts + [alert], Group(kind, "below")))
    {
      FilterAppend(alerts, alert, Group(kind, "above"));
      FilterAppend(alerts, alert, Group(kind, "below"));
    }
  }

  /** The index of one token's alerts. Alerts without a finite threshold are dropped. */
  method Build(alerts: seq<Alert>) returns (index: TokenIndex)
    ensures Indexes(index, alerts)
  {
    hide Grouped, Indexes, Group, At;
    index := map[];
    EmptyIndex();
    for i := 0 to |alerts|
      invariant Grouped(index, alerts[..i])
    {
      assert alerts[..i + 1] == alerts[..i] + [alerts[i]];
      if alerts[i].threshold.Finite? {
        var next := Push(index, alerts[i]);
        GroupedStep(index, next, alerts[..i], alerts[i]);
        index := next;
      } else {
        GroupedSkip(index, alerts[..i], alerts[i]);
      }
    }
    assert alerts[..|alerts|] == alerts;
    index := SortAll(index, alerts);
  }

  lemma EmptyIndex()
    ensures Grouped(map[], [])
  {
  }

  lemma GroupedSkip(index: TokenIndex, alerts: seq<Alert>, alert: Alert)
    requires Grouped(index, alerts) && !alert.threshold.Finite?
    ensures Grouped(index, alerts + [alert])
  {
    GroupedStep(index, index, alerts, alert);
  }

  method SortAll(index: TokenIndex, ghost alerts: seq<Alert>) returns (sorted: TokenIndex)
    requires Grouped(index, alerts)
    ensures Indexes(sorted, alerts)
  {
    sorted := map kind | kind in index ::
      Thresholds(Sort(AboveLess, index[kind].above), Sort(BelowLess, index[kind].below));
    forall kind
      ensures At(sorted, kind) ==
              Thresholds(Sort(AboveLess, At(index, kind).above), Sort(BelowLess, At(index, kind).below))
    {
    }
  }

  // ---------------------------------------------------------------------------------
  // Matching

  lemma {:induction false} CutCounts<T>(s: seq<T>, p: T -> bool, n: nat)
    requires Cut(s, p, n)
    ensures forall x :: multiset(s[..n])[x] == if p(x) then multiset(s)[x] else 0
  {
    assert s == s[..n] + s[n..];
    forall x
      ensures multiset(s[..n])[x] == if p(x) then multiset(s)[x] else 0
    {
      assert multiset(s)[x] == multiset(s[..n])[x] + multiset(s[n..])[x];
      if p(x) { assert x !in s[n..]; } else { assert x !in s[..n]; }
    }
  }

  /** The sorted group is cut by the comparison with a value, and the part before the cut is what the value reaches. */
  lemma GroupCut(alerts: seq<Alert>, kind: string, value: real)
    ensures exists n: nat :: Cut(Sort(AboveLess, Filter(alerts, Group(kind, "above"))), AtMost(value), n)
    ensures exists n: nat :: Cut(Sort(BelowLess, Filter(alerts, Group(kind, "below"))), AtLeast(value), n)
  {
    hide Sort, Filter;
    SortSorted(AboveLess, Filter(alerts, Group(kind, "above")));
    SortSorted(BelowLess, Filter(alerts, Group(kind, "below")));
    SortedIsCut(AboveLess, Sort(AboveLess, Filter(alerts, Group(kind, "above"))), AtMost(value));
    SortedIsCut(BelowLess, Sort(BelowLess, Filter(alerts, Group(kind, "below"))), AtLeast(value));
  }

  function AtMost(value: real): Alert -> bool { (a: Alert) => Level(a) <= value }

  function AtLeast(value: real): Alert -> bool { (a: Alert) => Level(a) >= value }

  /** A comparison that never turns true again along the order cuts a sorted list. */
  lemma {:induction false} SortedIsCut(less: (Alert, Alert) -> bool, s: seq<Alert>, p: Alert -> bool)
    requires Sorted(less, s) && forall a, b :: p(b) && !less(b, a) ==> p(a)
    ensures exists n: nat :: Cut(s, p, n)
  {
    if s == [] {
      assert Cut(s, p, 0);
    } else {
      var front := s[..|s| - 1];
      SortedIsCut(less, front, p);
      var n: nat :| Cut(front, p, n);
      assert forall i :: 0 <= i < |front| ==> front[i] == s[i];
      if p(s[|s| - 1]) {
        assert forall i :: 0 <= i < |s| ==> p(s[i]);
        assert Cut(s, p, |s|);
      } else {
        assert Cut(s, p, n);
      }
    }
  }

  /** The alerts of one kind that a value reaches. */
  lemma KindCounts(alerts: seq<Alert>, kind: string, value: real, above: nat, below: nat)
    requires Cut(Sort(AboveLess, Filter(alerts, Group(kind, "above"))), AtMost(value), above)
    requires Cut(Sort(BelowLess, Filter(alerts, Group(kind, "below"))), AtLeast(value), below)
    ensures forall a :: multiset(Sort(AboveLess, Filter(alerts, Group(kind, "above")))[..above]
                                 + Sort(BelowLess, Filter(alerts, Group(kind, "below")))[..below])[a]
                        == if a.kind == kind && Reached(a, value) then multiset(alerts)[a] else 0
  {
    hide Sort, Filter, Cut;
    CutCounts(Sort(AboveLess, Filter(alerts, Group(kind, "above"))), AtMost(value), above);
    CutCounts(Sort(BelowLess, Filter(alerts, Group(kind, "below"))), AtLeast(value), below);
    FilterCounts(alerts, Group(kind, "above"));
    FilterCounts(alerts, Group(kind, "below"));
  }

  /** Searching one group of the index. */
  method MatchKind(thresholds: Thresholds, kind: string, value: real, ghost alerts: seq<Alert>)
    returns (matched: seq<Alert>)
    requires thresholds ==
               Thresholds(Sort(AboveLess, Filter(alerts, Group(kind, "above"))),
                          Sort(BelowLess, Filter(alerts, Group(kind, "below"))))
    ensures forall a :: multiset(matched)[a] == if a.kind == kind && Reached(a, value) then multiset(alerts)[a] else 0
  {
    hide Sort, Filter, Cut, AtMost, AtLeast, Reached, Group;
    GroupCut(alerts, kind, value);
    var above, _ := PartitionIndex(thresholds.above, AtMost(value));
    var below, _ := PartitionIndex(thresholds.below, AtLeast(value));
    KindCounts(alerts, kind, value, above, below);
    return thresholds.above[..above] + thresholds.below[..below];
  }

  /** The indexed answer holds each alert as often as the linear one. The kinds are visited in any order. */
  method Candidates(index: TokenIndex, tick: Tick, ghost alerts: seq<Alert>) returns (matched: seq<Alert>)
    requires Indexes(index, alerts)
    ensures multiset(matched) == multiset(Filter(alerts, Hit(tick)))
    ensures Fired(matched, alerts, tick)
  {
    hide Sort, Filter, Reached, Group, Usable, Fired;
    matched := [];
    var kinds := index.Keys;
    while kinds != {}
      invariant kinds <= index.Keys
      invariant forall a ::
                  multiset(matched)[a] ==
                  if a.kind in index.Keys - kinds && Hit(tick)(a) then multiset(alerts)[a] else 0
      decreases |kinds|
    {
      var kind :| kind in kinds;
      kinds := kinds - {kind};
      var value := Usable(kind, tick);
      if value.Some? {
        assert At(index, kind) == index[kind];
        var more := MatchKind(index[kind], kind, value.value, alerts);
        assert forall a :: multiset(matched + more)[a] == multiset(matched)[a] + multiset(more)[a];
        matched := matched + more;
      }
    }
    Unindexed(index, tick, alerts);
    FilterCounts(alerts, Hit(tick));
    assert forall a :: multiset(matched)[a] == multiset(Filter(alerts, Hit(tick)))[a];
    FiredExactly(matched, alerts, tick);
  }

  /** No alert of a kind the index lacks is reached. */
  lemma Unindexed(index: TokenIndex, tick: Tick, alerts: seq<Alert>)
    requires Indexes(index, alerts)
    ensures forall a: Alert :: a.kind !in index && Hit(tick)(a) ==> multiset(alerts)[a] == 0
  {
    hide Sort, Filter;
    forall a: Alert | a.kind !in index && Hit(tick)(a)
      ensures multiset(alerts)[a] == 0
    {
      FilterCounts(alerts, Group(a.kind, "above"));
      FilterCounts(alerts, Group(a.kind, "below"));
      assert At(index, a.kind) == Thresholds([], []);
    }
  }
}
