/**
 * The matcher of the backend, which builds and searches its index without looking for thresholds
 * that are not finite. On finite thresholds it answers what the engine's index answers.
 */
module AlertMatcher {
  import opened Ordering
  import opened ThresholdIndex

  predicate Finite(alerts: seq<Alert>) {
    forall a <- alerts :: a.threshold.Finite? && a.condition in {"above", "below"}
  }

  method Build(alerts: seq<Alert>) returns (metrics: TokenIndex)
    requires Finite(alerts)
    ensures Indexes(metrics, alerts)
  {
    hide Grouped, Indexes, Group, At;
    metrics := map[];
    EmptyIndex();
    for i := 0 to |alerts|
      invariant Grouped(metrics, alerts[..i])
    {
      assert alerts[..i + 1] == alerts[..i] + [alerts[i]] && alerts[i] in alerts;
      var next := Push(metrics, alerts[i]);
      GroupedStep(metrics, next, alerts[..i], alerts[i]);
      metrics := next;
    }
    assert alerts[..|alerts|] == alerts;
    metrics := SortAll(metrics, alerts);
  }

  method Partition(alerts: seq<Alert>, matches: Alert -> bool) returns (low: nat)
    ensures low <= |alerts|
    ensures forall n: nat :: Cut(alerts, matches, n) ==> low == n
  {
    low := 0;
    var high := |alerts|;
    while low < high
      invariant low <= high <= |alerts|
      invariant forall n: nat :: Cut(alerts, matches, n) ==> low <= n <= high
    {
      var middle := (low + high) / 2;
      if matches(alerts[middle]) {
        low := middle + 1;
      } else {
        high := middle;
      }
    }
  }

  /** The answer the engine's index gives for the same alerts. */
  method Match(metrics: TokenIndex, tick: Tick, ghost alerts: seq<Alert>) returns (matches: seq<Alert>)
    requires Indexes(metrics, alerts)
    ensures multiset(matches) == multiset(Filter(alerts, Hit(tick)))
    ensures Fired(matches, alerts, tick)
  {
    hide Sort, Filter, Reached, Group, Usable, Cut, AtMost, AtLeast, Fired;
    matches := [];
    var kinds := metrics.Keys;
    while kinds != {}
      invariant kinds <= metrics.Keys
      invariant forall a ::
                  multiset(matches)[a] ==
                  if a.kind in metrics.Keys - kinds && Hit(tick)(a) then multiset(alerts)[a] else 0
      decreases |kinds|
    {
      var kind :| kind in kinds;
      kinds := kinds - {kind};
      var value := Usable(kind, tick);
      if value.Some? {
        var thresholds := metrics[kind];
        assert At(metrics, kind) == thresholds;
        GroupCut(alerts, kind, value.value);
        var above := Partition(thresholds.above, AtMost(value.value));
        var below := Partition(thresholds.below, AtLeast(value.value));
        KindCounts(alerts, kind, value.value, above, below);
        var more := thresholds.above[..above] + thresholds.below[..below];
        assert forall a :: multiset(matches + more)[a] == multiset(matches)[a] + multiset(more)[a];
        matches := matches + more;
      }
    }
    Unindexed(metrics, tick, alerts);
    FilterCounts(alerts, Hit(tick));
    assert forall a :: multiset(matches)[a] == multiset(Filter(alerts, Hit(tick)))[a];
    FiredExactly(matches, alerts, tick);
  }

  /** Both programs, each with its own index of the same alerts, trigger the same ones. */
  method MatchBoth(alerts: seq<Alert>, tick: Tick) returns (backend: seq<Alert>, engine: seq<Alert>)
    requires Finite(alerts)
    ensures multiset(backend) == multiset(engine)
  {
    var metrics := Build(alerts);
    backend := Match(metrics, tick, alerts);
    var index := ThresholdIndex.Build(alerts);
    engine := Candidates(index, tick, alerts);
  }
}
