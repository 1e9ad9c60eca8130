/** The loop that builds the tape over ordered maps, proved to compute the tape function. */
module FxBuild {
  import opened Common
  import opened Ordering
  import opened FxTape

  lemma {:induction false} TimePrefixFails(os: seq<Observation>, n: nat)
    requires n <= |os| && TimeAll(os[..n]).None?
    ensures TimeAll(os).None?
    decreases |os|
  {
    if n < |os| {
      assert os[..|os| - 1][..n] == os[..n];
      TimePrefixFails(os[..|os| - 1], n);
    } else {
      assert os[..n] == os;
    }
  }

  lemma {:induction false} PointPrefixFails(timed: seq<Timed>, buckets: seq<int>, n: nat)
    requires n <= |buckets| && BuildPoints(timed, buckets[..n]).None?
    ensures BuildPoints(timed, buckets).None?
    decreases |buckets|
  {
    hide BucketPoint;
    if n < |buckets| {
      assert buckets[..|buckets| - 1][..n] == buckets[..n];
      PointPrefixFails(timed, buckets[..|buckets| - 1], n);
    } else {
      assert buckets[..n] == buckets;
    }
  }

  lemma {:induction false} PoolPrefixFails(items: seq<Timed>, addresses: seq<string>, n: nat)
    requires n <= |addresses| && BuildPools(items, addresses[..n]).None?
    ensures BuildPools(items, addresses).None?
    decreases |addresses|
  {
    hide BuildPool;
    if n < |addresses| {
      assert addresses[..|addresses| - 1][..n] == addresses[..n];
      PoolPrefixFails(items, addresses[..|addresses| - 1], n);
    } else {
      assert addresses[..n] == addresses;
    }
  }

  /** A running total that stops at the first overflow agrees with checking the whole sum. */
  method SumChecked(values: seq<nat>) returns (r: Option<nat>)
    ensures r == CheckedSum(values)
  {
    var total := 0;
    for i := 0 to |values|
      invariant total == Sum(values[..i]) < U128_LIMIT
    {
      assert values[..i + 1][..i] == values[..i];
      if total + values[i] >= U128_LIMIT {
        SumPrefix(values, i + 1);
        return None;
      }
      total := total + values[i];
    }
    assert values[..|values|] == values;
    return Some(total);
  }

  lemma {:induction false} SumPrefix(values: seq<nat>, n: nat)
    requires n <= |values|
    ensures Sum(values[..n]) <= Sum(values)
    decreases |values|
  {
    if n < |values| {
      assert values[..|values| - 1][..n] == values[..n];
      SumPrefix(values[..|values| - 1], n);
    } else {
      assert values[..n] == values;
    }
  }

  method PoolOf(items: seq<Timed>) returns (r: Step<BuiltPool>)
    ensures r == BuildPool(items)
  {
    hide Median, Filter, Sum, MicroUsd, TimestampFits;
    var center := Median(Prices(items));
    if center.None? {
      return Fail;
    }
    var accepted := Filter(items, NearCenter(center.value));
    if accepted == [] {
      return Skip;
    }
    var first, last := accepted[0], accepted[|accepted| - 1];
    var sol := SumChecked(Sols(accepted));
    if sol.None? {
      return Fail;
    }
    var stable := SumChecked(Stables(accepted));
    if stable.None? {
      return Fail;
    }
    if stable.value < MIN_STABLE_RAW {
      return Skip;
    }
    var price := MicroUsd(stable.value, sol.value);
    if price.None? || !TimestampFits(first.observedMs) || !TimestampFits(last.observedMs) {
      return Fail;
    }
    return Keep(BuiltPool(
      PoolVwap(first.value.poolAddress, first.value.protocol, first.value.stableMint, sol.value, stable.value,
               price.value, first.observedMs, last.observedMs, Ids(accepted)),
      MinConfidence(accepted)));
  }

  // ---------------------------------------------------------------------------------
  // Ordered maps from a key to the items that have it

  /** An ordered map holding, under each key in order, the items with that key in input order. */
  ghost predicate Grouped<K(!new)>(less: (K, K) -> bool, items: seq<Timed>, key: Timed -> K,
                                   groups: map<K, seq<Timed>>, keys: seq<K>) {
    && keys == OrderedKeys(less, Keys(items, key))
    && (forall k :: k in groups <==> k in keys)
    && (forall k :: k in groups ==> groups[k] == Filter(items, KeyIs(key, k)))
    && (forall k :: k !in groups ==> Filter(items, KeyIs(key, k)) == [])
  }

  lemma InsertMembers<K(!new)>(less: (K, K) -> bool, x: K, s: seq<K>)
    ensures forall y :: y in Insert(less, x, s) <==> y == x || y in s
  {
    hide Insert;
    var r := Insert(less, x, s);
    assert forall y :: y in r <==> y in multiset(r);
  }

  /** Appending an item under its key, creating the key at its place if it is new. */
  lemma GroupStep<K(!new)>(less: (K, K) -> bool, items: seq<Timed>, item: Timed, key: Timed -> K,
                           groups: map<K, seq<Timed>>, keys: seq<K>)
    requires Grouped(less, items, key, groups, keys)
    ensures var k := key(item);
            if k in groups then Grouped(less, items + [item], key, groups[k := groups[k] + [item]], keys)
            else Grouped(less, items + [item], key, groups[k := [item]], Insert(less, k, keys))
  {
    hide Filter, Insert;
    var k, more := key(item), items + [item];
    assert Keys(more, key) == Keys(items, key) + [k];
    assert (Keys(items, key) + [k])[..|items|] == Keys(items, key);
    forall j
      ensures Filter(more, KeyIs(key, j)) == Filter(items, KeyIs(key, j)) + (if k == j then [item] else [])
    {
      FilterAppend(items, item, KeyIs(key, j));
    }
    if k !in groups {
      InsertMembers(less, k, keys);
      assert [] + [item] == [item];
    }
    assert forall j :: j != k ==> Filter(more, KeyIs(key, j)) == Filter(items, KeyIs(key, j));
  }

  method GroupByPool(input: seq<Timed>) returns (groups: map<string, seq<Timed>>, addresses: seq<string>)
    ensures Grouped(LexLess, input, PoolKey, groups, addresses)
  {
    hide Grouped, LexLess;
    groups, addresses := map[], [];
    GroupedNothing(LexLess, PoolKey);
    assert input[..0] == [];
    for i := 0 to |input|
      invariant Grouped(LexLess, input[..i], PoolKey, groups, addresses)
    {
      var address := PoolKey(input[i]);
      assert input[..i + 1] == input[..i] + [input[i]];
      GroupStep(LexLess, input[..i], input[i], PoolKey, groups, addresses);
      if address in groups {
        groups := groups[address := groups[address] + [input[i]]];
      } else {
        addresses := Insert(LexLess, address, addresses);
        groups := groups[address := [input[i]]];
      }
    }
    assert input[..|input|] == input;
  }

  lemma GroupedNothing<K(!new)>(less: (K, K) -> bool, key: Timed -> K)
    ensures Grouped(less, [], key, map[], [])
  {
    assert Keys([], key) == [];
  }

  lemma GroupOf<K(!new)>(less: (K, K) -> bool, items: seq<Timed>, key: Timed -> K,
                         groups: map<K, seq<Timed>>, keys: seq<K>)
    requires Grouped(less, items, key, groups, keys)
    ensures keys == OrderedKeys(less, Keys(items, key))
    ensures forall k <- keys :: k in groups && groups[k] == Filter(items, KeyIs(key, k))
  {
  }

  method BucketOfItems(bucket: int, input: seq<Timed>) returns (r: Step<Point>)
    ensures r == match BuildPools(input, OrderedKeys(LexLess, PoolAddresses(input)))
                 case None => Fail
                 case Some(pools) => BuildPoint(bucket, |input|, pools)
  {
    hide BuildPool, BuildPoint, LexLess, Grouped, Filter, OrderedKeys;
    var groups, addresses := GroupByPool(input);
    GroupOf(LexLess, input, PoolKey, groups, addresses);
    var pools: seq<BuiltPool> := [];
    for k := 0 to |addresses|
      invariant BuildPools(input, addresses[..k]) == Some(pools)
    {
      assert addresses[..k + 1][..k] == addresses[..k];
      assert addresses[k] in addresses;
      var pool := PoolOf(groups[addresses[k]]);
      match pool
      case Fail =>
        PoolPrefixFails(input, addresses, k + 1);
        return Fail;
      case Skip =>
      case Keep(built) => pools := pools + [built];
    }
    assert addresses[..|addresses|] == addresses;
    r := BuildPoint(bucket, |input|, pools);
  }

  // ---------------------------------------------------------------------------------
  // The tape

  /** Validates, rejects repeated source events and files each observation under its bucket. */
  method FileObservations(os: seq<Observation>)
    returns (ok: bool, buckets: map<int, seq<Timed>>, keys: seq<int>, ghost timed: seq<Timed>)
    ensures ok <==> TimeAll(os).Some?
    ensures ok ==> TimeAll(os) == Some(timed) && Grouped(IntLess, timed, BucketKey, buckets, keys)
  {
    hide Valid, MicroUsd, BucketOf, Grouped;
    var seen: set<string> := {};
    ok, buckets, keys, timed := true, map[], [], [];
    GroupedNothing(IntLess, BucketKey);
    for i := 0 to |os|
      invariant TimeAll(os[..i]) == Some(timed) && ok
      invariant forall id :: id in seen <==> id in Ids(timed)
      invariant Grouped(IntLess, timed, BucketKey, buckets, keys)
    {
      var value := os[i];
      assert os[..i + 1][..i] == os[..i];
      if !Valid(value) || value.sourceEventId in seen {
        TimePrefixFails(os, i + 1);
        return false, buckets, keys, timed;
      }
      seen := seen + {value.sourceEventId};
      if value.observedMs.None? || value.solRaw.None? || value.stableRaw.None? {
        TimePrefixFails(os, i + 1);
        return false, buckets, keys, timed;
      }
      var price := MicroUsd(value.stableRaw.value, value.solRaw.value);
      if price.None? {
        TimePrefixFails(os, i + 1);
        return false, buckets, keys, timed;
      }
      var item := Timed(value, value.observedMs.value, value.solRaw.value, value.stableRaw.value, price.value);
      var bucket := BucketKey(item);
      assert Ids(timed + [item]) == Ids(timed) + [value.sourceEventId];
      GroupStep(IntLess, timed, item, BucketKey, buckets, keys);
      if bucket in buckets {
        buckets := buckets[bucket := buckets[bucket] + [item]];
      } else {
        keys := Insert(IntLess, bucket, keys);
        buckets := buckets[bucket := [item]];
      }
      timed := timed + [item];
    }
    assert os[..|os|] == os;
  }

  /** The builder of the source computes the tape. */
  method BuildFxTape(os: seq<Observation>) returns (r: Option<seq<Point>>)
    ensures r == Tape(os)
  {
    hide TimeAll, BucketOf, BuildPools, BuildPoint, Sort, Grouped, Filter, OrderedKeys, LexLess;
    var ok, buckets, keys, timed := FileObservations(os);
    if !ok {
      return None;
    }
    GroupOf(IntLess, timed, BucketKey, buckets, keys);
    var tape: seq<Point> := [];
    for k := 0 to |keys|
      invariant BuildPoints(timed, keys[..k]) == Some(tape)
    {
      assert keys[..k + 1][..k] == keys[..k];
      assert keys[k] in keys;
      var point := BucketOfItems(keys[k], Sort(TimedLess, buckets[keys[k]]));
      assert point == BucketPoint(timed, keys[k]);
      match point
      case Fail =>
        PointPrefixFails(timed, keys, k + 1);
        return None;
      case Skip =>
      case Keep(built) => tape := tape + [built];
    }
    assert keys[..|keys|] == keys;
    return Some(tape);
  }
}
