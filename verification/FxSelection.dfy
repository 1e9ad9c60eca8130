/**
 * Which observations, pools and buckets make it into the tape, and what a point says of them.
 *
 * A pool's observations of a bucket are accepted if they lie near their median price. A pool
 * qualifies if its accepted observations are worth the minimum. A bucket gets a point if a pool
 * qualifies and, of several, no two are too far apart.
 *
 * Every field of a point is tied to the observations of its bucket: nothing that qualifies is
 * left out, and nothing else is counted.
 */
module FxSelection {
  import opened Common
  import opened Ordering
  import opened FxTape
  import opened FxOrder
  import opened FxPrices

  // ---------------------------------------------------------------------------------
  // Pools

  /** One pool's observations of a bucket, in time order. */
  function OwnItems(items: seq<Timed>, address: string): seq<Timed> { Filter(items, InPool(address)) }

  /** Those within five percent of the pool's median price; none if there is no median. */
  function AcceptedItems(items: seq<Timed>, address: string): seq<Timed> {
    var center := Median(Prices(OwnItems(items, address)));
    if center.None? then [] else Filter(OwnItems(items, address), NearCenter(center.value))
  }

  /** A pool counts if its accepted observations are worth the minimum. */
  ghost predicate Qualified(items: seq<Timed>, address: string) {
    AcceptedItems(items, address) != [] && Sum(Stables(AcceptedItems(items, address))) >= MIN_STABLE_RAW
  }

  /** A pool's part of a point: all its accepted observations, summed, and their average price. */
  ghost predicate Summarises(items: seq<Timed>, p: PoolVwap) {
    var accepted := AcceptedItems(items, p.poolAddress);
    && Qualified(items, p.poolAddress)
    && p.sourceEventIds == Ids(accepted)
    && p.solRaw == Sum(Sols(accepted)) && p.stableRaw == Sum(Stables(accepted))
    && MicroUsd(p.stableRaw, p.solRaw) == Some(p.price)
    && p.firstMs == accepted[0].observedMs && p.lastMs == accepted[|accepted| - 1].observedMs
    && p.protocol == accepted[0].value.protocol && p.stableMint == accepted[0].value.stableMint
  }

  lemma PoolSummarised(items: seq<Timed>, address: string)
    ensures var step := BuildPool(OwnItems(items, address));
            && (step.Skip? ==> !Qualified(items, address))
            && (step.Keep? ==>
                  && step.value.value.poolAddress == address && Summarises(items, step.value.value)
                  && step.value.confidence == MinConfidence(AcceptedItems(items, address)))
  {
    hide Filter, Median, Sum, MicroUsd, MinConfidence, TimestampFits;
    var own := OwnItems(items, address);
    var center := Median(Prices(own));
    FilterMembers(items, InPool(address));
    if center.Some? {
      FilterMembers(own, NearCenter(center.value));
      var accepted := AcceptedItems(items, address);
      if accepted != [] {
        assert accepted[0] in accepted && InPool(address)(accepted[0]) && PoolKey(accepted[0]) == address;
      }
    }
  }

  ghost predicate HasPool(pools: seq<BuiltPool>, address: string) {
    exists b <- pools :: b.value.poolAddress == address
  }

  ghost predicate BuiltFrom(items: seq<Timed>, b: BuiltPool) {
    Summarises(items, b.value) && b.confidence == MinConfidence(AcceptedItems(items, b.value.poolAddress))
  }

  /** Exactly the qualified pools are built, in address order. */
  lemma {:induction false} PoolsSelected(items: seq<Timed>, addresses: seq<string>)
    requires BuildPools(items, addresses).Some? && StrictlySorted(LexLess, addresses)
    ensures var pools := BuildPools(items, addresses).value;
            && (forall b <- pools :: b.value.poolAddress in addresses && BuiltFrom(items, b))
            && (forall address <- addresses :: HasPool(pools, address) <==> Qualified(items, address))
            && (forall i, j :: 0 <= i < j < |pools| ==> LexLess(pools[i].value.poolAddress, pools[j].value.poolAddress))
  {
    hide BuildPool, Qualified, BuiltFrom, LexLess, OwnItems;
    if addresses != [] {
      var init, last := addresses[..|addresses| - 1], addresses[|addresses| - 1];
      assert forall i :: 0 <= i < |init| ==> LexLess(init[i], last);
      PoolsSelected(items, init);
      PoolStep(items, init, last);
      assert addresses == init + [last];
    }
  }

  lemma {:induction false} PoolStep(items: seq<Timed>, init: seq<string>, last: string)
    requires BuildPools(items, init + [last]).Some? && forall address <- init :: LexLess(address, last)
    requires BuildPools(items, init).Some?
    requires var pools := BuildPools(items, init).value;
             && (forall b <- pools :: b.value.poolAddress in init && BuiltFrom(items, b))
             && (forall address <- init :: HasPool(pools, address) <==> Qualified(items, address))
             && (forall i, j :: 0 <= i < j < |pools| ==>
                   LexLess(pools[i].value.poolAddress, pools[j].value.poolAddress))
    ensures var pools := BuildPools(items, init + [last]).value;
            && (forall b <- pools :: b.value.poolAddress in init + [last] && BuiltFrom(items, b))
            && (forall address <- init + [last] :: HasPool(pools, address) <==> Qualified(items, address))
            && (forall i, j :: 0 <= i < j < |pools| ==> LexLess(pools[i].value.poolAddress, pools[j].value.poolAddress))
  {
    hide BuildPool, Qualified, Filter, LexLess, AcceptedItems, MinConfidence;
    var addresses := init + [last];
    assert addresses[..|addresses| - 1] == init && addresses[|addresses| - 1] == last;
    assert last !in init by { LexTotal(); }
    PoolSummarised(items, last);
    var earlier, pools := BuildPools(items, init).value, BuildPools(items, addresses).value;
    assert Filter(items, InPool(last)) == OwnItems(items, last);
    assert forall i :: 0 <= i < |earlier| ==> earlier[i] in earlier;
    if BuildPool(OwnItems(items, last)).Keep? {
      var b := BuildPool(OwnItems(items, last)).value;
      assert pools == earlier + [b];
      assert pools[|earlier|] == b && HasPool(pools, last);
      forall address | address in init
        ensures HasPool(pools, address) <==> HasPool(earlier, address)
      {
        if HasPool(earlier, address) {
          var e :| e in earlier && e.value.poolAddress == address;
          assert e in pools;
        }
      }
    }
  }

  lemma {:induction false} ItemsFromBucket(os: seq<Observation>, bucket: int)
    requires TimeAll(os).Some?
    ensures NoDup(BucketItems(TimeAll(os).value, bucket))
    ensures forall t <- BucketItems(TimeAll(os).value, bucket) ::
              t.value in os && TimeOne(t.value) == Some(t) && Priced(t) && BucketOf(t.observedMs) == bucket
  {
    hide Filter, Sort, TimeAll, TimeOne;
    var ts := TimeAll(os).value;
    var mine := Filter(ts, InBucket(bucket));
    FilterMembers(ts, InBucket(bucket));
    TimeAllExact(os);
    TimedIdsDistinct(os);
    FilterNoDup(ts, InBucket(bucket));
    var items := BucketItems(ts, bucket);
    SameMembers(mine, items);
    SameMultisetNoDup(mine, items);
    forall t | t in items
      ensures t.value in os && TimeOne(t.value) == Some(t) && Priced(t) && BucketOf(t.observedMs) == bucket
    {
      assert t in ToSet(items) && t in mine;
      assert InBucket(bucket)(t) && BucketKey(t) == bucket;
      var i :| 0 <= i < |ts| && ts[i] == t;
      TimedKeepsValue(os[i]);
      TimedPriced(os[i]);
    }
  }

  lemma TimedPriced(o: Observation)
    requires TimeOne(o).Some?
    ensures Priced(TimeOne(o).value)
  {
    hide Valid;
  }

  /** The division by the published price is safe: no pool price, hence no median, is zero. */
  lemma PublishedPositive(pools: seq<BuiltPool>, price: nat)
    requires forall p <- pools :: p.value.price > 0
    requires Median(PoolPrices(pools)) == Some(price)
    ensures price > 0
  {
    hide Median;
    MedianBetween(PoolPrices(pools), price);
    assert forall i :: 0 <= i < |pools| ==> pools[i] in pools && PoolPrices(pools)[i] > 0;
  }

  // ---------------------------------------------------------------------------------
  // Points

  /** The number of observations listed under the pools. */
  function Listed(pools: seq<PoolVwap>): nat {
    if pools == [] then 0 else Listed(pools[..|pools| - 1]) + |pools[|pools| - 1].sourceEventIds|
  }

  function PricesOf(pools: seq<PoolVwap>): seq<nat> {
    seq(|pools|, i requires 0 <= i < |pools| => pools[i].price)
  }

  /** The spread is the floored ratio of the widest price gap to the published price. */
  ghost predicate SpreadTold(point: Point) {
    && point.price > 0
    && (forall p, q :: p in point.pools && q in point.pools ==>
          AbsDiff(p.price, q.price) * BPS < (point.poolSpreadBps + 1) * point.price)
    && (exists p, q ::
          p in point.pools && q in point.pools
          && point.poolSpreadBps * point.price <= AbsDiff(p.price, q.price) * BPS)
  }

  /** The confidence is the least among the quality's cap and those of the listed observations. */
  ghost predicate ConfidenceTold(items: seq<Timed>, point: Point) {
    var cap := if point.quality == CrossPool then 0.99 else 0.90;
    && point.confidence <= cap
    && (forall p, t :: p in point.pools && t in AcceptedItems(items, p.poolAddress) && t.value.confidence.Some? ==>
          point.confidence <= t.value.confidence.value)
    && (point.confidence == cap
        || exists p, t ::
             p in point.pools && t in AcceptedItems(items, p.poolAddress)
             && t.value.confidence == Some(point.confidence))
  }

  ghost predicate Mentions(pools: seq<PoolVwap>, address: string) {
    exists p <- pools :: p.poolAddress == address
  }

  /** The qualified pools of a bucket, all of them, in address order. */
  ghost predicate AllQualified(items: seq<Timed>, pools: seq<PoolVwap>) {
    && (forall p <- pools :: Summarises(items, p))
    && (forall address :: Mentions(pools, address) <==> Qualified(items, address))
    && (forall i, j :: 0 <= i < j < |pools| ==> LexLess(pools[i].poolAddress, pools[j].poolAddress))
  }

  lemma PoolsOnly(items: seq<Timed>, a: seq<PoolVwap>, b: seq<PoolVwap>, p: PoolVwap)
    requires AllQualified(items, a) && AllQualified(items, b) && p in a
    ensures p in b
  {
    hide Qualified, AcceptedItems, MicroUsd, Sum;
    assert Mentions(a, p.poolAddress);
    var q :| q in b && q.poolAddress == p.poolAddress;
  }

  predicate AddressLess(p: PoolVwap, q: PoolVwap) { LexLess(p.poolAddress, q.poolAddress) }

  /** A bucket's observations leave no choice of its pools. */
  lemma QualifiedUnique(items: seq<Timed>, a: seq<PoolVwap>, b: seq<PoolVwap>)
    requires AllQualified(items, a) && AllQualified(items, b)
    ensures a == b
  {
    hide LexLess, Summarises, Qualified;
    forall p ensures p in ToSet(a) <==> p in ToSet(b) {
      if p in a { PoolsOnly(items, a, b, p); }
      if p in b { PoolsOnly(items, b, a, p); }
    }
    LexTotal();
    StrictlySortedUnique(AddressLess, a, b);
  }

  ghost predicate PointTells(items: seq<Timed>, bucket: int, point: Point) {
    && point.bucketStart == bucket && point.inputCount == |items|
    && AllQualified(items, point.pools)
    && Median(PricesOf(point.pools)) == Some(point.price)
    && SpreadTold(point)
    && (point.quality == CrossPool <==> |point.pools| > 1)
    && (point.quality == CrossPool ==> point.poolSpreadBps <= MAX_POOL_BPS)
    && (forall p <- point.pools :: p.lastMs <= point.observedMs)
    && (exists p <- point.pools :: p.lastMs == point.observedMs)
    && point.validUntilMs == point.observedMs + FX_MAX_AGE_MS
    && point.observationCount == Listed(point.pools)
    && ConfidenceTold(items, point)
  }

  /** A bucket gets a point if a pool qualifies and, of several, no two are too far apart. */
  ghost predicate Publishable(pools: seq<PoolVwap>) {
    && pools != []
    && Median(PricesOf(pools)).Some? && Median(PricesOf(pools)).value > 0
    && (|pools| > 1 ==> SpreadBps(PricesOf(pools), Median(PricesOf(pools)).value) <= MAX_POOL_BPS)
  }

  lemma SpreadMeans(pools: seq<BuiltPool>, point: Point)
    requires pools != [] && point.pools == Vwaps(pools) && point.price > 0
    requires point.poolSpreadBps == SpreadBps(PoolPrices(pools), point.price)
    ensures SpreadTold(point)
  {
    FloorDivision(Width(PoolPrices(pools)) * BPS, point.price);
    var p, q := WidestGap(pools);
    assert p in point.pools && q in point.pools;
  }

  /** Two pools whose prices are furthest apart. */
  lemma WidestGap(pools: seq<BuiltPool>) returns (p: PoolVwap, q: PoolVwap)
    requires pools != []
    ensures p in Vwaps(pools) && q in Vwaps(pools) && AbsDiff(p.price, q.price) == Width(PoolPrices(pools))
    ensures forall v, w :: v in Vwaps(pools) && w in Vwaps(pools) ==>
              AbsDiff(v.price, w.price) <= Width(PoolPrices(pools))
  {
    var prices, vs := PoolPrices(pools), Vwaps(pools);
    assert forall i :: 0 <= i < |pools| ==> vs[i].price == prices[i] && vs[i] in vs && prices[i] in prices;
    forall v | v in vs
      ensures v.price in prices
    {
      var i :| 0 <= i < |vs| && vs[i] == v;
    }
    var i :| 0 <= i < |prices| && prices[i] == MinOf(prices);
    var j :| 0 <= j < |prices| && prices[j] == MaxOf(prices);
    p, q := vs[i], vs[j];
  }

  lemma {:induction false} MinConfidenceMeans(items: seq<Timed>)
    ensures MinConfidence(items) <= 1.0
    ensures forall t <- items :: t.value.confidence.Some? ==> MinConfidence(items) <= t.value.confidence.value
    ensures MinConfidence(items) == 1.0 || exists t <- items :: t.value.confidence == Some(MinConfidence(items))
  {
    if items != [] {
      var init, last := items[..|items| - 1], items[|items| - 1];
      MinConfidenceMeans(init);
      assert items == init + [last];
      assert last in items;
    }
  }

  lemma {:induction false} PoolConfidenceMeans(pools: seq<BuiltPool>)
    ensures PoolConfidence(pools) <= 1.0
    ensures forall b <- pools :: PoolConfidence(pools) <= b.confidence
    ensures PoolConfidence(pools) == 1.0 || exists b <- pools :: b.confidence == PoolConfidence(pools)
  {
    if pools != [] {
      var init, last := pools[..|pools| - 1], pools[|pools| - 1];
      PoolConfidenceMeans(init);
      assert pools == init + [last];
      assert last in pools;
    }
  }

  lemma ConfidenceMeans(items: seq<Timed>, pools: seq<BuiltPool>, point: Point)
    requires point.pools == Vwaps(pools) && forall b <- pools :: BuiltFrom(items, b)
    requires point.confidence ==
             var cap := if point.quality == CrossPool then 0.99 else 0.90;
             if PoolConfidence(pools) < cap then PoolConfidence(pools) else cap
    ensures ConfidenceTold(items, point)
  {
    hide AcceptedItems, Summarises, MinConfidence, PoolConfidence;
    PoolConfidenceMeans(pools);
    forall p, t | p in point.pools && t in AcceptedItems(items, p.poolAddress) && t.value.confidence.Some?
      ensures point.confidence <= t.value.confidence.value
    {
      var i :| 0 <= i < |pools| && point.pools[i] == p;
      assert pools[i] in pools;
      MinConfidenceMeans(AcceptedItems(items, p.poolAddress));
    }
    if PoolConfidence(pools) == point.confidence && PoolConfidence(pools) < 1.0 {
      var b :| b in pools && b.confidence == PoolConfidence(pools);
      var i :| 0 <= i < |pools| && pools[i] == b;
      assert Vwaps(pools)[i] in point.pools;
      MinConfidenceMeans(AcceptedItems(items, b.value.poolAddress));
    }
  }

  lemma {:induction false} ListedMeans(pools: seq<BuiltPool>)
    ensures Listed(Vwaps(pools)) == ObservationCount(pools)
  {
    if pools != [] {
      ListedMeans(pools[..|pools| - 1]);
      assert Vwaps(pools)[..|pools| - 1] == Vwaps(pools[..|pools| - 1]);
    }
  }

  lemma VwapFacts(items: seq<Timed>, addresses: seq<string>, pools: seq<BuiltPool>)
    requires BuildPools(items, addresses) == Some(pools) && StrictlySorted(LexLess, addresses)
    requires forall address :: address in addresses <==> address in PoolAddresses(items)
    ensures AllQualified(items, Vwaps(pools)) && PricesOf(Vwaps(pools)) == PoolPrices(pools)
    ensures forall b <- pools :: BuiltFrom(items, b)
  {
    hide BuildPools, LexLess, Qualified, Summarises, MinConfidence, AcceptedItems, HasPool, Mentions, PoolAddresses;
    PoolsSelected(items, addresses);
    var vs := Vwaps(pools);
    assert forall i :: 0 <= i < |pools| ==> vs[i] == pools[i].value && pools[i] in pools;
    forall address
      ensures Mentions(vs, address) <==> Qualified(items, address)
    {
      MentionsPool(pools, address);
      if address !in addresses {
        NobodyQualifies(items, address);
        assert !HasPool(pools, address) by { Unbuilt(pools, addresses, address); }
      }
    }
  }

  lemma MentionsPool(pools: seq<BuiltPool>, address: string)
    ensures Mentions(Vwaps(pools), address) <==> HasPool(pools, address)
  {
    var vs := Vwaps(pools);
    assert forall i :: 0 <= i < |pools| ==> vs[i] == pools[i].value && vs[i] in vs && pools[i] in pools;
    if HasPool(pools, address) {
      var b :| b in pools && b.value.poolAddress == address;
      var i :| 0 <= i < |pools| && pools[i] == b;
      assert vs[i] in vs;
    }
    if Mentions(vs, address) {
      var p :| p in vs && p.poolAddress == address;
      var i :| 0 <= i < |vs| && vs[i] == p;
      assert pools[i] in pools;
    }
  }

  lemma Unbuilt(pools: seq<BuiltPool>, addresses: seq<string>, address: string)
    requires (forall b <- pools :: b.value.poolAddress in addresses) && address !in addresses
    ensures !HasPool(pools, address)
  {
  }

  lemma NobodyQualifies(items: seq<Timed>, address: string)
    requires address !in PoolAddresses(items)
    ensures !Qualified(items, address)
  {
    hide Median, Sum, Filter;
    FilterMembers(items, InPool(address));
    var own := OwnItems(items, address);
    assert forall i :: 0 <= i < |items| ==> PoolAddresses(items)[i] == PoolKey(items[i]);
    assert forall t <- own :: InPool(address)(t) && PoolKey(t) == address;
    assert own != [] ==> own[0] in own;
    assert Prices(own) == [];
    NoMedian();
  }

  lemma NoMedian()
    ensures Median([]).None?
  {
  }

  lemma BucketSelected(items: seq<Timed>, bucket: int, pools: seq<BuiltPool>)
    requires AllQualified(items, Vwaps(pools)) && PricesOf(Vwaps(pools)) == PoolPrices(pools)
    requires forall b <- pools :: BuiltFrom(items, b)
    requires !BuildPoint(bucket, |items|, pools).Fail?
    ensures var step := BuildPoint(bucket, |items|, pools);
            && (step.Keep? <==> Publishable(Vwaps(pools)))
            && (step.Keep? ==> PointTells(items, bucket, step.value))
  {
    hide BuildPoint, Median, AllQualified, BuiltFrom, SpreadTold, ConfidenceTold, SpreadBps, PoolConfidence,
         ObservationCount, Listed, PricesOf, PoolPrices, LastMs, Vwaps, Publishable;
    var step := BuildPoint(bucket, |items|, pools);
    Outcome(bucket, |items|, pools);
    if step.Keep? {
      var point := step.value;
      AllFields(bucket, |items|, pools, point);
      ListedMeans(pools);
      SpreadMeans(pools, point);
      ConfidenceMeans(items, pools, point);
      LatestPool(pools);
    }
  }

  lemma LatestPool(pools: seq<BuiltPool>)
    requires pools != []
    ensures |Vwaps(pools)| == |pools|
    ensures forall p <- Vwaps(pools) :: p.lastMs <= LastMs(pools)
    ensures exists p <- Vwaps(pools) :: p.lastMs == LastMs(pools)
  {
    assert forall i :: 0 <= i < |pools| ==> Vwaps(pools)[i] == pools[i].value && pools[i] in pools;
    var latest := LastMs(pools);
    var b :| b in pools && b.value.lastMs == latest;
    var i :| 0 <= i < |pools| && pools[i] == b;
    assert Vwaps(pools)[i] in Vwaps(pools);
  }

  lemma Outcome(bucket: int, inputCount: nat, pools: seq<BuiltPool>)
    requires !BuildPoint(bucket, inputCount, pools).Fail? && PricesOf(Vwaps(pools)) == PoolPrices(pools)
    ensures BuildPoint(bucket, inputCount, pools).Keep? <==> Publishable(Vwaps(pools))
  {
    hide Median, Width, SpreadBps, LastMs, PoolConfidence, ObservationCount, TimestampFits, PricesOf;
  }

  lemma AllFields(bucket: int, inputCount: nat, pools: seq<BuiltPool>, point: Point)
    requires BuildPoint(bucket, inputCount, pools) == Keep(point)
    ensures pools != [] && Median(PoolPrices(pools)) == Some(point.price) && point.price > 0
    ensures point.bucketStart == bucket && point.inputCount == inputCount && point.pools == Vwaps(pools)
    ensures point.observedMs == LastMs(pools) && point.validUntilMs == point.observedMs + FX_MAX_AGE_MS
    ensures point.poolSpreadBps == SpreadBps(PoolPrices(pools), point.price)
    ensures |pools| > 1 ==> point.poolSpreadBps <= MAX_POOL_BPS
    ensures point.quality == if |pools| > 1 then CrossPool else SinglePool
    ensures point.observationCount == ObservationCount(pools)
    ensures var cap := if point.quality == CrossPool then 0.99 else 0.90;
            point.confidence == if PoolConfidence(pools) < cap then PoolConfidence(pools) else cap
  {
    hide Median, Width, SpreadBps, LastMs, Vwaps, PoolPrices, PoolConfidence, ObservationCount, TimestampFits;
  }

  lemma {:induction false} PointsSelected(ts: seq<Timed>, buckets: seq<int>)
    requires BuildPoints(ts, buckets).Some?
    ensures var tape := BuildPoints(ts, buckets).value;
            && (forall point <- tape :: BucketPoint(ts, point.bucketStart) == Keep(point))
            && (forall b <- buckets :: !BucketPoint(ts, b).Fail? && (BucketPoint(ts, b).Keep? ==> HasPoint(tape, b)))
            && (forall point <- tape :: point.bucketStart in buckets)
            && (StrictlySorted(IntLess, buckets) ==>
                  forall i, j :: 0 <= i < j < |tape| ==> tape[i].bucketStart < tape[j].bucketStart)
  {
    hide BucketPoint, HasPoint;
    if buckets != [] {
      var init, last := buckets[..|buckets| - 1], buckets[|buckets| - 1];
      PointsSelected(ts, init);
      assert buckets == init + [last];
      var earlier := BuildPoints(ts, init).value;
      if BucketPoint(ts, last).Keep? {
        var point := BucketPoint(ts, last).value;
        StartOf(ts, last);
        OneMorePoint(earlier, point);
      }
    }
  }

  lemma OnlyKept(ts: seq<Timed>, tape: seq<Point>, b: int)
    requires (forall point <- tape :: BucketPoint(ts, point.bucketStart) == Keep(point)) && HasPoint(tape, b)
    ensures BucketPoint(ts, b).Keep?
  {
    hide BucketPoint;
  }

  lemma OneMorePoint(earlier: seq<Point>, point: Point)
    ensures forall b :: HasPoint(earlier + [point], b) <==> HasPoint(earlier, b) || b == point.bucketStart
  {
    var tape := earlier + [point];
    assert tape[|earlier|] == point;
    assert forall p :: p in tape <==> p in earlier || p == point;
    forall b
      ensures HasPoint(tape, b) <==> HasPoint(earlier, b) || b == point.bucketStart
    {
      if HasPoint(earlier, b) { var p :| p in earlier && p.bucketStart == b; assert p in tape; }
    }
  }

  ghost predicate HasPoint(tape: seq<Point>, bucket: int) {
    exists point <- tape :: point.bucketStart == bucket
  }

  lemma StartOf(ts: seq<Timed>, bucket: int)
    ensures BucketPoint(ts, bucket).Keep? ==> BucketPoint(ts, bucket).value.bucketStart == bucket
  {
    hide BucketItems, BuildPools, Median, OrderedKeys, LexLess, SpreadBps, Width, LastMs, PoolConfidence,
         ObservationCount, Vwaps, TimestampFits;
  }

  ghost predicate BucketTold(ts: seq<Timed>, tape: seq<Point>, bucket: int) {
    exists pools :: AllQualified(BucketItems(ts, bucket), pools) && (Publishable(pools) <==> HasPoint(tape, bucket))
  }

  lemma BucketTells(ts: seq<Timed>, bucket: int)
    requires !BucketPoint(ts, bucket).Fail?
    ensures exists pools ::
              AllQualified(BucketItems(ts, bucket), pools) && (Publishable(pools) <==> BucketPoint(ts, bucket).Keep?)
    ensures BucketPoint(ts, bucket).Keep? ==> PointTells(BucketItems(ts, bucket), bucket, BucketPoint(ts, bucket).value)
  {
    hide BucketItems, BuildPools, BuildPoint, OrderedKeys, LexLess, AllQualified, BuiltFrom, PointTells, Publishable;
    var items := BucketItems(ts, bucket);
    var addresses := OrderedKeys(LexLess, PoolAddresses(items));
    LexTotal();
    OrderedKeysExact(LexLess, PoolAddresses(items));
    assert forall a :: a in addresses <==> a in ToSet(addresses);
    assert forall a :: a in PoolAddresses(items) <==> a in ToSet(PoolAddresses(items));
    var pools := BuildPools(items, addresses).value;
    VwapFacts(items, addresses, pools);
    BucketSelected(items, bucket, pools);
  }

  /**
   * Every emitted point lists exactly its bucket's qualified pools, each with exactly the pool's
   * observations near its median, and its own fields are those of its pools. A bucket with
   * observations has a point exactly when its qualified pools are publishable.
   */
  lemma TapeSelected(os: seq<Observation>)
    requires Tape(os).Some?
    ensures var (ts, tape) := (TimeAll(os).value, Tape(os).value);
            && (forall point <- tape :: PointTells(BucketItems(ts, point.bucketStart), point.bucketStart, point))
            && (forall i, j :: 0 <= i < j < |tape| ==> tape[i].bucketStart < tape[j].bucketStart)
            && (forall o <- os :: TimeOne(o).Some? && BucketTold(ts, tape, BucketOf(TimeOne(o).value.observedMs)))
  {
    hide TimeAll, TimeOne, BuildPoints, BucketItems, BucketPoint, PointTells, AllQualified, Publishable, HasPoint,
         ToSet, Buckets, StrictlySorted, TotalOrder, NoDup, BucketOf;
    var ts, tape := TimeAll(os).value, Tape(os).value;
    IntTotal();
    var buckets := OrderedKeys(IntLess, Buckets(ts));
    OrderedKeysExact(IntLess, Buckets(ts));
    PointsSelected(ts, buckets);
    TimeAllExact(os);
    assert BuildPoints(ts, buckets) == Some(tape);
    forall point | point in tape
      ensures PointTells(BucketItems(ts, point.bucketStart), point.bucketStart, point)
    {
      BucketTells(ts, point.bucketStart);
    }
    forall o | o in os
      ensures TimeOne(o).Some? && BucketTold(ts, tape, BucketOf(TimeOne(o).value.observedMs))
    {
      var i :| 0 <= i < |os| && os[i] == o;
      ItsBucket(ts, i, buckets);
      assert TimeOne(o) == Some(ts[i]);
      var bucket := BucketOf(ts[i].observedMs);
      BucketTells(ts, bucket);
      if HasPoint(tape, bucket) { OnlyKept(ts, tape, bucket); }
    }
  }

  lemma ItsBucket(ts: seq<Timed>, i: nat, buckets: seq<int>)
    requires i < |ts| && ToSet(buckets) == ToSet(Buckets(ts))
    ensures BucketOf(ts[i].observedMs) in buckets
  {
    assert Buckets(ts)[i] == BucketKey(ts[i]) && Buckets(ts)[i] in Buckets(ts);
    assert BucketOf(ts[i].observedMs) in ToSet(buckets);
  }

  /** A bucket's items are its timed observations, each once, ordered by time and then source event. */
  lemma BucketItemsExact(os: seq<Observation>, bucket: int)
    requires TimeAll(os).Some?
    ensures var items := BucketItems(TimeAll(os).value, bucket);
            && StrictlySorted(TimedLess, items)
            && (forall t: Timed ::
                  t in items <==> t.value in os && TimeOne(t.value) == Some(t) && BucketOf(t.observedMs) == bucket)
  {
    hide Filter, Sort, TimeAll, TimeOne, LexLess;
    var ts := TimeAll(os).value;
    var mine, items := Filter(ts, InBucket(bucket)), BucketItems(ts, bucket);
    ItemsFromBucket(os, bucket);
    FilterMembers(ts, InBucket(bucket));
    SameMembers(mine, items);
    assert forall t :: t in items <==> t in mine by {
      assert forall t :: (t in items <==> t in ToSet(items)) && (t in mine <==> t in ToSet(mine));
    }
    TimeAllExact(os);
    forall t: Timed | t.value in os && TimeOne(t.value) == Some(t) && BucketOf(t.observedMs) == bucket
      ensures t in items
    {
      var i :| 0 <= i < |os| && os[i] == t.value;
      assert ts[i] == t && BucketKey(t) == bucket && InBucket(bucket)(t);
    }
    TimedWeak();
    SortSorted(TimedLess, mine);
    TimedIdsDistinct(os);
    assert forall t <- items :: t in ToSet(ts);
  }
}
