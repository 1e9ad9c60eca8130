/** What an emitted point certifies about the observations it lists. */
module FxEvidence {
  import opened Common
  import opened Ordering
  import opened FxTape
  import opened FxOrder
  import opened FxPrices
  import opened FxSelection

  /**
   * Everything an emitted point states about one of its pools: the listed observations are
   * usable inputs of the point's own 30-second bucket and pool, the totals are their exact
   * sums, and each listed price is within 12.75% of the published price.
   */
  ghost predicate Evidence(os: seq<Observation>, point: Point, p: PoolVwap, accepted: seq<Timed>) {
    && accepted != [] && NoDup(accepted)
    && p.sourceEventIds == Ids(accepted)
    && (forall t <- accepted ::
          && t.value in os && TimeOne(t.value) == Some(t)
          && BucketOf(t.observedMs) == point.bucketStart
          && t.value.poolAddress == p.poolAddress
          && AbsDiff(t.price, point.price) * 10_000 < 1275 * point.price)
    && p.solRaw == Sum(Sols(accepted))
    && p.stableRaw == Sum(Stables(accepted)) >= MIN_STABLE_RAW
    && p.firstMs == accepted[0].observedMs
    && p.lastMs == accepted[|accepted| - 1].observedMs
  }

  ghost predicate PointCertified(os: seq<Observation>, bucket: int, point: Point) {
    && point.bucketStart == bucket
    && bucket <= point.observedMs < bucket + FX_BUCKET_MS
    && (forall p <- point.pools :: exists accepted :: Evidence(os, point, p, accepted))
    && (forall i, j :: 0 <= i < j < |point.pools| ==> point.pools[i].poolAddress != point.pools[j].poolAddress)
  }

  /** A pool's average and the published price are within the spread of each other. */
  lemma SpreadBand(point: Point, p: PoolVwap)
    requires SpreadTold(point) && Median(PricesOf(point.pools)) == Some(point.price) && p in point.pools
    requires |point.pools| > 1 ==> point.poolSpreadBps <= MAX_POOL_BPS
    ensures AbsDiff(p.price, point.price) * 10_000 < 201 * point.price
  {
    hide Median, AbsDiff, PricesOf, MinOf, MaxOf;
    MedianBetween(PricesOf(point.pools), point.price);
    if |point.pools| > 1 {
      var low, high := Extremes(point.pools);
      Scale(point.poolSpreadBps + 1, 201, point.price);
      BetweenClose(p.price, point.price, low.price, high.price, 201 * point.price);
    } else {
      var low, high := Extremes(point.pools);
      assert point.pools == [p];
      SameClose(p.price, point.price);
    }
  }

  /** A cheapest and a dearest pool. */
  lemma Extremes(pools: seq<PoolVwap>) returns (low: PoolVwap, high: PoolVwap)
    requires pools != []
    ensures PricesOf(pools) != [] && low in pools && high in pools
    ensures low.price == MinOf(PricesOf(pools)) && high.price == MaxOf(PricesOf(pools))
  {
    hide MinOf, MaxOf;
    var prices := PricesOf(pools);
    var i :| 0 <= i < |prices| && prices[i] == MinOf(prices);
    var j :| 0 <= j < |prices| && prices[j] == MaxOf(prices);
    low, high := pools[i], pools[j];
  }

  lemma SameClose(x: nat, bound: nat)
    requires 0 < bound
    ensures AbsDiff(x, x) * 10_000 < 201 * bound
  {
  }

  lemma BetweenClose(x: nat, m: nat, low: nat, high: nat, bound: nat)
    requires low <= m <= high && AbsDiff(low, x) * 10_000 < bound && AbsDiff(high, x) * 10_000 < bound
    ensures AbsDiff(x, m) * 10_000 < bound
  {
  }

  /** The accepted observations of one pool are its evidence. */
  lemma PoolCertified(os: seq<Observation>, items: seq<Timed>, point: Point, p: PoolVwap)
    requires NoDup(items) && Summarises(items, p) && AbsDiff(p.price, point.price) * 10_000 < 201 * point.price
    requires forall t <- items ::
               t.value in os && TimeOne(t.value) == Some(t) && Priced(t) && BucketOf(t.observedMs) == point.bucketStart
    ensures Evidence(os, point, p, AcceptedItems(items, p.poolAddress)) && BucketOf(p.lastMs) == point.bucketStart
  {
    hide Filter, Median, Sum, MicroUsd, TimeOne, Priced, BucketOf;
    var own, accepted := OwnItems(items, p.poolAddress), AcceptedItems(items, p.poolAddress);
    var center := Median(Prices(own)).value;
    FilterMembers(items, InPool(p.poolAddress));
    FilterMembers(own, NearCenter(center));
    FilterNoDup(items, InPool(p.poolAddress));
    FilterNoDup(own, NearCenter(center));
    forall t | t in accepted
      ensures t in items && t.value.poolAddress == p.poolAddress && Near(t.price, center)
    {
      assert InPool(p.poolAddress)(t) && NearCenter(center)(t) && PoolKey(t) == p.poolAddress;
    }
    var low, high := (9500 * center + 9999) / 10000, 10500 * center / 10000;
    VwapBetween(accepted, low, high, p.price);
    PositivePrice(p);
    forall t | t in accepted
      ensures AbsDiff(t.price, point.price) * 10_000 < 1275 * point.price
    {
      PublishedBand(t.price, p.price, point.price, center);
    }
    assert accepted[0] in accepted && accepted[|accepted| - 1] in accepted;
  }

  lemma PositivePrice(p: PoolVwap)
    requires MicroUsd(p.stableRaw, p.solRaw) == Some(p.price)
    ensures p.price > 0
  {
  }

  lemma PointIsCertified(os: seq<Observation>, items: seq<Timed>, point: Point)
    requires NoDup(items) && PointTells(items, point.bucketStart, point)
    requires forall t <- items ::
               t.value in os && TimeOne(t.value) == Some(t) && Priced(t) && BucketOf(t.observedMs) == point.bucketStart
    ensures PointCertified(os, point.bucketStart, point)
  {
    hide Evidence, Summarises, SpreadTold, ConfidenceTold, Qualified, TimeOne, Priced, Median, LexLess, PricesOf,
         Listed;
    forall p | p in point.pools
      ensures Evidence(os, point, p, AcceptedItems(items, p.poolAddress)) && BucketOf(p.lastMs) == point.bucketStart
    {
      SpreadBand(point, p);
      PoolCertified(os, items, point, p);
    }
    LexTotal();
    assert forall i :: 0 <= i < |point.pools| ==> !LexLess(point.pools[i].poolAddress, point.pools[i].poolAddress);
  }

  /**
   * On success buckets strictly increase, each point's observed time lies in its 30-second
   * bucket, its pools are distinct, and every pool has its evidence: listed prices within
   * 1275 basis points of the published price and totals that are their exact sums.
   */
  lemma TapeCertified(os: seq<Observation>)
    requires Tape(os).Some?
    ensures var tape := Tape(os).value;
            && (forall point <- tape :: PointCertified(os, point.bucketStart, point))
            && (forall i, j :: 0 <= i < j < |tape| ==> tape[i].bucketStart < tape[j].bucketStart)
  {
    hide PointCertified, PointTells, TimeAll, TimeOne, Priced, BuildPoints, BucketItems, BucketTold;
    TapeSelected(os);
    forall point | point in Tape(os).value
      ensures PointCertified(os, point.bucketStart, point)
    {
      ItemsFromBucket(os, point.bucketStart);
      PointIsCertified(os, BucketItems(TimeAll(os).value, point.bucketStart), point);
    }
  }

  ghost predicate ListedAt(tape: seq<Point>, id: string, i: nat, j: nat, k: nat) {
    && i < |tape| && j < |tape[i].pools| && k < |tape[i].pools[j].sourceEventIds|
    && tape[i].pools[j].sourceEventIds[k] == id
  }

  /** A listed source event is one observation, whose pool and bucket are those it is listed under. */
  lemma {:induction false} ListedSource(os: seq<Observation>, id: string, i: nat, j: nat, k: nat)
    requires Tape(os).Some? && ListedAt(Tape(os).value, id, i, j, k)
    ensures exists o <- os :: (
              && o.sourceEventId == id && TimeOne(o).Some?
              && BucketOf(TimeOne(o).value.observedMs) == Tape(os).value[i].bucketStart
              && o.poolAddress == Tape(os).value[i].pools[j].poolAddress)
  {
    hide TimeAll, BuildPoints, TimeOne, Tape, Near;
    TapeCertified(os);
    var point := Tape(os).value[i];
    var p := point.pools[j];
    assert p in point.pools;
    var accepted: seq<Timed> :| Evidence(os, point, p, accepted);
    assert accepted[k] in accepted;
  }

  lemma SameListing(os: seq<Observation>, point: Point, p: PoolVwap, k: nat, k': nat)
    requires exists accepted :: Evidence(os, point, p, accepted)
    requires k < |p.sourceEventIds| && k' < |p.sourceEventIds| && p.sourceEventIds[k] == p.sourceEventIds[k']
    requires forall x, y :: x in os && y in os && x.sourceEventId == y.sourceEventId ==> x == y
    ensures k == k'
  {
    hide TimeOne;
    var accepted: seq<Timed> :| Evidence(os, point, p, accepted);
    assert accepted[k] in accepted && accepted[k'] in accepted;
    assert accepted[k].value == accepted[k'].value;
  }

  lemma SourcesDistinct(os: seq<Observation>)
    requires Tape(os).Some?
    ensures forall x, y :: x in os && y in os && x.sourceEventId == y.sourceEventId ==> x == y
  {
    hide BuildPoints, TimeOne, TimeAll;
    TimeAllExact(os);
    forall x, y | x in os && y in os && x.sourceEventId == y.sourceEventId
      ensures x == y
    {
      var m :| 0 <= m < |os| && os[m] == x;
      var n :| 0 <= n < |os| && os[n] == y;
      assert ObservationIds(os)[m] == ObservationIds(os)[n];
    }
  }

  /** Each source event is listed at most once, under one pool of one point. */
  lemma ListedOnce(os: seq<Observation>, id: string, i: nat, j: nat, k: nat, i': nat, j': nat, k': nat)
    requires Tape(os).Some? && ListedAt(Tape(os).value, id, i, j, k) && ListedAt(Tape(os).value, id, i', j', k')
    ensures i == i' && j == j' && k == k'
  {
    hide BuildPoints, TimeOne, TimeAll, Evidence, NoDup, BucketOf;
    var tape := Tape(os).value;
    TapeCertified(os);
    ListedSource(os, id, i, j, k);
    ListedSource(os, id, i', j', k');
    SourcesDistinct(os);
    assert tape[i].bucketStart == tape[i'].bucketStart;
    assert i == i';
    assert tape[i] in tape && PointCertified(os, tape[i].bucketStart, tape[i]);
    assert tape[i].pools[j] in tape[i].pools;
    SameListing(os, tape[i], tape[i].pools[j], k, k');
  }
}
