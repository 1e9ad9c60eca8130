/** When the tape fails: the exact conditions on its input. */
module FxFailure {
  import opened Common
  import opened Ordering
  import opened FxTape
  import opened FxOrder
  import opened FxMedian
  import opened FxPrices
  import opened FxSelection

  // ---------------------------------------------------------------------------------
  // The conditions

  /** The prices, totals and average of one pool of a bucket stay in range, and a pool that counts has a date. */
  ghost predicate PoolComputable(items: seq<Timed>, bucket: int, address: string) {
    var accepted := AcceptedItems(items, address);
    && MiddleFits(Prices(OwnItems(items, address)))
    && (accepted != [] ==> Sum(Sols(accepted)) < U128_LIMIT && Sum(Stables(accepted)) < U128_LIMIT)
    && (Qualified(items, address) ==>
          Sum(Stables(accepted)) * 1_000_000_000 < U128_LIMIT && TimestampFits(bucket))
  }

  /** The published price, the spread and the end of validity stay in range. */
  ghost predicate PointComputable(bucket: int, pools: seq<PoolVwap>) {
    pools != [] ==>
      && MiddleFits(PricesOf(pools))
      && Width(PricesOf(pools)) * BPS < U128_LIMIT
      && (Publishable(pools) ==> TimestampFits(bucket + FX_MAX_AGE_MS))
  }

  ghost predicate BucketComputable(items: seq<Timed>, bucket: int) {
    && (forall address <- PoolAddresses(items) :: PoolComputable(items, bucket, address))
    && (forall pools :: AllQualified(items, pools) ==> PointComputable(bucket, pools))
  }

  // ---------------------------------------------------------------------------------
  // Times

  /** The printable range starts and ends with a bucket, so all of a bucket's times have a date or none has. */
  lemma BucketDates(ms: int)
    ensures TimestampFits(ms) <==> TimestampFits(BucketOf(ms))
    ensures TimestampFits(ms + FX_MAX_AGE_MS) <==> TimestampFits(BucketOf(ms) + FX_MAX_AGE_MS)
    ensures TimestampFits(ms + FX_MAX_AGE_MS) ==> ms + FX_MAX_AGE_MS <= I64_MAX
  {
    var k, first, end := ms / FX_BUCKET_MS, MIN_TIMESTAMP_MS / FX_BUCKET_MS, (MAX_TIMESTAMP_MS + 1) / FX_BUCKET_MS;
    assert first * FX_BUCKET_MS == MIN_TIMESTAMP_MS && end * FX_BUCKET_MS == MAX_TIMESTAMP_MS + 1;
    assert k * FX_BUCKET_MS <= ms < (k + 1) * FX_BUCKET_MS;
  }

  // ---------------------------------------------------------------------------------
  // Pools

  /** The items of one bucket, each with its own price. */
  ghost predicate OfBucket(items: seq<Timed>, bucket: int) {
    forall t <- items :: Priced(t) && BucketOf(t.observedMs) == bucket
  }

  lemma AcceptedAreItems(items: seq<Timed>, address: string)
    ensures forall t <- AcceptedItems(items, address) :: t in items
  {
    hide Filter, Median;
    var own := OwnItems(items, address);
    FilterMembers(items, InPool(address));
    if Median(Prices(own)).Some? {
      FilterMembers(own, NearCenter(Median(Prices(own)).value));
    }
  }

  lemma OwnNotEmpty(items: seq<Timed>, address: string)
    requires address in PoolAddresses(items)
    ensures OwnItems(items, address) != []
  {
    hide Filter;
    FilterMembers(items, InPool(address));
    var i :| 0 <= i < |items| && PoolAddresses(items)[i] == address;
    assert items[i] in items && InPool(address)(items[i]);
  }

  /** Of priced observations the average is undefined only if the product overflows. */
  lemma AverageDefined(items: seq<Timed>)
    requires items != [] && forall t <- items :: Priced(t)
    ensures MicroUsd(Sum(Stables(items)), Sum(Sols(items))).Some?
            <==> Sum(Stables(items)) * 1_000_000_000 < U128_LIMIT
  {
    hide Sum;
    var stable, sol := Sum(Stables(items)), Sum(Sols(items));
    WeightedBounds(items, 1, U128_LIMIT);
    assert stable > 0 && sol > 0 by { Positive(items); }
    FloorDivision(stable * 1_000_000_000, sol);
  }

  lemma {:induction false} Positive(items: seq<Timed>)
    requires items != [] && forall t <- items :: Priced(t)
    ensures Sum(Stables(items)) > 0 && Sum(Sols(items)) > 0
  {
    var last := items[|items| - 1];
    assert last in items && last.stableRaw > 0 && last.solRaw > 0;
    assert Stables(items)[|items| - 1] == last.stableRaw && Sols(items)[|items| - 1] == last.solRaw;
  }

  lemma PoolDefined(items: seq<Timed>, bucket: int, address: string)
    requires OfBucket(items, bucket) && address in PoolAddresses(items)
    ensures !BuildPool(OwnItems(items, address)).Fail? <==> PoolComputable(items, bucket, address)
  {
    hide Filter, Median, Sum, MicroUsd, MinConfidence, TimestampFits, MiddleFits, BucketOf;
    var own, accepted := OwnItems(items, address), AcceptedItems(items, address);
    OwnNotEmpty(items, address);
    MedianExactly(Prices(own));
    if Median(Prices(own)).Some? && accepted != [] {
      AcceptedAreItems(items, address);
      AverageDefined(accepted);
      assert accepted[0] in items && accepted[|accepted| - 1] in items;
      BucketDates(accepted[0].observedMs);
      BucketDates(accepted[|accepted| - 1].observedMs);
    }
  }

  lemma {:induction false} PoolsDefined(items: seq<Timed>, addresses: seq<string>)
    ensures BuildPools(items, addresses).Some?
            <==> forall address <- addresses :: !BuildPool(OwnItems(items, address)).Fail?
  {
    hide BuildPool, OwnItems;
    if addresses != [] {
      var init, last := addresses[..|addresses| - 1], addresses[|addresses| - 1];
      PoolsDefined(items, init);
      assert addresses == init + [last];
      assert OwnItems(items, last) == Filter(items, InPool(last)) by { OwnIsFilter(items, last); }
    }
  }

  lemma OwnIsFilter(items: seq<Timed>, address: string)
    ensures OwnItems(items, address) == Filter(items, InPool(address))
  {
  }

  // ---------------------------------------------------------------------------------
  // Points

  lemma PointDefined(items: seq<Timed>, bucket: int, pools: seq<BuiltPool>)
    requires OfBucket(items, bucket) && AllQualified(items, Vwaps(pools))
    requires PricesOf(Vwaps(pools)) == PoolPrices(pools) && (pools != [] ==> TimestampFits(bucket))
    ensures !BuildPoint(bucket, |items|, pools).Fail? <==> PointComputable(bucket, Vwaps(pools))
  {
    hide Median, Width, SpreadBps, LastMs, PoolConfidence, ObservationCount, TimestampFits, PricesOf, MiddleFits,
         AllQualified, Vwaps, BucketOf;
    if pools != [] {
      SameLength(pools);
      MedianExactly(PoolPrices(pools));
      LastInBucket(items, bucket, pools);
      BucketDates(LastMs(pools));
      if Median(PoolPrices(pools)).Some? {
        PoolsPriced(items, pools);
        PublishedPositive(pools, Median(PoolPrices(pools)).value);
      }
    } else {
      SameLength(pools);
    }
  }

  lemma SameLength(pools: seq<BuiltPool>)
    ensures |Vwaps(pools)| == |pools| == |PoolPrices(pools)|
  {
  }

  /** The last observation of a bucket's pools lies in the bucket, which then has a date. */
  lemma LastInBucket(items: seq<Timed>, bucket: int, pools: seq<BuiltPool>)
    requires OfBucket(items, bucket) && AllQualified(items, Vwaps(pools)) && pools != []
    ensures BucketOf(LastMs(pools)) == bucket
  {
    hide BucketOf, AcceptedItems, Qualified, LexLess;
    LatestPool(pools);
    var p :| p in Vwaps(pools) && p.lastMs == LastMs(pools);
    LastAccepted(items, bucket, p);
  }

  lemma LastAccepted(items: seq<Timed>, bucket: int, p: PoolVwap)
    requires OfBucket(items, bucket) && Summarises(items, p)
    ensures BucketOf(p.lastMs) == bucket
  {
    hide AcceptedItems, BucketOf;
    var accepted := AcceptedItems(items, p.poolAddress);
    AcceptedAreItems(items, p.poolAddress);
    assert accepted[|accepted| - 1] in items;
  }

  lemma PoolsPriced(items: seq<Timed>, pools: seq<BuiltPool>)
    requires AllQualified(items, Vwaps(pools))
    ensures forall b <- pools :: b.value.price > 0
  {
    hide AcceptedItems, Qualified, LexLess;
    forall b | b in pools
      ensures b.value.price > 0
    {
      var i :| 0 <= i < |pools| && pools[i] == b;
      assert Vwaps(pools)[i] in Vwaps(pools);
    }
  }

  lemma CountedHasDate(items: seq<Timed>, bucket: int, pools: seq<BuiltPool>)
    requires AllQualified(items, Vwaps(pools)) && pools != []
    requires forall address <- PoolAddresses(items) :: PoolComputable(items, bucket, address)
    ensures TimestampFits(bucket)
  {
    hide AcceptedItems, Qualified, TimestampFits, MiddleFits, LexLess, PoolAddresses;
    var p := Vwaps(pools)[0];
    assert p in Vwaps(pools) && Summarises(items, p);
    if p.poolAddress !in PoolAddresses(items) { NobodyQualifies(items, p.poolAddress); }
  }

  // ---------------------------------------------------------------------------------
  // The tape

  /** Usable observations with their times and prices. */
  function Timings(os: seq<Observation>): seq<Timed>
    requires forall o <- os :: TimeOne(o).Some?
  {
    seq(|os|, i requires 0 <= i < |os| => TimeOne(os[i]).value)
  }

  lemma BucketDefined(ts: seq<Timed>, bucket: int)
    requires OfBucket(BucketItems(ts, bucket), bucket)
    ensures !BucketPoint(ts, bucket).Fail? <==> BucketComputable(BucketItems(ts, bucket), bucket)
  {
    hide BucketItems, BuildPools, BuildPoint, BuildPool, OrderedKeys, LexLess, AllQualified, PoolComputable,
         PointComputable, OfBucket, OwnItems;
    var items := BucketItems(ts, bucket);
    var addresses := OrderedKeys(LexLess, PoolAddresses(items));
    LexTotal();
    OrderedKeysExact(LexLess, PoolAddresses(items));
    assert forall a :: a in addresses <==> a in ToSet(addresses);
    assert forall a :: a in PoolAddresses(items) <==> a in ToSet(PoolAddresses(items));
    PoolsDefined(items, addresses);
    forall address | address in PoolAddresses(items)
      ensures !BuildPool(OwnItems(items, address)).Fail? <==> PoolComputable(items, bucket, address)
    {
      PoolDefined(items, bucket, address);
    }
    if BuildPools(items, addresses).Some? {
      var pools := BuildPools(items, addresses).value;
      VwapFacts(items, addresses, pools);
      if pools != [] { CountedHasDate(items, bucket, pools); }
      PointDefined(items, bucket, pools);
      forall others | AllQualified(items, others)
        ensures others == Vwaps(pools)
      {
        QualifiedUnique(items, others, Vwaps(pools));
      }
    }
  }

  lemma {:induction false} PointsDefined(ts: seq<Timed>, buckets: seq<int>)
    ensures BuildPoints(ts, buckets).Some? <==> forall b <- buckets :: !BucketPoint(ts, b).Fail?
  {
    hide BucketPoint;
    if buckets != [] {
      var init, last := buckets[..|buckets| - 1], buckets[|buckets| - 1];
      PointsDefined(ts, init);
      assert buckets == init + [last];
    }
  }

  /** The bucket an observation falls into is one whose numbers stay in range. */
  ghost predicate InRange(ts: seq<Timed>, t: Timed) {
    BucketComputable(BucketItems(ts, BucketOf(t.observedMs)), BucketOf(t.observedMs))
  }

  /**
   * The tape is built exactly if every observation is usable, no source event repeats, and in
   * each bucket medians, totals, averages, spread and dates stay in range.
   */
  lemma TapeExactly(os: seq<Observation>)
    ensures Tape(os).Some? <==>
            && (forall o <- os :: TimeOne(o).Some?) && NoDup(ObservationIds(os))
            && (forall o <- os :: InRange(Timings(os), TimeOne(o).value))
  {
    hide TimeAll, TimeOne, BuildPoints, BucketItems, BucketPoint, BucketComputable, ToSet, Buckets, NoDup, BucketOf,
         OrderedKeys, ObservationIds;
    TimeAllExact(os);
    if TimeAll(os).Some? {
      var ts := TimeAll(os).value;
      assert ts == Timings(os);
      IntTotal();
      var buckets := OrderedKeys(IntLess, Buckets(ts));
      OrderedKeysExact(IntLess, Buckets(ts));
      PointsDefined(ts, buckets);
      forall b
        ensures !BucketPoint(ts, b).Fail? <==> BucketComputable(BucketItems(ts, b), b)
      {
        ItemsFromBucket(os, b);
        BucketDefined(ts, b);
      }
      forall o | o in os
        ensures TimeOne(o).Some? && BucketOf(TimeOne(o).value.observedMs) in buckets
      {
        var i :| 0 <= i < |os| && os[i] == o;
        ItsBucket(ts, i, buckets);
        assert TimeOne(o) == Some(ts[i]);
      }
      forall b | b in buckets
        ensures exists o <- os :: TimeOne(o).Some? && BucketOf(TimeOne(o).value.observedMs) == b
      {
        var i := SomeOf(ts, buckets, b);
        assert os[i] in os && TimeOne(os[i]) == Some(ts[i]);
      }
    }
  }

  /** Every bucket of the tape holds an observation. */
  lemma SomeOf(ts: seq<Timed>, buckets: seq<int>, b: int) returns (i: nat)
    requires ToSet(buckets) == ToSet(Buckets(ts)) && b in buckets
    ensures i < |ts| && BucketOf(ts[i].observedMs) == b
  {
    hide BucketOf;
    assert b in ToSet(buckets) && b in Buckets(ts);
    var j :| 0 <= j < |ts| && Buckets(ts)[j] == b;
    assert Buckets(ts)[j] == BucketKey(ts[j]);
    i := j;
  }
}
