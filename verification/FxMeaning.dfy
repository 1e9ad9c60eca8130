/** The tape in plain arithmetic: what each published number is, and exactly when there is one. */
module FxMeaning {
  // Amounts are lamports and micro-dollars, prices micro-dollars a SOL, times milliseconds. Nothing
  // here is said through the functions that compute the tape.

  import opened Common
  import opened Ordering
  import opened FxTape
  import opened FxOrder
  import opened FxMedian
  import opened FxPrices
  import opened FxSelection
  import FxFailure

  const TWO_128 := 0x1_0000_0000_0000_0000_0000_0000_0000_0000

  // ---------------------------------------------------------------------------------
  // Observations

  /** The four pools whose swaps count, each under its own program. */
  ghost predicate Approved(o: Observation) {
    || (o.poolAddress == "58oQChx4yWmvKdwLLZzBi4ChoCc2fqCUWBkwMihLYQo2" && o.protocol == RaydiumAmmV4
        && o.programId == "675kPX9MHTjS2zt1qfr1NYHuzeLXfQM9H24wFSUt1Mp8"
        && o.stableMint == "EPjFWdd5AufqSSqeM2qN1xzybapC8G4wEGGkZwyTDt1v")
    || (o.poolAddress == "7XawhbbxtsRcQA8KTkHT9f9nc6d69UwqCDh6U5EEbEmX" && o.protocol == RaydiumAmmV4
        && o.programId == "675kPX9MHTjS2zt1qfr1NYHuzeLXfQM9H24wFSUt1Mp8"
        && o.stableMint == "Es9vMFrzaCERmJfrF4H2FYD4KCoNkY11McCe8BenwNYB")
    || (o.poolAddress == "3ucNos4NbumPLZNWztqGHNFFgkHeRMBQAVemeeomsUxv" && o.protocol == RaydiumClmm
        && o.programId == "CAMMCzo5YL8w4VFF8KVHrK22GGUsp5VTaW7grrKgrWqK"
        && o.stableMint == "EPjFWdd5AufqSSqeM2qN1xzybapC8G4wEGGkZwyTDt1v")
    || (o.poolAddress == "3nMFwZXwY1s1M5s8vYAHqd4wGs4iSxXE4LRoUMMYqEgF" && o.protocol == RaydiumClmm
        && o.programId == "CAMMCzo5YL8w4VFF8KVHrK22GGUsp5VTaW7grrKgrWqK"
        && o.stableMint == "Es9vMFrzaCERmJfrF4H2FYD4KCoNkY11McCe8BenwNYB")
  }

  ghost predicate FloorOf(q: nat, n: nat, d: nat) { q * d <= n < (q + 1) * d }

  /** A usable observation with its time, its amounts and its price of a whole SOL. */
  ghost predicate Usable(t: Timed) {
    var o := t.value;
    && o.contract == "fervor-fx-observation-v1" && o.policy == "fervor-sol-usd-v1" && Approved(o)
    && o.solDecimals == 9 && o.stableDecimals == 6 && !o.stale && o.finalized
    && o.confidence.Some? && 0.0 <= o.confidence.value <= 1.0
    && o.observedMs == Some(t.observedMs) && o.solRaw == Some(t.solRaw) && o.stableRaw == Some(t.stableRaw)
    && t.solRaw > 0 && 0 < t.stableRaw && t.stableRaw * 1_000_000_000 < TWO_128
    && t.price > 0 && FloorOf(t.price, t.stableRaw * 1_000_000_000, t.solRaw)
  }

  lemma ApprovedExactly(o: Observation)
    ensures Approved(o) <==> Pool(o.poolAddress, o.protocol, o.stableMint) in FX_POOLS
                             && o.programId == o.protocol.ProgramId()
  {
    var p := Pool(o.poolAddress, o.protocol, o.stableMint);
    assert p in FX_POOLS <==> p == FX_POOLS[0] || p == FX_POOLS[1] || p == FX_POOLS[2] || p == FX_POOLS[3];
  }

  /** An observation is timed exactly if it is usable, and then as these numbers say. */
  lemma UsableExactly(t: Timed)
    ensures TimeOne(t.value) == Some(t) <==> Usable(t)
  {
    hide Approved;
    ApprovedExactly(t.value);
    if t.solRaw > 0 {
      FloorExactly(t.price, t.stableRaw * 1_000_000_000, t.solRaw);
    }
  }

  lemma FloorExactly(q: nat, n: nat, d: nat)
    requires d > 0
    ensures FloorOf(q, n, d) <==> n / d == q
  {
    FloorDivision(n, d);
    if FloorOf(q, n, d) {
      if q < n / d { Scale(q + 1, n / d, d); }
      if n / d < q { Scale(n / d + 1, q, d); }
    }
  }

  // ---------------------------------------------------------------------------------
  // Buckets of half a minute

  ghost predicate InBucketOf(ms: int, bucket: int) { bucket % 30_000 == 0 && bucket <= ms < bucket + 30_000 }

  lemma BucketExactly(ms: int, bucket: int)
    ensures BucketOf(ms) == bucket <==> InBucketOf(ms, bucket)
  {
    var k := ms / 30_000;
    assert k * 30_000 <= ms < (k + 1) * 30_000;
    if InBucketOf(ms, bucket) { assert bucket == bucket / 30_000 * 30_000; }
  }

  ghost predicate DictionaryLess(a: string, b: string) { exists n: nat :: FirstSmaller(a, b, n) }

  /** Earlier observations come first, those of one instant in the dictionary order of their source events. */
  ghost predicate Chronological(items: seq<Timed>) {
    forall i, j :: 0 <= i < j < |items| ==>
      || items[i].observedMs < items[j].observedMs
      || (items[i].observedMs == items[j].observedMs
          && DictionaryLess(items[i].value.sourceEventId, items[j].value.sourceEventId))
  }

  lemma DictionaryExactly(a: string, b: string)
    ensures DictionaryLess(a, b) <==> LexLess(a, b)
  {
    hide LexLess, FirstSmaller;
    LexExactly(a, b);
  }

  lemma ChronologicalExactly(items: seq<Timed>)
    ensures Chronological(items) <==> StrictlySorted(TimedLess, items)
  {
    hide LexLess;
    forall i, j | 0 <= i < j < |items|
      ensures TimedLess(items[i], items[j]) <==>
              || items[i].observedMs < items[j].observedMs
              || (items[i].observedMs == items[j].observedMs
                  && DictionaryLess(items[i].value.sourceEventId, items[j].value.sourceEventId))
    {
      DictionaryExactly(items[i].value.sourceEventId, items[j].value.sourceEventId);
    }
  }

  /** The usable observations of a bucket, in order. */
  ghost predicate ItemsOf(os: seq<Observation>, bucket: int, items: seq<Timed>) {
    && Chronological(items)
    && forall t: Timed :: t in items <==> t.value in os && Usable(t) && InBucketOf(t.observedMs, bucket)
  }

  lemma BucketMeans(os: seq<Observation>, bucket: int)
    requires TimeAll(os).Some?
    ensures ItemsOf(os, bucket, BucketItems(TimeAll(os).value, bucket))
  {
    hide BucketItems, TimeAll, TimeOne, Usable, InBucketOf, BucketOf, TimedLess;
    var items := BucketItems(TimeAll(os).value, bucket);
    BucketItemsExact(os, bucket);
    ChronologicalExactly(items);
    forall t: Timed
      ensures t in items <==> t.value in os && Usable(t) && InBucketOf(t.observedMs, bucket)
    {
      UsableExactly(t);
      BucketExactly(t.observedMs, bucket);
    }
  }

  // ---------------------------------------------------------------------------------
  // Pools

  function TotalSol(items: seq<Timed>): nat { if items == [] then 0 else items[0].solRaw + TotalSol(items[1..]) }

  function TotalStable(items: seq<Timed>): nat {
    if items == [] then 0 else items[0].stableRaw + TotalStable(items[1..])
  }

  function PricesIn(items: seq<Timed>): seq<nat> { seq(|items|, i requires 0 <= i < |items| => items[i].price) }

  /** A pool's observations among a bucket's, in order. */
  ghost predicate OwnOf(items: seq<Timed>, address: string, own: seq<Timed>) {
    Chronological(own) && forall t :: t in own <==> t in items && t.value.poolAddress == address
  }

  /** Those within five percent of a center, in order; none if the center is too large to tell. */
  ghost predicate NearTo(own: seq<Timed>, center: nat, accepted: seq<Timed>) {
    && Chronological(accepted)
    && forall t :: t in accepted <==> t in own && CloseTo(t.price, center)
  }

  predicate CloseTo(price: nat, center: nat) {
    9_500 * center <= 10_000 * price <= 10_500 * center && 500 * center < TWO_128
  }

  /** The observations of a pool that count: those near the median of its prices. */
  ghost predicate Counted(items: seq<Timed>, address: string, accepted: seq<Timed>) {
    exists own, center :: OwnOf(items, address, own) && IsMedian(PricesIn(own), center) && NearTo(own, center, accepted)
  }

  /** A pool is listed if what counts of it is worth a hundred dollars. */
  ghost predicate Qualifies(items: seq<Timed>, address: string) {
    exists accepted :: Counted(items, address, accepted) && accepted != [] && TotalStable(accepted) >= 100_000_000
  }

  /** What is listed of a pool: the observations that count, their totals, average price and times. */
  ghost predicate Shown(items: seq<Timed>, p: PoolVwap) {
    exists accepted :: Counted(items, p.poolAddress, accepted) && Sums(accepted, p)
  }

  ghost predicate Sums(accepted: seq<Timed>, p: PoolVwap) {
    && accepted != [] && |p.sourceEventIds| == |accepted|
    && (forall i :: 0 <= i < |accepted| ==> p.sourceEventIds[i] == accepted[i].value.sourceEventId)
    && p.solRaw == TotalSol(accepted) && p.stableRaw == TotalStable(accepted) >= 100_000_000
    && p.stableRaw * 1_000_000_000 < TWO_128 && FloorOf(p.price, p.stableRaw * 1_000_000_000, p.solRaw)
    && p.firstMs == accepted[0].observedMs && p.lastMs == accepted[|accepted| - 1].observedMs
    && (forall t <- accepted :: p.firstMs <= t.observedMs <= p.lastMs)
    && p.protocol == accepted[0].value.protocol && p.stableMint == accepted[0].value.stableMint
  }

  lemma {:induction false} TotalsAgree(items: seq<Timed>)
    ensures Sum(Sols(items)) == TotalSol(items) && Sum(Stables(items)) == TotalStable(items)
  {
    if items == [] {
      NothingSummed(items);
    } else {
      TotalsAgree(items[1..]);
      SumFirst(Sols(items));
      SumFirst(Stables(items));
      assert Sols(items)[1..] == Sols(items[1..]) && Stables(items)[1..] == Stables(items[1..]);
    }
  }

  lemma {:induction false} SumFirst(values: seq<nat>)
    requires values != []
    ensures Sum(values) == values[0] + Sum(values[1..])
  {
    if |values| > 1 {
      SumFirst(values[..|values| - 1]);
      assert values[..|values| - 1][1..] == values[1..][..|values| - 2];
    }
  }

  /** What a filter keeps of a list in order is in order. */
  lemma {:induction false} FilterChronological(items: seq<Timed>, keep: Timed -> bool)
    requires Chronological(items)
    ensures Chronological(Filter(items, keep))
  {
    hide DictionaryLess;
    if items != [] {
      var init, last := items[..|items| - 1], items[|items| - 1];
      FilterChronological(init, keep);
      var kept := Filter(init, keep);
      FilterMembers(init, keep);
      forall i | 0 <= i < |kept|
        ensures exists k :: 0 <= k < |init| && init[k] == kept[i]
      {
        assert kept[i] in init;
      }
    }
  }

  /** Lists in order with the same members are the same. */
  lemma SameList(a: seq<Timed>, b: seq<Timed>)
    requires Chronological(a) && Chronological(b) && forall t :: t in a <==> t in b
    ensures a == b
  {
    hide DictionaryLess, TimedLess;
    ChronologicalExactly(a);
    ChronologicalExactly(b);
    TimedWeak();
    assert ToSet(a) == ToSet(b);
    StrictlySortedUnique(TimedLess, a, b);
  }

  lemma CloseExactly(price: nat, center: nat)
    ensures WithinBps(price, center, MAX_OBSERVATION_BPS) <==> CloseTo(price, center)
  {
  }

  lemma OfPool(address: string)
    ensures forall t: Timed :: InPool(address)(t) <==> t.value.poolAddress == address
  {
    forall t: Timed
      ensures InPool(address)(t) <==> t.value.poolAddress == address
    {
      assert InPool(address)(t) == (PoolKey(t) == address);
    }
  }

  lemma OwnExactly(items: seq<Timed>, address: string, own: seq<Timed>)
    requires Chronological(items)
    ensures OwnOf(items, address, own) <==> own == OwnItems(items, address)
  {
    hide Chronological, Filter;
    var mine := OwnItems(items, address);
    FilterMembers(items, InPool(address));
    FilterChronological(items, InPool(address));
    OfPool(address);
    assert OwnOf(items, address, mine);
    if OwnOf(items, address, own) { SameList(own, mine); }
  }

  lemma NearExactly(own: seq<Timed>, center: nat, accepted: seq<Timed>)
    requires Chronological(own)
    ensures NearTo(own, center, accepted) <==> accepted == Filter(own, NearCenter(center))
  {
    hide Chronological, Filter, WithinBps, CloseTo;
    var near := Filter(own, NearCenter(center));
    FilterMembers(own, NearCenter(center));
    FilterChronological(own, NearCenter(center));
    forall t: Timed
      ensures NearCenter(center)(t) <==> CloseTo(t.price, center)
    {
      CloseExactly(t.price, center);
    }
    assert NearTo(own, center, near);
    if NearTo(own, center, accepted) { SameList(accepted, near); }
  }

  /** Where a pool's median can be computed, what counts of it is what the tape accepts. */
  lemma CountedExactly(items: seq<Timed>, address: string, accepted: seq<Timed>)
    requires Chronological(items) && Median(Prices(OwnItems(items, address))).Some?
    ensures Counted(items, address, accepted) <==> accepted == AcceptedItems(items, address)
  {
    hide Chronological, Filter, Median, IsMedian, OwnOf, NearTo;
    var mine := OwnItems(items, address);
    assert Prices(mine) == PricesIn(mine);
    MedianExactly(Prices(mine));
    var center := Median(Prices(mine)).value;
    FilterChronological(items, InPool(address));
    OwnExactly(items, address, mine);
    NearExactly(mine, center, accepted);
    if Counted(items, address, accepted) {
      var own, other :| OwnOf(items, address, own) && IsMedian(PricesIn(own), other) && NearTo(own, other, accepted);
      OwnExactly(items, address, own);
      MedianUnique(PricesIn(own), center, other);
    }
  }

  /** Without observations of its own a pool counts for nothing. */
  lemma NothingCounted(items: seq<Timed>, address: string, accepted: seq<Timed>)
    requires Chronological(items) && OwnItems(items, address) == []
    ensures !Counted(items, address, accepted) && AcceptedItems(items, address) == []
  {
    hide Chronological, Filter, OwnOf;
    forall own | OwnOf(items, address, own)
      ensures own == []
    {
      OwnExactly(items, address, own);
    }
  }

  /** Each pool's median can be computed, or it has no observations. */
  ghost predicate Centered(items: seq<Timed>) {
    forall address :: OwnItems(items, address) == [] || Median(Prices(OwnItems(items, address))).Some?
  }

  lemma CountedIff(items: seq<Timed>, address: string)
    requires Chronological(items) && Centered(items)
    ensures forall accepted :: Counted(items, address, accepted) ==> accepted == AcceptedItems(items, address)
    ensures AcceptedItems(items, address) != [] ==> Counted(items, address, AcceptedItems(items, address))
  {
    hide Chronological, Median, Counted, AcceptedItems, OwnItems;
    forall accepted
      ensures Counted(items, address, accepted) ==> accepted == AcceptedItems(items, address)
      ensures AcceptedItems(items, address) != [] ==> Counted(items, address, AcceptedItems(items, address))
    {
      if OwnItems(items, address) == [] {
        NothingCounted(items, address, accepted);
      } else {
        CountedExactly(items, address, accepted);
        CountedExactly(items, address, AcceptedItems(items, address));
      }
    }
  }

  lemma QualifiesExactly(items: seq<Timed>, address: string)
    requires Chronological(items) && Centered(items)
    ensures Qualifies(items, address) <==> Qualified(items, address)
  {
    hide Chronological, Centered, Counted, AcceptedItems;
    CountedIff(items, address);
    TotalsAgree(AcceptedItems(items, address));
  }

  lemma ShownExactly(items: seq<Timed>, p: PoolVwap)
    requires Chronological(items) && Centered(items) && forall t <- items :: Usable(t)
    ensures Shown(items, p) <==> Summarises(items, p)
  {
    hide Chronological, Centered, Counted, AcceptedItems, Sums, Usable, Summarises;
    CountedIff(items, p.poolAddress);
    SumsExactly(items, p);
  }

  lemma NothingChronological()
    ensures Chronological([])
  {
  }

  lemma AcceptedChronological(items: seq<Timed>, address: string)
    requires Chronological(items)
    ensures Chronological(AcceptedItems(items, address))
    ensures forall t <- AcceptedItems(items, address) :: t in items && t.value.poolAddress == address
  {
    hide Chronological, Filter, Median;
    var own := OwnItems(items, address);
    FilterMembers(items, InPool(address));
    FilterChronological(items, InPool(address));
    OfPool(address);
    assert forall t <- own :: t in items && t.value.poolAddress == address;
    if Median(Prices(own)).Some? {
      FilterMembers(own, NearCenter(Median(Prices(own)).value));
      FilterChronological(own, NearCenter(Median(Prices(own)).value));
    } else {
      assert AcceptedItems(items, address) == [] && Chronological([]) by { NothingChronological(); }
    }
  }

  lemma AverageExactly(items: seq<Timed>, price: nat)
    requires items != [] && forall t <- items :: Usable(t)
    ensures MicroUsd(TotalStable(items), TotalSol(items)) == Some(price) <==>
            TotalStable(items) * 1_000_000_000 < TWO_128
            && FloorOf(price, TotalStable(items) * 1_000_000_000, TotalSol(items))
  {
    hide Usable;
    forall t | t in items
      ensures Priced(t)
    {
      UsablePriced(t);
    }
    TotalsAgree(items);
    FxFailure.Positive(items);
    FxFailure.AverageDefined(items);
    FloorExactly(price, TotalStable(items) * 1_000_000_000, TotalSol(items));
  }

  lemma UsablePriced(t: Timed)
    requires Usable(t)
    ensures Priced(t)
  {
    UsableExactly(t);
    TimedPriced(t.value);
  }

  lemma FirstAndLast(items: seq<Timed>)
    requires Chronological(items) && items != []
    ensures forall t <- items :: items[0].observedMs <= t.observedMs <= items[|items| - 1].observedMs
  {
    hide DictionaryLess;
  }

  lemma SumsExactly(items: seq<Timed>, p: PoolVwap)
    requires Chronological(items) && forall t <- items :: Usable(t)
    ensures Summarises(items, p) <==> Sums(AcceptedItems(items, p.poolAddress), p)
    ensures Sums(AcceptedItems(items, p.poolAddress), p) ==> AcceptedItems(items, p.poolAddress) != []
  {
    hide Centered, AcceptedItems, Usable, Chronological;
    var accepted := AcceptedItems(items, p.poolAddress);
    TotalsAgree(accepted);
    AcceptedChronological(items, p.poolAddress);
    if accepted != [] {
      AverageExactly(accepted, p.price);
      FirstAndLast(accepted);
      assert accepted[0] in accepted;
      assert Ids(accepted) == p.sourceEventIds <==>
             |p.sourceEventIds| == |accepted|
             && forall i :: 0 <= i < |accepted| ==> p.sourceEventIds[i] == accepted[i].value.sourceEventId;
    }
  }

  // ---------------------------------------------------------------------------------
  // Points

  ghost predicate Lists(pools: seq<PoolVwap>, address: string) {
    exists p <- pools :: p.poolAddress == address
  }

  /** All pools of a bucket that qualify, in the dictionary order of their addresses. */
  ghost predicate AllShown(items: seq<Timed>, pools: seq<PoolVwap>) {
    && (forall p <- pools :: Shown(items, p))
    && (forall address :: Lists(pools, address) <==> Qualifies(items, address))
    && (forall i, j :: 0 <= i < j < |pools| ==>
          DictionaryLess(pools[i].poolAddress, pools[j].poolAddress))
  }

  function PoolPricesIn(pools: seq<PoolVwap>): seq<nat> {
    seq(|pools|, i requires 0 <= i < |pools| => pools[i].price)
  }

  function Apart(x: nat, y: nat): nat { if x < y then y - x else x - y }

  /** A bucket is published if a pool qualifies and, of several, no two are 201 hundredths of a percent apart. */
  ghost predicate Published(pools: seq<PoolVwap>) {
    && pools != []
    && (|pools| > 1 ==>
          exists m: nat :: IsMedian(PoolPricesIn(pools), m)
                      && forall p, q :: p in pools && q in pools ==> Apart(p.price, q.price) * 10_000 < 201 * m)
  }

  function Listings(pools: seq<PoolVwap>): nat {
    if pools == [] then 0 else |pools[0].sourceEventIds| + Listings(pools[1..])
  }

  /** The widest gap of two pools in hundredths of a percent of the published price, floored. */
  ghost predicate Spread(point: Point) {
    && (forall p, q :: p in point.pools && q in point.pools ==>
          Apart(p.price, q.price) * 10_000 < (point.poolSpreadBps + 1) * point.price)
    && (exists p, q ::
          p in point.pools && q in point.pools
          && point.poolSpreadBps * point.price <= Apart(p.price, q.price) * 10_000)
  }

  ghost predicate ListedIn(point: Point, t: Timed) {
    exists p <- point.pools :: p.poolAddress == t.value.poolAddress && t.value.sourceEventId in p.sourceEventIds
  }

  /** The least confidence listed, but at most 0.99 across pools and 0.90 for a single one. */
  ghost predicate Confident(items: seq<Timed>, point: Point) {
    var cap := if |point.pools| > 1 then 0.99 else 0.90;
    && point.confidence <= cap
    && (forall t <- items :: ListedIn(point, t) && t.value.confidence.Some? ==>
          point.confidence <= t.value.confidence.value)
    && (point.confidence == cap
        || exists t <- items :: ListedIn(point, t) && t.value.confidence == Some(point.confidence))
  }

  /** Everything a point says, of the usable observations of its bucket. */
  ghost predicate PointMeans(items: seq<Timed>, bucket: int, point: Point) {
    && point.bucketStart == bucket && point.inputCount == |items|
    && AllShown(items, point.pools)
    && IsMedian(PoolPricesIn(point.pools), point.price) && point.price > 0
    && Spread(point)
    && point.quality == (if |point.pools| > 1 then CrossPool else SinglePool)
    && (|point.pools| > 1 ==> point.poolSpreadBps <= 200)
    && (forall p <- point.pools :: p.lastMs <= point.observedMs)
    && (exists p <- point.pools :: p.lastMs == point.observedMs)
    && point.validUntilMs == point.observedMs + 90_000
    && point.observationCount == Listings(point.pools)
    && Confident(items, point)
  }

  lemma AllShownExactly(items: seq<Timed>, pools: seq<PoolVwap>)
    requires Chronological(items) && Centered(items) && forall t <- items :: Usable(t)
    ensures AllShown(items, pools) <==> AllQualified(items, pools)
  {
    hide Chronological, Centered, Shown, Summarises, Qualifies, Qualified, Usable, LexLess, DictionaryLess;
    forall p
      ensures Shown(items, p) <==> Summarises(items, p)
    {
      ShownExactly(items, p);
    }
    forall address
      ensures Qualifies(items, address) <==> Qualified(items, address)
      ensures Lists(pools, address) <==> Mentions(pools, address)
    {
      QualifiesExactly(items, address);
    }
    forall i, j | 0 <= i < j < |pools|
      ensures LexLess(pools[i].poolAddress, pools[j].poolAddress) <==>
              DictionaryLess(pools[i].poolAddress, pools[j].poolAddress)
    {
      DictionaryExactly(pools[i].poolAddress, pools[j].poolAddress);
    }
  }

  lemma {:induction false} ListingsAgree(pools: seq<PoolVwap>)
    ensures Listed(pools) == Listings(pools)
  {
    if pools != [] {
      ListingsAgree(pools[1..]);
      ListedFirst(pools);
    }
  }

  lemma {:induction false} ListedFirst(pools: seq<PoolVwap>)
    requires pools != []
    ensures Listed(pools) == |pools[0].sourceEventIds| + Listed(pools[1..])
  {
    if |pools| > 1 {
      ListedFirst(pools[..|pools| - 1]);
      assert pools[..|pools| - 1][1..] == pools[1..][..|pools| - 2];
    }
  }

  /** No two observations of a bucket are of one source event. */
  ghost predicate SourcesApart(items: seq<Timed>) {
    forall t, u :: t in items && u in items && t.value.sourceEventId == u.value.sourceEventId ==> t == u
  }

  lemma ListedExactly(items: seq<Timed>, point: Point, t: Timed)
    requires Chronological(items) && SourcesApart(items) && t in items
    requires forall p <- point.pools :: Summarises(items, p)
    ensures ListedIn(point, t) <==> exists p <- point.pools :: t in AcceptedItems(items, p.poolAddress)
  {
    hide Chronological, AcceptedItems, MicroUsd, Sum;
    forall p | p in point.pools
      ensures p.poolAddress == t.value.poolAddress && t.value.sourceEventId in p.sourceEventIds
              <==> t in AcceptedItems(items, p.poolAddress)
    {
      var accepted := AcceptedItems(items, p.poolAddress);
      AcceptedChronological(items, p.poolAddress);
      if t.value.sourceEventId in p.sourceEventIds {
        var k :| 0 <= k < |accepted| && Ids(accepted)[k] == t.value.sourceEventId;
        assert accepted[k] in accepted;
      }
      if t in accepted {
        var k :| 0 <= k < |accepted| && accepted[k] == t;
        assert Ids(accepted)[k] == t.value.sourceEventId && Ids(accepted)[k] in Ids(accepted);
      }
    }
  }

  lemma ConfidentExactly(items: seq<Timed>, point: Point)
    requires Chronological(items) && SourcesApart(items) && ConfidenceTold(items, point)
    requires forall p <- point.pools :: Summarises(items, p)
    requires point.quality == CrossPool <==> |point.pools| > 1
    ensures Confident(items, point)
  {
    hide Chronological, SourcesApart, AcceptedItems, Summarises, ListedIn;
    forall t | t in items
      ensures ListedIn(point, t) <==> exists p <- point.pools :: t in AcceptedItems(items, p.poolAddress)
    {
      ListedExactly(items, point, t);
    }
    forall p, t | p in point.pools && t in AcceptedItems(items, p.poolAddress)
      ensures t in items
    {
      AcceptedChronological(items, p.poolAddress);
    }
  }

  lemma PointExactly(items: seq<Timed>, bucket: int, point: Point)
    requires Chronological(items) && Centered(items) && SourcesApart(items) && forall t <- items :: Usable(t)
    requires PointTells(items, bucket, point)
    ensures PointMeans(items, bucket, point)
  {
    hide Chronological, Centered, SourcesApart, Usable, Summarises, Median, IsMedian, ConfidenceTold, Confident,
         AllShown, LexLess, Mentions, Qualified;
    AllShownExactly(items, point.pools);
    assert PricesOf(point.pools) == PoolPricesIn(point.pools);
    MedianExactly(PoolPricesIn(point.pools));
    ListingsAgree(point.pools);
    ConfidentExactly(items, point);
    assert Spread(point);
  }

  lemma PublishedExactly(pools: seq<PoolVwap>)
    requires pools != [] ==> Median(PricesOf(pools)).Some?
    requires forall p <- pools :: p.price > 0
    ensures Published(pools) <==> Publishable(pools)
  {
    hide Median, IsMedian;
    if pools != [] {
      assert PricesOf(pools) == PoolPricesIn(pools);
      MedianExactly(PoolPricesIn(pools));
      var m := Median(PoolPricesIn(pools)).value;
      MedianPositive(pools, m);
      GapWithin(pools, m);
      forall other: nat | IsMedian(PoolPricesIn(pools), other)
        ensures other == m
      {
        MedianUnique(PoolPricesIn(pools), m, other);
      }
    }
  }

  lemma MedianPositive(pools: seq<PoolVwap>, m: nat)
    requires (forall p <- pools :: p.price > 0) && Median(PoolPricesIn(pools)) == Some(m)
    ensures m > 0
  {
    hide Median;
    MedianBetween(PoolPricesIn(pools), m);
    var i :| 0 <= i < |pools| && PoolPricesIn(pools)[i] == MinOf(PoolPricesIn(pools));
    assert pools[i] in pools;
  }

  /** The floored spread is at most 200 exactly if every gap is below 201. */
  lemma GapWithin(pools: seq<PoolVwap>, m: nat)
    requires pools != [] && m > 0
    ensures SpreadBps(PricesOf(pools), m) <= 200 <==>
            forall p, q :: p in pools && q in pools ==> Apart(p.price, q.price) * 10_000 < 201 * m
  {
    var prices := PricesOf(pools);
    FloorDivision(Width(prices) * 10_000, m);
    var i :| 0 <= i < |pools| && prices[i] == MinOf(prices);
    var j :| 0 <= j < |pools| && prices[j] == MaxOf(prices);
    assert pools[i] in pools && pools[j] in pools && Apart(pools[i].price, pools[j].price) == Width(prices);
    var bps := SpreadBps(prices, m);
    if bps <= 200 { Scale(bps + 1, 201, m); } else { Scale(201, bps, m); }
    forall p | p in pools
      ensures MinOf(prices) <= p.price <= MaxOf(prices)
    {
      var k :| 0 <= k < |pools| && pools[k] == p;
      assert prices[k] in prices;
    }
  }

  // ---------------------------------------------------------------------------------
  // What can fail

  /** The instants a calendar date can hold. */
  predicate Dated(ms: int) { -8_334_601_228_800_000 <= ms <= 8_210_266_876_799_999 }

  /** A pool's middle prices can be added, what counts can be summed, and what is listed has an average and a date. */
  ghost predicate PoolFits(items: seq<Timed>, bucket: int, address: string) {
    && (forall own :: OwnOf(items, address, own) ==> MiddleFits(PricesIn(own)))
    && (forall accepted :: Counted(items, address, accepted) && accepted != [] ==> SumsFit(accepted, bucket))
  }

  predicate SumsFit(accepted: seq<Timed>, bucket: int) {
    && TotalSol(accepted) < TWO_128 && TotalStable(accepted) < TWO_128
    && (TotalStable(accepted) >= 100_000_000 ==> TotalStable(accepted) * 1_000_000_000 < TWO_128 && Dated(bucket))
  }

  /** The middle averages can be added, the widest gap can be scaled, and what is published has an end of validity. */
  ghost predicate PointFits(bucket: int, pools: seq<PoolVwap>) {
    && MiddleFits(PoolPricesIn(pools))
    && (forall p, q :: p in pools && q in pools ==> Apart(p.price, q.price) * 10_000 < TWO_128)
    && (Published(pools) ==> Dated(bucket + 90_000))
  }

  ghost predicate BucketFits(items: seq<Timed>, bucket: int) {
    && (forall address :: PoolFits(items, bucket, address))
    && (forall pools :: AllShown(items, pools) && pools != [] ==> PointFits(bucket, pools))
  }

  lemma PoolFitsExactly(items: seq<Timed>, bucket: int, address: string)
    requires Chronological(items)
    ensures PoolFits(items, bucket, address) <==>
            OwnItems(items, address) == [] || FxFailure.PoolComputable(items, bucket, address)
  {
    hide Chronological, Counted, AcceptedItems, OwnItems, Median, MiddleFits, OwnOf;
    var own, accepted := OwnItems(items, address), AcceptedItems(items, address);
    assert Prices(own) == PricesIn(own);
    forall other
      ensures OwnOf(items, address, other) <==> other == own
    {
      OwnExactly(items, address, other);
    }
    TotalsAgree(accepted);
    if own == [] {
      NoMiddle();
      forall other
        ensures !Counted(items, address, other)
      {
        NothingCounted(items, address, other);
      }
    } else if MiddleFits(Prices(own)) {
      MedianExactly(Prices(own));
      forall other
        ensures Counted(items, address, other) <==> other == accepted
      {
        CountedExactly(items, address, other);
      }
      assert Counted(items, address, accepted);
      assert Qualified(items, address) <==> accepted != [] && TotalStable(accepted) >= 100_000_000;
      assert accepted != [] ==> (SumsFit(accepted, bucket) <==>
                                 Sum(Sols(accepted)) < U128_LIMIT && Sum(Stables(accepted)) < U128_LIMIT
                                 && (Qualified(items, address) ==>
                                       Sum(Stables(accepted)) * 1_000_000_000 < U128_LIMIT && TimestampFits(bucket)));
    }
  }

  lemma NoMiddle()
    ensures MiddleFits([])
  {
  }

  lemma PointFitsExactly(bucket: int, pools: seq<PoolVwap>)
    requires pools != [] && forall p <- pools :: p.price > 0
    ensures PointFits(bucket, pools) <==> FxFailure.PointComputable(bucket, pools)
  {
    hide Median, IsMedian, MiddleFits, Published, Publishable;
    assert PricesOf(pools) == PoolPricesIn(pools);
    GapFits(pools);
    if MiddleFits(PricesOf(pools)) {
      MedianExactly(PricesOf(pools));
      PublishedExactly(pools);
    }
  }

  lemma GapFits(pools: seq<PoolVwap>)
    requires pools != []
    ensures Width(PricesOf(pools)) * 10_000 < TWO_128 <==>
            forall p, q :: p in pools && q in pools ==> Apart(p.price, q.price) * 10_000 < TWO_128
  {
    var prices := PricesOf(pools);
    var i :| 0 <= i < |pools| && prices[i] == MinOf(prices);
    var j :| 0 <= j < |pools| && prices[j] == MaxOf(prices);
    assert pools[i] in pools && pools[j] in pools && Apart(pools[i].price, pools[j].price) == Width(prices);
    forall p | p in pools
      ensures MinOf(prices) <= p.price <= MaxOf(prices)
    {
      var k :| 0 <= k < |pools| && pools[k] == p;
      assert prices[k] in prices;
    }
  }

  lemma BucketFitsExactly(items: seq<Timed>, bucket: int)
    requires Chronological(items) && forall t <- items :: Usable(t)
    ensures BucketFits(items, bucket) <==> FxFailure.BucketComputable(items, bucket)
    ensures BucketFits(items, bucket) ==> Centered(items)
  {
    hide Chronological, Usable, PoolFits, PointFits, AllShown, AllQualified, FxFailure.PoolComputable,
         FxFailure.PointComputable, OwnItems, PoolAddresses, Centered;
    forall address
      ensures PoolFits(items, bucket, address) <==>
              address !in PoolAddresses(items) || FxFailure.PoolComputable(items, bucket, address)
    {
      PoolFitsExactly(items, bucket, address);
      OwnAddresses(items, address);
    }
    if forall address <- PoolAddresses(items) :: FxFailure.PoolComputable(items, bucket, address) {
      ComputableCentered(items, bucket);
      forall pools | pools != []
        ensures AllShown(items, pools) <==> AllQualified(items, pools)
        ensures AllQualified(items, pools) ==> (PointFits(bucket, pools) <==> FxFailure.PointComputable(bucket, pools))
      {
        AllShownExactly(items, pools);
        if AllQualified(items, pools) {
          PoolsPositive(items, pools);
          PointFitsExactly(bucket, pools);
        }
      }
      NoPoint(bucket);
    }
  }

  lemma NoPoint(bucket: int)
    ensures FxFailure.PointComputable(bucket, [])
  {
  }

  lemma OwnAddresses(items: seq<Timed>, address: string)
    ensures OwnItems(items, address) == [] <==> address !in PoolAddresses(items)
  {
    hide Filter;
    FilterMembers(items, InPool(address));
    OfPool(address);
    var own := OwnItems(items, address);
    forall i | 0 <= i < |items|
      ensures PoolAddresses(items)[i] == items[i].value.poolAddress
    {
      assert PoolAddresses(items)[i] == PoolKey(items[i]);
    }
    if own != [] {
      assert own[0] in own && own[0] in items;
      var i :| 0 <= i < |items| && items[i] == own[0];
      assert PoolAddresses(items)[i] == address;
    }
    if address in PoolAddresses(items) { FxFailure.OwnNotEmpty(items, address); }
  }

  lemma ComputableCentered(items: seq<Timed>, bucket: int)
    requires forall address <- PoolAddresses(items) :: FxFailure.PoolComputable(items, bucket, address)
    ensures Centered(items)
  {
    hide OwnItems, PoolAddresses, Median, MiddleFits, AcceptedItems, Qualified;
    forall address
      ensures OwnItems(items, address) == [] || Median(Prices(OwnItems(items, address))).Some?
    {
      OwnAddresses(items, address);
      MedianExactly(Prices(OwnItems(items, address)));
    }
  }

  lemma PoolsPositive(items: seq<Timed>, pools: seq<PoolVwap>)
    requires AllQualified(items, pools)
    ensures forall p <- pools :: p.price > 0
  {
    hide AcceptedItems, Qualified, LexLess;
  }

  // ---------------------------------------------------------------------------------
  // The tape

  ghost predicate SourcesOnce(os: seq<Observation>) {
    forall i, j :: 0 <= i < j < |os| ==> os[i].sourceEventId != os[j].sourceEventId
  }

  ghost predicate CanBeUsed(o: Observation) { exists t: Timed :: t.value == o && Usable(t) }

  ghost predicate InRange(os: seq<Observation>, bucket: int) {
    forall items :: ItemsOf(os, bucket, items) && items != [] ==> BucketFits(items, bucket)
  }

  /** The bucket has a point exactly if the pools that qualify in it can be published. */
  ghost predicate Decided(os: seq<Observation>, tape: seq<Point>, bucket: int) {
    exists items, pools ::
      ItemsOf(os, bucket, items) && AllShown(items, pools)
      && (Published(pools) <==> exists point <- tape :: point.bucketStart == bucket)
  }

  ghost predicate Meant(os: seq<Observation>, point: Point) {
    exists items :: ItemsOf(os, point.bucketStart, items) && PointMeans(items, point.bucketStart, point)
  }

  lemma UsedExactly(o: Observation)
    ensures CanBeUsed(o) <==> TimeOne(o).Some?
    ensures forall t: Timed :: t.value == o && Usable(t) ==> TimeOne(o) == Some(t)
  {
    hide Usable, TimeOne;
    forall t: Timed | t.value == o
      ensures Usable(t) <==> TimeOne(o) == Some(t)
    {
      UsableExactly(t);
    }
    if TimeOne(o).Some? {
      TimedKeepsValue(o);
      assert Usable(TimeOne(o).value);
    }
  }

  lemma ItemsUnique(os: seq<Observation>, bucket: int, items: seq<Timed>)
    requires TimeAll(os).Some? && ItemsOf(os, bucket, items)
    ensures items == BucketItems(TimeAll(os).value, bucket)
  {
    hide TimeAll, BucketItems, Usable, InBucketOf;
    BucketMeans(os, bucket);
    SameList(items, BucketItems(TimeAll(os).value, bucket));
  }

  lemma ItemsApart(os: seq<Observation>, bucket: int, items: seq<Timed>)
    requires SourcesOnce(os) && ItemsOf(os, bucket, items)
    ensures SourcesApart(items)
  {
    hide TimeOne, Usable, InBucketOf, Chronological;
    forall t, u | t in items && u in items && t.value.sourceEventId == u.value.sourceEventId
      ensures t == u
    {
      var i :| 0 <= i < |os| && os[i] == t.value;
      var j :| 0 <= j < |os| && os[j] == u.value;
      UsableExactly(t);
      UsableExactly(u);
    }
  }

  lemma RangeExactly(os: seq<Observation>, bucket: int)
    requires TimeAll(os).Some?
    ensures InRange(os, bucket) <==>
            BucketItems(TimeAll(os).value, bucket) == []
            || FxFailure.BucketComputable(BucketItems(TimeAll(os).value, bucket), bucket)
  {
    hide TimeAll, BucketItems, BucketFits, FxFailure.BucketComputable, Usable, InBucketOf, Chronological;
    var mine := BucketItems(TimeAll(os).value, bucket);
    BucketMeans(os, bucket);
    BucketFitsExactly(mine, bucket);
    forall items | ItemsOf(os, bucket, items)
      ensures items == mine
    {
      ItemsUnique(os, bucket, items);
    }
  }

  /**
   * There is a tape exactly if every observation is usable, no source event repeats and every
   * bucket's numbers stay in range.
   */
  lemma TapeExists(os: seq<Observation>)
    ensures Tape(os).Some? <==>
            (forall o <- os :: CanBeUsed(o)) && SourcesOnce(os) && forall bucket :: InRange(os, bucket)
  {
    hide Tape, TimeAll, TimeOne, BucketItems, InRange, CanBeUsed, FxFailure.BucketComputable, BucketOf;
    FxFailure.TapeExactly(os);
    TimeAllExact(os);
    assert NoDup(ObservationIds(os)) <==> SourcesOnce(os) by {
      assert forall i :: 0 <= i < |os| ==> ObservationIds(os)[i] == os[i].sourceEventId;
    }
    forall o
      ensures CanBeUsed(o) <==> TimeOne(o).Some?
    {
      UsedExactly(o);
    }
    if TimeAll(os).Some? {
      var ts := TimeAll(os).value;
      assert ts == FxFailure.Timings(os);
      forall bucket
        ensures InRange(os, bucket) <==>
                BucketItems(ts, bucket) == [] || FxFailure.BucketComputable(BucketItems(ts, bucket), bucket)
      {
        RangeExactly(os, bucket);
      }
      forall o | o in os
        ensures BucketItems(ts, BucketOf(TimeOne(o).value.observedMs)) != []
      {
        HasItems(os, o);
      }
      forall bucket | BucketItems(ts, bucket) != []
        ensures exists o <- os :: BucketOf(TimeOne(o).value.observedMs) == bucket
      {
        ItemsFromBucket(os, bucket);
        var t := BucketItems(ts, bucket)[0];
        assert t in BucketItems(ts, bucket) && t.value in os && TimeOne(t.value) == Some(t);
      }
    }
  }

  lemma HasItems(os: seq<Observation>, o: Observation)
    requires TimeAll(os).Some? && o in os && TimeOne(o).Some?
    ensures BucketItems(TimeAll(os).value, BucketOf(TimeOne(o).value.observedMs)) != []
  {
    hide TimeAll, TimeOne, BucketItems, BucketOf;
    var t := TimeOne(o).value;
    TimedKeepsValue(o);
    BucketItemsExact(os, BucketOf(t.observedMs));
    assert t in BucketItems(TimeAll(os).value, BucketOf(t.observedMs));
  }

  /**
   * What a tape says: its points come in increasing buckets, each says what its bucket's usable
   * observations are worth, and a bucket with observations has a point exactly if the pools that
   * qualify in it can be published.
   */
  lemma TapeMeans(os: seq<Observation>)
    requires Tape(os).Some?
    ensures forall point <- Tape(os).value :: Meant(os, point)
    ensures forall i, j :: 0 <= i < j < |Tape(os).value| ==>
              Tape(os).value[i].bucketStart < Tape(os).value[j].bucketStart
    ensures forall t: Timed, bucket ::
              t.value in os && Usable(t) && InBucketOf(t.observedMs, bucket) ==> Decided(os, Tape(os).value, bucket)
  {
    hide Tape, TimeAll, TimeOne, BucketItems, Usable, InBucketOf, PointTells, PointMeans, BucketTold, BucketOf, InRange;
    TapeSelected(os);
    TapeExists(os);
    Timing(os);
    var ts, tape := TimeAll(os).value, Tape(os).value;
    forall point | point in tape
      ensures Meant(os, point)
    {
      PointIsMeant(os, point);
    }
    forall t: Timed, bucket | t.value in os && Usable(t) && InBucketOf(t.observedMs, bucket)
      ensures Decided(os, tape, bucket)
    {
      UsedExactly(t.value);
      BucketExactly(t.observedMs, bucket);
      BucketDecided(os, bucket);
    }
  }

  lemma Timing(os: seq<Observation>)
    requires Tape(os).Some?
    ensures TimeAll(os).Some?
  {
  }

  lemma BucketIsUsable(os: seq<Observation>, bucket: int)
    requires Tape(os).Some? && TimeAll(os).Some?
    ensures var items := BucketItems(TimeAll(os).value, bucket);
            && ItemsOf(os, bucket, items) && Chronological(items) && SourcesApart(items)
            && (forall t <- items :: Usable(t)) && (items != [] ==> Centered(items))
  {
    hide Tape, TimeAll, BucketItems, Usable, InBucketOf, Chronological, SourcesApart, Centered, BucketFits, CanBeUsed;
    TapeExists(os);
    var items := BucketItems(TimeAll(os).value, bucket);
    BucketMeans(os, bucket);
    ItemsApart(os, bucket, items);
    assert InRange(os, bucket);
    BucketFitsExactly(items, bucket);
  }

  lemma PointIsMeant(os: seq<Observation>, point: Point)
    requires Tape(os).Some? && TimeAll(os).Some?
    requires PointTells(BucketItems(TimeAll(os).value, point.bucketStart), point.bucketStart, point)
    ensures Meant(os, point)
  {
    hide Tape, TimeAll, BucketItems, Usable, InBucketOf, Chronological, SourcesApart, Centered, PointMeans, ItemsOf,
         PointTells;
    var items := BucketItems(TimeAll(os).value, point.bucketStart);
    BucketIsUsable(os, point.bucketStart);
    PointHasItems(items, point.bucketStart, point);
    PointExactly(items, point.bucketStart, point);
  }

  lemma PointHasItems(items: seq<Timed>, bucket: int, point: Point)
    requires PointTells(items, bucket, point)
    ensures items != []
  {
    hide Median, Summarises, Qualified, SpreadTold, ConfidenceTold, LexLess;
    var p :| p in point.pools && p.lastMs == point.observedMs;
    assert Mentions(point.pools, p.poolAddress);
    if items == [] { NobodyQualifies(items, p.poolAddress); }
  }

  lemma BucketDecided(os: seq<Observation>, bucket: int)
    requires Tape(os).Some? && TimeAll(os).Some? && BucketTold(TimeAll(os).value, Tape(os).value, bucket)
    requires exists o <- os :: TimeOne(o).Some? && BucketOf(TimeOne(o).value.observedMs) == bucket
    ensures Decided(os, Tape(os).value, bucket)
  {
    hide Tape, TimeAll, TimeOne, BucketItems, Usable, InBucketOf, Chronological, SourcesApart, Centered, ItemsOf,
         AllQualified, AllShown, Published, Publishable, BucketOf;
    var items := BucketItems(TimeAll(os).value, bucket);
    var o :| o in os && TimeOne(o).Some? && BucketOf(TimeOne(o).value.observedMs) == bucket;
    HasItems(os, o);
    BucketIsUsable(os, bucket);
    var pools :| AllQualified(items, pools) && (Publishable(pools) <==> HasPoint(Tape(os).value, bucket));
    AllShownExactly(items, pools);
    PoolsPositive(items, pools);
    RangeOfPools(os, bucket, items, pools);
    PublishedExactly(pools);
  }

  lemma RangeOfPools(os: seq<Observation>, bucket: int, items: seq<Timed>, pools: seq<PoolVwap>)
    requires Tape(os).Some? && ItemsOf(os, bucket, items) && items != [] && AllShown(items, pools)
    ensures pools != [] ==> Median(PricesOf(pools)).Some?
  {
    hide Tape, ItemsOf, AllShown, Median, MiddleFits, CanBeUsed, PoolFits;
    TapeExists(os);
    assert InRange(os, bucket) && BucketFits(items, bucket);
    if pools != [] {
      assert PointFits(bucket, pools) && PricesOf(pools) == PoolPricesIn(pools);
      MedianExactly(PricesOf(pools));
    }
  }
}
