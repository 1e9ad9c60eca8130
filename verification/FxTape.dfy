/** The SOL/USD reference tape as a function of its observations. */
module FxTape {
  // Validation, 30-second buckets, per-pool outlier rejection and volume-weighted price, and the
  // cross-pool median. None stands for every error of the source; the error texts differ with the
  // input order.

  import opened Common
  import opened Ordering

  type u128 = n: nat | n < U128_LIMIT

  datatype Venue =
    | PumpFun | PumpSwap | RaydiumAmmV4 | RaydiumClmm | RaydiumCpmm
    | RaydiumLaunchlab | MeteoraDlmm | MeteoraDbc | OrcaWhirlpool
  {
    function ProgramId(): string {
      match this
      case PumpFun => "6EF8rrecthR5Dkzon8Nwu78hRvfCKubJ14M5uBEwF6P"
      case PumpSwap => "pAMMBay6oceH9fJKBRHGP5D4bD4sWpmSwMn52FMfXEA"
      case RaydiumAmmV4 => "675kPX9MHTjS2zt1qfr1NYHuzeLXfQM9H24wFSUt1Mp8"
      case RaydiumClmm => "CAMMCzo5YL8w4VFF8KVHrK22GGUsp5VTaW7grrKgrWqK"
      case RaydiumCpmm => "CPMMoo8L3F4NbTegBCKVNunggL7H1ZpdTHKxQB5qKP1C"
      case RaydiumLaunchlab => "LanMV9sAd7wArD4vJFi2qDdfnVhFxYSUg6eADduJ3uj"
      case MeteoraDlmm => "LBUZKhRxPF3XUpBCjp4YzTKgLccjZhTSDM9YuVaPwxo"
      case MeteoraDbc => "dbcij3LWUppWqq96dh6gJWwBifmcGfLSB5D4DuSMaqN"
      case OrcaWhirlpool => "whirLbMiicVdio4qvUfM5KAg6Ct8VwpYzGff3uctyCc"
    }
  }

  datatype Pool = Pool(address: string, venue: Venue, stableMint: string)

  const USDC_MINT := "EPjFWdd5AufqSSqeM2qN1xzybapC8G4wEGGkZwyTDt1v"
  const USDT_MINT := "Es9vMFrzaCERmJfrF4H2FYD4KCoNkY11McCe8BenwNYB"
  const FX_CONTRACT := "fervor-fx-observation-v1"
  const FX_POLICY := "fervor-sol-usd-v1"
  const FX_POOLS: seq<Pool> := [
    Pool("58oQChx4yWmvKdwLLZzBi4ChoCc2fqCUWBkwMihLYQo2", RaydiumAmmV4, USDC_MINT),
    Pool("7XawhbbxtsRcQA8KTkHT9f9nc6d69UwqCDh6U5EEbEmX", RaydiumAmmV4, USDT_MINT),
    Pool("3ucNos4NbumPLZNWztqGHNFFgkHeRMBQAVemeeomsUxv", RaydiumClmm, USDC_MINT),
    Pool("3nMFwZXwY1s1M5s8vYAHqd4wGs4iSxXE4LRoUMMYqEgF", RaydiumClmm, USDT_MINT)]
  const FX_BUCKET_MS := 30_000
  const FX_MAX_AGE_MS := 90_000
  const BPS := 10_000
  const MAX_OBSERVATION_BPS := 500
  const MAX_POOL_BPS := 200
  const MIN_STABLE_RAW := 100_000_000
  const SOL_DECIMALS := 9
  const STABLE_DECIMALS := 6
  const I64_MAX := 0x7FFF_FFFF_FFFF_FFFF

  // The instants a chrono UTC timestamp can hold, in milliseconds.
  const MIN_TIMESTAMP_MS := -8_334_601_228_800_000
  const MAX_TIMESTAMP_MS := 8_210_266_876_799_999

  /** The texts of amounts, time and confidence are given by what they parse to, None if they do not. */
  datatype Observation = Observation(
    contract: string,
    policy: string,
    sourceEventId: string,
    poolAddress: string,
    protocol: Venue,
    programId: string,
    stableMint: string,
    solRaw: Option<u128>,
    stableRaw: Option<u128>,
    solDecimals: nat,
    stableDecimals: nat,
    observedMs: Option<int>,
    confidence: Option<real>,
    stale: bool,
    finalized: bool)

  datatype Timed = Timed(value: Observation, observedMs: int, solRaw: nat, stableRaw: nat, price: nat)

  datatype PoolVwap = PoolVwap(
    poolAddress: string,
    protocol: Venue,
    stableMint: string,
    solRaw: nat,
    stableRaw: nat,
    price: nat,
    firstMs: int,
    lastMs: int,
    sourceEventIds: seq<string>)

  datatype BuiltPool = BuiltPool(value: PoolVwap, confidence: real)

  datatype Quality = CrossPool | SinglePool

  datatype Point = Point(
    bucketStart: int,
    observedMs: int,
    validUntilMs: int,
    price: nat,
    poolSpreadBps: nat,
    quality: Quality,
    confidence: real,
    inputCount: nat,
    observationCount: nat,
    pools: seq<PoolVwap>)

  /** Outcome for one pool or bucket: the whole tape fails, nothing is emitted, or a value is. */
  datatype Step<+T> = Fail | Skip | Keep(value: T)

  // ---------------------------------------------------------------------------------
  // Checked arithmetic

  function MicroUsd(stableRaw: nat, solRaw: nat): Option<nat> {
    if stableRaw == 0 || solRaw == 0 then None
    else if stableRaw * 1_000_000_000 >= U128_LIMIT then None
    else if stableRaw * 1_000_000_000 / solRaw == 0 then None
    else Some(stableRaw * 1_000_000_000 / solRaw)
  }

  function Median(values: seq<nat>): Option<nat> {
    if values == [] then None
    else
      var sorted := Sort(NatLess, values);
      assert |multiset(sorted)| == |multiset(values)|;
      var middle := |sorted| / 2;
      if |sorted| % 2 == 1 then Some(sorted[middle])
      else if sorted[middle - 1] + sorted[middle] >= U128_LIMIT then None
      else Some((sorted[middle - 1] + sorted[middle]) / 2)
  }

  function AbsDiff(x: nat, y: nat): nat { if x < y then y - x else x - y }

  predicate WithinBps(value: nat, center: nat, maxBps: nat) {
    && AbsDiff(value, center) * BPS < U128_LIMIT
    && center * maxBps < U128_LIMIT
    && AbsDiff(value, center) * BPS <= center * maxBps
  }

  function Sum(values: seq<nat>): nat {
    if values == [] then 0 else Sum(values[..|values| - 1]) + values[|values| - 1]
  }

  function CheckedSum(values: seq<nat>): Option<nat> {
    if Sum(values) >= U128_LIMIT then None else Some(Sum(values))
  }

  predicate TimestampFits(ms: int) { MIN_TIMESTAMP_MS <= ms <= MAX_TIMESTAMP_MS }

  function BucketOf(ms: int): int { ms / FX_BUCKET_MS * FX_BUCKET_MS }

  // ---------------------------------------------------------------------------------
  // Validation

  predicate Valid(o: Observation) {
    && o.contract == FX_CONTRACT
    && o.policy == FX_POLICY
    && Pool(o.poolAddress, o.protocol, o.stableMint) in FX_POOLS
    && o.programId == o.protocol.ProgramId()
    && o.solDecimals == SOL_DECIMALS
    && o.stableDecimals == STABLE_DECIMALS
    && !o.stale
    && o.finalized
    && o.confidence.Some?
    && 0.0 <= o.confidence.value <= 1.0
  }

  function TimeOne(o: Observation): Option<Timed> {
    if !Valid(o) then None
    else
      var ms :- o.observedMs;
      var sol :- o.solRaw;
      var stable :- o.stableRaw;
      var price :- MicroUsd(stable, sol);
      Some(Timed(o, ms, sol, stable, price))
  }

  function Ids(items: seq<Timed>): seq<string> {
    seq(|items|, i requires 0 <= i < |items| => items[i].value.sourceEventId)
  }

  /** Every observation validated and timed, none repeating a source event. */
  function TimeAll(os: seq<Observation>): Option<seq<Timed>> {
    if os == [] then Some([])
    else
      var earlier :- TimeAll(os[..|os| - 1]);
      var last :- TimeOne(os[|os| - 1]);
      if last.value.sourceEventId in Ids(earlier) then None else Some(earlier + [last])
  }

  // ---------------------------------------------------------------------------------
  // One pool

  predicate TimedLess(x: Timed, y: Timed) {
    x.observedMs < y.observedMs
    || (x.observedMs == y.observedMs && LexLess(x.value.sourceEventId, y.value.sourceEventId))
  }

  function BucketKey(t: Timed): int { BucketOf(t.observedMs) }

  function PoolKey(t: Timed): string { t.value.poolAddress }

  function KeyIs<K(==)>(key: Timed -> K, k: K): Timed -> bool { (t: Timed) => key(t) == k }

  function Keys<K>(items: seq<Timed>, key: Timed -> K): seq<K> {
    seq(|items|, i requires 0 <= i < |items| => key(items[i]))
  }

  function InBucket(bucket: int): Timed -> bool { KeyIs(BucketKey, bucket) }

  function InPool(address: string): Timed -> bool { KeyIs(PoolKey, address) }

  function NearCenter(center: nat): Timed -> bool { (t: Timed) => WithinBps(t.price, center, MAX_OBSERVATION_BPS) }

  function Prices(items: seq<Timed>): seq<nat> { seq(|items|, i requires 0 <= i < |items| => items[i].price) }

  function Sols(items: seq<Timed>): seq<nat> { seq(|items|, i requires 0 <= i < |items| => items[i].solRaw) }

  function Stables(items: seq<Timed>): seq<nat> { seq(|items|, i requires 0 <= i < |items| => items[i].stableRaw) }

  function MinConfidence(items: seq<Timed>): real {
    if items == [] then 1.0
    else
      var c := items[|items| - 1].value.confidence;
      var earlier := MinConfidence(items[..|items| - 1]);
      if c.Some? && c.value < earlier then c.value else earlier
  }

  function BuildPool(items: seq<Timed>): Step<BuiltPool> {
    match Median(Prices(items))
    case None => Fail
    case Some(center) =>
      var accepted := Filter(items, NearCenter(center));
      if accepted == [] then Skip
      else
        match (CheckedSum(Sols(accepted)), CheckedSum(Stables(accepted)))
        case (Some(sol), Some(stable)) =>
          if stable < MIN_STABLE_RAW then Skip
          else
            var first, last := accepted[0], accepted[|accepted| - 1];
            if MicroUsd(stable, sol).None? || !TimestampFits(first.observedMs) || !TimestampFits(last.observedMs) then
              Fail
            else Keep(BuiltPool(
              PoolVwap(first.value.poolAddress, first.value.protocol, first.value.stableMint, sol, stable,
                       MicroUsd(stable, sol).value, first.observedMs, last.observedMs, Ids(accepted)),
              MinConfidence(accepted)))
        case _ => Fail
  }

  // ---------------------------------------------------------------------------------
  // One bucket

  function PoolAddresses(items: seq<Timed>): seq<string> { Keys(items, PoolKey) }

  function BuildPools(items: seq<Timed>, addresses: seq<string>): Option<seq<BuiltPool>> {
    if addresses == [] then Some([])
    else
      var earlier :- BuildPools(items, addresses[..|addresses| - 1]);
      match BuildPool(Filter(items, InPool(addresses[|addresses| - 1])))
      case Fail => None
      case Skip => Some(earlier)
      case Keep(pool) => Some(earlier + [pool])
  }

  function PoolPrices(pools: seq<BuiltPool>): seq<nat> {
    seq(|pools|, i requires 0 <= i < |pools| => pools[i].value.price)
  }

  function Vwaps(pools: seq<BuiltPool>): seq<PoolVwap> {
    seq(|pools|, i requires 0 <= i < |pools| => pools[i].value)
  }

  function MinOf(values: seq<nat>): (m: nat)
    requires values != []
    ensures m in values && forall v <- values :: m <= v
  {
    if |values| == 1 then values[0]
    else
      var earlier, last := MinOf(values[..|values| - 1]), values[|values| - 1];
      assert forall v <- values :: v == last || v in values[..|values| - 1];
      if last < earlier then last else earlier
  }

  function MaxOf(values: seq<nat>): (m: nat)
    requires values != []
    ensures m in values && forall v <- values :: v <= m
  {
    if |values| == 1 then values[0]
    else
      var earlier, last := MaxOf(values[..|values| - 1]), values[|values| - 1];
      assert forall v <- values :: v == last || v in values[..|values| - 1];
      if last > earlier then last else earlier
  }

  function LastMs(pools: seq<BuiltPool>): (m: int)
    requires pools != []
    ensures exists p <- pools :: p.value.lastMs == m
    ensures forall p <- pools :: p.value.lastMs <= m
  {
    var last := pools[|pools| - 1].value.lastMs;
    if |pools| == 1 then last
    else
      var earlier := LastMs(pools[..|pools| - 1]);
      assert forall p <- pools :: p == pools[|pools| - 1] || p in pools[..|pools| - 1];
      if last > earlier then last else earlier
  }

  function PoolConfidence(pools: seq<BuiltPool>): real {
    if pools == [] then 1.0
    else
      var c, earlier := pools[|pools| - 1].confidence, PoolConfidence(pools[..|pools| - 1]);
      if c < earlier then c else earlier
  }

  function ObservationCount(pools: seq<BuiltPool>): nat {
    if pools == [] then 0 else ObservationCount(pools[..|pools| - 1]) + |pools[|pools| - 1].value.sourceEventIds|
  }

  function Width(prices: seq<nat>): nat
    requires prices != []
  {
    MaxOf(prices) - MinOf(prices)
  }

  function SpreadBps(prices: seq<nat>, price: nat): nat
    requires prices != [] && price != 0
  {
    Width(prices) * BPS / price
  }

  /** The point made of the pools built for a bucket; a zero price cannot reach the division. */
  function BuildPoint(bucket: int, inputCount: nat, pools: seq<BuiltPool>): Step<Point> {
    if pools == [] then Skip
    else
      var prices := PoolPrices(pools);
      match Median(prices)
      case None => Fail
      case Some(price) =>
        if Width(prices) * BPS >= U128_LIMIT || price == 0 then Fail
        else
          var spread := SpreadBps(prices, price);
          if |pools| > 1 && spread > MAX_POOL_BPS then Skip
          else
            var lastMs := LastMs(pools);
            var quality := if |pools| > 1 then CrossPool else SinglePool;
            var cap := if quality == CrossPool then 0.99 else 0.90;
            var confidence := if PoolConfidence(pools) < cap then PoolConfidence(pools) else cap;
            if lastMs + FX_MAX_AGE_MS > I64_MAX || !TimestampFits(bucket) || !TimestampFits(lastMs)
               || !TimestampFits(lastMs + FX_MAX_AGE_MS) then Fail
            else Keep(Point(bucket, lastMs, lastMs + FX_MAX_AGE_MS, price, spread, quality, confidence,
                            inputCount, ObservationCount(pools), Vwaps(pools)))
  }

  function BucketItems(timed: seq<Timed>, bucket: int): seq<Timed> {
    Sort(TimedLess, Filter(timed, InBucket(bucket)))
  }

  function BucketPoint(timed: seq<Timed>, bucket: int): Step<Point> {
    var items := BucketItems(timed, bucket);
    match BuildPools(items, OrderedKeys(LexLess, PoolAddresses(items)))
    case None => Fail
    case Some(pools) => BuildPoint(bucket, |items|, pools)
  }

  // ---------------------------------------------------------------------------------
  // The tape

  function Buckets(timed: seq<Timed>): seq<int> { Keys(timed, BucketKey) }

  function BuildPoints(timed: seq<Timed>, buckets: seq<int>): Option<seq<Point>> {
    if buckets == [] then Some([])
    else
      var earlier :- BuildPoints(timed, buckets[..|buckets| - 1]);
      match BucketPoint(timed, buckets[|buckets| - 1])
      case Fail => None
      case Skip => Some(earlier)
      case Keep(point) => Some(earlier + [point])
  }

  function Tape(os: seq<Observation>): Option<seq<Point>> {
    var timed :- TimeAll(os);
    BuildPoints(timed, OrderedKeys(IntLess, Buckets(timed)))
  }
}
