/**
 * The bonding-curve lifecycle of one mint: the state, one step per event, and the replay that
 * reconstructs a projection from a list of events.
 */
module PumpCurve {
  import opened Common
  import opened Arithmetic
  import opened Ordering
  import opened PumpDecimal

  type u32 = n: nat | n < U32_LIMIT
  type u64 = n: nat | n < U64_LIMIT

  const LAMPORTS_PER_SOL: nat := 1_000_000_000

  // The instants a chrono UTC timestamp can hold, in seconds.
  const MIN_TIMESTAMP_SECS := -8_334_601_228_800
  const MAX_TIMESTAMP_SECS := 8_210_266_876_799

  datatype Origin = Origin(
    signature: string,
    slot: u64,
    txIndex: Option<u64>,
    instructionIndex: u32,
    eventIndex: u32,
    blockTime: Option<int>)

  datatype Trade = Trade(
    isBuy: bool,
    timestamp: int,
    virtualSol: u64,
    virtualToken: u64,
    realSol: u64,
    realToken: u64)

  datatype Data =
    | CreateEvent(bondingCurve: string, decimals: u32, supplyRaw: u64, supplyFixed: bool)
    | TradeEvent(trade: Trade)
    | CompleteEvent(completeCurve: string, completedAt: int)
    | WithdrawEvent(withdrawCurve: string)

  datatype Event = Event(mint: string, origin: Origin, data: Data)

  datatype Phase = Curve | Complete | Migrated

  /** Names, symbols and other labels copied from the create event are left out. */
  datatype State = State(
    bondingCurve: string,
    decimals: u32,
    supplyRaw: u64,
    phase: Phase,
    eventCount: u64,
    tradeCount: u64,
    buyCount: u64,
    sellCount: u64,
    firstSlot: u64,
    lastSlot: u64,
    createdAt: Option<int>,
    completedAt: Option<int>,
    migratedAt: Option<int>,
    lastTradeAt: Option<int>,
    reserves: Option<Trade>,
    priceSol: Option<Decimal>,
    fdvSol: Option<Decimal>)

  /** The event identifier, as the parts the source joins into one text. */
  datatype EventId = EventId(slot: u64, signature: string, instructionIndex: u32, eventIndex: u32)

  datatype Point = Point(
    sourceEventId: EventId,
    completionEventId: Option<EventId>,
    complete: bool,
    txIndex: u64,
    decimals: u32,
    supplyRaw: u64,
    trade: Trade,
    priceSol: Decimal,
    fdvSol: Decimal,
    liquiditySol: Decimal)

  datatype Projection = Projection(state: State, curve: seq<Point>)

  function IdOf(o: Origin): EventId { EventId(o.slot, o.signature, o.instructionIndex, o.eventIndex) }

  predicate SameInstruction(x: Origin, y: Origin) {
    x.slot == y.slot && x.txIndex == y.txIndex && x.signature == y.signature && x.instructionIndex == y.instructionIndex
  }

  // ---------------------------------------------------------------------------------
  // Effects of single events on the state

  predicate ReservesFollow(before: Trade, after: Trade) {
    if after.isBuy then
      && after.virtualSol >= before.virtualSol && after.virtualToken <= before.virtualToken
      && after.realSol >= before.realSol && after.realToken <= before.realToken
    else
      && after.virtualSol <= before.virtualSol && after.virtualToken >= before.virtualToken
      && after.realSol <= before.realSol && after.realToken >= before.realToken
  }

  function AddOne(n: u64): Option<u64> {
    if n + 1 >= U64_LIMIT then None else Some(n + 1)
  }

  function PriceNumerator(t: Trade, decimals: u32): (r: Option<nat>)
    ensures r.Some? ==> r.value < U128_LIMIT
  {
    if decimals > 38 then None
    else if t.virtualSol * Pow10(decimals) >= U128_LIMIT then None
    else Some(t.virtualSol * Pow10(decimals))
  }

  function Denominator(t: Trade): (d: nat)
    ensures 10 * d <= U128_LIMIT
    ensures t.virtualToken > 0 ==> d > 0
  {
    t.virtualToken * LAMPORTS_PER_SOL
  }

  /** The product of two 64-bit amounts always fits 128 bits. */
  function ValueNumerator(t: Trade, supplyRaw: u64): (n: nat)
    ensures n < U128_LIMIT
  {
    MulMono(supplyRaw, U64_LIMIT - 1, t.virtualSol);
    supplyRaw * t.virtualSol
  }

  /** Marginal price and fully diluted value at the reserves a trade leaves. */
  function Prices(t: Trade, decimals: u32, supplyRaw: u64): Option<(Decimal, Decimal)> {
    if t.virtualToken == 0 then None
    else
      var priceNumerator :- PriceNumerator(t, decimals);
      var price :- Ratio(priceNumerator, Denominator(t));
      var fdv :- Ratio(ValueNumerator(t, supplyRaw), Denominator(t));
      Some((price, fdv))
  }

  /** There are tokens to price, and the price's numerator fits 128 bits. */
  predicate Priceable(t: Trade, decimals: nat) {
    && t.virtualToken > 0 && decimals <= 38
    && t.virtualSol * Pow10(decimals) < 0x1_0000_0000_0000_0000_0000_0000_0000_0000
  }

  /**
   * In units of 10^-18 SOL: a whole token's price at the virtual reserves, and that of the whole
   * supply, both floored.
   */
  predicate PricedAt(t: Trade, decimals: nat, supplyRaw: nat, price: Decimal, value: Decimal) {
    && t.virtualToken > 0
    && Scaled(price) == t.virtualSol * Pow10(decimals) * 1_000_000_000_000_000_000 / (t.virtualToken * 1_000_000_000)
    && Scaled(value) == supplyRaw * t.virtualSol * 1_000_000_000_000_000_000 / (t.virtualToken * 1_000_000_000)
  }

  lemma PricesFloored(t: Trade, decimals: u32, supplyRaw: u64)
    ensures Prices(t, decimals, supplyRaw).Some? <==> Priceable(t, decimals)
    ensures Prices(t, decimals, supplyRaw).Some? ==>
              var (price, value) := Prices(t, decimals, supplyRaw).value;
              PricedAt(t, decimals, supplyRaw, price, value)
  {
    hide Ratio, Scaled;
    if t.virtualToken > 0 && PriceNumerator(t, decimals).Some? {
      RatioDefined(PriceNumerator(t, decimals).value, Denominator(t));
      RatioDefined(ValueNumerator(t, supplyRaw), Denominator(t));
      RatioExact(PriceNumerator(t, decimals).value, Denominator(t));
      RatioExact(ValueNumerator(t, supplyRaw), Denominator(t));
      EighteenDigits();
    }
  }

  function ApplyTrade(s: State, t: Trade, slot: u64): Option<State> {
    if s.phase != Curve then None
    else if s.reserves.Some? && !ReservesFollow(s.reserves.value, t) then None
    else
      var events :- AddOne(s.eventCount);
      var trades :- AddOne(s.tradeCount);
      var side :- AddOne(if t.isBuy then s.buyCount else s.sellCount);
      var prices :- Prices(t, s.decimals, s.supplyRaw);
      Some(s.(eventCount := events, tradeCount := trades,
              buyCount := if t.isBuy then side else s.buyCount,
              sellCount := if t.isBuy then s.sellCount else side,
              lastSlot := slot, lastTradeAt := Some(t.timestamp), reserves := Some(t),
              priceSol := Some(prices.0), fdvSol := Some(prices.1)))
  }

  predicate SoldOut(s: State) { s.reserves.Some? && s.reserves.value.realToken == 0 }

  function ApplyComplete(s: State, bondingCurve: string, completedAt: int, slot: u64): Option<State> {
    if s.phase != Curve || bondingCurve != s.bondingCurve || !SoldOut(s) then None
    else
      var events :- AddOne(s.eventCount);
      Some(s.(eventCount := events, phase := Complete, completedAt := Some(completedAt), lastSlot := slot))
  }

  function MarkNumerator(t: Trade): nat { t.realSol * t.virtualToken + t.realToken * t.virtualSol }

  /** The point of a trade, taken from the state after it. */
  function PointOf(s: State, origin: Origin, t: Trade, completion: Option<Origin>): Option<Point> {
    var txIndex :- origin.txIndex;
    if MarkNumerator(t) >= U128_LIMIT then None
    else if !(MIN_TIMESTAMP_SECS <= t.timestamp <= MAX_TIMESTAMP_SECS) then None
    else
      var price :- s.priceSol;
      var fdv :- s.fdvSol;
      var liquidity :- Ratio(MarkNumerator(t), Denominator(t));
      Some(Point(IdOf(origin), if completion.Some? then Some(IdOf(completion.value)) else None, s.phase == Complete,
                 txIndex, s.decimals, s.supplyRaw, t, price, fdv, liquidity))
  }

  // ---------------------------------------------------------------------------------
  // One event

  datatype Order = Order(slot: nat, txIndex: nat, eventIndex: nat)

  predicate Precedes(x: Order, y: Order) {
    || x.slot < y.slot
    || (x.slot == y.slot && (x.txIndex < y.txIndex || (x.txIndex == y.txIndex && x.eventIndex < y.eventIndex)))
  }

  /** The loop variables of the replay. */
  datatype Replay = Replay(
    state: Option<State>,
    lastOrder: Option<Order>,
    pending: Option<(Origin, Data)>,
    lastTradeOrigin: Option<Origin>,
    curve: seq<Point>)

  const START := Replay(None, None, None, None, [])

  function OnCreate(r: Replay, e: Event): Option<Replay>
    requires e.data.CreateEvent?
  {
    if r.state.Some? || r.pending.Some? then None
    else if !e.data.supplyFixed || e.data.supplyRaw == 0 then None
    else Some(r.(state := Some(State(
      e.data.bondingCurve, e.data.decimals, e.data.supplyRaw, Curve, 1, 0, 0, 0, e.origin.slot, e.origin.slot,
      e.origin.blockTime, None, None, None, None, None, None))))
  }

  function OnTrade(r: Replay, e: Event): Option<Replay>
    requires e.data.TradeEvent?
    requires r.pending.Some? ==> r.pending.value.1.CompleteEvent?
  {
    if r.pending.Some? && !SameInstruction(r.pending.value.0, e.origin) then None
    else
      var before :- r.state;
      var traded :- ApplyTrade(before, e.data.trade, e.origin.slot);
      var after :- if r.pending.None? then Some(traded)
                   else ApplyComplete(traded, r.pending.value.1.completeCurve, r.pending.value.1.completedAt,
                                      r.pending.value.0.slot);
      var point :- PointOf(after, e.origin, e.data.trade, if r.pending.Some? then Some(r.pending.value.0) else None);
      Some(r.(state := Some(after), pending := None, lastTradeOrigin := Some(e.origin), curve := r.curve + [point]))
  }

  function CompletePoint(p: Point, origin: Origin): Point {
    p.(complete := true, completionEventId := Some(IdOf(origin)))
  }

  function OnComplete(r: Replay, e: Event): Option<Replay>
    requires e.data.CompleteEvent?
  {
    var s :- r.state;
    if s.phase != Curve || e.data.completeCurve != s.bondingCurve then None
    else if SoldOut(s) then
      var tradeOrigin :- r.lastTradeOrigin;
      if !SameInstruction(tradeOrigin, e.origin) then None
      else
        var after :- ApplyComplete(s, e.data.completeCurve, e.data.completedAt, e.origin.slot);
        if r.curve == [] then None
        else
          var last := |r.curve| - 1;
          Some(r.(state := Some(after), curve := r.curve[..last] + [CompletePoint(r.curve[last], e.origin)]))
    else if r.pending.Some? then None
    else Some(r.(pending := Some((e.origin, e.data))))
  }

  function OnWithdraw(r: Replay, e: Event): Option<Replay>
    requires e.data.WithdrawEvent?
  {
    if r.pending.Some? then None
    else
      var s :- r.state;
      if s.phase != Complete || e.data.withdrawCurve != s.bondingCurve then None
      else
        var events :- AddOne(s.eventCount);
        Some(r.(state := Some(s.(eventCount := events, phase := Migrated, migratedAt := e.origin.blockTime,
                                 lastSlot := e.origin.slot))))
  }

  predicate PendingIsComplete(r: Replay) {
    r.pending.Some? ==> r.pending.value.1.CompleteEvent?
  }

  function OrderOf(o: Origin): Option<Order> {
    var txIndex :- o.txIndex;
    Some(Order(o.slot, txIndex, o.eventIndex))
  }

  function Step(r: Replay, e: Event): (next: Option<Replay>)
    requires PendingIsComplete(r)
    ensures next.Some? ==> PendingIsComplete(next.value)
  {
    var order :- OrderOf(e.origin);
    if r.lastOrder.Some? && !Precedes(r.lastOrder.value, order) then None
    else
      var ordered := r.(lastOrder := Some(order));
      match e.data
      case CreateEvent(_, _, _, _) => OnCreate(ordered, e)
      case TradeEvent(_) => OnTrade(ordered, e)
      case CompleteEvent(_, _) => OnComplete(ordered, e)
      case WithdrawEvent(_) => OnWithdraw(ordered, e)
  }

  function Run(events: seq<Event>): (r: Option<Replay>)
    ensures r.Some? ==> PendingIsComplete(r.value)
  {
    if events == [] then Some(START)
    else
      var earlier :- Run(events[..|events| - 1]);
      Step(earlier, events[|events| - 1])
  }

  function OfMint(mint: string): Event -> bool { (e: Event) => e.mint == mint }

  function MintEvents(mint: string, events: seq<Event>): seq<Event> { Filter(events, OfMint(mint)) }

  /** The projection of a mint, or None where the source reports an error. */
  function Reconstruct(mint: string, events: seq<Event>): Option<Projection> {
    var r :- Run(MintEvents(mint, events));
    if r.pending.Some? then None
    else
      var s :- r.state;
      if |r.curve| >= U64_LIMIT || s.tradeCount != |r.curve| then None
      else Some(Projection(s, r.curve))
  }
}
