/** The bonding curve in plain arithmetic: which events make a lifecycle, and what its points are worth. */
module PumpMeaning {
  // Amounts are lamports and raw token units. Nothing here is said through the functions that
  // replay the events.

  import opened Common
  import opened Arithmetic
  import opened Ordering
  import opened PumpDecimal
  import opened PumpCurve
  import opened PumpLifecycle
  import PumpHistory

  const TWO_64 := 0x1_0000_0000_0000_0000
  const TWO_128 := 0x1_0000_0000_0000_0000_0000_0000_0000_0000

  // ---------------------------------------------------------------------------------
  // Decimals

  function TenTo(k: nat): nat { if k == 0 then 1 else TenTo(k - 1) * 10 }

  lemma {:induction false} TenToAgrees(k: nat)
    ensures TenTo(k) == Pow10(k)
  {
    if k > 0 { TenToAgrees(k - 1); }
  }

  /** The digits read from the left, after a number already read. */
  function Read(digits: seq<nat>, before: nat): nat {
    if digits == [] then before else Read(digits[1..], before * 10 + digits[0])
  }

  /** The decimal has 18 digits behind the point and is n / d cut off there. */
  ghost predicate Denotes(x: Decimal, n: int, d: int) {
    && |x.fraction| == 18 && (forall digit <- x.fraction :: digit <= 9)
    && var units := Read(x.fraction, x.whole);
       units * d <= n * 1_000_000_000_000_000_000 < (units + 1) * d
  }

  lemma {:induction false} ReadAppend(digits: seq<nat>, before: nat)
    ensures Read(digits, before) == before * Pow10(|digits|) + DigitsValue(digits)
  {
    if digits != [] {
      ReadAppend(digits[1..], before * 10 + digits[0]);
      FirstDigit(digits);
      Distribute(before * 10, digits[0], Pow10(|digits| - 1));
      Associate(before, 10, Pow10(|digits| - 1));
    }
  }

  lemma {:induction false} FirstDigit(digits: seq<nat>)
    requires digits != []
    ensures DigitsValue(digits) == digits[0] * Pow10(|digits| - 1) + DigitsValue(digits[1..])
  {
    if |digits| > 1 {
      var init := digits[..|digits| - 1];
      FirstDigit(init);
      assert digits[1..][..|digits| - 2] == init[1..];
      assert DigitsValue(digits[1..]) == 10 * DigitsValue(init[1..]) + digits[|digits| - 1];
      Scale(digits[0], Pow10(|digits| - 2));
    } else {
      assert digits[1..] == [];
    }
  }

  lemma RatioDenotes(n: nat, d: nat, x: Decimal)
    requires Ratio(n, d) == Some(x)
    ensures d > 0 && Denotes(x, n, d)
  {
    hide Division;
    RatioExact(n, d);
    EighteenDigits();
    ReadAppend(x.fraction, x.whole);
    QuotRem(n * 1_000_000_000_000_000_000, d);
    var units := Read(x.fraction, x.whole);
    Distribute(units, 1, d);
  }

  // ---------------------------------------------------------------------------------
  // Trades

  /** Price and value of a curve: lamports over the virtual tokens they buy, and that for the whole supply. */
  ghost predicate Worth(t: Trade, decimals: nat, supplyRaw: nat, price: Decimal, value: Decimal) {
    && t.virtualToken > 0
    && Denotes(price, t.virtualSol * TenTo(decimals), t.virtualToken * 1_000_000_000)
    && Denotes(value, supplyRaw * t.virtualSol, t.virtualToken * 1_000_000_000)
  }

  /** There are tokens to price, and the price's numerator fits 128 bits. */
  ghost predicate CanBePriced(t: Trade, decimals: nat) {
    t.virtualToken > 0 && decimals <= 38 && t.virtualSol * TenTo(decimals) < TWO_128
  }

  lemma PricesExactly(t: Trade, decimals: u32, supplyRaw: u64)
    ensures Prices(t, decimals, supplyRaw).Some? <==> CanBePriced(t, decimals)
    ensures Prices(t, decimals, supplyRaw).Some? ==>
              var (price, value) := Prices(t, decimals, supplyRaw).value; Worth(t, decimals, supplyRaw, price, value)
  {
    hide Ratio;
    TenToAgrees(decimals);
    if t.virtualToken > 0 && PriceNumerator(t, decimals).Some? {
      RatioDefined(PriceNumerator(t, decimals).value, Denominator(t));
      RatioDefined(ValueNumerator(t, supplyRaw), Denominator(t));
      var price, value := Ratio(PriceNumerator(t, decimals).value, Denominator(t)).value,
                          Ratio(ValueNumerator(t, supplyRaw), Denominator(t)).value;
      RatioDenotes(PriceNumerator(t, decimals).value, Denominator(t), price);
      RatioDenotes(ValueNumerator(t, supplyRaw), Denominator(t), value);
    }
  }

  // ---------------------------------------------------------------------------------
  // Lifecycles

  ghost predicate Earlier(x: Origin, y: Origin) {
    && x.txIndex.Some? && y.txIndex.Some?
    && (|| x.slot < y.slot
        || (x.slot == y.slot && x.txIndex.value < y.txIndex.value)
        || (x.slot == y.slot && x.txIndex.value == y.txIndex.value && x.eventIndex < y.eventIndex))
  }

  ghost predicate OneInstruction(x: Origin, y: Origin) {
    x.slot == y.slot && x.signature == y.signature && x.txIndex == y.txIndex && x.instructionIndex == y.instructionIndex
  }

  /** A buy moves SOL in and tokens out, a sell the other way, in the virtual and in the real reserves. */
  ghost predicate Moves(before: Trade, after: Trade) {
    if after.isBuy then
      && before.virtualSol <= after.virtualSol && before.realSol <= after.realSol
      && before.virtualToken >= after.virtualToken && before.realToken >= after.realToken
    else
      && before.virtualSol >= after.virtualSol && before.realSol >= after.realSol
      && before.virtualToken <= after.virtualToken && before.realToken <= after.realToken
  }

  /** A trade whose point can be computed: a price, a liquidity that fits 128 bits and a calendar date. */
  ghost predicate CanBePointed(t: Trade, decimals: nat) {
    && CanBePriced(t, decimals)
    && t.realSol * t.virtualToken + t.realToken * t.virtualSol < TWO_128
    && -8_334_601_228_800 <= t.timestamp <= 8_210_266_876_799
  }

  /**
   * A lifecycle that is accepted: create first, with a fixed supply that is not zero; then trades,
   * each moving the reserves its way; at most one completion, in the instruction of the final
   * trade and beside it, and that trade is the first to leave no real tokens if the completion
   * comes first; at most one withdrawal after it; completion and withdrawal of the created curve.
   */
  ghost predicate Lifetime(es: seq<Event>, trades: nat, placement: Placement, withdrawn: bool) {
    && (placement != NoCompletion ==> trades > 0) && (withdrawn ==> placement != NoCompletion)
    && Kinds(es) == Lifecycle(trades, placement, withdrawn) && 0 < |es| < TWO_64
    && (forall i :: 0 <= i < |es| ==> es[i].origin.txIndex.Some?)
    && (forall i, j :: 0 <= i < j < |es| ==> Earlier(es[i].origin, es[j].origin))
    && es[0].data.CreateEvent? && es[0].data.supplyFixed && es[0].data.supplyRaw != 0
    && (forall k :: 0 <= k < trades ==> IsTrade(es, TradeAt(trades, placement, k)))
    && (forall k :: 0 <= k < trades ==>
          CanBePointed(es[TradeAt(trades, placement, k)].data.trade, es[0].data.decimals))
    && (forall k :: 0 <= k < trades - 1 ==>
          Moves(es[TradeAt(trades, placement, k)].data.trade, es[TradeAt(trades, placement, k + 1)].data.trade))
    && (placement != NoCompletion ==>
          && trades + 1 < |es|
          && es[CompletionAt(trades, placement)].data.CompleteEvent?
          && es[CompletionAt(trades, placement)].data.completeCurve == es[0].data.bondingCurve
          && OneInstruction(es[FinalTradeAt(trades, placement)].origin, es[CompletionAt(trades, placement)].origin)
          && es[TradeAt(trades, placement, trades - 1)].data.trade.realToken == 0)
    && (placement == BeforeFinalTrade && trades >= 2 ==>
          es[TradeAt(trades, placement, trades - 2)].data.trade.realToken != 0)
    && (withdrawn ==> es[|es| - 1].data.WithdrawEvent? && es[|es| - 1].data.withdrawCurve == es[0].data.bondingCurve)
  }

  lemma PointedExactly(t: Trade, decimals: u32)
    ensures CanBePointed(t, decimals) <==> Tradable(t, decimals)
  {
    hide TenTo;
    TenToAgrees(decimals);
  }

  lemma OrderedExactly(es: seq<Event>)
    ensures Ordered(es) <==>
            && (forall i :: 0 <= i < |es| ==> es[i].origin.txIndex.Some?)
            && (forall i, j :: 0 <= i < j < |es| ==> Earlier(es[i].origin, es[j].origin))
  {
    if forall i :: 0 <= i < |es| ==> es[i].origin.txIndex.Some? {
      forall i, j | 0 <= i < j < |es|
        ensures Earlier(es[i].origin, es[j].origin) <==>
                Precedes(OrderOf(es[i].origin).value, OrderOf(es[j].origin).value)
      {
      }
    }
  }

  lemma LifetimeExactly(es: seq<Event>, trades: nat, placement: Placement, withdrawn: bool)
    ensures Lifetime(es, trades, placement, withdrawn) <==> Admissible(es, trades, placement, withdrawn)
  {
    hide Ordered, Earlier, Tradable, CanBePointed, Kinds, Lifecycle;
    OrderedExactly(es);
    forall t, decimals: u32
      ensures CanBePointed(t, decimals) <==> Tradable(t, decimals)
    {
      PointedExactly(t, decimals);
    }
  }

  /** The events of one mint, at exactly the places where it is named, in their order. */
  ghost predicate EventsOf(mint: string, events: seq<Event>, es: seq<Event>) {
    exists at :: Places(events, at, es) && forall k :: 0 <= k < |events| ==> (k in at <==> events[k].mint == mint)
  }

  lemma MintPlaces(mint: string, events: seq<Event>)
    ensures EventsOf(mint, events, MintEvents(mint, events))
  {
    var at := FilterPlaces(events, OfMint(mint));
  }

  /** A list of events is accepted for a mint exactly if the events that name it make a lifecycle. */
  lemma AcceptedMeans(mint: string, events: seq<Event>)
    ensures exists es ::
              && EventsOf(mint, events, es)
              && (Reconstruct(mint, events).Some? <==>
                  exists trades, placement, withdrawn :: Lifetime(es, trades, placement, withdrawn))
  {
    hide Reconstruct, Lifetime, Admissible, MintEvents;
    var es := MintEvents(mint, events);
    MintPlaces(mint, events);
    PumpLifecycle.AcceptedExactly(mint, events);
    forall trades, placement, withdrawn
      ensures Lifetime(es, trades, placement, withdrawn) <==> Admissible(es, trades, placement, withdrawn)
    {
      LifetimeExactly(es, trades, placement, withdrawn);
    }
  }

  // ---------------------------------------------------------------------------------
  // Projections

  ghost predicate Names(id: EventId, o: Origin) {
    id.slot == o.slot && id.signature == o.signature && id.instructionIndex == o.instructionIndex
    && id.eventIndex == o.eventIndex
  }

  /** A point: the trade it is of, its reserves, and what they are worth. */
  ghost predicate PointMeans(p: Point, e: Event, decimals: nat, supplyRaw: nat) {
    && e.data.TradeEvent? && p.trade == e.data.trade
    && Names(p.sourceEventId, e.origin) && e.origin.txIndex == Some(p.txIndex)
    && p.decimals == decimals && p.supplyRaw == supplyRaw
    && Worth(p.trade, decimals, supplyRaw, p.priceSol, p.fdvSol)
    && Denotes(p.liquiditySol, p.trade.realSol * p.trade.virtualToken + p.trade.realToken * p.trade.virtualSol,
               p.trade.virtualToken * 1_000_000_000)
  }

  /** Only the final point can be complete, and then it names the completion. */
  ghost predicate Completed(es: seq<Event>, curve: seq<Point>, placement: Placement)
    requires placement != NoCompletion ==> curve != [] && |curve| + 1 < |es|
  {
    forall k :: 0 <= k < |curve| ==>
      if placement != NoCompletion && k == |curve| - 1 then
        && curve[k].complete && curve[k].completionEventId.Some?
        && Names(curve[k].completionEventId.value, es[CompletionAt(|curve|, placement)].origin)
      else !curve[k].complete && curve[k].completionEventId.None?
  }

  /** The state: the create event's terms, counts and times, and the last trade with its price and value. */
  ghost predicate StateMeans(s: State, es: seq<Event>, curve: seq<Point>, placement: Placement, withdrawn: bool)
    requires placement != NoCompletion ==> curve != [] && |curve| + 1 < |es|
  {
    && es != [] && es[0].data == CreateEvent(s.bondingCurve, s.decimals, s.supplyRaw, true)
    && s.phase == (if withdrawn then Migrated else if placement != NoCompletion then Complete else Curve)
    && s.eventCount == |es| && s.tradeCount == |curve|
    && s.buyCount == |Filter(es, PumpHistory.IsBuy)| && s.sellCount == |Filter(es, PumpHistory.IsSell)|
    && s.firstSlot == es[0].origin.slot && s.lastSlot == es[|es| - 1].origin.slot
    && s.createdAt == es[0].origin.blockTime
    && s.migratedAt == (if withdrawn then es[|es| - 1].origin.blockTime else None)
    && (if placement == NoCompletion then s.completedAt.None?
        else var e := es[CompletionAt(|curve|, placement)];
             e.data.CompleteEvent? && s.completedAt == Some(e.data.completedAt))
    && (if curve == [] then s.reserves.None? && s.lastTradeAt.None? && s.priceSol.None? && s.fdvSol.None?
        else var last := curve[|curve| - 1];
             && s.reserves == Some(last.trade) && s.lastTradeAt == Some(last.trade.timestamp)
             && s.priceSol == Some(last.priceSol) && s.fdvSol == Some(last.fdvSol))
  }

  /** What an accepted list is projected to: everything its points and its state say, of its own events. */
  ghost predicate Projected(es: seq<Event>, p: Projection, placement: Placement, withdrawn: bool) {
    && Lifetime(es, |p.curve|, placement, withdrawn)
    && StateMeans(p.state, es, p.curve, placement, withdrawn)
    && (forall k :: 0 <= k < |p.curve| ==>
          TradeAt(|p.curve|, placement, k) < |es|
          && PointMeans(p.curve[k], es[TradeAt(|p.curve|, placement, k)], p.state.decimals, p.state.supplyRaw))
    && Completed(es, p.curve, placement)
  }

  lemma ProjectionMeans(mint: string, events: seq<Event>)
    requires Reconstruct(mint, events).Some?
    ensures exists es, placement, withdrawn ::
              EventsOf(mint, events, es) && Projected(es, Reconstruct(mint, events).value, placement, withdrawn)
  {
    hide Run, Projected, Settled, MintEvents, EventsOf, PumpHistory.StateTells, PumpHistory.CurveTells,
         PumpHistory.CompletionTold;
    var es, p := MintEvents(mint, events), Reconstruct(mint, events).value;
    MintPlaces(mint, events);
    PumpHistory.ProjectionTells(mint, events);
    var trades, placement, withdrawn := Settles(es);
    SettledProjected(es, Run(es).value, p, trades, placement, withdrawn);
  }

  lemma SettledProjected(es: seq<Event>, r: Replay, p: Projection, trades: nat, placement: Placement, withdrawn: bool)
    requires Settled(es, r, trades, placement, withdrawn)
    requires r.state == Some(p.state) && r.curve == p.curve && es != []
    requires PumpHistory.StateTells(es, p.state, false, p.curve) && PumpHistory.CurveTells(es, p.curve)
    requires PumpHistory.CompletionTold(es, Replay(Some(p.state), None, None, None, p.curve))
    ensures Projected(es, p, placement, withdrawn)
  {
    hide Lifetime, StateMeans, PointMeans, Completed, Settled, Admissible, PumpHistory.StateTells,
         PumpHistory.CurveTells, PumpHistory.CompletionTold;
    SettledAdmissible(es, r, trades, placement, withdrawn);
    LifetimeExactly(es, trades, placement, withdrawn);
    SettledMeans(es, r, p, trades, placement, withdrawn);
  }

  lemma SettledMeans(es: seq<Event>, r: Replay, p: Projection, trades: nat, placement: Placement, withdrawn: bool)
    requires Settled(es, r, trades, placement, withdrawn) && Admissible(es, trades, placement, withdrawn)
    requires r.state == Some(p.state) && r.curve == p.curve && es != []
    requires PumpHistory.StateTells(es, p.state, false, p.curve) && PumpHistory.CurveTells(es, p.curve)
    requires PumpHistory.CompletionTold(es, Replay(Some(p.state), None, None, None, p.curve))
    ensures |p.curve| == trades && (placement != NoCompletion ==> p.curve != [] && |p.curve| + 1 < |es|)
    ensures StateMeans(p.state, es, p.curve, placement, withdrawn) && Completed(es, p.curve, placement)
    ensures forall k :: 0 <= k < trades ==>
              TradeAt(trades, placement, k) < |es|
              && PointMeans(p.curve[k], es[TradeAt(trades, placement, k)], p.state.decimals, p.state.supplyRaw)
  {
    hide Prices, Ratio, Tradable, Ordered, Kinds, Lifecycle, PointMeans, PointMatches, Filter, IdOf;
    forall k | 0 <= k < trades
      ensures TradeAt(trades, placement, k) < |es|
      ensures PointMeans(p.curve[k], es[TradeAt(trades, placement, k)], p.state.decimals, p.state.supplyRaw)
    {
      assert PumpHistory.PointTells(p.curve[k], Filter(es, PumpHistory.IsTrade)[k]);
      PointIsMeant(p.curve[k], es[TradeAt(trades, placement, k)], p.state);
    }
    CompletedIsMeant(es, p.curve, trades, placement);
    if placement != NoCompletion { OneCompletion(es, trades, placement, withdrawn); }
  }

  /** The completion of a lifecycle is its only one. */
  lemma OneCompletion(es: seq<Event>, trades: nat, placement: Placement, withdrawn: bool)
    requires placement != NoCompletion && trades > 0 && trades + 1 < |es|
    requires Kinds(es) == Lifecycle(trades, placement, withdrawn)
    ensures PumpHistory.Newest(Filter(es, PumpHistory.IsCompletion)) == Some(es[CompletionAt(trades, placement)])
  {
    hide Filter, Kinds, Lifecycle;
    var e, mine := es[CompletionAt(trades, placement)], Filter(es, PumpHistory.IsCompletion);
    FilterMembers(es, PumpHistory.IsCompletion);
    CompletionPlace(es, trades, placement, withdrawn);
    assert e in es && PumpHistory.IsCompletion(e) && e in mine;
    var last := mine[|mine| - 1];
    assert last in mine && last in es && PumpHistory.IsCompletion(last);
  }

  lemma CompletionPlace(es: seq<Event>, trades: nat, placement: Placement, withdrawn: bool)
    requires placement != NoCompletion && trades > 0 && trades + 1 < |es|
    requires Kinds(es) == Lifecycle(trades, placement, withdrawn)
    ensures forall i :: 0 <= i < |es| ==> (PumpHistory.IsCompletion(es[i]) <==> i == CompletionAt(trades, placement))
  {
    var kinds := Kinds(es);
    assert forall i :: 0 <= i < |es| ==> (kinds[i] == KComplete <==> PumpHistory.IsCompletion(es[i]));
    assert forall i :: 0 <= i < |es| ==> (kinds[i] == KComplete <==> i == CompletionAt(trades, placement));
  }

  lemma CompletedIsMeant(es: seq<Event>, curve: seq<Point>, trades: nat, placement: Placement)
    requires |curve| == trades && (placement != NoCompletion ==> curve != [] && trades + 1 < |es|)
    requires CompletionMarked(curve, CompletionId(es, trades, placement))
    ensures Completed(es, curve, placement)
  {
  }

  lemma PointIsMeant(p: Point, e: Event, s: State)
    requires PointMatches(p, e, s) && Ratio(MarkNumerator(p.trade), Denominator(p.trade)) == Some(p.liquiditySol)
    ensures PointMeans(p, e, s.decimals, s.supplyRaw)
  {
    hide Prices, Ratio, Tradable;
    PricesExactly(p.trade, s.decimals, s.supplyRaw);
    RatioDenotes(MarkNumerator(p.trade), Denominator(p.trade), p.liquiditySol);
  }
}
