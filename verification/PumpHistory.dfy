/**
 * What every field of a projected state and curve says of the mint's events.
 *
 * The lifecycle says which lists of events are accepted and in what shape; the history says what
 * the accepted ones leave behind: the terms of the create event, counts and times, the reserves
 * and prices of the last trade, and one point per trade, in order, with its own numbers.
 *
 * A completion that still waits for its final trade has touched nothing but the replay's own
 * bookkeeping, so the slot of the last event is then that of the event before it.
 */
module PumpHistory {
  import opened Common
  import opened Arithmetic
  import opened Ordering
  import opened PumpDecimal
  import opened PumpCurve
  import PumpLifecycle

  predicate IsTrade(e: Event) { e.data.TradeEvent? }

  predicate IsBuy(e: Event) { e.data.TradeEvent? && e.data.trade.isBuy }

  predicate IsSell(e: Event) { e.data.TradeEvent? && !e.data.trade.isBuy }

  predicate IsCompletion(e: Event) { e.data.CompleteEvent? }

  function Newest(es: seq<Event>): Option<Event> { if es == [] then None else Some(es[|es| - 1]) }

  /** The point of one trade event, with the liquidity of its real reserves at the marginal price. */
  ghost predicate PointTells(p: Point, e: Event) {
    && e.data.TradeEvent?
    && p.sourceEventId == IdOf(e.origin)
    && e.origin.txIndex == Some(p.txIndex)
    && p.trade == e.data.trade
    && Ratio(MarkNumerator(p.trade), Denominator(p.trade)) == Some(p.liquiditySol)
  }

  ghost predicate CurveTells(es: seq<Event>, curve: seq<Point>) {
    var trades := Filter(es, IsTrade);
    |curve| == |trades| && forall k :: 0 <= k < |trades| ==> PointTells(curve[k], trades[k])
  }

  ghost predicate StateTells(es: seq<Event>, s: State, pending: bool, curve: seq<Point>)
    requires es != []
  {
    var last := if pending && |es| > 1 then es[|es| - 2] else es[|es| - 1];
    var trade := Newest(Filter(es, IsTrade));
    && es[0].data == CreateEvent(s.bondingCurve, s.decimals, s.supplyRaw, true)
    && s.firstSlot == es[0].origin.slot && s.createdAt == es[0].origin.blockTime
    && s.lastSlot == last.origin.slot
    && s.buyCount == |Filter(es, IsBuy)| && s.sellCount == |Filter(es, IsSell)|
    && s.reserves == (if trade.Some? && trade.value.data.TradeEvent? then Some(trade.value.data.trade) else None)
    && s.lastTradeAt == (if s.reserves.Some? then Some(s.reserves.value.timestamp) else None)
    && s.priceSol == (if curve == [] then None else Some(curve[|curve| - 1].priceSol))
    && s.fdvSol == (if curve == [] then None else Some(curve[|curve| - 1].fdvSol))
    && s.migratedAt == (if s.phase == Migrated then last.origin.blockTime else None)
  }

  /** A completion is stamped with its own time, one that still waits for its final trade is not. */
  ghost predicate CompletionTold(es: seq<Event>, r: Replay)
    requires r.state.Some?
  {
    var (s, completion) := (r.state.value, Newest(Filter(es, IsCompletion)));
    if s.phase == Curve then
      && s.completedAt.None?
      && (r.pending.None? ==> completion.None?)
      && (r.pending.Some? ==>
            !SoldOut(s) && |es| > 1 && completion == Some(es[|es| - 1])
            && r.pending.value == (es[|es| - 1].origin, es[|es| - 1].data))
    else
      && r.pending.None?
      && completion.Some? && completion.value.data.CompleteEvent?
      && s.completedAt == Some(completion.value.data.completedAt)
  }

  ghost predicate Told(es: seq<Event>, r: Replay) {
    && (es == [] ==> r == START)
    && (es != [] ==> r.state.Some? && StateTells(es, r.state.value, r.pending.Some?, r.curve) && CompletionTold(es, r))
    && CurveTells(es, r.curve)
  }

  lemma FilterStep(es: seq<Event>, e: Event)
    ensures Filter(es + [e], IsTrade) == Filter(es, IsTrade) + (if IsTrade(e) then [e] else [])
    ensures Filter(es + [e], IsBuy) == Filter(es, IsBuy) + (if IsBuy(e) then [e] else [])
    ensures Filter(es + [e], IsSell) == Filter(es, IsSell) + (if IsSell(e) then [e] else [])
    ensures Filter(es + [e], IsCompletion) == Filter(es, IsCompletion) + (if IsCompletion(e) then [e] else [])
  {
    FilterAppend(es, e, IsTrade);
    FilterAppend(es, e, IsBuy);
    FilterAppend(es, e, IsSell);
    FilterAppend(es, e, IsCompletion);
  }

  lemma TellCreate(r: Replay, e: Event)
    requires r == START && PendingIsComplete(r) && Step(r, e).Some? && e.data.CreateEvent?
    ensures Told([e], Step(r, e).value)
  {
    assert [] + [e] == [e];
    FilterStep([], e);
  }

  lemma TellTrade(es: seq<Event>, r: Replay, e: Event)
    requires es != [] && Told(es, r) && PendingIsComplete(r) && Step(r, e).Some? && e.data.TradeEvent?
    ensures Told(es + [e], Step(r, e).value)
  {
    hide Ratio, Filter, Prices, Precedes, ReservesFollow, CurveTells;
    FilterStep(es, e);
    TellPoint(es, r, e);
  }

  lemma TellPoint(es: seq<Event>, r: Replay, e: Event)
    requires CurveTells(es, r.curve) && PendingIsComplete(r) && Step(r, e).Some? && e.data.TradeEvent?
    ensures CurveTells(es + [e], Step(r, e).value.curve)
  {
    hide Ratio, Filter, Prices, Precedes, ReservesFollow, ApplyTrade, ApplyComplete;
    FilterStep(es, e);
  }

  lemma {:induction false} TellComplete(es: seq<Event>, r: Replay, e: Event)
    requires es != [] && Told(es, r) && PendingIsComplete(r) && Step(r, e).Some? && e.data.CompleteEvent?
    ensures Told(es + [e], Step(r, e).value)
  {
    hide Ratio, Filter, Precedes;
    FilterStep(es, e);
  }

  lemma TellWithdraw(es: seq<Event>, r: Replay, e: Event)
    requires es != [] && Told(es, r) && PendingIsComplete(r) && Step(r, e).Some? && e.data.WithdrawEvent?
    ensures Told(es + [e], Step(r, e).value)
  {
    hide Ratio, Filter, Precedes, CurveTells;
    FilterStep(es, e);
    CurveSame(es, e, r.curve);
  }

  lemma CurveSame(es: seq<Event>, e: Event, curve: seq<Point>)
    requires CurveTells(es, curve) && !IsTrade(e)
    ensures CurveTells(es + [e], curve)
  {
    FilterStep(es, e);
  }

  lemma {:induction false} RunTold(es: seq<Event>)
    requires Run(es).Some?
    ensures Told(es, Run(es).value)
  {
    hide Told, Step;
    if es == [] {
      NothingTold();
    } else {
      var init, last := es[..|es| - 1], es[|es| - 1];
      assert es == init + [last];
      RunTold(init);
      StepTold(init, Run(init).value, last);
    }
  }

  lemma NothingTold()
    ensures Told([], START)
  {
  }

  lemma StepTold(es: seq<Event>, r: Replay, e: Event)
    requires Told(es, r) && PendingIsComplete(r) && Step(r, e).Some?
    ensures Told(es + [e], Step(r, e).value)
  {
    hide StateTells, CurveTells, CompletionTold;
    if es == [] {
      assert [] + [e] == [e];
      assert e.data.CreateEvent?;
      TellCreate(r, e);
    } else {
      match e.data
      case CreateEvent(_, _, _, _) =>
      case TradeEvent(_) => TellTrade(es, r, e);
      case CompleteEvent(_, _) => TellComplete(es, r, e);
      case WithdrawEvent(_) => TellWithdraw(es, r, e);
    }
  }

  /**
   * The projection of a mint says exactly what its events do: the terms of its create event, the
   * slots of the first and last event, the buys and sells, the reserves, time and price of the
   * last trade, the time of the completion and of the migration, and one point per trade in order.
   */
  lemma ProjectionTells(mint: string, events: seq<Event>)
    requires Reconstruct(mint, events).Some?
    ensures var (es, p) := (MintEvents(mint, events), Reconstruct(mint, events).value);
            && es != []
            && StateTells(es, p.state, false, p.curve)
            && CurveTells(es, p.curve)
            && CompletionTold(es, Replay(Some(p.state), None, None, None, p.curve))
  {
    hide Run, StateTells, CurveTells;
    RunTold(MintEvents(mint, events));
  }

  /**
   * A point's numbers, in units of 10^-18 SOL: the marginal price of a whole token, the value of
   * the whole supply, and the real reserves of both sides valued at that price, all floored.
   */
  ghost predicate Valued(p: Point, s: State) {
    var t := p.trade;
    && PricedAt(t, s.decimals, s.supplyRaw, p.priceSol, p.fdvSol)
    && Scaled(p.liquiditySol) ==
       (t.realSol * t.virtualToken + t.realToken * t.virtualSol) * 1_000_000_000_000_000_000
       / (t.virtualToken * 1_000_000_000)
  }

  lemma PointValues(mint: string, events: seq<Event>, r: Projection)
    requires Reconstruct(mint, events) == Some(r)
    ensures forall p <- r.curve :: Valued(p, r.state)
  {
    hide Ratio, Reconstruct, StateTells, Valued;
    PumpLifecycle.ProjectionShape(mint, events);
    ProjectionTells(mint, events);
    forall k | 0 <= k < |r.curve|
      ensures Valued(r.curve[k], r.state)
    {
      assert PointTells(r.curve[k], Filter(MintEvents(mint, events), IsTrade)[k]);
      PointValued(r.curve[k], r.state);
    }
  }

  lemma PointValued(p: Point, s: State)
    requires Prices(p.trade, s.decimals, s.supplyRaw) == Some((p.priceSol, p.fdvSol))
    requires Ratio(MarkNumerator(p.trade), Denominator(p.trade)) == Some(p.liquiditySol)
    ensures Valued(p, s)
  {
    hide Ratio, Scaled, Prices;
    PricesFloored(p.trade, s.decimals, s.supplyRaw);
    RatioExact(MarkNumerator(p.trade), Denominator(p.trade));
    EighteenDigits();
  }
}
