/** What an accepted event list looks like, and what its projection certifies. */
module PumpLifecycle {
  import opened Common
  import opened Arithmetic
  import opened PumpDecimal
  import opened PumpCurve

  // ---------------------------------------------------------------------------------
  // The shape of a lifecycle

  datatype Kind = KCreate | KTrade | KComplete | KWithdraw

  function KindOf(e: Event): Kind {
    match e.data
    case CreateEvent(_, _, _, _) => KCreate
    case TradeEvent(_) => KTrade
    case CompleteEvent(_, _) => KComplete
    case WithdrawEvent(_) => KWithdraw
  }

  function Kinds(es: seq<Event>): seq<Kind> {
    seq(|es|, i requires 0 <= i < |es| => KindOf(es[i]))
  }

  /** Where the completion stands next to the final trade. */
  datatype Placement = NoCompletion | BeforeFinalTrade | AfterFinalTrade

  function Trades(n: nat): seq<Kind> { seq(n, _ => KTrade) }

  /** One create, some trades, at most one completion next to the final trade, at most one withdrawal after it. */
  function Lifecycle(trades: nat, placement: Placement, withdrawn: bool): seq<Kind>
    requires placement != NoCompletion ==> trades > 0
  {
    [KCreate]
    + (match placement
       case NoCompletion => Trades(trades)
       case BeforeFinalTrade => Trades(trades - 1) + [KComplete, KTrade]
       case AfterFinalTrade => Trades(trades) + [KComplete])
    + (if withdrawn then [KWithdraw] else [])
  }

  /** The completion and the final trade are neighbours, at these positions. */
  function FinalTradeAt(trades: nat, placement: Placement): nat
    requires placement != NoCompletion && trades > 0
  {
    if placement == BeforeFinalTrade then trades + 1 else trades
  }

  function CompletionAt(trades: nat, placement: Placement): nat
    requires placement != NoCompletion && trades > 0
  {
    if placement == BeforeFinalTrade then trades else trades + 1
  }

  /** What the events of one mint look like when they were accepted with so many trades. */
  ghost predicate Shaped(es: seq<Event>, trades: nat, placement: Placement, withdrawn: bool) {
    && (placement != NoCompletion ==> trades > 0)
    && (withdrawn ==> placement != NoCompletion)
    && Kinds(es) == Lifecycle(trades, placement, withdrawn)
    && (placement != NoCompletion ==>
          SameInstruction(es[FinalTradeAt(trades, placement)].origin, es[CompletionAt(trades, placement)].origin))
    && Ordered(es)
  }

  /** The event of trade k, counting trades from 0. */
  function TradeAt(trades: nat, placement: Placement, k: nat): nat {
    if placement == BeforeFinalTrade && k + 1 == trades then k + 2 else k + 1
  }

  /** The create event is usable and the completion and withdrawal are of its bonding curve. */
  ghost predicate Endings(es: seq<Event>, trades: nat, placement: Placement, withdrawn: bool)
    requires placement != NoCompletion ==> trades > 0
  {
    && es != [] && es[0].data.CreateEvent?
    && es[0].data.supplyFixed && es[0].data.supplyRaw != 0
    && (placement != NoCompletion ==>
          && trades + 1 < |es|
          && es[CompletionAt(trades, placement)].data.CompleteEvent?
          && es[CompletionAt(trades, placement)].data.completeCurve == es[0].data.bondingCurve)
    && (withdrawn ==> es[|es| - 1].data.WithdrawEvent? && es[|es| - 1].data.withdrawCurve == es[0].data.bondingCurve)
  }

  ghost predicate IsTrade(es: seq<Event>, i: nat) { i < |es| && es[i].data.TradeEvent? }

  /** A trade whose price, value and liquidity can be computed and whose time can be printed. */
  predicate Tradable(t: Trade, decimals: u32) {
    && t.virtualToken > 0
    && PriceNumerator(t, decimals).Some?
    && MarkNumerator(t) < U128_LIMIT
    && MIN_TIMESTAMP_SECS <= t.timestamp <= MAX_TIMESTAMP_SECS
  }

  /** The exact condition, on the events alone, under which a lifecycle is accepted. */
  ghost predicate Admissible(es: seq<Event>, trades: nat, placement: Placement, withdrawn: bool) {
    && Shaped(es, trades, placement, withdrawn)
    && Endings(es, trades, placement, withdrawn)
    && |es| < U64_LIMIT
    && var c := es[0].data;
       && (forall k :: 0 <= k < trades ==> IsTrade(es, TradeAt(trades, placement, k)))
       && (forall k :: 0 <= k < trades ==> Tradable(es[TradeAt(trades, placement, k)].data.trade, c.decimals))
       && (forall k :: 0 <= k < trades - 1 ==>
             ReservesFollow(es[TradeAt(trades, placement, k)].data.trade,
                            es[TradeAt(trades, placement, k + 1)].data.trade))
       && (placement != NoCompletion ==> es[TradeAt(trades, placement, trades - 1)].data.trade.realToken == 0)
       && (placement == BeforeFinalTrade && trades >= 2 ==>
             es[TradeAt(trades, placement, trades - 2)].data.trade.realToken != 0)
  }

  // ---------------------------------------------------------------------------------
  // The points of the curve

  ghost predicate PointMatches(p: Point, e: Event, s: State) {
    && e.data.TradeEvent?
    && p.sourceEventId == IdOf(e.origin) && e.origin.txIndex == Some(p.txIndex)
    && p.trade == e.data.trade
    && p.decimals == s.decimals && p.supplyRaw == s.supplyRaw
    && Prices(p.trade, s.decimals, s.supplyRaw) == Some((p.priceSol, p.fdvSol))
    && Tradable(p.trade, s.decimals)
  }

  /** Every point before the last is incomplete; a complete last point has sold out and names its completion. */
  ghost predicate CompletionMarked(curve: seq<Point>, completion: Option<EventId>) {
    && (forall k :: 0 <= k < |curve| - 1 ==> !curve[k].complete && curve[k].completionEventId.None?)
    && (curve != [] ==>
          curve[|curve| - 1].completionEventId == completion && (curve[|curve| - 1].complete <==> completion.Some?))
    && (completion.Some? ==> curve != [] && curve[|curve| - 1].trade.realToken == 0)
  }

  ghost predicate CurveMatches(es: seq<Event>, trades: nat, placement: Placement, s: State, curve: seq<Point>) {
    && |curve| == trades
    && (forall k :: 0 <= k < trades ==>
          TradeAt(trades, placement, k) < |es| && PointMatches(curve[k], es[TradeAt(trades, placement, k)], s))
    && (forall k :: 0 <= k < trades - 1 ==> ReservesFollow(curve[k].trade, curve[k + 1].trade))
    && s.reserves == (if curve == [] then None else Some(curve[|curve| - 1].trade))
    && s.tradeCount == trades == s.buyCount + s.sellCount
  }

  function CompletionId(es: seq<Event>, trades: nat, placement: Placement): Option<EventId>
    requires placement != NoCompletion ==> trades > 0 && trades + 1 < |es|
  {
    if placement == NoCompletion then None else Some(IdOf(es[CompletionAt(trades, placement)].origin))
  }

  // ---------------------------------------------------------------------------------
  // What every replay keeps

  ghost predicate Settled(es: seq<Event>, r: Replay, trades: nat, placement: Placement, withdrawn: bool) {
    && Shaped(es, trades, placement, withdrawn)
    && Endings(es, trades, placement, withdrawn)
    && r.pending.None? && r.state.Some?
    && var s := r.state.value;
       && s.bondingCurve == es[0].data.bondingCurve && s.decimals == es[0].data.decimals
       && s.supplyRaw == es[0].data.supplyRaw
       && s.phase == (if placement == NoCompletion then Curve else if withdrawn then Migrated else Complete)
       && s.eventCount == |es|
       && |es| == |Lifecycle(trades, placement, withdrawn)|
       && CurveMatches(es, trades, placement, s, r.curve)
       && CompletionMarked(r.curve, CompletionId(es, trades, placement))
       && (placement == BeforeFinalTrade && trades >= 2 ==> r.curve[trades - 2].trade.realToken != 0)
       && r.lastTradeOrigin == (if trades == 0 then None else Some(es[TradeAt(trades, placement, trades - 1)].origin))
  }

  /** A completion that came first waits for its final trade. */
  ghost predicate Waiting(es: seq<Event>, r: Replay, trades: nat) {
    && es != []
    && var last := es[|es| - 1];
       && last.data.CompleteEvent?
       && r.state.Some? && last.data.completeCurve == r.state.value.bondingCurve
       && r.pending == Some((last.origin, last.data))
       && Settled(es[..|es| - 1], r.(pending := None), trades, NoCompletion, false)
       && !SoldOut(r.state.value)
       && Ordered(es)
  }

  ghost predicate Reachable(es: seq<Event>, r: Replay) {
    && r.lastOrder == (if es == [] then None else OrderOf(es[|es| - 1].origin))
    && (es == [] ==> r == START)
    && (es != [] ==>
          || (exists trades, placement, withdrawn :: Settled(es, r, trades, placement, withdrawn))
          || (exists trades :: Waiting(es, r, trades)))
  }

  /** Events in increasing order, each with a transaction index. */
  ghost predicate Ordered(es: seq<Event>) {
    && (forall i :: 0 <= i < |es| ==> es[i].origin.txIndex.Some?)
    && (forall i, j :: 0 <= i < j < |es| ==> Precedes(OrderOf(es[i].origin).value, OrderOf(es[j].origin).value))
  }

  lemma OrderedAppend(es: seq<Event>, r: Replay, e: Event)
    requires Ordered(es) && r.lastOrder == (if es == [] then None else OrderOf(es[|es| - 1].origin))
    requires PendingIsComplete(r) && Step(r, e).Some?
    ensures Ordered(es + [e])
    ensures Step(r, e).value.lastOrder == OrderOf(e.origin)
  {
    var all := es + [e];
    forall i | 0 <= i < |es|
      ensures Precedes(OrderOf(es[i].origin).value, OrderOf(e.origin).value)
    {
      if i < |es| - 1 {
        PrecedesTransitive(OrderOf(es[i].origin).value, OrderOf(es[|es| - 1].origin).value, OrderOf(e.origin).value);
      }
    }
  }

  lemma PrecedesTransitive(x: Order, y: Order, z: Order)
    requires Precedes(x, y) && Precedes(y, z)
    ensures Precedes(x, z)
  {
  }

  lemma KindsAppend(es: seq<Event>, e: Event)
    ensures Kinds(es + [e]) == Kinds(es) + [KindOf(e)]
  {
  }

  lemma CreateStep(r: Replay, e: Event)
    requires r == START && Step(r, e).Some? && Ordered([e])
    ensures Settled([e], Step(r, e).value, 0, NoCompletion, false)
  {
    assert Kinds([e]) == [KindOf(e)];
    assert Lifecycle(0, NoCompletion, false) == [KCreate];
  }

  /** The curve after one more trade, with the completion that came before it, if any. */
  lemma TradeCurve(es: seq<Event>, before: State, curve: seq<Point>, trades: nat, es': seq<Event>, after: State,
                   p: Point, e: Event, placement: Placement)
    requires CurveMatches(es, trades, NoCompletion, before, curve)
    requires es <= es' && placement in {NoCompletion, BeforeFinalTrade}
    requires TradeAt(trades + 1, placement, trades) < |es'| && es'[TradeAt(trades + 1, placement, trades)] == e
    requires e.data.TradeEvent? && ApplyTrade(before, e.data.trade, e.origin.slot).Some?
    requires var traded := ApplyTrade(before, e.data.trade, e.origin.slot).value;
             && after.reserves == traded.reserves && after.priceSol == traded.priceSol && after.fdvSol == traded.fdvSol
             && after.tradeCount == traded.tradeCount && after.buyCount == traded.buyCount
             && after.sellCount == traded.sellCount
             && after.decimals == before.decimals && after.supplyRaw == before.supplyRaw
    requires exists completion :: PointOf(after, e.origin, e.data.trade, completion) == Some(p)
    ensures CurveMatches(es', trades + 1, placement, after, curve + [p])
  {
    hide Ratio, Prices;
    var more := curve + [p];
    forall k | 0 <= k < trades + 1
      ensures TradeAt(trades + 1, placement, k) < |es'|
              && PointMatches(more[k], es'[TradeAt(trades + 1, placement, k)], after)
    {
      if k == trades {
        TradedPoint(before, e);
      } else {
        assert TradeAt(trades + 1, placement, k) == TradeAt(trades, NoCompletion, k) == k + 1;
        assert es'[k + 1] == es[k + 1];
      }
    }
  }

  lemma TradedPoint(s: State, e: Event)
    requires e.data.TradeEvent? && ApplyTrade(s, e.data.trade, e.origin.slot).Some?
    ensures e.data.trade.virtualToken > 0 && PriceNumerator(e.data.trade, s.decimals).Some?
  {
    hide Ratio;
  }

  lemma TradeStep(es: seq<Event>, r: Replay, e: Event, trades: nat)
    requires Settled(es, r, trades, NoCompletion, false) && Step(r, e).Some? && Ordered(es + [e])
    requires e.data.TradeEvent?
    ensures Settled(es + [e], Step(r, e).value, trades + 1, NoCompletion, false)
  {
    hide Ratio, Prices, Tradable, Precedes, ReservesFollow, Shaped, Endings;
    TradeShape(es, e, trades);
    var after := Step(r, e).value;
    var p := after.curve[|r.curve|];
    TradeCurve(es, r.state.value, r.curve, trades, es + [e], after.state.value, p, e, NoCompletion);
    assert (es + [e])[trades + 1] == e;
  }

  lemma TradeShape(es: seq<Event>, e: Event, trades: nat)
    requires Shaped(es, trades, NoCompletion, false) && Endings(es, trades, NoCompletion, false)
    requires e.data.TradeEvent? && Ordered(es + [e])
    ensures |es| == trades + 1
    ensures Shaped(es + [e], trades + 1, NoCompletion, false) && Endings(es + [e], trades + 1, NoCompletion, false)
  {
    hide Ordered;
    KindsAppend(es, e);
    assert |es| == |Kinds(es)|;
    assert Lifecycle(trades + 1, NoCompletion, false) == Lifecycle(trades, NoCompletion, false) + [KTrade];
  }

  lemma FinalTradeStep(es: seq<Event>, r: Replay, e: Event, trades: nat)
    requires Waiting(es, r, trades) && PendingIsComplete(r) && Step(r, e).Some? && Ordered(es + [e])
    requires e.data.TradeEvent?
    ensures Settled(es + [e], Step(r, e).value, trades + 1, BeforeFinalTrade, false)
  {
    hide Ratio, Prices, Tradable, Precedes, ReservesFollow, Shaped, Endings, Ordered, Kinds, PointMatches;
    var init, c := es[..|es| - 1], es[|es| - 1];
    assert es == init + [c];
    FinalShape(es, r, e, trades);
    var after := Step(r, e).value;
    var p := after.curve[|r.curve|];
    TradeCurve(init, r.state.value, r.curve, trades, es + [e], after.state.value, p, e, BeforeFinalTrade);
    assert (es + [e])[trades + 2] == e && (es + [e])[trades + 1] == c;
  }

  lemma FinalShape(es: seq<Event>, r: Replay, e: Event, trades: nat)
    requires Waiting(es, r, trades) && PendingIsComplete(r) && Step(r, e).Some? && Ordered(es + [e])
    requires e.data.TradeEvent?
    ensures |es| == trades + 2
    ensures Shaped(es + [e], trades + 1, BeforeFinalTrade, false)
            && Endings(es + [e], trades + 1, BeforeFinalTrade, false)
  {
    hide Ratio, Prices, Tradable, Precedes, ReservesFollow, ApplyTrade, PointOf, CurveMatches, CompletionMarked;
    var init, c := es[..|es| - 1], es[|es| - 1];
    assert es == init + [c];
    KindsAppend(init, c);
    KindsAppend(es, e);
    assert Lifecycle(trades + 1, BeforeFinalTrade, false) ==
           Lifecycle(trades, NoCompletion, false) + [KComplete] + [KTrade];
    assert |es| == |Kinds(es)|;
    assert (es + [e])[trades + 2] == e && (es + [e])[trades + 1] == c;
  }

  lemma {:induction false} CompleteStep(es: seq<Event>, r: Replay, e: Event, trades: nat)
    requires Settled(es, r, trades, NoCompletion, false) && Step(r, e).Some? && Ordered(es + [e])
    requires e.data.CompleteEvent?
    ensures if SoldOut(r.state.value) then Settled(es + [e], Step(r, e).value, trades, AfterFinalTrade, false)
            else Waiting(es + [e], Step(r, e).value, trades)
  {
    hide Ratio, Prices, ReservesFollow, Tradable, Precedes, Shaped, Endings, CurveMatches, Ordered;
    var all, after := es + [e], Step(r, e).value;
    if SoldOut(r.state.value) {
      CompleteShape(es, r, e, trades);
      CompleteCurve(es, r, e, trades);
      assert all[trades + 1] == e && all[trades] == es[trades];
    } else {
      assert all[..|all| - 1] == es;
    }
  }

  lemma CompleteShape(es: seq<Event>, r: Replay, e: Event, trades: nat)
    requires Settled(es, r, trades, NoCompletion, false) && Step(r, e).Some? && Ordered(es + [e])
    requires e.data.CompleteEvent? && SoldOut(r.state.value)
    ensures |es| == trades + 1 && trades > 0
    ensures Shaped(es + [e], trades, AfterFinalTrade, false) && Endings(es + [e], trades, AfterFinalTrade, false)
  {
    hide Ratio, Prices, ReservesFollow, Tradable, Precedes, Ordered, PointMatches;
    KindsAppend(es, e);
    assert |es| == |Kinds(es)|;
    assert Lifecycle(trades, AfterFinalTrade, false) == Lifecycle(trades, NoCompletion, false) + [KComplete];
    assert (es + [e])[trades + 1] == e && (es + [e])[trades] == es[trades];
  }

  lemma CompleteCurve(es: seq<Event>, r: Replay, e: Event, trades: nat)
    requires Settled(es, r, trades, NoCompletion, false) && Step(r, e).Some?
    requires e.data.CompleteEvent? && SoldOut(r.state.value)
    ensures CurveMatches(es + [e], trades, AfterFinalTrade, Step(r, e).value.state.value, Step(r, e).value.curve)
    ensures |r.curve| == trades > 0 && r.curve[trades - 1].trade.realToken == 0
  {
    hide Ratio, Prices, ReservesFollow, Tradable, Precedes, Shaped, Endings, CompletionMarked;
    var all, after := es + [e], Step(r, e).value;
    forall k | 0 <= k < trades
      ensures TradeAt(trades, AfterFinalTrade, k) < |all|
      ensures PointMatches(after.curve[k], all[TradeAt(trades, AfterFinalTrade, k)], after.state.value)
    {
      assert all[k + 1] == es[k + 1] == es[TradeAt(trades, NoCompletion, k)];
    }
  }

  lemma WithdrawStep(es: seq<Event>, r: Replay, e: Event, trades: nat, placement: Placement)
    requires Settled(es, r, trades, placement, false) && placement != NoCompletion
    requires Step(r, e).Some? && Ordered(es + [e]) && e.data.WithdrawEvent?
    ensures Settled(es + [e], Step(r, e).value, trades, placement, true)
  {
    hide Ratio, Prices, Tradable, ReservesFollow, Precedes, Shaped, Endings, Ordered;
    WithdrawShape(es, r, e, trades, placement);
    var all, after := es + [e], Step(r, e).value;
    assert |es| == trades + 2;
    forall k | 0 <= k < trades
      ensures PointMatches(after.curve[k], all[TradeAt(trades, placement, k)], after.state.value)
    {
      assert all[TradeAt(trades, placement, k)] == es[TradeAt(trades, placement, k)];
    }
    assert forall i :: 0 <= i < |es| ==> all[i] == es[i];
  }

  lemma WithdrawShape(es: seq<Event>, r: Replay, e: Event, trades: nat, placement: Placement)
    requires Settled(es, r, trades, placement, false) && placement != NoCompletion
    requires Step(r, e).Some? && Ordered(es + [e]) && e.data.WithdrawEvent?
    ensures |es| == trades + 2
    ensures Shaped(es + [e], trades, placement, true) && Endings(es + [e], trades, placement, true)
  {
    hide Ratio, Prices, Tradable, ReservesFollow, Precedes, Ordered, CurveMatches, CompletionMarked;
    KindsAppend(es, e);
    assert |es| == |Kinds(es)|;
    assert Lifecycle(trades, placement, true) == Lifecycle(trades, placement, false) + [KWithdraw];
    assert forall i :: 0 <= i < |es| ==> (es + [e])[i] == es[i];
  }

  // ---------------------------------------------------------------------------------
  // Every run

  /** One accepted event leads from a reachable replay to a reachable one. */
  lemma StepReachable(es: seq<Event>, r: Replay, e: Event)
    requires Reachable(es, r) && Ordered(es) && PendingIsComplete(r) && Step(r, e).Some?
    ensures Reachable(es + [e], Step(r, e).value) && Ordered(es + [e])
  {
    hide Settled, Ratio, Prices;
    OrderedAppend(es, r, e);
    if es == [] {
      assert [] + [e] == [e];
      CreateStep(r, e);
    } else if trades, placement, withdrawn :| Settled(es, r, trades, placement, withdrawn) {
      SettledPhase(es, r, trades, placement, withdrawn);
      match e.data
      case CreateEvent(_, _, _, _) =>
      case TradeEvent(_) => TradeStep(es, r, e, trades);
      case CompleteEvent(_, _) => CompleteStep(es, r, e, trades);
      case WithdrawEvent(_) => WithdrawStep(es, r, e, trades, placement);
    } else {
      var trades :| Waiting(es, r, trades);
      WaitingPhase(es, r, trades);
      FinalTradeStep(es, r, e, trades);
    }
  }

  lemma SettledPhase(es: seq<Event>, r: Replay, trades: nat, placement: Placement, withdrawn: bool)
    requires Settled(es, r, trades, placement, withdrawn)
    ensures r.pending.None? && r.state.Some? && (withdrawn ==> placement != NoCompletion)
    ensures r.state.value.phase ==
            (if placement == NoCompletion then Curve else if withdrawn then Migrated else Complete)
  {
  }

  lemma WaitingPhase(es: seq<Event>, r: Replay, trades: nat)
    requires Waiting(es, r, trades)
    ensures r.pending.Some? && r.state.Some? && r.state.value.phase == Curve && !SoldOut(r.state.value)
  {
  }

  lemma {:induction false} RunReachable(es: seq<Event>)
    requires Run(es).Some?
    ensures Reachable(es, Run(es).value) && Ordered(es)
  {
    hide Step, Reachable;
    if es == [] {
      StartReachable();
    } else {
      var init, last := es[..|es| - 1], es[|es| - 1];
      RunReachable(init);
      assert es == init + [last];
      StepReachable(init, Run(init).value, last);
    }
  }

  lemma StartReachable()
    ensures Reachable([], START)
  {
  }

  lemma SettledAdmissible(es: seq<Event>, r: Replay, trades: nat, placement: Placement, withdrawn: bool)
    requires Settled(es, r, trades, placement, withdrawn)
    ensures Admissible(es, trades, placement, withdrawn)
  {
    hide Ratio, Prices, PriceNumerator, Tradable, ReservesFollow, Shaped, Endings;
    var es', s := es, r.state.value;
    forall k | 0 <= k < trades
      ensures IsTrade(es', TradeAt(trades, placement, k))
      ensures Tradable(es'[TradeAt(trades, placement, k)].data.trade, s.decimals)
      ensures r.curve[k].trade == es'[TradeAt(trades, placement, k)].data.trade
    {
      assert PointMatches(r.curve[k], es[TradeAt(trades, placement, k)], s);
    }
    assert CreateFirst(es, trades, placement, withdrawn) by { CreateIsFirst(es, trades, placement, withdrawn); }
  }

  ghost predicate CreateFirst(es: seq<Event>, trades: nat, placement: Placement, withdrawn: bool) {
    es != [] && es[0].data.CreateEvent?
  }

  lemma CreateIsFirst(es: seq<Event>, trades: nat, placement: Placement, withdrawn: bool)
    requires (placement != NoCompletion ==> trades > 0) && Endings(es, trades, placement, withdrawn)
    ensures CreateFirst(es, trades, placement, withdrawn)
  {
  }

  // ---------------------------------------------------------------------------------
  // Admissible lists are accepted

  lemma PricesDefined(t: Trade, decimals: u32, supplyRaw: u64)
    requires Tradable(t, decimals)
    ensures Prices(t, decimals, supplyRaw).Some?
    ensures Ratio(MarkNumerator(t), Denominator(t)).Some?
  {
    hide Ratio, PriceNumerator;
    RatioDefined(PriceNumerator(t, decimals).value, Denominator(t));
    RatioDefined(ValueNumerator(t, supplyRaw), Denominator(t));
    RatioDefined(MarkNumerator(t), Denominator(t));
  }

  /** A lifecycle without completion is accepted, event by event. */
  lemma {:induction false} CurveAccepted(es: seq<Event>, trades: nat)
    requires Admissible(es, trades, NoCompletion, false)
    ensures Run(es).Some? && Settled(es, Run(es).value, trades, NoCompletion, false)
    decreases trades
  {
    hide Admissible, Settled, Step;
    OpenPrefix(es, trades, NoCompletion, trades);
    if trades == 0 {
      CreateAccepted(es);
    } else {
      OpenPrefix(es, trades, NoCompletion, trades - 1);
      CurveAccepted(es[..trades], trades - 1);
      TradeExtends(es, trades);
    }
  }

  lemma CreateAccepted(es: seq<Event>)
    requires Admissible(es, 0, NoCompletion, false)
    ensures Run(es).Some? && Settled(es, Run(es).value, 0, NoCompletion, false)
  {
    hide Ratio, Prices, PriceNumerator, Settled;
    assert |es| == |Kinds(es)| == 1;
    assert es[..0] == [] && Run(es[..0]) == Some(START);
    assert es == [es[0]];
    CreateStep(START, es[0]);
  }

  lemma {:induction false} TradeExtends(es: seq<Event>, trades: nat)
    requires trades > 0 && Admissible(es, trades, NoCompletion, false) && |es| > trades
    requires Run(es[..trades]).Some? && Settled(es[..trades], Run(es[..trades]).value, trades - 1, NoCompletion, false)
    ensures Run(es).Some? && Settled(es, Run(es).value, trades, NoCompletion, false)
  {
    hide Run, Step, Admissible, Settled, Reachable;
    var init, last := es[..trades], es[trades];
    AdmissibleLength(es, trades);
    assert es == init + [last];
    RunReachable(init);
    var r := Run(init).value;
    OrderedStep(init, r, last);
    NextTrade(es, r, trades);
    TradeAccepted(r, last);
    RunStep(init, last);
    TradeStep(init, r, last, trades - 1);
  }

  lemma AdmissibleLength(es: seq<Event>, trades: nat)
    requires Admissible(es, trades, NoCompletion, false)
    ensures |es| == trades + 1 && Ordered(es)
  {
    assert |es| == |Kinds(es)|;
  }

  /** The next trade of an admissible curve meets the conditions of the state before it. */
  lemma NextTrade(es: seq<Event>, r: Replay, trades: nat)
    requires trades > 0 && Admissible(es, trades, NoCompletion, false) && |es| == trades + 1
    requires Settled(es[..trades], r, trades - 1, NoCompletion, false)
    ensures PendingIsComplete(r) && es[trades].data.TradeEvent? && r.pending.None? && r.state.Some?
    ensures var s, t := r.state.value, es[trades].data.trade;
            && s.phase == Curve
            && (s.reserves.Some? ==> ReservesFollow(s.reserves.value, t))
            && s.eventCount + 1 < U64_LIMIT && s.tradeCount < s.eventCount && s.buyCount + s.sellCount == s.tradeCount
            && Tradable(t, s.decimals)
  {
    hide Ratio, Prices, PriceNumerator, Tradable, Precedes, SameInstruction, ReservesFollow;
    var init := es[..trades];
    assert IsTrade(es, TradeAt(trades, NoCompletion, trades - 1));
    if trades >= 2 {
      var k := trades - 2;
      assert PointMatches(r.curve[k], init[TradeAt(trades - 1, NoCompletion, k)], r.state.value);
      var before, after := es[TradeAt(trades, NoCompletion, k)], es[TradeAt(trades, NoCompletion, k + 1)];
      assert ReservesFollow(before.data.trade, after.data.trade);
    }
  }

  /** Cutting an admissible lifecycle after some of its trades leaves an admissible open curve. */
  lemma OpenPrefix(es: seq<Event>, trades: nat, placement: Placement, n: nat)
    requires Admissible(es, trades, placement, false)
    requires n <= (if placement == BeforeFinalTrade then trades - 1 else trades)
    ensures n + 1 <= |es| && Admissible(es[..n + 1], n, NoCompletion, false)
  {
    hide PriceNumerator, Tradable, ReservesFollow, Precedes, SameInstruction;
    assert |es| == |Kinds(es)|;
    var init := es[..n + 1];
    assert forall i :: 0 <= i < n + 1 ==> init[i] == es[i];
    assert Kinds(init) == Kinds(es)[..n + 1] == Lifecycle(n, NoCompletion, false);
    forall k | 0 <= k < n
      ensures IsTrade(init, TradeAt(n, NoCompletion, k))
              && init[TradeAt(n, NoCompletion, k)] == es[TradeAt(trades, placement, k)]
    {
      assert IsTrade(es, TradeAt(trades, placement, k));
    }
    forall k | 0 <= k < n - 1
      ensures ReservesFollow(init[TradeAt(n, NoCompletion, k)].data.trade,
                             init[TradeAt(n, NoCompletion, k + 1)].data.trade)
    {
      assert IsTrade(es, TradeAt(trades, placement, k)) && IsTrade(es, TradeAt(trades, placement, k + 1));
      assert init[TradeAt(n, NoCompletion, k + 1)] == es[TradeAt(trades, placement, k + 1)];
    }
  }

  lemma OrderedStep(init: seq<Event>, r: Replay, last: Event)
    requires Ordered(init + [last]) && Reachable(init, r) && init != []
    ensures OrderOf(last.origin).Some? && r.lastOrder.Some? && Precedes(r.lastOrder.value, OrderOf(last.origin).value)
  {
    var es := init + [last];
    assert es[|init| - 1] == init[|init| - 1] && es[|init|] == last;
  }

  /** A trade is accepted when its time, reserves, counters and prices allow it. */
  lemma TradeAccepted(r: Replay, e: Event)
    requires PendingIsComplete(r) && e.data.TradeEvent? && r.pending.None? && r.state.Some?
    requires OrderOf(e.origin).Some? && r.lastOrder.Some? && Precedes(r.lastOrder.value, OrderOf(e.origin).value)
    requires
      var s, t := r.state.value, e.data.trade;
      && s.phase == Curve
      && (s.reserves.Some? ==> ReservesFollow(s.reserves.value, t))
      && s.eventCount + 1 < U64_LIMIT && s.tradeCount < s.eventCount && s.buyCount + s.sellCount == s.tradeCount
      && Tradable(t, s.decimals)
    ensures Step(r, e).Some?
  {
    hide Ratio, Prices, PriceNumerator;
    PricesDefined(e.data.trade, r.state.value.decimals, r.state.value.supplyRaw);
  }

  /** The trade that consumes a waiting completion is accepted when it sells out in the same instruction. */
  lemma FinalTradeAccepted(r: Replay, e: Event)
    requires PendingIsComplete(r) && e.data.TradeEvent? && r.pending.Some? && r.state.Some?
    requires OrderOf(e.origin).Some? && r.lastOrder.Some? && Precedes(r.lastOrder.value, OrderOf(e.origin).value)
    requires SameInstruction(r.pending.value.0, e.origin)
    requires
      var s, t := r.state.value, e.data.trade;
      && s.phase == Curve && r.pending.value.1.completeCurve == s.bondingCurve && t.realToken == 0
      && (s.reserves.Some? ==> ReservesFollow(s.reserves.value, t))
      && s.eventCount + 2 < U64_LIMIT && s.tradeCount < s.eventCount && s.buyCount + s.sellCount == s.tradeCount
      && Tradable(t, s.decimals)
    ensures Step(r, e).Some?
  {
    hide Ratio, Prices, PriceNumerator;
    PricesDefined(e.data.trade, r.state.value.decimals, r.state.value.supplyRaw);
  }

  lemma {:induction false} AfterAccepted(es: seq<Event>, trades: nat)
    requires Admissible(es, trades, AfterFinalTrade, false)
    ensures Run(es).Some? && Settled(es, Run(es).value, trades, AfterFinalTrade, false)
  {
    hide Ratio, Prices, PriceNumerator, Run, Tradable;
    assert |es| == |Kinds(es)| == trades + 2;
    var init, last := es[..trades + 1], es[trades + 1];
    assert es == init + [last];
    OpenPrefix(es, trades, AfterFinalTrade, trades);
    CurveAccepted(init, trades);
    RunReachable(init);
    var r := Run(init).value;
    OrderedStep(init, r, last);
    assert PointMatches(r.curve[trades - 1], init[trades], r.state.value);
    RunStep(init, last);
    CompleteStep(init, r, last, trades);
  }

  lemma RunStep(init: seq<Event>, last: Event)
    requires Run(init).Some?
    ensures Run(init + [last]) == Step(Run(init).value, last)
  {
    assert (init + [last])[..|init|] == init;
  }

  lemma BeforeAccepted(es: seq<Event>, trades: nat)
    requires Admissible(es, trades, BeforeFinalTrade, false)
    ensures Run(es).Some? && Settled(es, Run(es).value, trades, BeforeFinalTrade, false)
  {
    hide Ratio, Prices, PriceNumerator, Run, Tradable, Step, Precedes;
    assert |es| == |Kinds(es)| == trades + 2;
    var init, c, last := es[..trades], es[trades], es[trades + 1];
    var mid := init + [c];
    assert es == mid + [last];
    OpenPrefix(es, trades, BeforeFinalTrade, trades - 1);
    CurveAccepted(init, trades - 1);
    RunReachable(init);
    var r := Run(init).value;
    OrderedPrefix(mid, last);
    OrderedStep(init, r, c);
    RunStep(init, c);
    if trades >= 2 {
      assert PointMatches(r.curve[trades - 2], init[trades - 1], r.state.value);
      assert es[TradeAt(trades, BeforeFinalTrade, trades - 2)] == init[trades - 1];
    }
    CompleteWaits(r, c);
    CompleteStep(init, r, c, trades - 1);
    RunReachable(mid);
    var w := Run(mid).value;
    OrderedStep(mid, w, last);
    assert IsTrade(es, TradeAt(trades, BeforeFinalTrade, trades - 1));
    assert w == r.(pending := Some((c.origin, c.data)), lastOrder := w.lastOrder);
    FinalTradeAccepted(w, last);
    RunStep(mid, last);
    FinalTradeStep(mid, w, last, trades - 1);
  }

  lemma CompleteWaits(r: Replay, c: Event)
    requires PendingIsComplete(r) && c.data.CompleteEvent? && r.pending.None? && r.state.Some?
    requires OrderOf(c.origin).Some? && r.lastOrder.Some? && Precedes(r.lastOrder.value, OrderOf(c.origin).value)
    requires r.state.value.phase == Curve && c.data.completeCurve == r.state.value.bondingCurve
             && !SoldOut(r.state.value)
    ensures Step(r, c) == Some(r.(pending := Some((c.origin, c.data)), lastOrder := OrderOf(c.origin)))
  {
  }

  lemma OrderedPrefix(es: seq<Event>, last: Event)
    requires Ordered(es + [last])
    ensures Ordered(es)
  {
    assert forall i :: 0 <= i < |es| ==> (es + [last])[i] == es[i];
  }

  lemma WithdrawAccepted(r: Replay, e: Event)
    requires PendingIsComplete(r) && e.data.WithdrawEvent? && r.pending.None? && r.state.Some?
    requires OrderOf(e.origin).Some? && r.lastOrder.Some? && Precedes(r.lastOrder.value, OrderOf(e.origin).value)
    requires r.state.value.phase == Complete && e.data.withdrawCurve == r.state.value.bondingCurve
    requires r.state.value.eventCount + 1 < U64_LIMIT
    ensures Step(r, e).Some?
  {
  }

  lemma {:induction false} WithdrawnAccepted(es: seq<Event>, trades: nat, placement: Placement)
    requires Admissible(es, trades, placement, true)
    ensures Run(es).Some? && Settled(es, Run(es).value, trades, placement, true)
  {
    hide Prices, PriceNumerator, Run, Tradable, Step, CurveMatches, CompletionMarked, Reachable;
    var n := |es| - 1;
    var init, last := es[..n], es[n];
    assert es == init + [last];
    WithdrawnPrefix(es, trades, placement);
    if placement == AfterFinalTrade { AfterAccepted(init, trades); } else { BeforeAccepted(init, trades); }
    RunReachable(init);
    var r := Run(init).value;
    assert init[0] == es[0];
    OrderedStep(init, r, last);
    RunStep(init, last);
    WithdrawAccepted(r, last);
    WithdrawStep(init, r, last, trades, placement);
  }

  lemma WithdrawnPrefix(es: seq<Event>, trades: nat, placement: Placement)
    requires Admissible(es, trades, placement, true)
    ensures |es| == trades + 3 && Admissible(es[..|es| - 1], trades, placement, false)
  {
    hide PriceNumerator, Tradable, ReservesFollow, Precedes, SameInstruction;
    assert |es| == |Kinds(es)| == trades + 3;
    var init := es[..|es| - 1];
    assert forall i :: 0 <= i < |init| ==> init[i] == es[i];
    assert Kinds(init) == Kinds(es)[..|es| - 1] == Lifecycle(trades, placement, false);
    forall k | 0 <= k < trades
      ensures IsTrade(init, TradeAt(trades, placement, k))
              && init[TradeAt(trades, placement, k)] == es[TradeAt(trades, placement, k)]
    {
      assert IsTrade(es, TradeAt(trades, placement, k));
    }
  }

  // ---------------------------------------------------------------------------------
  // Main results

  lemma AdmissibleRuns(es: seq<Event>, trades: nat, placement: Placement, withdrawn: bool)
    requires Admissible(es, trades, placement, withdrawn)
    ensures Run(es).Some? && Run(es).value.pending.None? && Run(es).value.state.Some?
    ensures Run(es).value.state.value.tradeCount == |Run(es).value.curve| < U64_LIMIT
  {
    hide Run, Admissible, Settled;
    AdmissibleWithdrawn(es, trades, placement, withdrawn);
    if withdrawn {
      WithdrawnAccepted(es, trades, placement);
    } else {
      match placement
      case NoCompletion => CurveAccepted(es, trades);
      case BeforeFinalTrade => BeforeAccepted(es, trades);
      case AfterFinalTrade => AfterAccepted(es, trades);
    }
    SettledCounts(es, Run(es).value, trades, placement, withdrawn);
  }

  /** A list of events is accepted for a mint exactly when the mint's events form an admissible lifecycle. */
  lemma AcceptedExactly(mint: string, events: seq<Event>)
    ensures Reconstruct(mint, events).Some? <==>
            exists trades, placement, withdrawn :: Admissible(MintEvents(mint, events), trades, placement, withdrawn)
  {
    hide Run, Admissible, Settled, MintEvents;
    var es := MintEvents(mint, events);
    if Reconstruct(mint, events).Some? {
      var trades, placement, withdrawn := Settles(es);
      SettledAdmissible(es, Run(es).value, trades, placement, withdrawn);
    } else if trades, placement, withdrawn :| Admissible(es, trades, placement, withdrawn) {
      AdmissibleRuns(es, trades, placement, withdrawn);
      assert false;
    }
  }

  lemma AdmissibleWithdrawn(es: seq<Event>, trades: nat, placement: Placement, withdrawn: bool)
    requires Admissible(es, trades, placement, withdrawn)
    ensures withdrawn ==> placement != NoCompletion
  {
  }

  lemma SettledCounts(es: seq<Event>, r: Replay, trades: nat, placement: Placement, withdrawn: bool)
    requires Settled(es, r, trades, placement, withdrawn)
    ensures r.pending.None? && r.state.Some? && r.state.value.tradeCount == |r.curve| < U64_LIMIT
  {
  }

  /** A run that ended without a waiting completion has settled. */
  lemma {:induction false} Settles(es: seq<Event>) returns (trades: nat, placement: Placement, withdrawn: bool)
    requires Run(es).Some? && Run(es).value.state.Some? && Run(es).value.pending.None?
    ensures Settled(es, Run(es).value, trades, placement, withdrawn)
  {
    hide Settled, Run;
    RunReachable(es);
    forall n | Waiting(es, Run(es).value, n)
      ensures false
    {
      WaitingPhase(es, Run(es).value, n);
    }
    trades, placement, withdrawn :| Settled(es, Run(es).value, trades, placement, withdrawn);
  }

  /**
   * The projection of an accepted list: its events have the lifecycle shape, all of them are
   * counted, the trades are the buys and the sells and each gives one curve point, and only the
   * last point can be complete, which it is exactly when it names the completion, at zero real tokens.
   */
  lemma {:induction false} ProjectionShape(mint: string, events: seq<Event>)
    requires Reconstruct(mint, events).Some?
    ensures var es, p := MintEvents(mint, events), Reconstruct(mint, events).value;
            && p.state.eventCount == |es|
            && p.state.tradeCount == p.state.buyCount + p.state.sellCount == |p.curve|
            && exists placement, withdrawn ::
                 && Shaped(es, |p.curve|, placement, withdrawn)
                 && p.state.phase ==
                    (if placement == NoCompletion then Curve else if withdrawn then Migrated else Complete)
                 && (forall k :: 0 <= k < |p.curve| ==>
                       TradeAt(|p.curve|, placement, k) < |es|
                       && PointMatches(p.curve[k], es[TradeAt(|p.curve|, placement, k)], p.state))
                 && (placement != NoCompletion ==> |p.curve| + 1 < |es|)
                 && CompletionMarked(p.curve, CompletionId(es, |p.curve|, placement))
  {
    hide Run, Shaped, PointMatches, CompletionMarked, MintEvents;
    var es := MintEvents(mint, events);
    RunReachable(es);
    var trades, placement, withdrawn := Settles(es);
  }

  /** Along a curve a buy never lowers the 18-digit price or value, and a sell never raises them. */
  lemma PricesFollowSide(mint: string, events: seq<Event>, k: nat)
    requires Reconstruct(mint, events).Some? && k + 1 < |Reconstruct(mint, events).value.curve|
    ensures var x, y := Reconstruct(mint, events).value.curve[k], Reconstruct(mint, events).value.curve[k + 1];
            if y.trade.isBuy then Scaled(x.priceSol) <= Scaled(y.priceSol) && Scaled(x.fdvSol) <= Scaled(y.fdvSol)
            else Scaled(x.priceSol) >= Scaled(y.priceSol) && Scaled(x.fdvSol) >= Scaled(y.fdvSol)
  {
    hide Run, Shaped, CompletionMarked, Scaled, Prices, MintEvents;
    var es, p := MintEvents(mint, events), Reconstruct(mint, events).value;
    RunReachable(es);
    var trades, placement, withdrawn := Settles(es);
    var x, y := p.curve[k], p.curve[k + 1];
    assert PointMatches(x, es[TradeAt(trades, placement, k)], p.state);
    assert PointMatches(y, es[TradeAt(trades, placement, k + 1)], p.state);
    if y.trade.isBuy {
      PriceOrder(x, y, p.state.decimals, p.state.supplyRaw);
    } else {
      PriceOrder(y, x, p.state.decimals, p.state.supplyRaw);
    }
  }

  /** More SOL and fewer tokens in the virtual reserves: no lower price and value. */
  lemma PriceOrder(x: Point, y: Point, decimals: u32, supplyRaw: u64)
    requires Prices(x.trade, decimals, supplyRaw) == Some((x.priceSol, x.fdvSol))
    requires Prices(y.trade, decimals, supplyRaw) == Some((y.priceSol, y.fdvSol))
    requires x.trade.virtualSol <= y.trade.virtualSol && x.trade.virtualToken >= y.trade.virtualToken
    ensures Scaled(x.priceSol) <= Scaled(y.priceSol) && Scaled(x.fdvSol) <= Scaled(y.fdvSol)
  {
    hide Scaled, Ratio;
    var a, b := PriceNumerator(x.trade, decimals).value, PriceNumerator(y.trade, decimals).value;
    var c, d := Denominator(x.trade), Denominator(y.trade);
    MulMono(x.trade.virtualSol, y.trade.virtualSol, Pow10(decimals));
    CrossMono(a, b, c, d);
    RatioMonotone(a, c, b, d);
    var f, g := ValueNumerator(x.trade, supplyRaw), ValueNumerator(y.trade, supplyRaw);
    MulMono(x.trade.virtualSol, y.trade.virtualSol, supplyRaw);
    CrossMono(f, g, c, d);
    RatioMonotone(f, c, g, d);
  }

  lemma CrossMono(a: nat, b: nat, c: nat, d: nat)
    requires a <= b && d <= c
    ensures a * d <= b * c
  {
    MulMono(a, b, d);
    MulMono(d, c, b);
  }
}
