/** The mutable curve state and the replay loop of the source, proved to compute the projection. */
module PumpReplay {
  import opened Common
  import opened Ordering
  import opened PumpDecimal
  import opened PumpCurve

  class PumpState {
    const bondingCurve: string
    const decimals: u32
    const supplyRaw: u64
    const firstSlot: u64
    const createdAt: Option<int>
    var phase: Phase
    var eventCount: u64
    var tradeCount: u64
    var buyCount: u64
    var sellCount: u64
    var lastSlot: u64
    var completedAt: Option<int>
    var migratedAt: Option<int>
    var lastTradeAt: Option<int>
    var reserves: Option<Trade>
    var priceSol: Option<Decimal>
    var fdvSol: Option<Decimal>

    function View(): State
      reads this
    {
      State(bondingCurve, decimals, supplyRaw, phase, eventCount, tradeCount, buyCount, sellCount, firstSlot, lastSlot,
            createdAt, completedAt, migratedAt, lastTradeAt, reserves, priceSol, fdvSol)
    }

    constructor (e: Event)
      requires e.data.CreateEvent?
      ensures View() == State(e.data.bondingCurve, e.data.decimals, e.data.supplyRaw, Curve, 1, 0, 0, 0,
                              e.origin.slot, e.origin.slot, e.origin.blockTime, None, None, None, None, None, None)
    {
      bondingCurve, decimals, supplyRaw := e.data.bondingCurve, e.data.decimals, e.data.supplyRaw;
      firstSlot, lastSlot, createdAt := e.origin.slot, e.origin.slot, e.origin.blockTime;
      phase, eventCount, tradeCount, buyCount, sellCount := Curve, 1, 0, 0, 0;
      completedAt, migratedAt, lastTradeAt, reserves, priceSol, fdvSol := None, None, None, None, None, None;
    }

    /** Recomputes price and value from the reserves of the last trade. */
    method RefreshPrice() returns (ok: bool)
      requires reserves.Some?
      modifies this`priceSol, this`fdvSol
      ensures ok <==> Priceable(reserves.value, decimals)
      ensures ok ==>
                && priceSol.Some? && fdvSol.Some?
                && PricedAt(reserves.value, decimals, supplyRaw, priceSol.value, fdvSol.value)
      ensures ok <==> Prices(reserves.value, decimals, supplyRaw).Some?
      ensures ok ==>
                priceSol.Some? && fdvSol.Some?
                && Prices(reserves.value, decimals, supplyRaw) == Some((priceSol.value, fdvSol.value))
    {
      hide Ratio, PriceNumerator, Denominator, ValueNumerator, Priceable, PricedAt;
      var t := reserves.value;
      PricesFloored(t, decimals, supplyRaw);
      if t.virtualToken == 0 {
        return false;
      }
      var numerator := PriceNumerator(t, decimals);
      if numerator.None? {
        return false;
      }
      var price := DecimalRatio(numerator.value, Denominator(t));
      var fdv := DecimalRatio(ValueNumerator(t, supplyRaw), Denominator(t));
      if price.None? || fdv.None? {
        return false;
      }
      priceSol, fdvSol := price, fdv;
      ok := true;
    }

    /** Counts one event, one trade and one buy or sell, each checked for overflow. */
    method CountTrade(isBuy: bool) returns (ok: bool)
      modifies this`eventCount, this`tradeCount, this`buyCount, this`sellCount
      ensures ok <==> && old(eventCount) + 1 < U64_LIMIT && old(tradeCount) + 1 < U64_LIMIT
                      && old(if isBuy then buyCount else sellCount) + 1 < U64_LIMIT
      ensures ok ==> && eventCount == old(eventCount) + 1 && tradeCount == old(tradeCount) + 1
                     && buyCount == old(buyCount) + (if isBuy then 1 else 0)
                     && sellCount == old(sellCount) + (if isBuy then 0 else 1)
    {
      if eventCount + 1 >= U64_LIMIT {
        return false;
      }
      eventCount := eventCount + 1;
      if tradeCount + 1 >= U64_LIMIT {
        return false;
      }
      tradeCount := tradeCount + 1;
      if isBuy {
        if buyCount + 1 >= U64_LIMIT {
          return false;
        }
        buyCount := buyCount + 1;
      } else {
        if sellCount + 1 >= U64_LIMIT {
          return false;
        }
        sellCount := sellCount + 1;
      }
      ok := true;
    }

    /** Counts a trade and takes over its reserves; the counters may already have moved when it fails. */
    method ApplyTrade(t: Trade, slot: u64) returns (ok: bool)
      modifies this
      ensures ok <==> PumpCurve.ApplyTrade(old(View()), t, slot).Some?
      ensures ok ==> View() == PumpCurve.ApplyTrade(old(View()), t, slot).value
      ensures ok ==>
                && old(phase) == Curve == phase && reserves == Some(t) && lastTradeAt == Some(t.timestamp)
                && lastSlot == slot && eventCount == old(eventCount) + 1 && tradeCount == old(tradeCount) + 1
                && buyCount == old(buyCount) + (if t.isBuy then 1 else 0)
                && sellCount == old(sellCount) + (if t.isBuy then 0 else 1)
                && completedAt == old(completedAt) && migratedAt == old(migratedAt)
    {
      hide Prices, ReservesFollow, Priceable, PricedAt;
      if phase != Curve || (reserves.Some? && !ReservesFollow(reserves.value, t)) {
        return false;
      }
      var counted := CountTrade(t.isBuy);
      if !counted {
        return false;
      }
      lastSlot, lastTradeAt, reserves := slot, Some(t.timestamp), Some(t);
      ok := RefreshPrice();
    }

    method ApplyComplete(completeCurve: string, at: int, slot: u64) returns (ok: bool)
      modifies this
      ensures ok <==> PumpCurve.ApplyComplete(old(View()), completeCurve, at, slot).Some?
      ensures ok ==> View() == PumpCurve.ApplyComplete(old(View()), completeCurve, at, slot).value
      ensures ok <==> old(phase) == Curve && completeCurve == bondingCurve && old(eventCount) + 1 < U64_LIMIT
                      && old(reserves).Some? && old(reserves).value.realToken == 0
      ensures ok ==>
                View() ==
                old(View()).(
                  eventCount := old(eventCount) + 1, phase := Complete, completedAt := Some(at), lastSlot := slot)
      ensures !ok ==> View() == old(View())
    {
      if phase != Curve || completeCurve != bondingCurve || reserves.None? || reserves.value.realToken != 0 {
        return false;
      }
      if eventCount + 1 >= U64_LIMIT {
        return false;
      }
      eventCount, phase, completedAt, lastSlot := eventCount + 1, Complete, Some(at), slot;
      ok := true;
    }

    method ApplyWithdraw(withdrawCurve: string, blockTime: Option<int>, slot: u64) returns (ok: bool)
      modifies this
      ensures ok <==> old(phase) == Complete && withdrawCurve == bondingCurve && old(eventCount) + 1 < U64_LIMIT
      ensures ok ==>
                View() ==
                old(View()).(
                  eventCount := old(eventCount) + 1, phase := Migrated, migratedAt := blockTime, lastSlot := slot)
      ensures !ok ==> View() == old(View())
    {
      if phase != Complete || withdrawCurve != bondingCurve || eventCount + 1 >= U64_LIMIT {
        return false;
      }
      eventCount, phase, migratedAt, lastSlot := eventCount + 1, Migrated, blockTime, slot;
      ok := true;
    }
  }

  lemma {:induction false} RunPrefix(es: seq<Event>, n: nat)
    requires n <= |es| && Run(es[..n]).None?
    ensures Run(es).None?
    decreases |es|
  {
    hide Step;
    if n < |es| {
      assert es[..|es| - 1][..n] == es[..n];
      RunPrefix(es[..|es| - 1], n);
    } else {
      assert es[..n] == es;
    }
  }

  /** The replay of the source: it filters the mint's events and moves one mutable state through them. */
  method ReconstructLoop(mint: string, events: seq<Event>) returns (r: Option<Projection>)
    ensures r == Reconstruct(mint, events)
  {
    hide Step, Filter;
    var mine := MintEvents(mint, events);
    var state: PumpState? := null;
    var lastOrder: Option<Order> := None;
    var pending: Option<(Origin, Data)> := None;
    var lastTradeOrigin: Option<Origin> := None;
    var curve: seq<Point> := [];
    for i := 0 to |mine|
      invariant Run(mine[..i]) ==
                Some(Replay(Held(state), lastOrder, pending, lastTradeOrigin, curve))
      invariant state != null ==> fresh(state)
    {
      assert mine[..i + 1][..i] == mine[..i];
      ghost var before := Run(mine[..i]).value;
      var ok;
      ok, state, lastOrder, pending, lastTradeOrigin, curve :=
        ReplayEvent(mine[i], state, lastOrder, pending, lastTradeOrigin, curve, before);
      if !ok {
        RunPrefix(mine, i + 1);
        return None;
      }
    }
    assert mine[..|mine|] == mine;
    if pending.Some? || state == null || |curve| >= U64_LIMIT || state.tradeCount != |curve| {
      return None;
    }
    return Some(Projection(state.View(), curve));
  }

  ghost function Held(state: PumpState?): Option<State>
    reads state
  {
    if state == null then None else Some(state.View())
  }

  /** One round of the loop: order check, then the effect of the event on the loop's variables. */
  method ReplayEvent(e: Event, state: PumpState?, lastOrder: Option<Order>, pending: Option<(Origin, Data)>,
                     lastTradeOrigin: Option<Origin>, curve: seq<Point>, ghost before: Replay)
    returns (ok: bool, state': PumpState?, order': Option<Order>, pending': Option<(Origin, Data)>,
             lastTradeOrigin': Option<Origin>, curve': seq<Point>)
    requires PendingIsComplete(before)
    requires before == Replay(Held(state), lastOrder, pending, lastTradeOrigin, curve)
    modifies state
    ensures state' == state || (state == null && fresh(state'))
    ensures ok <==> Step(before, e).Some?
    ensures ok ==>
              Step(before, e) == Some(Replay(Held(state'), order', pending', lastTradeOrigin', curve'))
  {
    hide Ratio, Prices, PumpCurve.ApplyTrade, PumpCurve.ApplyComplete, PointOf, ReservesFollow, Precedes,
         SameInstruction, CompletePoint;
    ok, state', order', pending', lastTradeOrigin', curve' := false, state, lastOrder, pending, lastTradeOrigin, curve;
    if e.origin.txIndex.None? {
      return;
    }
    var order := Order(e.origin.slot, e.origin.txIndex.value, e.origin.eventIndex);
    if lastOrder.Some? && !Precedes(lastOrder.value, order) {
      return;
    }
    order' := Some(order);
    match e.data
    case CreateEvent(_, _, supplyRaw, supplyFixed) =>
      if state != null || pending.Some? || !supplyFixed || supplyRaw == 0 {
        return;
      }
      state' := new PumpState(e);
      ok := true;
    case TradeEvent(t) =>
      pending' := None;
      if pending.Some? && !SameInstruction(pending.value.0, e.origin) {
        return;
      }
      if state == null {
        return;
      }
      var traded := state.ApplyTrade(t, e.origin.slot);
      if !traded {
        return;
      }
      if pending.Some? {
        var completed := state.ApplyComplete(pending.value.1.completeCurve, pending.value.1.completedAt,
                                             pending.value.0.slot);
        if !completed {
          return;
        }
      }
      var point := PointOf(state.View(), e.origin, t, if pending.Some? then Some(pending.value.0) else None);
      if point.None? {
        return;
      }
      curve' := curve + [point.value];
      lastTradeOrigin' := Some(e.origin);
      ok := true;
    case CompleteEvent(completeCurve, completedAt) =>
      if state == null || state.phase != Curve || completeCurve != state.bondingCurve {
        return;
      }
      if state.reserves.Some? && state.reserves.value.realToken == 0 {
        if lastTradeOrigin.None? || !SameInstruction(lastTradeOrigin.value, e.origin) {
          return;
        }
        var completed := state.ApplyComplete(completeCurve, completedAt, e.origin.slot);
        if !completed || curve == [] {
          return;
        }
        var last := |curve| - 1;
        curve' := curve[..last] + [CompletePoint(curve[last], e.origin)];
      } else {
        if pending.Some? {
          return;
        }
        pending' := Some((e.origin, e.data));
      }
      ok := true;
    case WithdrawEvent(withdrawCurve) =>
      if pending.Some? || state == null {
        return;
      }
      ok := state.ApplyWithdraw(withdrawCurve, e.origin.blockTime, e.origin.slot);
  }
}
