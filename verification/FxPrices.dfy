/** Bounds on the averages of the tape: volume-weighted prices, medians and their distances. */
module FxPrices {
  import opened Common
  import opened Ordering
  import opened FxTape

  ghost predicate Priced(t: Timed) {
    MicroUsd(t.stableRaw, t.solRaw) == Some(t.price)
  }

  // ---------------------------------------------------------------------------------
  // The volume-weighted price lies among the prices it averages

  lemma {:induction false} WeightedBounds(items: seq<Timed>, low: nat, high: nat)
    requires forall t <- items :: Priced(t) && low <= t.price <= high
    ensures low * Sum(Sols(items)) <= 1_000_000_000 * Sum(Stables(items))
    ensures items != [] ==> 1_000_000_000 * Sum(Stables(items)) < (high + 1) * Sum(Sols(items))
  {
    hide Priced, MicroUsd;
    if items != [] {
      var init, last := items[..|items| - 1], items[|items| - 1];
      assert forall t <- init :: t in items;
      WeightedBounds(init, low, high);
      assert Sols(items)[..|items| - 1] == Sols(init);
      assert Stables(items)[..|items| - 1] == Stables(init);
      PricedBound(last, low, high);
      assert last in items;
      if init == [] {
        NothingSummed(init);
      }
      AddBounds(low, high + 1, Sum(Sols(init)), last.solRaw, Sum(Stables(init)), last.stableRaw);
    }
  }

  lemma NothingSummed(items: seq<Timed>)
    requires items == []
    ensures Sum(Sols(items)) == 0 && Sum(Stables(items)) == 0
  {
  }

  lemma AddBounds(low: nat, high: nat, s: nat, r: nat, t: nat, q: nat)
    requires low * s <= 1_000_000_000 * t && 1_000_000_000 * t <= high * s
    requires low * r <= 1_000_000_000 * q && 1_000_000_000 * q < high * r
    ensures low * (s + r) <= 1_000_000_000 * (t + q) < high * (s + r)
  {
    assert low * (s + r) == low * s + low * r;
    assert high * (s + r) == high * s + high * r;
  }

  lemma PricedBound(t: Timed, low: nat, high: nat)
    requires Priced(t) && low <= t.price <= high
    ensures low * t.solRaw <= 1_000_000_000 * t.stableRaw < (high + 1) * t.solRaw
  {
    OneBound(t.stableRaw, t.solRaw, t.price, low, high);
  }

  lemma OneBound(stable: nat, sol: nat, price: nat, low: nat, high: nat)
    requires MicroUsd(stable, sol) == Some(price) && low <= price <= high
    ensures low * sol <= 1_000_000_000 * stable < (high + 1) * sol
  {
    FloorDivision(stable * 1_000_000_000, sol);
    Scale(low, price, sol);
    Scale(price + 1, high + 1, sol);
  }

  lemma FloorDivision(n: nat, d: nat)
    requires d > 0
    ensures n / d * d <= n < (n / d + 1) * d
  {
    assert n == n / d * d + n % d;
    assert (n / d + 1) * d == n / d * d + d;
  }

  lemma Scale(x: nat, y: nat, k: nat)
    requires x <= y
    ensures x * k <= y * k
  {
    assert y * k == x * k + (y - x) * k;
  }

  lemma QuotientBounds(n: nat, d: nat, low: nat, high: nat)
    requires low * d <= n < (high + 1) * d
    ensures d > 0 && low <= n / d <= high
  {
    assert d == 0 ==> (high + 1) * d == 0 && low * d == 0;
    FloorDivision(n, d);
    if n / d < low { Scale(n / d + 1, low, d); }
    if n / d > high { Scale(high + 1, n / d, d); }
  }

  /** The floored volume-weighted price lies between any bounds on the prices averaged. */
  lemma VwapBetween(items: seq<Timed>, low: nat, high: nat, vwap: nat)
    requires items != [] && forall t <- items :: Priced(t) && low <= t.price <= high
    requires MicroUsd(Sum(Stables(items)), Sum(Sols(items))) == Some(vwap)
    ensures low <= vwap <= high
  {
    WeightedBounds(items, low, high);
    QuotientBounds(Sum(Stables(items)) * 1_000_000_000, Sum(Sols(items)), low, high);
  }

  /** The median lies between the least and the greatest value. */
  lemma MedianBetween(values: seq<nat>, m: nat)
    requires Median(values) == Some(m)
    ensures values != [] && MinOf(values) <= m <= MaxOf(values)
  {
    hide Sort;
    var sorted := Sort(NatLess, values);
    SameMembers(sorted, values);
    assert forall v :: v in sorted <==> v in ToSet(sorted);
    assert forall v :: v in values <==> v in ToSet(values);
    assert forall i :: 0 <= i < |sorted| ==> MinOf(values) <= sorted[i] <= MaxOf(values) by {
      assert forall i :: 0 <= i < |sorted| ==> sorted[i] in values;
    }
  }

  /** An observation's price is within five percent of a center. */
  ghost predicate Near(price: nat, center: nat) {
    9500 * center <= 10000 * price <= 10500 * center
  }

  lemma PublishedBand(price: nat, vwap: nat, published: nat, center: nat)
    requires Near(price, center) && Near(vwap, center) && vwap > 0
    requires AbsDiff(vwap, published) * 10_000 < 201 * published
    ensures AbsDiff(price, published) * 10_000 < 1275 * published
  {
  }
}
