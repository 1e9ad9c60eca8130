/** The 18-digit decimal of a ratio, by long division in checked 128-bit arithmetic. */
module PumpDecimal {
  import opened Common
  import opened Arithmetic

  const PRICE_SCALE: nat := 18

  /** The text "whole.fraction", the fraction given digit by digit. */
  datatype Decimal = Decimal(whole: nat, fraction: seq<nat>)

  function Pow10(k: nat): (p: nat)
    ensures p > 0
  {
    if k == 0 then 1 else 10 * Pow10(k - 1)
  }

  function DigitsValue(ds: seq<nat>): nat {
    if ds == [] then 0 else 10 * DigitsValue(ds[..|ds| - 1]) + ds[|ds| - 1]
  }

  /** The number a decimal denotes, in units of 10^-18. */
  function Scaled(d: Decimal): nat {
    d.whole * Pow10(PRICE_SCALE) + DigitsValue(d.fraction)
  }

  ghost predicate WellFormed(d: Decimal) {
    |d.fraction| == PRICE_SCALE && forall digit <- d.fraction :: digit < 10
  }

  lemma EighteenDigits()
    ensures Pow10(18) == 1_000_000_000_000_000_000
  {
    assert Pow10(6) == 1_000_000;
    assert Pow10(12) == 1_000_000_000_000;
  }

  // ---------------------------------------------------------------------------------
  // Long division

  /**
   * Long division, refused on a zero denominator and when ten times a remainder overflows.
   * On success the decimal is exactly the floor of numerator * 10^18 / denominator.
   */
  method DecimalRatio(numerator: nat, denominator: nat) returns (r: Option<Decimal>)
    requires numerator < U128_LIMIT && denominator < U128_LIMIT
    ensures r == Ratio(numerator, denominator)
  {
    hide Quot, Rem;
    if denominator == 0 {
      return None;
    }
    var whole, remainder := Quot(numerator, denominator), Rem(numerator, denominator);
    var fraction: seq<nat> := [];
    for k := 0 to PRICE_SCALE
      invariant Division(numerator, denominator, k) == Some((fraction, remainder))
    {
      if remainder * 10 >= U128_LIMIT {
        DivisionStops(numerator, denominator, k + 1, PRICE_SCALE);
        return None;
      }
      remainder := remainder * 10;
      var digit := Quot(remainder, denominator);
      fraction := fraction + [digit];
      remainder := Rem(remainder, denominator);
    }
    return Some(Decimal(whole, fraction));
  }

  /** The first k fraction digits and the remainder after them. */
  function Division(numerator: nat, denominator: nat, k: nat): Option<(seq<nat>, nat)>
    requires denominator > 0
  {
    if k == 0 then Some(([], Rem(numerator, denominator)))
    else
      var (digits, remainder) :- Division(numerator, denominator, k - 1);
      if remainder * 10 >= U128_LIMIT then None
      else Some((digits + [Quot(remainder * 10, denominator)], Rem(remainder * 10, denominator)))
  }

  function Ratio(numerator: nat, denominator: nat): Option<Decimal> {
    if denominator == 0 then None
    else
      var (digits, _) :- Division(numerator, denominator, PRICE_SCALE);
      Some(Decimal(Quot(numerator, denominator), digits))
  }

  lemma {:induction false} DivisionStops(numerator: nat, denominator: nat, k: nat, n: nat)
    requires denominator > 0 && k <= n && Division(numerator, denominator, k).None?
    ensures Division(numerator, denominator, n).None?
    decreases n
  {
    if k < n {
      DivisionStops(numerator, denominator, k, n - 1);
    }
  }

  lemma {:induction false} DivisionExact(numerator: nat, denominator: nat, k: nat)
    requires denominator > 0 && Division(numerator, denominator, k).Some?
    ensures var (digits, remainder) := Division(numerator, denominator, k).value;
            && |digits| == k
            && (forall digit <- digits :: digit < 10)
            && Quot(numerator, denominator) * Pow10(k) + DigitsValue(digits) == Quot(numerator * Pow10(k), denominator)
            && remainder == Rem(numerator * Pow10(k), denominator)
  {
    hide Quot, Rem;
    if k > 0 {
      DivisionExact(numerator, denominator, k - 1);
      var (digits, remainder) := Division(numerator, denominator, k - 1).value;
      var whole, p := Quot(numerator, denominator), Pow10(k - 1);
      NextDigit(numerator * p, denominator);
      Scale(numerator, p);
      Scale(whole, p);
      var (more, _) := Division(numerator, denominator, k).value;
      assert more[..|more| - 1] == digits;
    }
  }

  lemma Scale(x: nat, p: nat)
    ensures x * (10 * p) == 10 * (x * p)
  {
  }

  /** The decimal has 18 digits, each 0 to 9, and denotes exactly the floored ratio. */
  lemma RatioExact(numerator: nat, denominator: nat)
    requires Ratio(numerator, denominator).Some?
    ensures var d := Ratio(numerator, denominator).value;
            WellFormed(d) && Scaled(d) == Quot(numerator * Pow10(PRICE_SCALE), denominator)
  {
    DivisionExact(numerator, denominator, PRICE_SCALE);
  }

  lemma {:induction false} DivisionFits(numerator: nat, denominator: nat, k: nat)
    requires denominator > 0 && 10 * denominator <= U128_LIMIT
    ensures Division(numerator, denominator, k).Some?
  {
    hide Quot, Rem, Pow10;
    if k > 0 {
      DivisionFits(numerator, denominator, k - 1);
      DivisionExact(numerator, denominator, k - 1);
      QuotRem(numerator * Pow10(k - 1), denominator);
    }
  }

  /** No remainder overflows for any denominator up to a tenth of 2^128; the callers' are below 2^94. */
  lemma RatioDefined(numerator: nat, denominator: nat)
    requires 0 < denominator && 10 * denominator <= U128_LIMIT
    ensures Ratio(numerator, denominator).Some?
  {
    DivisionFits(numerator, denominator, PRICE_SCALE);
  }

  /** Division fails exactly when some remainder of the first digits is at least a tenth of 2^128. */
  lemma {:induction false} DivisionFailure(numerator: nat, denominator: nat, n: nat)
    requires denominator > 0
    ensures Division(numerator, denominator, n).None? <==>
            exists k :: 0 <= k < n && 10 * Rem(numerator * Pow10(k), denominator) >= U128_LIMIT
  {
    hide Quot, Rem, Pow10;
    if n > 0 {
      DivisionFailure(numerator, denominator, n - 1);
      if Division(numerator, denominator, n - 1).Some? {
        DivisionExact(numerator, denominator, n - 1);
      }
    }
  }

  /** Above that bound division can fail, here on 2^127 over 2^127 + 1. No caller has such a denominator. */
  lemma LargeDivisionFails()
    ensures var half := 0x8000_0000_0000_0000_0000_0000_0000_0000;
            half + 1 < U128_LIMIT && Ratio(half, half + 1).None?
  {
    var half := 0x8000_0000_0000_0000_0000_0000_0000_0000;
    assert Pow10(0) == 1 && Rem(half * Pow10(0), half + 1) == half;
    DivisionFailure(half, half + 1, PRICE_SCALE);
  }

  /** A larger ratio never prints as a smaller decimal. */
  lemma RatioMonotone(n: nat, d: nat, n': nat, d': nat)
    requires Ratio(n, d).Some? && Ratio(n', d').Some? && n * d' <= n' * d
    ensures Scaled(Ratio(n, d).value) <= Scaled(Ratio(n', d').value)
  {
    hide Quot, Rem, Division, Pow10;
    RatioExact(n, d);
    RatioExact(n', d');
    ScaleBoth(n, d, n', d', Pow10(PRICE_SCALE));
    QuotMonotone(n * Pow10(PRICE_SCALE), d, n' * Pow10(PRICE_SCALE), d');
  }

  lemma ScaleBoth(n: nat, d: nat, n': nat, d': nat, s: nat)
    requires n * d' <= n' * d
    ensures n * s * d' <= n' * s * d
  {
    MulMono(n * d', n' * d, s);
    assert n * s * d' == n * d' * s && n' * s * d == n' * d * s;
  }
}
