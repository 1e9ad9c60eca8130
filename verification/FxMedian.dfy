/** What a median is: the value with as many values on either side, said without sorting. */
module FxMedian {
  import opened Common
  import opened Ordering
  import opened FxTape

  // ---------------------------------------------------------------------------------
  // Ranks

  /** How many of the values lie below m. */
  function Below(values: seq<nat>, m: nat): nat {
    if values == [] then 0 else Below(values[..|values| - 1], m) + (if values[|values| - 1] < m then 1 else 0)
  }

  /** How many of the values lie above m. */
  function Above(values: seq<nat>, m: nat): nat {
    if values == [] then 0 else Above(values[..|values| - 1], m) + (if values[|values| - 1] > m then 1 else 0)
  }

  /** Fewer than k + 1 values lie below v, and fewer than n - k above: in order it comes at place k. */
  ghost predicate AtPlace(values: seq<nat>, v: nat, k: nat) {
    v in values && Below(values, v) <= k && Above(values, v) + k < |values|
  }

  /**
   * Of an odd number of values the one with at most half of them on either side; of an even
   * number the floored mean of the last of the lower half and the first of the upper half.
   */
  ghost predicate IsMedian(values: seq<nat>, m: nat) {
    if |values| % 2 == 1 then m in values && 2 * Below(values, m) <= |values| && 2 * Above(values, m) <= |values|
    else exists a: nat, b: nat :: Halves(values, a, b) && m == (a + b) / 2
  }

  /** The two values in the middle of an even number of them. */
  ghost predicate Halves(values: seq<nat>, a: nat, b: nat) {
    && a in values && b in values && a <= b
    && 2 * Below(values, a) < |values| && 2 * Above(values, a) <= |values|
    && 2 * Below(values, b) <= |values| && 2 * Above(values, b) < |values|
  }

  // ---------------------------------------------------------------------------------
  // Sorting changes no rank

  lemma {:induction false} BelowInsert(x: nat, s: seq<nat>, m: nat)
    ensures Below(Insert<nat>(NatLess, x, s), m) == Below(s, m) + (if x < m then 1 else 0)
    ensures Above(Insert<nat>(NatLess, x, s), m) == Above(s, m) + (if x > m then 1 else 0)
  {
    if s != [] {
      var init, last := s[..|s| - 1], s[|s| - 1];
      if x < last {
        BelowInsert(x, init, m);
        var r: seq<nat> := Insert<nat>(NatLess, x, s);
        assert r == Insert<nat>(NatLess, x, init) + [last];
        assert r[..|r| - 1] == Insert<nat>(NatLess, x, init);
      } else {
        assert (s + [x])[..|s|] == s;
      }
    }
  }

  lemma {:induction false} BelowSort(s: seq<nat>, m: nat)
    ensures Below(Sort<nat>(NatLess, s), m) == Below(s, m) && Above(Sort<nat>(NatLess, s), m) == Above(s, m)
  {
    if s != [] {
      BelowSort(s[..|s| - 1], m);
      BelowInsert(s[|s| - 1], Sort<nat>(NatLess, s[..|s| - 1]), m);
    }
  }

  lemma {:induction false} BelowCount(s: seq<nat>, n: nat, m: nat, k: nat)
    requires n <= |s| && k < |s| && m == s[k] && forall i, j :: 0 <= i < j < |s| ==> s[i] <= s[j]
    ensures Below(s[..n], m) <= if n <= k then n else k
    ensures Above(s[..n], m) <= if n <= k then 0 else n - 1 - k
  {
    if n > 0 {
      BelowCount(s, n - 1, m, k);
      assert s[..n][..n - 1] == s[..n - 1];
    }
  }

  /** In order, the value at place k has rank k. */
  lemma SortedPlace(values: seq<nat>, k: nat)
    requires k < |values|
    ensures |Sort<nat>(NatLess, values)| == |values| && AtPlace(values, Sort<nat>(NatLess, values)[k], k)
  {
    var s := Sort<nat>(NatLess, values);
    SameMembers(s, values);
    NatTotal();
    SortSorted<nat>(NatLess, values);
    assert s[k] in ToSet(s) && s[k] in ToSet(values);
    BelowCount(s, |s|, s[k], k);
    assert s[..|s|] == s;
    BelowSort(values, s[k]);
  }

  /** A place is taken by one value only. */
  lemma {:induction false} PlaceUnique(values: seq<nat>, v: nat, w: nat, k: nat)
    requires AtPlace(values, v, k) && AtPlace(values, w, k)
    ensures v == w
  {
    if v < w { Apart(values, v, w); }
    if w < v { Apart(values, w, v); }
  }

  /** Every value is below w or above v, if v is below w. */
  lemma {:induction false} Apart(values: seq<nat>, v: nat, w: nat)
    requires v < w
    ensures Below(values, w) + Above(values, v) >= |values|
  {
    if values != [] {
      Apart(values[..|values| - 1], v, w);
    }
  }

  // ---------------------------------------------------------------------------------
  // The median

  /** The sums of the middle stay in range. */
  ghost predicate MiddleFits(values: seq<nat>) {
    |values| % 2 == 0 ==> forall a: nat, b: nat :: Halves(values, a, b) ==>
      a + b < 0x1_0000_0000_0000_0000_0000_0000_0000_0000
  }

  /** There is one middle. */
  lemma MedianUnique(values: seq<nat>, m: nat, other: nat)
    requires IsMedian(values, m) && IsMedian(values, other)
    ensures m == other
  {
    hide Below, Above;
    var h := |values| / 2;
    if |values| % 2 == 1 {
      PlaceUnique(values, m, other, h);
    } else {
      var a: nat, b: nat :| Halves(values, a, b) && m == (a + b) / 2;
      var c: nat, d: nat :| Halves(values, c, d) && other == (c + d) / 2;
      HalvesUnique(values, a, b, c, d);
    }
  }

  lemma HalvesUnique(values: seq<nat>, a: nat, b: nat, c: nat, d: nat)
    requires |values| % 2 == 0 && Halves(values, a, b) && Halves(values, c, d)
    ensures a == c && b == d
  {
    hide Below, Above;
    PlaceUnique(values, a, c, |values| / 2 - 1);
    PlaceUnique(values, b, d, |values| / 2);
  }

  /** The median is exactly the value in the middle, and undefined only without values or if its sum overflows. */
  lemma MedianExactly(values: seq<nat>)
    ensures Median(values).Some? <==> values != [] && MiddleFits(values)
    ensures forall m: nat :: Median(values) == Some(m) ==> IsMedian(values, m)
    ensures forall m: nat :: values != [] && MiddleFits(values) && IsMedian(values, m) ==> Median(values) == Some(m)
  {
    hide Below, Above, Sort;
    if values != [] {
      var s, h := Sort<nat>(NatLess, values), |values| / 2;
      SortedPlace(values, h);
      if |values| % 2 == 1 {
        assert IsMedian(values, s[h]);
      } else {
        SortedPlace(values, h - 1);
        NatTotal();
        SortSorted<nat>(NatLess, values);
        assert Halves(values, s[h - 1], s[h]);
        forall a: nat, b: nat | Halves(values, a, b)
          ensures a == s[h - 1] && b == s[h]
        {
          HalvesUnique(values, a, b, s[h - 1], s[h]);
        }
      }
      forall m: nat, other: nat | IsMedian(values, m) && IsMedian(values, other)
        ensures m == other
      {
        MedianUnique(values, m, other);
      }
    }
  }
}
