/** Orders, sorting and the key order of an ordered map. */
module Ordering {
  import opened Common

  /** A comparison whose ties are an equivalence, as a library sort requires. */
  ghost predicate WeakOrder<T(!new)>(less: (T, T) -> bool) {
    && (forall x, y :: less(x, y) ==> !less(y, x))
    && (forall x, y, z :: !less(x, y) && !less(y, z) ==> !less(x, z))
  }

  /** A comparison that ties no two different members of s. */
  ghost predicate Separates<T(!new)>(less: (T, T) -> bool, s: set<T>) {
    forall x, y :: x in s && y in s && !less(x, y) && !less(y, x) ==> x == y
  }

  /** A comparison that only ties equal values. */
  ghost predicate TotalOrder<T(!new)>(less: (T, T) -> bool) {
    && WeakOrder(less)
    && (forall x, y :: !less(x, y) && !less(y, x) ==> x == y)
  }

  ghost predicate Sorted<T>(less: (T, T) -> bool, s: seq<T>) {
    forall i, j :: 0 <= i < j < |s| ==> !less(s[j], s[i])
  }

  ghost predicate StrictlySorted<T>(less: (T, T) -> bool, s: seq<T>) {
    forall i, j :: 0 <= i < j < |s| ==> less(s[i], s[j])
  }

  /** Places x after every element that is not greater. */
  function Insert<T>(less: (T, T) -> bool, x: T, s: seq<T>): (r: seq<T>)
    ensures multiset(r) == multiset(s) + multiset{x}
  {
    if s == [] then [x]
    else
      var last := s[|s| - 1];
      assert s == s[..|s| - 1] + [last];
      if less(x, last) then Insert(less, x, s[..|s| - 1]) + [last] else s + [x]
  }

  /** A stable sort. */
  function Sort<T>(less: (T, T) -> bool, s: seq<T>): (r: seq<T>)
    ensures multiset(r) == multiset(s)
  {
    if s == [] then []
    else
      assert s == s[..|s| - 1] + [s[|s| - 1]];
      Insert(less, s[|s| - 1], Sort(less, s[..|s| - 1]))
  }

  lemma {:induction false} InsertSorted<T(!new)>(less: (T, T) -> bool, x: T, s: seq<T>)
    requires WeakOrder(less) && Sorted(less, s)
    ensures Sorted(less, Insert(less, x, s))
  {
    if s != [] {
      var init, last := s[..|s| - 1], s[|s| - 1];
      if less(x, last) {
        InsertSorted(less, x, init);
        var r := Insert(less, x, init);
        forall i | 0 <= i < |r|
          ensures !less(last, r[i])
        {
          assert r[i] in multiset(r);
          assert r[i] == x || r[i] in init;
        }
      } else {
        forall i | 0 <= i < |s|
          ensures !less(x, s[i])
        {
          assert i < |s| - 1 ==> !less(last, s[i]);
        }
      }
    }
  }

  lemma {:induction false} SortSorted<T(!new)>(less: (T, T) -> bool, s: seq<T>)
    requires WeakOrder(less)
    ensures Sorted(less, Sort(less, s))
  {
    if s != [] {
      SortSorted(less, s[..|s| - 1]);
      InsertSorted(less, s[|s| - 1], Sort(less, s[..|s| - 1]));
    }
  }

  lemma SameMembers<T>(a: seq<T>, b: seq<T>)
    requires multiset(a) == multiset(b)
    ensures ToSet(a) == ToSet(b) && |a| == |b|
  {
    assert forall x :: x in a <==> x in multiset(a);
    assert forall x :: x in b <==> x in multiset(b);
    assert |multiset(a)| == |a| && |multiset(b)| == |b|;
  }

  lemma SameMultisetNoDup<T>(a: seq<T>, b: seq<T>)
    requires multiset(a) == multiset(b) && NoDup(a)
    ensures NoDup(b)
  {
    SameMembers(a, b);
    NoDupByCount(a);
    NoDupByCount(b);
  }

  lemma NoMembers<T>(s: seq<T>)
    requires ToSet(s) == ToSet<T>([])
    ensures s == []
  {
    hide ToSet;
    if s != [] {
      var init, last := s[..|s| - 1], s[|s| - 1];
      assert s == init + [last];
      ToSetAppend(init, last);
      NothingIn(last, ToSet(init));
    }
  }

  lemma NothingIn<T>(x: T, s: set<T>)
    ensures s + {x} != ToSet<T>([])
  {
    assert x in s + {x};
  }

  /** A strictly sorted list is determined by its set of members. */
  lemma {:induction false} StrictlySortedUnique<T(!new)>(less: (T, T) -> bool, a: seq<T>, b: seq<T>)
    requires WeakOrder(less) && Separates(less, ToSet(a))
    requires StrictlySorted(less, a) && StrictlySorted(less, b) && ToSet(a) == ToSet(b)
    ensures a == b
  {
    if a == [] {
      NoMembers(b);
    } else {
      assert a[|a| - 1] in ToSet(b);
      var x, y := a[|a| - 1], b[|b| - 1];
      assert x in ToSet(b) && y in ToSet(a);
      assert !less(x, y) by { var i :| 0 <= i < |a| && a[i] == y; }
      assert !less(y, x) by { var i :| 0 <= i < |b| && b[i] == x; }
      var a', b' := a[..|a| - 1], b[..|b| - 1];
      assert a == a' + [x] && b == b' + [x];
      ToSetAppend(a', x);
      ToSetAppend(b', x);
      assert forall i :: 0 <= i < |a'| ==> a'[i] == a[i] && less(a[i], x);
      assert forall i :: 0 <= i < |b'| ==> b'[i] == b[i] && less(b[i], x);
      assert x !in a' && x !in b';
      assert ToSet(a') == ToSet(a) - {x} && ToSet(b') == ToSet(b) - {x};
      StrictlySortedUnique(less, a', b');
    }
  }

  /** The same elements in possibly different orders, none of them twice. */
  ghost predicate Rearranged<T>(a: seq<T>, b: seq<T>) {
    NoDup(a) && NoDup(b) && ToSet(a) == ToSet(b)
  }

  lemma {:induction false} SortRearranges<T(!new)>(less: (T, T) -> bool, a: seq<T>)
    requires WeakOrder(less) && Separates(less, ToSet(a)) && NoDup(a)
    ensures Rearranged(a, Sort(less, a)) && StrictlySorted(less, Sort(less, a))
  {
    SortSorted(less, a);
    SameMembers(a, Sort(less, a));
    SameMultisetNoDup(a, Sort(less, a));
  }

  /** Sorting distinct elements gives the same list for every order of the input. */
  lemma {:induction false} SortRearranged<T(!new)>(less: (T, T) -> bool, a: seq<T>, b: seq<T>)
    requires WeakOrder(less) && Separates(less, ToSet(a)) && Rearranged(a, b)
    ensures Sort(less, a) == Sort(less, b)
  {
    SortRearranges(less, a);
    SortRearranges(less, b);
    StrictlySortedUnique(less, Sort(less, a), Sort(less, b));
  }

  /** The keys of an ordered map after inserting ks one by one. */
  function OrderedKeys<T(==)>(less: (T, T) -> bool, ks: seq<T>): seq<T> {
    if ks == [] then []
    else
      var others := OrderedKeys(less, ks[..|ks| - 1]);
      if ks[|ks| - 1] in others then others else Insert(less, ks[|ks| - 1], others)
  }

  lemma {:induction false} OrderedKeysExact<T(!new)>(less: (T, T) -> bool, ks: seq<T>)
    requires TotalOrder(less)
    ensures StrictlySorted(less, OrderedKeys(less, ks)) && ToSet(OrderedKeys(less, ks)) == ToSet(ks)
  {
    hide TotalOrder, StrictlySorted, Insert, ToSet;
    if ks == [] {
      NoKeys(less);
    } else {
      var init, last := ks[..|ks| - 1], ks[|ks| - 1];
      OrderedKeysExact(less, init);
      assert ks == init + [last];
      ToSetAppend(init, last);
      var others := OrderedKeys(less, init);
      if last in others {
        AlreadyIn(others, last);
      } else {
        InsertKey(less, last, others);
      }
    }
  }

  lemma NoKeys<T(!new)>(less: (T, T) -> bool)
    ensures StrictlySorted(less, OrderedKeys(less, [])) && ToSet(OrderedKeys<T>(less, [])) == ToSet<T>([])
  {
  }

  lemma AlreadyIn<T>(s: seq<T>, x: T)
    requires x in s
    ensures ToSet(s) + {x} == ToSet(s)
  {
  }

  lemma InsertKey<T(!new)>(less: (T, T) -> bool, last: T, others: seq<T>)
    requires TotalOrder(less) && StrictlySorted(less, others) && last !in others
    ensures StrictlySorted(less, Insert(less, last, others))
            && ToSet(Insert(less, last, others)) == ToSet(others) + {last}
  {
    hide Insert, ToSet;
    InsertSorted(less, last, others);
    SameMembers(others + [last], Insert(less, last, others));
    ToSetAppend(others, last);
    SameMultisetNoDup(others + [last], Insert(less, last, others));
  }

  lemma OrderedKeysPermutation<T(!new)>(less: (T, T) -> bool, a: seq<T>, b: seq<T>)
    requires TotalOrder(less) && ToSet(a) == ToSet(b)
    ensures OrderedKeys(less, a) == OrderedKeys(less, b)
  {
    OrderedKeysExact(less, a);
    OrderedKeysExact(less, b);
    StrictlySortedUnique(less, OrderedKeys(less, a), OrderedKeys(less, b));
  }

  // ---------------------------------------------------------------------------------
  // The orders in use

  predicate IntLess(x: int, y: int) { x < y }

  predicate NatLess(x: nat, y: nat) { x < y }

  predicate LexLess(a: string, b: string) {
    b != "" && (a == "" || a[0] < b[0] || (a[0] == b[0] && LexLess(a[1..], b[1..])))
  }

  lemma {:induction false} LexAsymmetric(a: string, b: string)
    ensures !(LexLess(a, b) && LexLess(b, a))
  {
    if a != "" && b != "" { LexAsymmetric(a[1..], b[1..]); }
  }

  lemma {:induction false} LexConnected(a: string, b: string)
    requires !LexLess(a, b) && !LexLess(b, a)
    ensures a == b
  {
    if a != "" && b != "" {
      LexConnected(a[1..], b[1..]);
      assert a == [a[0]] + a[1..] && b == [b[0]] + b[1..];
    }
  }

  lemma {:induction false} LexNegativelyTransitive(a: string, b: string, c: string)
    requires !LexLess(a, b) && !LexLess(b, c)
    ensures !LexLess(a, c)
  {
    if a != "" && b != "" && c != "" && a[0] == b[0] == c[0] {
      LexNegativelyTransitive(a[1..], b[1..], c[1..]);
    }
  }

  lemma LexTotal()
    ensures TotalOrder(LexLess)
  {
    forall x, y ensures LexLess(x, y) ==> !LexLess(y, x) { LexAsymmetric(x, y); }
    forall x, y | !LexLess(x, y) && !LexLess(y, x) ensures x == y { LexConnected(x, y); }
    forall x, y, z | !LexLess(x, y) && !LexLess(y, z) ensures !LexLess(x, z) { LexNegativelyTransitive(x, y, z); }
  }

  /** Dictionary order: up to some place the texts agree, and there one ends or has the smaller character. */
  lemma {:induction false} LexExactly(a: string, b: string)
    ensures LexLess(a, b) <==> exists n: nat :: FirstSmaller(a, b, n)
  {
    if a != "" && b != "" {
      if a[0] == b[0] {
        LexExactly(a[1..], b[1..]);
        forall n: nat | FirstSmaller(a[1..], b[1..], n)
          ensures FirstSmaller(a, b, n + 1)
        {
          assert a[..n + 1] == [a[0]] + a[1..][..n] && b[..n + 1] == [b[0]] + b[1..][..n];
        }
        forall n: nat | FirstSmaller(a, b, n)
          ensures n > 0 && FirstSmaller(a[1..], b[1..], n - 1)
        {
          assert a[1..][..n - 1] == a[..n][1..] && b[1..][..n - 1] == b[..n][1..];
        }
      } else {
        assert a[0] < b[0] ==> FirstSmaller(a, b, 0);
        forall n: nat | FirstSmaller(a, b, n)
          ensures n == 0
        {
          SameFirst(a, b, n);
        }
      }
    } else {
      assert b != "" ==> FirstSmaller(a, b, 0);
    }
  }

  lemma SameFirst(a: string, b: string, n: nat)
    requires FirstSmaller(a, b, n)
    ensures n == 0 || a[0] == b[0]
  {
    assert n > 0 ==> a[..n][0] == b[..n][0];
  }

  predicate FirstSmaller(a: string, b: string, n: nat) {
    n <= |a| && n < |b| && a[..n] == b[..n] && (n == |a| || a[n] < b[n])
  }

  lemma IntTotal()
    ensures TotalOrder(IntLess)
  {
  }

  lemma NatTotal()
    ensures TotalOrder(NatLess)
  {
  }

  // ---------------------------------------------------------------------------------
  // Selection

  function Filter<T>(s: seq<T>, p: T -> bool): (r: seq<T>) {
    if s == [] then []
    else Filter(s[..|s| - 1], p) + (if p(s[|s| - 1]) then [s[|s| - 1]] else [])
  }

  lemma FilterAppend<T>(s: seq<T>, x: T, p: T -> bool)
    ensures Filter(s + [x], p) == Filter(s, p) + (if p(x) then [x] else [])
  {
    assert (s + [x])[..|s|] == s;
  }

  lemma {:induction false} FilterMembers<T>(s: seq<T>, p: T -> bool)
    ensures forall x :: x in Filter(s, p) <==> x in s && p(x)
  {
    if s != [] {
      FilterMembers(s[..|s| - 1], p);
      assert s == s[..|s| - 1] + [s[|s| - 1]];
    }
  }

  /** A selection keeps the multiplicity of what it keeps. */
  lemma {:induction false} FilterCounts<T>(s: seq<T>, p: T -> bool)
    ensures forall x :: multiset(Filter(s, p))[x] == if p(x) then multiset(s)[x] else 0
  {
    if s != [] {
      FilterCounts(s[..|s| - 1], p);
      assert s == s[..|s| - 1] + [s[|s| - 1]];
    }
  }

  /** Which places of a list are kept, in increasing order. */
  ghost predicate Places<T>(s: seq<T>, at: seq<nat>, kept: seq<T>) {
    && |at| == |kept|
    && (forall i, j :: 0 <= i < j < |at| ==> at[i] < at[j])
    && (forall i :: 0 <= i < |at| ==> at[i] < |s| && s[at[i]] == kept[i])
  }

  /** Filtering keeps the elements at exactly the places where the condition holds, in their order. */
  lemma {:induction false} FilterPlaces<T>(s: seq<T>, p: T -> bool) returns (at: seq<nat>)
    ensures Places(s, at, Filter(s, p)) && forall k :: 0 <= k < |s| ==> (k in at <==> p(s[k]))
  {
    at := [];
    if s != [] {
      var init, last := s[..|s| - 1], s[|s| - 1];
      at := FilterPlaces(init, p);
      assert forall i :: 0 <= i < |at| ==> at[i] < |init|;
      if p(last) { at := at + [|s| - 1]; }
    }
  }

  lemma FilterNoDup<T>(s: seq<T>, p: T -> bool)
    requires NoDup(s)
    ensures NoDup(Filter(s, p))
  {
    hide Filter, NoDup;
    var r := Filter(s, p);
    FilterCounts(s, p);
    assert NoDup(r) by {
      forall x
        ensures multiset(r)[x] <= 1
      {
        OnceInMultiset(s, x);
      }
      SingleMeansNoDup(r);
    }
  }

  lemma SingleMeansNoDup<T>(s: seq<T>)
    requires forall x :: multiset(s)[x] <= 1
    ensures NoDup(s)
  {
    forall i, j | 0 <= i < j < |s|
      ensures s[i] != s[j]
    {
      if s[i] == s[j] {
        TwiceInMultiset(s, i, j);
      }
    }
  }

  lemma TwiceInMultiset<T>(s: seq<T>, i: nat, j: nat)
    requires i < j < |s| && s[i] == s[j]
    ensures multiset(s)[s[i]] >= 2
  {
    assert s == s[..j] + [s[j]] + s[j + 1..];
    assert s[i] in s[..j];
  }

  lemma {:induction false} OnceInMultiset<T>(s: seq<T>, x: T)
    requires NoDup(s)
    ensures multiset(s)[x] <= 1
  {
    if s != [] {
      OnceInMultiset(s[..|s| - 1], x);
      assert s == s[..|s| - 1] + [s[|s| - 1]];
      if s[|s| - 1] == x { assert x !in s[..|s| - 1]; }
    }
  }

  lemma {:induction false} FilterSet<T>(s: seq<T>, p: T -> bool)
    ensures ToSet(Filter(s, p)) == set x | x in ToSet(s) && p(x)
  {
    FilterMembers(s, p);
    var f := Filter(s, p);
    assert forall x :: x in f <==> x in s && p(x);
    assert forall x :: x in ToSet(f) ==> x in ToSet(s) && p(x);
    assert forall x :: x in ToSet(s) && p(x) ==> x in ToSet(f);
  }

  lemma FilterRearranged<T>(a: seq<T>, b: seq<T>, p: T -> bool)
    requires Rearranged(a, b)
    ensures Rearranged(Filter(a, p), Filter(b, p))
  {
    FilterNoDup(a, p);
    FilterNoDup(b, p);
    FilterSet(a, p);
    FilterSet(b, p);
  }
}
