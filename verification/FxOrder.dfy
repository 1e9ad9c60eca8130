/** The tape does not depend on the order of its observations. */
module FxOrder {
  import opened Common
  import opened Ordering
  import opened FxTape

  function ObservationIds(os: seq<Observation>): seq<string> {
    seq(|os|, i requires 0 <= i < |os| => os[i].sourceEventId)
  }

  /** Timing succeeds exactly when every observation is usable and no source event repeats. */
  lemma {:induction false} TimeAllExact(os: seq<Observation>)
    ensures TimeAll(os).Some? <==> (forall o <- os :: TimeOne(o).Some?) && NoDup(ObservationIds(os))
    ensures TimeAll(os).Some? ==> |TimeAll(os).value| == |os|
    ensures TimeAll(os).Some? ==> forall i :: 0 <= i < |os| ==> TimeOne(os[i]) == Some(TimeAll(os).value[i])
  {
    hide TimeOne;
    if os != [] {
      var init, last := os[..|os| - 1], os[|os| - 1];
      assert os == init + [last];
      TimeAllExact(init);
      assert ObservationIds(os) == ObservationIds(init) + [last.sourceEventId];
      if TimeAll(init).Some? && TimeOne(last).Some? {
        TimedKeepsValue(last);
        var earlier := TimeAll(init).value;
        assert Ids(earlier) == ObservationIds(init) by {
          forall i | 0 <= i < |init|
            ensures Ids(earlier)[i] == ObservationIds(init)[i]
          {
            TimedKeepsValue(init[i]);
          }
        }
        AppendNoDup(ObservationIds(init), last.sourceEventId);
      } else if TimeAll(init).None? {
        if NoDup(ObservationIds(os)) {
          assert NoDup(ObservationIds(init)) by {
            assert forall i :: 0 <= i < |init| ==> ObservationIds(init)[i] == ObservationIds(os)[i];
          }
        }
      } else {
        assert last in os;
      }
    }
  }

  lemma TimedKeepsValue(o: Observation)
    ensures TimeOne(o).Some? ==> TimeOne(o).value.value == o
  {
  }

  lemma AppendNoDup<T>(s: seq<T>, x: T)
    ensures NoDup(s + [x]) <==> NoDup(s) && x !in s
  {
    assert (s + [x])[|s|] == x;
    assert forall i :: 0 <= i < |s| ==> (s + [x])[i] == s[i];
  }

  lemma {:induction false} TimedIdsDistinct(os: seq<Observation>)
    requires TimeAll(os).Some?
    ensures var ts := TimeAll(os).value;
            Ids(ts) == ObservationIds(os) && NoDup(Ids(ts)) && NoDup(ts) && Separates(TimedLess, ToSet(ts))
  {
    hide TimeOne;
    TimeAllExact(os);
    var ts := TimeAll(os).value;
    forall i | 0 <= i < |os|
      ensures ts[i].value == os[i] && Ids(ts)[i] == ObservationIds(os)[i]
    {
      TimedKeepsValue(os[i]);
    }
    assert NoDup(ts) by {
      forall i, j | 0 <= i < j < |ts|
        ensures ts[i] != ts[j]
      {
        assert Ids(ts)[i] != Ids(ts)[j];
      }
    }
    forall x, y | x in ToSet(ts) && y in ToSet(ts) && !TimedLess(x, y) && !TimedLess(y, x)
      ensures x == y
    {
      LexConnected(x.value.sourceEventId, y.value.sourceEventId);
      var i :| 0 <= i < |ts| && ts[i] == x;
      var j :| 0 <= j < |ts| && ts[j] == y;
      assert Ids(ts)[i] == Ids(ts)[j];
    }
  }

  lemma TimedWeak()
    ensures WeakOrder(TimedLess)
  {
    LexTotal();
  }

  lemma IdsByCount(os: seq<Observation>)
    ensures NoDup(ObservationIds(os)) <==> |set o | o in os :: o.sourceEventId| == |os|
  {
    NoDupByCount(ObservationIds(os));
    assert forall x :: x in ObservationIds(os) <==> exists i :: 0 <= i < |os| && os[i].sourceEventId == x by {
      assert forall i :: 0 <= i < |os| ==> ObservationIds(os)[i] == os[i].sourceEventId;
    }
    assert ToSet(ObservationIds(os)) == set o | o in os :: o.sourceEventId;
  }

  lemma TimedSet(os: seq<Observation>)
    requires TimeAll(os).Some?
    ensures ToSet(TimeAll(os).value) == set o | o in os && TimeOne(o).Some? :: TimeOne(o).value
  {
    hide TimeOne;
    TimeAllExact(os);
    var ts := TimeAll(os).value;
    forall t
      ensures t in ts <==> exists o :: o in os && TimeOne(o) == Some(t)
    {
      if t in ts { var i :| 0 <= i < |ts| && ts[i] == t; assert os[i] in os; }
      if exists o :: o in os && TimeOne(o) == Some(t) {
        var o :| o in os && TimeOne(o) == Some(t);
        var i :| 0 <= i < |os| && os[i] == o;
        assert ts[i] == t;
      }
    }
  }

  /** Rearranging the observations rearranges the timed observations, or both lists are refused. */
  lemma TimeAllRearranged(a: seq<Observation>, b: seq<Observation>)
    requires multiset(a) == multiset(b)
    ensures TimeAll(a).Some? <==> TimeAll(b).Some?
    ensures TimeAll(a).Some? ==> Rearranged(TimeAll(a).value, TimeAll(b).value)
  {
    hide TimeOne, TimeAll;
    SameMembers(a, b);
    assert forall o :: o in a <==> o in ToSet(a);
    assert forall o :: o in b <==> o in ToSet(b);
    TimeAllExact(a);
    TimeAllExact(b);
    IdsByCount(a);
    IdsByCount(b);
    assert (set o | o in a :: o.sourceEventId) == (set o | o in b :: o.sourceEventId);
    if TimeAll(a).Some? {
      TimedIdsDistinct(a);
      TimedIdsDistinct(b);
      TimedSet(a);
      TimedSet(b);
      assert (set o | o in a && TimeOne(o).Some? :: TimeOne(o).value) ==
             (set o | o in b && TimeOne(o).Some? :: TimeOne(o).value);
    }
  }

  lemma BucketItemsRearranged(a: seq<Timed>, b: seq<Timed>, bucket: int)
    requires Rearranged(a, b) && Separates(TimedLess, ToSet(a))
    ensures BucketItems(a, bucket) == BucketItems(b, bucket)
  {
    hide Filter, Sort;
    FilterRearranged(a, b, InBucket(bucket));
    TimedWeak();
    FilterMembers(a, InBucket(bucket));
    assert ToSet(Filter(a, InBucket(bucket))) <= ToSet(a);
    SortRearranged(TimedLess, Filter(a, InBucket(bucket)), Filter(b, InBucket(bucket)));
  }

  lemma {:induction false} PointsRearranged(a: seq<Timed>, b: seq<Timed>, buckets: seq<int>)
    requires Rearranged(a, b) && Separates(TimedLess, ToSet(a))
    ensures BuildPoints(a, buckets) == BuildPoints(b, buckets)
  {
    hide BucketItems, BuildPools, BuildPoint;
    if buckets != [] {
      PointsRearranged(a, b, buckets[..|buckets| - 1]);
      BucketItemsRearranged(a, b, buckets[|buckets| - 1]);
    }
  }

  /** Every order of the same observations fails alike or gives the same tape. */
  lemma TapeIgnoresOrder(a: seq<Observation>, b: seq<Observation>)
    requires multiset(a) == multiset(b)
    ensures Tape(a) == Tape(b)
  {
    hide TimeAll, BuildPoints;
    TimeAllRearranged(a, b);
    if TimeAll(a).Some? {
      var x, y := TimeAll(a).value, TimeAll(b).value;
      TimedIdsDistinct(a);
      assert ToSet(Buckets(x)) == ToSet(Buckets(y)) by {
        BucketSet(x);
        BucketSet(y);
      }
      IntTotal();
      OrderedKeysPermutation(IntLess, Buckets(x), Buckets(y));
      PointsRearranged(x, y, OrderedKeys(IntLess, Buckets(x)));
    }
  }

  lemma BucketSet(ts: seq<Timed>)
    ensures ToSet(Buckets(ts)) == set t | t in ToSet(ts) :: BucketOf(t.observedMs)
  {
    var bs := Buckets(ts);
    assert forall i :: 0 <= i < |ts| ==> bs[i] == BucketKey(ts[i]) == BucketOf(ts[i].observedMs) && ts[i] in ToSet(ts);
    forall b
      ensures b in ToSet(bs) <==> exists t :: t in ToSet(ts) && BucketOf(t.observedMs) == b
    {
      if b in ToSet(bs) { var i :| 0 <= i < |bs| && bs[i] == b; assert ts[i] in ToSet(ts); }
      if exists t :: t in ToSet(ts) && BucketOf(t.observedMs) == b {
        var t :| t in ToSet(ts) && BucketOf(t.observedMs) == b;
        var i :| 0 <= i < |ts| && ts[i] == t;
        assert bs[i] == b;
      }
    }
  }
}
