/**
 * The canonical order of a transaction's instructions, the scan that checks it, and the two
 * source adapters that flatten outer instructions and their inner groups into it.
 */
module InstructionOrder {
  import opened Common
  import opened Ordering

  type u32 = n: nat | n < U32_LIMIT

  datatype OuterIx = OuterIx(programIndex: u32, accounts: seq<u32>, data: Bytes)

  datatype InnerIx = InnerIx(stackHeight: Option<u32>, programIndex: u32, accounts: seq<u32>, data: Bytes)

  datatype InnerGroup = InnerGroup(index: u32, instructions: seq<InnerIx>)

  datatype TxIx = TxIx(
    outerIndex: u32,
    innerIndex: Option<u32>,
    stackHeight: Option<u32>,
    programIndex: u32,
    accounts: seq<u32>,
    data: Bytes)

  /** The position of an instruction: its outer index, and its inner index if it is nested. */
  datatype Tag = Tag(outer: nat, inner: Option<nat>)

  function TagOf(ix: TxIx): Tag {
    Tag(ix.outerIndex, if ix.innerIndex.Some? then Some(ix.innerIndex.value as nat) else None)
  }

  function Tags(ixs: seq<TxIx>): seq<Tag> {
    seq(|ixs|, i requires 0 <= i < |ixs| => TagOf(ixs[i]))
  }

  // ---------------------------------------------------------------------------------
  // Canonical order

  function GroupTags(outer: nat, size: nat): seq<Tag> {
    [Tag(outer, None)] + seq(size, j requires 0 <= j < size => Tag(outer, Some(j)))
  }

  /** Outer instructions 0, 1, 2, ..., each followed by its inner instructions 0, 1, 2, ... */
  function FlattenTags(sizes: seq<nat>): seq<Tag> {
    if sizes == [] then []
    else FlattenTags(sizes[..|sizes| - 1]) + GroupTags(|sizes| - 1, sizes[|sizes| - 1])
  }

  ghost predicate Canonical(tags: seq<Tag>) {
    exists sizes :: FlattenTags(sizes) == tags
  }

  predicate Follows(before: Tag, after: Tag) {
    || after == Tag(before.outer + 1, None)
    || after == Tag(before.outer, Some(if before.inner.Some? then before.inner.value + 1 else 0))
  }

  /** Canonical order, said of neighbours only. */
  ghost predicate Chained(tags: seq<Tag>) {
    && (tags != [] ==> tags[0] == Tag(0, None))
    && forall i :: 0 <= i < |tags| - 1 ==> Follows(tags[i], tags[i + 1])
  }

  /** A chained list stays chained when a group of the next outer index follows it. */
  lemma ChainedGroup(tags: seq<Tag>, outer: nat, size: nat)
    requires Chained(tags) && if outer == 0 then tags == [] else tags != [] && tags[|tags| - 1].outer == outer - 1
    ensures Chained(tags + GroupTags(outer, size))
  {
    var group := GroupTags(outer, size);
    var all := tags + group;
    forall i | 0 <= i < |all| - 1
      ensures Follows(all[i], all[i + 1])
    {
      if i < |tags| - 1 {
        assert all[i] == tags[i] && all[i + 1] == tags[i + 1];
      } else {
        assert all[i + 1] == group[i + 1 - |tags|];
        assert i >= |tags| ==> all[i] == group[i - |tags|];
      }
    }
  }

  lemma {:induction false} FlattenChained(sizes: seq<nat>)
    ensures Chained(FlattenTags(sizes))
    ensures sizes == [] ==> FlattenTags(sizes) == []
    ensures sizes != [] ==> var (tags, m) := (FlattenTags(sizes), sizes[|sizes| - 1]);
                            tags != [] && tags[|tags| - 1] == Tag(|sizes| - 1, if m == 0 then None else Some(m - 1))
  {
    hide Chained;
    if sizes == [] {
      assert Chained([]) by { NothingChained(); }
    } else {
      FlattenChained(sizes[..|sizes| - 1]);
      ChainedGroup(FlattenTags(sizes[..|sizes| - 1]), |sizes| - 1, sizes[|sizes| - 1]);
    }
  }

  lemma NothingChained()
    ensures Chained([])
  {
  }

  ghost function SizesOf(tags: seq<Tag>): seq<nat> {
    if tags == [] then []
    else
      var earlier, last := SizesOf(tags[..|tags| - 1]), tags[|tags| - 1];
      if last.inner.None? || earlier == [] then earlier + [0]
      else earlier[|earlier| - 1 := earlier[|earlier| - 1] + 1]
  }

  lemma {:induction false} ChainedFlatten(tags: seq<Tag>)
    requires Chained(tags)
    ensures FlattenTags(SizesOf(tags)) == tags
  {
    hide FlattenTags, Chained;
    if tags == [] {
      FlattenChained([]);
    } else {
      var init, last := tags[..|tags| - 1], tags[|tags| - 1];
      assert tags == init + [last];
      ChainedInit(init, last);
      ChainedFlatten(init);
      var earlier := SizesOf(init);
      FlattenChained(earlier);
      if last.inner.None? || earlier == [] {
        FlattenNewOuter(earlier);
      } else {
        FlattenGrown(earlier);
      }
    }
  }

  lemma ChainedInit(init: seq<Tag>, last: Tag)
    requires Chained(init + [last])
    ensures Chained(init)
    ensures if init == [] then last == Tag(0, None) else Follows(init[|init| - 1], last)
  {
    var tags := init + [last];
    assert forall i :: 0 <= i < |init| ==> tags[i] == init[i];
    assert tags[|init|] == last;
    assert init != [] ==> Follows(tags[|init| - 1], tags[|init| - 1 + 1]);
  }

  lemma FlattenNewOuter(earlier: seq<nat>)
    ensures FlattenTags(earlier + [0]) == FlattenTags(earlier) + [Tag(|earlier|, None)]
  {
    var grown := earlier + [0];
    assert grown[..|grown| - 1] == earlier && grown[|grown| - 1] == 0;
  }

  lemma FlattenGrown(earlier: seq<nat>)
    requires earlier != []
    ensures var (n, m) := (|earlier| - 1, earlier[|earlier| - 1]);
            FlattenTags(earlier[n := m + 1]) == FlattenTags(earlier) + [Tag(n, Some(m))]
  {
    var n := |earlier| - 1;
    var grown := earlier[n := earlier[n] + 1];
    assert grown[..n] == earlier[..n];
    assert GroupTags(n, earlier[n] + 1) == GroupTags(n, earlier[n]) + [Tag(n, Some(earlier[n]))];
  }

  lemma CanonicalIsChained(tags: seq<Tag>)
    ensures Canonical(tags) <==> Chained(tags)
  {
    if Chained(tags) {
      ChainedFlatten(tags);
    }
    forall sizes | FlattenTags(sizes) == tags
      ensures Chained(tags)
    {
      FlattenChained(sizes);
    }
  }

  /** No index is the largest u32, whose successor the scan cannot hold. */
  ghost predicate Countable(tags: seq<Tag>) {
    forall t <- tags :: t.outer + 1 < U32_LIMIT && (t.inner.Some? ==> t.inner.value + 1 < U32_LIMIT)
  }

  /** In a canonical list every index is smaller than the list's length. */
  lemma {:induction false} IndexesBelowLength(tags: seq<Tag>)
    requires Chained(tags)
    ensures forall t <- tags :: t.outer < |tags| && (t.inner.Some? ==> t.inner.value + 1 < |tags|)
  {
    if tags != [] {
      var init, last := tags[..|tags| - 1], tags[|tags| - 1];
      assert tags == init + [last];
      IndexesBelowLength(init);
      if init != [] {
        assert Follows(init[|init| - 1], last);
        assert init[|init| - 1] in init;
      }
    }
  }

  lemma CountableIfShort(tags: seq<Tag>)
    ensures |tags| < U32_LIMIT && Chained(tags) ==> Countable(tags)
  {
    if Chained(tags) {
      IndexesBelowLength(tags);
    }
  }

  lemma EmptyScanned(tags: seq<Tag>)
    requires tags == []
    ensures Chained(tags) && Countable(tags)
  {
  }

  /** One more tag in order, and what a tag out of order says of the whole list. */
  lemma ScannedStep(tags: seq<Tag>, i: nat)
    requires i < |tags| && Chained(tags[..i]) && Countable(tags[..i])
    ensures
      var t := tags[i];
      var fits := if i == 0 then t == Tag(0, None) else Follows(tags[i - 1], t);
      var counts := t.outer + 1 < U32_LIMIT && (t.inner.Some? ==> t.inner.value + 1 < U32_LIMIT);
      && (fits && counts ==> Chained(tags[..i + 1]) && Countable(tags[..i + 1]))
      && (!fits ==> !Chained(tags))
      && (!counts ==> !Countable(tags))
  {
    assert tags[..i + 1] == tags[..i] + [tags[i]] && tags[i] in tags;
  }

  /** The scan of the source: it accepts exactly the canonical lists whose indexes it can count past. */
  method ScanOrder(ixs: seq<TxIx>) returns (ok: bool)
    ensures ok <==> Canonical(Tags(ixs)) && Countable(Tags(ixs))
    ensures |ixs| < U32_LIMIT ==> (ok <==> Canonical(Tags(ixs)))
  {
    hide Canonical, FlattenTags, Chained, Countable;
    ghost var tags := Tags(ixs);
    CanonicalIsChained(tags);
    CountableIfShort(tags);
    EmptyScanned(tags[..0]);
    var nextOuter, nextInner := 0, 0;
    var activeOuter: Option<nat> := None;
    for i := 0 to |ixs|
      invariant Chained(tags[..i]) && Countable(tags[..i])
      invariant i == 0 ==> nextOuter == 0 && activeOuter.None?
      invariant i > 0 ==> activeOuter == Some(tags[i - 1].outer) && nextOuter == tags[i - 1].outer + 1
      invariant i > 0 ==> nextInner == if tags[i - 1].inner.Some? then tags[i - 1].inner.value + 1 else 0
      invariant nextOuter < U32_LIMIT && nextInner < U32_LIMIT
    {
      var ix := ixs[i];
      assert tags[i] == TagOf(ix);
      ScannedStep(tags, i);
      if ix.innerIndex.None? && ix.outerIndex == nextOuter {
        if nextOuter + 1 >= U32_LIMIT {
          return false;
        }
        activeOuter := Some(ix.outerIndex);
        nextOuter := nextOuter + 1;
        nextInner := 0;
      } else if ix.innerIndex.Some? && activeOuter == Some(ix.outerIndex) && ix.innerIndex.value == nextInner {
        if nextInner + 1 >= U32_LIMIT {
          return false;
        }
        nextInner := nextInner + 1;
      } else {
        return false;
      }
    }
    assert tags[..|ixs|] == tags;
    return true;
  }

  // ---------------------------------------------------------------------------------
  // Flattening

  ghost predicate GroupsValid(outer: nat, groups: seq<InnerGroup>) {
    && (forall g <- groups :: g.index < outer)
    && (forall i, j :: 0 <= i < j < |groups| ==> groups[i].index != groups[j].index)
  }

  /** The inner instructions of an outer one: those of the first group with its index. */
  function InnerOf(groups: seq<InnerGroup>, k: nat): seq<InnerIx> {
    if groups == [] then []
    else if groups[0].index == k then groups[0].instructions
    else InnerOf(groups[1..], k)
  }

  function MapOuter(k: nat, ix: OuterIx): TxIx {
    TxIx(k % U32_LIMIT, None, None, ix.programIndex, ix.accounts, ix.data)
  }

  function MapInner(k: nat, j: nat, ix: InnerIx): TxIx {
    TxIx(k % U32_LIMIT, Some(j % U32_LIMIT), ix.stackHeight, ix.programIndex, ix.accounts, ix.data)
  }

  function MapGroup(k: nat, ix: OuterIx, inner: seq<InnerIx>): seq<TxIx> {
    [MapOuter(k, ix)] + seq(|inner|, j requires 0 <= j < |inner| => MapInner(k, j, inner[j]))
  }

  function Mapped(outer: seq<OuterIx>, groups: seq<InnerGroup>): seq<TxIx> {
    if outer == [] then []
    else Mapped(outer[..|outer| - 1], groups) + MapGroup(|outer| - 1, outer[|outer| - 1], InnerOf(groups, |outer| - 1))
  }

  function InnerSizes(outer: nat, groups: seq<InnerGroup>): seq<nat> {
    seq(outer, k requires 0 <= k < outer => |InnerOf(groups, k)|)
  }

  /** Every index of the flattened list fits 32 bits. */
  ghost predicate Fits32(outer: nat, groups: seq<InnerGroup>) {
    outer <= U32_LIMIT && forall k :: 0 <= k < outer ==> |InnerOf(groups, k)| <= U32_LIMIT
  }

  lemma {:induction false} MappedTags(outer: seq<OuterIx>, groups: seq<InnerGroup>)
    requires Fits32(|outer|, groups)
    ensures Tags(Mapped(outer, groups)) == FlattenTags(InnerSizes(|outer|, groups))
  {
    hide InnerOf;
    if outer != [] {
      var n := |outer| - 1;
      var init, last, inner := outer[..n], outer[n], InnerOf(groups, n);
      MappedTags(init, groups);
      assert InnerSizes(|outer|, groups)[..n] == InnerSizes(n, groups);
      assert Tags(MapGroup(n, last, inner)) == GroupTags(n, |inner|);
    }
  }

  /** Whatever is flattened is in canonical order. */
  lemma MappedCanonical(outer: seq<OuterIx>, groups: seq<InnerGroup>)
    requires Fits32(|outer|, groups)
    ensures Canonical(Tags(Mapped(outer, groups)))
  {
    MappedTags(outer, groups);
  }

  lemma {:induction false} InnerOfMember(groups: seq<InnerGroup>, g: InnerGroup)
    requires g in groups && (forall i, j :: 0 <= i < j < |groups| ==> groups[i].index != groups[j].index)
    ensures InnerOf(groups, g.index) == g.instructions
  {
    if groups[0].index == g.index {
      var i :| 0 <= i < |groups| && groups[i] == g;
      assert groups[0] == g;
    } else {
      assert g in groups[1..];
      InnerOfMember(groups[1..], g);
    }
  }

  lemma {:induction false} InnerOfNone(groups: seq<InnerGroup>, k: nat)
    requires forall g <- groups :: g.index != k
    ensures InnerOf(groups, k) == []
  {
    if groups != [] {
      assert groups[0] in groups;
      InnerOfNone(groups[1..], k);
    }
  }

  /** The outer instructions of a flattened list. */
  function Outers(ixs: seq<TxIx>): seq<OuterIx> {
    if ixs == [] then []
    else
      var last := ixs[|ixs| - 1];
      Outers(ixs[..|ixs| - 1])
      + (if last.innerIndex.None? then [OuterIx(last.programIndex, last.accounts, last.data)] else [])
  }

  /** The instructions nested under one outer index. */
  function Inners(ixs: seq<TxIx>, k: nat): seq<InnerIx> {
    if ixs == [] then []
    else
      var last := ixs[|ixs| - 1];
      Inners(ixs[..|ixs| - 1], k)
      + (if last.innerIndex.Some? && last.outerIndex == k
         then [InnerIx(last.stackHeight, last.programIndex, last.accounts, last.data)] else [])
  }

  /** Both are read off a group's own instructions and no others. */
  lemma {:induction false} GroupRead(before: seq<TxIx>, k: nat, ix: OuterIx, inner: seq<InnerIx>, n: nat)
    requires k < U32_LIMIT && n <= |inner|
    ensures var ixs := before + MapGroup(k, ix, inner)[..n + 1];
            && Outers(ixs) == Outers(before) + [ix]
            && (forall j: nat :: Inners(ixs, j) == Inners(before, j) + (if j == k then inner[..n] else []))
  {
    hide Outers, Inners;
    var group := MapGroup(k, ix, inner);
    assert before + group[..n + 1] == (before + group[..n]) + [group[n]];
    ReadOne(before + group[..n], group[n]);
    if n == 0 {
      assert before + group[..0] == before;
    } else {
      GroupRead(before, k, ix, inner, n - 1);
      assert inner[..n] == inner[..n - 1] + [inner[n - 1]];
    }
  }

  lemma ReadOne(ixs: seq<TxIx>, ix: TxIx)
    ensures Outers(ixs + [ix]) ==
            Outers(ixs) + (if ix.innerIndex.None? then [OuterIx(ix.programIndex, ix.accounts, ix.data)] else [])
    ensures forall j: nat ::
              Inners(ixs + [ix], j) ==
              Inners(ixs, j)
              + (if ix.innerIndex.Some? && ix.outerIndex == j
                 then [InnerIx(ix.stackHeight, ix.programIndex, ix.accounts, ix.data)] else [])
  {
    assert (ixs + [ix])[..|ixs|] == ixs;
  }

  /** Flattening loses nothing: the outer instructions and each one's inner ones can be read back. */
  lemma {:induction false} FlatteningLossless(outer: seq<OuterIx>, groups: seq<InnerGroup>)
    requires |outer| <= U32_LIMIT
    ensures Outers(Mapped(outer, groups)) == outer
    ensures forall k: nat :: Inners(Mapped(outer, groups), k) == if k < |outer| then InnerOf(groups, k) else []
  {
    hide InnerOf, Outers, Inners, MapGroup;
    if outer == [] {
      NothingRead();
    } else {
      var n := |outer| - 1;
      var inner := InnerOf(groups, n);
      FlatteningLossless(outer[..n], groups);
      GroupRead(Mapped(outer[..n], groups), n, outer[n], inner, |inner|);
      GroupLength(n, outer[n], inner);
      assert MapGroup(n, outer[n], inner)[..|inner| + 1] == MapGroup(n, outer[n], inner);
      assert inner[..|inner|] == inner;
    }
  }

  lemma GroupLength(k: nat, ix: OuterIx, inner: seq<InnerIx>)
    ensures |MapGroup(k, ix, inner)| == |inner| + 1
  {
  }

  lemma NothingRead()
    ensures Outers([]) == [] && forall k: nat :: Inners([], k) == []
  {
  }

  /**
   * What stands from a position on for outer instruction k: the instruction itself, with no inner
   * index and no stack height, then the instructions nested under it, counted from zero, and no more.
   */
  ghost predicate Nested(ixs: seq<TxIx>, from: nat, to: nat, k: nat, ix: OuterIx, groups: seq<InnerGroup>) {
    && from < to <= |ixs|
    && ixs[from] == TxIx(k % 4_294_967_296, None, None, ix.programIndex, ix.accounts, ix.data)
    && (forall g <- groups :: g.index == k ==>
          && to == from + 1 + |g.instructions|
          && forall j :: 0 <= j < |g.instructions| ==>
               ixs[from + 1 + j] ==
               TxIx(k % 4_294_967_296, Some(j % 4_294_967_296), g.instructions[j].stackHeight,
                    g.instructions[j].programIndex, g.instructions[j].accounts, g.instructions[j].data))
    && ((forall g <- groups :: g.index != k) ==> to == from + 1)
  }

  /** The flattened list, instruction by instruction: where each outer one starts and what follows it. */
  lemma {:induction false} MappedMeans(outer: seq<OuterIx>, groups: seq<InnerGroup>) returns (starts: seq<nat>)
    requires forall i, j :: 0 <= i < j < |groups| ==> groups[i].index != groups[j].index
    ensures |starts| == |outer| + 1 && starts[0] == 0 && starts[|outer|] == |Mapped(outer, groups)|
    ensures forall k :: 0 <= k < |outer| ==>
              Nested(Mapped(outer, groups), starts[k], starts[k + 1], k, outer[k], groups)
  {
    hide InnerOf, Nested, MapGroup;
    if outer == [] {
      starts := [0];
    } else {
      var n := |outer| - 1;
      var init := MappedMeans(outer[..n], groups);
      var before, group := Mapped(outer[..n], groups), MapGroup(n, outer[n], InnerOf(groups, n));
      var all := Mapped(outer, groups);
      assert all == before + group;
      starts := init + [|all|];
      forall k | 0 <= k < |outer|
        ensures Nested(all, starts[k], starts[k + 1], k, outer[k], groups)
      {
        if k < n {
          assert outer[..n][k] == outer[k];
          NestedStays(before, group, init[k], init[k + 1], k, outer[k], groups);
        } else {
          NestedLast(before, n, outer[n], groups);
        }
      }
    }
  }

  lemma NestedStays(before: seq<TxIx>, more: seq<TxIx>, from: nat, to: nat, k: nat, ix: OuterIx,
                    groups: seq<InnerGroup>)
    requires Nested(before, from, to, k, ix, groups)
    ensures Nested(before + more, from, to, k, ix, groups)
  {
  }

  lemma NestedLast(before: seq<TxIx>, k: nat, ix: OuterIx, groups: seq<InnerGroup>)
    requires forall i, j :: 0 <= i < j < |groups| ==> groups[i].index != groups[j].index
    ensures var ixs := before + MapGroup(k, ix, InnerOf(groups, k)); Nested(ixs, |before|, |ixs|, k, ix, groups)
  {
    hide InnerOf;
    forall g | g in groups && g.index == k
      ensures InnerOf(groups, k) == g.instructions
    {
      InnerOfMember(groups, g);
    }
    if forall g <- groups :: g.index != k { InnerOfNone(groups, k); }
  }

  /** The order in which a provider lists the inner groups does not matter. */
  lemma {:induction false} GroupOrderIrrelevant(outer: seq<OuterIx>, a: seq<InnerGroup>, b: seq<InnerGroup>, n: nat)
    requires GroupsValid(n, a) && GroupsValid(n, b) && ToSet(a) == ToSet(b)
    ensures Mapped(outer, a) == Mapped(outer, b)
  {
    if outer != [] {
      var k := |outer| - 1;
      GroupOrderIrrelevant(outer[..k], a, b, n);
      assert forall g :: g in a <==> g in ToSet(a);
      assert forall g :: g in b <==> g in ToSet(b);
      if g :| g in a && g.index == k {
        InnerOfMember(a, g);
        InnerOfMember(b, g);
      } else {
        InnerOfNone(a, k);
        InnerOfNone(b, k);
      }
    }
  }

  // ---------------------------------------------------------------------------------
  // The two adapters

  /** The groups by outer index, refused if an index is out of range or repeated. */
  method CollectGroups(outer: nat, groups: seq<InnerGroup>) returns (ok: bool, inner: map<u32, InnerGroup>)
    ensures ok <==> GroupsValid(outer, groups)
    ensures ok ==> forall k: u32 :: InnerOf(groups, k) == if k in inner then inner[k].instructions else []
  {
    inner := map[];
    for i := 0 to |groups|
      invariant forall k :: 0 <= k < i ==>
                  groups[k].index < outer && groups[k].index in inner && inner[groups[k].index] == groups[k]
      invariant forall index <- inner :: exists k :: 0 <= k < i && groups[k].index == index
      invariant forall k, j :: 0 <= k < j < i ==> groups[k].index != groups[j].index
    {
      if groups[i].index >= outer {
        assert groups[i] in groups;
        return false, inner;
      }
      if groups[i].index in inner {
        return false, inner;
      }
      inner := inner[groups[i].index := groups[i]];
    }
    forall k: u32
      ensures InnerOf(groups, k) == if k in inner then inner[k].instructions else []
    {
      if k in inner {
        InnerOfMember(groups, inner[k]);
      } else {
        InnerOfNone(groups, k);
      }
    }
    ok := true;
  }

  method MapNested(k: nat, instructions: seq<InnerIx>) returns (r: Option<seq<TxIx>>)
    ensures r.Some? <==> |instructions| <= U32_LIMIT
    ensures r.Some? ==>
              r.value == seq(|instructions|, m requires 0 <= m < |instructions| => MapInner(k, m, instructions[m]))
  {
    var nested: seq<TxIx> := [];
    for j := 0 to |instructions|
      invariant j <= U32_LIMIT
      invariant nested == seq(j, m requires 0 <= m < j => MapInner(k, m, instructions[m]))
    {
      if j >= U32_LIMIT {
        return None;
      }
      nested := nested + [MapInner(k, j, instructions[j])];
    }
    return Some(nested);
  }

  /** The archive adapter: groups collected in a hash map, indexes converted with a check. */
  method MapArchive(outer: seq<OuterIx>, groups: seq<InnerGroup>) returns (r: Option<seq<TxIx>>)
    ensures r.Some? <==> GroupsValid(|outer|, groups) && Fits32(|outer|, groups)
    ensures r.Some? ==> r.value == Mapped(outer, groups)
  {
    hide InnerOf, GroupsValid;
    var ok, inner := CollectGroups(|outer|, groups);
    if !ok {
      return None;
    }
    var mapped: seq<TxIx> := [];
    for k := 0 to |outer|
      invariant k <= U32_LIMIT && forall m :: 0 <= m < k ==> |InnerOf(groups, m)| <= U32_LIMIT
      invariant mapped == Mapped(outer[..k], groups)
    {
      if k >= U32_LIMIT {
        return None;
      }
      assert outer[..k + 1][..k] == outer[..k];
      var ixs := [MapOuter(k, outer[k])];
      if k in inner {
        var nested := MapNested(k, inner[k].instructions);
        if nested.None? {
          assert |InnerOf(groups, k)| > U32_LIMIT;
          return None;
        }
        ixs := ixs + nested.value;
      }
      assert ixs == MapGroup(k, outer[k], InnerOf(groups, k));
      mapped := mapped + ixs;
    }
    assert outer[..|outer|] == outer;
    return Some(mapped);
  }

  /** The streaming adapter: duplicate groups found with a set, indexes wrapped to 32 bits. */
  method MapYellowstone(outer: seq<OuterIx>, groups: seq<InnerGroup>) returns (r: Option<seq<TxIx>>)
    ensures r.Some? <==> GroupsValid(|outer|, groups)
    ensures r.Some? ==> r.value == Mapped(outer, groups)
  {
    var innerGroups: set<u32> := {};
    for i := 0 to |groups|
      invariant forall k :: 0 <= k < i ==> groups[k].index < |outer| && groups[k].index in innerGroups
      invariant forall index <- innerGroups :: exists k :: 0 <= k < i && groups[k].index == index
      invariant forall k, j :: 0 <= k < j < i ==> groups[k].index != groups[j].index
    {
      if groups[i].index >= |outer| || groups[i].index in innerGroups {
        assert groups[i] in groups;
        return None;
      }
      innerGroups := innerGroups + {groups[i].index};
    }
    var instructions: seq<TxIx> := [];
    for k := 0 to |outer|
      invariant instructions == Mapped(outer[..k], groups)
    {
      assert outer[..k + 1][..k] == outer[..k];
      instructions := instructions + MapGroup(k, outer[k], InnerOf(groups, k));
    }
    assert outer[..|outer|] == outer;
    return Some(instructions);
  }

  /**
   * On the same transaction the two adapters accept alike and map alike, whatever order the
   * groups come in, and the order scan accepts what they produce.
   */
  lemma AdaptersAgree(outer: seq<OuterIx>, archived: seq<InnerGroup>, streamed: seq<InnerGroup>)
    requires multiset(archived) == multiset(streamed)
    requires |outer| < U32_LIMIT && forall g <- archived :: |g.instructions| < U32_LIMIT
    ensures GroupsValid(|outer|, archived) && Fits32(|outer|, archived) <==> GroupsValid(|outer|, streamed)
    ensures GroupsValid(|outer|, archived) ==>
              var mapped := Mapped(outer, archived);
              mapped == Mapped(outer, streamed) && Canonical(Tags(mapped)) && Countable(Tags(mapped))
  {
    SameMembers(archived, streamed);
    forall k: nat
      ensures |InnerOf(archived, k)| < U32_LIMIT
    {
      InnerOfBound(archived, k);
    }
    SameValidity(|outer|, archived, streamed);
    MappedTags(outer, archived);
    TagsCountable(|outer|, archived);
    if GroupsValid(|outer|, archived) {
      GroupOrderIrrelevant(outer, archived, streamed, |outer|);
    }
  }

  lemma {:induction false} InnerOfBound(groups: seq<InnerGroup>, k: nat)
    requires forall g <- groups :: |g.instructions| < U32_LIMIT
    ensures |InnerOf(groups, k)| < U32_LIMIT
  {
    if groups != [] {
      assert groups[0] in groups;
      InnerOfBound(groups[1..], k);
    }
  }

  lemma SameValidity(n: nat, a: seq<InnerGroup>, b: seq<InnerGroup>)
    requires multiset(a) == multiset(b)
    ensures GroupsValid(n, a) <==> GroupsValid(n, b)
  {
    SameMembers(a, b);
    assert forall g :: g in a <==> g in ToSet(a);
    assert forall g :: g in b <==> g in ToSet(b);
    IndexCount(a);
    IndexCount(b);
    assert (set g | g in a :: g.index) == (set g | g in b :: g.index);
  }

  function GroupIndexes(groups: seq<InnerGroup>): seq<u32> {
    seq(|groups|, i requires 0 <= i < |groups| => groups[i].index)
  }

  lemma IndexCount(groups: seq<InnerGroup>)
    ensures (forall i, j :: 0 <= i < j < |groups| ==> groups[i].index != groups[j].index)
            <==> |set g | g in groups :: g.index| == |groups|
  {
    var indexes := GroupIndexes(groups);
    NoDupByCount(indexes);
    assert forall i :: 0 <= i < |groups| ==> indexes[i] == groups[i].index;
    forall x
      ensures x in ToSet(indexes) <==> x in (set g | g in groups :: g.index)
    {
      if x in ToSet(indexes) { var i :| 0 <= i < |indexes| && indexes[i] == x; assert groups[i] in groups; }
      if g :| g in groups && g.index == x { var i :| 0 <= i < |groups| && groups[i] == g; assert indexes[i] == x; }
    }
    assert ToSet(indexes) == (set g | g in groups :: g.index);
  }

  lemma {:induction false} TagsCountable(n: nat, groups: seq<InnerGroup>)
    requires n < U32_LIMIT && forall k: nat :: |InnerOf(groups, k)| < U32_LIMIT
    ensures Countable(FlattenTags(InnerSizes(n, groups)))
  {
    if n > 0 {
      TagsCountable(n - 1, groups);
      assert InnerSizes(n, groups)[..n - 1] == InnerSizes(n - 1, groups);
    }
  }
}
