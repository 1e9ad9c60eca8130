/**
 * The self-delimiting payload of a record: the nodes that contributed to it, each once, in the
 * order of the block's group.
 */
module RecordPayload {
  import opened Common
  import opened Ordering
  import opened DataFrames
  import opened ArchiveBlock

  const RECORD_MAGIC_TEXT := "fervor-old-faithful-node-set-v1\0"

  datatype Content = Content(cid: Cid, data: Bytes)

  function Magic(): Bytes {
    seq(|RECORD_MAGIC_TEXT|, i requires 0 <= i < |RECORD_MAGIC_TEXT| =>
      if RECORD_MAGIC_TEXT[i] as int < 256 then RECORD_MAGIC_TEXT[i] as int else 0)
  }

  function U16(v: nat): (b: Bytes)
    requires v < 0x1_0000
    ensures |b| == 2
  {
    [v % 256, v / 256]
  }

  function U32(v: nat): (b: Bytes)
    requires v < U32_LIMIT
    ensures |b| == 4
  {
    [v % 256, v / 256 % 256, v / 65536 % 256, v / 16777216]
  }

  function ReadU16(b: Bytes): nat
    requires |b| >= 2
  {
    b[0] as int + 256 * b[1] as int
  }

  function ReadU32(b: Bytes): nat
    requires |b| >= 4
  {
    b[0] as int + 256 * b[1] as int + 65536 * b[2] as int + 16777216 * b[3] as int
  }

  predicate Fits(c: Content) { |c.cid| < 0x1_0000 && |c.data| < U32_LIMIT }

  function PrintContent(c: Content, rest: Bytes): Bytes
    requires Fits(c)
  {
    U16(|c.cid|) + (U32(|c.data|) + (c.cid + (c.data + rest)))
  }

  function PrintContents(cs: seq<Content>): Bytes
    requires forall c <- cs :: Fits(c)
  {
    if cs == [] then []
    else
      assert Fits(cs[0]);
      PrintContent(cs[0], PrintContents(cs[1..]))
  }

  /** The payload of a list of contents, or None where the source reports an oversized one. */
  function Payload(cs: seq<Content>): Option<Bytes> {
    if |cs| >= U32_LIMIT || exists c <- cs :: !Fits(c) then None
    else Some(Magic() + (U32(|cs|) + PrintContents(cs)))
  }

  // ---------------------------------------------------------------------------------
  // Reading a payload back

  function ReadContent(b: Bytes): Option<(Content, Bytes)> {
    if |b| < 6 then None
    else
      var cidLength, dataLength, body := ReadU16(b), ReadU32(b[2..]), b[2..][4..];
      if |body| < cidLength + dataLength then None
      else Some((Content(body[..cidLength], body[cidLength..][..dataLength]), body[cidLength..][dataLength..]))
  }

  function ReadContents(n: nat, b: Bytes): Option<seq<Content>>
    decreases n
  {
    if n == 0 then if b == [] then Some([]) else None
    else
      var first :- ReadContent(b);
      var others :- ReadContents(n - 1, first.1);
      Some([first.0] + others)
  }

  function ReadPayload(b: Bytes): Option<seq<Content>> {
    var m := |Magic()|;
    if |b| < m + 4 || b[..m] != Magic() then None
    else ReadContents(ReadU32(b[m..]), b[m + 4..])
  }

  lemma U32RoundTrip(v: nat, rest: Bytes)
    requires v < U32_LIMIT
    ensures ReadU32(U32(v) + rest) == v
  {
    var b := U32(v) + rest;
    assert b[0] == U32(v)[0] && b[1] == U32(v)[1] && b[2] == U32(v)[2] && b[3] == U32(v)[3];
    assert v == v % 256 + 256 * (v / 256);
    assert v / 256 == v / 256 % 256 + 256 * (v / 65536);
    assert v / 65536 == v / 65536 % 256 + 256 * (v / 16777216);
  }

  lemma U16RoundTrip(v: nat, rest: Bytes)
    requires v < 0x1_0000
    ensures ReadU16(U16(v) + rest) == v
  {
  }

  lemma ReadsContent(c: Content, rest: Bytes)
    requires Fits(c)
    ensures ReadContent(PrintContent(c, rest)) == Some((c, rest))
  {
    hide U16, U32, ReadU16, ReadU32;
    var tail := c.cid + (c.data + rest);
    var b := PrintContent(c, rest);
    U16RoundTrip(|c.cid|, U32(|c.data|) + tail);
    U32RoundTrip(|c.data|, tail);
    assert |U16(|c.cid|)| == 2 && |U32(|c.data|)| == 4;
    assert b[2..] == U32(|c.data|) + tail;
    assert b[2..][4..] == tail;
    assert tail[..|c.cid|] == c.cid && tail[|c.cid|..] == c.data + rest;
    assert (c.data + rest)[..|c.data|] == c.data && (c.data + rest)[|c.data|..] == rest;
  }

  lemma {:induction false} ReadsContents(cs: seq<Content>)
    requires forall c <- cs :: Fits(c)
    ensures ReadContents(|cs|, PrintContents(cs)) == Some(cs)
  {
    hide ReadContent, PrintContent;
    if cs != [] {
      ReadsContents(cs[1..]);
      assert Fits(cs[0]);
      ReadsContent(cs[0], PrintContents(cs[1..]));
      assert cs == [cs[0]] + cs[1..];
    }
  }

  /** A payload determines the ordered list of CIDs and node bytes it was made from. */
  lemma PayloadDecodes(cs: seq<Content>)
    requires Payload(cs).Some?
    ensures ReadPayload(Payload(cs).value) == Some(cs)
  {
    ReadsContents(cs);
    var b, m := Payload(cs).value, |Magic()|;
    assert b[..m] == Magic();
    assert b[m..] == U32(|cs|) + PrintContents(cs);
    U32RoundTrip(|cs|, PrintContents(cs));
    assert b[m + 4..] == b[m..][4..] == PrintContents(cs);
  }

  // ---------------------------------------------------------------------------------
  // From contributing CIDs to contents

  ghost predicate Positions(raw: seq<RawNode>, positions: map<Cid, nat>) {
    forall cid <- positions :: positions[cid] < |raw| && raw[positions[cid]].cid == cid
  }

  /** Removes repetitions of neighbours. */
  function Dedup(s: seq<int>): seq<int> {
    if |s| < 2 then s
    else if s[|s| - 1] == s[|s| - 2] then Dedup(s[..|s| - 1])
    else Dedup(s[..|s| - 1]) + [s[|s| - 1]]
  }

  lemma {:induction false} DedupSorted(s: seq<int>)
    requires Sorted(IntLess, s)
    ensures StrictlySorted(IntLess, Dedup(s)) && ToSet(Dedup(s)) == ToSet(s)
    ensures s != [] ==> Dedup(s) != [] && Dedup(s)[|Dedup(s)| - 1] == s[|s| - 1]
  {
    hide ToSet;
    if |s| >= 2 {
      var init, last := s[..|s| - 1], s[|s| - 1];
      assert forall i :: 0 <= i < |init| ==> init[i] == s[i];
      DedupSorted(init);
      assert s == init + [last] && last >= init[|init| - 1];
      ToSetAppend(init, last);
      ToSetAppend(Dedup(init), last);
      if last == s[|s| - 2] {
        LastMember(init);
      } else {
        assert StrictlySorted(IntLess, Dedup(init) + [last]);
      }
    }
  }

  lemma LastMember(s: seq<int>)
    requires s != []
    ensures ToSet(s) + {s[|s| - 1]} == ToSet(s)
  {
    assert s[|s| - 1] in ToSet(s);
  }

  function PositionList(cids: seq<Cid>, positions: map<Cid, nat>): seq<int>
    requires forall cid <- cids :: cid in positions
  {
    seq(|cids|, i requires 0 <= i < |cids| => (assert cids[i] in cids; positions[cids[i]]))
  }

  /** The positions of the contributing nodes, ascending and each once. */
  function Indexes(cids: seq<Cid>, positions: map<Cid, nat>): seq<int>
    requires forall cid <- cids :: cid in positions
  {
    Dedup(Sort(IntLess, PositionList(cids, positions)))
  }

  ghost function PositionSet(cids: set<Cid>, positions: map<Cid, nat>): set<int>
    requires forall cid <- cids :: cid in positions
  {
    set cid | cid in cids :: positions[cid]
  }

  lemma PositionListSet(cids: seq<Cid>, positions: map<Cid, nat>)
    requires forall cid <- cids :: cid in positions
    ensures ToSet(PositionList(cids, positions)) == PositionSet(ToSet(cids), positions)
  {
    var ps := PositionList(cids, positions);
    forall p
      ensures p in ToSet(ps) <==> p in PositionSet(ToSet(cids), positions)
    {
      if p in ToSet(ps) { var i :| 0 <= i < |ps| && ps[i] == p; assert cids[i] in ToSet(cids); }
      if p in PositionSet(ToSet(cids), positions) {
        var cid :| cid in ToSet(cids) && positions[cid] == p;
        var i :| 0 <= i < |cids| && cids[i] == cid;
        assert ps[i] == p;
      }
    }
  }

  lemma IndexesExact(cids: seq<Cid>, positions: map<Cid, nat>)
    requires forall cid <- cids :: cid in positions
    ensures StrictlySorted(IntLess, Indexes(cids, positions))
    ensures ToSet(Indexes(cids, positions)) == PositionSet(ToSet(cids), positions)
  {
    hide Sort, Dedup, PositionSet, PositionList;
    var ps := PositionList(cids, positions);
    IntTotal();
    SortSorted(IntLess, ps);
    DedupSorted(Sort(IntLess, ps));
    SameMembers(ps, Sort(IntLess, ps));
    PositionListSet(cids, positions);
  }

  function ContentsAt(raw: seq<RawNode>, indexes: seq<int>): seq<Content>
    requires forall i <- indexes :: 0 <= i < |raw|
  {
    seq(|indexes|, k requires 0 <= k < |indexes| =>
      (assert indexes[k] in indexes; Content(raw[indexes[k]].cid, raw[indexes[k]].data)))
  }

  /** The contributing nodes in the group's order, or None if one is not in the group. */
  function Contents(cids: seq<Cid>, raw: seq<RawNode>, positions: map<Cid, nat>): Option<seq<Content>>
    requires Positions(raw, positions)
  {
    if exists cid <- cids :: cid !in positions then None
    else
      IndexesExact(cids, positions);
      assert forall i <- Indexes(cids, positions) :: i in ToSet(Indexes(cids, positions));
      Some(ContentsAt(raw, Indexes(cids, positions)))
  }

  function RecordBytes(cids: seq<Cid>, raw: seq<RawNode>, positions: map<Cid, nat>): Option<Bytes>
    requires Positions(raw, positions)
  {
    var contents :- Contents(cids, raw, positions);
    Payload(contents)
  }

  /** Any order and repetition of the same contributions gives the same bytes, or the same refusal. */
  lemma PayloadOfSet(a: seq<Cid>, b: seq<Cid>, raw: seq<RawNode>, positions: map<Cid, nat>)
    requires Positions(raw, positions) && ToSet(a) == ToSet(b)
    ensures RecordBytes(a, raw, positions) == RecordBytes(b, raw, positions)
  {
    hide Indexes, Payload, PositionSet, StrictlySorted, TotalOrder, ContentsAt;
    assert forall cid :: cid in a <==> cid in ToSet(a);
    assert forall cid :: cid in b <==> cid in ToSet(b);
    if forall cid <- a :: cid in positions {
      IndexesExact(a, positions);
      IndexesExact(b, positions);
      IntTotal();
      StrictlySortedUnique(IntLess, Indexes(a, positions), Indexes(b, positions));
    }
  }

  /** Equal payloads, even from different groups, were made from the same ordered nodes. */
  lemma PayloadInjective(a: seq<Cid>, raw: seq<RawNode>, positions: map<Cid, nat>,
                         b: seq<Cid>, raw': seq<RawNode>, positions': map<Cid, nat>)
    requires Positions(raw, positions) && Positions(raw', positions')
    requires RecordBytes(a, raw, positions).Some? && RecordBytes(a, raw, positions) == RecordBytes(b, raw', positions')
    ensures Contents(a, raw, positions) == Contents(b, raw', positions')
    ensures ToSet(a) == ToSet(b)
  {
    PayloadDecodes(Contents(a, raw, positions).value);
    PayloadDecodes(Contents(b, raw', positions').value);
    ContentCids(a, raw, positions);
    ContentCids(b, raw', positions');
  }

  /** The CIDs of the contents are exactly the contributing CIDs. */
  lemma ContentCids(cids: seq<Cid>, raw: seq<RawNode>, positions: map<Cid, nat>)
    requires Positions(raw, positions) && Contents(cids, raw, positions).Some?
    ensures ToSet(cids) == set c | c in Contents(cids, raw, positions).value :: c.cid
  {
    IndexesExact(cids, positions);
    var indexes, cs := Indexes(cids, positions), Contents(cids, raw, positions).value;
    forall cid
      ensures cid in ToSet(cids) <==> exists c :: c in cs && c.cid == cid
    {
      if cid in ToSet(cids) {
        assert positions[cid] in ToSet(indexes);
        var k :| 0 <= k < |indexes| && indexes[k] == positions[cid];
        assert cs[k].cid == cid;
      }
      if exists c :: c in cs && c.cid == cid {
        var c :| c in cs && c.cid == cid;
        var k :| 0 <= k < |cs| && cs[k] == c;
        assert indexes[k] in ToSet(indexes);
      }
    }
  }

  // ---------------------------------------------------------------------------------
  // The serialising loop

  lemma {:induction false} PrintAppend(cs: seq<Content>, c: Content)
    requires (forall x <- cs :: Fits(x)) && Fits(c)
    ensures forall x <- cs + [c] :: Fits(x)
    ensures PrintContents(cs + [c]) == PrintContents(cs) + (U16(|c.cid|) + (U32(|c.data|) + (c.cid + c.data)))
  {
    if cs == [] {
      assert cs + [c] == [c];
      assert c.cid + (c.data + []) == c.cid + c.data;
    } else {
      assert (cs + [c])[1..] == cs[1..] + [c];
      PrintAppend(cs[1..], c);
    }
  }

  method WriteRecord(cids: seq<Cid>, raw: seq<RawNode>, positions: map<Cid, nat>) returns (r: Option<Bytes>)
    requires Positions(raw, positions)
    ensures r == RecordBytes(cids, raw, positions)
  {
    hide Magic, U16, U32, Dedup, Sort, PrintContents;
    var found: seq<int> := [];
    for i := 0 to |cids|
      invariant forall k :: 0 <= k < i ==> cids[k] in positions
      invariant found == seq(i, k requires 0 <= k < i => positions[cids[k]])
    {
      if cids[i] !in positions {
        assert cids[i] in cids;
        return None;
      }
      found := found + [positions[cids[i]]];
    }
    var indexes := Dedup(Sort(IntLess, found));
    assert found == PositionList(cids, positions);
    IndexesExact(cids, positions);
    assert forall i <- indexes :: i in ToSet(indexes);
    ghost var contents := ContentsAt(raw, indexes);
    if |indexes| >= U32_LIMIT {
      return None;
    }
    var payload := Magic() + U32(|indexes|);
    ghost var body: Bytes := [];
    PrintNothing();
    for k := 0 to |indexes|
      invariant forall c <- contents[..k] :: Fits(c)
      invariant body == PrintContents(contents[..k])
      invariant payload == Magic() + (U32(|indexes|) + body)
    {
      assert indexes[k] in indexes;
      var node := raw[indexes[k]];
      ghost var c := Content(node.cid, node.data);
      assert contents[..k + 1] == contents[..k] + [c];
      assert c == contents[k] && c in contents;
      if |node.cid| >= 0x1_0000 || |node.data| >= U32_LIMIT {
        assert !Fits(c);
        return None;
      }
      PrintAppend(contents[..k], c);
      ghost var piece := U16(|node.cid|) + (U32(|node.data|) + (node.cid + node.data));
      payload := payload + U16(|node.cid|) + U32(|node.data|) + node.cid + node.data;
      Reassociate(Magic(), U32(|indexes|), body, U16(|node.cid|), U32(|node.data|), node.cid, node.data);
      body := body + piece;
    }
    assert contents[..|indexes|] == contents;
    return Some(payload);
  }

  lemma PrintNothing()
    ensures PrintContents([]) == []
  {
  }

  lemma Reassociate(m: Bytes, n: Bytes, body: Bytes, a: Bytes, b: Bytes, c: Bytes, d: Bytes)
    ensures m + (n + body) + a + b + c + d == m + (n + (body + (a + (b + (c + d)))))
  {
  }
}
