/**
 * Which byte streams the archive reader accepts, and as which blocks, said of the bytes alone.
 */
module CarMeaning {
  import opened Common
  import opened CarStream

  /** A number written in groups of seven bits, the lowest first. */
  function Sevens(h: Bytes): nat {
    if h == [] then 0 else h[0] as int % 128 + 128 * Sevens(h[1..])
  }

  /** These bytes are a length of at most 64 bits: all but the last continue, and the tenth holds one bit. */
  ghost predicate LengthPrefix(h: Bytes, size: nat) {
    && 0 < |h| <= 10
    && (forall i :: 0 <= i < |h| ==> (h[i] >= 128 <==> i < |h| - 1))
    && (|h| == 10 ==> h[9] <= 1)
    && size == Sevens(h)
  }

  /** A length from byte number `index` on. */
  ghost predicate Remaining(h: Bytes, index: nat, size: nat) {
    && 0 < |h| && index + |h| <= 10
    && (forall i :: 0 <= i < |h| ==> (h[i] >= 128 <==> i < |h| - 1))
    && (index + |h| == 10 ==> h[|h| - 1] <= 1)
    && size == Sevens(h)
  }

  /** The stream begins with this section: its length, then that many bytes, which split into it. */
  ghost predicate BeginsWith(c: Codec, b: Bytes, head: nat, size: nat, section: Section) {
    && head + size <= |b|
    && LengthPrefix(b[..head], size)
    && 0 < size <= 33_554_432
    && c.split(b[head..head + size]) == Some(section)
  }

  /** The stream is these sections, one after another, and then the rest. */
  ghost predicate Sections(c: Codec, b: Bytes, sections: seq<Section>, rest: Bytes)
    decreases |sections|
  {
    if sections == [] then b == rest
    else exists head: nat, size: nat ::
           BeginsWith(c, b, head, size, sections[0]) && Sections(c, b[head + size..], sections[1..], rest)
  }

  function Joined(blocks: seq<Block>): seq<Section> {
    if blocks == [] then [] else blocks[0].sections + Joined(blocks[1..])
  }

  /** Sections of which exactly the last is a block node. */
  ghost predicate Closed(sections: seq<Section>) {
    sections != [] && forall i :: 0 <= i < |sections| ==> (sections[i].kind == 2 <==> i == |sections| - 1)
  }

  /** Blocks of the requested slots, in increasing order, each closed by its block node and built from its sections. */
  ghost predicate Ordered(c: Codec, lo: nat, hi: nat, last: Option<nat>, blocks: seq<Block>) {
    && (forall k :: 0 <= k < |blocks| ==>
          && Closed(blocks[k].sections) && c.build(blocks[k].sections) == Some(blocks[k].slot)
          && lo <= blocks[k].slot < hi)
    && (forall j, k :: 0 <= j < k < |blocks| ==> blocks[j].slot < blocks[k].slot)
    && (last.Some? ==> forall k :: 0 <= k < |blocks| ==> last.value < blocks[k].slot)
  }

  // ---------------------------------------------------------------------------------
  // Lengths

  lemma {:induction false} ReadIsRemaining(b: Bytes, index: nat)
    requires index <= 9 && Uvarint(b, index).Some?
    ensures Remaining(b[..Taken(b, index)], index, Uvarint(b, index).value.0)
  {
    hide Uvarint, Room, Taken;
    WholeSplit(b, index);
    OneByte(b, index);
    TakenStep(b, index);
    var h := b[..Taken(b, index)];
    if b[0] < 128 {
      assert h == [b[0]] && Sevens(h[1..]) == 0;
    } else {
      ReadIsRemaining(b[1..], index + 1);
      WholeSplit(b[1..], index + 1);
      assert h[1..] == b[1..][..Taken(b[1..], index + 1)];
      assert forall i :: 1 <= i < |h| ==> h[i] == h[1..][i - 1];
    }
  }

  lemma {:induction false} RemainingIsRead(b: Bytes, index: nat, n: nat, size: nat)
    requires index <= 9 && n <= |b| && Remaining(b[..n], index, size)
    ensures Uvarint(b, index) == Some((size, b[n..]))
    decreases n
  {
    hide Uvarint, Room;
    var h := b[..n];
    OneByte(b, index);
    assert h[0] == b[0];
    if n == 1 {
      assert Sevens(h[1..]) == 0;
    } else {
      assert h[1..] == b[1..][..n - 1] && b[1..][n - 1..] == b[n..];
      assert forall i :: 0 <= i < n - 1 ==> h[1..][i] == h[i + 1];
      RemainingIsRead(b[1..], index + 1, n - 1, Sevens(h[1..]));
    }
  }

  /** A length is read exactly if the bytes before the rest are one of at most 64 bits. */
  lemma LengthExactly(b: Bytes, n: nat, size: nat)
    requires n <= |b|
    ensures Uvarint(b, 0) == Some((size, b[n..])) <==> LengthPrefix(b[..n], size)
  {
    hide Uvarint, Room;
    if Uvarint(b, 0) == Some((size, b[n..])) {
      ReadIsRemaining(b, 0);
      assert Taken(b, 0) == n;
    }
    if LengthPrefix(b[..n], size) {
      RemainingIsRead(b, 0, n, size);
    }
  }

  // ---------------------------------------------------------------------------------
  // Sections and groups

  lemma SectionTaken(c: Codec, b: Bytes, head: nat, size: nat, section: Section)
    requires head + size <= |b|
    ensures BeginsWith(c, b, head, size, section) ==> NextSection(c, b) == Got(section, b[head + size..])
  {
    LengthExactly(b, head, size);
    if BeginsWith(c, b, head, size, section) {
      assert b[head..][..size] == b[head..head + size] && b[head..][size..] == b[head + size..];
    }
  }

  lemma SectionFound(c: Codec, b: Bytes) returns (head: nat, size: nat)
    requires NextSection(c, b).Got?
    ensures head + size <= |b| && NextSection(c, b).rest == b[head + size..]
    ensures BeginsWith(c, b, head, size, NextSection(c, b).value)
  {
    head, size := Taken(b, 0), Uvarint(b, 0).value.0;
    WholeSplit(b, 0);
    LengthExactly(b, head, size);
    assert b[head..][..size] == b[head..head + size] && b[head..][size..] == b[head + size..];
  }

  /** A group is read exactly if the stream begins with its sections and the last alone is a block node. */
  lemma {:induction false} GroupExactly(c: Codec, b: Bytes, sections: seq<Section>, rest: Bytes)
    ensures NextGroup(c, b) == Got(sections, rest) <==> Closed(sections) && Sections(c, b, sections, rest)
    decreases |b|
  {
    hide NextSection, NextGroup, BeginsWith, Sections;
    GroupUnfolds(c, b);
    if NextGroup(c, b) == Got(sections, rest) {
      var first := NextSection(c, b);
      var head, size := SectionFound(c, b);
      GroupExactly(c, first.rest, sections[1..], rest);
      assert first.value.kind == 2 ==> sections[1..] == [];
      assert first.value.kind != 2 ==> sections[1..] == NextGroup(c, first.rest).value;
      NoneLeft(c, first.rest, rest);
      Grown(c, b, head, size, sections, rest);
      ShorterClosed(sections);
    }
    if Closed(sections) && Sections(c, b, sections, rest) {
      var head, size := FirstOf(c, b, sections, rest);
      SectionTaken(c, b, head, size, sections[0]);
      SectionShortens(c, b);
      GroupExactly(c, b[head + size..], sections[1..], rest);
      ShorterClosed(sections);
      if |sections| == 1 {
        assert sections[1..] == [] && sections == [sections[0]];
        NoneLeft(c, b[head + size..], rest);
      } else {
        assert NextGroup(c, b[head + size..]) == Got(sections[1..], rest);
        assert sections == [sections[0]] + sections[1..];
      }
    }
  }

  lemma SectionShortens(c: Codec, b: Bytes)
    requires NextSection(c, b).Got?
    ensures |NextSection(c, b).rest| < |b|
  {
  }

  lemma ShorterClosed(sections: seq<Section>)
    requires sections != []
    ensures Closed(sections) <==>
            if |sections| == 1 then sections[0].kind == 2 else sections[0].kind != 2 && Closed(sections[1..])
  {
    assert forall i :: 1 <= i < |sections| ==> sections[i] == sections[1..][i - 1];
    if Closed(sections) && |sections| > 1 { assert Closed(sections[1..]); }
  }

  lemma NoneLeft(c: Codec, b: Bytes, rest: Bytes)
    ensures Sections(c, b, [], rest) <==> b == rest
  {
  }

  lemma Grown(c: Codec, b: Bytes, head: nat, size: nat, sections: seq<Section>, rest: Bytes)
    requires sections != [] && BeginsWith(c, b, head, size, sections[0])
    requires Sections(c, b[head + size..], sections[1..], rest)
    ensures Sections(c, b, sections, rest)
  {
  }

  lemma FirstOf(c: Codec, b: Bytes, sections: seq<Section>, rest: Bytes) returns (head: nat, size: nat)
    requires sections != [] && Sections(c, b, sections, rest)
    ensures BeginsWith(c, b, head, size, sections[0]) && head + size <= |b|
    ensures Sections(c, b[head + size..], sections[1..], rest)
  {
    head, size :| BeginsWith(c, b, head, size, sections[0]) && Sections(c, b[head + size..], sections[1..], rest);
  }

  // ---------------------------------------------------------------------------------
  // Whole streams

  lemma {:induction false} SectionsJoin(c: Codec, b: Bytes, xs: seq<Section>, mid: Bytes, ys: seq<Section>,
                                        rest: Bytes)
    requires Sections(c, b, xs, mid) && Sections(c, mid, ys, rest)
    ensures Sections(c, b, xs + ys, rest)
    decreases |xs|
  {
    hide BeginsWith, Sections;
    NoneLeft(c, b, mid);
    if xs == [] {
      assert xs + ys == ys;
    } else {
      var head, size := FirstOf(c, b, xs, mid);
      SectionsJoin(c, b[head + size..], xs[1..], mid, ys, rest);
      assert (xs + ys)[1..] == xs[1..] + ys;
      Grown(c, b, head, size, xs + ys, rest);
    }
  }

  lemma {:induction false} SectionsSplit(c: Codec, b: Bytes, xs: seq<Section>, ys: seq<Section>, rest: Bytes)
    returns (mid: Bytes)
    requires Sections(c, b, xs + ys, rest)
    ensures Sections(c, b, xs, mid) && Sections(c, mid, ys, rest)
    decreases |xs|
  {
    hide BeginsWith, Sections;
    NoneLeft(c, b, b);
    if xs == [] {
      mid := b;
      assert xs + ys == ys;
    } else {
      var head, size := FirstOf(c, b, xs + ys, rest);
      assert (xs + ys)[1..] == xs[1..] + ys;
      mid := SectionsSplit(c, b[head + size..], xs[1..], ys, rest);
      Grown(c, b, head, size, xs, mid);
    }
  }

  /**
   * The reader accepts a stream as these blocks exactly if the stream is their sections, framed by
   * lengths of 1 to 33,554,432 bytes and nothing else, each block ends with its only block node, and
   * the slots increase within the requested range.
   */
  lemma {:induction false} StreamExactly(c: Codec, lo: nat, hi: nat, last: Option<nat>, b: Bytes, blocks: seq<Block>)
    ensures Blocks(c, lo, hi, last, b) == Some(blocks)
            <==> Ordered(c, lo, hi, last, blocks) && Sections(c, b, Joined(blocks), [])
    decreases |blocks|
  {
    hide NextBlock, NextGroup, Sections, Closed;
    NoneLeft(c, b, []);
    BlockEnds(c, lo, hi, last);
    if blocks == [] {
      NoBlocks(c, lo, hi, last, b);
    } else {
      var (block, others) := (blocks[0], blocks[1..]);
      OrderedStep(c, lo, hi, last, blocks);
      if Blocks(c, lo, hi, last, b) == Some(blocks) {
        var rest := NextBlock(c, lo, hi, last, b).rest;
        BlockExactly(c, lo, hi, last, b, block, rest);
        StreamExactly(c, lo, hi, Some(block.slot), rest, others);
        SectionsJoin(c, b, block.sections, rest, Joined(others), []);
      }
      if Ordered(c, lo, hi, last, blocks) && Sections(c, b, Joined(blocks), []) {
        var rest := SectionsSplit(c, b, block.sections, Joined(others), []);
        BlockExactly(c, lo, hi, last, b, block, rest);
        StreamExactly(c, lo, hi, Some(block.slot), rest, others);
        assert blocks == [block] + others;
      }
    }
  }

  lemma NoBlocks(c: Codec, lo: nat, hi: nat, last: Option<nat>, b: Bytes)
    ensures Blocks(c, lo, hi, last, b) == Some([]) <==> b == []
  {
  }

  lemma BlockExactly(c: Codec, lo: nat, hi: nat, last: Option<nat>, b: Bytes, block: Block, rest: Bytes)
    ensures NextBlock(c, lo, hi, last, b) == Got(block, rest)
            <==>
            && Closed(block.sections) && Sections(c, b, block.sections, rest)
            && c.build(block.sections) == Some(block.slot)
            && lo <= block.slot < hi && (last.Some? ==> last.value < block.slot)
  {
    hide NextGroup, Closed, Sections;
    GroupExactly(c, b, block.sections, rest);
  }

  lemma OrderedStep(c: Codec, lo: nat, hi: nat, last: Option<nat>, blocks: seq<Block>)
    requires blocks != []
    ensures Ordered(c, lo, hi, last, blocks)
            <==>
            && Closed(blocks[0].sections) && c.build(blocks[0].sections) == Some(blocks[0].slot)
            && lo <= blocks[0].slot < hi && (last.Some? ==> last.value < blocks[0].slot)
            && Ordered(c, lo, hi, Some(blocks[0].slot), blocks[1..])
  {
    hide Closed;
    var others := blocks[1..];
    assert forall k :: 1 <= k < |blocks| ==> blocks[k] == others[k - 1];
    assert forall k :: 0 <= k < |others| ==> others[k] == blocks[k + 1];
  }
}
