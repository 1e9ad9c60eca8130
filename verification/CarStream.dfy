/**
 * The byte stream of an archive: length-prefixed sections, grouped into blocks, read in order by a
 * reader that never accepts a cut or misordered stream.
 */
module CarStream {
  import opened Common

  const MAX_CAR_SECTION: nat := 32 * 1024 * 1024
  const BLOCK_KIND: nat := 2

  /** What a read from the front of the stream gives: nothing left, an error, or a value and the rest. */
  datatype Reading<+T> = End | Bad | Got(value: T, rest: Bytes)

  // ---------------------------------------------------------------------------------
  // Unsigned varints

  /** Values below this fit the bits left from byte number `index` on. */
  function Room(index: nat): (r: nat)
    requires index <= 9
    ensures r > 0 && (index < 9 ==> r == 128 * Room(index + 1))
    decreases 9 - index
  {
    if index == 9 then 2 else 128 * Room(index + 1)
  }

  function Uvarint(b: Bytes, index: nat): (r: Option<(nat, Bytes)>)
    requires index <= 9
    ensures r.Some? ==> r.value.0 < Room(index) && |r.value.1| < |b| && r.value.1 == b[|b| - |r.value.1|..]
  {
    if b == [] || (index == 9 && b[0] > 1) then None
    else if b[0] < 128 then Some((b[0] as int, b[1..]))
    else
      var (high, rest) :- Uvarint(b[1..], index + 1);
      Some((b[0] as int - 128 + 128 * high, rest))
  }

  function PrintUvarint(v: nat): Bytes {
    if v < 128 then [v] else [v % 128 + 128] + PrintUvarint(v / 128)
  }

  lemma {:induction false} UvarintRoundTrip(v: nat, rest: Bytes, index: nat)
    requires index <= 9 && v < Room(index)
    ensures Uvarint(PrintUvarint(v) + rest, index) == Some((v, rest))
  {
    hide Room, Uvarint;
    var b := PrintUvarint(v) + rest;
    RoomStep(index);
    OneByte(b, index);
    if v < 128 {
      assert b[1..] == rest;
    } else {
      var others := PrintUvarint(v / 128) + rest;
      assert b == [v % 128 + 128] + others;
      assert b[1..] == others && Low(b[0]) == v % 128;
      UvarintRoundTrip(v / 128, rest, index + 1);
    }
  }

  lemma RoomStep(index: nat)
    requires index <= 9
    ensures if index == 9 then Room(index) == 2 else Room(index) == 128 * Room(index + 1)
  {
  }

  /** Every 64-bit value is read back from its shortest form. */
  lemma LengthRoundTrip(v: nat, rest: Bytes)
    requires v < U64_LIMIT
    ensures Uvarint(PrintUvarint(v) + rest, 0) == Some((v, rest))
  {
    UvarintRoundTrip(v, rest, 0);
  }

  /** How many bytes a value takes. */
  function Taken(b: Bytes, index: nat): (n: nat)
    requires index <= 9 && Uvarint(b, index).Some?
    ensures 0 < n <= |b| && Uvarint(b, index).value.1 == b[n..]
  {
    |b| - |Uvarint(b, index).value.1|
  }

  /** An accepted value's bytes are its printed form exactly if there is one of them or the last is not zero. */
  lemma {:induction false} UvarintCanonical(b: Bytes, index: nat)
    requires index <= 9 && Uvarint(b, index).Some?
    ensures var n := Taken(b, index);
            PrintUvarint(Uvarint(b, index).value.0) == b[..n] <==> n == 1 || b[n - 1] != 0
  {
    hide Uvarint, Room, PrintUvarint;
    TakenStep(b, index);
    if b[0] < 128 {
      PrintedOne(b[0]);
      assert b[..1] == [b[0]];
    } else {
      UvarintCanonical(b[1..], index + 1);
      var high, n := Uvarint(b[1..], index + 1).value.0, Taken(b, index);
      assert b[..n] == [b[0]] + b[1..][..n - 1];
      PrintedMore(b[0], high, b[1..][..n - 1]);
      LastOfZero(b[1..], index + 1);
    }
  }

  lemma PrintedOne(v: nat)
    requires v < 128
    ensures PrintUvarint(v) == [v]
  {
  }

  /** The printed form of a value of more than one byte. */
  lemma PrintedMore(first: byte, high: nat, tail: Bytes)
    requires first >= 128
    ensures PrintUvarint(Low(first) + 128 * high) == [first] + tail <==> high > 0 && PrintUvarint(high) == tail
  {
    var v := Low(first) + 128 * high;
    if high > 0 {
      assert v / 128 == high && v % 128 == Low(first);
      assert PrintUvarint(v) == [first] + PrintUvarint(high);
      assert ([first] + tail)[1..] == tail && PrintUvarint(v)[1..] == PrintUvarint(high);
    } else {
      PrintedOne(v);
      assert ([first] + tail)[0] == first;
    }
  }

  lemma TakenStep(b: Bytes, index: nat)
    requires index <= 9 && Uvarint(b, index).Some?
    ensures if b[0] < 128 then Taken(b, index) == 1 && Uvarint(b, index).value.0 == b[0] as int
            else
              && index < 9 && Uvarint(b[1..], index + 1).Some? && Taken(b, index) == Taken(b[1..], index + 1) + 1
              && Uvarint(b, index).value.0 == Low(b[0]) + 128 * Uvarint(b[1..], index + 1).value.0
  {
  }

  /** A value of zero ends in a zero byte, and one byte of a larger value is not zero. */
  lemma {:induction false} LastOfZero(b: Bytes, index: nat)
    requires index <= 9 && Uvarint(b, index).Some?
    ensures Uvarint(b, index).value.0 == 0 ==> b[Taken(b, index) - 1] == 0
    ensures Taken(b, index) == 1 ==> Uvarint(b, index).value.0 == b[0] as int
  {
    hide Uvarint, Room;
    TakenStep(b, index);
    if b[0] >= 128 {
      LastOfZero(b[1..], index + 1);
    }
  }

  /**
   * An accepted length prefix is the printed one exactly if it is one byte or ends in a byte that
   * is not zero. Unlike transaction lengths, these prefixes are not all canonical.
   */
  lemma LengthCanonicalExactly(b: Bytes)
    requires Uvarint(b, 0).Some?
    ensures var (v, rest) := Uvarint(b, 0).value;
            PrintUvarint(v) + rest == b <==> Taken(b, 0) == 1 || b[Taken(b, 0) - 1] != 0
  {
    hide Uvarint, Room, PrintUvarint, Taken;
    var n := Taken(b, 0);
    UvarintCanonical(b, 0);
    WholeSplit(b, 0);
    var front := PrintUvarint(Uvarint(b, 0).value.0);
    assert b[..n] + b[n..] == b;
    if front + b[n..] == b {
      assert |front| == n && front == (front + b[n..])[..n];
    }
  }

  lemma WholeSplit(b: Bytes, index: nat)
    requires index <= 9 && Uvarint(b, index).Some?
    ensures 0 < Taken(b, index) <= |b| && Uvarint(b, index).value.1 == b[Taken(b, index)..]
  {
  }

  /** A longer form of zero, accepted as well. */
  lemma LongFormAccepted()
    ensures Uvarint([128, 0], 0) == Some((0, [])) && PrintUvarint(0) + [] != [128, 0]
  {
    assert Uvarint([0], 1) == Some((0, []));
    assert Taken([128, 0], 0) == 2;
    LengthCanonicalExactly([128, 0]);
  }

  /** A cut either leaves the value alone or is noticed. */
  lemma {:induction false} UvarintCut(b: Bytes, index: nat, n: nat)
    requires index <= 9 && n <= |b| && Uvarint(b, index).Some?
    ensures Uvarint(b[..n], index) ==
            if n < Taken(b, index) then None else Some((Uvarint(b, index).value.0, b[Taken(b, index)..n]))
  {
    hide Uvarint, Room;
    TakenStep(b, index);
    if n == 0 {
      NoBytes(index);
    } else {
      OneByte(b, index);
      OneByte(b[..n], index);
      assert b[..n][1..] == b[1..][..n - 1];
      if b[0] >= 128 {
        UvarintCut(b[1..], index + 1, n - 1);
        var rest := Taken(b[1..], index + 1);
        assert n - 1 >= rest ==> b[1..][rest..n - 1] == b[rest + 1..n];
      }
    }
  }

  lemma NoBytes(index: nat)
    requires index <= 9
    ensures Uvarint([], index).None?
  {
  }

  /** Reading a value byte by byte: what the loops hold after `index` bytes that all continue. */
  ghost predicate Continuing(bytes: Bytes, start: nat, index: nat, value: nat, place: nat)
    requires start <= |bytes|
  {
    && index <= 9 && start + index <= |bytes|
    && Uvarint(bytes[start..], 0) ==
       match Uvarint(bytes[start + index..], index)
       case None => None
       case Some((high, rest)) => Some((value + place * high, rest))
  }

  /** The seven bits a byte adds. */
  function Low(b: byte): nat { b as int % 128 }

  lemma Continues(bytes: Bytes, start: nat, index: nat, value: nat, place: nat)
    requires start <= |bytes| && Continuing(bytes, start, index, value, place)
    requires index < 9 && start + index < |bytes| && bytes[start + index] >= 128
    ensures Continuing(bytes, start, index + 1, value + Low(bytes[start + index]) * place, place * 128)
  {
    hide Room, Uvarint;
    var here, next := bytes[start + index..], bytes[start + index + 1..];
    assert here[1..] == next && here[0] == bytes[start + index];
    OneByte(here, index);
    var low := Low(bytes[start + index]);
    if Uvarint(next, index + 1).Some? {
      var high := Uvarint(next, index + 1).value.0;
      Distributed(place, low, high);
    }
  }

  lemma Regroup(x: nat, y: nat)
    ensures x * 128 * y == x * (128 * y)
  {
  }

  lemma Distributed(place: nat, low: nat, high: nat)
    ensures place * (low + 128 * high) == low * place + place * 128 * high
  {
    Regroup(place, high);
  }

  // ---------------------------------------------------------------------------------
  // Sections, groups and blocks

  /** A section's CID and node bytes, and the node's kind. */
  datatype Section = Section(cid: Bytes, data: Bytes, kind: nat)

  datatype Block = Block(slot: nat, sections: seq<Section>)

  /**
   * How section bytes are split and decoded, and how a group of sections becomes a block with a
   * slot; both may fail.
   */
  datatype Codec = Codec(split: Bytes -> Option<Section>, build: seq<Section> -> Option<nat>)

  function NextSection(c: Codec, b: Bytes): (r: Reading<Section>)
    ensures r.Got? ==> |r.rest| < |b| && r.rest == b[|b| - |r.rest|..]
  {
    if b == [] then End
    else
      match Uvarint(b, 0)
      case None => Bad
      case Some((n, rest)) =>
        if n == 0 || n > MAX_CAR_SECTION || n > |rest| then Bad
        else
          match c.split(rest[..n])
          case None => Bad
          case Some(section) => Got(section, rest[n..])
  }

  /** The sections up to and including the next block node. */
  function NextGroup(c: Codec, b: Bytes): (r: Reading<seq<Section>>)
    ensures r.Got? ==> |r.rest| < |b| && r.rest == b[|b| - |r.rest|..]
    ensures r.End? <==> b == []
    decreases |b|
  {
    match NextSection(c, b)
    case End => End
    case Bad => Bad
    case Got(section, rest) =>
      if section.kind == BLOCK_KIND then Got([section], rest)
      else
        match NextGroup(c, rest)
        case Got(others, r) => Got([section] + others, r)
        case _ => Bad
  }

  predicate InOrder(lo: nat, hi: nat, last: Option<nat>, slot: nat) {
    lo <= slot < hi && (last.Some? ==> last.value < slot)
  }

  function NextBlock(c: Codec, lo: nat, hi: nat, last: Option<nat>, b: Bytes): (r: Reading<Block>)
    ensures r.Got? ==> |r.rest| < |b| && r.rest == b[|b| - |r.rest|..]
    ensures r.End? <==> b == []
  {
    match NextGroup(c, b)
    case End => End
    case Bad => Bad
    case Got(sections, rest) =>
      match c.build(sections)
      case None => Bad
      case Some(slot) => if InOrder(lo, hi, last, slot) then Got(Block(slot, sections), rest) else Bad
  }

  /** Reading block after block until the stream ends, or None if any read fails. */
  function Blocks(c: Codec, lo: nat, hi: nat, last: Option<nat>, b: Bytes): Option<seq<Block>>
    decreases |b|
  {
    match NextBlock(c, lo, hi, last, b)
    case End => Some([])
    case Bad => None
    case Got(block, rest) =>
      var others :- Blocks(c, lo, hi, Some(block.slot), rest);
      Some([block] + others)
  }

  // ---------------------------------------------------------------------------------
  // Cut streams

  /** A read cut short: the same value and a shorter rest, or nothing left, or an error. */
  ghost predicate CutReading<T(!new)>(whole: Reading<T>, b: Bytes, n: nat, cut: Reading<T>)
    requires n <= |b|
  {
    whole.Got? && |whole.rest| <= |b| ==>
      var used := |b| - |whole.rest|;
      if n == 0 then cut == End else if n < used then cut == Bad else cut == Got(whole.value, b[used..n])
  }

  lemma SectionCut(c: Codec, b: Bytes, n: nat)
    requires n <= |b|
    ensures CutReading(NextSection(c, b), b, n, NextSection(c, b[..n]))
  {
    if NextSection(c, b).Got? {
      UvarintCut(b, 0, n);
      var (size, rest) := Uvarint(b, 0).value;
      var at := Taken(b, 0);
      if n >= at {
        assert b[at..n] == rest[..n - at];
        if n >= at + size {
          assert rest[..n - at][..size] == rest[..size];
          assert rest[..n - at][size..] == b[at + size..n];
        }
      }
    }
  }

  lemma {:induction false} GroupCut(c: Codec, b: Bytes, n: nat)
    requires n <= |b|
    ensures CutReading(NextGroup(c, b), b, n, NextGroup(c, b[..n]))
    decreases |b|
  {
    hide NextSection, NextGroup, CutReading;
    NothingLeft(c);
    SectionCut(c, b, n);
    GroupUnfolds(c, b);
    GroupUnfolds(c, b[..n]);
    var first := NextSection(c, b);
    if first.Got? {
      var used := |b| - |first.rest|;
      if n >= used {
        GroupCut(c, first.rest, n - used);
        assert b[used..n] == first.rest[..n - used];
      }
      GroupCutStep(c, b, n);
    } else {
      assert !NextGroup(c, b).Got?;
      NothingCut(NextGroup(c, b), b, n, NextGroup(c, b[..n]));
    }
  }

  lemma NothingCut<T(!new)>(whole: Reading<T>, b: Bytes, n: nat, cut: Reading<T>)
    requires n <= |b| && !whole.Got?
    ensures CutReading(whole, b, n, cut)
  {
  }

  lemma GroupUnfolds(c: Codec, b: Bytes)
    ensures NextGroup(c, b) ==
            match NextSection(c, b)
            case End => End
            case Bad => Bad
            case Got(section, rest) => After(section, NextGroup(c, rest), rest)
  {
  }

  lemma GroupCutStep(c: Codec, b: Bytes, n: nat)
    requires n <= |b| && NextSection(c, b).Got? && CutReading(NextSection(c, b), b, n, NextSection(c, b[..n]))
    requires var rest := NextSection(c, b).rest;
             && |rest| < |b| && rest == b[|b| - |rest|..]
             && (n >= |b| - |rest| ==>
                   CutReading(NextGroup(c, rest), rest, n - (|b| - |rest|), NextGroup(c, b[|b| - |rest|..n])))
    ensures CutReading(NextGroup(c, b), b, n, NextGroup(c, b[..n]))
  {
    hide NextSection, NextGroup, After;
    GroupUnfolds(c, b);
    GroupUnfolds(c, b[..n]);
    var first := NextSection(c, b);
    var used := |b| - |first.rest|;
    if n >= used {
      CutLater(first.value, b, used, n, NextGroup(c, first.rest), NextGroup(c, b[used..n]));
    } else {
      AfterRest(first.value, NextGroup(c, first.rest), first.rest);
    }
  }

  /** A group whose first section lies before the cut is cut where the rest of it is. */
  lemma CutLater(section: Section, b: Bytes, used: nat, n: nat, whole: Reading<seq<Section>>,
                 cut: Reading<seq<Section>>)
    requires used <= n <= |b| && 0 < used && CutReading(whole, b[used..], n - used, cut)
    requires whole.Got? ==> |whole.rest| < |b| - used
    ensures CutReading(After(section, whole, b[used..]), b, n, After(section, cut, b[used..n]))
  {
    if section.kind != BLOCK_KIND && whole.Got? {
      var more := |b| - used - |whole.rest|;
      assert n >= used + more ==> b[used..][more..n - used] == b[used + more..n];
    }
  }

  lemma AfterRest(section: Section, group: Reading<seq<Section>>, rest: Bytes)
    requires group.Got? ==> |group.rest| < |rest|
    ensures var r := After(section, group, rest); r.Got? ==> |r.rest| <= |rest|
  {
  }

  /** A group that begins with this section, given what follows it. */
  function After(section: Section, group: Reading<seq<Section>>, rest: Bytes): Reading<seq<Section>> {
    if section.kind == BLOCK_KIND then Got([section], rest)
    else
      match group
      case Got(others, r) => Got([section] + others, r)
      case _ => Bad
  }

  lemma NothingLeft(c: Codec)
    ensures NextSection(c, []) == End
  {
  }

  lemma BlockCut(c: Codec, lo: nat, hi: nat, last: Option<nat>, b: Bytes, n: nat)
    requires n <= |b|
    ensures CutReading(NextBlock(c, lo, hi, last, b), b, n, NextBlock(c, lo, hi, last, b[..n]))
  {
    hide NextGroup;
    GroupCut(c, b, n);
  }

  /** How many bytes the first k blocks of an accepted stream take. */
  function BlockEnd(c: Codec, lo: nat, hi: nat, last: Option<nat>, b: Bytes, k: nat): (n: nat)
    requires Blocks(c, lo, hi, last, b).Some? && k <= |Blocks(c, lo, hi, last, b).value|
    ensures n <= |b| && (n == 0 <==> k == 0)
    decreases |b|
  {
    if k == 0 then 0
    else
      var first := NextBlock(c, lo, hi, last, b);
      |b| - |first.rest| + BlockEnd(c, lo, hi, Some(first.value.slot), first.rest, k - 1)
  }

  ghost predicate EndsBlocks(c: Codec, lo: nat, hi: nat, last: Option<nat>, b: Bytes, k: nat, n: nat)
    requires Blocks(c, lo, hi, last, b).Some?
  {
    k <= |Blocks(c, lo, hi, last, b).value| && BlockEnd(c, lo, hi, last, b, k) == n
  }

  /** A cut stream is accepted exactly if the cut ends some number of blocks, and then it reads as those blocks. */
  lemma {:induction false} CutExactly(c: Codec, lo: nat, hi: nat, last: Option<nat>, b: Bytes, n: nat)
    requires n <= |b| && Blocks(c, lo, hi, last, b).Some?
    ensures var (blocks, cut) := (Blocks(c, lo, hi, last, b).value, Blocks(c, lo, hi, last, b[..n]));
            && (cut.Some? <==> exists k: nat :: EndsBlocks(c, lo, hi, last, b, k, n))
            && (forall k: nat :: EndsBlocks(c, lo, hi, last, b, k, n) ==> cut == Some(blocks[..k]))
    decreases |b|
  {
    hide NextBlock;
    BlockCut(c, lo, hi, last, b, n);
    BlockEnds(c, lo, hi, last);
    var whole := NextBlock(c, lo, hi, last, b);
    if n == 0 {
      assert EndsBlocks(c, lo, hi, last, b, 0, 0);
    } else {
      NextSplits(c, lo, hi, last, b);
      var used := |b| - |whole.rest|;
      var after := Some(whole.value.slot);
      if n >= used {
        assert b[used..n] == whole.rest[..n - used];
        CutExactly(c, lo, hi, after, whole.rest, n - used);
        CutShifts(c, lo, hi, last, b, n);
        var blocks := Blocks(c, lo, hi, last, b).value;
        forall k: nat | EndsBlocks(c, lo, hi, last, b, k, n)
          ensures Blocks(c, lo, hi, last, b[..n]) == Some(blocks[..k])
        {
          assert EndsBlocks(c, lo, hi, after, whole.rest, k - 1, n - used);
          assert blocks[..k] == [whole.value] + blocks[1..][..k - 1];
        }
      }
    }
  }

  /** What NextBlock promises of an accepted stream that is not empty. */
  lemma NextSplits(c: Codec, lo: nat, hi: nat, last: Option<nat>, b: Bytes)
    requires b != [] && Blocks(c, lo, hi, last, b).Some?
    ensures var whole := NextBlock(c, lo, hi, last, b);
            && whole.Got? && |whole.rest| < |b| && whole.rest == b[|b| - |whole.rest|..]
            && Blocks(c, lo, hi, Some(whole.value.slot), whole.rest).Some?
  {
  }

  /** Counting blocks from the second on. */
  lemma CutShifts(c: Codec, lo: nat, hi: nat, last: Option<nat>, b: Bytes, n: nat)
    requires b != [] && Blocks(c, lo, hi, last, b).Some?
    requires var whole := NextBlock(c, lo, hi, last, b);
             && whole.Got? && |b| - |whole.rest| <= n <= |b|
             && Blocks(c, lo, hi, Some(whole.value.slot), whole.rest).Some?
    ensures var whole := NextBlock(c, lo, hi, last, b);
            var after, m := Some(whole.value.slot), n - (|b| - |whole.rest|);
            && (forall k: nat ::
                  EndsBlocks(c, lo, hi, last, b, k, n)
                  <==> k > 0 && EndsBlocks(c, lo, hi, after, whole.rest, k - 1, m))
            && (forall k: nat :: EndsBlocks(c, lo, hi, after, whole.rest, k, m) ==>
                  EndsBlocks(c, lo, hi, last, b, k + 1, n))
            && Blocks(c, lo, hi, last, b).value ==
               [whole.value] + Blocks(c, lo, hi, after, whole.rest).value
  {
    hide NextBlock;
  }

  /** Cutting an accepted stream anywhere never changes a block and always loses one, if it is noticed at all. */
  lemma CutNoticed(c: Codec, lo: nat, hi: nat, last: Option<nat>, b: Bytes, n: nat)
    requires n < |b| && Blocks(c, lo, hi, last, b).Some?
    ensures var (blocks, cut) := (Blocks(c, lo, hi, last, b).value, Blocks(c, lo, hi, last, b[..n]));
            cut.Some? ==> cut.value < blocks
  {
    hide NextBlock, Blocks, BlockEnd;
    CutExactly(c, lo, hi, last, b, n);
    WholeEnds(c, lo, hi, last, b);
  }

  /** All blocks together take all bytes. */
  lemma {:induction false} WholeEnds(c: Codec, lo: nat, hi: nat, last: Option<nat>, b: Bytes)
    requires Blocks(c, lo, hi, last, b).Some?
    ensures BlockEnd(c, lo, hi, last, b, |Blocks(c, lo, hi, last, b).value|) == |b|
    decreases |b|
  {
    hide NextBlock;
    BlockEnds(c, lo, hi, last);
    if b != [] {
      NextSplits(c, lo, hi, last, b);
      var whole := NextBlock(c, lo, hi, last, b);
      WholeEnds(c, lo, hi, Some(whole.value.slot), whole.rest);
    }
  }

  lemma BlockEnds(c: Codec, lo: nat, hi: nat, last: Option<nat>)
    ensures NextBlock(c, lo, hi, last, []) == End
  {
  }

  // ---------------------------------------------------------------------------------
  // Whole streams

  /** Blocks come in strictly increasing slots of the requested range, each built from its own sections. */
  lemma {:induction false} SlotsIncrease(c: Codec, lo: nat, hi: nat, last: Option<nat>, b: Bytes)
    requires Blocks(c, lo, hi, last, b).Some?
    ensures var blocks := Blocks(c, lo, hi, last, b).value;
            && (forall k :: 0 <= k < |blocks| ==>
                  lo <= blocks[k].slot < hi && c.build(blocks[k].sections) == Some(blocks[k].slot))
            && (forall j, k :: 0 <= j < k < |blocks| ==> blocks[j].slot < blocks[k].slot)
            && (last.Some? ==> forall k :: 0 <= k < |blocks| ==> last.value < blocks[k].slot)
    decreases |b|
  {
    hide NextGroup;
    var r := NextBlock(c, lo, hi, last, b);
    if r.Got? {
      SlotsIncrease(c, lo, hi, Some(r.value.slot), r.rest);
    }
  }

  function PrintSection(payload: Bytes): Bytes { PrintUvarint(|payload|) + payload }

  function PrintGroup(payloads: seq<Bytes>): Bytes {
    if payloads == [] then [] else PrintSection(payloads[0]) + PrintGroup(payloads[1..])
  }

  /** Payloads that split into these sections, of which exactly the last is a block node. */
  ghost predicate GroupOf(c: Codec, payloads: seq<Bytes>, sections: seq<Section>) {
    && |payloads| == |sections| > 0
    && forall i :: 0 <= i < |sections| ==>
         && 0 < |payloads[i]| <= MAX_CAR_SECTION
         && c.split(payloads[i]) == Some(sections[i])
         && (sections[i].kind == BLOCK_KIND <==> i == |sections| - 1)
  }

  lemma SectionRead(c: Codec, payload: Bytes, rest: Bytes)
    requires 0 < |payload| <= MAX_CAR_SECTION && c.split(payload).Some?
    ensures NextSection(c, PrintSection(payload) + rest) == Got(c.split(payload).value, rest)
  {
    var b := PrintSection(payload) + rest;
    assert b == PrintUvarint(|payload|) + (payload + rest);
    LengthRoundTrip(|payload|, payload + rest);
    assert (payload + rest)[..|payload|] == payload && (payload + rest)[|payload|..] == rest;
    assert |PrintUvarint(|payload|)| > 0;
  }

  /** A printed group is read back, whatever follows it. */
  lemma {:induction false} GroupRead(c: Codec, payloads: seq<Bytes>, sections: seq<Section>, rest: Bytes)
    requires GroupOf(c, payloads, sections)
    ensures NextGroup(c, PrintGroup(payloads) + rest) == Got(sections, rest)
    decreases |payloads|
  {
    hide NextSection, PrintSection;
    var others := PrintGroup(payloads[1..]) + rest;
    assert PrintGroup(payloads) + rest == PrintSection(payloads[0]) + others;
    SectionRead(c, payloads[0], others);
    if |payloads| > 1 {
      assert forall i :: 0 <= i < |payloads| - 1 ==>
               payloads[1..][i] == payloads[i + 1] && sections[1..][i] == sections[i + 1];
      GroupRead(c, payloads[1..], sections[1..], rest);
      assert sections == [sections[0]] + sections[1..];
    } else {
      assert payloads[1..] == [] && others == rest && sections == [sections[0]];
    }
  }

  function PrintBlocks(groups: seq<seq<Bytes>>): Bytes {
    if groups == [] then [] else PrintGroup(groups[0]) + PrintBlocks(groups[1..])
  }

  ghost predicate BlocksOf(c: Codec, lo: nat, hi: nat, groups: seq<seq<Bytes>>, blocks: seq<Block>) {
    && |groups| == |blocks|
    && (forall k :: 0 <= k < |blocks| ==>
          GroupOf(c, groups[k], blocks[k].sections) && c.build(blocks[k].sections) == Some(blocks[k].slot)
          && lo <= blocks[k].slot < hi)
    && (forall j, k :: 0 <= j < k < |blocks| ==> blocks[j].slot < blocks[k].slot)
  }

  /** A printed archive of well-ordered blocks is read back block by block. */
  lemma {:induction false} BlocksRead(c: Codec, lo: nat, hi: nat, last: Option<nat>, groups: seq<seq<Bytes>>,
                                      blocks: seq<Block>)
    requires BlocksOf(c, lo, hi, groups, blocks)
    requires last.Some? && blocks != [] ==> last.value < blocks[0].slot
    ensures Blocks(c, lo, hi, last, PrintBlocks(groups)) == Some(blocks)
    decreases |groups|
  {
    hide NextBlock, NextGroup, PrintGroup, GroupOf;
    if groups == [] {
      BlockEnds(c, lo, hi, last);
    } else {
      var rest := PrintBlocks(groups[1..]);
      BlockRead(c, lo, hi, last, groups[0], blocks[0], rest);
      LaterBlocks(c, lo, hi, groups, blocks);
      BlocksRead(c, lo, hi, Some(blocks[0].slot), groups[1..], blocks[1..]);
      assert blocks == [blocks[0]] + blocks[1..];
    }
  }

  lemma BlockRead(c: Codec, lo: nat, hi: nat, last: Option<nat>, group: seq<Bytes>, block: Block, rest: Bytes)
    requires GroupOf(c, group, block.sections) && c.build(block.sections) == Some(block.slot)
    requires InOrder(lo, hi, last, block.slot)
    ensures NextBlock(c, lo, hi, last, PrintGroup(group) + rest) == Got(block, rest)
  {
    hide NextGroup, PrintGroup, GroupOf;
    GroupRead(c, group, block.sections, rest);
  }

  lemma LaterBlocks(c: Codec, lo: nat, hi: nat, groups: seq<seq<Bytes>>, blocks: seq<Block>)
    requires BlocksOf(c, lo, hi, groups, blocks) && groups != []
    ensures BlocksOf(c, lo, hi, groups[1..], blocks[1..])
  {
    hide GroupOf;
    assert forall k :: 0 <= k < |groups| - 1 ==> groups[1..][k] == groups[k + 1] && blocks[1..][k] == blocks[k + 1];
  }

  // ---------------------------------------------------------------------------------
  // The readers

  /** The plan check's reader: a value and how many bytes it took. */
  method DecodeVarint(bytes: Bytes) returns (r: Option<(nat, nat)>)
    ensures r == match Uvarint(bytes, 0)
                 case None => None
                 case Some((v, rest)) => Some((v, |bytes| - |rest|))
  {
    hide Continuing, Room, Uvarint;
    var value: nat, place: nat, index: nat := 0, 1, 0;
    assert bytes[0..] == bytes;
    Begins(bytes, 0);
    while index < |bytes|
      invariant index <= |bytes| && index <= 9 && Continuing(bytes, 0, index, value, place)
    {
      var b := bytes[index];
      LastByte(bytes, 0, index, value, place);
      if index == 9 && b > 1 {
        return None;
      }
      if b < 128 {
        return Some((value + Low(b) * place, index + 1));
      }
      Continues(bytes, 0, index, value, place);
      value, place, index := value + Low(b) * place, place * 128, index + 1;
    }
    OutOfBytes(bytes, 0, index, value, place);
    return None;
  }

  lemma Begins(bytes: Bytes, start: nat)
    requires start <= |bytes|
    ensures Continuing(bytes, start, 0, 0, 1)
  {
  }

  /** What a byte that ends the value, or must not follow, means for it. */
  lemma LastByte(bytes: Bytes, start: nat, index: nat, value: nat, place: nat)
    requires start <= |bytes| && Continuing(bytes, start, index, value, place) && start + index < |bytes|
    ensures var b := bytes[start + index];
            && (index == 9 && b > 1 ==> Uvarint(bytes[start..], 0).None?)
            && (!(index == 9 && b > 1) && b < 128 ==>
                  Uvarint(bytes[start..], 0) == Some((value + Low(b) * place, bytes[start + index + 1..])))
  {
    hide Room, Uvarint;
    var here, b := bytes[start + index..], bytes[start + index];
    assert here[1..] == bytes[start + index + 1..] && here[0] == b;
    OneByte(here, index);
    Swapped(place, Low(b));
  }

  lemma Swapped(x: nat, y: nat)
    ensures x * y == y * x
  {
  }

  lemma OneByte(b: Bytes, index: nat)
    requires index <= 9 && b != []
    ensures index == 9 && b[0] > 1 ==> Uvarint(b, index).None?
    ensures !(index == 9 && b[0] > 1) && b[0] < 128 ==> Uvarint(b, index) == Some((Low(b[0]), b[1..]))
    ensures index < 9 && b[0] >= 128 ==>
              Uvarint(b, index) == match Uvarint(b[1..], index + 1)
                                   case None => None
                                   case Some((high, rest)) => Some((Low(b[0]) + 128 * high, rest))
  {
  }

  lemma OutOfBytes(bytes: Bytes, start: nat, index: nat, value: nat, place: nat)
    requires start <= |bytes| && Continuing(bytes, start, index, value, place) && start + index == |bytes|
    ensures Uvarint(bytes[start..], 0).None?
  {
  }

  /** The archive's reader over the bytes after the file header. */
  class ArchiveReader {
    const bytes: Bytes
    const codec: Codec
    const lo: nat
    const hi: nat
    var cursor: nat
    var lastSlot: Option<nat>

    ghost predicate Valid()
      reads this
    {
      cursor <= |bytes|
    }

    ghost function Rest(): Bytes
      reads this
      requires Valid()
    {
      bytes[cursor..]
    }

    constructor (bytes: Bytes, codec: Codec, lo: nat, hi: nat)
      ensures Valid() && Rest() == bytes && lastSlot.None?
      ensures this.bytes == bytes && this.codec == codec && this.lo == lo && this.hi == hi
    {
      this.bytes, this.codec, this.lo, this.hi := bytes, codec, lo, hi;
      cursor, lastSlot := 0, None;
    }

    /** Moves past a value; the end of the stream is told apart from a value cut short. */
    method ReadUvarint() returns (r: Option<Option<nat>>)
      requires Valid()
      modifies this`cursor
      ensures Valid()
      ensures old(Rest()) == [] <==> r == Some(None)
      ensures r.None? <==> old(Rest()) != [] && Uvarint(old(Rest()), 0).None?
      ensures r.Some? && r.value.Some? ==> Uvarint(old(Rest()), 0) == Some((r.value.value, Rest()))
      ensures r == Some(None) ==> cursor == old(cursor)
    {
      hide Continuing, Room, Uvarint;
      var start := cursor;
      var value: nat, place: nat := 0, 1;
      Begins(bytes, start);
      for index := 0 to 10
        invariant index <= 9 && cursor == start + index <= |bytes| && Continuing(bytes, start, index, value, place)
      {
        if cursor >= |bytes| {
          OutOfBytes(bytes, start, index, value, place);
          return if index == 0 then Some(None) else None;
        }
        var b := bytes[cursor];
        cursor := cursor + 1;
        LastByte(bytes, start, index, value, place);
        if index == 9 && b > 1 {
          return None;
        }
        if b < 128 {
          return Some(Some(value + Low(b) * place));
        }
        Continues(bytes, start, index, value, place);
        value, place := value + Low(b) * place, place * 128;
      }
      return None;
    }

    /** The next section, or why there is none. */
    method Next() returns (r: Option<Option<Section>>)
      requires Valid()
      modifies this`cursor
      ensures Valid()
      ensures r == Some(None) <==> NextSection(codec, old(Rest())).End?
      ensures r.None? <==> NextSection(codec, old(Rest())).Bad?
      ensures r.Some? && r.value.Some? ==> NextSection(codec, old(Rest())) == Got(r.value.value, Rest())
    {
      hide Uvarint;
      var length := ReadUvarint();
      if length.None? {
        return None;
      }
      if length.value.None? {
        return Some(None);
      }
      var n := length.value.value;
      if n == 0 || n > MAX_CAR_SECTION || n > |bytes| - cursor {
        return None;
      }
      assert Rest()[..n] == bytes[cursor..cursor + n] && Rest()[n..] == bytes[cursor + n..];
      var section := bytes[cursor..cursor + n];
      cursor := cursor + n;
      if codec.split(section).None? {
        return None;
      }
      return Some(codec.split(section));
    }

    /** Reads up to the next block node, builds the block and checks its slot. */
    method ReadBlock() returns (r: Option<Option<Block>>)
      requires Valid()
      modifies this
      ensures Valid()
      ensures r == Some(None) <==> NextBlock(codec, lo, hi, old(lastSlot), old(Rest())).End?
      ensures r.None? <==> NextBlock(codec, lo, hi, old(lastSlot), old(Rest())).Bad?
      ensures r.Some? && r.value.Some? ==>
                NextBlock(codec, lo, hi, old(lastSlot), old(Rest())) == Got(r.value.value, Rest())
                && lastSlot == Some(r.value.value.slot)
      ensures !(r.Some? && r.value.Some?) ==> lastSlot == old(lastSlot)
    {
      hide NextSection;
      var sections: seq<Section> := [];
      OntoNothing(NextGroup(codec, Rest()));
      while true
        invariant Valid() && lastSlot == old(lastSlot)
        invariant NextGroup(codec, old(Rest())) == Onto(sections, NextGroup(codec, Rest()))
        decreases |bytes| - cursor
      {
        GroupUnfolds(codec, Rest());
        var raw := Next();
        if raw.None? {
          return None;
        }
        if raw.value.None? {
          return if sections == [] then Some(None) else None;
        }
        OntoStep(sections, raw.value.value, NextGroup(codec, Rest()));
        sections := sections + [raw.value.value];
        if raw.value.value.kind == BLOCK_KIND {
          var slot := codec.build(sections);
          if slot.None? || !(lo <= slot.value < hi) || (lastSlot.Some? && slot.value <= lastSlot.value) {
            return None;
          }
          lastSlot := Some(slot.value);
          return Some(Some(Block(slot.value, sections)));
        }
      }
    }
  }

  /** Sections already read, in front of what the rest of the stream gives. */
  ghost function Onto(before: seq<Section>, r: Reading<seq<Section>>): Reading<seq<Section>> {
    match r
    case Got(sections, rest) => Got(before + sections, rest)
    case Bad => Bad
    case End => if before == [] then End else Bad
  }

  lemma OntoStep(before: seq<Section>, s: Section, r: Reading<seq<Section>>)
    ensures Onto(before, Onto([s], r)) == Onto(before + [s], r)
  {
    if r.Got? { assert before + ([s] + r.value) == (before + [s]) + r.value; }
  }

  lemma OntoNothing(r: Reading<seq<Section>>)
    ensures Onto([], r) == r
  {
    assert r.Got? ==> [] + r.value == r.value;
  }
}
