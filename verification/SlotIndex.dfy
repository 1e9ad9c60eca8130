/**
 * The slot index of an archive epoch: 432000 twelve-byte records giving each slot's byte range
 * in the CAR file, and the contiguous range covered by a selection of slots.
 */
module SlotIndex {
  import opened Common

  const SLOTS_PER_EPOCH: nat := 432_000
  const SLOT_RECORD_BYTES: nat := 12
  const INDEX_BYTES: nat := 5_184_000
  const MAX_HEADER_BYTES: nat := 4096

  datatype Record = Record(offset: nat, length: nat) {
    predicate Present() { length != 0 }

    function End(): nat { offset + length }

    predicate Covers(position: nat) { Present() && offset <= position < End() }
  }

  datatype RangeInfo = RangeInfo(
    firstSlot: nat,
    lastSlot: nat,
    presentSlots: nat,
    skippedSlots: nat,
    headerBytes: nat,
    sourceStart: nat,
    sourceEnd: nat,
    rangeBytes: nat)

  datatype IndexError =
    | EmptySelection | EpochOverflow | OutsideEpoch | WrongSize | StrayOffset | EndOverflow | Overlap
    | NonContiguous | NothingPresent | BadHeader | NothingSelected

  // ---------------------------------------------------------------------------------
  // Records of the index file

  function Le32(b: Bytes): (n: nat)
    requires |b| == 4
    ensures n < U32_LIMIT
  {
    b[0] as int + 0x100 * b[1] as int + 0x1_0000 * b[2] as int + 0x100_0000 * b[3] as int
  }

  function Le64(b: Bytes): (n: nat)
    requires |b| == 8
    ensures n < U64_LIMIT
  {
    Le32(b[..4]) + U32_LIMIT * Le32(b[4..])
  }

  function RecordAt(bytes: Bytes, i: nat): (r: Record)
    requires |bytes| == INDEX_BYTES && i < SLOTS_PER_EPOCH
    ensures r.offset < U64_LIMIT && r.length < U32_LIMIT
  {
    var at := i * SLOT_RECORD_BYTES;
    Record(Le64(bytes[at..at + 8]), Le32(bytes[at + 8..at + 12]))
  }

  /** Eight bytes of offset and four of length, the least significant first. */
  lemma RecordMeans(bytes: Bytes, i: nat)
    requires |bytes| == 5_184_000 && i < 432_000
    ensures var (r, at) := (RecordAt(bytes, i), 12 * i);
            && r.offset ==
               bytes[at] as int + 256 * (bytes[at + 1] as int + 256 * (bytes[at + 2] as int
               + 256 * (bytes[at + 3] as int + 256 * (bytes[at + 4] as int + 256 * (bytes[at + 5] as int
               + 256 * (bytes[at + 6] as int + 256 * bytes[at + 7] as int))))))
            && r.length ==
               bytes[at + 8] as int + 256 * (bytes[at + 9] as int + 256 * (bytes[at + 10] as int
               + 256 * bytes[at + 11] as int))
  {
  }

  function PrintLe32(n: nat): Bytes
    requires n < U32_LIMIT
  {
    [n % 0x100, n / 0x100 % 0x100, n / 0x1_0000 % 0x100, n / 0x100_0000]
  }

  function PrintLe64(n: nat): Bytes
    requires n < U64_LIMIT
  {
    PrintLe32(n % U32_LIMIT) + PrintLe32(n / U32_LIMIT)
  }

  function PrintRecord(r: Record): Bytes
    requires r.offset < U64_LIMIT && r.length < U32_LIMIT
  {
    PrintLe64(r.offset) + PrintLe32(r.length)
  }

  lemma Le32RoundTrip(b: Bytes, n: nat)
    requires |b| == 4 && n < U32_LIMIT
    ensures PrintLe32(n) == b <==> Le32(b) == n
  {
    var x0, x1, x2, x3 := b[0] as int, b[1] as int, b[2] as int, b[3] as int;
    if Le32(b) == n {
      assert n % 0x100 == x0 && n / 0x100 == x1 + 0x100 * x2 + 0x1_0000 * x3;
      assert n / 0x100 % 0x100 == x1 && n / 0x1_0000 == x2 + 0x100 * x3;
      assert n / 0x1_0000 % 0x100 == x2 && n / 0x100_0000 == x3;
    }
    if PrintLe32(n) == b {
      assert n == n % 0x100 + 0x100 * (n / 0x100);
      assert n / 0x100 == n / 0x100 % 0x100 + 0x100 * (n / 0x1_0000);
      assert n / 0x1_0000 == n / 0x1_0000 % 0x100 + 0x100 * (n / 0x100_0000);
    }
  }

  lemma Le64RoundTrip(b: Bytes, n: nat)
    requires |b| == 8 && n < U64_LIMIT
    ensures PrintLe64(n) == b <==> Le64(b) == n
  {
    hide Le32, PrintLe32;
    assert b == b[..4] + b[4..];
    Le32RoundTrip(b[..4], n % U32_LIMIT);
    Le32RoundTrip(b[4..], n / U32_LIMIT);
    assert |PrintLe32(n % U32_LIMIT)| == 4 by { Le32Length(n % U32_LIMIT); }
    assert n == n % U32_LIMIT + U32_LIMIT * (n / U32_LIMIT);
    if PrintLe64(n) == b {
      assert b[..4] == PrintLe32(n % U32_LIMIT) && b[4..] == PrintLe32(n / U32_LIMIT);
    }
  }

  lemma Le32Length(n: nat)
    requires n < U32_LIMIT
    ensures |PrintLe32(n)| == 4
  {
  }

  /** Twelve bytes are the printed form of exactly the record read from them. */
  lemma RecordRoundTrip(bytes: Bytes, i: nat, r: Record)
    requires |bytes| == INDEX_BYTES && i < SLOTS_PER_EPOCH && r.offset < U64_LIMIT && r.length < U32_LIMIT
    ensures RecordAt(bytes, i) == r <==> bytes[i * SLOT_RECORD_BYTES..(i + 1) * SLOT_RECORD_BYTES] == PrintRecord(r)
  {
    hide Le32, Le64, PrintLe32;
    var at := i * SLOT_RECORD_BYTES;
    var record := bytes[at..at + SLOT_RECORD_BYTES];
    assert record == bytes[at..at + 8] + bytes[at + 8..at + 12];
    Le64RoundTrip(bytes[at..at + 8], r.offset);
    Le32RoundTrip(bytes[at + 8..at + 12], r.length);
    Le32Length(r.length);
    Le32Length(r.offset % U32_LIMIT);
    Le32Length(r.offset / U32_LIMIT);
    if record == PrintRecord(r) {
      assert record[..8] == PrintLe64(r.offset) && record[8..] == PrintLe32(r.length);
      assert record[..8] == bytes[at..at + 8] && record[8..] == bytes[at + 8..at + 12];
    }
  }

  function Records(bytes: Bytes): (rs: seq<Record>)
    requires |bytes| == INDEX_BYTES
    ensures |rs| == SLOTS_PER_EPOCH && forall r <- rs :: r.offset < U64_LIMIT && r.length < U32_LIMIT
  {
    seq(SLOTS_PER_EPOCH, i requires 0 <= i < SLOTS_PER_EPOCH => RecordAt(bytes, i))
  }

  // ---------------------------------------------------------------------------------
  // The first n records, looked at from record number lo on

  function First(rs: seq<Record>, lo: nat, n: nat): (f: Option<nat>)
    requires n <= |rs|
    ensures f.Some? ==> lo <= f.value < n && rs[f.value].Present()
  {
    if n <= lo then None
    else
      var earlier := First(rs, lo, n - 1);
      if earlier.Some? then earlier else if rs[n - 1].Present() then Some(n - 1) else None
  }

  function Last(rs: seq<Record>, lo: nat, n: nat): (l: Option<nat>)
    requires n <= |rs|
    ensures l.Some? ==> lo <= l.value < n && rs[l.value].Present()
  {
    if n <= lo then None else if rs[n - 1].Present() then Some(n - 1) else Last(rs, lo, n - 1)
  }

  function CountPresent(rs: seq<Record>, lo: nat, n: nat): nat
    requires n <= |rs|
  {
    if n <= lo then 0 else CountPresent(rs, lo, n - 1) + (if rs[n - 1].Present() then 1 else 0)
  }

  function SumLengths(rs: seq<Record>, lo: nat, n: nat): nat
    requires n <= |rs|
  {
    if n <= lo then 0 else SumLengths(rs, lo, n - 1) + rs[n - 1].length
  }

  /** A record against the present record before it, if there is one. */
  predicate NotBefore(rs: seq<Record>, l: Option<nat>, r: Record)
    requires l.Some? ==> l.value < |rs|
  {
    l.Some? ==> rs[l.value].End() <= r.offset
  }

  predicate Joins(rs: seq<Record>, l: Option<nat>, r: Record)
    requires l.Some? ==> l.value < |rs|
  {
    l.Some? ==> rs[l.value].End() == r.offset
  }

  /** The checks of the scan on record n - 1. */
  predicate RecordFits(rs: seq<Record>, lo: nat, hi: nat, n: nat)
    requires 0 < n <= |rs|
  {
    var r := rs[n - 1];
    if !r.Present() then r.offset == 0
    else
      && r.End() < U64_LIMIT
      && NotBefore(rs, Last(rs, 0, n - 1), r)
      && (lo <= n - 1 < hi ==> Joins(rs, Last(rs, lo, n - 1), r))
  }

  predicate ScansWell(rs: seq<Record>, lo: nat, hi: nat, n: nat)
    requires n <= |rs|
  {
    n == 0 || (ScansWell(rs, lo, hi, n - 1) && RecordFits(rs, lo, hi, n))
  }

  // ---------------------------------------------------------------------------------
  // What those checks mean

  /** Absent records are all zero; present ones fit 64 bits and are ordered and disjoint. */
  ghost predicate Sound(rs: seq<Record>, n: nat)
    requires n <= |rs|
  {
    && (forall i :: 0 <= i < n ==>
          if rs[i].length != 0 then rs[i].offset + rs[i].length < 0x1_0000_0000_0000_0000 else rs[i].offset == 0)
    && (forall i, j :: 0 <= i < j < n && rs[i].length != 0 && rs[j].length != 0 ==>
          rs[i].offset + rs[i].length <= rs[j].offset)
  }

  ghost predicate NoneBetween(rs: seq<Record>, i: nat, j: nat)
    requires j <= |rs|
  {
    forall k :: i < k < j ==> !rs[k].Present()
  }

  /** Each present record of the selection starts where the present one before it ends. */
  ghost predicate Contiguous(rs: seq<Record>, lo: nat, n: nat)
    requires n <= |rs|
  {
    forall i, j :: lo <= i < j < n && rs[i].Present() && rs[j].Present() && NoneBetween(rs, i, j) ==>
      rs[i].End() == rs[j].offset
  }

  lemma {:induction false} FirstMeans(rs: seq<Record>, lo: nat, n: nat)
    requires n <= |rs|
    ensures forall k :: lo <= k < (if First(rs, lo, n).Some? then First(rs, lo, n).value else n) ==> !rs[k].Present()
  {
    if n > lo {
      FirstMeans(rs, lo, n - 1);
    }
  }

  lemma {:induction false} LastMeans(rs: seq<Record>, lo: nat, n: nat)
    requires n <= |rs|
    ensures forall k :: (if Last(rs, lo, n).Some? then Last(rs, lo, n).value + 1 else lo) <= k < n ==> !rs[k].Present()
  {
    if n > lo {
      LastMeans(rs, lo, n - 1);
    }
  }

  /** Ordered against the nearest present record before it, a record is ordered against all of them. */
  lemma SoundStep(rs: seq<Record>, n: nat)
    requires 0 < n <= |rs|
    ensures Sound(rs, n) <==>
            Sound(rs, n - 1)
            && (if rs[n - 1].Present() then rs[n - 1].End() < U64_LIMIT && NotBefore(rs, Last(rs, 0, n - 1), rs[n - 1])
                else rs[n - 1].offset == 0)
  {
    hide Last;
    LastMeans(rs, 0, n - 1);
    var l, r := Last(rs, 0, n - 1), rs[n - 1];
    if Sound(rs, n - 1) && r.Present() && NotBefore(rs, l, r) {
      forall i | 0 <= i < n - 1 && rs[i].Present()
        ensures rs[i].End() <= r.offset
      {
        assert i <= l.value;
        assert i < l.value ==> rs[i].End() <= rs[l.value].offset;
      }
    }
  }

  lemma ContiguousStep(rs: seq<Record>, lo: nat, n: nat)
    requires lo < n <= |rs|
    ensures Contiguous(rs, lo, n)
            <==> Contiguous(rs, lo, n - 1) && (rs[n - 1].Present() ==> Joins(rs, Last(rs, lo, n - 1), rs[n - 1]))
  {
    hide Last;
    LastMeans(rs, lo, n - 1);
    var l := Last(rs, lo, n - 1);
    if l.Some? {
      assert NoneBetween(rs, l.value, n - 1);
      forall i | lo <= i < n - 1 && rs[i].Present() && NoneBetween(rs, i, n - 1)
        ensures i == l.value
      {
      }
    }
  }

  /** Comparing each record with the one before it is enough for all pairs. */
  lemma {:induction false} ScanMeans(rs: seq<Record>, lo: nat, hi: nat, n: nat)
    requires lo < hi && n <= |rs|
    ensures ScansWell(rs, lo, hi, n) <==> Sound(rs, n) && Contiguous(rs, lo, if n < hi then n else hi)
  {
    hide Sound, Contiguous, NotBefore, Joins;
    if n == 0 {
      NothingScanned(rs, lo);
    } else {
      ScanMeans(rs, lo, hi, n - 1);
      SoundStep(rs, n);
      if lo < n <= hi {
        ContiguousStep(rs, lo, n);
      } else if n <= lo {
        NotYetSelected(rs, lo, n);
      }
    }
  }

  lemma NothingScanned(rs: seq<Record>, lo: nat)
    ensures Sound(rs, 0) && Contiguous(rs, lo, 0)
  {
  }

  lemma NotYetSelected(rs: seq<Record>, lo: nat, n: nat)
    requires n <= lo && n <= |rs|
    ensures Contiguous(rs, lo, n) && (n > 0 ==> Contiguous(rs, lo, n - 1))
  {
  }

  // ---------------------------------------------------------------------------------
  // Tiling

  /** The selected records cover the positions from..to, each position exactly once. */
  ghost predicate Tiles(rs: seq<Record>, lo: nat, n: nat, from: nat, to: nat)
    requires n <= |rs|
  {
    && (forall i, p: nat :: lo <= i < n && rs[i].Covers(p) ==> from <= p < to)
    && (forall i, j, p: nat :: lo <= i < n && lo <= j < n && rs[i].Covers(p) && rs[j].Covers(p) ==> i == j)
    && (forall p: nat :: from <= p < to ==> CoveredBy(rs, lo, n, p))
  }

  ghost predicate CoveredBy(rs: seq<Record>, lo: nat, n: nat, p: nat)
    requires n <= |rs|
  {
    exists i :: lo <= i < n && rs[i].Covers(p)
  }

  /** A selection in scan order spans its summed lengths and tiles that span. */
  lemma {:induction false} ScanTiles(rs: seq<Record>, lo: nat, hi: nat, n: nat)
    requires lo < hi && n <= hi && n <= |rs| && ScansWell(rs, lo, hi, n)
    ensures First(rs, lo, n).Some? <==> Last(rs, lo, n).Some?
    ensures First(rs, lo, n).None? ==> SumLengths(rs, lo, n) == 0
    ensures First(rs, lo, n).Some? ==>
              var (f, l) := (First(rs, lo, n).value, Last(rs, lo, n).value);
              && rs[f].offset + SumLengths(rs, lo, n) == rs[l].End() < U64_LIMIT
              && Tiles(rs, lo, n, rs[f].offset, rs[l].End())
  {
    hide Tiles, NotBefore;
    if n > lo {
      ScanTiles(rs, lo, hi, n - 1);
      if First(rs, lo, n - 1).Some? {
        var from, to := rs[First(rs, lo, n - 1).value].offset, rs[Last(rs, lo, n - 1).value].End();
        if rs[n - 1].Present() { TileGrows(rs, lo, n, from, to); } else { TileStays(rs, lo, n, from, to); }
      } else if rs[n - 1].Present() {
        LastMeans(rs, lo, n - 1);
        TileStarts(rs, lo, n);
      }
    }
  }

  lemma TileStarts(rs: seq<Record>, lo: nat, n: nat)
    requires lo < n <= |rs| && rs[n - 1].Present() && forall k :: lo <= k < n - 1 ==> !rs[k].Present()
    ensures Tiles(rs, lo, n, rs[n - 1].offset, rs[n - 1].End())
  {
    forall p: nat | rs[n - 1].offset <= p < rs[n - 1].End()
      ensures CoveredBy(rs, lo, n, p)
    {
      assert rs[n - 1].Covers(p);
    }
  }

  lemma TileStays(rs: seq<Record>, lo: nat, n: nat, from: nat, to: nat)
    requires lo < n <= |rs| && Tiles(rs, lo, n - 1, from, to) && !rs[n - 1].Present()
    ensures Tiles(rs, lo, n, from, to)
  {
    forall p: nat | from <= p < to
      ensures CoveredBy(rs, lo, n, p)
    {
      assert CoveredBy(rs, lo, n - 1, p);
    }
  }

  lemma TileGrows(rs: seq<Record>, lo: nat, n: nat, from: nat, to: nat)
    requires lo < n <= |rs| && from <= to && Tiles(rs, lo, n - 1, from, to) && rs[n - 1].Present()
             && rs[n - 1].offset == to
    ensures Tiles(rs, lo, n, from, rs[n - 1].End())
  {
    forall p: nat | from <= p < rs[n - 1].End()
      ensures CoveredBy(rs, lo, n, p)
    {
      if p < to { assert CoveredBy(rs, lo, n - 1, p); } else { assert rs[n - 1].Covers(p); }
    }
  }

  // ---------------------------------------------------------------------------------
  // The parser

  function ValidateSlots(epoch: nat, startSlot: nat, endSlot: nat): Option<IndexError> {
    if startSlot >= endSlot then Some(EmptySelection)
    else if epoch * SLOTS_PER_EPOCH >= U64_LIMIT || epoch * SLOTS_PER_EPOCH + SLOTS_PER_EPOCH >= U64_LIMIT then
      Some(EpochOverflow)
    else if startSlot < epoch * SLOTS_PER_EPOCH || endSlot > epoch * SLOTS_PER_EPOCH + SLOTS_PER_EPOCH then
      Some(OutsideEpoch)
    else None
  }

  /** The first present record of the index is record f, and the bytes before it are the header. */
  ghost predicate HeaderAt(rs: seq<Record>, f: nat, offset: nat) {
    f < |rs| && rs[f].Present() && rs[f].offset == offset && forall k :: 0 <= k < f ==> !rs[k].Present()
  }

  /** What an index and a selection of its records must be to be accepted. */
  ghost predicate Acceptable(rs: seq<Record>, lo: nat, hi: nat)
    requires lo < hi <= |rs|
  {
    && Sound(rs, |rs|)
    && Contiguous(rs, lo, hi)
    && (exists f: nat, offset: nat :: HeaderAt(rs, f, offset) && 0 < offset <= 4_096)
    && (exists k :: lo <= k < hi && rs[k].Present())
  }

  /** What the returned range states about the index. */
  ghost predicate Describes(rs: seq<Record>, epochStart: nat, lo: nat, hi: nat, r: RangeInfo)
    requires lo < hi <= |rs|
  {
    && lo + epochStart <= r.firstSlot <= r.lastSlot < hi + epochStart
    && (forall k :: lo <= k < hi && rs[k].Present() ==> r.firstSlot <= epochStart + k <= r.lastSlot)
    && rs[r.firstSlot - epochStart].Present() && rs[r.firstSlot - epochStart].offset == r.sourceStart
    && rs[r.lastSlot - epochStart].Present() && rs[r.lastSlot - epochStart].End() == r.sourceEnd
    && (exists f: nat :: HeaderAt(rs, f, r.headerBytes))
    && 0 < r.headerBytes <= 4_096 && r.headerBytes <= r.sourceStart
    && r.presentSlots == CountPresent(rs, lo, hi)
    && r.presentSlots + r.skippedSlots == hi - lo
    && r.rangeBytes == SumLengths(rs, lo, hi) && r.sourceStart + r.rangeBytes == r.sourceEnd
    && Tiles(rs, lo, hi, r.sourceStart, r.sourceEnd)
  }

  lemma {:induction false} ScanPrefix(rs: seq<Record>, lo: nat, hi: nat, n: nat, m: nat)
    requires n <= m <= |rs| && ScansWell(rs, lo, hi, m)
    ensures ScansWell(rs, lo, hi, n)
    decreases m
  {
    if n < m {
      ScanPrefix(rs, lo, hi, n, m - 1);
    }
  }

  /**
   * Parsing succeeds exactly on acceptable indexes. The source's three remaining errors, an
   * overflowing sum, a reversed range and an unexplained gap, cannot occur: the asserts in their
   * places show it.
   */
  method Parse(bytes: Bytes, epoch: nat, startSlot: nat, endSlot: nat) returns (r: Result<RangeInfo, IndexError>)
    ensures var first := epoch * 432_000;
            if endSlot <= startSlot then r == Err(EmptySelection)
            else if first + 432_000 >= 0x1_0000_0000_0000_0000 then r == Err(EpochOverflow)
            else if startSlot < first || first + 432_000 < endSlot then r == Err(OutsideEpoch)
            else if |bytes| != 5_184_000 then r == Err(WrongSize)
            else
              && (r.Ok? <==> Acceptable(Records(bytes), startSlot - first, endSlot - first))
              && (r.Ok? ==> Describes(Records(bytes), first, startSlot - first, endSlot - first, r.value))
              && (r.Err? ==> Faulty(Records(bytes), startSlot - first, endSlot - first, r.error))
  {
    hide Records, Acceptable, Describes, Faulty;
    var invalid := ValidateSlots(epoch, startSlot, endSlot);
    if invalid.Some? {
      return Err(invalid.value);
    }
    if |bytes| != INDEX_BYTES {
      return Err(WrongSize);
    }
    var epochStart := epoch * SLOTS_PER_EPOCH;
    r := ScanRecords(Records(bytes), epochStart, startSlot - epochStart, endSlot - epochStart);
  }

  /** Record n breaks the order of the records before it, in this way. */
  ghost predicate FaultAt(rs: seq<Record>, lo: nat, hi: nat, n: nat, e: IndexError)
    requires n < |rs|
  {
    var r := rs[n];
    if r.length == 0 then r.offset != 0 && e == StrayOffset
    else if r.offset + r.length >= 0x1_0000_0000_0000_0000 then e == EndOverflow
    else if exists i :: 0 <= i < n && rs[i].length != 0 && r.offset < rs[i].offset + rs[i].length then e == Overlap
    else
      && lo <= n < hi && e == NonContiguous
      && exists i ::
           && lo <= i < n && rs[i].length != 0 && NoneBetween(rs, i, n)
           && rs[i].offset + rs[i].length != r.offset
  }

  /** Why an index is refused: the first record at fault, or an index in order without header or selected slot. */
  ghost predicate Faulty(rs: seq<Record>, lo: nat, hi: nat, e: IndexError)
    requires lo < hi <= |rs|
  {
    || (exists n: nat :: n < |rs| && ScansWell(rs, lo, hi, n) && FaultAt(rs, lo, hi, n, e))
    || (&& ScansWell(rs, lo, hi, |rs|)
        && if forall k :: 0 <= k < |rs| ==> rs[k].length == 0 then e == NothingPresent
           else if !(exists f: nat, offset: nat :: HeaderAt(rs, f, offset) && 0 < offset <= 4_096) then e == BadHeader
           else e == NothingSelected && forall k :: lo <= k < hi ==> rs[k].length == 0)
  }

  /** The loop variables after the first n records. */
  datatype Scan = Scan(
    firstOffset: Option<nat>,
    previousEnd: Option<nat>,
    selectedFirst: Option<(nat, nat)>,
    selectedLast: Option<(nat, nat)>,
    present: nat,
    skipped: nat,
    sum: nat)

  function Min(x: nat, y: nat): nat { if x < y then x else y }

  ghost predicate SeenIndex(rs: seq<Record>, n: nat, s: Scan)
    requires n <= |rs|
  {
    var (f, l) := (First(rs, 0, n), Last(rs, 0, n));
    && s.firstOffset == (if f.Some? then Some(rs[f.value].offset) else None)
    && s.previousEnd == (if l.Some? then Some(rs[l.value].End()) else None)
  }

  ghost predicate SeenSelection(rs: seq<Record>, epochStart: nat, lo: nat, m: nat, s: Scan)
    requires m <= |rs|
  {
    var (f, l) := (First(rs, lo, m), Last(rs, lo, m));
    && s.selectedFirst == (if f.Some? then Some((epochStart + f.value, rs[f.value].offset)) else None)
    && s.selectedLast == (if l.Some? then Some((epochStart + l.value, rs[l.value].End())) else None)
    && s.present == CountPresent(rs, lo, m)
    && s.present + s.skipped == (if m > lo then m - lo else 0)
    && s.sum == SumLengths(rs, lo, m)
  }

  ghost predicate Scanned(rs: seq<Record>, epochStart: nat, lo: nat, hi: nat, n: nat, s: Scan)
    requires lo < hi <= |rs| && n <= |rs|
  {
    SeenIndex(rs, n, s) && SeenSelection(rs, epochStart, lo, Min(n, hi), s)
  }

  /** How the summaries of the scan grow by one record. */
  lemma Unfolded(rs: seq<Record>, lo: nat, n: nat)
    requires n < |rs|
    ensures First(rs, lo, n + 1) ==
            if First(rs, lo, n).Some? then First(rs, lo, n) else if lo <= n && rs[n].Present() then Some(n) else None
    ensures Last(rs, lo, n + 1) == if lo <= n && rs[n].Present() then Some(n) else Last(rs, lo, n)
    ensures CountPresent(rs, lo, n + 1) == CountPresent(rs, lo, n) + (if lo <= n && rs[n].Present() then 1 else 0)
    ensures SumLengths(rs, lo, n + 1) == SumLengths(rs, lo, n) + (if lo <= n then rs[n].length else 0)
  {
  }

  /** What the loop variables hold before record n, and must hold after it if it is in order. */
  lemma Expected(rs: seq<Record>, epochStart: nat, lo: nat, hi: nat, n: nat, s: Scan)
    requires lo < hi <= |rs| && n < |rs| && Scanned(rs, epochStart, lo, hi, n, s)
    ensures NotBefore(rs, Last(rs, 0, n), rs[n]) <==> (s.previousEnd.Some? ==> s.previousEnd.value <= rs[n].offset)
    ensures n < hi ==> (Joins(rs, Last(rs, lo, n), rs[n])
                        <==> (s.selectedLast.Some? ==> s.selectedLast.value.1 == rs[n].offset))
    ensures lo <= n < hi ==> SumLengths(rs, lo, n + 1) == s.sum + rs[n].length
    ensures Scanned(rs, epochStart, lo, hi, n + 1, Stepped(rs[n], lo <= n < hi, epochStart + n, s))
  {
    hide First, Last, CountPresent, SumLengths, SeenIndex, SeenSelection, Stepped, NotBefore, Joins;
    IndexStep(rs, n, s, lo <= n < hi, epochStart + n);
    SelectionStep(rs, epochStart, lo, hi, n, s);
  }

  lemma IndexStep(rs: seq<Record>, n: nat, s: Scan, selected: bool, slot: nat)
    requires n < |rs| && SeenIndex(rs, n, s)
    ensures NotBefore(rs, Last(rs, 0, n), rs[n]) <==> (s.previousEnd.Some? ==> s.previousEnd.value <= rs[n].offset)
    ensures SeenIndex(rs, n + 1, Stepped(rs[n], selected, slot, s))
  {
    hide First, Last;
    Unfolded(rs, 0, n);
  }

  lemma SelectionStep(rs: seq<Record>, epochStart: nat, lo: nat, hi: nat, n: nat, s: Scan)
    requires lo < hi <= |rs| && n < |rs| && SeenSelection(rs, epochStart, lo, Min(n, hi), s)
    ensures n < hi ==> (Joins(rs, Last(rs, lo, n), rs[n])
                        <==> (s.selectedLast.Some? ==> s.selectedLast.value.1 == rs[n].offset))
    ensures lo <= n < hi ==> SumLengths(rs, lo, n + 1) == s.sum + rs[n].length
    ensures SeenSelection(rs, epochStart, lo, Min(n + 1, hi), Stepped(rs[n], lo <= n < hi, epochStart + n, s))
  {
    hide First, Last, CountPresent, SumLengths;
    if lo <= n < hi {
      SelectedStep(rs, epochStart, lo, n, s);
    } else if n < lo {
      Unfolded(rs, lo, n);
      assert SeenSelection(rs, epochStart, lo, n + 1, s);
    }
  }

  lemma SelectedStep(rs: seq<Record>, epochStart: nat, lo: nat, n: nat, s: Scan)
    requires lo <= n < |rs| && SeenSelection(rs, epochStart, lo, n, s)
    ensures Joins(rs, Last(rs, lo, n), rs[n]) <==> (s.selectedLast.Some? ==> s.selectedLast.value.1 == rs[n].offset)
    ensures SumLengths(rs, lo, n + 1) == s.sum + rs[n].length
    ensures SeenSelection(rs, epochStart, lo, n + 1, Stepped(rs[n], true, epochStart + n, s))
  {
    hide First, Last, CountPresent, SumLengths;
    Unfolded(rs, lo, n);
  }

  function Stepped(record: Record, selected: bool, slot: nat, s: Scan): Scan {
    if !record.Present() then (if selected then s.(skipped := s.skipped + 1) else s)
    else
      var firstOffset := if s.firstOffset.Some? then s.firstOffset else Some(record.offset);
      var seen := s.(firstOffset := firstOffset, previousEnd := Some(record.End()));
      if !selected then seen
      else
        seen.(present := s.present + 1, sum := s.sum + record.length,
              selectedFirst := if s.selectedFirst.Some? then s.selectedFirst else Some((slot, record.offset)),
              selectedLast := Some((slot, record.End())))
  }

  /** One record of the scan. The overflow error of the selected sum cannot occur. */
  method ScanRecord(rs: seq<Record>, epochStart: nat, lo: nat, hi: nat, n: nat, s: Scan)
    returns (r: Result<Scan, IndexError>)
    requires lo < hi <= |rs| && n < |rs| && ScansWell(rs, lo, hi, n) && Scanned(rs, epochStart, lo, hi, n, s)
    ensures r.Ok? <==> ScansWell(rs, lo, hi, n + 1)
    ensures r.Ok? ==> Scanned(rs, epochStart, lo, hi, n + 1, r.value)
    ensures r.Err? ==> FaultAt(rs, lo, hi, n, r.error)
  {
    hide First, Last, CountPresent, SumLengths, SeenIndex, SeenSelection, FaultAt;
    Expected(rs, epochStart, lo, hi, n, s);
    Faults(rs, epochStart, lo, hi, n, s);
    var record := rs[n];
    var selected := lo <= n < hi;
    if record.length == 0 {
      if record.offset != 0 {
        return Err(StrayOffset);
      }
      return Ok(if selected then s.(skipped := s.skipped + 1) else s);
    }
    var end := record.offset + record.length;
    if end >= U64_LIMIT {
      return Err(EndOverflow);
    }
    if s.previousEnd.Some? && record.offset < s.previousEnd.value {
      return Err(Overlap);
    }
    var firstOffset := if s.firstOffset.Some? then s.firstOffset else Some(record.offset);
    var after: Scan := s.(firstOffset := firstOffset, previousEnd := Some(end));
    if selected {
      if s.selectedLast.Some? && record.offset != s.selectedLast.value.1 {
        return Err(NonContiguous);
      }
      assert ScansWell(rs, lo, hi, n + 1);
      SumFits(rs, lo, hi, n + 1);
      assert s.sum + record.length < U64_LIMIT;
      after := after.(present := s.present + 1, sum := s.sum + record.length,
                      selectedFirst := if s.selectedFirst.Some? then s.selectedFirst
                                       else Some((epochStart + n, record.offset)),
                      selectedLast := Some((epochStart + n, end)));
    }
    return Ok(after);
  }

  lemma SumFits(rs: seq<Record>, lo: nat, hi: nat, n: nat)
    requires lo < hi && n <= hi && n <= |rs| && ScansWell(rs, lo, hi, n)
    ensures SumLengths(rs, lo, n) < U64_LIMIT
  {
    hide Tiles, ScansWell;
    ScanTiles(rs, lo, hi, n);
  }

  /** The scan over the decoded records. */
  method ScanRecords(rs: seq<Record>, epochStart: nat, lo: nat, hi: nat) returns (r: Result<RangeInfo, IndexError>)
    requires lo < hi <= |rs|
    ensures r.Ok? <==> Acceptable(rs, lo, hi)
    ensures r.Ok? ==> Describes(rs, epochStart, lo, hi, r.value)
    ensures r.Err? ==> Faulty(rs, lo, hi, r.error)
  {
    hide Acceptable, Describes, First, Last, CountPresent, SumLengths, FaultAt, HeaderAt;
    var s := Scan(None, None, None, None, 0, 0, 0);
    NothingSeen(rs, epochStart, lo, hi);
    for n := 0 to |rs|
      invariant ScansWell(rs, lo, hi, n) && Scanned(rs, epochStart, lo, hi, n, s)
    {
      var next := ScanRecord(rs, epochStart, lo, hi, n, s);
      if next.Err? {
        Rejected(rs, lo, hi, n + 1);
        return Err(next.error);
      }
      s := next.value;
    }
    Scannable(rs, epochStart, lo, hi, s);
    Lacking(rs, epochStart, lo, hi, s);
    if s.firstOffset.None? {
      return Err(NothingPresent);
    }
    var headerBytes := s.firstOffset.value;
    if headerBytes == 0 || headerBytes > MAX_HEADER_BYTES {
      return Err(BadHeader);
    }
    if s.selectedFirst.None? {
      return Err(NothingSelected);
    }
    var (firstSlot, sourceStart) := s.selectedFirst.value;
    var (lastSlot, sourceEnd) := s.selectedLast.value;
    assert sourceStart <= sourceEnd && sourceEnd - sourceStart == s.sum;
    return Ok(RangeInfo(firstSlot, lastSlot, s.present, s.skipped, headerBytes, sourceStart, sourceEnd,
                        sourceEnd - sourceStart));
  }

  /** What each refusal of a record means. */
  lemma Faults(rs: seq<Record>, epochStart: nat, lo: nat, hi: nat, n: nat, s: Scan)
    requires lo < hi <= |rs| && n < |rs| && ScansWell(rs, lo, hi, n) && Scanned(rs, epochStart, lo, hi, n, s)
    ensures var r := rs[n];
            && (r.length == 0 && r.offset != 0 ==> FaultAt(rs, lo, hi, n, StrayOffset))
            && (r.length != 0 && r.offset + r.length >= U64_LIMIT ==> FaultAt(rs, lo, hi, n, EndOverflow))
            && (r.length != 0 && r.offset + r.length < U64_LIMIT ==>
                  if s.previousEnd.Some? && r.offset < s.previousEnd.value then FaultAt(rs, lo, hi, n, Overlap)
                  else lo <= n < hi && s.selectedLast.Some? && r.offset != s.selectedLast.value.1 ==>
                         FaultAt(rs, lo, hi, n, NonContiguous))
  {
    hide First, Last, CountPresent, SumLengths, Scanned, ScansWell;
    var r := rs[n];
    LastEnds(rs, epochStart, lo, hi, n, s);
    if r.length != 0 && !(s.previousEnd.Some? && r.offset < s.previousEnd.value) {
      NoOverlap(rs, epochStart, lo, hi, n, s);
    }
  }

  /** A record at or after the end of the last one overlaps none before it. */
  lemma NoOverlap(rs: seq<Record>, epochStart: nat, lo: nat, hi: nat, n: nat, s: Scan)
    requires lo < hi <= |rs| && n < |rs| && ScansWell(rs, lo, hi, n) && Scanned(rs, epochStart, lo, hi, n, s)
    requires s.previousEnd.Some? ==> rs[n].offset >= s.previousEnd.value
    ensures forall i :: 0 <= i < n && rs[i].length != 0 ==> rs[n].offset >= rs[i].offset + rs[i].length
  {
    hide First, Last, CountPresent, SumLengths;
    ScanMeans(rs, lo, hi, n);
    LastMeans(rs, 0, n);
    Expected(rs, epochStart, lo, hi, n, s);
    LastEnds(rs, epochStart, lo, hi, n, s);
  }

  lemma LastEnds(rs: seq<Record>, epochStart: nat, lo: nat, hi: nat, n: nat, s: Scan)
    requires lo < hi <= |rs| && n < |rs| && Scanned(rs, epochStart, lo, hi, n, s)
    ensures s.previousEnd.Some? ==>
              exists i :: 0 <= i < n && rs[i].length != 0 && s.previousEnd.value == rs[i].offset + rs[i].length
                          && NoneBetween(rs, i, n)
    ensures s.previousEnd.None? ==> forall i :: 0 <= i < n ==> rs[i].length == 0
    ensures lo <= n < hi && s.selectedLast.Some? ==>
              exists i :: lo <= i < n && rs[i].length != 0 && s.selectedLast.value.1 == rs[i].offset + rs[i].length
                          && NoneBetween(rs, i, n)
  {
    hide First, Last, CountPresent, SumLengths;
    LastMeans(rs, 0, n);
    LastMeans(rs, lo, n);
    Expected(rs, epochStart, lo, hi, n, s);
  }

  /** What a complete scan lacks if it is refused. */
  lemma Lacking(rs: seq<Record>, epochStart: nat, lo: nat, hi: nat, s: Scan)
    requires lo < hi <= |rs| && ScansWell(rs, lo, hi, |rs|) && Scanned(rs, epochStart, lo, hi, |rs|, s)
    ensures s.firstOffset.None? <==> forall k :: 0 <= k < |rs| ==> rs[k].length == 0
    ensures s.firstOffset.Some? ==>
              (0 < s.firstOffset.value <= 4_096 <==>
               exists f: nat, offset: nat :: HeaderAt(rs, f, offset) && 0 < offset <= 4_096)
    ensures s.selectedFirst.None? ==> forall k :: lo <= k < hi ==> rs[k].length == 0
  {
    hide First, Last, CountPresent, SumLengths, ScansWell;
    FirstMeans(rs, 0, |rs|);
    FirstMeans(rs, lo, hi);
    var f := First(rs, 0, |rs|);
    assert f.Some? ==> HeaderAt(rs, f.value, rs[f.value].offset);
    forall k: nat, offset: nat | HeaderAt(rs, k, offset)
      ensures f == Some(k) && offset == rs[k].offset
    {
    }
  }

  lemma NothingSeen(rs: seq<Record>, epochStart: nat, lo: nat, hi: nat)
    requires lo < hi <= |rs|
    ensures ScansWell(rs, lo, hi, 0) && Scanned(rs, epochStart, lo, hi, 0, Scan(None, None, None, None, 0, 0, 0))
  {
  }

  /**
   * After a complete scan only the header and the presence of a selected slot can still be wrong;
   * the selected span is never reversed and always the sum of its lengths.
   */
  lemma Scannable(rs: seq<Record>, epochStart: nat, lo: nat, hi: nat, s: Scan)
    requires lo < hi <= |rs| && ScansWell(rs, lo, hi, |rs|) && Scanned(rs, epochStart, lo, hi, |rs|, s)
    ensures s.selectedFirst.Some? <==> s.selectedLast.Some?
    ensures s.selectedFirst.Some? ==> s.selectedFirst.value.1 + s.sum == s.selectedLast.value.1
    ensures Acceptable(rs, lo, hi) <==>
            s.firstOffset.Some? && 0 < s.firstOffset.value <= MAX_HEADER_BYTES && s.selectedFirst.Some?
    ensures Acceptable(rs, lo, hi) ==>
              Describes(rs, epochStart, lo, hi,
                        RangeInfo(s.selectedFirst.value.0, s.selectedLast.value.0, s.present, s.skipped,
                                  s.firstOffset.value, s.selectedFirst.value.1, s.selectedLast.value.1, s.sum))
  {
    hide Tiles, ScansWell, CountPresent, SumLengths, First, Last, Acceptable, Describes, Sound, Contiguous, HeaderAt;
    ScanPrefix(rs, lo, hi, hi, |rs|);
    ScanTiles(rs, lo, hi, hi);
    ScanMeans(rs, lo, hi, |rs|);
    AcceptableMeans(rs, lo, hi);
    if Acceptable(rs, lo, hi) {
      HeaderFirst(rs, lo, hi);
      Described(rs, epochStart, lo, hi, s);
    }
  }

  /** Acceptability in terms of what the scan keeps. */
  lemma AcceptableMeans(rs: seq<Record>, lo: nat, hi: nat)
    requires lo < hi <= |rs| && Sound(rs, |rs|) && Contiguous(rs, lo, hi)
    ensures Acceptable(rs, lo, hi) <==>
            var (f, sf) := (First(rs, 0, |rs|), First(rs, lo, hi));
            f.Some? && 0 < rs[f.value].offset <= MAX_HEADER_BYTES && sf.Some?
  {
    hide First, Sound, Contiguous;
    FirstMeans(rs, 0, |rs|);
    FirstMeans(rs, lo, hi);
    var f := First(rs, 0, |rs|);
    assert f.Some? ==> HeaderAt(rs, f.value, rs[f.value].offset);
    forall k: nat, offset: nat | HeaderAt(rs, k, offset)
      ensures f == Some(k) && offset == rs[k].offset
    {
    }
  }

  lemma Described(rs: seq<Record>, epochStart: nat, lo: nat, hi: nat, s: Scan)
    requires lo < hi <= |rs| && Scanned(rs, epochStart, lo, hi, |rs|, s)
    requires First(rs, 0, |rs|).Some? && First(rs, lo, hi).Some? && Last(rs, lo, hi).Some?
    requires
      var (f, sf, sl) := (rs[First(rs, 0, |rs|).value], rs[First(rs, lo, hi).value], rs[Last(rs, lo, hi).value]);
      && 0 < f.offset <= MAX_HEADER_BYTES && f.offset <= sf.offset
      && sf.offset + SumLengths(rs, lo, hi) == sl.End()
      && Tiles(rs, lo, hi, sf.offset, sl.End())
    ensures Describes(rs, epochStart, lo, hi,
                      RangeInfo(s.selectedFirst.value.0, s.selectedLast.value.0, s.present, s.skipped,
                                s.firstOffset.value, s.selectedFirst.value.1, s.selectedLast.value.1, s.sum))
  {
    hide Tiles, CountPresent, SumLengths, First, Last;
    FirstMeans(rs, 0, |rs|);
    FirstMeans(rs, lo, hi);
    LastMeans(rs, lo, hi);
    assert HeaderAt(rs, First(rs, 0, |rs|).value, s.firstOffset.value);
    var sf, sl := First(rs, lo, hi).value, Last(rs, lo, hi).value;
    forall k | lo <= k < hi && rs[k].Present()
      ensures sf <= k <= sl
    {
    }
  }

  /** The first present record of the index does not lie after the first selected one. */
  lemma HeaderFirst(rs: seq<Record>, lo: nat, hi: nat)
    requires lo < hi <= |rs| && Sound(rs, |rs|) && First(rs, lo, hi).Some?
    ensures First(rs, 0, |rs|).Some? && rs[First(rs, 0, |rs|).value].offset <= rs[First(rs, lo, hi).value].offset
  {
    hide First;
    FirstMeans(rs, 0, |rs|);
  }

  /** An index whose scan stops early is not acceptable. */
  lemma Rejected(rs: seq<Record>, lo: nat, hi: nat, n: nat)
    requires lo < hi <= |rs| && n <= |rs| && !ScansWell(rs, lo, hi, n)
    ensures !Acceptable(rs, lo, hi)
  {
    ScanMeans(rs, lo, hi, |rs|);
    if Acceptable(rs, lo, hi) {
      ScanPrefix(rs, lo, hi, n, |rs|);
    }
  }

  // ---------------------------------------------------------------------------------
  // What the range holds

  /** The bytes of the selected slots, slot by slot. */
  function SlotBytes(source: Bytes, rs: seq<Record>, lo: nat, n: nat): Bytes
    requires n <= |rs|
  {
    if n <= lo then []
    else
      var r := rs[n - 1];
      SlotBytes(source, rs, lo, n - 1) + (if r.Present() && r.End() <= |source| then source[r.offset..r.End()] else [])
  }

  lemma {:induction false} SpanIsSlots(source: Bytes, rs: seq<Record>, lo: nat, hi: nat, n: nat)
    requires lo < hi && n <= hi && n <= |rs| && ScansWell(rs, lo, hi, n)
    requires Last(rs, lo, n).Some? ==> rs[Last(rs, lo, n).value].End() <= |source|
    ensures First(rs, lo, n).Some? <==> Last(rs, lo, n).Some?
    ensures First(rs, lo, n).None? ==> SlotBytes(source, rs, lo, n) == []
    ensures First(rs, lo, n).Some? ==>
              var (from, to) := (rs[First(rs, lo, n).value].offset, rs[Last(rs, lo, n).value].End());
              from <= to && SlotBytes(source, rs, lo, n) == source[from..to]
  {
    hide Tiles, NotBefore, First, Last, SumLengths, SlotBytes;
    if n > lo {
      ScanTiles(rs, lo, hi, n);
      ScanTiles(rs, lo, hi, n - 1);
      Unfolded(rs, lo, n - 1);
      BytesStep(source, rs, lo, n);
      SpanIsSlots(source, rs, lo, hi, n - 1);
    } else {
      NoSlots(source, rs, lo, n);
    }
  }

  lemma NoSlots(source: Bytes, rs: seq<Record>, lo: nat, n: nat)
    requires n <= lo && n <= |rs|
    ensures First(rs, lo, n).None? && Last(rs, lo, n).None? && SlotBytes(source, rs, lo, n) == []
  {
  }

  lemma BytesStep(source: Bytes, rs: seq<Record>, lo: nat, n: nat)
    requires lo < n <= |rs|
    ensures var r := rs[n - 1];
            SlotBytes(source, rs, lo, n) ==
            SlotBytes(source, rs, lo, n - 1)
            + (if r.Present() && r.End() <= |source| then source[r.offset..r.End()] else [])
  {
  }

  /** Downloading the range an accepted index describes brings exactly the bytes of its selected slots. */
  lemma RangeHoldsSlots(source: Bytes, rs: seq<Record>, epochStart: nat, lo: nat, hi: nat, r: RangeInfo)
    requires lo < hi <= |rs| && Acceptable(rs, lo, hi) && Describes(rs, epochStart, lo, hi, r)
             && r.sourceEnd <= |source|
    ensures r.sourceStart <= r.sourceEnd && source[r.sourceStart..r.sourceEnd] == SlotBytes(source, rs, lo, hi)
  {
    hide Tiles, ScansWell, CountPresent, SumLengths, First, Last, SlotBytes, Acceptable;
    AcceptedScans(rs, lo, hi);
    Ends(rs, epochStart, lo, hi, r);
    SpanIsSlots(source, rs, lo, hi, hi);
  }

  lemma AcceptedScans(rs: seq<Record>, lo: nat, hi: nat)
    requires lo < hi <= |rs| && Acceptable(rs, lo, hi)
    ensures ScansWell(rs, lo, hi, hi)
  {
    ScanMeans(rs, lo, hi, |rs|);
    ScanPrefix(rs, lo, hi, hi, |rs|);
  }

  lemma Ends(rs: seq<Record>, epochStart: nat, lo: nat, hi: nat, r: RangeInfo)
    requires lo < hi <= |rs| && Describes(rs, epochStart, lo, hi, r)
    ensures First(rs, lo, hi) == Some(r.firstSlot - epochStart) && Last(rs, lo, hi) == Some(r.lastSlot - epochStart)
  {
    hide Tiles, CountPresent, SumLengths, First, Last;
    FirstMeans(rs, lo, hi);
    LastMeans(rs, lo, hi);
  }
}
