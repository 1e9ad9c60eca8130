/** The cursor-moving transaction parser, proved to compute exactly the parser function. */
module SolanaParser {
  import opened Common
  import opened ShortVec
  import opened SolanaTransaction

  ghost function Prepend<T>(xs: seq<T>, p: Parse<seq<T>>): Parse<seq<T>> {
    match p
    case Ok(q) => Ok(Parsed(xs + q.value, q.rest))
    case Err(e) => Err(e)
  }

  lemma PrependNothing<T>(p: Parse<seq<T>>)
    ensures Prepend([], p) == p
  {
    if p.Ok? {
      assert [] + p.value.value == p.value.value;
    }
  }

  ghost function ParseCountedIxs(b: Bytes): Parse<seq<CompiledIx>> {
    var count :- ParseShort(b);
    ParseIxs(count.value, count.rest)
  }

  method ReadIx(message: Bytes, start: nat) returns (r: ReadResult<CompiledIx>)
    requires start <= |message|
    ensures Reads(r, message, ParseIx(message[start..]))
  {
    hide ParseVector;
    var program :- Take(message, start, 1);
    assert message[start..][1..] == message[start + 1..];
    var accounts :- ReadVector(message, start + 1);
    var data :- ReadVector(message, accounts.next);
    return Ok(Read(CompiledIx(program[0], accounts.value, data.value), data.next));
  }

  method ReadIxs(message: Bytes, start: nat) returns (r: ReadResult<seq<CompiledIx>>)
    requires start <= |message|
    ensures Reads(r, message, ParseCountedIxs(message[start..]))
  {
    hide ParseIx, ParseShort;
    var count :- ReadShort(message, start);
    var value: seq<CompiledIx> := [];
    var cursor: nat := count.next;
    ghost var all := ParseIxs(count.value, message[cursor..]);
    PrependNothing(all);
    var index := 0;
    while index < count.value
      invariant 0 <= index <= count.value && cursor <= |message|
      invariant all == Prepend(value, ParseIxs(count.value - index, message[cursor..]))
    {
      var ix :- ReadIx(message, cursor);
      ghost var tail := ParseIxs(count.value - index - 1, message[ix.next..]);
      assert tail.Ok? ==> value + ([ix.value] + tail.value.value) == (value + [ix.value]) + tail.value.value;
      value := value + [ix.value];
      cursor := ix.next;
      index := index + 1;
    }
    assert ParseIxs(0, message[cursor..]) == Ok(Parsed([], message[cursor..]));
    assert value + [] == value;
    return Ok(Read(value, cursor));
  }

  method ReadLookup(message: Bytes, start: nat) returns (r: ReadResult<Lookup>)
    requires start <= |message|
    ensures Reads(r, message, ParseLookup(message[start..]))
  {
    hide ParseVector;
    var table :- Take(message, start, 32);
    assert message[start..][..32] == table && message[start..][32..] == message[start + 32..];
    var writable :- ReadVector(message, start + 32);
    var readonly :- ReadVector(message, writable.next);
    if |writable.value| + |readonly.value| == 0 {
      return Err(EmptyLookup);
    }
    return Ok(Read(Lookup(table, writable.value, readonly.value), readonly.next));
  }

  /** The lookup loop also counts the keys the lookups will load. */
  method ReadLookups(version: Version, message: Bytes, start: nat)
    returns (r: ReadResult<seq<Lookup>>, dynamicKeys: nat)
    requires start <= |message|
    ensures Reads(r, message, ParseLookupSection(version, message[start..]))
    ensures r.Ok? ==> dynamicKeys == DynamicKeys(r.value.value)
  {
    hide ParseLookup, ParseShort;
    dynamicKeys := 0;
    if version.Legacy? {
      return Ok(Read([], start)), 0;
    }
    var count := ReadShort(message, start);
    if count.Err? {
      return Err(count.error), 0;
    }
    var value: seq<Lookup> := [];
    var cursor: nat := count.value.next;
    ghost var all := ParseLookups(count.value.value, message[cursor..]);
    PrependNothing(all);
    var index := 0;
    while index < count.value.value
      invariant 0 <= index <= count.value.value && cursor <= |message|
      invariant all == Prepend(value, ParseLookups(count.value.value - index, message[cursor..]))
      invariant dynamicKeys == DynamicKeys(value)
    {
      var lookup := ReadLookup(message, cursor);
      if lookup.Err? {
        return Err(lookup.error), 0;
      }
      var l := lookup.value.value;
      ghost var tail := ParseLookups(count.value.value - index - 1, message[lookup.value.next..]);
      assert tail.Ok? ==> value + ([l] + tail.value.value) == (value + [l]) + tail.value.value;
      assert (value + [l])[..|value|] == value;
      dynamicKeys := dynamicKeys + |l.writable| + |l.readonly|;
      value := value + [l];
      cursor := lookup.value.next;
      index := index + 1;
    }
    assert ParseLookups(0, message[cursor..]) == Ok(Parsed([], message[cursor..]));
    assert value + [] == value;
    r := Ok(Read(value, cursor));
  }

  method SplitRecords(count: nat, width: nat, b: Bytes) returns (records: seq<Bytes>)
    requires |b| == count * width
    ensures records == Chunks(count, width, b)
  {
    records := [];
    var index, at: nat := 0, 0;
    while index < count
      invariant 0 <= index <= count && at == index * width <= |b|
      invariant records == Chunks(index, width, b[..at])
    {
      NextRecord(index, count, width);
      assert b[..at + width][..at] == b[..at];
      records := records + [b[at..at + width]];
      index, at := index + 1, at + width;
    }
    assert b[..at] == b;
  }

  lemma NextRecord(index: nat, count: nat, width: nat)
    requires index < count
    ensures index * width + width == (index + 1) * width <= count * width
  {
    assert count * width == (index + 1) * width + (count - index - 1) * width;
  }

  method CheckInstructions(ixs: seq<CompiledIx>, staticKeys: nat, totalKeys: nat) returns (r: Result<(), WireError>)
    ensures r == CheckIxs(ixs, staticKeys, totalKeys)
  {
    var i := 0;
    while i < |ixs|
      invariant 0 <= i <= |ixs|
      invariant CheckIxs(ixs, staticKeys, totalKeys) == CheckIxs(ixs[i..], staticKeys, totalKeys)
    {
      var ix := ixs[i];
      assert ixs[i..][0] == ix;
      if ix.programIndex == 0 || ix.programIndex >= staticKeys {
        return Err(BadProgramIndex);
      }
      var k := 0;
      while k < |ix.accountIndexes|
        invariant 0 <= k <= |ix.accountIndexes|
        invariant forall j :: 0 <= j < k ==> ix.accountIndexes[j] < totalKeys
      {
        if ix.accountIndexes[k] >= totalKeys {
          assert ix.accountIndexes[k] in ix.accountIndexes;
          return Err(BadAccountIndex);
        }
        k := k + 1;
      }
      assert ixs[i..][0] == ix && ixs[i..][1..] == ixs[i + 1..];
      i := i + 1;
    }
    return Ok(());
  }

  method ReadKeys(message: Bytes, start: nat) returns (r: ReadResult<(Header, seq<Bytes>)>)
    requires start <= |message|
    ensures Reads(r, message, ParseKeys(message[start..]))
    ensures r.Ok? ==> HeaderFits(r.value.value.0, |r.value.value.1|)
  {
    hide ParseShort, Chunks;
    var header :- Take(message, start, 3);
    assert message[start..][..3] == header && message[start..][3..] == message[start + 3..];
    var h := Header(header[0], header[1], header[2]);
    var keyCount :- ReadShort(message, start + 3);
    if keyCount.value == 0 || h.required == 0
       || h.required + h.readonlyUnsigned > keyCount.value
       || h.readonlySigned >= h.required {
      return Err(InvalidHeader);
    }
    var size := keyCount.value * 32;
    var keyBytes :- Take(message, keyCount.next, size);
    assert message[keyCount.next..][..size] == keyBytes;
    assert message[keyCount.next..][size..] == message[keyCount.next + size..];
    var keys := SplitRecords(keyCount.value, 32, keyBytes);
    if !Distinct(keys) {
      return Err(DuplicateKeys);
    }
    return Ok(Read((h, keys), keyCount.next + size));
  }

  method ParseMessageBytes(message: Bytes) returns (r: Result<Message, WireError>)
    ensures r == ParseMessage(message)
  {
    hide ParseShort, ParseKeys, ParseIxs, ParseLookupSection, CheckIxs;
    if message == [] {
      return Err(MissingMessage);
    }
    var version := if message[0] < 128 then Legacy else V0;
    var cursor := 0;
    if version == V0 {
      if message[0] != 128 {
        return Err(UnsupportedVersion);
      }
      cursor := 1;
    }
    assert ParseMessage(message) == ParseBody(version, message[cursor..]) by {
      assert message[0..] == message;
    }
    var keys :- ReadKeys(message, cursor);
    cursor := keys.next;
    var recentBlockhash :- Take(message, cursor, 32);
    assert message[cursor..][..32] == recentBlockhash && message[cursor..][32..] == message[cursor + 32..];
    cursor := cursor + 32;
    var compiled :- ReadIxs(message, cursor);
    var lookups, dynamicKeys := ReadLookups(version, message, compiled.next);
    if lookups.Err? {
      return Err(lookups.error);
    }
    if lookups.value.next != |message| {
      return Err(TrailingBytes);
    }
    var staticKeys := |keys.value.1|;
    var totalKeys := staticKeys + dynamicKeys;
    if totalKeys > 256 {
      return Err(TooManyKeys);
    }
    var _ :- CheckInstructions(compiled.value, staticKeys, totalKeys);
    return Ok(MessageOf(version, keys.value.0, keys.value.1, recentBlockhash, lookups.value.value, compiled.value));
  }

  /** The parser of the source computes ParseTransaction, error for error. */
  method ParseBytes(bytes: Bytes, maxBytes: nat) returns (r: Result<Transaction, WireError>)
    ensures r == ParseTransaction(bytes, maxBytes)
  {
    hide ParseShort, ParseMessage, Chunks;
    if bytes == [] || |bytes| > maxBytes {
      return Err(BadSize);
    }
    assert bytes[0..] == bytes;
    var count :- ReadShort(bytes, 0);
    if count.value == 0 {
      return Err(NoSignatures);
    }
    var size := count.value * 64;
    var signatureBytes :- Take(bytes, count.next, size);
    var messageStart := count.next + size;
    assert bytes[count.next..][..size] == signatureBytes;
    assert bytes[count.next..][size..] == bytes[messageStart..];
    var parsed :- ParseMessageBytes(bytes[messageStart..]);
    if |parsed.requiredSigners| != count.value {
      return Err(SignatureCount);
    }
    var signatures := SplitRecords(count.value, 64, signatureBytes);
    return Ok(Transaction(signatures, parsed));
  }
}
