/**
 * The compact-u16 length prefix of a Solana transaction, and the length-prefixed byte
 * vectors built on it. Every value 0..65535 has exactly one accepted encoding.
 */
module ShortVec {
  import opened Common

  datatype WireError =
    | Truncated
    | ExceedsU16
    | NotCanonical
    | MissingMessage
    | UnsupportedVersion
    | InvalidHeader
    | DuplicateKeys
    | EmptyLookup
    | TrailingBytes
    | TooManyKeys
    | BadProgramIndex
    | BadAccountIndex
    | BadSize
    | NoSignatures
    | SignatureCount
    | UnresolvedTable
    | BadTableEntry
    | DuplicateAddresses

  /** A value read from the front of a buffer, and the bytes after it. */
  datatype Parsed<+T> = Parsed(value: T, rest: Bytes)

  type Parse<+T> = Result<Parsed<T>, WireError>

  // ---------------------------------------------------------------------------------
  // Printing

  function EncodeShort(v: nat): (b: Bytes)
    requires v < 65536
  {
    if v < 128 then [v]
    else if v < 16384 then [v % 128 + 128, v / 128]
    else [v % 128 + 128, v / 128 % 128 + 128, v / 16384]
  }

  /** A length-prefixed vector printed in front of rest. Every printer here takes what follows it. */
  function PrintVector(v: Bytes, rest: Bytes): Bytes
    requires |v| < 65536
  {
    EncodeShort(|v|) + (v + rest)
  }

  // ---------------------------------------------------------------------------------
  // Parsing a buffer from its front

  function ParseShort(b: Bytes): Parse<nat> {
    if |b| < 1 then Err(Truncated)
    else if b[0] < 128 then Ok(Parsed(b[0], b[1..]))
    else if |b| < 2 then Err(Truncated)
    else if b[1] < 128 then
      if b[1] == 0 then Err(NotCanonical)
      else Ok(Parsed(b[0] as int - 128 + 128 * b[1] as int, b[2..]))
    else if |b| < 3 then Err(Truncated)
    else if b[2] >= 4 then Err(ExceedsU16)
    else if b[2] == 0 then Err(NotCanonical)
    else Ok(Parsed(b[0] as int - 128 + 128 * (b[1] as int - 128) + 16384 * b[2] as int, b[3..]))
  }

  function ParseTake(b: Bytes, size: nat): Parse<Bytes> {
    if size > |b| then Err(Truncated) else Ok(Parsed(b[..size], b[size..]))
  }

  function ParseVector(b: Bytes): Parse<Bytes> {
    var count :- ParseShort(b);
    ParseTake(count.rest, count.value)
  }

  // ---------------------------------------------------------------------------------
  // Printing and parsing are inverse

  /** Every value is read back from its printed form, whatever follows it. */
  lemma ShortRoundTrip(v: nat, rest: Bytes)
    requires v < 65536
    ensures ParseShort(EncodeShort(v) + rest) == Ok(Parsed(v, rest))
  {
    var e := EncodeShort(v);
    assert (e + rest)[|e|..] == rest;
    assert forall i :: 0 <= i < |e| ==> (e + rest)[i] == e[i];
  }

  /** An accepted prefix is the printed form of the value read: no second encoding is accepted. */
  lemma ShortCanonical(b: Bytes)
    requires ParseShort(b).Ok?
    ensures ParseShort(b).value.value < 65536
    ensures EncodeShort(ParseShort(b).value.value) + ParseShort(b).value.rest == b
  {
    var p := ParseShort(b).value;
    if b[0] < 128 {
      assert EncodeShort(p.value) == b[..1];
    } else if b[1] < 128 {
      assert EncodeShort(p.value) == b[..2];
    } else {
      assert p.value / 128 == b[1] as int - 128 + 128 * b[2] as int;
      assert EncodeShort(p.value) == b[..3];
    }
  }

  lemma VectorRoundTrip(v: Bytes, rest: Bytes)
    requires |v| < 65536
    ensures ParseVector(PrintVector(v, rest)) == Ok(Parsed(v, rest))
  {
    ShortRoundTrip(|v|, v + rest);
    assert (v + rest)[..|v|] == v;
  }

  lemma VectorCanonical(b: Bytes)
    requires ParseVector(b).Ok?
    ensures |ParseVector(b).value.value| < 65536
    ensures PrintVector(ParseVector(b).value.value, ParseVector(b).value.rest) == b
  {
    ShortCanonical(b);
    var v := ParseVector(b).value;
    assert v.value + v.rest == ParseShort(b).value.rest;
  }

  // ---------------------------------------------------------------------------------
  // The cursor-moving readers

  /** A value and the position of the first byte after it. */
  datatype Read<+T> = Read(value: T, next: nat)

  type ReadResult<+T> = Result<Read<T>, WireError>

  /** A reader at a position agrees with a parser of the bytes from that position on. */
  ghost predicate Reads<T>(r: ReadResult<T>, bytes: Bytes, p: Parse<T>) {
    match (r, p)
    case (Ok(read), Ok(parsed)) =>
      read.value == parsed.value && read.next <= |bytes| && bytes[read.next..] == parsed.rest
    case (Err(e), Err(f)) => e == f
    case _ => false
  }

  method ReadShort(bytes: Bytes, start: nat) returns (r: ReadResult<nat>)
    requires start <= |bytes|
    ensures Reads(r, bytes, ParseShort(bytes[start..]))
  {
    var value: nat, weight: nat := 0, 1;
    var index := 0;
    while index < 3
      invariant 0 <= index <= 3 && start + index <= |bytes|
      invariant index > 0 ==> bytes[start] >= 128
      invariant index > 1 ==> bytes[start + 1] >= 128
      invariant weight == if index == 0 then 1 else if index == 1 then 128 else if index == 2 then 16384 else 2097152
      invariant value == (if index > 0 then bytes[start] as int - 128 else 0)
                         + (if index > 1 then 128 * (bytes[start + 1] as int - 128) else 0)
      invariant index < 3
    {
      var cursor := start + index;
      if cursor >= |bytes| {
        return Err(Truncated);
      }
      var b := bytes[cursor];
      if index == 2 && b >= 4 {
        return Err(ExceedsU16);
      }
      value := value + b as int % 128 * weight;
      weight := weight * 128;
      if b < 128 {
        if index > 0 && b == 0 {
          return Err(NotCanonical);
        }
        return Ok(Read(value, cursor + 1));
      }
      index := index + 1;
    }
    return Err(ExceedsU16);
  }

  method Take(bytes: Bytes, start: nat, size: nat) returns (r: Result<Bytes, WireError>)
    requires start <= |bytes|
    ensures r == if start + size > |bytes| then Err(Truncated) else Ok(bytes[start..start + size])
  {
    if start + size > |bytes| {
      return Err(Truncated);
    }
    return Ok(bytes[start..start + size]);
  }

  method ReadVector(bytes: Bytes, start: nat) returns (r: ReadResult<Bytes>)
    requires start <= |bytes|
    ensures Reads(r, bytes, ParseVector(bytes[start..]))
  {
    var count :- ReadShort(bytes, start);
    var value :- Take(bytes, count.next, count.value);
    assert bytes[count.next..][..count.value] == value;
    assert bytes[count.next..][count.value..] == bytes[count.next + count.value..];
    return Ok(Read(value, count.next + count.value));
  }
}
