/** The transaction parser and printer are mutual inverses. */
module SolanaRoundTrip {
  import opened Common
  import opened ShortVec
  import opened SolanaTransaction

  lemma KeysRoundTrip(h: Header, keys: seq<Bytes>, rest: Bytes)
    requires h.required < 256 && h.readonlySigned < 256 && h.readonlyUnsigned < 256 && |keys| < 65536
    requires HeaderFits(h, |keys|) && NoDup(keys) && forall k <- keys :: |k| == 32
    ensures ParseKeys(PrintKeys(h, keys, rest)) == Ok(Parsed((h, keys), rest))
  {
    var b := PrintKeys(h, keys, rest);
    var header: Bytes := [h.required, h.readonlySigned, h.readonlyUnsigned];
    var tail := EncodeShort(|keys|) + (Flatten(keys) + rest);
    assert b[..3] == header && b[3..] == tail;
    ShortRoundTrip(|keys|, Flatten(keys) + rest);
    FlattenChunks(keys, 32);
    assert (Flatten(keys) + rest)[..|keys| * 32] == Flatten(keys);
    assert (Flatten(keys) + rest)[|keys| * 32..] == rest;
  }

  lemma KeysCanonical(b: Bytes)
    requires ParseKeys(b).Ok?
    ensures var p := ParseKeys(b).value;
            var (h, keys) := p.value;
            && h.required < 256 && h.readonlySigned < 256 && h.readonlyUnsigned < 256 && |keys| < 65536
            && HeaderFits(h, |keys|) && NoDup(keys) && (forall k <- keys :: |k| == 32)
            && PrintKeys(h, keys, p.rest) == b
  {
    hide Chunks, Flatten, EncodeShort, ParseShort;
    var p := ParseKeys(b).value;
    ShortCanonical(b[3..]);
    var count := ParseShort(b[3..]).value;
    var keyBytes := ParseTake(count.rest, count.value * 32).value;
    ChunksFlatten(count.value, 32, keyBytes.value);
    assert keyBytes.value + keyBytes.rest == count.rest;
    assert b[..3] + b[3..] == b;
    assert b[..3] == [b[0], b[1], b[2]];
  }

  lemma LookupSectionRoundTrip(version: Version, ls: seq<Lookup>)
    requires |ls| < 65536 && (forall l <- ls :: ShortLookup(l)) && (version.Legacy? ==> ls == [])
    ensures ParseLookupSection(version, PrintLookupSection(version, ls)) == Ok(Parsed(ls, []))
  {
    if version.V0? {
      ShortRoundTrip(|ls|, PrintLookups(ls, []));
      LookupsRoundTrip(ls, []);
    }
  }

  lemma LookupSectionCanonical(version: Version, b: Bytes)
    requires ParseLookupSection(version, b).Ok? && ParseLookupSection(version, b).value.rest == []
    ensures var ls := ParseLookupSection(version, b).value.value;
            && |ls| < 65536 && (forall l <- ls :: ShortLookup(l)) && (version.Legacy? ==> ls == [])
            && PrintLookupSection(version, ls) == b
  {
    if version.V0? {
      ShortCanonical(b);
      var count := ParseShort(b).value;
      LookupsCanonical(count.value, count.rest);
    }
  }

  lemma BodyRoundTrip(m: Message)
    requires Structured(m)
    ensures ParseBody(m.version, PrintBody(m)) == Ok(m)
  {
    hide ParseKeys, PrintKeys, ParseIxs, PrintIxs, ParseLookupSection, PrintLookupSection, CheckIxs, ParseShort,
         EncodeShort;
    WellFormedHeader(m);
    var h, keys := HeaderOf(m.staticAccounts), AddressesOf(m.staticAccounts);
    var lookups := PrintLookupSection(m.version, m.lookups);
    var ixs := PrintIxs(m.ixs, lookups);
    var tail := m.recentBlockhash + (EncodeShort(|m.ixs|) + ixs);
    KeysRoundTrip(h, keys, tail);
    assert tail[..32] == m.recentBlockhash && tail[32..] == EncodeShort(|m.ixs|) + ixs;
    ShortRoundTrip(|m.ixs|, ixs);
    IxsRoundTrip(m.ixs, lookups);
    LookupSectionRoundTrip(m.version, m.lookups);
    CheckIxsExact(m.ixs, |keys|, |keys| + DynamicKeys(m.lookups));
  }

  lemma BodyCanonical(version: Version, b: Bytes)
    requires ParseBody(version, b).Ok?
    requires version.Legacy? ==> b != [] && b[0] < 128
    ensures var m := ParseBody(version, b).value;
            m.version == version && WellFormedMessage(m) && PrintBody(m) == b
  {
    hide ParseIxs, PrintIxs, ParseLookupSection, PrintLookupSection, CheckIxs, ParseShort, EncodeShort, HeaderOf,
         RolesOrdered, Flatten, Chunks;
    var m := ParseBody(version, b).value;
    var keys := ParseKeys(b).value;
    var (h, addresses) := keys.value;
    KeysCanonical(b);
    var blockhash := ParseTake(keys.rest, 32).value;
    ShortCanonical(blockhash.rest);
    var ixCount := ParseShort(blockhash.rest).value;
    IxsCanonical(ixCount.value, ixCount.rest);
    var ixs := ParseIxs(ixCount.value, ixCount.rest).value;
    LookupSectionCanonical(version, ixs.rest);
    CheckIxsExact(ixs.value, |addresses|, |addresses| + DynamicKeys(m.lookups));
    RolesRecoverHeader(addresses, h);
    assert AddressesOf(m.staticAccounts) == addresses;
    assert blockhash.value + blockhash.rest == keys.rest;
    assert b[0] == h.required;
    assert WellFormedMessage(m);
  }

  lemma MessageRoundTrip(m: Message)
    requires WellFormedMessage(m)
    ensures ParseMessage(PrintMessage(m)) == Ok(m)
  {
    hide ParseBody, PrintIxs, PrintLookupSection, EncodeShort, Flatten;
    WellFormedHeader(m);
    BodyRoundTrip(m);
    var h := HeaderOf(m.staticAccounts);
    assert PrintBody(m)[0] == h.required;
    assert ([128] + PrintBody(m))[1..] == PrintBody(m);
  }

  /** A structured message comes back from its printed form exactly if it is v0 or has fewer than 128 signers. */
  lemma RoundTripExactly(m: Message)
    requires Structured(m)
    ensures ParseMessage(PrintMessage(m)) == Ok(m) <==> (m.version.Legacy? ==> |m.requiredSigners| < 128)
  {
    hide ParseBody, PrintIxs, PrintLookupSection, EncodeShort, Flatten;
    WellFormedHeader(m);
    if m.version.Legacy? && |m.requiredSigners| >= 128 {
      assert PrintBody(m)[0] == HeaderOf(m.staticAccounts).required;
      if PrintBody(m)[0] == 128 {
        OtherVersion(PrintBody(m)[1..]);
      }
    } else {
      MessageRoundTrip(m);
    }
  }

  lemma OtherVersion(b: Bytes)
    ensures ParseBody(V0, b).Ok? ==> ParseBody(V0, b).value.version == V0
  {
    hide ParseKeys, ParseIxs, ParseLookupSection, CheckIxs;
  }

  /** A message of n writable signers with no instructions. */
  ghost function SignersOnly(n: nat): Message
    requires 0 < n <= 255
  {
    var accounts := seq(n, i requires 0 <= i < n => Account(i, AddressFilled(i), true, true));
    Message(Legacy, AddressFilled(0), AddressFilled(0), AddressesOf(accounts), accounts, [], [])
  }

  function AddressFilled(b: byte): Bytes { seq(32, _ => b) }

  /** 128 signers are too many for a legacy message: its first byte then reads as a version. */
  lemma ManySignersLost()
    ensures Structured(SignersOnly(128)) && ParseMessage(PrintMessage(SignersOnly(128))) != Ok(SignersOnly(128))
  {
    SignersStructured(128);
    RoundTripExactly(SignersOnly(128));
  }

  lemma SignersStructured(n: nat)
    requires 0 < n <= 255
    ensures Structured(SignersOnly(n)) && |SignersOnly(n).requiredSigners| == n
  {
    var m := SignersOnly(n);
    var accounts := m.staticAccounts;
    CountBelow(SignerFlags(accounts), n);
    CountBelow(WritableSignerFlags(accounts), n);
    CountBelow(SignerOrWritableFlags(accounts), n);
    assert HeaderOf(accounts) == Header(n, 0, 0);
    var addresses := AddressesOf(accounts);
    assert addresses[..n] == addresses;
    forall i, j | 0 <= i < j < n
      ensures addresses[i] != addresses[j]
    {
      assert AddressFilled(i)[0] == i && AddressFilled(j)[0] == j;
    }
  }

  lemma MessageCanonical(b: Bytes)
    requires ParseMessage(b).Ok?
    ensures var m := ParseMessage(b).value; WellFormedMessage(m) && PrintMessage(m) == b
  {
    hide ParseBody, WellFormedMessage, PrintBody;
    if b[0] < 128 {
      BodyCanonical(Legacy, b);
    } else {
      BodyCanonical(V0, b[1..]);
      assert b == [128] + b[1..];
    }
  }

  /** Printing any transaction that can exist on the wire and parsing the result gives it back. */
  lemma ParseInvertsPrint(tx: Transaction, maxBytes: nat)
    requires WellFormed(tx) && |PrintTransaction(tx)| <= maxBytes
    ensures ParseTransaction(PrintTransaction(tx), maxBytes) == Ok(tx)
  {
    hide ParseMessage, PrintMessage, EncodeShort, Flatten, Chunks;
    WellFormedHeader(tx.message);
    var n := |tx.signatures|;
    var tail := Flatten(tx.signatures) + PrintMessage(tx.message);
    ShortRoundTrip(n, tail);
    FlattenChunks(tx.signatures, 64);
    assert tail[..n * 64] == Flatten(tx.signatures) && tail[n * 64..] == PrintMessage(tx.message);
    MessageRoundTrip(tx.message);
    assert PrintTransaction(tx) == EncodeShort(n) + tail;
  }

  /** Every accepted byte string is the printed form of what was parsed: no second encoding, no trailing byte. */
  lemma PrintInvertsParse(b: Bytes, maxBytes: nat)
    requires ParseTransaction(b, maxBytes).Ok?
    ensures var tx := ParseTransaction(b, maxBytes).value;
            WellFormed(tx) && PrintTransaction(tx) == b && |b| <= maxBytes
  {
    hide ParseMessage, PrintMessage, WellFormedMessage, ParseShort, EncodeShort, Flatten, Chunks;
    ShortCanonical(b);
    var count := ParseShort(b).value;
    var signatures := ParseTake(count.rest, count.value * 64).value;
    ChunksFlatten(count.value, 64, signatures.value);
    MessageCanonical(signatures.rest);
    assert signatures.value + signatures.rest == count.rest;
  }

  /** The accepted byte strings are exactly the printed forms of well-formed transactions that fit. */
  lemma AcceptedExactlyPrinted(b: Bytes, maxBytes: nat)
    ensures ParseTransaction(b, maxBytes).Ok?
            <==> |b| <= maxBytes && exists tx :: WellFormed(tx) && PrintTransaction(tx) == b
  {
    if ParseTransaction(b, maxBytes).Ok? {
      PrintInvertsParse(b, maxBytes);
    }
    forall tx | WellFormed(tx) && PrintTransaction(tx) == b && |b| <= maxBytes
      ensures ParseTransaction(b, maxBytes).Ok?
    {
      ParseInvertsPrint(tx, maxBytes);
    }
  }

  /** Two different transactions never share a wire form. */
  lemma {:induction false} PrintInjective(x: Transaction, y: Transaction)
    requires WellFormed(x) && WellFormed(y) && PrintTransaction(x) == PrintTransaction(y)
    ensures x == y
  {
    ParseInvertsPrint(x, |PrintTransaction(x)|);
    ParseInvertsPrint(y, |PrintTransaction(x)|);
  }
}
