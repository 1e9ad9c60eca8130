/**
 * Legacy and version-0 Solana transactions: the parsed form, its wire form, the parser as a
 * function of the bytes, and the resolution of looked-up addresses.
 *
 * Addresses are their 32 bytes; base58 is an injective renaming of them.
 */
module SolanaTransaction {
  import opened Common
  import opened ShortVec

  datatype Version = Legacy | V0

  datatype Account = Account(index: nat, address: Bytes, signer: bool, writable: bool)

  datatype Lookup = Lookup(table: Bytes, writable: Bytes, readonly: Bytes)

  datatype CompiledIx = CompiledIx(programIndex: byte, accountIndexes: Bytes, data: Bytes)

  datatype Message = Message(
    version: Version,
    feePayer: Bytes,
    recentBlockhash: Bytes,
    requiredSigners: seq<Bytes>,
    staticAccounts: seq<Account>,
    lookups: seq<Lookup>,
    ixs: seq<CompiledIx>)

  datatype Transaction = Transaction(signatures: seq<Bytes>, message: Message)

  // ---------------------------------------------------------------------------------
  // Fixed-width records

  function Flatten(xs: seq<Bytes>): Bytes {
    if xs == [] then [] else Flatten(xs[..|xs| - 1]) + xs[|xs| - 1]
  }

  function Chunks(n: nat, width: nat, b: Bytes): (xs: seq<Bytes>)
    requires |b| == n * width
    ensures |xs| == n && forall x <- xs :: |x| == width
  {
    if n == 0 then []
    else
      var init := (n - 1) * width;
      assert n * width == init + width && init >= 0;
      Chunks(n - 1, width, b[..init]) + [b[init..]]
  }

  lemma {:induction false} ChunksFlatten(n: nat, width: nat, b: Bytes)
    requires |b| == n * width
    ensures Flatten(Chunks(n, width, b)) == b
  {
    if n > 0 {
      var init := (n - 1) * width;
      assert n * width == init + width && init >= 0;
      ChunksFlatten(n - 1, width, b[..init]);
      var xs := Chunks(n, width, b);
      assert xs[..|xs| - 1] == Chunks(n - 1, width, b[..init]);
    }
  }

  lemma {:induction false} FlattenLength(xs: seq<Bytes>, width: nat)
    requires forall x <- xs :: |x| == width
    ensures |Flatten(xs)| == |xs| * width
  {
    if xs != [] {
      var init, last := xs[..|xs| - 1], xs[|xs| - 1];
      assert last in xs && forall x <- init :: x in xs;
      FlattenLength(init, width);
      OneMore(|init|, width);
      assert Flatten(xs) == Flatten(init) + last;
    }
  }

  lemma OneMore(n: nat, width: nat)
    ensures (n + 1) * width == n * width + width
  {
  }

  lemma {:induction false} FlattenChunks(xs: seq<Bytes>, width: nat)
    requires forall x <- xs :: |x| == width
    ensures |Flatten(xs)| == |xs| * width
    ensures Chunks(|xs|, width, Flatten(xs)) == xs
  {
    FlattenLength(xs, width);
    if xs != [] {
      var init, last := xs[..|xs| - 1], xs[|xs| - 1];
      FlattenChunks(init, width);
      var k := (|xs| - 1) * width;
      assert k == |init| * width;
      assert Flatten(xs)[..k] == Flatten(init);
      assert Flatten(xs)[k..] == last;
      assert xs == init + [last];
    }
  }

  // ---------------------------------------------------------------------------------
  // Account roles. The header holds three counts; the parsed form holds two flags per key.

  function CountTrue(s: seq<bool>): (n: nat)
    ensures n <= |s|
  {
    if s == [] then 0 else (if s[|s| - 1] then 1 else 0) + CountTrue(s[..|s| - 1])
  }

  ghost predicate TruesFirst(s: seq<bool>) {
    forall i, j :: 0 <= i < j < |s| && s[j] ==> s[i]
  }

  lemma {:induction false} CountTruesFirst(s: seq<bool>)
    requires TruesFirst(s)
    ensures forall i :: 0 <= i < |s| ==> (s[i] <==> i < CountTrue(s))
  {
    if s != [] {
      CountTruesFirst(s[..|s| - 1]);
    }
  }

  lemma {:induction false} CountBelow(s: seq<bool>, k: nat)
    requires k <= |s| && forall i :: 0 <= i < |s| ==> (s[i] <==> i < k)
    ensures CountTrue(s) == k
  {
    if s != [] {
      CountBelow(s[..|s| - 1], if k == |s| then k - 1 else k);
    }
  }

  function SignerFlags(accounts: seq<Account>): seq<bool> {
    seq(|accounts|, i requires 0 <= i < |accounts| => accounts[i].signer)
  }

  function WritableSignerFlags(accounts: seq<Account>): seq<bool> {
    seq(|accounts|, i requires 0 <= i < |accounts| => accounts[i].signer && accounts[i].writable)
  }

  function SignerOrWritableFlags(accounts: seq<Account>): seq<bool> {
    seq(|accounts|, i requires 0 <= i < |accounts| => accounts[i].signer || accounts[i].writable)
  }

  datatype Header = Header(required: nat, readonlySigned: nat, readonlyUnsigned: nat)

  /** The header counts, recovered from the flags alone. */
  function HeaderOf(accounts: seq<Account>): Header {
    var required := CountTrue(SignerFlags(accounts));
    var writableSigners := CountTrue(WritableSignerFlags(accounts));
    Header(required,
           if writableSigners <= required then required - writableSigners else 0,
           |accounts| - CountTrue(SignerOrWritableFlags(accounts)))
  }

  /** Signers precede the rest, and within each group the writable keys come first. */
  ghost predicate RolesOrdered(accounts: seq<Account>) {
    && TruesFirst(SignerFlags(accounts))
    && TruesFirst(WritableSignerFlags(accounts))
    && TruesFirst(SignerOrWritableFlags(accounts))
  }

  /** The role the source derives for each key from the header counts. */
  function AccountsOf(keys: seq<Bytes>, h: Header): seq<Account> {
    seq(|keys|, i requires 0 <= i < |keys| =>
      Account(i, keys[i], i < h.required,
              if i < h.required then i < h.required - h.readonlySigned
              else i < |keys| - h.readonlyUnsigned))
  }

  predicate HeaderFits(h: Header, keyCount: nat) {
    && keyCount != 0 && h.required != 0
    && h.required + h.readonlyUnsigned <= keyCount
    && h.readonlySigned < h.required
  }

  /** Flags derived from an accepted header are ordered and give that header back. */
  lemma RolesRecoverHeader(keys: seq<Bytes>, h: Header)
    requires HeaderFits(h, |keys|)
    ensures RolesOrdered(AccountsOf(keys, h))
    ensures HeaderOf(AccountsOf(keys, h)) == h
  {
    var accounts := AccountsOf(keys, h);
    CountBelow(SignerFlags(accounts), h.required);
    CountBelow(WritableSignerFlags(accounts), h.required - h.readonlySigned);
    CountBelow(SignerOrWritableFlags(accounts), |keys| - h.readonlyUnsigned);
  }

  function AddressesOf(accounts: seq<Account>): seq<Bytes> {
    seq(|accounts|, i requires 0 <= i < |accounts| => accounts[i].address)
  }

  /** Ordered flags determine a header the parser accepts, and it derives the same flags from it. */
  lemma HeaderRecoversRoles(accounts: seq<Account>)
    requires RolesOrdered(accounts)
    requires |accounts| > 0 && accounts[0].signer && accounts[0].writable
    requires forall i :: 0 <= i < |accounts| ==> accounts[i].index == i
    ensures HeaderFits(HeaderOf(accounts), |accounts|)
    ensures AccountsOf(AddressesOf(accounts), HeaderOf(accounts)) == accounts
  {
    CountTruesFirst(SignerFlags(accounts));
    CountTruesFirst(WritableSignerFlags(accounts));
    CountTruesFirst(SignerOrWritableFlags(accounts));
    var s, w := CountTrue(SignerFlags(accounts)), CountTrue(WritableSignerFlags(accounts));
    var o := CountTrue(SignerOrWritableFlags(accounts));
    assert SignerFlags(accounts)[0] && WritableSignerFlags(accounts)[0];
    assert w <= s by {
      if s < |accounts| { assert !SignerFlags(accounts)[s] && !WritableSignerFlags(accounts)[s]; }
    }
    assert s <= o by {
      if o < |accounts| { assert !SignerOrWritableFlags(accounts)[o] && !SignerFlags(accounts)[o]; }
    }
    forall i | 0 <= i < |accounts|
      ensures AccountsOf(AddressesOf(accounts), HeaderOf(accounts))[i] == accounts[i]
    {
      assert SignerFlags(accounts)[i] == accounts[i].signer;
      assert WritableSignerFlags(accounts)[i] == (accounts[i].signer && accounts[i].writable);
      assert SignerOrWritableFlags(accounts)[i] == (accounts[i].signer || accounts[i].writable);
    }
  }

  // ---------------------------------------------------------------------------------
  // Instructions and address lookups

  predicate ShortIx(ix: CompiledIx) {
    |ix.accountIndexes| < 65536 && |ix.data| < 65536
  }

  function PrintIx(ix: CompiledIx, rest: Bytes): Bytes
    requires ShortIx(ix)
  {
    [ix.programIndex] + PrintVector(ix.accountIndexes, PrintVector(ix.data, rest))
  }

  function PrintIxs(ixs: seq<CompiledIx>, rest: Bytes): Bytes
    requires forall ix <- ixs :: ShortIx(ix)
  {
    if ixs == [] then rest else PrintIx(ixs[0], PrintIxs(ixs[1..], rest))
  }

  function ParseIx(b: Bytes): Parse<CompiledIx> {
    var program :- ParseTake(b, 1);
    var accounts :- ParseVector(program.rest);
    var data :- ParseVector(accounts.rest);
    Ok(Parsed(CompiledIx(program.value[0], accounts.value, data.value), data.rest))
  }

  function ParseIxs(n: nat, b: Bytes): Parse<seq<CompiledIx>> {
    if n == 0 then Ok(Parsed([], b))
    else
      var first :- ParseIx(b);
      var others :- ParseIxs(n - 1, first.rest);
      Ok(Parsed([first.value] + others.value, others.rest))
  }

  lemma IxRoundTrip(ix: CompiledIx, rest: Bytes)
    requires ShortIx(ix)
    ensures ParseIx(PrintIx(ix, rest)) == Ok(Parsed(ix, rest))
  {
    var tail := PrintVector(ix.accountIndexes, PrintVector(ix.data, rest));
    assert ([ix.programIndex] + tail)[1..] == tail;
    VectorRoundTrip(ix.accountIndexes, PrintVector(ix.data, rest));
    VectorRoundTrip(ix.data, rest);
  }

  lemma IxCanonical(b: Bytes)
    requires ParseIx(b).Ok?
    ensures ShortIx(ParseIx(b).value.value)
    ensures PrintIx(ParseIx(b).value.value, ParseIx(b).value.rest) == b
  {
    VectorCanonical(b[1..]);
    VectorCanonical(ParseVector(b[1..]).value.rest);
    assert b == [b[0]] + b[1..];
  }

  lemma {:induction false} IxsRoundTrip(ixs: seq<CompiledIx>, rest: Bytes)
    requires forall ix <- ixs :: ShortIx(ix)
    ensures ParseIxs(|ixs|, PrintIxs(ixs, rest)) == Ok(Parsed(ixs, rest))
  {
    hide PrintIx, ParseIx;
    if ixs != [] {
      assert ([ixs[0]] + ixs[1..]) == ixs;
      IxRoundTrip(ixs[0], PrintIxs(ixs[1..], rest));
      IxsRoundTrip(ixs[1..], rest);
    }
  }

  lemma {:induction false} IxsCanonical(n: nat, b: Bytes)
    requires ParseIxs(n, b).Ok?
    ensures |ParseIxs(n, b).value.value| == n
    ensures forall ix <- ParseIxs(n, b).value.value :: ShortIx(ix)
    ensures PrintIxs(ParseIxs(n, b).value.value, ParseIxs(n, b).value.rest) == b
  {
    hide PrintIx, ParseIx;
    if n > 0 {
      IxCanonical(b);
      var first := ParseIx(b).value;
      IxsCanonical(n - 1, first.rest);
      var p := ParseIxs(n, b).value;
      assert p.value[1..] == ParseIxs(n - 1, first.rest).value.value;
    }
  }

  predicate ShortLookup(l: Lookup) {
    |l.table| == 32 && |l.writable| < 65536 && |l.readonly| < 65536 && |l.writable| + |l.readonly| != 0
  }

  function PrintLookup(l: Lookup, rest: Bytes): Bytes
    requires ShortLookup(l)
  {
    l.table + PrintVector(l.writable, PrintVector(l.readonly, rest))
  }

  function PrintLookups(ls: seq<Lookup>, rest: Bytes): Bytes
    requires forall l <- ls :: ShortLookup(l)
  {
    if ls == [] then rest else PrintLookup(ls[0], PrintLookups(ls[1..], rest))
  }

  function ParseLookup(b: Bytes): Parse<Lookup> {
    var table :- ParseTake(b, 32);
    var writable :- ParseVector(table.rest);
    var readonly :- ParseVector(writable.rest);
    if |writable.value| + |readonly.value| == 0 then Err(EmptyLookup)
    else Ok(Parsed(Lookup(table.value, writable.value, readonly.value), readonly.rest))
  }

  function ParseLookups(n: nat, b: Bytes): Parse<seq<Lookup>> {
    if n == 0 then Ok(Parsed([], b))
    else
      var first :- ParseLookup(b);
      var others :- ParseLookups(n - 1, first.rest);
      Ok(Parsed([first.value] + others.value, others.rest))
  }

  lemma LookupRoundTrip(l: Lookup, rest: Bytes)
    requires ShortLookup(l)
    ensures ParseLookup(PrintLookup(l, rest)) == Ok(Parsed(l, rest))
  {
    var tail := PrintVector(l.writable, PrintVector(l.readonly, rest));
    assert (l.table + tail)[..32] == l.table && (l.table + tail)[32..] == tail;
    VectorRoundTrip(l.writable, PrintVector(l.readonly, rest));
    VectorRoundTrip(l.readonly, rest);
  }

  lemma LookupCanonical(b: Bytes)
    requires ParseLookup(b).Ok?
    ensures ShortLookup(ParseLookup(b).value.value)
    ensures PrintLookup(ParseLookup(b).value.value, ParseLookup(b).value.rest) == b
  {
    VectorCanonical(b[32..]);
    VectorCanonical(ParseVector(b[32..]).value.rest);
    assert b == b[..32] + b[32..];
  }

  lemma {:induction false} LookupsRoundTrip(ls: seq<Lookup>, rest: Bytes)
    requires forall l <- ls :: ShortLookup(l)
    ensures ParseLookups(|ls|, PrintLookups(ls, rest)) == Ok(Parsed(ls, rest))
  {
    hide PrintLookup, ParseLookup;
    if ls != [] {
      assert ([ls[0]] + ls[1..]) == ls;
      LookupRoundTrip(ls[0], PrintLookups(ls[1..], rest));
      LookupsRoundTrip(ls[1..], rest);
    }
  }

  lemma {:induction false} LookupsCanonical(n: nat, b: Bytes)
    requires ParseLookups(n, b).Ok?
    ensures |ParseLookups(n, b).value.value| == n
    ensures forall l <- ParseLookups(n, b).value.value :: ShortLookup(l)
    ensures PrintLookups(ParseLookups(n, b).value.value, ParseLookups(n, b).value.rest) == b
  {
    hide PrintLookup, ParseLookup;
    if n > 0 {
      LookupCanonical(b);
      var first := ParseLookup(b).value;
      LookupsCanonical(n - 1, first.rest);
      var p := ParseLookups(n, b).value;
      assert p.value[1..] == ParseLookups(n - 1, first.rest).value.value;
    }
  }

  function DynamicKeys(ls: seq<Lookup>): nat {
    if ls == [] then 0 else DynamicKeys(ls[..|ls| - 1]) + |ls[|ls| - 1].writable| + |ls[|ls| - 1].readonly|
  }

  // ---------------------------------------------------------------------------------
  // Whole messages and transactions

  predicate Distinct(s: seq<Bytes>)
    ensures Distinct(s) <==> NoDup(s)
  {
    NoDupByCount(s);
    |ToSet(s)| == |s|
  }

  predicate IxIndexes(ix: CompiledIx, staticKeys: nat, totalKeys: nat) {
    && 0 < ix.programIndex < staticKeys
    && forall a <- ix.accountIndexes :: a < totalKeys
  }

  function CheckIxs(ixs: seq<CompiledIx>, staticKeys: nat, totalKeys: nat): Result<(), WireError> {
    if ixs == [] then Ok(())
    else if ixs[0].programIndex == 0 || ixs[0].programIndex >= staticKeys then Err(BadProgramIndex)
    else if exists a <- ixs[0].accountIndexes :: a >= totalKeys then Err(BadAccountIndex)
    else CheckIxs(ixs[1..], staticKeys, totalKeys)
  }

  lemma {:induction false} CheckIxsExact(ixs: seq<CompiledIx>, staticKeys: nat, totalKeys: nat)
    ensures CheckIxs(ixs, staticKeys, totalKeys).Ok? <==> forall ix <- ixs :: IxIndexes(ix, staticKeys, totalKeys)
  {
    if ixs != [] {
      CheckIxsExact(ixs[1..], staticKeys, totalKeys);
      assert ixs == [ixs[0]] + ixs[1..];
      assert (forall ix <- ixs :: IxIndexes(ix, staticKeys, totalKeys))
        <==> IxIndexes(ixs[0], staticKeys, totalKeys) && forall ix <- ixs[1..] :: IxIndexes(ix, staticKeys, totalKeys);
    }
  }

  function ParseLookupSection(version: Version, b: Bytes): Parse<seq<Lookup>> {
    if version.Legacy? then Ok(Parsed([], b))
    else
      var count :- ParseShort(b);
      ParseLookups(count.value, count.rest)
  }

  function PrintLookupSection(version: Version, ls: seq<Lookup>): Bytes
    requires |ls| < 65536 && forall l <- ls :: ShortLookup(l)
  {
    if version.Legacy? then [] else EncodeShort(|ls|) + PrintLookups(ls, [])
  }

  function ParseKeys(b: Bytes): Parse<(Header, seq<Bytes>)> {
    var header :- ParseTake(b, 3);
    var h := Header(header.value[0], header.value[1], header.value[2]);
    var count :- ParseShort(header.rest);
    if !HeaderFits(h, count.value) then Err(InvalidHeader)
    else
      var keyBytes :- ParseTake(count.rest, count.value * 32);
      var keys := Chunks(count.value, 32, keyBytes.value);
      if !Distinct(keys) then Err(DuplicateKeys)
      else Ok(Parsed((h, keys), keyBytes.rest))
  }

  function ParseBody(version: Version, b: Bytes): Result<Message, WireError> {
    var keys :- ParseKeys(b);
    var blockhash :- ParseTake(keys.rest, 32);
    var ixCount :- ParseShort(blockhash.rest);
    var ixs :- ParseIxs(ixCount.value, ixCount.rest);
    var lookups :- ParseLookupSection(version, ixs.rest);
    var staticKeys := |keys.value.1|;
    var totalKeys := staticKeys + DynamicKeys(lookups.value);
    if lookups.rest != [] then Err(TrailingBytes)
    else if totalKeys > 256 then Err(TooManyKeys)
    else
      var _ :- CheckIxs(ixs.value, staticKeys, totalKeys);
      Ok(MessageOf(version, keys.value.0, keys.value.1, blockhash.value, lookups.value, ixs.value))
  }

  function MessageOf(version: Version, h: Header, keys: seq<Bytes>, blockhash: Bytes,
                     lookups: seq<Lookup>, ixs: seq<CompiledIx>): Message
    requires h.required <= |keys| && keys != []
  {
    Message(version, keys[0], blockhash, keys[..h.required], AccountsOf(keys, h), lookups, ixs)
  }

  function ParseMessage(m: Bytes): Result<Message, WireError> {
    if m == [] then Err(MissingMessage)
    else if m[0] < 128 then ParseBody(Legacy, m)
    else if m[0] != 128 then Err(UnsupportedVersion)
    else ParseBody(V0, m[1..])
  }

  function ParseTransaction(b: Bytes, maxBytes: nat): Result<Transaction, WireError> {
    if b == [] || |b| > maxBytes then Err(BadSize)
    else
      var count :- ParseShort(b);
      if count.value == 0 then Err(NoSignatures)
      else
        var signatures :- ParseTake(count.rest, count.value * 64);
        var message :- ParseMessage(signatures.rest);
        if |message.requiredSigners| != count.value then Err(SignatureCount)
        else Ok(Transaction(Chunks(count.value, 64, signatures.value), message))
  }

  /**
   * What a message must satisfy to exist on the wire; nothing here mentions the parser. A legacy
   * message has no version byte, so its signer count must not look like one.
   */
  ghost predicate WellFormedMessage(m: Message) {
    Structured(m) && (m.version.Legacy? ==> |m.requiredSigners| < 128)
  }

  ghost predicate Structured(m: Message) {
    var n := |m.staticAccounts|;
    var h := HeaderOf(m.staticAccounts);
    var total := n + DynamicKeys(m.lookups);
    && n > 0
    && (forall i :: 0 <= i < n ==> m.staticAccounts[i].index == i && |m.staticAccounts[i].address| == 32)
    && NoDup(AddressesOf(m.staticAccounts))
    && RolesOrdered(m.staticAccounts)
    && m.staticAccounts[0].signer && m.staticAccounts[0].writable
    && h.required <= 255
    && m.feePayer == m.staticAccounts[0].address
    && m.requiredSigners == AddressesOf(m.staticAccounts)[..h.required]
    && |m.recentBlockhash| == 32
    && |m.ixs| < 65536
    && (forall ix <- m.ixs :: ShortIx(ix) && IxIndexes(ix, n, total))
    && (m.version.Legacy? ==> m.lookups == [])
    && |m.lookups| < 65536
    && (forall l <- m.lookups :: ShortLookup(l))
    && total <= 256
  }

  ghost predicate WellFormed(tx: Transaction) {
    && WellFormedMessage(tx.message)
    && |tx.signatures| == |tx.message.requiredSigners|
    && forall s <- tx.signatures :: |s| == 64
  }

  ghost function PrintKeys(h: Header, keys: seq<Bytes>, rest: Bytes): Bytes
    requires h.required < 256 && h.readonlySigned < 256 && h.readonlyUnsigned < 256 && |keys| < 65536
  {
    [h.required, h.readonlySigned, h.readonlyUnsigned] + (EncodeShort(|keys|) + (Flatten(keys) + rest))
  }

  lemma WellFormedHeader(m: Message)
    requires Structured(m)
    ensures HeaderFits(HeaderOf(m.staticAccounts), |m.staticAccounts|)
    ensures |m.requiredSigners| == HeaderOf(m.staticAccounts).required
    ensures AccountsOf(AddressesOf(m.staticAccounts), HeaderOf(m.staticAccounts)) == m.staticAccounts
  {
    HeaderRecoversRoles(m.staticAccounts);
  }

  ghost function PrintBody(m: Message): Bytes
    requires Structured(m)
  {
    WellFormedHeader(m);
    PrintKeys(HeaderOf(m.staticAccounts), AddressesOf(m.staticAccounts),
              m.recentBlockhash + (EncodeShort(|m.ixs|) + PrintIxs(m.ixs, PrintLookupSection(m.version, m.lookups))))
  }

  ghost function PrintMessage(m: Message): Bytes
    requires Structured(m)
  {
    if m.version.Legacy? then PrintBody(m) else [128] + PrintBody(m)
  }

  /** The wire form of a transaction. */
  ghost function PrintTransaction(tx: Transaction): Bytes
    requires WellFormed(tx)
  {
    WellFormedHeader(tx.message);
    EncodeShort(|tx.signatures|) + (Flatten(tx.signatures) + PrintMessage(tx.message))
  }
}
