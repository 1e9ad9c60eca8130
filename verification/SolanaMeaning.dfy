/** Which bytes are a transaction, and which one, said of the bytes alone. */
module SolanaMeaning {
  import opened Common
  import opened ShortVec
  import opened SolanaTransaction
  import opened SolanaRoundTrip

  /** One, two or three bytes of seven bits each, the lowest first, with no zero at the end. */
  ghost predicate Compact(h: Bytes, size: nat) {
    || (|h| == 1 && h[0] < 128 && size == h[0] as int)
    || (&& |h| == 2 && h[0] >= 128 && 0 < h[1] < 128
        && size == h[0] as int - 128 + 128 * h[1] as int)
    || (&& |h| == 3 && h[0] >= 128 && h[1] >= 128 && 0 < h[2] < 4
        && size == h[0] as int - 128 + 128 * (h[1] as int - 128) + 16_384 * h[2] as int)
  }

  /** Two vectors from byte `from` on, their sizes in n and k bytes before them. */
  ghost predicate VectorsLaid(b: Bytes, from: nat, n: nat, v: Bytes, k: nat, w: Bytes) {
    var at := from + n + |v|;
    && |b| >= at + k + |w|
    && Compact(b[from..from + n], |v|) && b[from + n..at] == v
    && Compact(b[at..at + k], |w|) && b[at + k..at + k + |w|] == w
  }

  /** A program index, the account indexes and the data. */
  ghost predicate IxLaid(b: Bytes, n: nat, k: nat, ix: CompiledIx) {
    VectorsLaid(b, 1, n, ix.accountIndexes, k, ix.data) && b[0] == ix.programIndex
  }

  ghost predicate IxsLaid(b: Bytes, ixs: seq<CompiledIx>, rest: Bytes)
    decreases |ixs|
  {
    if ixs == [] then b == rest
    else exists n: nat, k: nat ::
           && IxLaid(b, n, k, ixs[0])
           && IxsLaid(b[1 + n + |ixs[0].accountIndexes| + k + |ixs[0].data|..], ixs[1..], rest)
  }

  /** A table's 32 bytes, then its writable and its read-only indexes, not both empty. */
  ghost predicate LookupLaid(b: Bytes, n: nat, k: nat, l: Lookup) {
    VectorsLaid(b, 32, n, l.writable, k, l.readonly) && b[..32] == l.table && |l.writable| + |l.readonly| > 0
  }

  ghost predicate LookupsLaid(b: Bytes, ls: seq<Lookup>)
    decreases |ls|
  {
    if ls == [] then b == []
    else exists n: nat, k: nat ::
           && LookupLaid(b, n, k, ls[0])
           && LookupsLaid(b[32 + n + |ls[0].writable| + k + |ls[0].readonly|..], ls[1..])
  }

  // ---------------------------------------------------------------------------------
  // Sizes, instructions and lookups

  lemma CompactExactly(h: Bytes, size: nat)
    ensures Compact(h, size) <==> size < 65_536 && h == EncodeShort(size)
  {
    if Compact(h, size) { CompactEncoded(h, size); }
    if size < 65_536 && h == EncodeShort(size) { EncodedCompact(size); }
  }

  lemma CompactEncoded(h: Bytes, size: nat)
    requires Compact(h, size)
    ensures size < 65_536 && h == EncodeShort(size)
  {
    if |h| == 2 {
      LowAndHigh(h[0] as int - 128, h[1] as int);
    } else if |h| == 3 {
      LowAndHigh(h[0] as int - 128, h[1] as int - 128 + 128 * h[2] as int);
      LowAndHigh(h[1] as int - 128, h[2] as int);
      Higher(size);
    }
  }

  lemma EncodedCompact(size: nat)
    requires size < 65_536
    ensures Compact(EncodeShort(size), size)
  {
    var (low, high) := (size % 128, size / 128);
    assert size == low + 128 * high;
    if size >= 16_384 {
      Higher(size);
      assert high == high % 128 + 128 * (high / 128) && 0 < high / 128 < 4;
      ThreeBytes(low, high % 128, high / 128);
      assert EncodeShort(size) == [low + 128, high % 128 + 128, high / 128];
    } else if size >= 128 {
      TwoBytes(low, high);
      assert EncodeShort(size) == [low + 128, high];
    }
  }

  lemma TwoBytes(low: nat, high: nat)
    requires low < 128 && 0 < high < 128
    ensures Compact([low + 128, high], low + 128 * high)
  {
  }

  lemma ThreeBytes(low: nat, middle: nat, high: nat)
    requires low < 128 && middle < 128 && 0 < high < 4
    ensures Compact([low + 128, middle + 128, high], low + 128 * middle + 16_384 * high)
  {
  }

  lemma LowAndHigh(low: nat, high: nat)
    requires low < 128
    ensures (low + 128 * high) % 128 == low && (low + 128 * high) / 128 == high
  {
  }

  lemma Higher(size: nat)
    ensures size / 16_384 == size / 128 / 128
  {
    var high := size / 128;
    assert size == 16_384 * (high / 128) + (128 * (high % 128) + size % 128);
  }

  lemma VectorExactly(b: Bytes, from: nat, n: nat, v: Bytes, rest: Bytes)
    requires from + n + |v| <= |b| && rest == b[from + n + |v|..]
    requires Compact(b[from..from + n], |v|) && b[from + n..from + n + |v|] == v
    ensures |v| < 65_536 && b[from..] == PrintVector(v, rest)
  {
    CompactExactly(b[from..from + n], |v|);
    assert b[from..] == b[from..from + n] + (b[from + n..from + n + |v|] + rest);
  }

  lemma VectorPrinted(b: Bytes, from: nat, v: Bytes, rest: Bytes) returns (n: nat)
    requires |v| < 65_536 && from <= |b| && b[from..] == PrintVector(v, rest)
    ensures from + n + |v| <= |b| && Compact(b[from..from + n], |v|) && b[from + n..from + n + |v|] == v
    ensures b[from + n + |v|..] == rest
  {
    hide Compact;
    n := |EncodeShort(|v|)|;
    CompactExactly(EncodeShort(|v|), |v|);
    var p := PrintVector(v, rest);
    assert p[..n] == EncodeShort(|v|) && p[n..n + |v|] == v && p[n + |v|..] == rest;
    Shifted(b, p, from, n, |v|);
  }

  /** The pieces of a suffix are pieces of the whole. */
  lemma Shifted(b: Bytes, suffix: Bytes, at: nat, n: nat, size: nat)
    requires at <= |b| && b[at..] == suffix && n + size <= |suffix|
    ensures b[at..at + n] == suffix[..n] && b[at + n..at + n + size] == suffix[n..n + size]
    ensures b[at + n + size..] == suffix[n + size..]
  {
    Piece(b, at, 0, n);
    Piece(b, at, n, n + size);
    Piece(b, at, n + size, |suffix|);
  }

  lemma Piece(b: Bytes, at: nat, x: nat, y: nat)
    requires at <= |b| && x <= y <= |b| - at
    ensures b[at..][x..y] == b[at + x..at + y]
  {
  }

  lemma VectorsPrinted(b: Bytes, from: nat, v: Bytes, w: Bytes, rest: Bytes) returns (n: nat, k: nat)
    requires |v| < 65_536 && |w| < 65_536
    requires from <= |b| && b[from..] == PrintVector(v, PrintVector(w, rest))
    ensures VectorsLaid(b, from, n, v, k, w) && b[from + n + |v| + k + |w|..] == rest
  {
    hide Compact, PrintVector;
    n := VectorPrinted(b, from, v, PrintVector(w, rest));
    k := VectorPrinted(b, from + n + |v|, w, rest);
  }

  lemma VectorsExactly(b: Bytes, from: nat, n: nat, v: Bytes, k: nat, w: Bytes)
    requires VectorsLaid(b, from, n, v, k, w)
    ensures |v| < 65_536 && |w| < 65_536
    ensures b[from..] == PrintVector(v, PrintVector(w, b[from + n + |v| + k + |w|..]))
  {
    hide Compact, PrintVector;
    var at := from + n + |v|;
    VectorExactly(b, from, n, v, b[at..]);
    VectorExactly(b, at, k, w, b[at + k + |w|..]);
  }

  lemma IxPrinted(ix: CompiledIx, rest: Bytes) returns (n: nat, k: nat)
    requires ShortIx(ix)
    ensures IxLaid(PrintIx(ix, rest), n, k, ix)
    ensures PrintIx(ix, rest)[1 + n + |ix.accountIndexes| + k + |ix.data|..] == rest
  {
    hide VectorsLaid, PrintVector;
    n, k := VectorsPrinted(PrintIx(ix, rest), 1, ix.accountIndexes, ix.data, rest);
  }

  lemma IxFound(b: Bytes, n: nat, k: nat, ix: CompiledIx)
    requires IxLaid(b, n, k, ix)
    ensures 1 + n + |ix.accountIndexes| + k + |ix.data| <= |b|
    ensures ShortIx(ix) && b == PrintIx(ix, b[1 + n + |ix.accountIndexes| + k + |ix.data|..])
  {
    hide PrintVector;
    VectorsExactly(b, 1, n, ix.accountIndexes, k, ix.data);
    assert b == [b[0]] + b[1..];
  }

  lemma {:induction false} IxsExactly(b: Bytes, ixs: seq<CompiledIx>, rest: Bytes)
    ensures IxsLaid(b, ixs, rest) <==> (forall ix <- ixs :: ShortIx(ix)) && b == PrintIxs(ixs, rest)
    decreases |ixs|
  {
    hide IxLaid, PrintIx, ShortIx;
    if ixs != [] {
      var ix := ixs[0];
      assert ix in ixs && forall x :: x in ixs <==> x == ix || x in ixs[1..];
      if IxsLaid(b, ixs, rest) {
        var n, k := FirstIx(b, ixs, rest);
        IxFound(b, n, k, ix);
        IxsExactly(b[1 + n + |ix.accountIndexes| + k + |ix.data|..], ixs[1..], rest);
      }
      if (forall x <- ixs :: ShortIx(x)) && b == PrintIxs(ixs, rest) {
        var n, k := IxPrinted(ix, PrintIxs(ixs[1..], rest));
        IxsExactly(PrintIxs(ixs[1..], rest), ixs[1..], rest);
      }
    }
  }

  lemma FirstIx(b: Bytes, ixs: seq<CompiledIx>, rest: Bytes) returns (n: nat, k: nat)
    requires ixs != [] && IxsLaid(b, ixs, rest)
    ensures IxLaid(b, n, k, ixs[0])
    ensures 1 + n + |ixs[0].accountIndexes| + k + |ixs[0].data| <= |b|
    ensures IxsLaid(b[1 + n + |ixs[0].accountIndexes| + k + |ixs[0].data|..], ixs[1..], rest)
  {
    n, k :| IxLaid(b, n, k, ixs[0])
            && IxsLaid(b[1 + n + |ixs[0].accountIndexes| + k + |ixs[0].data|..], ixs[1..], rest);
  }

  lemma LookupPrinted(l: Lookup, rest: Bytes) returns (n: nat, k: nat)
    requires ShortLookup(l)
    ensures LookupLaid(PrintLookup(l, rest), n, k, l)
    ensures PrintLookup(l, rest)[32 + n + |l.writable| + k + |l.readonly|..] == rest
  {
    hide VectorsLaid, PrintVector;
    var b := PrintLookup(l, rest);
    assert b[..32] == l.table && b[32..] == PrintVector(l.writable, PrintVector(l.readonly, rest));
    n, k := VectorsPrinted(b, 32, l.writable, l.readonly, rest);
  }

  lemma LookupFound(b: Bytes, n: nat, k: nat, l: Lookup)
    requires LookupLaid(b, n, k, l)
    ensures 32 + n + |l.writable| + k + |l.readonly| <= |b|
    ensures ShortLookup(l) && b == PrintLookup(l, b[32 + n + |l.writable| + k + |l.readonly|..])
  {
    hide PrintVector;
    VectorsExactly(b, 32, n, l.writable, k, l.readonly);
    assert b == b[..32] + b[32..];
  }

  lemma {:induction false} LookupsExactly(b: Bytes, ls: seq<Lookup>)
    ensures LookupsLaid(b, ls) <==> (forall l <- ls :: ShortLookup(l)) && b == PrintLookups(ls, [])
    decreases |ls|
  {
    hide LookupLaid, PrintLookup, ShortLookup;
    if ls != [] {
      var l := ls[0];
      assert l in ls && forall x :: x in ls <==> x == l || x in ls[1..];
      if LookupsLaid(b, ls) {
        var n, k := FirstLookup(b, ls);
        LookupFound(b, n, k, l);
        LookupsExactly(b[32 + n + |l.writable| + k + |l.readonly|..], ls[1..]);
      }
      if (forall x <- ls :: ShortLookup(x)) && b == PrintLookups(ls, []) {
        var n, k := LookupPrinted(l, PrintLookups(ls[1..], []));
        LookupsExactly(PrintLookups(ls[1..], []), ls[1..]);
      }
    }
  }

  lemma FirstLookup(b: Bytes, ls: seq<Lookup>) returns (n: nat, k: nat)
    requires ls != [] && LookupsLaid(b, ls)
    ensures LookupLaid(b, n, k, ls[0])
    ensures 32 + n + |ls[0].writable| + k + |ls[0].readonly| <= |b|
    ensures LookupsLaid(b[32 + n + |ls[0].writable| + k + |ls[0].readonly|..], ls[1..])
  {
    n, k :| LookupLaid(b, n, k, ls[0])
            && LookupsLaid(b[32 + n + |ls[0].writable| + k + |ls[0].readonly|..], ls[1..]);
  }

  // ---------------------------------------------------------------------------------
  // Records of one width

  /** These records, each of this width, one after another and nothing else. */
  ghost predicate RecordsLaid(b: Bytes, width: nat, records: seq<Bytes>)
    decreases |records|
  {
    if records == [] then b == []
    else |b| >= width && b[..width] == records[0] && RecordsLaid(b[width..], width, records[1..])
  }

  lemma {:induction false} FlattenFront(x: Bytes, xs: seq<Bytes>)
    ensures Flatten([x] + xs) == x + Flatten(xs)
    decreases |xs|
  {
    var all := [x] + xs;
    if xs == [] {
      assert Flatten(all[..0]) == [] && all == [x];
    } else {
      FlattenFront(x, xs[..|xs| - 1]);
      assert all[..|all| - 1] == [x] + xs[..|xs| - 1] && all[|all| - 1] == xs[|xs| - 1];
    }
  }

  lemma {:induction false} RecordsExactly(b: Bytes, width: nat, records: seq<Bytes>)
    ensures RecordsLaid(b, width, records) <==> (forall r <- records :: |r| == width) && b == Flatten(records)
    decreases |records|
  {
    hide Flatten;
    if records == [] {
      NoRecords();
    } else {
      var first, others := records[0], records[1..];
      assert records == [first] + others && forall r :: r in records <==> r == first || r in others;
      FlattenFront(first, others);
      if RecordsLaid(b, width, records) {
        RecordsExactly(b[width..], width, others);
        assert b == first + b[width..];
      }
      if (forall r <- records :: |r| == width) && b == Flatten(records) {
        RecordsExactly(Flatten(others), width, others);
        assert b[..width] == first && b[width..] == Flatten(others);
      }
    }
  }

  lemma NoRecords()
    ensures Flatten([]) == []
  {
  }

  // ---------------------------------------------------------------------------------
  // Messages

  /** How many accounts the lookups load. */
  function Loads(ls: seq<Lookup>): nat {
    if ls == [] then 0 else |ls[0].writable| + |ls[0].readonly| + Loads(ls[1..])
  }

  /** The accounts by the three counts of the header: signers first, in each half the writable ones first. */
  ghost predicate AccountsTold(b: Bytes, accounts: seq<Account>) {
    && |b| >= 3 && 0 < b[0] && b[1] < b[0] && b[0] as int + b[2] as int <= |accounts|
    && (forall i :: 0 <= i < |accounts| ==>
          && accounts[i].index == i
          && (accounts[i].signer <==> i < b[0] as int)
          && (accounts[i].writable
              <==> i < b[0] as int - b[1] as int || b[0] as int <= i < |accounts| - b[2] as int))
    && (forall i, j :: 0 <= i < j < |accounts| ==> accounts[i].address != accounts[j].address)
  }

  /** Programs are static accounts other than the fee payer, and all indexes are below the 256 accounts at most. */
  ghost predicate Addressed(m: Message) {
    var total := |m.staticAccounts| + Loads(m.lookups);
    && total <= 256
    && forall i :: 0 <= i < |m.ixs| ==>
         && 0 < m.ixs[i].programIndex < |m.staticAccounts|
         && forall k :: 0 <= k < |m.ixs[i].accountIndexes| ==> m.ixs[i].accountIndexes[k] < total
  }

  ghost predicate SectionLaid(b: Bytes, j: nat, ls: seq<Lookup>) {
    j <= |b| && Compact(b[..j], |ls|) && LookupsLaid(b[j..], ls)
  }

  /** The addresses, counted in n bytes, and the recent blockhash. */
  ghost predicate KeysLaid(b: Bytes, n: nat, m: Message) {
    var keysEnd := 3 + n + 32 * |m.staticAccounts|;
    && |b| >= keysEnd + 32
    && AccountsTold(b, m.staticAccounts)
    && m.feePayer == m.staticAccounts[0].address
    && |m.requiredSigners| == b[0] as int
    && (forall i :: 0 <= i < |m.requiredSigners| ==> m.requiredSigners[i] == m.staticAccounts[i].address)
    && Compact(b[3..3 + n], |m.staticAccounts|)
    && RecordsLaid(b[3 + n..keysEnd], 32, AddressesOf(m.staticAccounts))
    && m.recentBlockhash == b[keysEnd..keysEnd + 32]
  }

  /** The body: keys, then the instructions, counted in k bytes and ending at `at`, then the lookups of version 0. */
  ghost predicate BodyLaid(b: Bytes, n: nat, k: nat, at: nat, m: Message) {
    PartsLaid(b, n, k, at, m) && Addressed(m)
  }

  ghost predicate PartsLaid(b: Bytes, n: nat, k: nat, at: nat, m: Message) {
    var ixsFrom := 3 + n + 32 * |m.staticAccounts| + 32;
    && ixsFrom + k <= at <= |b|
    && KeysLaid(b, n, m)
    && Compact(b[ixsFrom..ixsFrom + k], |m.ixs|)
    && IxsLaid(b[ixsFrom + k..], m.ixs, b[at..])
    && (if m.version.Legacy? then at == |b| && m.lookups == []
        else exists j: nat :: SectionLaid(b[at..], j, m.lookups))
  }

  /** A message of version 0 begins with the byte 128, a legacy message with a signer count below it. */
  ghost predicate MessageLaid(b: Bytes, m: Message) {
    && b != []
    && if m.version.Legacy? then b[0] < 128 && exists n: nat, k: nat, at: nat :: BodyLaid(b, n, k, at, m)
       else b[0] == 128 && exists n: nat, k: nat, at: nat :: BodyLaid(b[1..], n, k, at, m)
  }

  lemma {:induction false} LoadsExactly(ls: seq<Lookup>)
    ensures DynamicKeys(ls) == Loads(ls)
    decreases |ls|
  {
    if ls != [] {
      var init, last := ls[..|ls| - 1], ls[|ls| - 1];
      LoadsExactly(init);
      LoadsJoin(init, last);
      assert ls == init + [last];
    }
  }

  lemma {:induction false} LoadsJoin(ls: seq<Lookup>, l: Lookup)
    ensures Loads(ls + [l]) == Loads(ls) + |l.writable| + |l.readonly|
    decreases |ls|
  {
    if ls == [] {
      assert ls + [l] == [l] && Loads([l][1..]) == 0;
    } else {
      assert (ls + [l])[1..] == ls[1..] + [l];
      LoadsJoin(ls[1..], l);
    }
  }

  ghost predicate Indexed(m: Message) {
    var total := |m.staticAccounts| + DynamicKeys(m.lookups);
    total <= 256 && forall ix <- m.ixs :: IxIndexes(ix, |m.staticAccounts|, total)
  }

  lemma AddressedExactly(m: Message)
    ensures Addressed(m) <==> Indexed(m)
  {
    LoadsExactly(m.lookups);
    if Addressed(m) {
      forall ix | ix in m.ixs
        ensures IxIndexes(ix, |m.staticAccounts|, |m.staticAccounts| + DynamicKeys(m.lookups))
      {
        var i :| 0 <= i < |m.ixs| && m.ixs[i] == ix;
        forall a | a in ix.accountIndexes
          ensures a < |m.staticAccounts| + DynamicKeys(m.lookups)
        {
          var k :| 0 <= k < |ix.accountIndexes| && ix.accountIndexes[k] == a;
        }
      }
    }
    if Indexed(m) {
      forall i | 0 <= i < |m.ixs|
        ensures 0 < m.ixs[i].programIndex < |m.staticAccounts|
        ensures forall k :: 0 <= k < |m.ixs[i].accountIndexes| ==>
                  m.ixs[i].accountIndexes[k] < |m.staticAccounts| + Loads(m.lookups)
      {
        var ix := m.ixs[i];
        assert ix in m.ixs;
        assert forall k :: 0 <= k < |ix.accountIndexes| ==> ix.accountIndexes[k] in ix.accountIndexes;
      }
    }
  }

  /** Accounts told by a header are those derived from its counts. */
  lemma AccountsExactly(b: Bytes, accounts: seq<Account>)
    requires |b| >= 3
    ensures var h := Header(b[0], b[1], b[2]);
            AccountsTold(b, accounts)
            <==>
            && HeaderFits(h, |accounts|) && NoDup(AddressesOf(accounts))
            && accounts == AccountsOf(AddressesOf(accounts), h)
  {
    var h, keys := Header(b[0], b[1], b[2]), AddressesOf(accounts);
    if AccountsTold(b, accounts) {
      var derived := AccountsOf(keys, h);
      forall i | 0 <= i < |accounts|
        ensures accounts[i] == derived[i]
      {
      }
    }
    if HeaderFits(h, |accounts|) && NoDup(keys) && accounts == AccountsOf(keys, h) {
      forall i, j | 0 <= i < j < |accounts|
        ensures accounts[i].address != accounts[j].address
      {
        assert keys[i] != keys[j];
      }
    }
  }

  /** What a well-formed message says of its keys. */
  ghost predicate KeysFit(h: Header, m: Message) {
    && HeaderFits(h, |m.staticAccounts|) && h.required <= 255 && h.readonlyUnsigned <= 255
    && m.staticAccounts == AccountsOf(AddressesOf(m.staticAccounts), h)
    && NoDup(AddressesOf(m.staticAccounts))
    && (forall a <- AddressesOf(m.staticAccounts) :: |a| == 32)
    && |m.staticAccounts| < 65_536
    && m.feePayer == m.staticAccounts[0].address
    && m.requiredSigners == AddressesOf(m.staticAccounts)[..h.required]
    && |m.recentBlockhash| == 32
  }

  lemma KeysFound(b: Bytes, n: nat, m: Message)
    requires KeysLaid(b, n, m)
    ensures KeysFit(Header(b[0], b[1], b[2]), m)
    ensures b == PrintKeys(Header(b[0], b[1], b[2]), AddressesOf(m.staticAccounts),
                           m.recentBlockhash + b[3 + n + 32 * |m.staticAccounts| + 32..])
  {
    hide RecordsLaid, Compact, EncodeShort, Flatten, AccountsTold, AccountsOf;
    var keys, keysEnd := AddressesOf(m.staticAccounts), 3 + n + 32 * |m.staticAccounts|;
    HeaderTold(b, m.staticAccounts);
    AccountsExactly(b, m.staticAccounts);
    CompactExactly(b[3..3 + n], |keys|);
    RecordsExactly(b[3 + n..keysEnd], 32, keys);
    assert m.requiredSigners == keys[..b[0]];
    var (heads, blockhash) := ([b[0], b[1], b[2]], b[keysEnd..keysEnd + 32]);
    assert b == heads + (b[3..3 + n] + (b[3 + n..keysEnd] + (blockhash + b[keysEnd + 32..])));
  }

  lemma HeaderTold(b: Bytes, accounts: seq<Account>)
    requires AccountsTold(b, accounts)
    ensures |b| >= 3 && 0 < b[0] && b[0] as int <= |accounts|
  {
  }

  lemma KeysPrinted(h: Header, m: Message, rest: Bytes) returns (n: nat)
    requires KeysFit(h, m)
    ensures h.readonlySigned < 256 && h.readonlyUnsigned < 256
    ensures var b := PrintKeys(h, AddressesOf(m.staticAccounts), m.recentBlockhash + rest);
            && KeysLaid(b, n, m)
            && 3 + n + 32 * |m.staticAccounts| + 32 <= |b| && b[3 + n + 32 * |m.staticAccounts| + 32..] == rest
            && b[0] == h.required && b[1] == h.readonlySigned && b[2] == h.readonlyUnsigned
  {
    hide RecordsLaid, Compact, EncodeShort, Flatten, AccountsTold, AccountsOf;
    var keys := AddressesOf(m.staticAccounts);
    n := |EncodeShort(|keys|)|;
    var b := PrintKeys(h, keys, m.recentBlockhash + rest);
    CompactExactly(EncodeShort(|keys|), |keys|);
    RecordsExactly(Flatten(keys), 32, keys);
    FlattenLength(keys, 32);
    AccountsExactly(b, m.staticAccounts);
    var header := [h.required, h.readonlySigned, h.readonlyUnsigned];
    FourPieces(b, header, EncodeShort(|keys|), Flatten(keys), m.recentBlockhash, rest);
  }

  lemma FourPieces(b: Bytes, header: Bytes, size: Bytes, keys: Bytes, blockhash: Bytes, rest: Bytes)
    requires b == header + (size + (keys + (blockhash + rest))) && |header| == 3
    ensures var (x, y, z) := (3 + |size|, 3 + |size| + |keys|, 3 + |size| + |keys| + |blockhash|);
            && |b| >= z && b[..3] == header
            && b[3..x] == size && b[x..y] == keys && b[y..z] == blockhash && b[z..] == rest
  {
    var (x, y, z) := (3 + |size|, 3 + |size| + |keys|, 3 + |size| + |keys| + |blockhash|);
    assert b[3..] == size + (keys + (blockhash + rest));
    assert b[x..] == b[3..][|size|..] == keys + (blockhash + rest);
    assert b[y..] == b[x..][|keys|..] == blockhash + rest;
    assert b[z..] == b[y..][|blockhash|..] == rest;
  }

  /** A structured message by its keys, its instructions and its lookups. */
  lemma StructuredParts(m: Message)
    ensures Structured(m) ==> KeysFit(HeaderOf(m.staticAccounts), m)
    ensures (exists h :: KeysFit(h, m)) ==>
              (Structured(m)
               <==>
               && |m.ixs| < 65_536 && (forall ix <- m.ixs :: ShortIx(ix)) && Indexed(m)
               && (m.version.Legacy? ==> m.lookups == [])
               && |m.lookups| < 65_536 && forall l <- m.lookups :: ShortLookup(l))
    ensures forall h :: KeysFit(h, m) ==> HeaderOf(m.staticAccounts) == h
  {
    hide ShortIx, ShortLookup, IxIndexes;
    forall h | KeysFit(h, m)
      ensures HeaderOf(m.staticAccounts) == h && RolesOrdered(m.staticAccounts)
      ensures |m.staticAccounts| > 0 && m.staticAccounts[0].signer && m.staticAccounts[0].writable
      ensures forall i :: 0 <= i < |m.staticAccounts| ==>
                m.staticAccounts[i].index == i && |m.staticAccounts[i].address| == 32
    {
      FitRoles(h, m);
    }
    if Structured(m) {
      HeaderRecoversRoles(m.staticAccounts);
    }
  }

  lemma FitRoles(h: Header, m: Message)
    requires KeysFit(h, m)
    ensures HeaderOf(m.staticAccounts) == h && RolesOrdered(m.staticAccounts)
    ensures |m.staticAccounts| > 0 && m.staticAccounts[0].signer && m.staticAccounts[0].writable
    ensures forall i :: 0 <= i < |m.staticAccounts| ==>
              m.staticAccounts[i].index == i && |m.staticAccounts[i].address| == 32
  {
    hide RolesOrdered, HeaderOf;
    var keys := AddressesOf(m.staticAccounts);
    RolesRecoverHeader(keys, h);
    forall i | 0 <= i < |m.staticAccounts|
      ensures m.staticAccounts[i].index == i && |m.staticAccounts[i].address| == 32
    {
      assert keys[i] in keys && AccountsOf(keys, h)[i].index == i;
    }
  }

  lemma SectionExactly(version: Version, b: Bytes, ls: seq<Lookup>)
    ensures (if version.Legacy? then b == [] && ls == [] else exists j: nat :: SectionLaid(b, j, ls))
            <==>
            && |ls| < 65_536 && (forall l <- ls :: ShortLookup(l)) && (version.Legacy? ==> ls == [])
            && b == PrintLookupSection(version, ls)
  {
    hide Compact, EncodeShort, LookupsLaid, PrintLookups, ShortLookup;
    if version.V0? {
      if exists j: nat :: SectionLaid(b, j, ls) {
        var j: nat :| SectionLaid(b, j, ls);
        CompactExactly(b[..j], |ls|);
        LookupsExactly(b[j..], ls);
        assert b == b[..j] + b[j..];
      }
      if |ls| < 65_536 && (forall l <- ls :: ShortLookup(l)) && b == PrintLookupSection(version, ls) {
        var head := EncodeShort(|ls|);
        CompactExactly(head, |ls|);
        assert b[..|head|] == head && b[|head|..] == PrintLookups(ls, []);
        LookupsExactly(b[|head|..], ls);
        assert SectionLaid(b, |head|, ls);
      }
    }
  }

  lemma BodyFound(b: Bytes, n: nat, k: nat, at: nat, m: Message)
    requires BodyLaid(b, n, k, at, m)
    ensures Structured(m) && b == PrintBody(m) && b != [] && |m.requiredSigners| == b[0] as int
  {
    hide KeysLaid, Compact, EncodeShort, IxsLaid, SectionLaid, Addressed, Indexed, PrintKeys, PrintIxs,
         PrintLookupSection, Structured, KeysFit, ShortIx, ShortLookup;
    var ixsFrom := 3 + n + 32 * |m.staticAccounts| + 32;
    AddressedExactly(m);
    KeysFound(b, n, m);
    StructuredParts(m);
    CompactExactly(b[ixsFrom..ixsFrom + k], |m.ixs|);
    IxsExactly(b[ixsFrom + k..], m.ixs, b[at..]);
    assert m.version.Legacy? ==> b[at..] == [];
    SectionExactly(m.version, b[at..], m.lookups);
    SignersTold(b, n, m);
    assert b[ixsFrom..] == b[ixsFrom..ixsFrom + k] + b[ixsFrom + k..];
    SmallHeader(b);
  }

  lemma SignersTold(b: Bytes, n: nat, m: Message)
    requires KeysLaid(b, n, m)
    ensures |b| > 0 && |m.requiredSigners| == b[0] as int
  {
  }

  lemma SmallHeader(b: Bytes)
    requires |b| >= 3
    ensures var h := Header(b[0], b[1], b[2]); h.required < 256 && h.readonlySigned < 256 && h.readonlyUnsigned < 256
  {
  }

  lemma BodyPrinted(m: Message) returns (n: nat, k: nat, at: nat)
    requires Structured(m)
    ensures BodyLaid(PrintBody(m), n, k, at, m)
  {
    hide KeysLaid, Compact, EncodeShort, IxsLaid, SectionLaid, Addressed, Indexed, PrintKeys, PrintIxs,
         PrintLookupSection, KeysFit, ShortIx, ShortLookup, HeaderOf, AddressesOf, IxIndexes, RolesOrdered;
    StructuredParts(m);
    AddressedExactly(m);
    var section := PrintLookupSection(m.version, m.lookups);
    var ixs := PrintIxs(m.ixs, section);
    var rest := EncodeShort(|m.ixs|) + ixs;
    var b := PrintBody(m);
    WellFormedHeader(m);
    n := KeysPrinted(HeaderOf(m.staticAccounts), m, rest);
    var ixsFrom := 3 + n + 32 * |m.staticAccounts| + 32;
    k := |EncodeShort(|m.ixs|)|;
    CompactExactly(EncodeShort(|m.ixs|), |m.ixs|);
    IxsExactly(ixs, m.ixs, section);
    SectionExactly(m.version, section, m.lookups);
    IxsEnd(ixs, m.ixs, section);
    at := |b| - |section|;
    assert b[ixsFrom..] == rest && |b| == ixsFrom + k + |ixs|;
    assert b[ixsFrom..ixsFrom + k] == rest[..k] == EncodeShort(|m.ixs|);
    assert b[ixsFrom + k..] == rest[k..] == ixs;
    assert b[at..] == ixs[|ixs| - |section|..];
  }

  lemma {:induction false} IxsEnd(b: Bytes, ixs: seq<CompiledIx>, rest: Bytes)
    requires IxsLaid(b, ixs, rest)
    ensures |rest| <= |b| && rest == b[|b| - |rest|..]
    decreases |ixs|
  {
    hide IxLaid, IxsLaid;
    if ixs == [] {
      NoIxs(b, rest);
    } else {
      var n, k := FirstIx(b, ixs, rest);
      IxsEnd(b[1 + n + |ixs[0].accountIndexes| + k + |ixs[0].data|..], ixs[1..], rest);
    }
  }

  lemma NoIxs(b: Bytes, rest: Bytes)
    requires IxsLaid(b, [], rest)
    ensures b == rest
  {
  }

  /** A message is accepted exactly if the bytes are laid out as it. */
  lemma MessageExactly(b: Bytes, m: Message)
    ensures ParseMessage(b) == Ok(m) <==> MessageLaid(b, m)
  {
    hide ParseMessage, PrintBody, BodyLaid, WellFormedMessage, Structured;
    if ParseMessage(b) == Ok(m) {
      MessageCanonical(b);
      WellFormedStructured(m);
      var n, k, at := BodyPrinted(m);
      BodyFound(PrintBody(m), n, k, at, m);
      assert b[if m.version.Legacy? then 0 else 1..] == PrintBody(m);
      assert MessageLaid(b, m);
    }
    if MessageLaid(b, m) {
      var body := if m.version.Legacy? then b else b[1..];
      var n: nat, k: nat, at: nat :| BodyLaid(body, n, k, at, m);
      BodyFound(body, n, k, at, m);
      WellFormedStructured(m);
      assert m.version.V0? ==> b == [128] + b[1..];
      assert b == PrintMessage(m);
      MessageRoundTrip(m);
    }
  }

  lemma WellFormedStructured(m: Message)
    ensures WellFormedMessage(m) <==> Structured(m) && (m.version.Legacy? ==> |m.requiredSigners| < 128)
  {
  }

  /** A signature count in n bytes, as many signatures of 64 bytes, and a message that asks for as many. */
  ghost predicate TransactionLaid(b: Bytes, n: nat, tx: Transaction) {
    var at := n + 64 * |tx.signatures|;
    && at <= |b|
    && |tx.signatures| > 0 && |tx.message.requiredSigners| == |tx.signatures|
    && Compact(b[..n], |tx.signatures|)
    && RecordsLaid(b[n..at], 64, tx.signatures)
    && MessageLaid(b[at..], tx.message)
  }

  /**
   * Bytes are accepted as a transaction exactly if they fit the limit and are laid out as it: the
   * signatures, the header, the addresses with the roles it gives them, the blockhash, the
   * instructions and the lookups, each where the format puts it and nothing after them.
   */
  lemma TransactionExactly(b: Bytes, maxBytes: nat, tx: Transaction)
    ensures ParseTransaction(b, maxBytes) == Ok(tx) <==> |b| <= maxBytes && exists n: nat :: TransactionLaid(b, n, tx)
  {
    hide ParseTransaction, PrintTransaction, WellFormed, TransactionLaid;
    if ParseTransaction(b, maxBytes) == Ok(tx) {
      PrintInvertsParse(b, maxBytes);
      TransactionPrinted(tx);
    }
    if |b| <= maxBytes && exists n: nat :: TransactionLaid(b, n, tx) {
      var n: nat :| TransactionLaid(b, n, tx);
      TransactionFound(b, n, tx);
      ParseInvertsPrint(tx, maxBytes);
    }
  }

  lemma TransactionPrinted(tx: Transaction)
    requires WellFormed(tx)
    ensures exists n: nat :: TransactionLaid(PrintTransaction(tx), n, tx)
  {
    hide PrintMessage, WellFormedMessage, MessageLaid, RecordsLaid, Compact, EncodeShort, Flatten, ParseMessage;
    SomeSigners(tx.message);
    WellFormedStructured(tx.message);
    MessageRoundTrip(tx.message);
    var head, signatures, message := EncodeShort(|tx.signatures|), Flatten(tx.signatures), PrintMessage(tx.message);
    CompactExactly(head, |tx.signatures|);
    RecordsExactly(signatures, 64, tx.signatures);
    FlattenLength(tx.signatures, 64);
    MessageExactly(message, tx.message);
    var b, n, at := PrintTransaction(tx), |head|, |head| + 64 * |tx.signatures|;
    assert b == head + (signatures + message);
    assert b[..n] == head && b[n..at] == signatures && b[at..] == message;
    assert TransactionLaid(b, n, tx);
  }

  lemma TransactionFound(b: Bytes, n: nat, tx: Transaction)
    requires TransactionLaid(b, n, tx)
    ensures WellFormed(tx) && PrintTransaction(tx) == b
  {
    hide PrintMessage, WellFormedMessage, MessageLaid, RecordsLaid, Compact, EncodeShort, Flatten, ParseMessage;
    var at := n + 64 * |tx.signatures|;
    CompactExactly(b[..n], |tx.signatures|);
    RecordsExactly(b[n..at], 64, tx.signatures);
    MessageExactly(b[at..], tx.message);
    MessageCanonical(b[at..]);
    assert b == b[..n] + (b[n..at] + b[at..]);
  }

  lemma SomeSigners(m: Message)
    requires WellFormedMessage(m)
    ensures 0 < |m.requiredSigners| < 65_536
  {
    WellFormedHeader(m);
  }

  // ---------------------------------------------------------------------------------
  // What is reported of bytes that are refused

  /** A size that stops short, has a third byte of 4 or more, or ends in a zero byte. */
  lemma SizeRefused(b: Bytes)
    ensures ParseShort(b) == Err(Truncated) <==> |b| < 3 && forall i :: 0 <= i < |b| ==> b[i] >= 128
    ensures ParseShort(b) == Err(ExceedsU16) <==> |b| >= 3 && b[0] >= 128 && b[1] >= 128 && b[2] >= 4
    ensures ParseShort(b) == Err(NotCanonical)
            <==> |b| >= 2 && b[0] >= 128 && (b[1] == 0 || (|b| >= 3 && b[1] >= 128 && b[2] == 0))
    ensures ParseShort(b).Err? ==> ParseShort(b).error in {Truncated, ExceedsU16, NotCanonical}
  {
  }

  /** A vector is cut exactly if its size is, or says more than there is. */
  lemma VectorRefused(b: Bytes)
    ensures ParseVector(b) == Err(Truncated)
            <==>
            || ParseShort(b) == Err(Truncated)
            || exists n: nat, size: nat :: n <= |b| && Compact(b[..n], size) && n + size > |b|
    ensures ParseVector(b).Err? && ParseVector(b) != Err(Truncated) ==> ParseVector(b).error == ParseShort(b).error
  {
    hide Compact, EncodeShort;
    if ParseShort(b).Ok? {
      ShortCanonical(b);
      var (size, rest) := (ParseShort(b).value.value, ParseShort(b).value.rest);
      var head := EncodeShort(size);
      CompactExactly(head, size);
      assert b[..|head|] == head && b[|head|..] == rest;
    }
    if n: nat, size: nat :| n <= |b| && Compact(b[..n], size) && n + size > |b| {
      CompactExactly(b[..n], size);
      assert b == EncodeShort(size) + b[n..];
      ShortRoundTrip(size, b[n..]);
    }
  }

  /** A lookup is empty exactly if both its sizes are the byte zero. */
  lemma LookupRefused(b: Bytes)
    ensures ParseLookup(b) == Err(EmptyLookup) <==> |b| >= 34 && b[32] == 0 && b[33] == 0
  {
    if |b| >= 32 {
      VectorFaults(b[32..]);
      if ParseVector(b[32..]).Ok? { VectorFaults(ParseVector(b[32..]).value.rest); }
    }
  }

  lemma VectorFaults(b: Bytes)
    ensures ParseVector(b) != Err(EmptyLookup)
    ensures ParseVector(b).Ok? && ParseVector(b).value.value == [] <==> b != [] && b[0] == 0
    ensures b != [] && b[0] == 0 ==> ParseVector(b) == Ok(Parsed([], b[1..]))
  {
  }

  /** The index check reports the first instruction at fault, and its program before its accounts. */
  lemma {:induction false} IndexesRefused(ixs: seq<CompiledIx>, staticKeys: nat, totalKeys: nat)
    ensures var r := CheckIxs(ixs, staticKeys, totalKeys);
            r.Err? ==>
              exists i ::
                && 0 <= i < |ixs| && FirstFault(ixs, i, staticKeys, totalKeys)
                && r.error == (if 0 < ixs[i].programIndex < staticKeys then BadAccountIndex else BadProgramIndex)
    decreases |ixs|
  {
    if ixs != [] && CheckIxs(ixs, staticKeys, totalKeys).Err? {
      assert ixs == [ixs[0]] + ixs[1..];
      if Sound(ixs[0], staticKeys, totalKeys) {
        SoundPasses(ixs, staticKeys, totalKeys);
        IndexesRefused(ixs[1..], staticKeys, totalKeys);
        var i :| 0 <= i < |ixs| - 1 && FirstFault(ixs[1..], i, staticKeys, totalKeys)
                 && CheckIxs(ixs[1..], staticKeys, totalKeys).error ==
                    (if 0 < ixs[1..][i].programIndex < staticKeys then BadAccountIndex else BadProgramIndex);
        assert FirstFault(ixs, i + 1, staticKeys, totalKeys);
      } else {
        FaultStops(ixs, staticKeys, totalKeys);
        assert FirstFault(ixs, 0, staticKeys, totalKeys);
      }
    }
  }

  ghost predicate Sound(ix: CompiledIx, staticKeys: nat, totalKeys: nat) {
    && 0 < ix.programIndex < staticKeys
    && forall k :: 0 <= k < |ix.accountIndexes| ==> ix.accountIndexes[k] < totalKeys
  }

  ghost predicate FirstFault(ixs: seq<CompiledIx>, i: nat, staticKeys: nat, totalKeys: nat)
    requires i < |ixs|
  {
    !Sound(ixs[i], staticKeys, totalKeys) && forall j :: 0 <= j < i ==> Sound(ixs[j], staticKeys, totalKeys)
  }

  lemma SoundPasses(ixs: seq<CompiledIx>, staticKeys: nat, totalKeys: nat)
    requires ixs != [] && Sound(ixs[0], staticKeys, totalKeys)
    ensures CheckIxs(ixs, staticKeys, totalKeys) == CheckIxs(ixs[1..], staticKeys, totalKeys)
  {
  }

  lemma FaultStops(ixs: seq<CompiledIx>, staticKeys: nat, totalKeys: nat)
    requires ixs != [] && !Sound(ixs[0], staticKeys, totalKeys)
    ensures CheckIxs(ixs, staticKeys, totalKeys) ==
            Err(if 0 < ixs[0].programIndex < staticKeys then BadAccountIndex else BadProgramIndex)
  {
    if 0 < ixs[0].programIndex < staticKeys {
      var k :| 0 <= k < |ixs[0].accountIndexes| && ixs[0].accountIndexes[k] >= totalKeys;
      assert ixs[0].accountIndexes[k] in ixs[0].accountIndexes;
    }
  }

  // ---------------------------------------------------------------------------------
  // What is reported of a whole message or transaction that is refused

  lemma {:induction false} IxsAppend(ixs: seq<CompiledIx>, rest: Bytes, more: Bytes)
    requires forall ix <- ixs :: ShortIx(ix)
    ensures PrintIxs(ixs, rest) + more == PrintIxs(ixs, rest + more)
  {
    hide PrintVector;
    if ixs != [] {
      var (ix, others) := (ixs[0], PrintIxs(ixs[1..], rest));
      assert ix in ixs && forall x :: x in ixs[1..] ==> x in ixs;
      IxsAppend(ixs[1..], rest, more);
      VectorAppend(ix.data, others, more);
      VectorAppend(ix.accountIndexes, PrintVector(ix.data, others), more);
      assert PrintIx(ix, others) + more == PrintIx(ix, others + more);
    }
  }

  lemma VectorAppend(v: Bytes, rest: Bytes, more: Bytes)
    requires |v| < 65_536
    ensures PrintVector(v, rest) + more == PrintVector(v, rest + more)
  {
    hide EncodeShort;
  }

  lemma {:induction false} LookupsAppend(ls: seq<Lookup>, rest: Bytes, more: Bytes)
    requires forall l <- ls :: ShortLookup(l)
    ensures PrintLookups(ls, rest) + more == PrintLookups(ls, rest + more)
  {
    hide PrintVector;
    if ls != [] {
      var (l, others) := (ls[0], PrintLookups(ls[1..], rest));
      assert l in ls && forall x :: x in ls[1..] ==> x in ls;
      LookupsAppend(ls[1..], rest, more);
      VectorAppend(l.readonly, others, more);
      VectorAppend(l.writable, PrintVector(l.readonly, others), more);
      assert PrintLookup(l, others) + more == PrintLookup(l, others + more);
    }
  }

  lemma SectionReported(m: Message, b: Bytes, more: Bytes)
    requires if m.version.Legacy? then b == [] && m.lookups == [] else exists j: nat :: SectionLaid(b, j, m.lookups)
    ensures ParseLookupSection(m.version, b + more) == Ok(Parsed(m.lookups, more))
  {
    hide Compact, EncodeShort, LookupsLaid, PrintLookups, ShortLookup, ParseShort, ParseLookups;
    SectionExactly(m.version, b, m.lookups);
    if m.version.V0? {
      LookupsAppend(m.lookups, [], more);
      assert [] + more == more;
      ShortRoundTrip(|m.lookups|, PrintLookups(m.lookups, more));
      LookupsRoundTrip(m.lookups, more);
      assert b + more == EncodeShort(|m.lookups|) + PrintLookups(m.lookups, more);
    } else {
      assert b + more == more;
    }
  }

  /**
   * A body whose parts are all in place is refused for bytes after them, then for more than 256
   * accounts, then for the first index at fault, and otherwise accepted.
   */
  lemma BodyReported(b: Bytes, n: nat, k: nat, at: nat, m: Message, more: Bytes)
    requires PartsLaid(b, n, k, at, m)
    ensures var total := |m.staticAccounts| + Loads(m.lookups);
            ParseBody(m.version, b + more) ==
            if more != [] then Err(TrailingBytes)
            else if total > 256 then Err(TooManyKeys)
            else if CheckIxs(m.ixs, |m.staticAccounts|, total).Err? then
              Err(CheckIxs(m.ixs, |m.staticAccounts|, total).error)
            else Ok(m)
  {
    hide KeysLaid, Compact, EncodeShort, IxsLaid, SectionLaid, PrintKeys, PrintIxs, ShortIx, ShortLookup, CheckIxs,
         AccountsOf, ParseShort, ParseKeys, ParseIxs, ParseLookupSection;
    var h, keys := Header(b[0], b[1], b[2]), AddressesOf(m.staticAccounts);
    var ixsFrom := 3 + n + 32 * |m.staticAccounts| + 32;
    var section := b[at..];
    KeysFound(b, n, m);
    CompactExactly(b[ixsFrom..ixsFrom + k], |m.ixs|);
    IxsExactly(b[ixsFrom + k..], m.ixs, section);
    IxsAppend(m.ixs, section, more);
    assert m.version.Legacy? ==> section == [];
    SectionReported(m, section, more);
    LoadsExactly(m.lookups);
    var ixs := PrintIxs(m.ixs, section + more);
    var rest := EncodeShort(|m.ixs|) + ixs;
    assert b[ixsFrom..] + more == rest by {
      assert b[ixsFrom..] == b[ixsFrom..ixsFrom + k] + b[ixsFrom + k..];
    }
    KeysAppend(h, keys, m.recentBlockhash + b[ixsFrom..], more);
    assert m.recentBlockhash + b[ixsFrom..] + more == m.recentBlockhash + rest;
    KeysRoundTrip(h, keys, m.recentBlockhash + rest);
    assert (m.recentBlockhash + rest)[..32] == m.recentBlockhash && (m.recentBlockhash + rest)[32..] == rest;
    ShortRoundTrip(|m.ixs|, ixs);
    IxsRoundTrip(m.ixs, section + more);
  }

  lemma KeysAppend(h: Header, keys: seq<Bytes>, rest: Bytes, more: Bytes)
    requires h.required < 256 && h.readonlySigned < 256 && h.readonlyUnsigned < 256 && |keys| < 65_536
    ensures PrintKeys(h, keys, rest) + more == PrintKeys(h, keys, rest + more)
  {
    hide EncodeShort, Flatten;
  }

  /** Why the keys of a body are refused. */
  lemma KeysReported(b: Bytes, n: nat, size: nat)
    ensures |b| < 3 ==> ParseKeys(b) == Err(Truncated)
    ensures |b| >= 3 && ParseShort(b[3..]).Err? ==> ParseKeys(b) == Err(ParseShort(b[3..]).error)
    ensures 3 + n <= |b| && Compact(b[3..3 + n], size) ==>
              var fits := 0 < b[0] && b[1] < b[0] && b[0] as int + b[2] as int <= size;
              && (!fits ==> ParseKeys(b) == Err(InvalidHeader))
              && (fits && 3 + n + 32 * size > |b| ==> ParseKeys(b) == Err(Truncated))
              && forall keys | fits && |keys| == size && 3 + n + 32 * size <= |b|
                               && RecordsLaid(b[3 + n..3 + n + 32 * size], 32, keys) ::
                   (exists i, j :: 0 <= i < j < size && keys[i] == keys[j]) ==> ParseKeys(b) == Err(DuplicateKeys)
  {
    hide Compact, EncodeShort, RecordsLaid, ParseShort, Chunks, Flatten;
    if 3 + n <= |b| && Compact(b[3..3 + n], size) {
      CompactExactly(b[3..3 + n], size);
      assert b[3..] == EncodeShort(size) + b[3 + n..];
      ShortRoundTrip(size, b[3 + n..]);
      forall keys | |keys| == size && 3 + n + 32 * size <= |b| && RecordsLaid(b[3 + n..3 + n + 32 * size], 32, keys)
        ensures Chunks(size, 32, b[3 + n..][..32 * size]) == keys
      {
        RecordsExactly(b[3 + n..3 + n + 32 * size], 32, keys);
        FlattenChunks(keys, 32);
        assert b[3 + n..][..32 * size] == b[3 + n..3 + n + 32 * size];
      }
    }
  }

  /** Why a message is refused before its body is read. */
  lemma MessageReported(b: Bytes)
    ensures b == [] ==> ParseMessage(b) == Err(MissingMessage)
    ensures b != [] && b[0] > 128 ==> ParseMessage(b) == Err(UnsupportedVersion)
    ensures b != [] && b[0] <= 128 ==>
              ParseMessage(b) == if b[0] == 128 then ParseBody(V0, b[1..]) else ParseBody(Legacy, b)
  {
  }

  /** Why a transaction is refused, around its message. */
  lemma TransactionReported(b: Bytes, maxBytes: nat, n: nat, count: nat)
    ensures b == [] || |b| > maxBytes ==> ParseTransaction(b, maxBytes) == Err(BadSize)
    ensures 0 < |b| <= maxBytes && b[0] == 0 ==> ParseTransaction(b, maxBytes) == Err(NoSignatures)
    ensures 0 < |b| <= maxBytes && n <= |b| && Compact(b[..n], count) && count > 0 ==>
              var at := n + 64 * count;
              && (at > |b| ==> ParseTransaction(b, maxBytes) == Err(Truncated))
              && (at <= |b| && ParseMessage(b[at..]).Err? ==>
                    ParseTransaction(b, maxBytes) == Err(ParseMessage(b[at..]).error))
  {
    hide ParseMessage, EncodeShort, Compact, Chunks;
    if n <= |b| && Compact(b[..n], count) {
      CompactExactly(b[..n], count);
      assert b == EncodeShort(count) + b[n..];
      ShortRoundTrip(count, b[n..]);
      assert n + 64 * count <= |b| ==> b[n..][64 * count..] == b[n + 64 * count..];
    }
  }

  lemma SignersReported(b: Bytes, maxBytes: nat, n: nat, count: nat, m: Message)
    requires |b| <= maxBytes && n + 64 * count <= |b| && Compact(b[..n], count) && count > 0
    requires MessageLaid(b[n + 64 * count..], m) && |m.requiredSigners| != count
    ensures ParseTransaction(b, maxBytes) == Err(SignatureCount)
  {
    hide ParseMessage, EncodeShort, Compact, MessageLaid, Chunks;
    CompactExactly(b[..n], count);
    assert b == EncodeShort(count) + b[n..];
    ShortRoundTrip(count, b[n..]);
    MessageExactly(b[n + 64 * count..], m);
    assert b[n..][64 * count..] == b[n + 64 * count..];
  }
}
