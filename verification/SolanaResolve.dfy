/** Resolution of a parsed transaction against its address lookup tables. */
module SolanaResolve {
  import opened Common
  import opened ShortVec
  import opened SolanaTransaction

  /** A table entry that is not 32 bytes stands for text that is no valid address. */
  type Tables = map<Bytes, seq<Bytes>>

  datatype Resolved = Resolved(account: Account, lookup: Option<(Bytes, nat)>)

  datatype ResolvedIx = ResolvedIx(programId: Bytes, accounts: seq<Resolved>, data: Bytes)

  datatype ResolvedTransaction = ResolvedTransaction(accounts: seq<Resolved>, ixs: seq<ResolvedIx>)

  function LoadIndexes(table: Bytes, entries: seq<Bytes>, indexes: Bytes, writable: bool)
    : Result<seq<Resolved>, WireError>
  {
    if indexes == [] then Ok([])
    else if indexes[0] >= |entries| || |entries[indexes[0]]| != 32 then Err(BadTableEntry)
    else
      var others :- LoadIndexes(table, entries, indexes[1..], writable);
      Ok([Resolved(Account(0, entries[indexes[0]], false, writable), Some((table, indexes[0] as nat)))] + others)
  }

  function Load(ls: seq<Lookup>, tables: Tables, writable: bool): Result<seq<Resolved>, WireError> {
    if ls == [] then Ok([])
    else if ls[0].table !in tables then Err(UnresolvedTable)
    else
      var indexes := if writable then ls[0].writable else ls[0].readonly;
      var first :- LoadIndexes(ls[0].table, tables[ls[0].table], indexes, writable);
      var others :- Load(ls[1..], tables, writable);
      Ok(first + others)
  }

  function Renumber(accounts: seq<Resolved>): seq<Resolved> {
    seq(|accounts|, i requires 0 <= i < |accounts| =>
      accounts[i].(account := accounts[i].account.(index := i)))
  }

  function StaticResolved(accounts: seq<Account>): seq<Resolved> {
    seq(|accounts|, i requires 0 <= i < |accounts| => Resolved(accounts[i], None))
  }

  function ResolvedAddresses(accounts: seq<Resolved>): seq<Bytes> {
    seq(|accounts|, i requires 0 <= i < |accounts| => accounts[i].account.address)
  }

  function IndexAt(indexes: Bytes, k: nat): nat
    requires k < |indexes|
  {
    indexes[k]
  }

  function LoadedCount(ls: seq<Lookup>, writable: bool): nat {
    if ls == [] then 0
    else |if writable then ls[0].writable else ls[0].readonly| + LoadedCount(ls[1..], writable)
  }

  function Resolve(m: Message, tables: Tables): Result<ResolvedTransaction, WireError>
    requires WellFormedMessage(m)
  {
    var writable :- Load(m.lookups, tables, true);
    var readonly :- Load(m.lookups, tables, false);
    var accounts := Renumber(StaticResolved(m.staticAccounts) + writable + readonly);
    if !Distinct(ResolvedAddresses(accounts)) then Err(DuplicateAddresses)
    else
      AllIndexesInRange(m, tables, writable, readonly);
      Ok(ResolvedTransaction(accounts, seq(|m.ixs|, i requires 0 <= i < |m.ixs| =>
        (assert m.ixs[i] in m.ixs; ResolveIx(m.ixs[i], accounts)))))
  }

  function ResolveIx(ix: CompiledIx, accounts: seq<Resolved>): ResolvedIx
    requires ix.programIndex < |accounts| && forall a <- ix.accountIndexes :: a < |accounts|
  {
    ResolvedIx(accounts[ix.programIndex].account.address,
               seq(|ix.accountIndexes|, k requires 0 <= k < |ix.accountIndexes| =>
                 (assert ix.accountIndexes[k] in ix.accountIndexes; accounts[IndexAt(ix.accountIndexes, k)])),
               ix.data)
  }

  lemma {:induction false} LoadIndexesShape(table: Bytes, entries: seq<Bytes>, indexes: Bytes, writable: bool)
    requires LoadIndexes(table, entries, indexes, writable).Ok?
    ensures var loaded := LoadIndexes(table, entries, indexes, writable).value;
            && |loaded| == |indexes|
            && forall r <- loaded :: !r.account.signer && r.account.writable == writable
  {
    if indexes != [] {
      LoadIndexesShape(table, entries, indexes[1..], writable);
    }
  }

  lemma {:induction false} LoadShape(ls: seq<Lookup>, tables: Tables, writable: bool)
    requires Load(ls, tables, writable).Ok?
    ensures var loaded := Load(ls, tables, writable).value;
            && |loaded| == LoadedCount(ls, writable)
            && forall r <- loaded :: !r.account.signer && r.account.writable == writable
  {
    if ls != [] {
      LoadIndexesShape(ls[0].table, tables[ls[0].table], if writable then ls[0].writable else ls[0].readonly, writable);
      LoadShape(ls[1..], tables, writable);
    }
  }

  lemma {:induction false} LoadedCountAppend(ls: seq<Lookup>, l: Lookup, writable: bool)
    ensures LoadedCount(ls + [l], writable) == LoadedCount(ls, writable) + |if writable then l.writable else l.readonly|
  {
    if ls == [] {
      assert ls + [l] == [l];
    } else {
      assert (ls + [l])[1..] == ls[1..] + [l];
      LoadedCountAppend(ls[1..], l, writable);
    }
  }

  lemma {:induction false} DynamicIsLoaded(ls: seq<Lookup>)
    ensures DynamicKeys(ls) == LoadedCount(ls, true) + LoadedCount(ls, false)
  {
    if ls != [] {
      var init, last := ls[..|ls| - 1], ls[|ls| - 1];
      DynamicIsLoaded(init);
      assert ls == init + [last];
      LoadedCountAppend(init, last, true);
      LoadedCountAppend(init, last, false);
    }
  }

  /** The parser's range checks are exactly what makes every compiled index resolvable. */
  lemma AllIndexesInRange(m: Message, tables: Tables, writable: seq<Resolved>, readonly: seq<Resolved>)
    requires WellFormedMessage(m)
    requires Load(m.lookups, tables, true) == Ok(writable) && Load(m.lookups, tables, false) == Ok(readonly)
    ensures |m.staticAccounts| + |writable| + |readonly| == |m.staticAccounts| + DynamicKeys(m.lookups) <= 256
    ensures forall ix <- m.ixs :: IxIndexes(ix, |m.staticAccounts|, |m.staticAccounts| + |writable| + |readonly|)
  {
    LoadShape(m.lookups, tables, true);
    LoadShape(m.lookups, tables, false);
    DynamicIsLoaded(m.lookups);
  }

  /**
   * A resolved transaction has pairwise distinct addresses, its signers are exactly the
   * message's required signers, and every instruction runs a static program that is not the
   * fee payer. Every accepted message is well formed (SolanaRoundTrip.PrintInvertsParse).
   */
  lemma ResolvedRoles(m: Message, tables: Tables)
    requires WellFormedMessage(m) && Resolve(m, tables).Ok?
    ensures var r := Resolve(m, tables).value;
            && NoDup(ResolvedAddresses(r.accounts))
            && |m.requiredSigners| <= |r.accounts| <= 256
            && (forall i :: 0 <= i < |r.accounts| ==> (r.accounts[i].account.signer <==> i < |m.requiredSigners|))
            && (forall i :: |m.staticAccounts| <= i < |r.accounts| ==>
                  (r.accounts[i].account.writable <==> i < |m.staticAccounts| + LoadedCount(m.lookups, true)))
            && (forall i :: 0 <= i < |m.requiredSigners| ==> r.accounts[i].account.address == m.requiredSigners[i])
            && |r.ixs| == |m.ixs|
            && (forall i :: 0 <= i < |r.ixs| ==>
                  && r.ixs[i].programId != m.feePayer
                  && r.ixs[i].programId in AddressesOf(m.staticAccounts)
                  && |r.ixs[i].accounts| == |m.ixs[i].accountIndexes|
                  && r.ixs[i].data == m.ixs[i].data)
  {
    hide Load, WellFormedMessage, Renumber, StaticResolved, ResolveIx, ResolvedAddresses, AddressesOf, LoadedCount,
         IxIndexes;
    var writable, readonly := Load(m.lookups, tables, true).value, Load(m.lookups, tables, false).value;
    AllIndexesInRange(m, tables, writable, readonly);
    LoadShape(m.lookups, tables, true);
    LoadShape(m.lookups, tables, false);
    AccountRoles(m, writable, readonly);
    var accounts := Renumber(StaticResolved(m.staticAccounts) + writable + readonly);
    forall i | 0 <= i < |m.ixs|
      ensures InRange(m.ixs[i], accounts)
      ensures ResolveIx(m.ixs[i], accounts).programId != m.feePayer
      ensures ResolveIx(m.ixs[i], accounts).programId in AddressesOf(m.staticAccounts)
      ensures |ResolveIx(m.ixs[i], accounts).accounts| == |m.ixs[i].accountIndexes|
      ensures ResolveIx(m.ixs[i], accounts).data == m.ixs[i].data
    {
      assert m.ixs[i] in m.ixs;
      IxRoles(m, m.ixs[i], accounts);
    }
  }

  /** Static accounts keep their roles, loaded ones never sign. */
  lemma AccountRoles(m: Message, writable: seq<Resolved>, readonly: seq<Resolved>)
    requires WellFormedMessage(m)
    requires forall r <- writable :: !r.account.signer && r.account.writable
    requires forall r <- readonly :: !r.account.signer && !r.account.writable
    ensures var (accounts, n) := (Renumber(StaticResolved(m.staticAccounts) + writable + readonly), |m.staticAccounts|);
            && |m.requiredSigners| <= n && |accounts| == n + |writable| + |readonly|
            && (forall i :: 0 <= i < |accounts| ==> (accounts[i].account.signer <==> i < |m.requiredSigners|))
            && (forall i :: n <= i < |accounts| ==> (accounts[i].account.writable <==> i < n + |writable|))
            && (forall i :: 0 <= i < n ==> accounts[i].account.address == m.staticAccounts[i].address)
            && (forall i :: 0 <= i < |m.requiredSigners| ==> accounts[i].account.address == m.requiredSigners[i])
  {
    hide IxIndexes;
    var n := |m.staticAccounts|;
    WellFormedHeader(m);
    CountTruesFirst(SignerFlags(m.staticAccounts));
    var all := StaticResolved(m.staticAccounts) + writable + readonly;
    forall i | 0 <= i < |all|
      ensures all[i].account.signer <==> i < |m.requiredSigners|
      ensures i < n ==> all[i].account.address == m.staticAccounts[i].address
      ensures n <= i ==> (all[i].account.writable <==> i < n + |writable|)
    {
      if i < n {
        assert SignerFlags(m.staticAccounts)[i] == m.staticAccounts[i].signer;
      } else if i < n + |writable| {
        assert all[i] == writable[i - n] && writable[i - n] in writable;
      } else {
        assert all[i] == readonly[i - n - |writable|] && readonly[i - n - |writable|] in readonly;
      }
    }
  }

  predicate InRange(ix: CompiledIx, accounts: seq<Resolved>) {
    ix.programIndex < |accounts| && forall a <- ix.accountIndexes :: a < |accounts|
  }

  lemma IxRoles(m: Message, ix: CompiledIx, accounts: seq<Resolved>)
    requires WellFormedMessage(m) && ix in m.ixs && |m.staticAccounts| <= |accounts|
    requires IxIndexes(ix, |m.staticAccounts|, |accounts|)
    requires forall i :: 0 <= i < |m.staticAccounts| ==> accounts[i].account.address == m.staticAccounts[i].address
    ensures InRange(ix, accounts)
    ensures var r := ResolveIx(ix, accounts);
            && r.programId != m.feePayer
            && r.programId in AddressesOf(m.staticAccounts)
            && |r.accounts| == |ix.accountIndexes|
            && r.data == ix.data
  {
    var addresses := AddressesOf(m.staticAccounts);
    WellFormedHeader(m);
    assert addresses[0] != addresses[ix.programIndex as int];
  }

  // ---------------------------------------------------------------------------------
  // Where each loaded account comes from

  /** The table entries a message asks for, lookup by lookup in index order. */
  function Wanted(ls: seq<Lookup>, writable: bool): seq<(Bytes, byte)> {
    if ls == [] then []
    else
      var indexes := if writable then ls[0].writable else ls[0].readonly;
      seq(|indexes|, i requires 0 <= i < |indexes| => (ls[0].table, indexes[i])) + Wanted(ls[1..], writable)
  }

  predicate Serves(tables: Tables, wanted: (Bytes, byte), r: Resolved) {
    && wanted.0 in tables && wanted.1 as int < |tables[wanted.0]|
    && r.lookup == Some((wanted.0, wanted.1 as int))
    && r.account.address == tables[wanted.0][wanted.1]
  }

  /** The accounts of one instruction are those at its indexes, in that order. */
  ghost predicate Picks(indexes: Bytes, accounts: seq<Resolved>, picked: seq<Resolved>) {
    |picked| == |indexes| && forall k :: 0 <= k < |indexes| ==>
      indexes[k] as int < |accounts| && picked[k] == accounts[indexes[k]]
  }

  lemma {:induction false} LoadIndexesExact(table: Bytes, tables: Tables, indexes: Bytes, writable: bool)
    requires table in tables && LoadIndexes(table, tables[table], indexes, writable).Ok?
    ensures var loaded := LoadIndexes(table, tables[table], indexes, writable).value;
            |loaded| == |indexes| && forall i :: 0 <= i < |indexes| ==> Serves(tables, (table, indexes[i]), loaded[i])
  {
    if indexes != [] {
      LoadIndexesExact(table, tables, indexes[1..], writable);
    }
  }

  /** Loading brings one account per wanted entry, in order, with that entry's address. */
  lemma {:induction false} LoadExact(ls: seq<Lookup>, tables: Tables, writable: bool)
    requires Load(ls, tables, writable).Ok?
    ensures var (loaded, wanted) := (Load(ls, tables, writable).value, Wanted(ls, writable));
            |loaded| == |wanted| && forall i :: 0 <= i < |wanted| ==> Serves(tables, wanted[i], loaded[i])
  {
    if ls != [] {
      LoadIndexesExact(ls[0].table, tables, if writable then ls[0].writable else ls[0].readonly, writable);
      LoadExact(ls[1..], tables, writable);
    }
  }

  lemma IxPicks(ix: CompiledIx, accounts: seq<Resolved>)
    requires ix.programIndex as int < |accounts| && forall a <- ix.accountIndexes :: a as int < |accounts|
    ensures Picks(ix.accountIndexes, accounts, ResolveIx(ix, accounts).accounts)
  {
    forall k | 0 <= k < |ix.accountIndexes|
      ensures ix.accountIndexes[k] as int < |accounts|
    {
      assert ix.accountIndexes[k] in ix.accountIndexes;
    }
  }

  lemma IxProgram(ix: CompiledIx, accounts: seq<Resolved>, statics: seq<Account>)
    requires ix.programIndex as int < |statics| <= |accounts| && forall a <- ix.accountIndexes :: a as int < |accounts|
    requires forall i :: 0 <= i < |statics| ==> accounts[i].account.address == statics[i].address
    ensures ResolveIx(ix, accounts).programId == statics[ix.programIndex].address
    ensures ResolveIx(ix, accounts).data == ix.data
  {
  }

  /**
   * The resolved accounts are the static ones as they were parsed, then the wanted writable
   * entries, then the wanted read-only ones. Each instruction runs the static program at its
   * compiled index, on the accounts at its account indexes, with its data.
   */
  lemma ResolvedSources(m: Message, tables: Tables)
    requires WellFormedMessage(m) && Resolve(m, tables).Ok?
    ensures
      var r := Resolve(m, tables).value;
      var wanted, n := Wanted(m.lookups, true) + Wanted(m.lookups, false), |m.staticAccounts|;
      && |r.accounts| == n + |wanted|
      && (forall i :: 0 <= i < |r.accounts| ==> r.accounts[i].account.index == i)
      && (forall i :: 0 <= i < n ==>
            && r.accounts[i].lookup.None?
            && r.accounts[i].account.address == m.staticAccounts[i].address
            && r.accounts[i].account.signer == m.staticAccounts[i].signer
            && r.accounts[i].account.writable == m.staticAccounts[i].writable)
      && (forall i :: 0 <= i < |wanted| ==>
            && Serves(tables, wanted[i], r.accounts[n + i])
            && !r.accounts[n + i].account.signer
            && (r.accounts[n + i].account.writable <==> i < |Wanted(m.lookups, true)|))
      && |r.ixs| == |m.ixs|
      && (forall i :: 0 <= i < |m.ixs| ==>
            && m.ixs[i].programIndex as int < n
            && r.ixs[i].programId == m.staticAccounts[m.ixs[i].programIndex].address
            && Picks(m.ixs[i].accountIndexes, r.accounts, r.ixs[i].accounts)
            && r.ixs[i].data == m.ixs[i].data)
  {
    hide Load, Wanted, WellFormedMessage, ResolvedAddresses, LoadedCount, ResolveIx, Picks;
    var writable, readonly := Load(m.lookups, tables, true).value, Load(m.lookups, tables, false).value;
    LoadExact(m.lookups, tables, true);
    LoadExact(m.lookups, tables, false);
    AllIndexesInRange(m, tables, writable, readonly);
    LoadShape(m.lookups, tables, true);
    LoadShape(m.lookups, tables, false);
    var r := Resolve(m, tables).value;
    forall i | 0 <= i < |m.ixs|
      ensures m.ixs[i].programIndex as int < |m.staticAccounts|
      ensures r.ixs[i].programId == m.staticAccounts[m.ixs[i].programIndex].address
      ensures Picks(m.ixs[i].accountIndexes, r.accounts, r.ixs[i].accounts) && r.ixs[i].data == m.ixs[i].data
    {
      assert m.ixs[i] in m.ixs;
      IxPicks(m.ixs[i], r.accounts);
      IxProgram(m.ixs[i], r.accounts, m.staticAccounts);
    }
  }

  // ---------------------------------------------------------------------------------
  // When a message resolves

  /** The table is known and holds 32 bytes at the wanted index. */
  predicate Servable(tables: Tables, wanted: (Bytes, byte)) {
    wanted.0 in tables && wanted.1 as int < |tables[wanted.0]| && |tables[wanted.0][wanted.1]| == 32
  }

  function AddressAt(tables: Tables, wanted: (Bytes, byte)): Bytes {
    if Servable(tables, wanted) then tables[wanted.0][wanted.1] else []
  }

  function WantedAddresses(tables: Tables, wanted: seq<(Bytes, byte)>): seq<Bytes> {
    seq(|wanted|, i requires 0 <= i < |wanted| => AddressAt(tables, wanted[i]))
  }

  lemma {:induction false} LoadsIndexesExactly(table: Bytes, tables: Tables, indexes: Bytes, writable: bool)
    requires table in tables
    ensures LoadIndexes(table, tables[table], indexes, writable).Ok?
            <==> forall i <- indexes :: Servable(tables, (table, i))
  {
    if indexes != [] {
      LoadsIndexesExactly(table, tables, indexes[1..], writable);
      assert forall i: byte :: i in indexes <==> i == indexes[0] || i in indexes[1..];
      assert Servable(tables, (table, indexes[0]))
             <==> indexes[0] as int < |tables[table]| && |tables[table][indexes[0]]| == 32;
    }
  }

  /** Loading succeeds exactly when every table is known and every wanted entry is 32 bytes. */
  lemma {:induction false} LoadsExactly(ls: seq<Lookup>, tables: Tables, writable: bool)
    ensures Load(ls, tables, writable).Ok? <==>
            (forall l <- ls :: l.table in tables) && forall x <- Wanted(ls, writable) :: Servable(tables, x)
  {
    hide Servable, LoadIndexes;
    if ls != [] {
      var indexes := if writable then ls[0].writable else ls[0].readonly;
      LoadsExactly(ls[1..], tables, writable);
      assert ls == [ls[0]] + ls[1..];
      if ls[0].table in tables {
        LoadsIndexesExactly(ls[0].table, tables, indexes, writable);
        WantedFirst(ls, writable);
      }
    }
  }

  lemma WantedFirst(ls: seq<Lookup>, writable: bool)
    requires ls != []
    ensures forall x :: x in Wanted(ls, writable) <==>
              (x.0 == ls[0].table && x.1 in (if writable then ls[0].writable else ls[0].readonly))
              || x in Wanted(ls[1..], writable)
  {
    var indexes := if writable then ls[0].writable else ls[0].readonly;
    var own := seq(|indexes|, i requires 0 <= i < |indexes| => (ls[0].table, indexes[i]));
    assert Wanted(ls, writable) == own + Wanted(ls[1..], writable);
    forall x: (Bytes, byte)
      ensures x in own <==> x.0 == ls[0].table && x.1 in indexes
    {
      if x.0 == ls[0].table && x.1 in indexes {
        var i :| 0 <= i < |indexes| && indexes[i] == x.1;
        assert own[i] == x;
      }
    }
  }

  /** Every lookup of a message wants something, so a missing table is a wanted entry that cannot be served. */
  lemma {:induction false} TablesWanted(ls: seq<Lookup>, tables: Tables)
    requires forall l <- ls :: l.writable != [] || l.readonly != []
    requires forall x <- Wanted(ls, true) + Wanted(ls, false) :: Servable(tables, x)
    ensures forall l <- ls :: l.table in tables
  {
    if ls != [] {
      WantedFirst(ls, true);
      WantedFirst(ls, false);
      assert forall x <- Wanted(ls[1..], true) + Wanted(ls[1..], false) :: x in Wanted(ls, true) + Wanted(ls, false);
      TablesWanted(ls[1..], tables);
      var first := ls[0];
      assert first in ls;
      var x := if first.writable != [] then (first.table, first.writable[0]) else (first.table, first.readonly[0]);
      assert x in Wanted(ls, true) + Wanted(ls, false);
    }
  }

  /**
   * A message resolves exactly when every entry it wants is served with 32 bytes and all static
   * and wanted addresses are distinct.
   */
  lemma ResolvesExactly(m: Message, tables: Tables)
    requires WellFormedMessage(m)
    ensures var wanted := Wanted(m.lookups, true) + Wanted(m.lookups, false);
            Resolve(m, tables).Ok? <==>
            && (forall x <- wanted :: Servable(tables, x))
            && NoDup(AddressesOf(m.staticAccounts) + WantedAddresses(tables, wanted))
  {
    hide Load, Wanted, Servable, LoadIndexes;
    var wanted := Wanted(m.lookups, true) + Wanted(m.lookups, false);
    LoadsExactly(m.lookups, tables, true);
    LoadsExactly(m.lookups, tables, false);
    if forall x <- wanted :: Servable(tables, x) {
      TablesWanted(m.lookups, tables);
      AddressesWanted(m, tables);
    } else {
      assert !Load(m.lookups, tables, true).Ok? || !Load(m.lookups, tables, false).Ok?;
    }
  }

  lemma AddressesWanted(m: Message, tables: Tables)
    requires Load(m.lookups, tables, true).Ok? && Load(m.lookups, tables, false).Ok?
    ensures var writable, readonly := Load(m.lookups, tables, true).value, Load(m.lookups, tables, false).value;
            var wanted := Wanted(m.lookups, true) + Wanted(m.lookups, false);
            (forall x <- wanted :: Servable(tables, x)) ==>
              ResolvedAddresses(Renumber(StaticResolved(m.staticAccounts) + writable + readonly))
              == AddressesOf(m.staticAccounts) + WantedAddresses(tables, wanted)
  {
    hide Load, Wanted;
    LoadExact(m.lookups, tables, true);
    LoadExact(m.lookups, tables, false);
  }

  /** Where each index of a lookup stands among the wanted entries: after those of the lookups before it. */
  lemma WantedPlaces(ls: seq<Lookup>, j: nat, i: nat)
    requires j < |ls|
    ensures var k := LoadedCount(ls[..j], true) + i;
            i < |ls[j].writable| ==> k < |Wanted(ls, true)| && Wanted(ls, true)[k] == (ls[j].table, ls[j].writable[i])
    ensures var k := LoadedCount(ls[..j], false) + i;
            i < |ls[j].readonly| ==> k < |Wanted(ls, false)| && Wanted(ls, false)[k] == (ls[j].table, ls[j].readonly[i])
  {
    hide Wanted, LoadedCount;
    if i < |ls[j].writable| { WantedPlace(ls, true, j, i, ls[j].writable); }
    if i < |ls[j].readonly| { WantedPlace(ls, false, j, i, ls[j].readonly); }
  }

  lemma {:induction false} WantedPlace(ls: seq<Lookup>, writable: bool, j: nat, i: nat, indexes: Bytes)
    requires j < |ls| && indexes == (if writable then ls[j].writable else ls[j].readonly) && i < |indexes|
    ensures var k := LoadedCount(ls[..j], writable) + i;
            k < |Wanted(ls, writable)| && Wanted(ls, writable)[k] == (ls[j].table, indexes[i])
    decreases j
  {
    hide Wanted, LoadedCount;
    var own := WantedStep(ls, writable);
    CountStep(ls[..j], writable);
    if j > 0 {
      WantedPlace(ls[1..], writable, j - 1, i, indexes);
      assert ls[..j][1..] == ls[1..][..j - 1] && ls[..j][0] == ls[0];
    }
  }

  lemma WantedStep(ls: seq<Lookup>, writable: bool) returns (own: seq<(Bytes, byte)>)
    requires ls != []
    ensures var indexes := if writable then ls[0].writable else ls[0].readonly;
            |own| == |indexes| && forall i :: 0 <= i < |indexes| ==> own[i] == (ls[0].table, indexes[i])
    ensures Wanted(ls, writable) == own + Wanted(ls[1..], writable)
  {
    var indexes := if writable then ls[0].writable else ls[0].readonly;
    own := seq(|indexes|, i requires 0 <= i < |indexes| => (ls[0].table, indexes[i]));
  }

  lemma CountStep(ls: seq<Lookup>, writable: bool)
    ensures LoadedCount(ls, writable) ==
            if ls == [] then 0
            else |if writable then ls[0].writable else ls[0].readonly| + LoadedCount(ls[1..], writable)
  {
  }

  /** As many entries are wanted as the lookups have indexes. */
  lemma {:induction false} WantedCount(ls: seq<Lookup>, writable: bool)
    ensures |Wanted(ls, writable)| == LoadedCount(ls, writable)
    ensures ls != [] ==> LoadedCount(ls, true) == |ls[0].writable| + LoadedCount(ls[1..], true)
    ensures ls != [] ==> LoadedCount(ls, false) == |ls[0].readonly| + LoadedCount(ls[1..], false)
  {
    if ls != [] {
      WantedCount(ls[1..], writable);
    }
  }

  // ---------------------------------------------------------------------------------
  // What is reported of a message that does not resolve

  lemma {:induction false} IndexesRefused(table: Bytes, tables: Tables, indexes: Bytes, writable: bool)
    requires table in tables
    ensures var r := LoadIndexes(table, tables[table], indexes, writable); r.Err? ==> r == Err(BadTableEntry)
  {
    if indexes != [] {
      IndexesRefused(table, tables, indexes[1..], writable);
    }
  }

  /** The first lookup that cannot be loaded says why: its table is unknown or holds no address at an index. */
  lemma {:induction false} LoadRefused(ls: seq<Lookup>, tables: Tables, writable: bool)
    ensures var r := Load(ls, tables, writable);
            r.Err? ==>
              exists j :: 0 <= j < |ls| && FirstUnserved(ls, tables, writable, j)
                          && r == Err(if ls[j].table in tables then BadTableEntry else UnresolvedTable)
    decreases |ls|
  {
    hide LoadIndexes, LookupServed;
    if ls != [] && Load(ls, tables, writable).Err? {
      FirstServed(ls, tables, writable);
      if ls[0].table in tables {
        IndexesRefused(ls[0].table, tables, if writable then ls[0].writable else ls[0].readonly, writable);
      }
      if LookupServed(ls[0], tables, writable) {
        LoadRefused(ls[1..], tables, writable);
        var j :| 0 <= j < |ls| - 1 && FirstUnserved(ls[1..], tables, writable, j)
                 && Load(ls, tables, writable) ==
                    Err(if ls[1..][j].table in tables then BadTableEntry else UnresolvedTable);
        assert forall i :: 0 < i < |ls| ==> ls[i] == ls[1..][i - 1];
        assert FirstUnserved(ls, tables, writable, j + 1);
      } else {
        assert FirstUnserved(ls, tables, writable, 0);
      }
    }
  }

  ghost predicate LookupServed(l: Lookup, tables: Tables, writable: bool) {
    l.table in tables && Holds(tables[l.table], if writable then l.writable else l.readonly)
  }

  /** The table has 32 bytes at each of these indexes. */
  ghost predicate Holds(entries: seq<Bytes>, indexes: Bytes) {
    forall i :: 0 <= i < |indexes| ==> indexes[i] as int < |entries| && |entries[indexes[i]]| == 32
  }

  ghost predicate FirstUnserved(ls: seq<Lookup>, tables: Tables, writable: bool, j: nat)
    requires j < |ls|
  {
    !LookupServed(ls[j], tables, writable) && forall i :: 0 <= i < j ==> LookupServed(ls[i], tables, writable)
  }

  lemma FirstServed(ls: seq<Lookup>, tables: Tables, writable: bool)
    requires ls != []
    ensures LookupServed(ls[0], tables, writable)
            <==>
            && ls[0].table in tables
            && LoadIndexes(ls[0].table, tables[ls[0].table], if writable then ls[0].writable else ls[0].readonly,
                           writable).Ok?
  {
    var indexes := if writable then ls[0].writable else ls[0].readonly;
    if ls[0].table in tables {
      LoadsIndexesExactly(ls[0].table, tables, indexes, writable);
      if Holds(tables[ls[0].table], indexes) {
        forall at | at in indexes
          ensures Servable(tables, (ls[0].table, at))
        {
          var i :| 0 <= i < |indexes| && indexes[i] == at;
        }
      }
      if forall at <- indexes :: Servable(tables, (ls[0].table, at)) {
        forall i | 0 <= i < |indexes|
          ensures indexes[i] as int < |tables[ls[0].table]| && |tables[ls[0].table][indexes[i]]| == 32
        {
          assert Servable(tables, (ls[0].table, indexes[i]));
        }
      }
    }
  }

  /** Writable entries are looked up before read-only ones, and addresses are compared last. */
  lemma ResolveRefused(m: Message, tables: Tables)
    requires WellFormedMessage(m) && Resolve(m, tables).Err?
    ensures var (first, second) := (Load(m.lookups, tables, true), Load(m.lookups, tables, false));
            Resolve(m, tables).error ==
            if first.Err? then first.error else if second.Err? then second.error else DuplicateAddresses
  {
    hide Load, WellFormedMessage;
  }
}
