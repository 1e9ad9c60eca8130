/**
 * Linking of one archived block: its entries, its transactions in order, and its rewards, all
 * found by CID in the group of nodes that ends with the block node.
 */
module ArchiveBlock {
  import opened Common
  import opened Ordering
  import opened DataFrames

  datatype RawNode = RawNode(cid: Cid, data: Bytes, node: Node)

  datatype Job = Job(tx: ArchiveTx, txCid: Cid, entryCid: Cid)

  const MAX_TIMESTAMP_SECS: nat := 8_210_266_876_799

  // ---------------------------------------------------------------------------------
  // What a well-linked group is

  ghost predicate DistinctCids(raw: seq<RawNode>) {
    forall i, j :: 0 <= i < j < |raw| ==> raw[i].cid != raw[j].cid
  }

  ghost predicate IndexesFirst(raw: seq<RawNode>, n: nat, nodes: map<Cid, Node>)
    requires n <= |raw|
  {
    && (forall i, j :: 0 <= i < j < n ==> raw[i].cid != raw[j].cid)
    && (forall i :: 0 <= i < n ==> raw[i].cid in nodes && nodes[raw[i].cid] == raw[i].node)
    && forall cid <- nodes :: exists i :: 0 <= i < n && raw[i].cid == cid
  }

  /** The node map: each CID of the group, none repeated, and its node. */
  ghost predicate Indexes(raw: seq<RawNode>, nodes: map<Cid, Node>) {
    IndexesFirst(raw, |raw|, nodes)
  }

  lemma IndexedDistinct(raw: seq<RawNode>)
    ensures (exists nodes :: Indexes(raw, nodes)) ==> DistinctCids(raw)
  {
  }

  lemma IndexUnique(raw: seq<RawNode>, a: map<Cid, Node>, b: map<Cid, Node>)
    requires Indexes(raw, a) && Indexes(raw, b)
    ensures a == b
  {
    assert a.Keys == b.Keys;
  }

  ghost predicate EntryAt(nodes: map<Cid, Node>, cid: Cid) { cid in nodes && nodes[cid].EntryNode? }

  ghost function Transactions(nodes: map<Cid, Node>, entries: seq<Cid>): seq<Cid>
    requires forall e <- entries :: EntryAt(nodes, e)
  {
    if entries == [] then []
    else
      var last := entries[|entries| - 1];
      assert EntryAt(nodes, last);
      Transactions(nodes, entries[..|entries| - 1]) + nodes[last].entry.transactions
  }

  /** The transaction node listed at position k carries index k and the block's slot. */
  ghost predicate TxAt(nodes: map<Cid, Node>, slot: u64, cid: Cid, k: nat) {
    cid in nodes && nodes[cid].TransactionNode? && nodes[cid].tx.slot == slot && nodes[cid].tx.index == Some(k)
  }

  ghost predicate RewardsLinked(nodes: map<Cid, Node>, raw: seq<RawNode>, block: Block, sums: Checksums) {
    && block.rewards in nodes
    && nodes[block.rewards].RewardsNode?
    && nodes[block.rewards].slot == block.slot
    && (exists cids :: Continuation(nodes, nodes[block.rewards].rewards, cids, sums))
    && (forall r <- raw :: r.node.RewardsNode? ==> r.cid == block.rewards)
  }

  ghost predicate HeaderLinked(nodes: map<Cid, Node>, block: Block) {
    && block.entries != []
    && EntryAt(nodes, block.entries[|block.entries| - 1])
    && |nodes[block.entries[|block.entries| - 1]].entry.hash| == 32
    && block.blockTime <= MAX_TIMESTAMP_SECS
  }

  ghost predicate EntriesLinked(nodes: map<Cid, Node>, raw: seq<RawNode>, block: Block) {
    && NoDup(block.entries)
    && (forall e <- block.entries :: EntryAt(nodes, e))
    && (forall r <- raw :: r.node.EntryNode? ==> r.cid in block.entries)
    && var txs := Transactions(nodes, block.entries);
       && NoDup(txs)
       && (forall k :: 0 <= k < |txs| ==> TxAt(nodes, block.slot, txs[k], k))
       && |txs| < U64_LIMIT
       && (forall r <- raw :: r.node.TransactionNode? ==> r.cid in txs)
  }

  ghost predicate Shaped(raw: seq<RawNode>) {
    && raw != []
    && raw[|raw| - 1].node.BlockNode?
    && (forall i :: 0 <= i < |raw| - 1 ==> !raw[i].node.BlockNode?)
    && (forall r <- raw :: !r.node.OtherNode?)
    && raw[|raw| - 1].node.block.parentSlot < raw[|raw| - 1].node.block.slot
  }

  /**
   * The group ends in its only block node, no CID repeats, the only rewards node is the block's
   * own and is intact, every entry node is listed by the block exactly once, and the entries
   * list every transaction node exactly once, numbered 0, 1, 2, ...
   */
  ghost predicate WellLinked(raw: seq<RawNode>, nodes: map<Cid, Node>, sums: Checksums) {
    && Shaped(raw)
    && Indexes(raw, nodes)
    && var block := raw[|raw| - 1].node.block;
       && RewardsLinked(nodes, raw, block, sums)
       && HeaderLinked(nodes, block)
       && EntriesLinked(nodes, raw, block)
  }

  /** One job per listed transaction, in the entries' order. */
  ghost predicate JobsFor(jobs: seq<Job>, nodes: map<Cid, Node>, entries: seq<Cid>)
    requires forall e <- entries :: EntryAt(nodes, e)
  {
    var txs := Transactions(nodes, entries);
    && |jobs| == |txs|
    && forall k :: 0 <= k < |txs| ==>
         && jobs[k].txCid == txs[k]
         && jobs[k].entryCid in entries
         && txs[k] in nodes[jobs[k].entryCid].entry.transactions
         && txs[k] in nodes && nodes[txs[k]].TransactionNode? && jobs[k].tx == nodes[txs[k]].tx
  }

  // ---------------------------------------------------------------------------------
  // Counting nodes by kind

  predicate IsEntry(r: RawNode) { r.node.EntryNode? }

  predicate IsTransaction(r: RawNode) { r.node.TransactionNode? }

  predicate IsRewards(r: RawNode) { r.node.RewardsNode? }

  function CidsOf(raw: seq<RawNode>, p: RawNode -> bool): set<Cid> {
    set r | r in raw && p(r) :: r.cid
  }

  lemma {:induction false} CountByCid(raw: seq<RawNode>, p: RawNode -> bool)
    requires DistinctCids(raw)
    ensures |Filter(raw, p)| == |CidsOf(raw, p)|
  {
    hide DistinctCids, CidsOf;
    if raw == [] {
      assert CidsOf(raw, p) == {} by { NoCids(raw, p); }
    } else {
      var init, last := raw[..|raw| - 1], raw[|raw| - 1];
      assert raw == init + [last];
      OneMoreCid(init, last, p);
      CountByCid(init, p);
    }
  }

  lemma NoCids(raw: seq<RawNode>, p: RawNode -> bool)
    requires raw == []
    ensures CidsOf(raw, p) == {}
  {
  }

  lemma OneMoreCid(init: seq<RawNode>, last: RawNode, p: RawNode -> bool)
    requires DistinctCids(init + [last])
    ensures DistinctCids(init) && last.cid !in CidsOf(init, p)
    ensures CidsOf(init + [last], p) == CidsOf(init, p) + (if p(last) then {last.cid} else {})
  {
    var raw := init + [last];
    assert forall i :: 0 <= i < |init| ==> raw[i] == init[i];
    assert raw[|init|] == last;
    assert forall r :: r in raw <==> r in init || r == last;
  }

  lemma SameCardinality<T>(a: set<T>, b: set<T>)
    requires a <= b
    ensures |a| == |b| <==> a == b
  {
    assert b == a + (b - a);
    assert |b| == |a| + |b - a|;
  }

  /** Nodes of a kind are all referenced exactly when the counts agree. */
  lemma AllReferenced(raw: seq<RawNode>, nodes: map<Cid, Node>, p: RawNode -> bool, referenced: seq<Cid>)
    requires Indexes(raw, nodes) && NoDup(referenced)
    requires forall cid <- referenced :: cid in CidsOf(raw, p)
    ensures |Filter(raw, p)| == |referenced| <==> forall r <- raw :: p(r) ==> r.cid in referenced
  {
    CountByCid(raw, p);
    NoDupByCount(referenced);
    SameCardinality(ToSet(referenced), CidsOf(raw, p));
    assert forall cid :: cid in ToSet(referenced) <==> cid in referenced;
    if forall r <- raw :: p(r) ==> r.cid in referenced {
      assert ToSet(referenced) == CidsOf(raw, p);
    } else {
      var r :| r in raw && p(r) && r.cid !in referenced;
      assert r.cid in CidsOf(raw, p);
    }
  }

  // ---------------------------------------------------------------------------------
  // The linking loops

  lemma IndexStep(raw: seq<RawNode>, i: nat, nodes: map<Cid, Node>)
    requires i < |raw| && IndexesFirst(raw, i, nodes)
    ensures if raw[i].cid in nodes then !DistinctCids(raw)
            else IndexesFirst(raw, i + 1, nodes[raw[i].cid := raw[i].node])
  {
    var after := nodes[raw[i].cid := raw[i].node];
    forall cid | cid in after
      ensures exists k :: 0 <= k < i + 1 && raw[k].cid == cid
    {
      if cid == raw[i].cid { assert raw[i].cid == cid; }
    }
  }

  method IndexNodes(raw: seq<RawNode>) returns (ok: bool, nodes: map<Cid, Node>, positions: map<Cid, nat>)
    ensures ok <==> DistinctCids(raw)
    ensures ok ==> Indexes(raw, nodes)
    ensures ok ==> forall i :: 0 <= i < |raw| ==> raw[i].cid in positions && positions[raw[i].cid] == i
  {
    hide DistinctCids;
    nodes, positions := map[], map[];
    for i := 0 to |raw|
      invariant IndexesFirst(raw, i, nodes)
      invariant positions.Keys == nodes.Keys
      invariant forall k :: 0 <= k < i ==> positions[raw[k].cid] == k
    {
      IndexStep(raw, i, nodes);
      if raw[i].cid in positions {
        return false, nodes, positions;
      }
      positions := positions[raw[i].cid := i];
      nodes := nodes[raw[i].cid := raw[i].node];
    }
    FirstIsAll(raw, nodes);
    ok := true;
  }

  lemma FirstIsAll(raw: seq<RawNode>, nodes: map<Cid, Node>)
    requires IndexesFirst(raw, |raw|, nodes)
    ensures Indexes(raw, nodes) && DistinctCids(raw)
  {
  }

  /** The transactions of one entry, numbered on from the jobs already found. */
  method CollectEntry(nodes: map<Cid, Node>, slot: u64, entryCid: Cid, transactions: seq<Cid>, found: seq<Job>,
                      seenBefore: set<Cid>, ghost before: seq<Cid>)
    returns (ok: bool, jobs: seq<Job>, seen: set<Cid>)
    requires |found| == |before| < U64_LIMIT && seenBefore == ToSet(before) && NoDup(before)
    ensures ok ==>
              NoDup(before + transactions) && seen == ToSet(before + transactions)
              && |before + transactions| < U64_LIMIT
    ensures ok ==> forall k :: 0 <= k < |transactions| ==> TxAt(nodes, slot, transactions[k], |before| + k)
    ensures ok ==> |jobs| == |found| + |transactions| && jobs[..|found|] == found
    ensures ok ==> forall k :: 0 <= k < |transactions| ==>
              TxAt(nodes, slot, transactions[k], |before| + k)
              && jobs[|found| + k] == Job(nodes[transactions[k]].tx, transactions[k], entryCid)
    ensures !ok ==> !NoDup(before + transactions) || |before + transactions| >= U64_LIMIT
                    || exists k :: 0 <= k < |transactions| && !TxAt(nodes, slot, transactions[k], |before| + k)
  {
    jobs, seen := found, seenBefore;
    assert before + transactions[..0] == before;
    for i := 0 to |transactions|
      invariant NoDup(before + transactions[..i]) && seen == ToSet(before + transactions[..i])
                && |before| + i < U64_LIMIT
      invariant forall k :: 0 <= k < i ==> TxAt(nodes, slot, transactions[k], |before| + k)
      invariant |jobs| == |found| + i && jobs[..|found|] == found
      invariant forall k :: 0 <= k < i ==>
                  jobs[|found| + k] == Job(nodes[transactions[k]].tx, transactions[k], entryCid)
    {
      var cid := transactions[i];
      ghost var listed := before + transactions[..i];
      assert before + transactions[..i + 1] == listed + [cid];
      ToSetAppend(listed, cid);
      if cid in seen {
        ghost var k :| 0 <= k < |listed| && listed[k] == cid;
        assert (before + transactions)[k] == cid == (before + transactions)[|listed|];
        return false, jobs, seen;
      }
      seen := seen + {cid};
      if cid !in nodes || !nodes[cid].TransactionNode? || nodes[cid].tx.slot != slot
         || nodes[cid].tx.index != Some(|jobs|) {
        assert !TxAt(nodes, slot, transactions[i], |before| + i);
        return false, jobs, seen;
      }
      jobs := jobs + [Job(nodes[cid].tx, cid, entryCid)];
      if |jobs| >= U64_LIMIT {
        return false, jobs, seen;
      }
      assert cid !in listed;
    }
    assert transactions[..|transactions|] == transactions;
    ok := true;
  }

  ghost predicate Listed(nodes: map<Cid, Node>, slot: u64, entries: seq<Cid>) {
    && NoDup(entries)
    && (forall e <- entries :: EntryAt(nodes, e))
    && var txs := Transactions(nodes, entries);
       && NoDup(txs) && |txs| < U64_LIMIT
       && forall k :: 0 <= k < |txs| ==> TxAt(nodes, slot, txs[k], k)
  }

  /** A list of entries that is linked has every prefix linked. */
  lemma {:induction false} ListedPrefix(nodes: map<Cid, Node>, slot: u64, entries: seq<Cid>, n: nat)
    requires n <= |entries| && Listed(nodes, slot, entries)
    ensures Listed(nodes, slot, entries[..n])
    ensures forall e <- entries[..n] :: EntryAt(nodes, e)
    ensures Transactions(nodes, entries[..n]) <= Transactions(nodes, entries)
    decreases |entries|
  {
    if n < |entries| {
      var init := entries[..|entries| - 1];
      var txs, more := Transactions(nodes, init), Transactions(nodes, entries);
      assert forall k :: 0 <= k < |txs| ==> txs[k] == more[k];
      ListedPrefix(nodes, slot, init, n);
      assert init[..n] == entries[..n];
    } else {
      assert entries[..n] == entries;
    }
  }

  method CollectJobs(nodes: map<Cid, Node>, slot: u64, entries: seq<Cid>)
    returns (ok: bool, jobs: seq<Job>)
    ensures ok <==> Listed(nodes, slot, entries)
    ensures ok ==> JobsFor(jobs, nodes, entries)
  {
    jobs := [];
    var seenEntries: set<Cid>, seen: set<Cid> := {}, {};
    ghost var txs: seq<Cid> := [];
    for i := 0 to |entries|
      invariant Listed(nodes, slot, entries[..i])
      invariant txs == Transactions(nodes, entries[..i])
      invariant seenEntries == ToSet(entries[..i]) && seen == ToSet(txs)
      invariant JobsFor(jobs, nodes, entries[..i])
    {
      var e := entries[i];
      ghost var listed := entries[..i];
      assert entries[..i + 1] == listed + [e];
      assert (listed + [e])[..i] == listed;
      ToSetAppend(listed, e);
      if e in seenEntries {
        ghost var k :| 0 <= k < i && listed[k] == e;
        assert entries[k] == entries[i];
        return false, jobs;
      }
      seenEntries := seenEntries + {e};
      if e !in nodes || !nodes[e].EntryNode? {
        assert e in entries && !EntryAt(nodes, e);
        return false, jobs;
      }
      var transactions := nodes[e].entry.transactions;
      ghost var found := jobs;
      var more;
      more, jobs, seen := CollectEntry(nodes, slot, e, transactions, jobs, seen, txs);
      if !more {
        EntryRefused(nodes, slot, entries, i);
        return false, jobs;
      }
      EntryAccepted(nodes, slot, entries, i, found, jobs);
      txs := txs + transactions;
    }
    assert entries[..|entries|] == entries;
    ok := true;
  }

  lemma EntryRefused(nodes: map<Cid, Node>, slot: u64, entries: seq<Cid>, i: nat)
    requires i < |entries| && Listed(nodes, slot, entries[..i]) && EntryAt(nodes, entries[i])
    requires
      var before, transactions := Transactions(nodes, entries[..i]), nodes[entries[i]].entry.transactions;
      !NoDup(before + transactions) || |before + transactions| >= U64_LIMIT
      || exists k :: 0 <= k < |transactions| && !TxAt(nodes, slot, transactions[k], |before| + k)
    ensures !Listed(nodes, slot, entries)
  {
    if Listed(nodes, slot, entries) {
      ListedEntry(nodes, slot, entries, i);
    }
  }

  /** In a linked list of entries, each entry continues the numbering of those before it. */
  lemma ListedEntry(nodes: map<Cid, Node>, slot: u64, entries: seq<Cid>, i: nat)
    requires i < |entries| && Listed(nodes, slot, entries)
    ensures forall e <- entries[..i] :: EntryAt(nodes, e)
    ensures EntryAt(nodes, entries[i])
    ensures
      var before, transactions := Transactions(nodes, entries[..i]), nodes[entries[i]].entry.transactions;
      && NoDup(before + transactions) && |before + transactions| < U64_LIMIT
      && forall k :: 0 <= k < |transactions| ==> TxAt(nodes, slot, transactions[k], |before| + k)
  {
    hide TxAt;
    ListedPrefix(nodes, slot, entries, i + 1);
    assert entries[..i + 1][..i] == entries[..i];
    assert entries[i] in entries && EntryAt(nodes, entries[i]);
    assert forall e <- entries[..i] :: e in entries;
    var before, transactions := Transactions(nodes, entries[..i]), nodes[entries[i]].entry.transactions;
    var txs := Transactions(nodes, entries[..i + 1]);
    assert txs == before + transactions;
    assert forall k :: 0 <= k < |transactions| ==> txs[|before| + k] == transactions[k];
  }

  lemma EntryAccepted(nodes: map<Cid, Node>, slot: u64, entries: seq<Cid>, i: nat, found: seq<Job>, jobs: seq<Job>)
    requires i < |entries| && Listed(nodes, slot, entries[..i]) && EntryAt(nodes, entries[i])
             && entries[i] !in entries[..i]
    requires JobsFor(found, nodes, entries[..i])
    requires
      var before, transactions := Transactions(nodes, entries[..i]), nodes[entries[i]].entry.transactions;
      && NoDup(before + transactions) && |before + transactions| < U64_LIMIT
      && (forall k :: 0 <= k < |transactions| ==> TxAt(nodes, slot, transactions[k], |before| + k))
      && |jobs| == |found| + |transactions| && jobs[..|found|] == found
      && forall k :: 0 <= k < |transactions| ==>
           TxAt(nodes, slot, transactions[k], |before| + k)
           && jobs[|found| + k] == Job(nodes[transactions[k]].tx, transactions[k], entries[i])
    ensures Listed(nodes, slot, entries[..i + 1]) && JobsFor(jobs, nodes, entries[..i + 1])
  {
    hide TxAt;
    var before, transactions := Transactions(nodes, entries[..i]), nodes[entries[i]].entry.transactions;
    Appended(nodes, entries, i);
    forall k | 0 <= k < |before + transactions|
      ensures TxAt(nodes, slot, (before + transactions)[k], k)
    {
      assert k >= |before| ==> (before + transactions)[k] == transactions[k - |before|];
    }
    JobsAppend(nodes, slot, entries, i, found, jobs);
  }

  lemma Appended(nodes: map<Cid, Node>, entries: seq<Cid>, i: nat)
    requires i < |entries| && (forall e <- entries[..i] :: EntryAt(nodes, e)) && EntryAt(nodes, entries[i])
    ensures entries[..i + 1] == entries[..i] + [entries[i]]
    ensures forall e <- entries[..i + 1] :: EntryAt(nodes, e)
    ensures Transactions(nodes, entries[..i + 1]) ==
            Transactions(nodes, entries[..i]) + nodes[entries[i]].entry.transactions
  {
    assert entries[..i + 1] == entries[..i] + [entries[i]];
    assert entries[..i + 1][..i] == entries[..i];
  }

  lemma JobsAppend(nodes: map<Cid, Node>, slot: u64, entries: seq<Cid>, i: nat, found: seq<Job>, jobs: seq<Job>)
    requires i < |entries| && (forall e <- entries[..i] :: EntryAt(nodes, e)) && EntryAt(nodes, entries[i])
    requires JobsFor(found, nodes, entries[..i])
    requires
      var before, transactions := Transactions(nodes, entries[..i]), nodes[entries[i]].entry.transactions;
      && |jobs| == |found| + |transactions| && jobs[..|found|] == found
      && forall k :: 0 <= k < |transactions| ==>
           TxAt(nodes, slot, transactions[k], |before| + k)
           && jobs[|found| + k] == Job(nodes[transactions[k]].tx, transactions[k], entries[i])
    ensures forall e <- entries[..i + 1] :: EntryAt(nodes, e)
    ensures JobsFor(jobs, nodes, entries[..i + 1])
  {
    hide Transactions;
    var before, transactions := Transactions(nodes, entries[..i]), nodes[entries[i]].entry.transactions;
    Appended(nodes, entries, i);
    var txs := before + transactions;
    forall k | 0 <= k < |txs|
      ensures jobs[k].txCid == txs[k] && jobs[k].entryCid in entries[..i + 1]
      ensures txs[k] in nodes[jobs[k].entryCid].entry.transactions && jobs[k].tx == nodes[txs[k]].tx
    {
      if k < |before| {
        assert jobs[k] == found[k] && txs[k] == before[k];
      } else {
        assert txs[k] == transactions[k - |before|] && jobs[k] == jobs[|found| + (k - |before|)];
      }
    }
  }

  method CheckShape(raw: seq<RawNode>) returns (ok: bool)
    ensures ok <==> Shaped(raw)
  {
    if raw == [] || !raw[|raw| - 1].node.BlockNode? {
      return false;
    }
    if exists i :: 0 <= i < |raw| - 1 && raw[i].node.BlockNode? {
      return false;
    }
    if exists r :: r in raw && r.node.OtherNode? {
      return false;
    }
    var block := raw[|raw| - 1].node.block;
    return block.parentSlot < block.slot;
  }

  /**
   * Linking succeeds exactly on well-linked groups, and then lists one job per transaction in
   * order. Comparing three counts is enough to know that nothing in the group is unreferenced.
   */
  method BuildBlock(raw: seq<RawNode>, sums: Checksums) returns (r: Option<seq<Job>>, ghost nodes: map<Cid, Node>)
    ensures r.Some? ==> WellLinked(raw, nodes, sums) && JobsFor(r.value, nodes, raw[|raw| - 1].node.block.entries)
    ensures r.None? ==> forall all :: !WellLinked(raw, all, sums)
  {
    hide IndexesFirst, Continuation, Transactions, Filter;
    nodes := map[];
    var shaped := CheckShape(raw);
    if !shaped {
      return None, nodes;
    }
    var block := raw[|raw| - 1].node.block;
    var distinct, byCid, positions := IndexNodes(raw);
    if !distinct {
      IndexedDistinct(raw);
      return None, nodes;
    }
    nodes := byCid;
    forall all | Indexes(raw, all)
      ensures all == byCid
    {
      IndexUnique(raw, all, byCid);
    }
    if block.rewards !in byCid || !byCid[block.rewards].RewardsNode? || byCid[block.rewards].slot != block.slot {
      return None, nodes;
    }
    var rewards := AssembleFrame(byCid[block.rewards].rewards, byCid, sums);
    if rewards.Err? {
      return None, nodes;
    }
    RewardsCount(raw, byCid, block);
    if |Filter(raw, IsRewards)| != 1 {
      return None, nodes;
    }
    if block.entries == [] {
      return None, nodes;
    }
    var lastEntry := block.entries[|block.entries| - 1];
    if lastEntry !in byCid || !byCid[lastEntry].EntryNode? || |byCid[lastEntry].entry.hash| != 32 {
      return None, nodes;
    }
    if block.blockTime > MAX_TIMESTAMP_SECS {
      return None, nodes;
    }
    var listed, jobs := CollectJobs(byCid, block.slot, block.entries);
    if !listed {
      return None, nodes;
    }
    EntriesCount(raw, byCid, block);
    if |Filter(raw, IsEntry)| != |block.entries| {
      return None, nodes;
    }
    if |Filter(raw, IsTransaction)| != |jobs| {
      return None, nodes;
    }
    return Some(jobs), nodes;
  }

  lemma RewardsCount(raw: seq<RawNode>, nodes: map<Cid, Node>, block: Block)
    requires Indexes(raw, nodes) && block.rewards in nodes && nodes[block.rewards].RewardsNode?
    ensures |Filter(raw, IsRewards)| == 1 <==> forall r <- raw :: r.node.RewardsNode? ==> r.cid == block.rewards
  {
    AllReferenced(raw, nodes, IsRewards, [block.rewards]);
  }

  lemma EntriesCount(raw: seq<RawNode>, nodes: map<Cid, Node>, block: Block)
    requires Indexes(raw, nodes) && Listed(nodes, block.slot, block.entries)
    ensures |Filter(raw, IsEntry)| == |block.entries|
            <==> forall r <- raw :: r.node.EntryNode? ==> r.cid in block.entries
    ensures var txs := Transactions(nodes, block.entries);
            |Filter(raw, IsTransaction)| == |txs| <==> forall r <- raw :: r.node.TransactionNode? ==> r.cid in txs
  {
    forall e | e in block.entries
      ensures e in CidsOf(raw, IsEntry)
    {
      assert EntryAt(nodes, e);
    }
    AllReferenced(raw, nodes, IsEntry, block.entries);
    var txs := Transactions(nodes, block.entries);
    forall t | t in txs
      ensures t in CidsOf(raw, IsTransaction)
    {
      var k :| 0 <= k < |txs| && txs[k] == t;
      assert TxAt(nodes, block.slot, txs[k], k);
    }
    AllReferenced(raw, nodes, IsTransaction, txs);
  }
}
