/** Frames, linked blocks and record payloads, said of an archive's nodes and bytes alone. */
module ArchiveMeaning {
  import opened Common
  import opened Ordering
  import opened DataFrames
  import opened ArchiveBlock
  import RecordPayload

  // ---------------------------------------------------------------------------------
  // Continuations of a frame

  ghost predicate AllFramesOf(nodes: map<Cid, Node>, cids: seq<Cid>) {
    forall k :: 0 <= k < |cids| ==> cids[k] in nodes && nodes[cids[k]].DataFrameNode?
  }

  /** The data of these frames, one after another. */
  ghost function DataOf(nodes: map<Cid, Node>, cids: seq<Cid>): Bytes
    requires AllFramesOf(nodes, cids)
  {
    if cids == [] then [] else nodes[cids[0]].frame.data + DataOf(nodes, cids[1..])
  }

  /** What these frames link to, one after another. */
  ghost function LinksOf(nodes: map<Cid, Node>, cids: seq<Cid>): seq<Cid>
    requires AllFramesOf(nodes, cids)
  {
    if cids == [] then [] else nodes[cids[0]].frame.next + LinksOf(nodes, cids[1..])
  }

  /** Everything linked is listed in order, and a frame links further only if it is the last one linked so far. */
  ghost predicate Linked(nodes: map<Cid, Node>, next: seq<Cid>, cids: seq<Cid>)
    requires AllFramesOf(nodes, cids)
  {
    && cids == next + LinksOf(nodes, cids)
    && forall k :: 0 <= k < |cids| && nodes[cids[k]].frame.next != [] ==>
         k + 1 == |next| + |LinksOf(nodes, cids[..k])|
  }

  lemma {:induction false} LinksJoin(nodes: map<Cid, Node>, a: seq<Cid>, b: seq<Cid>)
    requires AllFramesOf(nodes, a) && AllFramesOf(nodes, b)
    ensures AllFramesOf(nodes, a + b) && LinksOf(nodes, a + b) == LinksOf(nodes, a) + LinksOf(nodes, b)
    decreases |a|
  {
    if a == [] {
      assert a + b == b;
    } else {
      assert (a + b)[1..] == a[1..] + b;
      LinksJoin(nodes, a[1..], b);
    }
  }

  lemma {:induction false} NoLinks(nodes: map<Cid, Node>, cids: seq<Cid>)
    requires AllFramesOf(nodes, cids) && forall k :: 0 <= k < |cids| ==> nodes[cids[k]].frame.next == []
    ensures LinksOf(nodes, cids) == []
  {
    if cids != [] {
      NoLinks(nodes, cids[1..]);
    }
  }

  /** Only the last of the first n frames can link further, if the n-th is the last one linked. */
  lemma {:induction false} QuietBefore(nodes: map<Cid, Node>, next: seq<Cid>, cids: seq<Cid>, n: nat)
    requires AllFramesOf(nodes, cids) && Linked(nodes, next, cids) && n <= |cids|
    requires next == [] || n < |next|
    ensures forall k :: 0 <= k < n ==> nodes[cids[k]].frame.next == []
  {
    hide LinksOf;
    if n > 0 {
      QuietBefore(nodes, next, cids, n - 1);
      var before := cids[..n - 1];
      assert forall k :: 0 <= k < n - 1 ==> before[k] == cids[k];
      NoLinks(nodes, before);
    }
  }

  lemma LastLinks(nodes: map<Cid, Node>, next: seq<Cid>)
    requires next != [] && AllFramesOf(nodes, next)
    requires forall k :: 0 <= k < |next| - 1 ==> nodes[next[k]].frame.next == []
    ensures LinksOf(nodes, next) == nodes[next[|next| - 1]].frame.next
  {
    var init, last := next[..|next| - 1], next[|next| - 1];
    NoLinks(nodes, init);
    LinksJoin(nodes, init, [last]);
    assert next == init + [last];
    assert LinksOf(nodes, [last][1..]) == [];
  }

  /** Following the links batch by batch is listing them all in order. */
  lemma {:induction false} ReachedExactly(nodes: map<Cid, Node>, next: seq<Cid>, cids: seq<Cid>)
    requires AllFramesOf(nodes, cids)
    ensures Reached(nodes, next, cids) <==> Linked(nodes, next, cids)
    decreases |cids|
  {
    hide LinksOf, Linked, Reached;
    ReachedStep(nodes, next, cids);
    if Linked(nodes, next, cids) { LinkedBegins(nodes, next, cids); }
    if next == [] {
      NoneLinked(nodes, cids);
    } else if next <= cids {
      if Linked(nodes, next, cids) { QuietBefore(nodes, next, cids, |next| - 1); }
      if forall k :: 0 <= k < |next| - 1 ==> nodes[cids[k]].frame.next == [] {
        var more := nodes[cids[|next| - 1]].frame.next;
        ReachedExactly(nodes, more, cids[|next|..]);
        LinkedLater(nodes, next, cids, more, cids[|next|..]);
      }
    }
  }

  lemma ReachedStep(nodes: map<Cid, Node>, next: seq<Cid>, cids: seq<Cid>)
    requires AllFramesOf(nodes, cids)
    ensures Reached(nodes, next, cids)
            <==> if next == [] then cids == []
                 else
                   && next <= cids
                   && (forall k :: 0 <= k < |next| - 1 ==> nodes[cids[k]].frame.next == [])
                   && Reached(nodes, nodes[cids[|next| - 1]].frame.next, cids[|next|..])
  {
    if next != [] && next <= cids {
      assert forall k :: 0 <= k < |next| ==> next[k] == cids[k];
    }
  }

  lemma LinkedBegins(nodes: map<Cid, Node>, next: seq<Cid>, cids: seq<Cid>)
    requires AllFramesOf(nodes, cids) && Linked(nodes, next, cids)
    ensures next <= cids
  {
  }

  lemma NoneLinked(nodes: map<Cid, Node>, cids: seq<Cid>)
    requires AllFramesOf(nodes, cids)
    ensures Linked(nodes, [], cids) <==> cids == []
  {
    hide LinksOf;
    if Linked(nodes, [], cids) {
      QuietBefore(nodes, [], cids, |cids|);
      NoLinks(nodes, cids);
    } else if cids == [] {
      NoLinks(nodes, cids);
    }
  }

  /** A batch of which only the last frame links further, and what is listed after it. */
  ghost predicate BatchFirst(nodes: map<Cid, Node>, next: seq<Cid>, cids: seq<Cid>, more: seq<Cid>, tail: seq<Cid>) {
    && next != [] && cids == next + tail && AllFramesOf(nodes, cids)
    && more == nodes[cids[|next| - 1]].frame.next
    && forall k :: 0 <= k < |next| - 1 ==> nodes[cids[k]].frame.next == []
  }

  lemma LinksAfter(nodes: map<Cid, Node>, next: seq<Cid>, cids: seq<Cid>, more: seq<Cid>, tail: seq<Cid>, k: nat)
    requires BatchFirst(nodes, next, cids, more, tail) && k <= |tail|
    ensures AllFramesOf(nodes, tail)
    ensures LinksOf(nodes, cids[..|next| + k]) == more + LinksOf(nodes, tail[..k])
  {
    hide LinksOf;
    assert forall i :: 0 <= i < |next| ==> next[i] == cids[i];
    assert forall i :: 0 <= i < |tail| ==> tail[i] == cids[|next| + i];
    LastLinks(nodes, next);
    LinksJoin(nodes, next, tail[..k]);
    assert cids[..|next| + k] == next + tail[..k];
  }

  lemma LinkedLater(nodes: map<Cid, Node>, next: seq<Cid>, cids: seq<Cid>, more: seq<Cid>, tail: seq<Cid>)
    requires BatchFirst(nodes, next, cids, more, tail)
    ensures AllFramesOf(nodes, tail)
    ensures Linked(nodes, next, cids) <==> Linked(nodes, more, tail)
  {
    hide LinksOf;
    var n := |next|;
    assert cids[..n + |tail|] == cids && tail[..|tail|] == tail;
    LinksAfter(nodes, next, cids, more, tail, |tail|);
    if Linked(nodes, more, tail) {
      forall k | 0 <= k < |cids| && nodes[cids[k]].frame.next != []
        ensures k + 1 == n + |LinksOf(nodes, cids[..k])|
      {
        if k >= n {
          assert tail[k - n] == cids[k];
          LinksAfter(nodes, next, cids, more, tail, k - n);
        } else {
          NoLinks(nodes, cids[..n - 1]);
        }
      }
      assert Linked(nodes, next, cids);
    }
    if Linked(nodes, next, cids) {
      assert tail == cids[n..] == LinksOf(nodes, cids);
      forall k | 0 <= k < |tail| && nodes[tail[k]].frame.next != []
        ensures k + 1 == |more| + |LinksOf(nodes, tail[..k])|
      {
        assert tail[k] == cids[n + k];
        LinksAfter(nodes, next, cids, more, tail, k);
      }
    }
  }

  lemma {:induction false} DataJoin(nodes: map<Cid, Node>, cids: seq<Cid>, cid: Cid)
    requires AllFramesOf(nodes, cids + [cid])
    ensures AllFramesOf(nodes, cids) && cid in nodes && nodes[cid].DataFrameNode?
    ensures DataOf(nodes, cids + [cid]) == DataOf(nodes, cids) + nodes[cid].frame.data
    decreases |cids|
  {
    var all := cids + [cid];
    assert forall k :: 0 <= k < |cids| ==> cids[k] == all[k];
    assert all[|cids|] == cid;
    if cids == [] {
      assert all == [cid] && all[1..] == [];
    } else {
      assert all[1..] == cids[1..] + [cid];
      DataJoin(nodes, cids[1..], cid);
    }
  }

  lemma {:induction false} JoinedExactly(nodes: map<Cid, Node>, root: Frame, cids: seq<Cid>)
    requires AllFramesOf(nodes, cids)
    ensures forall cid <- cids :: IsFrame(nodes, cid)
    ensures Joined(nodes, root, cids) == root.data + DataOf(nodes, cids)
    decreases |cids|
  {
    if cids != [] {
      var init, last := cids[..|cids| - 1], cids[|cids| - 1];
      JoinedExactly(nodes, root, init);
      assert cids == init + [last];
      DataJoin(nodes, init, last);
    }
  }

  /**
   * When a list of frames continues a root: all links in order, no repetition, the root's total and
   * hash on each, numbers that go on from the root's to the total, at most 16 MiB, and one of the two
   * checksums over the data of root and frames in that order.
   */
  lemma ContinuationExactly(nodes: map<Cid, Node>, root: Frame, cids: seq<Cid>, sums: Checksums)
    requires AllFramesOf(nodes, cids)
    ensures var data := root.data + DataOf(nodes, cids);
            Continuation(nodes, root, cids, sums)
            <==>
            && (root.index.Some? <==> root.total.Some?)
            && (root.index.Some? ==> root.index.value < root.total.value)
            && (forall i, j :: 0 <= i < j < |cids| ==> cids[i] != cids[j])
            && Linked(nodes, root.next, cids)
            && (forall k :: 0 <= k < |cids| ==>
                  var frame := nodes[cids[k]].frame;
                  && frame.total == root.total && frame.hash == root.hash
                  && (root.index.Some? <==> frame.index.Some?)
                  && (root.index.Some? ==>
                        && frame.index.value == root.index.value + 1 + k
                        && frame.index.value < root.total.value))
            && (cids != [] ==> |data| <= 16_777_216)
            && (root.index.Some? ==> root.index.value + 1 + |cids| == root.total.value)
            && (root.hash.None? || root.hash.value == sums.crc64(data) || root.hash.value == sums.fnv64(data))
  {
    hide Reached, Linked, Joined, DataOf;
    ReachedExactly(nodes, root.next, cids);
    JoinedExactly(nodes, root, cids);
    forall k | 0 <= k < |cids|
      ensures IsFrame(nodes, cids[k])
    {
    }
  }

  /** Only frames continue a frame. */
  lemma OnlyFrames(nodes: map<Cid, Node>, root: Frame, cids: seq<Cid>, sums: Checksums)
    requires Continuation(nodes, root, cids, sums)
    ensures AllFramesOf(nodes, cids)
  {
    forall k | 0 <= k < |cids|
      ensures cids[k] in nodes && nodes[cids[k]].DataFrameNode?
    {
      assert Continues(nodes, root, cids[k], k);
    }
  }

  // ---------------------------------------------------------------------------------
  // Linked blocks

  ghost predicate AllEntries(nodes: map<Cid, Node>, entries: seq<Cid>) {
    forall k :: 0 <= k < |entries| ==> entries[k] in nodes && nodes[entries[k]].EntryNode?
  }

  /** The transactions these entries list, one entry after another. */
  ghost function TransactionsOf(nodes: map<Cid, Node>, entries: seq<Cid>): seq<Cid>
    requires AllEntries(nodes, entries)
  {
    if entries == [] then [] else nodes[entries[0]].entry.transactions + TransactionsOf(nodes, entries[1..])
  }

  lemma {:induction false} TransactionsJoin(nodes: map<Cid, Node>, entries: seq<Cid>, cid: Cid)
    requires AllEntries(nodes, entries + [cid])
    ensures AllEntries(nodes, entries) && cid in nodes && nodes[cid].EntryNode?
    ensures TransactionsOf(nodes, entries + [cid]) == TransactionsOf(nodes, entries) + nodes[cid].entry.transactions
    decreases |entries|
  {
    var all := entries + [cid];
    assert forall k :: 0 <= k < |entries| ==> entries[k] == all[k];
    assert all[|entries|] == cid;
    if entries == [] {
      assert all == [cid] && all[1..] == [];
    } else {
      assert all[1..] == entries[1..] + [cid];
      TransactionsJoin(nodes, entries[1..], cid);
    }
  }

  lemma {:induction false} TransactionsExactly(nodes: map<Cid, Node>, entries: seq<Cid>)
    requires AllEntries(nodes, entries)
    ensures forall e <- entries :: EntryAt(nodes, e)
    ensures Transactions(nodes, entries) == TransactionsOf(nodes, entries)
    decreases |entries|
  {
    if entries != [] {
      var init, last := entries[..|entries| - 1], entries[|entries| - 1];
      TransactionsExactly(nodes, init);
      assert entries == init + [last];
      TransactionsJoin(nodes, init, last);
    }
  }

  /** The map holds each node of the group under its own CID, and no CID repeats. */
  ghost predicate Holds(raw: seq<RawNode>, nodes: map<Cid, Node>) {
    && (forall i, j :: 0 <= i < j < |raw| ==> raw[i].cid != raw[j].cid)
    && (forall i :: 0 <= i < |raw| ==> raw[i].cid in nodes && nodes[raw[i].cid] == raw[i].node)
    && (forall cid :: cid in nodes ==> exists i :: 0 <= i < |raw| && raw[i].cid == cid)
  }

  /** The block's own rewards node, and no other, is in the group and its frame has a continuation. */
  ghost predicate RewardsHeld(raw: seq<RawNode>, nodes: map<Cid, Node>, block: Block, sums: Checksums) {
    && block.rewards in nodes && nodes[block.rewards].RewardsNode? && nodes[block.rewards].slot == block.slot
    && (exists cids :: Continuation(nodes, nodes[block.rewards].rewards, cids, sums))
    && (forall i :: 0 <= i < |raw| && raw[i].node.RewardsNode? ==> raw[i].cid == block.rewards)
  }

  /** The block lists every entry node once, the last with a hash of 32 bytes. */
  ghost predicate EntriesHeld(raw: seq<RawNode>, nodes: map<Cid, Node>, block: Block) {
    && block.entries != [] && AllEntries(nodes, block.entries)
    && (forall j, k :: 0 <= j < k < |block.entries| ==> block.entries[j] != block.entries[k])
    && |nodes[block.entries[|block.entries| - 1]].entry.hash| == 32
    && (forall i :: 0 <= i < |raw| && raw[i].node.EntryNode? ==> raw[i].cid in block.entries)
  }

  /** The entries list every transaction node once, of the block's slot and numbered by its place. */
  ghost predicate TransactionsHeld(raw: seq<RawNode>, nodes: map<Cid, Node>, block: Block)
    requires AllEntries(nodes, block.entries)
  {
    var txs := TransactionsOf(nodes, block.entries);
    && |txs| < 0x1_0000_0000_0000_0000
    && (forall j, k :: 0 <= j < k < |txs| ==> txs[j] != txs[k])
    && (forall k :: 0 <= k < |txs| ==>
          && txs[k] in nodes && nodes[txs[k]].TransactionNode?
          && nodes[txs[k]].tx.slot == block.slot
          && nodes[txs[k]].tx.index.Some? && nodes[txs[k]].tx.index.value == k)
    && (forall i :: 0 <= i < |raw| && raw[i].node.TransactionNode? ==> raw[i].cid in txs)
  }

  /** When a group is linked: all that is checked between its nodes, and nothing else. */
  lemma LinkedExactly(raw: seq<RawNode>, nodes: map<Cid, Node>, sums: Checksums)
    ensures WellLinked(raw, nodes, sums)
            <==>
            && raw != [] && raw[|raw| - 1].node.BlockNode?
            && (forall i :: 0 <= i < |raw| - 1 ==> !raw[i].node.BlockNode? && !raw[i].node.OtherNode?)
            && Holds(raw, nodes)
            && var block := raw[|raw| - 1].node.block;
               && block.parentSlot < block.slot && block.blockTime <= 8_210_266_876_799
               && RewardsHeld(raw, nodes, block, sums)
               && EntriesHeld(raw, nodes, block)
               && TransactionsHeld(raw, nodes, block)
  {
    hide Transactions, TransactionsOf, Continuation;
    if raw != [] && raw[|raw| - 1].node.BlockNode? {
      var block := raw[|raw| - 1].node.block;
      HoldsExactly(raw, nodes);
      RewardsExactly(raw, nodes, block, sums);
      EntriesExactly(raw, nodes, block);
      ShapeExactly(raw);
    }
  }

  lemma ShapeExactly(raw: seq<RawNode>)
    requires raw != [] && raw[|raw| - 1].node.BlockNode?
    ensures Shaped(raw)
            <==>
            && (forall i :: 0 <= i < |raw| - 1 ==> !raw[i].node.BlockNode? && !raw[i].node.OtherNode?)
            && raw[|raw| - 1].node.block.parentSlot < raw[|raw| - 1].node.block.slot
  {
    if forall i :: 0 <= i < |raw| - 1 ==> !raw[i].node.BlockNode? && !raw[i].node.OtherNode? {
      forall r | r in raw
        ensures !r.node.OtherNode?
      {
        var i :| 0 <= i < |raw| && raw[i] == r;
      }
    }
  }

  lemma HoldsExactly(raw: seq<RawNode>, nodes: map<Cid, Node>)
    ensures ArchiveBlock.Indexes(raw, nodes) <==> Holds(raw, nodes)
  {
  }

  lemma RewardsExactly(raw: seq<RawNode>, nodes: map<Cid, Node>, block: Block, sums: Checksums)
    ensures RewardsLinked(nodes, raw, block, sums) <==> RewardsHeld(raw, nodes, block, sums)
  {
    hide Continuation;
    assert forall i :: 0 <= i < |raw| ==> raw[i] in raw;
  }

  lemma EntriesExactly(raw: seq<RawNode>, nodes: map<Cid, Node>, block: Block)
    ensures HeaderLinked(nodes, block) && EntriesLinked(nodes, raw, block)
            <==>
            && block.blockTime <= 8_210_266_876_799
            && EntriesHeld(raw, nodes, block) && TransactionsHeld(raw, nodes, block)
  {
    hide Transactions, TransactionsOf;
    if forall e <- block.entries :: EntryAt(nodes, e) {
      forall k | 0 <= k < |block.entries|
        ensures block.entries[k] in nodes && nodes[block.entries[k]].EntryNode?
      {
        assert EntryAt(nodes, block.entries[k]);
      }
    }
    if AllEntries(nodes, block.entries) {
      TransactionsExactly(nodes, block.entries);
      assert forall i :: 0 <= i < |raw| ==> raw[i] in raw;
    }
  }

  /** What the jobs of a linked group are: its transactions in order, each with the one entry that lists it. */
  lemma JobsExactly(raw: seq<RawNode>, nodes: map<Cid, Node>, sums: Checksums, jobs: seq<Job>)
    requires WellLinked(raw, nodes, sums) && JobsFor(jobs, nodes, raw[|raw| - 1].node.block.entries)
    ensures var block := raw[|raw| - 1].node.block;
            && AllEntries(nodes, block.entries)
            && |jobs| == |TransactionsOf(nodes, block.entries)|
            && (forall k :: 0 <= k < |jobs| ==>
                  && jobs[k].txCid == TransactionsOf(nodes, block.entries)[k]
                  && jobs[k].tx.slot == block.slot && jobs[k].tx.index == Some(k as u64)
                  && jobs[k].txCid in nodes && nodes[jobs[k].txCid] == TransactionNode(jobs[k].tx)
                  && jobs[k].entryCid in block.entries
                  && jobs[k].txCid in nodes[jobs[k].entryCid].entry.transactions)
            && (forall i :: 0 <= i < |raw| && raw[i].node.TransactionNode? ==>
                  exists k :: 0 <= k < |jobs| && jobs[k].txCid == raw[i].cid && jobs[k].tx == raw[i].node.tx)
  {
    hide TransactionsOf, Transactions, Continuation, IndexesFirst;
    var block := raw[|raw| - 1].node.block;
    LinkedExactly(raw, nodes, sums);
    TransactionsExactly(nodes, block.entries);
    forall k | 0 <= k < |jobs|
      ensures jobs[k].entryCid in nodes && nodes[jobs[k].entryCid].EntryNode?
    {
      assert EntryAt(nodes, jobs[k].entryCid);
    }
    forall i | 0 <= i < |raw| && raw[i].node.TransactionNode?
      ensures exists k :: 0 <= k < |jobs| && jobs[k].txCid == raw[i].cid && jobs[k].tx == raw[i].node.tx
    {
      var k :| 0 <= k < |jobs| && TransactionsOf(nodes, block.entries)[k] == raw[i].cid;
      assert jobs[k].txCid == raw[i].cid;
    }
  }

  // ---------------------------------------------------------------------------------
  // Record payloads

  /** Two bytes, four bytes, the CID and the data of one node. */
  ghost predicate NodeLaid(b: Bytes, cid: Cid, data: Bytes) {
    var (m, n) := (6 + |cid|, 6 + |cid| + |data|);
    && |b| >= n
    && |cid| == b[0] as int + 256 * b[1] as int
    && |data| == b[2] as int + 256 * (b[3] as int + 256 * (b[4] as int + 256 * b[5] as int))
    && b[6..m] == cid && b[m..n] == data
  }

  /** The nodes at these positions one after another, and nothing else. */
  ghost predicate Lays(b: Bytes, raw: seq<RawNode>, order: seq<int>)
    decreases |order|
  {
    if order == [] then b == []
    else
      && 0 <= order[0] < |raw|
      && NodeLaid(b, raw[order[0]].cid, raw[order[0]].data)
      && Lays(b[6 + |raw[order[0]].cid| + |raw[order[0]].data|..], raw, order[1..])
  }

  /** The positions of the contributing nodes, each once, in the group's order. */
  ghost predicate Contributing(cids: seq<Cid>, positions: map<Cid, nat>, order: seq<int>) {
    && (forall i, j :: 0 <= i < j < |order| ==> order[i] < order[j])
    && (forall at :: at in order <==> exists cid :: cid in cids && cid in positions && positions[cid] == at)
  }

  /** The format's name, the number of nodes in four bytes, and the nodes. */
  ghost predicate Written(b: Bytes, raw: seq<RawNode>, order: seq<int>) {
    && |b| >= 36
    && (forall i :: 0 <= i < 32 ==> b[i] as int == "fervor-old-faithful-node-set-v1\0"[i] as int)
    && |order| == b[32] as int + 256 * (b[33] as int + 256 * (b[34] as int + 256 * b[35] as int))
    && Lays(b[36..], raw, order)
  }

  lemma U16Exactly(v: nat, x: byte, y: byte)
    ensures v < 0x1_0000 && RecordPayload.U16(v) == [x, y] <==> v == x as int + 256 * y as int
  {
  }

  lemma U32Exactly(v: nat, x: byte, y: byte, z: byte, w: byte)
    ensures v < U32_LIMIT && RecordPayload.U32(v) == [x, y, z, w]
            <==> v == x as int + 256 * (y as int + 256 * (z as int + 256 * w as int))
  {
    Higher(v);
    if v == x as int + 256 * (y as int + 256 * (z as int + 256 * w as int)) {
      LowAndHigh(x, y as int + 256 * (z as int + 256 * w as int));
      LowAndHigh(y, z as int + 256 * w as int);
      LowAndHigh(z, w as int);
    } else if v < U32_LIMIT {
      Composed(v);
    }
  }

  lemma LowAndHigh(low: byte, high: nat)
    ensures (low as int + 256 * high) % 256 == low as int && (low as int + 256 * high) / 256 == high
  {
  }

  lemma Higher(v: nat)
    ensures v / 65536 == v / 256 / 256 && v / 16777216 == v / 256 / 256 / 256
  {
    var a, b, c := v / 256, v / 256 / 256, v / 256 / 256 / 256;
    assert v == 65536 * b + (256 * (a % 256) + v % 256);
    assert v == 16777216 * c + (65536 * (b % 256) + (256 * (a % 256) + v % 256));
  }

  lemma Composed(v: nat)
    requires v < U32_LIMIT
    ensures var u := RecordPayload.U32(v);
            v == u[0] as int + 256 * (u[1] as int + 256 * (u[2] as int + 256 * u[3] as int))
  {
    Higher(v);
  }

  lemma NodePrinted(c: RecordPayload.Content, rest: Bytes)
    requires RecordPayload.Fits(c)
    ensures var b := RecordPayload.PrintContent(c, rest);
            NodeLaid(b, c.cid, c.data) && b[6 + |c.cid| + |c.data|..] == rest
  {
    hide RecordPayload.U16, RecordPayload.U32;
    var (x, y) := (RecordPayload.U16(|c.cid|), RecordPayload.U32(|c.data|));
    var b, tail := RecordPayload.PrintContent(c, rest), c.cid + (c.data + rest);
    assert b == (x + y) + tail && (x + y)[..2] == x && (x + y)[2..] == y;
    assert x == [b[0], b[1]] && y == [b[2], b[3], b[4], b[5]] && b[6..] == tail;
    U16Exactly(|c.cid|, b[0], b[1]);
    U32Exactly(|c.data|, b[2], b[3], b[4], b[5]);
    Pieces(b, tail, c.cid, c.data, rest);
  }

  lemma Pieces(b: Bytes, tail: Bytes, v: Bytes, w: Bytes, rest: Bytes)
    requires |b| >= 6 && b[6..] == tail == v + (w + rest)
    ensures |b| >= 6 + |v| + |w|
    ensures b[6..6 + |v|] == v && b[6 + |v|..6 + |v| + |w|] == w && b[6 + |v| + |w|..] == rest
  {
    assert tail[..|v|] == v && tail[|v|..] == w + rest;
    assert (w + rest)[..|w|] == w && (w + rest)[|w|..] == rest;
    assert b[6 + |v|..] == tail[|v|..];
  }

  lemma NodeFound(b: Bytes, c: RecordPayload.Content)
    requires NodeLaid(b, c.cid, c.data)
    ensures 6 + |c.cid| + |c.data| <= |b|
    ensures RecordPayload.Fits(c) && b == RecordPayload.PrintContent(c, b[6 + |c.cid| + |c.data|..])
  {
    hide RecordPayload.U16, RecordPayload.U32;
    var (m, n) := (6 + |c.cid|, 6 + |c.cid| + |c.data|);
    U16Exactly(|c.cid|, b[0], b[1]);
    U32Exactly(|c.data|, b[2], b[3], b[4], b[5]);
    assert b == [b[0], b[1]] + ([b[2], b[3], b[4], b[5]] + (b[6..m] + (b[m..n] + b[n..])));
  }

  lemma {:induction false} LaysPrinted(b: Bytes, raw: seq<RawNode>, order: seq<int>)
    requires (forall i <- order :: 0 <= i < |raw|) && Lays(b, raw, order)
    ensures var cs := RecordPayload.ContentsAt(raw, order);
            (forall c <- cs :: RecordPayload.Fits(c)) && b == RecordPayload.PrintContents(cs)
    decreases |order|
  {
    hide RecordPayload.PrintContent, RecordPayload.Fits, NodeLaid;
    if order != [] {
      var cs := ContentsFirst(raw, order);
      NodeFound(b, cs[0]);
      LaysPrinted(b[6 + |cs[0].cid| + |cs[0].data|..], raw, order[1..]);
    }
  }

  lemma {:induction false} PrintedLays(raw: seq<RawNode>, order: seq<int>)
    requires forall i <- order :: 0 <= i < |raw|
    requires forall c <- RecordPayload.ContentsAt(raw, order) :: RecordPayload.Fits(c)
    ensures Lays(RecordPayload.PrintContents(RecordPayload.ContentsAt(raw, order)), raw, order)
    decreases |order|
  {
    hide RecordPayload.PrintContent, RecordPayload.Fits, NodeLaid;
    if order != [] {
      var cs := ContentsFirst(raw, order);
      NodePrinted(cs[0], RecordPayload.PrintContents(cs[1..]));
      PrintedLays(raw, order[1..]);
    }
  }

  lemma ContentsFirst(raw: seq<RawNode>, order: seq<int>) returns (cs: seq<RecordPayload.Content>)
    requires order != [] && forall i <- order :: 0 <= i < |raw|
    ensures 0 <= order[0] < |raw| && forall i <- order[1..] :: 0 <= i < |raw|
    ensures cs == RecordPayload.ContentsAt(raw, order) && |cs| == |order|
    ensures cs[0] == RecordPayload.Content(raw[order[0]].cid, raw[order[0]].data)
    ensures cs[1..] == RecordPayload.ContentsAt(raw, order[1..]) && cs == [cs[0]] + cs[1..]
  {
    cs := RecordPayload.ContentsAt(raw, order);
    assert order[0] in order && forall i :: i in order[1..] ==> i in order;
  }

  lemma LaysExactly(b: Bytes, raw: seq<RawNode>, order: seq<int>)
    requires forall i <- order :: 0 <= i < |raw|
    ensures var cs := RecordPayload.ContentsAt(raw, order);
            Lays(b, raw, order) <==> (forall c <- cs :: RecordPayload.Fits(c)) && b == RecordPayload.PrintContents(cs)
  {
    hide RecordPayload.PrintContents, RecordPayload.Fits, Lays;
    if Lays(b, raw, order) { LaysPrinted(b, raw, order); }
    if forall c <- RecordPayload.ContentsAt(raw, order) :: RecordPayload.Fits(c) { PrintedLays(raw, order); }
  }

  lemma OneOrder(cids: seq<Cid>, positions: map<Cid, nat>, order: seq<int>)
    requires forall cid <- cids :: cid in positions
    ensures Contributing(cids, positions, order) <==> order == RecordPayload.Indexes(cids, positions)
  {
    hide RecordPayload.Indexes;
    var indexes := RecordPayload.Indexes(cids, positions);
    RecordPayload.IndexesExact(cids, positions);
    IntTotal();
    forall at
      ensures at in indexes <==> exists cid :: cid in cids && cid in positions && positions[cid] == at
    {
      assert at in indexes <==> at in ToSet(indexes);
      assert at in RecordPayload.PositionSet(ToSet(cids), positions)
             <==> exists cid :: cid in ToSet(cids) && positions[cid] == at;
    }
    if Contributing(cids, positions, order) {
      forall at
        ensures at in ToSet(order) <==> at in ToSet(indexes)
      {
        assert at in order <==> at in indexes;
      }
      StrictlySortedUnique(IntLess, order, indexes);
    }
  }

  lemma NameExactly(b: Bytes)
    requires |b| >= 32
    ensures b[..32] == RecordPayload.Magic()
            <==> forall i :: 0 <= i < 32 ==> b[i] as int == "fervor-old-faithful-node-set-v1\0"[i] as int
  {
    assert |RecordPayload.Magic()| == 32;
    if forall i :: 0 <= i < 32 ==> b[i] as int == "fervor-old-faithful-node-set-v1\0"[i] as int {
      assert b[..32] == RecordPayload.Magic();
    }
    if b[..32] == RecordPayload.Magic() {
      forall i | 0 <= i < 32
        ensures b[i] as int == "fervor-old-faithful-node-set-v1\0"[i] as int
      {
        assert b[i] == b[..32][i] == RecordPayload.Magic()[i];
      }
    }
  }

  /**
   * A record's bytes: the name, the count, and for each contributing node in the group's order its
   * lengths, CID and data. There are none exactly if a node is missing or no bytes can say that.
   */
  lemma PayloadExactly(cids: seq<Cid>, raw: seq<RawNode>, positions: map<Cid, nat>, b: Bytes)
    requires RecordPayload.Positions(raw, positions)
    ensures RecordPayload.RecordBytes(cids, raw, positions) == Some(b)
            <==>
            && (forall cid <- cids :: cid in positions)
            && exists order :: Contributing(cids, positions, order) && Written(b, raw, order)
  {
    hide Contributing, RecordPayload.Indexes, Lays, RecordPayload.PrintContents, RecordPayload.U32,
         RecordPayload.Magic, RecordPayload.Fits;
    if forall cid <- cids :: cid in positions {
      var order := RecordPayload.Indexes(cids, positions);
      forall other
        ensures Contributing(cids, positions, other) <==> other == order
      {
        OneOrder(cids, positions, other);
      }
      RecordPayload.IndexesExact(cids, positions);
      assert forall i <- order :: i in ToSet(order);
      WrittenExactly(raw, order, b);
    }
  }

  lemma WrittenExactly(raw: seq<RawNode>, order: seq<int>, b: Bytes)
    requires forall i <- order :: 0 <= i < |raw|
    ensures RecordPayload.Payload(RecordPayload.ContentsAt(raw, order)) == Some(b) <==> Written(b, raw, order)
  {
    hide Lays, RecordPayload.PrintContents, RecordPayload.U32, RecordPayload.Magic, RecordPayload.Fits;
    var cs := RecordPayload.ContentsAt(raw, order);
    MagicLength();
    if |b| >= 36 {
      NameExactly(b);
      U32Exactly(|order|, b[32], b[33], b[34], b[35]);
      LaysExactly(b[36..], raw, order);
      assert b == b[..32] + ([b[32], b[33], b[34], b[35]] + b[36..]);
    }
    if RecordPayload.Payload(cs) == Some(b) {
      var body := RecordPayload.PrintContents(cs);
      assert b == RecordPayload.Magic() + (RecordPayload.U32(|cs|) + body);
      assert b[..32] == RecordPayload.Magic() && b[32..36] == RecordPayload.U32(|cs|) && b[36..] == body;
      assert b[32..36] == [b[32], b[33], b[34], b[35]];
    }
  }

  lemma MagicLength()
    ensures |RecordPayload.Magic()| == 32
  {
  }
}
