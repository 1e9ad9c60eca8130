/**
 * Reassembly of a payload from its root dataframe and the continuation frames it links to by
 * CID. The link graph comes from the archive and may contain cycles.
 */
module DataFrames {
  import opened Common

  type u64 = n: nat | n < U64_LIMIT

  type Cid = Bytes

  const MAX_FRAME_DATA: nat := 16 * 1024 * 1024

  datatype Frame = Frame(hash: Option<u64>, index: Option<u64>, total: Option<u64>, data: Bytes, next: seq<Cid>)

  datatype Entry = Entry(hash: Bytes, transactions: seq<Cid>)

  datatype ArchiveTx = ArchiveTx(data: Frame, metadata: Frame, slot: u64, index: Option<u64>)

  datatype Block = Block(slot: u64, entries: seq<Cid>, parentSlot: u64, blockTime: u64, rewards: Cid)

  datatype Node =
    | TransactionNode(tx: ArchiveTx)
    | EntryNode(entry: Entry)
    | BlockNode(block: Block)
    | RewardsNode(slot: u64, rewards: Frame)
    | DataFrameNode(frame: Frame)
    | OtherNode(kind: u64)

  datatype FrameError =
    | InvalidFrame | Cycle | NotADataframe | MissingContinuation | MetadataDiffers
    | IndexOverflow | IndexGap | UnexpectedIndex | TooLarge | Ambiguous | Incomplete | ChecksumMismatch

  datatype Assembled = Assembled(data: Bytes, cids: seq<Cid>)

  /** The two checksums a frame hash may be; their values are left open. */
  datatype Checksums = Checksums(crc64: Bytes -> u64, fnv64: Bytes -> u64)

  predicate FrameValid(f: Frame) {
    match (f.index, f.total)
    case (Some(index), Some(total)) => total > 0 && index < total
    case (None, None) => true
    case _ => false
  }

  // ---------------------------------------------------------------------------------
  // What a list of continuations must be, without reference to how it is found

  ghost predicate IsFrame(nodes: map<Cid, Node>, cid: Cid) {
    cid in nodes && nodes[cid].DataFrameNode?
  }

  ghost function FrameAt(nodes: map<Cid, Node>, cid: Cid): Frame
    requires IsFrame(nodes, cid)
  {
    nodes[cid].frame
  }

  /**
   * From the frames linked by next, cids is everything reached: each batch of links is listed in
   * order, and only the last frame of a batch may link further.
   */
  ghost predicate Reached(nodes: map<Cid, Node>, next: seq<Cid>, cids: seq<Cid>)
    decreases |cids|
  {
    if next == [] then cids == []
    else
      && |next| <= |cids| && cids[..|next|] == next
      && (forall cid <- next :: IsFrame(nodes, cid))
      && (forall k :: 0 <= k < |next| - 1 ==> FrameAt(nodes, next[k]).next == [])
      && Reached(nodes, FrameAt(nodes, next[|next| - 1]).next, cids[|next|..])
  }

  /** A continuation belongs to the root's chain at the given position. */
  ghost predicate Continues(nodes: map<Cid, Node>, root: Frame, cid: Cid, position: nat) {
    && IsFrame(nodes, cid)
    && FrameValid(FrameAt(nodes, cid))
    && FrameAt(nodes, cid).total == root.total
    && FrameAt(nodes, cid).hash == root.hash
    && (if root.index.Some? then
          FrameAt(nodes, cid).index.Some? && FrameAt(nodes, cid).index.value == root.index.value + 1 + position
        else FrameAt(nodes, cid).index.None?)
  }

  ghost function Joined(nodes: map<Cid, Node>, root: Frame, cids: seq<Cid>): Bytes
    requires forall cid <- cids :: IsFrame(nodes, cid)
  {
    if cids == [] then root.data
    else Joined(nodes, root, cids[..|cids| - 1]) + FrameAt(nodes, cids[|cids| - 1]).data
  }

  ghost predicate HashMatches(root: Frame, data: Bytes, sums: Checksums) {
    root.hash.None? || root.hash.value == sums.crc64(data) || root.hash.value == sums.fnv64(data)
  }

  /** cids is a complete, acyclic, well-numbered and intact continuation of root. */
  ghost predicate Continuation(nodes: map<Cid, Node>, root: Frame, cids: seq<Cid>, sums: Checksums) {
    && FrameValid(root)
    && NoDup(cids)
    && Reached(nodes, root.next, cids)
    && (forall k :: 0 <= k < |cids| ==> Continues(nodes, root, cids[k], k))
    && (cids != [] ==> |Joined(nodes, root, cids)| <= MAX_FRAME_DATA)
    && (root.index.Some? && root.total.Some? ==> |cids| == root.total.value - 1 - root.index.value)
    && HashMatches(root, Joined(nodes, root, cids), sums)
  }

  // ---------------------------------------------------------------------------------
  // Facts the assembly loop relies on

  /** The links determine everything reached. */
  lemma {:induction false} ReachedUnique(nodes: map<Cid, Node>, next: seq<Cid>, a: seq<Cid>, b: seq<Cid>)
    requires Reached(nodes, next, a) && Reached(nodes, next, b)
    ensures a == b
    decreases |a|
  {
    if next != [] {
      ReachedUnique(nodes, FrameAt(nodes, next[|next| - 1]).next, a[|next|..], b[|next|..]);
      assert a == a[..|next|] + a[|next|..] && b == b[..|next|] + b[|next|..];
    }
  }

  /** A root has at most one continuation. */
  lemma ContinuationUnique(nodes: map<Cid, Node>, root: Frame, a: seq<Cid>, b: seq<Cid>, sums: Checksums)
    requires Continuation(nodes, root, a, sums) && Continuation(nodes, root, b, sums)
    ensures a == b
  {
    ReachedUnique(nodes, root.next, a, b);
  }

  lemma {:induction false} JoinedPrefix(nodes: map<Cid, Node>, root: Frame, cids: seq<Cid>, n: nat)
    requires n <= |cids| && forall cid <- cids :: IsFrame(nodes, cid)
    ensures |Joined(nodes, root, cids[..n])| <= |Joined(nodes, root, cids)|
    decreases |cids|
  {
    if n < |cids| {
      assert cids[..|cids| - 1][..n] == cids[..n];
      JoinedPrefix(nodes, root, cids[..|cids| - 1], n);
    } else {
      assert cids[..n] == cids;
    }
  }

  lemma AppendedFrame(nodes: map<Cid, Node>, root: Frame, done: seq<Cid>, cid: Cid)
    requires forall c <- done + [cid] :: IsFrame(nodes, c)
    ensures Joined(nodes, root, done + [cid]) == Joined(nodes, root, done) + FrameAt(nodes, cid).data
  {
    assert (done + [cid])[..|done|] == done;
  }

  // ---------------------------------------------------------------------------------
  // The assembly loop

  /** The continuations accepted so far, and what the loop variables hold about them. */
  ghost predicate Progress(nodes: map<Cid, Node>, root: Frame, cids: seq<Cid>, seen: set<Cid>, data: Bytes,
                           expectedIndex: Option<u64>) {
    Chain(nodes, root, cids, seen) && Carried(nodes, root, cids, data, expectedIndex)
  }

  ghost predicate Chain(nodes: map<Cid, Node>, root: Frame, cids: seq<Cid>, seen: set<Cid>) {
    && FrameValid(root)
    && ToSet(cids) == seen <= nodes.Keys
    && NoDup(cids)
    && (forall k :: 0 <= k < |cids| ==> Continues(nodes, root, cids[k], k))
  }

  ghost predicate Carried(nodes: map<Cid, Node>, root: Frame, cids: seq<Cid>, data: Bytes, expectedIndex: Option<u64>) {
    && FrameValid(root) && (forall cid <- cids :: IsFrame(nodes, cid))
    && data == Joined(nodes, root, cids)
    && (cids != [] ==> |data| <= MAX_FRAME_DATA)
    && (if root.index.Some? then
          expectedIndex.Some? && expectedIndex.value == root.index.value + |cids| < root.total.value
        else expectedIndex.None?)
  }

  /** Accepting one more frame keeps the progress. */
  lemma Progresses(nodes: map<Cid, Node>, root: Frame, cids: seq<Cid>, seen: set<Cid>, data: Bytes,
                   expectedIndex: Option<u64>, cid: Cid, newIndex: Option<u64>)
    requires Progress(nodes, root, cids, seen, data, expectedIndex)
    requires cid !in seen && Continues(nodes, root, cid, |cids|)
    requires |data| + |FrameAt(nodes, cid).data| <= MAX_FRAME_DATA
    requires if root.index.Some? then newIndex.Some? && newIndex.value == expectedIndex.value + 1 else newIndex.None?
    ensures Progress(nodes, root, cids + [cid], seen + {cid}, data + FrameAt(nodes, cid).data, newIndex)
  {
    AppendedFrame(nodes, root, cids, cid);
    ToSetAppend(cids, cid);
    assert cid !in cids;
  }

  /** Any continuation starts with what is accepted, followed by the rest of the batch. */
  lemma Committed(nodes: map<Cid, Node>, root: Frame, before: seq<Cid>, next: seq<Cid>, position: nat,
                  all: seq<Cid>, sums: Checksums)
    requires Continuation(nodes, root, all, sums)
    requires before <= all && Reached(nodes, next, all[|before|..])
    requires position < |next|
    ensures |before| + |next| <= |all|
    ensures forall k :: 0 <= k < |before| + |next| ==> all[k] == (before + next)[k]
    ensures Continues(nodes, root, next[position], |before| + position)
    ensures next[position] !in before + next[..position]
    ensures position + 1 < |next| ==> FrameAt(nodes, next[position]).next == []
    ensures forall c <- before + next[..position] :: IsFrame(nodes, c)
    ensures |Joined(nodes, root, before + next[..position])| + |FrameAt(nodes, next[position]).data| <= MAX_FRAME_DATA
  {
    hide Joined, Continues, FrameValid, HashMatches, Reached;
    var done, n := before + next[..position], |before| + position;
    OnTheWay(nodes, before, next, all);
    assert all[|before|..][..|next|] == next;
    assert forall k :: 0 <= k < |next| ==> all[|before| + k] == all[|before|..][k] == next[k];
    assert all[n] == next[position];
    forall k | 0 <= k < n
      ensures done[k] != next[position] && done[k] == all[k]
    {
      assert done[k] == all[k];
    }
    assert Continues(nodes, root, all[n], n);
    AllFrames(nodes, root, all);
    JoinedPrefix(nodes, root, all, n + 1);
    assert all[..n + 1] == done + [next[position]];
    AppendedFrame(nodes, root, done, next[position]);
  }

  /** The next batch is among what is still to come, and only its last frame links on. */
  lemma OnTheWay(nodes: map<Cid, Node>, before: seq<Cid>, next: seq<Cid>, all: seq<Cid>)
    requires before <= all && Reached(nodes, next, all[|before|..])
    ensures |before| + |next| <= |all| && all[|before|..][..|next|] == next
    ensures forall k :: 0 <= k < |next| ==> IsFrame(nodes, next[k])
    ensures forall k :: 0 <= k < |next| - 1 ==> FrameAt(nodes, next[k]).next == []
  {
  }

  lemma AllFrames(nodes: map<Cid, Node>, root: Frame, cids: seq<Cid>)
    requires forall k :: 0 <= k < |cids| ==> Continues(nodes, root, cids[k], k)
    ensures forall cid <- cids :: IsFrame(nodes, cid)
  {
  }

  /** No continuation survives a frame that fails a check of the loop. */
  lemma Refused(nodes: map<Cid, Node>, root: Frame, before: seq<Cid>, next: seq<Cid>, position: nat,
                seen: set<Cid>, data: Bytes, expectedIndex: Option<u64>, sums: Checksums)
    requires position < |next|
    requires Progress(nodes, root, before + next[..position], seen, data, expectedIndex)
    requires forall all :: Continuation(nodes, root, all, sums) ==>
               before <= all && Reached(nodes, next, all[|before|..])
    requires
      var cid := next[position];
      || cid in seen
      || !Continues(nodes, root, cid, |before| + position)
      || |data| + |FrameAt(nodes, cid).data| > MAX_FRAME_DATA
      || (position + 1 < |next| && FrameAt(nodes, cid).next != [])
    ensures forall all :: !Continuation(nodes, root, all, sums)
  {
    forall all | Continuation(nodes, root, all, sums)
      ensures false
    {
      Committed(nodes, root, before, next, position, all, sums);
    }
  }

  /** Moving to the links of the last frame of a finished batch. */
  lemma NextBatch(nodes: map<Cid, Node>, before: seq<Cid>, next: seq<Cid>, following: seq<Cid>, all: seq<Cid>)
    requires next != [] && before <= all && Reached(nodes, next, all[|before|..])
    requires IsFrame(nodes, next[|next| - 1]) && following == FrameAt(nodes, next[|next| - 1]).next
    ensures before + next <= all && Reached(nodes, following, all[|before + next|..])
  {
    var rest := all[|before|..];
    assert all == before + rest && rest == next + rest[|next|..];
    assert all[|before + next|..] == rest[|next|..];
  }

  /** What is reached from a batch continues what was reached before it. */
  lemma Reaches(nodes: map<Cid, Node>, start: seq<Cid>, before: seq<Cid>, next: seq<Cid>, following: seq<Cid>,
                rest: seq<Cid>)
    requires next != [] && forall r :: Reached(nodes, next, r) ==> Reached(nodes, start, before + r)
    requires forall cid <- next :: IsFrame(nodes, cid)
    requires forall k :: 0 <= k < |next| - 1 ==> FrameAt(nodes, next[k]).next == []
    requires following == FrameAt(nodes, next[|next| - 1]).next && Reached(nodes, following, rest)
    ensures Reached(nodes, start, (before + next) + rest)
  {
    assert (next + rest)[|next|..] == rest && (next + rest)[..|next|] == next;
    assert Reached(nodes, next, next + rest);
    assert before + (next + rest) == (before + next) + rest;
  }

  /** The checks on one linked CID, in the source's order, and the index expected after it. */
  method CheckFrame(nodes: map<Cid, Node>, root: Frame, cid: Cid, length: nat, expectedIndex: Option<u64>,
                    ghost position: nat)
    returns (r: Result<Frame, FrameError>, newIndex: Option<u64>)
    requires FrameValid(root)
    requires if root.index.Some? then
               expectedIndex.Some? && expectedIndex.value == root.index.value + position < root.total.value
             else expectedIndex.None?
    ensures r.Ok? ==>
              Continues(nodes, root, cid, position) && IsFrame(nodes, cid) && r.value == FrameAt(nodes, cid)
              && length + |r.value.data| <= MAX_FRAME_DATA
    ensures r.Ok? ==>
              if root.index.Some? then newIndex.Some? && newIndex.value == expectedIndex.value + 1 else newIndex.None?
    ensures r.Err? ==> Continues(nodes, root, cid, position) ==> length + |FrameAt(nodes, cid).data| > MAX_FRAME_DATA
  {
    newIndex := None;
    if cid !in nodes {
      return Err(MissingContinuation), None;
    }
    if !nodes[cid].DataFrameNode? {
      return Err(NotADataframe), None;
    }
    var frame := nodes[cid].frame;
    if !FrameValid(frame) {
      return Err(InvalidFrame), None;
    }
    if frame.total != root.total || frame.hash != root.hash {
      return Err(MetadataDiffers), None;
    }
    if expectedIndex.Some? {
      if expectedIndex.value + 1 >= U64_LIMIT {
        return Err(IndexOverflow), None;
      }
      newIndex := Some(expectedIndex.value + 1);
      if frame.index != newIndex {
        return Err(IndexGap), None;
      }
    } else if frame.index.Some? {
      return Err(UnexpectedIndex), None;
    }
    if length + |frame.data| > MAX_FRAME_DATA {
      return Err(TooLarge), None;
    }
    r := Ok(frame);
  }

  /** One round of the outer loop: every frame of a batch, in order. */
  method AssembleBatch(nodes: map<Cid, Node>, root: Frame, next: seq<Cid>, before: seq<Cid>, seenBefore: set<Cid>,
                       dataBefore: Bytes, indexBefore: Option<u64>, ghost sums: Checksums)
    returns (r: Result<seq<Cid>, FrameError>, cids: seq<Cid>, seen: set<Cid>, data: Bytes, expectedIndex: Option<u64>)
    requires next != []
    requires Progress(nodes, root, before, seenBefore, dataBefore, indexBefore)
    requires forall all :: Continuation(nodes, root, all, sums) ==>
               before <= all && Reached(nodes, next, all[|before|..])
    ensures r.Err? ==> forall all :: !Continuation(nodes, root, all, sums)
    ensures r.Ok? ==>
              cids == before + next && seenBefore < seen && Progress(nodes, root, cids, seen, data, expectedIndex)
    ensures r.Ok? ==> forall cid <- next :: IsFrame(nodes, cid)
    ensures r.Ok? ==> forall k :: 0 <= k < |next| - 1 ==> FrameAt(nodes, next[k]).next == []
    ensures r.Ok? ==> r.value == FrameAt(nodes, next[|next| - 1]).next
  {
    hide Continuation, Reached, Joined, Continues;
    cids, seen, data, expectedIndex := before, seenBefore, dataBefore, indexBefore;
    var following: seq<Cid> := [];
    var position := 0;
    assert before + next[..0] == before;
    while position < |next|
      invariant 0 <= position <= |next|
      invariant cids == before + next[..position]
      invariant if position == 0 then seenBefore == seen else seenBefore < seen
      invariant Progress(nodes, root, cids, seen, data, expectedIndex)
      invariant forall k :: 0 <= k < position ==> IsFrame(nodes, next[k])
      invariant forall k :: 0 <= k < position && k + 1 < |next| ==> FrameAt(nodes, next[k]).next == []
      invariant following == if position == |next| then FrameAt(nodes, next[|next| - 1]).next else []
    {
      var cid := next[position];
      if cid in seen {
        Refused(nodes, root, before, next, position, seen, data, expectedIndex, sums);
        return Err(Cycle), cids, seen, data, expectedIndex;
      }
      var checked, newIndex := CheckFrame(nodes, root, cid, |data|, expectedIndex, |cids|);
      if checked.Err? {
        Refused(nodes, root, before, next, position, seen, data, expectedIndex, sums);
        return Err(checked.error), cids, seen, data, expectedIndex;
      }
      var frame := checked.value;
      if frame.next != [] {
        if position + 1 != |next| {
          Refused(nodes, root, before, next, position, seen, data, expectedIndex, sums);
          return Err(Ambiguous), cids, seen, data, expectedIndex;
        }
        following := frame.next;
      }
      Progresses(nodes, root, cids, seen, data, expectedIndex, cid, newIndex);
      assert cids + [cid] == before + next[..position + 1];
      seen, data, cids, expectedIndex := seen + {cid}, data + frame.data, cids + [cid], newIndex;
      position := position + 1;
    }
    assert next[..position] == next;
    r := Ok(following);
  }

  /** Between rounds: any continuation goes on from here, and what is reached from here completes one. */
  ghost predicate Pending(nodes: map<Cid, Node>, root: Frame, cids: seq<Cid>, next: seq<Cid>, sums: Checksums) {
    && (forall all :: Continuation(nodes, root, all, sums) ==> cids <= all && Reached(nodes, next, all[|cids|..]))
    && (forall rest :: Reached(nodes, next, rest) ==> Reached(nodes, root.next, cids + rest))
  }

  lemma PendingRoot(nodes: map<Cid, Node>, root: Frame, sums: Checksums)
    ensures FrameValid(root) ==> Progress(nodes, root, [], {}, root.data, root.index)
    ensures Pending(nodes, root, [], root.next, sums)
    ensures !FrameValid(root) ==> forall all :: !Continuation(nodes, root, all, sums)
  {
    assert forall rest: seq<Cid> :: [] + rest == rest;
  }

  lemma PendingBatch(nodes: map<Cid, Node>, root: Frame, before: seq<Cid>, next: seq<Cid>, following: seq<Cid>,
                     sums: Checksums)
    requires next != [] && Pending(nodes, root, before, next, sums)
    requires forall cid <- next :: IsFrame(nodes, cid)
    requires forall k :: 0 <= k < |next| - 1 ==> FrameAt(nodes, next[k]).next == []
    requires following == FrameAt(nodes, next[|next| - 1]).next
    ensures Pending(nodes, root, before + next, following, sums)
  {
    forall all | Continuation(nodes, root, all, sums)
      ensures before + next <= all && Reached(nodes, following, all[|before + next|..])
    {
      NextBatch(nodes, before, next, following, all);
    }
    forall rest | Reached(nodes, following, rest)
      ensures Reached(nodes, root.next, (before + next) + rest)
    {
      Reaches(nodes, root.next, before, next, following, rest);
    }
  }

  lemma PendingNothing(nodes: map<Cid, Node>, root: Frame, cids: seq<Cid>, seen: set<Cid>, data: Bytes,
                       expectedIndex: Option<u64>, sums: Checksums)
    requires Progress(nodes, root, cids, seen, data, expectedIndex) && Pending(nodes, root, cids, [], sums)
    ensures data == Joined(nodes, root, cids)
    ensures Continuation(nodes, root, cids, sums) <==>
            (expectedIndex.Some? && root.total.Some? ==> expectedIndex.value + 1 == root.total.value)
            && HashMatches(root, data, sums)
    ensures forall all :: Continuation(nodes, root, all, sums) ==> all == cids
  {
    assert cids + [] == cids && Reached(nodes, [], []);
  }

  /**
   * Assembly succeeds exactly when the root has a continuation, and then returns it with the
   * joined data. It ends on every node map, cyclic ones included: each round of the outer loop
   * marks at least one more CID of the map as seen.
   */
  method AssembleFrame(root: Frame, nodes: map<Cid, Node>, sums: Checksums) returns (r: Result<Assembled, FrameError>)
    ensures r.Ok? ==> Continuation(nodes, root, r.value.cids, sums) && r.value.data == Joined(nodes, root, r.value.cids)
    ensures r.Err? ==> forall cids :: !Continuation(nodes, root, cids, sums)
  {
    hide Continuation, Joined, FrameValid, Continues, Reached;
    PendingRoot(nodes, root, sums);
    if !FrameValid(root) {
      return Err(InvalidFrame);
    }
    var data: Bytes, cids: seq<Cid>, seen: set<Cid> := root.data, [], {};
    var next: seq<Cid>, expectedIndex: Option<u64> := root.next, root.index;
    while next != []
      invariant Progress(nodes, root, cids, seen, data, expectedIndex)
      invariant Pending(nodes, root, cids, next, sums)
      decreases nodes.Keys - seen
    {
      ghost var before, seenBefore := cids, seen;
      var batch;
      batch, cids, seen, data, expectedIndex := AssembleBatch(nodes, root, next, cids, seen, data, expectedIndex, sums);
      if batch.Err? {
        return Err(batch.error);
      }
      PendingBatch(nodes, root, before, next, batch.value, sums);
      assert nodes.Keys - seen < nodes.Keys - seenBefore;
      next := batch.value;
    }
    PendingNothing(nodes, root, cids, seen, data, expectedIndex, sums);
    if expectedIndex.Some? && root.total.Some? && expectedIndex.value + 1 != root.total.value {
      return Err(Incomplete);
    }
    if root.hash.Some? && root.hash.value != sums.crc64(data) && root.hash.value != sums.fnv64(data) {
      return Err(ChecksumMismatch);
    }
    return Ok(Assembled(data, cids));
  }
}
