/**
 * One shard of the alert index over its whole life: replaced as a whole or token by token, and
 * asked for the alerts a tick triggers.
 */
module AlertShard {
  import opened Ordering
  import opened ThresholdIndex

  /** The changes every shard is told about. */
  datatype Update =
    | All(alerts: seq<Alert>)
    | Token(token: string, alerts: seq<Alert>)

  function OfToken(token: string): Alert -> bool { (a: Alert) => a.token == token }

  function OfOthers(token: string): Alert -> bool { (a: Alert) => a.token != token }

  /** The current alerts of all tokens, without any index or shard. */
  function Table(updates: seq<Update>): seq<Alert> {
    if updates == [] then []
    else
      match updates[|updates| - 1]
      case All(alerts) => alerts
      case Token(token, alerts) => Filter(Table(updates[..|updates| - 1]), OfOthers(token)) + alerts
  }

  /** The alerts a shard that owns the tokens of `owns` keeps under one token. */
  function Held(updates: seq<Update>, owns: string -> bool, token: string): seq<Alert> {
    if updates == [] || !owns(token) then []
    else
      match updates[|updates| - 1]
      case All(alerts) => Filter(alerts, OfToken(token))
      case Token(changed, alerts) => if changed == token then alerts else Held(updates[..|updates| - 1], owns, token)
  }

  /** Every replacement of one token brings alerts of that token only. */
  ghost predicate OwnAlertsOnly(updates: seq<Update>) {
    forall i :: 0 <= i < |updates| && updates[i].Token? ==> forall a <- updates[i].alerts :: a.token == updates[i].token
  }

  lemma {:induction false} FilterConcat<T>(s: seq<T>, t: seq<T>, p: T -> bool)
    ensures Filter(s + t, p) == Filter(s, p) + Filter(t, p)
  {
    if t == [] {
      assert s + t == s;
    } else {
      FilterConcat(s, t[..|t| - 1], p);
      assert (s + t)[..|s + t| - 1] == s + t[..|t| - 1];
    }
  }

  lemma {:induction false} FilterOnly<T>(s: seq<T>, p: T -> bool)
    ensures (forall x <- s :: p(x)) ==> Filter(s, p) == s
    ensures (forall x <- s :: !p(x)) ==> Filter(s, p) == []
  {
    if s != [] {
      FilterOnly(s[..|s| - 1], p);
      assert s == s[..|s| - 1] + [s[|s| - 1]];
      assert s[|s| - 1] in s;
    }
  }

  lemma {:induction false} FilterTwice<T>(s: seq<T>, p: T -> bool, q: T -> bool, both: T -> bool)
    requires forall x :: both(x) <==> p(x) && q(x)
    ensures Filter(Filter(s, p), q) == Filter(s, both)
  {
    if s != [] {
      var front := s[..|s| - 1];
      FilterTwice(front, p, q, both);
      FilterAppend(Filter(front, p), s[|s| - 1], q);
      assert !p(s[|s| - 1]) ==> Filter(s, p) == Filter(front, p);
    }
  }

  /** What a shard keeps under a token it owns is that token's part of the table. */
  lemma {:induction false} HeldIsTable(updates: seq<Update>, owns: string -> bool, token: string)
    requires OwnAlertsOnly(updates) && owns(token)
    ensures Held(updates, owns, token) == Filter(Table(updates), OfToken(token))
  {
    if updates != [] && updates[|updates| - 1].Token? {
      var front := updates[..|updates| - 1];
      var changed, alerts := updates[|updates| - 1].token, updates[|updates| - 1].alerts;
      HeldIsTable(front, owns, token);
      FilterConcat(Filter(Table(front), OfOthers(changed)), alerts, OfToken(token));
      FilterOnly(alerts, OfToken(token));
      if changed == token {
        FilterTwice(Table(front), OfOthers(token), OfToken(token), Never);
        FilterOnly(Table(front), Never);
      } else {
        FilterTwice(Table(front), OfOthers(changed), OfToken(token), OfToken(token));
      }
    }
  }

  predicate Never(a: Alert) { false }

  // ---------------------------------------------------------------------------------
  // Sharding

  /** The first four bytes of the token's digest, taken modulo the number of shards. */
  function ShardFor(digest: string -> nat, shardCount: nat, token: string): (shard: nat)
    requires shardCount > 0
    ensures shard < shardCount
  {
    digest(token) % shardCount
  }

  function OwnedBy(digest: string -> nat, shardCount: nat, shardId: nat): string -> bool
    requires shardCount > 0
  {
    (token: string) => ShardFor(digest, shardCount, token) == shardId
  }

  function Answer(updates: seq<Update>, owns: string -> bool, tick: Tick): seq<Alert> {
    Filter(Held(updates, owns, tick.token), Hit(tick))
  }

  /** The linear answer over the whole table. */
  function Unsharded(updates: seq<Update>, tick: Tick): seq<Alert> {
    Filter(Filter(Table(updates), OfToken(tick.token)), Hit(tick))
  }

  /** The answers of the shards below n, one after another. */
  function Together(updates: seq<Update>, digest: string -> nat, shardCount: nat, tick: Tick, n: nat): seq<Alert>
    requires shardCount > 0
  {
    if n == 0 then []
    else Together(updates, digest, shardCount, tick, n - 1) + Answer(updates, OwnedBy(digest, shardCount, n - 1), tick)
  }

  /** Every alert of the table that fires on the tick of its token, as often as it is there, and no other. */
  ghost predicate FiredOf(matched: seq<Alert>, updates: seq<Update>, tick: Tick) {
    forall a :: multiset(matched)[a] ==
                if a.token == tick.token && Fires(a, tick) then multiset(Table(updates))[a] else 0
  }

  lemma UnshardedMeans(updates: seq<Update>, tick: Tick)
    ensures FiredOf(Unsharded(updates, tick), updates, tick)
  {
    hide Table, Filter, Hit, Fires;
    FiresExactly(tick);
    FilterCounts(Table(updates), OfToken(tick.token));
    FilterCounts(Filter(Table(updates), OfToken(tick.token)), Hit(tick));
  }

  /** At most one shard answers, and all shards together answer what one unsharded scan would. */
  lemma {:induction false} ShardsAnswerOnce(updates: seq<Update>, digest: string -> nat, shardCount: nat, tick: Tick,
                                            n: nat)
    requires shardCount > 0 && OwnAlertsOnly(updates)
    ensures forall k :: 0 <= k < n && k != digest(tick.token) % shardCount ==>
                          Answer(updates, OwnedBy(digest, shardCount, k), tick) == []
    ensures Together(updates, digest, shardCount, tick, n) ==
            if ShardFor(digest, shardCount, tick.token) < n then Unsharded(updates, tick) else []
    ensures n == shardCount ==> FiredOf(Together(updates, digest, shardCount, tick, n), updates, tick)
  {
    hide Answer, Unsharded, OwnedBy, FiredOf;
    UnshardedMeans(updates, tick);
    if n > 0 {
      ShardsAnswerOnce(updates, digest, shardCount, tick, n - 1);
      OneAnswer(updates, digest, shardCount, tick, n - 1);
    }
  }

  lemma OneAnswer(updates: seq<Update>, digest: string -> nat, shardCount: nat, tick: Tick, k: nat)
    requires shardCount > 0 && OwnAlertsOnly(updates)
    ensures Answer(updates, OwnedBy(digest, shardCount, k), tick) ==
            if k == ShardFor(digest, shardCount, tick.token) then Unsharded(updates, tick) else []
  {
    hide Table, OwnAlertsOnly;
    var owns := OwnedBy(digest, shardCount, k);
    if owns(tick.token) {
      HeldIsTable(updates, owns, tick.token);
    } else {
      assert Held(updates, owns, tick.token) == [];
    }
  }

  lemma SameFired(updates: seq<Update>, tick: Tick)
    ensures forall x, y :: multiset(x) == multiset(y) && FiredOf(x, updates, tick) ==> FiredOf(y, updates, tick)
  {
  }

  // ---------------------------------------------------------------------------------
  // The index of one shard

  class AlertIndex {
    var tokens: map<string, TokenIndex>
    const shardId: nat
    const shardCount: nat
    const digest: string -> nat
    ghost var updates: seq<Update>

    ghost predicate Valid()
      reads this
    {
      && shardCount > 0
      && (forall t :: t in tokens ==> Indexes(tokens[t], Held(updates, OwnedBy(digest, shardCount, shardId), t)))
      && (forall t :: t !in tokens ==> Held(updates, OwnedBy(digest, shardCount, shardId), t) == [])
    }

    constructor (digest: string -> nat, shardId: nat, shardCount: nat)
      requires shardCount > 0
      ensures Valid() && updates == []
      ensures this.digest == digest && this.shardId == shardId && this.shardCount == shardCount
    {
      this.digest, this.shardId, this.shardCount := digest, shardId, shardCount;
      tokens := map[];
      updates := [];
    }

    method ReplaceAll(alerts: seq<Alert>)
      requires Valid()
      modifies this
      ensures Valid() && updates == old(updates) + [All(alerts)]
    {
      hide Indexes, Filter;
      var grouped := GroupByToken(alerts, digest, shardCount, shardId);
      var built := BuildAll(grouped);
      tokens := built;
      updates := updates + [All(alerts)];
    }

    method ReplaceToken(token: string, alerts: seq<Alert>)
      requires Valid()
      modifies this
      ensures Valid() && updates == old(updates) + [Token(token, alerts)]
    {
      hide Indexes;
      if ShardFor(digest, shardCount, token) != shardId || alerts == [] {
        tokens := tokens - {token};
      } else {
        var index := Build(alerts);
        tokens := tokens[token := index];
      }
      updates := updates + [Token(token, alerts)];
      assert updates[..|updates| - 1] == old(updates);
    }

    /** The triggered alerts of the tick's token, each as often as the linear scan finds it. */
    method Candidates(tick: Tick) returns (matched: seq<Alert>)
      requires Valid()
      ensures multiset(matched) == multiset(Answer(updates, OwnedBy(digest, shardCount, shardId), tick))
      ensures digest(tick.token) % shardCount != shardId ==> matched == []
      ensures digest(tick.token) % shardCount == shardId && OwnAlertsOnly(updates) ==> FiredOf(matched, updates, tick)
    {
      hide Indexes, FiredOf;
      UnshardedMeans(updates, tick);
      if OwnAlertsOnly(updates) { OneAnswer(updates, digest, shardCount, tick, shardId); }
      SameFired(updates, tick);
      if ShardFor(digest, shardCount, tick.token) != shardId || tick.token !in tokens {
        return [];
      }
      matched := ThresholdIndex.Candidates(tokens[tick.token], tick,
                                           Held(updates, OwnedBy(digest, shardCount, shardId), tick.token));
    }
  }

  /** The alerts of the tokens one shard owns, by token. */
  method GroupByToken(alerts: seq<Alert>, digest: string -> nat, shardCount: nat, shardId: nat)
    returns (grouped: map<string, seq<Alert>>)
    requires shardCount > 0
    ensures forall t :: t in grouped ==> ShardFor(digest, shardCount, t) == shardId
    ensures forall t :: ShardFor(digest, shardCount, t) == shardId ==>
                          Filter(alerts, OfToken(t)) == if t in grouped then grouped[t] else []
  {
    hide Filter, ShardFor;
    grouped := map[];
    NothingOf();
    for i := 0 to |alerts|
      invariant forall t :: t in grouped ==> ShardFor(digest, shardCount, t) == shardId
      invariant forall t :: ShardFor(digest, shardCount, t) == shardId ==>
                              Filter(alerts[..i], OfToken(t)) == if t in grouped then grouped[t] else []
    {
      var alert := alerts[i];
      assert alerts[..i + 1] == alerts[..i] + [alert];
      forall t
        ensures Filter(alerts[..i + 1], OfToken(t)) ==
                Filter(alerts[..i], OfToken(t)) + (if alert.token == t then [alert] else [])
      {
        FilterAppend(alerts[..i], alert, OfToken(t));
      }
      if ShardFor(digest, shardCount, alert.token) == shardId {
        var group := if alert.token in grouped then grouped[alert.token] else [];
        grouped := grouped[alert.token := group + [alert]];
      }
    }
    assert alerts[..|alerts|] == alerts;
  }

  lemma NothingOf()
    ensures forall t :: Filter([], OfToken(t)) == []
  {
  }

  /** Every group of alerts, indexed. */
  method BuildAll(grouped: map<string, seq<Alert>>) returns (tokens: map<string, TokenIndex>)
    ensures tokens.Keys == grouped.Keys
    ensures forall t :: t in grouped ==> Indexes(tokens[t], grouped[t])
  {
    hide Indexes;
    tokens := map[];
    var rest := grouped.Keys;
    while rest != {}
      invariant rest <= grouped.Keys && tokens.Keys == grouped.Keys - rest
      invariant forall t :: t in tokens ==> Indexes(tokens[t], grouped[t])
      decreases |rest|
    {
      var t :| t in rest;
      rest := rest - {t};
      var index := Build(grouped[t]);
      tokens := tokens[t := index];
    }
  }
}
