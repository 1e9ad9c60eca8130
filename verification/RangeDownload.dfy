/**
 * Downloading a byte range over a server that may refuse, fail, truncate or over-deliver: the
 * resumable loop, the file it appends to and the meter that bounds what it writes.
 */
module RangeDownload {
  import opened Common

  /** Counts bytes against a ceiling. */
  class ByteMeter {
    var used: nat
    const max: nat

    ghost predicate Valid()
      reads this
    {
      used <= max < U64_LIMIT
    }

    constructor (max: nat)
      requires max < U64_LIMIT
      ensures Valid() && this.max == max && used == 0
    {
      this.max := max;
      used := 0;
    }

    /** Bytes are granted only as a whole, and a refusal charges nothing. */
    method Take(bytes: nat) returns (ok: bool)
      requires Valid()
      modifies this
      ensures Valid()
      ensures ok <==> old(used) + bytes <= max
      ensures used == old(used) + (if ok then bytes else 0)
    {
      var next := used + bytes;
      if next >= U64_LIMIT || next > max {
        return false;
      }
      used := next;
      return true;
    }
  }

  /** The file under construction. */
  class Sink {
    var bytes: Bytes

    constructor ()
      ensures bytes == []
    {
      bytes := [];
    }

    method WriteAll(chunk: Bytes)
      modifies this
      ensures bytes == old(bytes) + chunk
    {
      bytes := bytes + chunk;
    }
  }

  /** An inclusive byte range of a representation of known size (section 14.4 of RFC 9110). */
  datatype ContentRange = ContentRange(first: nat, last: nat, total: nat) {
    predicate Ordered() { first <= last < total }
  }

  /**
   * One answer of the server. The body is the chunks that arrived; whether the stream then ended,
   * broke or timed out makes no difference to the loop.
   */
  datatype Response =
    | Failed
    | Reply(status: nat, contentRange: Option<ContentRange>, contentLength: Option<nat>, chunks: seq<Bytes>)
  {
    predicate Retryable() { Failed? || status == 429 || 500 <= status < 600 }
  }

  datatype DownloadError = EmptyRange | Exhausted | BadStatus | BadRange | BadLength | TooLong | OverBudget

  function Flat(chunks: seq<Bytes>): Bytes {
    if chunks == [] then [] else Flat(chunks[..|chunks| - 1]) + chunks[|chunks| - 1]
  }

  /**
   * Section 15.3.7 of RFC 9110: the body of a partial response holds the bytes its range names.
   * Nothing is assumed about its length, about other responses or about which range is sent.
   */
  ghost predicate Truthful(r: Response, source: Bytes) {
    r.Reply? && r.contentRange.Some? ==>
      var body, first := Flat(r.chunks), r.contentRange.value.first;
      forall i :: 0 <= i < |body| && first + i < |source| ==> body[i] == source[first + i]
  }

  /** No answer, or one of a server that is overloaded or broken. */
  ghost predicate Transient(r: Response) { r.Failed? || r.status == 429 || 500 <= r.status < 600 }

  /** A response the loop does not refuse: transient, or the requested range with at most its bytes. */
  ghost predicate Conforming(r: Response, first: nat, end: nat, total: nat) {
    Transient(r) || (PartialOf(r, first, end, total) && |Flat(r.chunks)| <= end - first)
  }

  /** The range sent back is well formed and the one requested. */
  ghost predicate Asked(r: Response, first: nat, end: nat, total: nat)
    requires r.Reply?
  {
    first < end <= total && r.contentRange == Some(ContentRange(first, end - 1, total))
  }

  ghost predicate PartialOf(r: Response, first: nat, end: nat, total: nat) {
    && r.Reply? && r.status == 206
    && Asked(r, first, end, total)
    && (r.contentLength.Some? ==> r.contentLength.value == end - first)
  }

  /** A response that brings everything still missing. */
  ghost predicate Completes(r: Response, first: nat, end: nat, total: nat) {
    PartialOf(r, first, end, total) && |Flat(r.chunks)| == end - first
  }

  /** How far a response gets: chunk after chunk while the range and the budget leave room. */
  ghost predicate Stops(chunks: seq<Bytes>, missing: nat, budget: int, e: Option<DownloadError>, got: nat) {
    exists n: nat :: StopsAt(chunks, missing, budget, e, got, n)
  }

  ghost predicate StopsAt(chunks: seq<Bytes>, missing: nat, budget: int, e: Option<DownloadError>, got: nat, n: nat) {
    && n <= |chunks| && got == |Flat(chunks[..n])| && got <= missing && got <= budget
    && if n == |chunks| then e.None?
       else if got + |chunks[n]| > missing then e == Some(TooLong)
       else got + |chunks[n]| > budget && e == Some(OverBudget)
  }

  /** What becomes of a response: the first check it fails, or as much of its body as there is room for. */
  ghost predicate Outcome(r: Response, at: nat, end: nat, total: nat, budget: int, e: Option<DownloadError>, got: nat)
    requires at <= end
  {
    if Transient(r) then e.None? && got == 0
    else if r.status != 206 then e == Some(BadStatus) && got == 0
    else if !Asked(r, at, end, total) then e == Some(BadRange) && got == 0
    else if r.contentLength.Some? && r.contentLength.value != end - at then e == Some(BadLength) && got == 0
    else Stops(r.chunks, end - at, budget, e, got)
  }

  /** The only responses on which each refusal may be given. */
  ghost predicate Refusable(e: DownloadError, r: Response, first: nat, end: nat, total: nat) {
    match e
    case BadStatus => !Transient(r) && r.status != 206
    case BadRange => !Transient(r) && !Asked(r, first, end, total)
    case BadLength => !Transient(r) && r.contentLength.Some? && r.contentLength.value != end - first
    case TooLong => PartialOf(r, first, end, total) && |Flat(r.chunks)| > end - first
    case _ => true
  }

  lemma {:induction false} FlatPrefix(chunks: seq<Bytes>, n: nat)
    requires n <= |chunks|
    ensures |Flat(chunks[..n])| <= |Flat(chunks)| && Flat(chunks)[..|Flat(chunks[..n])|] == Flat(chunks[..n])
    decreases |chunks|
  {
    if n == |chunks| {
      assert chunks[..n] == chunks;
    } else {
      var front := chunks[..|chunks| - 1];
      assert front[..n] == chunks[..n];
      FlatPrefix(front, n);
    }
  }

  lemma FlatStep(chunks: seq<Bytes>, n: nat)
    requires n < |chunks|
    ensures Flat(chunks[..n + 1]) == Flat(chunks[..n]) + chunks[n]
  {
    assert chunks[..n + 1][..n] == chunks[..n];
  }

  /** The chunks of one body, written and charged one by one until one is refused. */
  method Receive(chunks: seq<Bytes>, missing: nat, file: Sink, meter: ByteMeter)
    returns (e: Option<DownloadError>, got: nat)
    requires meter.Valid()
    modifies file, meter
    ensures meter.Valid()
    ensures got <= missing && got <= |Flat(chunks)| && file.bytes == old(file.bytes) + Flat(chunks)[..got]
    ensures meter.used == old(meter.used) + got
    ensures e.None? ==> got == |Flat(chunks)|
    ensures || e.None?
            || (e == Some(TooLong) && |Flat(chunks)| > missing)
            || (e == Some(OverBudget) && old(meter.used) + missing > meter.max)
    ensures Stops(chunks, missing, meter.max - old(meter.used), e, got)
  {
    got := 0;
    for n := 0 to |chunks|
      invariant meter.Valid() && got == |Flat(chunks[..n])| <= missing
      invariant file.bytes == old(file.bytes) + Flat(chunks[..n])
      invariant meter.used == old(meter.used) + got
    {
      FlatStep(chunks, n);
      FlatPrefix(chunks, n);
      FlatPrefix(chunks, n + 1);
      if |chunks[n]| > missing - got {
        assert StopsAt(chunks, missing, meter.max - old(meter.used), Some(TooLong), got, n);
        return Some(TooLong), got;
      }
      var granted := meter.Take(|chunks[n]|);
      if !granted {
        assert StopsAt(chunks, missing, meter.max - old(meter.used), Some(OverBudget), got, n);
        return Some(OverBudget), got;
      }
      file.WriteAll(chunks[n]);
      got := got + |chunks[n]|;
    }
    assert chunks[..|chunks|] == chunks;
    assert StopsAt(chunks, missing, meter.max - old(meter.used), None, got, |chunks|);
    return None, got;
  }

  /** Request k brings everything still missing, wherever the download stands. */
  ghost predicate AlwaysCompletes(server: (nat, nat) -> Response, k: nat, start: nat, end: nat, total: nat) {
    forall first: nat :: start <= first < end ==> Completes(server(k, first), first, end, total)
  }

  ghost predicate AlwaysConforming(server: (nat, nat) -> Response, start: nat, end: nat, total: nat) {
    forall k: nat, first: nat :: start <= first < end ==> Conforming(server(k, first), first, end, total)
  }

  ghost predicate AlwaysTruthful(server: (nat, nat) -> Response, source: Bytes) {
    forall k: nat, first: nat :: Truthful(server(k, first), source)
  }

  /** The part of the source between two positions, the empty one wherever it starts. */
  function Span(source: Bytes, start: nat, cursor: nat): Bytes
    requires start < cursor ==> cursor <= |source|
  {
    if start < cursor then source[start..cursor] else []
  }

  lemma SpanGrows(source: Bytes, start: nat, at: nat, next: nat)
    requires start <= at <= next && (start < next ==> next <= |source|)
    ensures Span(source, start, next) == Span(source, start, at) + Span(source, at, next)
  {
  }

  lemma Brought(r: Response, source: Bytes, at: nat, got: nat)
    requires Truthful(r, source) && r.Reply? && r.contentRange.Some? && r.contentRange.value.first == at
    requires got <= |Flat(r.chunks)| && at + got <= |source|
    ensures Flat(r.chunks)[..got] == Span(source, at, at + got)
  {
    if got > 0 {
      assert Flat(r.chunks)[..got] == source[at..at + got];
    }
  }

  /** A response after which the loop goes on: transient, or the requested range with some of its bytes missing. */
  ghost predicate Unfinished(r: Response, at: nat, end: nat, total: nat) {
    Transient(r) || (PartialOf(r, at, end, total) && |Flat(r.chunks)| < end - at)
  }

  /** Where each request starts: where the body of the one before it ended. */
  ghost predicate Trail(server: (nat, nat) -> Response, trail: seq<nat>, start: nat, end: nat, total: nat) {
    && (trail != [] ==> trail[0] == start)
    && forall k: nat :: k + 1 < |trail| ==> Follows(server(k, trail[k]), trail[k], trail[k + 1], end, total)
  }

  ghost predicate Follows(r: Response, at: nat, next: nat, end: nat, total: nat) {
    Unfinished(r, at, end, total) && next == at + (if Transient(r) then 0 else |Flat(r.chunks)|)
  }

  /** How the last response ended the download. */
  ghost predicate Ends(e: Option<DownloadError>, r: Response, at: nat, end: nat, total: nat, budget: int) {
    match e
    case None => Completes(r, at, end, total)
    case Some(Exhausted) => Unfinished(r, at, end, total)
    case Some(other) => at < end && exists got: nat :: Outcome(r, at, end, total, budget, Some(other), got)
  }

  /** One response: refused for a reason it gives, or taken for as far as its body goes. */
  method Attempt(response: Response, ghost source: Bytes, at: nat, end: nat, total: nat, file: Sink, meter: ByteMeter)
    returns (refused: Option<DownloadError>, got: nat)
    requires at < end && total == |source| && Truthful(response, source) && meter.Valid()
    modifies file, meter
    ensures meter.Valid() && at + got <= end && (got > 0 ==> end <= total)
    ensures file.bytes == old(file.bytes) + Span(source, at, at + got)
    ensures meter.used == old(meter.used) + got
    ensures refused.Some? ==>
              !refused.value.EmptyRange? && !refused.value.Exhausted?
              && Refusable(refused.value, response, at, end, total)
    ensures refused == Some(OverBudget) ==> old(meter.used) + end - at > meter.max
    ensures Conforming(response, at, end, total) && refused.Some? ==> refused == Some(OverBudget)
    ensures refused.None? && at + got < end ==> !Completes(response, at, end, total)
    ensures Outcome(response, at, end, total, meter.max - old(meter.used), refused, got)
  {
    hide Truthful, Flat, Stops;
    got := 0;
    if response.Retryable() {
      return None, got;
    }
    if response.status != 206 {
      return Some(BadStatus), got;
    }
    if response.contentRange.None? || !response.contentRange.value.Ordered()
       || response.contentRange.value != ContentRange(at, end - 1, total) {
      return Some(BadRange), got;
    }
    if response.contentLength.Some? && response.contentLength.value != end - at {
      return Some(BadLength), got;
    }
    refused, got := Receive(response.chunks, end - at, file, meter);
    Brought(response, source, at, got);
  }

  /**
   * Whatever the server does, the file grows by source[start..cursor] and the meter by as many
   * bytes, within its ceiling and in at most retries + 1 requests. The server answers request k
   * for the bytes from `first` on with server(k, first); `asked` is where the last request began.
   */
  method DownloadRange(server: (nat, nat) -> Response, ghost source: Bytes, start: nat, end: nat, total: nat,
                       retries: nat, file: Sink, meter: ByteMeter)
    returns (e: Option<DownloadError>, ghost cursor: nat, ghost asked: nat, ghost requests: nat, ghost trail: seq<nat>)
    requires meter.Valid() && total == |source| && AlwaysTruthful(server, source)
    modifies file, meter
    ensures |trail| == requests && Trail(server, trail, start, end, total)
    ensures requests > 0 ==>
              asked == trail[requests - 1]
              && Ends(e, server(requests - 1, asked), asked, end, total, meter.max - old(meter.used) - (asked - start))
    ensures meter.Valid() && requests <= retries + 1
    ensures start <= asked <= cursor && (start < cursor ==> cursor <= end <= total)
    ensures file.bytes == old(file.bytes) + Span(source, start, cursor)
    ensures meter.used == old(meter.used) + cursor - start
    ensures e.None? ==> cursor == end && end > start
    ensures e == Some(EmptyRange) <==> end <= start
    ensures e == Some(EmptyRange) ==> requests == 0
    ensures e.Some? && start < end ==>
              requests > 0 && asked < end && Refusable(e.value, server(requests - 1, asked), asked, end, total)
    ensures e == Some(Exhausted) ==>
              requests == retries + 1
              && forall k: nat :: k <= retries ==> !AlwaysCompletes(server, k, start, end, total)
    ensures e == Some(OverBudget) ==> old(meter.used) + end - start > meter.max
    ensures start < end && AlwaysConforming(server, start, end, total) && old(meter.used) + end - start <= meter.max ==>
              e.None? || e == Some(Exhausted)
  {
    hide Completes, AlwaysTruthful, AlwaysConforming, AlwaysCompletes, Conforming, Refusable, Truthful, Span, Outcome,
         Unfinished, Transient, Flat;
    cursor, asked, requests, trail := start, start, 0, [];
    EmptySpan(source, start);
    if end <= start {
      return Some(EmptyRange), cursor, asked, requests, trail;
    }
    var at, failures := start, 0;
    while at < end
      invariant start <= asked <= at == cursor <= end && (start < cursor ==> end <= total)
      invariant requests == failures <= retries && meter.Valid()
      invariant file.bytes == old(file.bytes) + Span(source, start, cursor)
      invariant meter.used == old(meter.used) + cursor - start
      invariant forall k: nat :: k < requests ==> !AlwaysCompletes(server, k, start, end, total)
      invariant |trail| == requests && Trail(server, trail + [at], start, end, total)
      invariant at == end ==> requests > 0 && asked == trail[requests - 1]
                              && Completes(server(requests - 1, asked), asked, end, total)
      decreases retries - failures
    {
      Answered(server, source, failures, at, start, end, total);
      var response := server(failures, at);
      asked, requests := at, requests + 1;
      ghost var been := trail;
      trail := trail + [at];
      var refused, got := Attempt(response, source, at, end, total, file, meter);
      SpanGrows(source, start, at, at + got);
      if refused.None? {
        AfterOutcome(response, at, end, total, meter.max - old(meter.used) - (at - start), refused, got);
      }
      at := at + got;
      cursor := at;
      if refused.Some? {
        return refused, cursor, asked, requests, trail;
      }
      if at == end {
        return None, cursor, asked, requests, trail;
      }
      if failures >= retries {
        return Some(Exhausted), cursor, asked, requests, trail;
      }
      TrailGrows(server, been, asked, at, start, end, total);
      failures := failures + 1;
    }
    TrailFront(server, trail, at, start, end, total);
    e := None;
  }

  /** A response that is not refused brings its whole body: it completes the range or leaves some of it. */
  lemma AfterOutcome(r: Response, at: nat, end: nat, total: nat, budget: int, e: Option<DownloadError>, got: nat)
    requires at < end && Outcome(r, at, end, total, budget, e, got) && e.None?
    ensures if at + got == end then Completes(r, at, end, total) else Follows(r, at, at + got, end, total)
  {
    if !Transient(r) {
      var n: nat :| StopsAt(r.chunks, end - at, budget, e, got, n);
      assert r.chunks[..n] == r.chunks;
    }
  }

  lemma TrailFront(server: (nat, nat) -> Response, been: seq<nat>, at: nat, start: nat, end: nat, total: nat)
    requires Trail(server, been + [at], start, end, total)
    ensures Trail(server, been, start, end, total)
  {
    hide Follows;
    forall k: nat | k + 1 < |been|
      ensures Follows(server(k, been[k]), been[k], been[k + 1], end, total)
    {
      assert been[k] == (been + [at])[k] && been[k + 1] == (been + [at])[k + 1];
    }
  }

  lemma TrailGrows(server: (nat, nat) -> Response, been: seq<nat>, at: nat, next: nat, start: nat, end: nat, total: nat)
    requires Trail(server, been + [at], start, end, total) && Follows(server(|been|, at), at, next, end, total)
    ensures Trail(server, been + [at] + [next], start, end, total)
  {
    hide Follows;
    var trail := been + [at] + [next];
    forall k: nat | k + 1 < |trail|
      ensures Follows(server(k, trail[k]), trail[k], trail[k + 1], end, total)
    {
      if k + 1 < |been + [at]| {
        assert trail[k] == (been + [at])[k] && trail[k + 1] == (been + [at])[k + 1];
      }
    }
  }

  lemma EmptySpan(source: Bytes, start: nat)
    ensures Span(source, start, start) == []
  {
  }

  /** What is known of the response to one request, and what it shows of the server. */
  lemma Answered(server: (nat, nat) -> Response, source: Bytes, k: nat, at: nat, start: nat, end: nat, total: nat)
    requires start <= at < end && AlwaysTruthful(server, source)
    ensures var r := server(k, at);
            && Truthful(r, source)
            && (!Completes(r, at, end, total) ==> !AlwaysCompletes(server, k, start, end, total))
            && (AlwaysConforming(server, start, end, total) ==> Conforming(r, at, end, total))
            && Refusable(Exhausted, r, at, end, total)
  {
  }
}
