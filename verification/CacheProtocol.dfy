/**
  Authenticated loading with a cache, as a state machine over whole runs
  (internal/policy/policy.go, internal/catalog/hosted.go).  Policies and hosted
  catalogs share the protocol and differ in their checks and error classes.
 */
module CacheProtocol {
  import opened Common

  const MAX_INT64: int := 0x7FFF_FFFF_FFFF_FFFF
  const MIN_INT64: int := -0x8000_0000_0000_0000
  const DEFAULT_MAX_BYTES: int := 0x10_0000

  /** The three checks a document goes through: trust, decoding, freshness at a clock. */
  datatype Checks<!D> = Checks(trusted: Bytes -> bool, parse: Bytes -> Option<D>, freshAt: (D, int) -> bool)

  /** `parseTrustedDecision`, `parseHostedCatalog`. */
  function Accept<D>(ck: Checks<D>, now: int, data: Bytes): Option<D> {
    if !ck.trusted(data) then None
    else
      var d := ck.parse(data);
      if d.Some? && ck.freshAt(d.value, now) then d else None
  }

  /** What a read of the source or of the cache gives; `invalid` is the error class. */
  datatype Read = Failed(invalid: bool) | Got(data: Bytes)

  function Limit(maxBytes: int): int {
    if maxBytes <= 0 then DEFAULT_MAX_BYTES else maxBytes
  }

  /** 64-bit addition, which wraps around. */
  function Add64(a: int, b: int): int {
    var sum := a + b;
    if sum > MAX_INT64 then sum - 0x1_0000_0000_0000_0000
    else if sum < MIN_INT64 then sum + 0x1_0000_0000_0000_0000
    else sum
  }

  /** `io.ReadAll(io.LimitReader(reader, n))`: at most `n` bytes, and none unless `n` is positive. */
  function ReadLimited(content: Bytes, n: int): Bytes {
    if n <= 0 then [] else if |content| > n then content[..n] else content
  }

  /** The bounded read: it takes one byte more than the limit to notice excess. */
  function ReadBounded(content: Bytes, maxBytes: int): Read {
    var limit := Limit(maxBytes);
    var data := ReadLimited(content, Add64(limit, 1));
    if |data| > limit then Failed(true) else Got(data)
  }

  /** Bytes that were read within the limit are read again unchanged. */
  lemma ReadBack(content: Bytes, maxBytes: int)
    requires ReadBounded(content, maxBytes).Got?
    ensures ReadBounded(ReadBounded(content, maxBytes).data, maxBytes) == ReadBounded(content, maxBytes)
  {
  }

  /**
    Exactly when the read does what its limit says, namely give everything within
    the limit (one mebibyte if none is given) and refuse more: for every limit but
    the largest, and for that one only if there is nothing to read.
   */
  lemma ReadBoundedIff(content: Bytes, maxBytes: int)
    requires maxBytes <= MAX_INT64
    ensures
      var limit := if maxBytes <= 0 then 1_048_576 else maxBytes;
      (ReadBounded(content, maxBytes) == if |content| <= limit then Got(content) else Failed(true))
      <==> (maxBytes < MAX_INT64 || content == [])
  {
  }

  /** Under the largest limit the sum wraps around and every file reads as an empty one. */
  lemma LargestLimitReadsNothing(content: Bytes)
    ensures ReadBounded(content, MAX_INT64) == Got([])
  {
  }

  // ---------------------------------------------------------------- one call

  /** Settings that stay the same over a run. */
  datatype Settings<!D> = Settings(checks: Checks<D>, maxBytes: int, caching: bool, fallback: bool)

  /**
    One call: the source read, whether its failure class lets it fall back, the
    clock, whether the cache write goes through, and whether the cache file can
    be read.
   */
  datatype Call = Call(source: Read, mayFallBack: bool, now: int, writeOk: bool, cacheReadable: bool)

  datatype Outcome<D> = Outcome(result: Option<D>, cache: Option<Bytes>)

  predicate Eligible<D>(st: Settings<D>, call: Call) {
    call.source.Failed? && st.fallback && st.caching && call.mayFallBack
  }

  function FromCache<D>(st: Settings<D>, call: Call, cache: Option<Bytes>): Option<D> {
    if cache.None? || !call.cacheReadable then None
    else
      var read := ReadBounded(cache.value, st.maxBytes);
      if read.Failed? then None else Accept(st.checks, call.now, read.data)
  }

  /** The protocol step shared by `LoadFile`, `LoadURL` and `LoadHosted`. */
  function Step<D>(st: Settings<D>, call: Call, cache: Option<Bytes>): Outcome<D> {
    if call.source.Failed? then
      Outcome(if Eligible(st, call) then FromCache(st, call, cache) else None, cache)
    else
      var d := Accept(st.checks, call.now, call.source.data);
      if d.None? then Outcome(None, cache)
      else if !st.caching then Outcome(d, cache)
      else if call.writeOk then Outcome(d, Some(call.source.data))
      else Outcome(None, cache)
  }

  /** The source was read and accepted, and the cache was updated. */
  predicate SourceLoad<D>(st: Settings<D>, call: Call) {
    call.source.Got? && Accept(st.checks, call.now, call.source.data).Some? && st.caching && call.writeOk
  }

  // ---------------------------------------------------------------- fail closed

  /**
    Whatever the cache holds, a returned document comes from bytes that pass
    every check at the clock of the call, and those bytes are the source's or,
    after an eligible source failure, the cache's.
   */
  lemma FailClosed<D>(st: Settings<D>, call: Call, cache: Option<Bytes>) returns (data: Bytes)
    requires Step(st, call, cache).result.Some?
    ensures Accept(st.checks, call.now, data) == Step(st, call, cache).result
    ensures st.checks.trusted(data) && st.checks.parse(data) == Step(st, call, cache).result
    ensures st.checks.freshAt(Step(st, call, cache).result.value, call.now)
    ensures call.source == Got(data)
            || (Eligible(st, call) && cache.Some? && ReadBounded(cache.value, st.maxBytes) == Got(data))
  {
    data := if call.source.Got? then call.source.data else ReadBounded(cache.value, st.maxBytes).data;
  }

  /** A source that was read but not accepted neither falls back nor touches the cache. */
  lemma RejectedSourceStops<D>(st: Settings<D>, call: Call, cache: Option<Bytes>)
    requires call.source.Got? && Accept(st.checks, call.now, call.source.data).None?
    ensures Step(st, call, cache) == Outcome(None, cache)
  {
  }

  // ---------------------------------------------------------------- whole runs

  /** The cache after a run that starts without one. */
  function CacheAfter<D>(st: Settings<D>, calls: seq<Call>): Option<Bytes> {
    if calls == [] then None
    else Step(st, calls[|calls| - 1], CacheAfter(st, calls[..|calls| - 1])).cache
  }

  /** Call `i` is the latest successful source load of the run. */
  predicate LatestLoad<D>(st: Settings<D>, calls: seq<Call>, i: nat) {
    i < |calls| && SourceLoad(st, calls[i]) && forall j :: i < j < |calls| ==> !SourceLoad(st, calls[j])
  }

  lemma {:induction false} LatestLoadCached<D>(st: Settings<D>, calls: seq<Call>, i: nat)
    requires LatestLoad(st, calls, i)
    ensures CacheAfter(st, calls) == Some(calls[i].source.data)
  {
    var last := |calls| - 1;
    if i < last {
      assert !SourceLoad(st, calls[last]);
      LatestLoadCached(st, calls[..last], i);
    }
  }

  lemma {:induction false} NoLoadNoCache<D>(st: Settings<D>, calls: seq<Call>)
    requires forall i :: 0 <= i < |calls| ==> !SourceLoad(st, calls[i])
    ensures CacheAfter(st, calls).None?
  {
    if calls != [] {
      NoLoadNoCache(st, calls[..|calls| - 1]);
    }
  }

  /**
    Over every run, under any source failures, write failures and clock, the
    cache is absent exactly while no source load has succeeded, and otherwise
    holds exactly the bytes of the latest one.
   */
  lemma {:induction false} CacheIsLatestLoad<D>(st: Settings<D>, calls: seq<Call>)
    ensures CacheAfter(st, calls).None? <==> forall i :: 0 <= i < |calls| ==> !SourceLoad(st, calls[i])
    ensures forall i :: 0 <= i < |calls| && LatestLoad(st, calls, i) ==>
      CacheAfter(st, calls) == Some(calls[i].source.data)
  {
    if CacheAfter(st, calls).Some? {
      var i := LatestLoadExists(st, calls);
    } else {
      forall i | 0 <= i < |calls| ensures !SourceLoad(st, calls[i]) {
        if SourceLoad(st, calls[i]) { LoadLeavesCache(st, calls, i); }
      }
    }
    forall i | 0 <= i < |calls| && LatestLoad(st, calls, i)
      ensures CacheAfter(st, calls) == Some(calls[i].source.data)
    {
      LatestLoadCached(st, calls, i);
    }
  }

  /** Once a source load has succeeded there is always a cache. */
  lemma {:induction false} LoadLeavesCache<D>(st: Settings<D>, calls: seq<Call>, i: nat)
    requires i < |calls| && SourceLoad(st, calls[i])
    ensures CacheAfter(st, calls).Some?
  {
    if i < |calls| - 1 {
      LoadLeavesCache(st, calls[..|calls| - 1], i);
    }
  }

  lemma {:induction false} LatestLoadExists<D>(st: Settings<D>, calls: seq<Call>) returns (i: nat)
    requires CacheAfter(st, calls).Some?
    ensures LatestLoad(st, calls, i) && CacheAfter(st, calls) == Some(calls[i].source.data)
  {
    i := |calls| - 1;
    if !SourceLoad(st, calls[i]) {
      i := LatestLoadExists(st, calls[..i]);
    }
  }

  /** Source data comes from a bounded read, as the loaders obtain it. */
  predicate ReadsBounded<D>(st: Settings<D>, call: Call) {
    call.source.Got? ==> ReadBounded(call.source.data, st.maxBytes) == call.source
  }

  predicate BoundedSources<D>(st: Settings<D>, calls: seq<Call>) {
    forall i :: 0 <= i < |calls| ==> ReadsBounded(st, calls[i])
  }

  /**
    What a fallback returns after any run: the document of the latest successful
    source load if that is fresh now, and otherwise nothing.  Trust, decoding and
    size cannot fail, because the same bytes passed them when they were stored.
   */
  lemma {:induction false} FallbackReturnsLatest<D>(st: Settings<D>, calls: seq<Call>, call: Call, i: nat)
    requires BoundedSources(st, calls) && LatestLoad(st, calls, i)
    requires Eligible(st, call) && call.cacheReadable
    ensures
      var stored := st.checks.parse(calls[i].source.data);
      && stored.Some?
      && Step(st, call, CacheAfter(st, calls)).result
         == if st.checks.freshAt(stored.value, call.now) then stored else None
  {
    LatestLoadCached(st, calls, i);
  }

  /** Before any successful source load a fallback has nothing to return. */
  lemma {:induction false} FallbackWithoutLoad<D>(st: Settings<D>, calls: seq<Call>, call: Call)
    requires forall i :: 0 <= i < |calls| ==> !SourceLoad(st, calls[i])
    requires call.source.Failed?
    ensures Step(st, call, CacheAfter(st, calls)).result.None?
  {
    NoLoadNoCache(st, calls);
  }

  // ---------------------------------------------------------------- freshness over runs

  /** The times at which a document is fresh form one interval. */
  ghost predicate FreshOnInterval<D(!new)>(ck: Checks<D>) {
    forall d: D, a: int, b: int, c: int {:trigger ck.freshAt(d, a), ck.freshAt(d, b), ck.freshAt(d, c)} ::
      a <= b <= c && ck.freshAt(d, a) && ck.freshAt(d, c) ==> ck.freshAt(d, b)
  }

  predicate ClockNeverBack(calls: seq<Call>) {
    forall i, j :: 0 <= i < j < |calls| ==> calls[i].now <= calls[j].now
  }

  /**
    Under a clock that never goes back, a cached document once refused stays
    refused until a source load succeeds: if the fallback at call `k` of a run
    found the cached document stale, so does every later fallback `m` before the
    next successful source load.
   */
  lemma {:induction false} StaleStaysStale<D(!new)>(st: Settings<D>, calls: seq<Call>, i: nat, k: nat, m: nat)
    requires FreshOnInterval(st.checks) && BoundedSources(st, calls) && ClockNeverBack(calls)
    requires i < k < m < |calls| && LatestLoad(st, calls[..m], i)
    requires Eligible(st, calls[k]) && calls[k].cacheReadable && Eligible(st, calls[m]) && calls[m].cacheReadable
    requires Step(st, calls[k], CacheAfter(st, calls[..k])).result.None?
    ensures Step(st, calls[m], CacheAfter(st, calls[..m])).result.None?
  {
    assert LatestLoad(st, calls[..k], i) by {
      assert forall j :: 0 <= j < k ==> calls[..k][j] == calls[..m][j];
    }
    assert calls[..k][i] == calls[i] && calls[..m][i] == calls[i];
    FallbackReturnsLatest(st, calls[..k], calls[k], i);
    FallbackReturnsLatest(st, calls[..m], calls[m], i);
    var d := st.checks.parse(calls[i].source.data).value;
    var loaded, refused, later := calls[i].now, calls[k].now, calls[m].now;
    assert st.checks.freshAt(d, loaded) && !st.checks.freshAt(d, refused);
    assert !st.checks.freshAt(d, later);
  }
}
