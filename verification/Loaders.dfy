/**
  The loaders themselves: signed policies from a file or a URL
  (internal/policy/policy.go) and hosted catalogs (internal/catalog/hosted.go).
 */
module Loaders {
  import opened Common
  import opened Provider
  import opened Catalog
  import opened AtomicFiles
  import opened CacheProtocol

  const SIGNATURE_SIZE := 64
  const PUBLIC_KEY_SIZE := 32
  const SHA256_SIZE := 32

  datatype Trust = Trust(signature: Bytes, publicKey: Bytes)

  /** Ed25519 verification (section 5.1.7 of RFC 8032) with key, message and signature. */
  type Verifier = (Bytes, Bytes, Bytes) -> bool

  predicate SignatureOk(verify: Verifier, data: Bytes, trust: Trust) {
    && |trust.signature| == SIGNATURE_SIZE && |trust.publicKey| == PUBLIC_KEY_SIZE
    && verify(trust.publicKey, data, trust.signature)
  }

  predicate Signed(trust: Trust) {
    trust.signature != [] || trust.publicKey != []
  }

  // ---------------------------------------------------------------- time

  /** `time.Time.Sub`: differences saturate at the 64-bit duration range. */
  function Sub(t: int, u: int): int {
    if t - u > MAX_INT64 then MAX_INT64 else if t - u < MIN_INT64 then MIN_INT64 else t - u
  }

  predicate Expired(expiresAt: Option<int>, now: int) {
    expiresAt.Some? && !(expiresAt.value > now)
  }

  /** `validateFreshness` for policies. */
  predicate PolicyFresh(publishedAt: Option<int>, expiresAt: Option<int>, maxAge: int, now: int) {
    && !(expiresAt.None? && (maxAge <= 0 || publishedAt.None?))
    && !Expired(expiresAt, now)
    && (maxAge > 0 ==>
          publishedAt.Some? && !(publishedAt.value > now) && Sub(now, publishedAt.value) <= maxAge)
  }

  /** `validateHostedFreshness` for catalogs: metadata is optional, and a future publication is let through. */
  predicate HostedFresh(
    publishedAt: Option<int>, expiresAt: Option<int>, requireFreshness: bool, maxAge: int, now: int)
  {
    && !(requireFreshness && publishedAt.None? && expiresAt.None?)
    && !Expired(expiresAt, now)
    && (maxAge > 0 ==> publishedAt.Some? && Sub(now, publishedAt.value) <= maxAge)
  }

  /**
    The acceptance window of a policy: from publication to the maximum age, and
    before expiry.  The largest maximum age has no upper end, because the
    difference of times saturates there.
   */
  lemma PolicyWindow(publishedAt: Option<int>, expiresAt: Option<int>, maxAge: int, now: int)
    ensures PolicyFresh(publishedAt, expiresAt, maxAge, now) <==> InPolicyWindow(publishedAt, expiresAt, maxAge, now)
  {
  }

  predicate InPolicyWindow(publishedAt: Option<int>, expiresAt: Option<int>, maxAge: int, now: int) {
    && (expiresAt.Some? ==> now < expiresAt.value)
    && (if maxAge > 0
        then && publishedAt.Some? && publishedAt.value <= now
             && (maxAge >= MAX_INT64 || now <= publishedAt.value + maxAge)
        else expiresAt.Some?)
  }

  /** The acceptance window of a catalog, which has no beginning and may have no end. */
  lemma HostedWindow(
    publishedAt: Option<int>, expiresAt: Option<int>, requireFreshness: bool, maxAge: int, now: int)
    ensures HostedFresh(publishedAt, expiresAt, requireFreshness, maxAge, now) <==>
            InHostedWindow(publishedAt, expiresAt, requireFreshness, maxAge, now)
  {
  }

  predicate InHostedWindow(
    publishedAt: Option<int>, expiresAt: Option<int>, requireFreshness: bool, maxAge: int, now: int)
  {
    && (expiresAt.Some? ==> now < expiresAt.value)
    && (maxAge > 0 ==> publishedAt.Some? && (maxAge >= MAX_INT64 || now <= publishedAt.value + maxAge))
    && (requireFreshness ==> publishedAt.Some? || expiresAt.Some?)
  }

  // ---------------------------------------------------------------- policies

  datatype Decision = Decision(
    schemaVersion: int, decisionId: string, targetId: string,
    options: map<string, string>, secretRefs: map<string, string>,
    publishedAt: Option<int>, expiresAt: Option<int>)

  datatype PolicyConfig = PolicyConfig(
    trust: Trust, maxBytes: int, maxAge: int, cachePath: string, cacheFallback: bool,
    verify: Verifier, decode: Bytes -> Option<Decision>)

  /** `parseDecision`; `decode` stands for the strict JSON decoding of one value. */
  function ParseDecision(decode: Bytes -> Option<Decision>, data: Bytes): Option<Decision> {
    var d := decode(data);
    if d.Some? && d.value.schemaVersion == 1 && d.value.decisionId != "" && d.value.targetId != "" then d else None
  }

  function PolicyChecks(o: PolicyConfig): Checks<Decision> {
    Checks(
      data => Signed(o.trust) && SignatureOk(o.verify, data, o.trust),
      data => ParseDecision(o.decode, data),
      (d: Decision, now: int) => PolicyFresh(d.publishedAt, d.expiresAt, o.maxAge, now))
  }

  function PolicySettings(o: PolicyConfig): Settings<Decision> {
    Settings(PolicyChecks(o), o.maxBytes, o.cachePath != "", o.cacheFallback)
  }

  /** The bytes are a policy signed under the configured key, well-formed, and inside its window now. */
  ghost predicate PolicyVouched(o: PolicyConfig, data: Bytes, d: Decision, now: int) {
    && |o.trust.signature| == 64 && |o.trust.publicKey| == 32
    && o.verify(o.trust.publicKey, data, o.trust.signature)
    && o.decode(data) == Some(d) && d.schemaVersion == 1 && d.decisionId != "" && d.targetId != ""
    && InPolicyWindow(d.publishedAt, d.expiresAt, o.maxAge, now)
  }

  /** The checks of a policy demand exactly that. */
  lemma PolicyAcceptIff(o: PolicyConfig, now: int, data: Bytes, d: Decision)
    ensures Accept(PolicyChecks(o), now, data) == Some(d) <==> PolicyVouched(o, data, d, now)
  {
    if o.decode(data).Some? {
      var e := o.decode(data).value;
      PolicyWindow(e.publishedAt, e.expiresAt, o.maxAge, now);
    }
  }

  /** How opening and reading a policy file goes. */
  datatype FileSource = NoPath | OpenFails | ReadFails | Content(data: Bytes)

  /** `readPolicyFile`: every failure carries the invalid-policy class. */
  function ReadPolicyFile(source: FileSource, maxBytes: int): Read {
    if source.Content? then ReadBounded(source.data, maxBytes) else Failed(true)
  }

  /** How a fetch goes, from URL parsing to the response body. */
  datatype UrlSource = Unparsable | NotHttps | RequestFails | TransportFails | BadStatus | BodyFails | Body(data: Bytes)

  /** `fetchPolicyURL`: a body that cannot be read counts as invalid. */
  function FetchPolicyUrl(source: UrlSource, maxBytes: int): Read {
    match source
    case Unparsable => Failed(true)
    case NotHttps => Failed(true)
    case RequestFails => Failed(false)
    case TransportFails => Failed(false)
    case BadStatus => Failed(false)
    case BodyFails => Failed(true)
    case Body(data) => ReadBounded(data, maxBytes)
  }

  /** `fetchHostedCatalog`: here a body that cannot be read does not count as invalid. */
  function FetchHostedUrl(source: UrlSource, maxBytes: int): Read {
    if source.BodyFails? then Failed(false) else FetchPolicyUrl(source, maxBytes)
  }

  /** The protocol call made by `LoadFile`: any source failure may fall back. */
  function FileCall(o: PolicyConfig, source: FileSource, now: int, calls: Calls, readable: bool): Call {
    Call(ReadPolicyFile(source, o.maxBytes), true, now, AllWork(calls), readable)
  }

  /** The protocol call made by `LoadURL`: an invalid-policy failure may not fall back. */
  function UrlCall(o: PolicyConfig, source: UrlSource, now: int, calls: Calls, readable: bool): Call {
    var read := FetchPolicyUrl(source, o.maxBytes);
    Call(read, read.Failed? && !read.invalid, now, AllWork(calls), readable)
  }

  function HostedCall(o: HostedOptions, source: UrlSource, now: int, calls: Calls, readable: bool): Call {
    var read := FetchHostedUrl(source, o.maxBytes);
    Call(read, read.Failed? && !read.invalid, now, AllWork(calls), readable)
  }

  function CacheAt(files: Files, path: string): Option<Bytes> {
    if path in files then Some(files[path]) else None
  }

  /** Without configured trust nothing is loaded at all. */
  function LoadResult<D>(configured: bool, st: Settings<D>, call: Call, files: Files, path: string): Outcome<D> {
    if configured then Step(st, call, CacheAt(files, path)) else Outcome(None, CacheAt(files, path))
  }

  /** After a load the cache path follows the protocol and other files stay; a stray temporary file may remain. */
  predicate DiskFollows<D>(before: Files, after: Files, path: string, o: Outcome<D>, calls: Calls) {
    CacheAt(after, path) == o.cache && OthersKept(before, after, path, calls)
  }

  predicate OthersKept(before: Files, after: Files, path: string, calls: Calls) {
    var hidden := {path} + (if calls.temp.Some? && !calls.removeOk then {calls.temp.value} else {});
    after - hidden == before - hidden
  }

  /** The cache update after an accepted source, where a cache is configured. */
  method SaveToCache(disk: Disk, path: string, data: Bytes, calls: Calls) returns (ok: bool)
    requires FreshTemp(disk.files, path, calls)
    modifies disk
    ensures ok <==> path == "" || AllWork(calls)
    ensures CacheAt(disk.files, path) == if path != "" && ok then Some(data) else CacheAt(old(disk.files), path)
    ensures OthersKept(old(disk.files), disk.files, path, calls)
  {
    if path == "" {
      return true;
    }
    ok := disk.ReplaceCache(path, data, calls);
  }

  /** `loadPolicyCache` and `loadHostedCache`. */
  method LoadCache<D>(disk: Disk, st: Settings<D>, path: string, now: int, readable: bool) returns (r: Option<D>)
    ensures r == FromCache(st, Call(Failed(false), true, now, false, readable), CacheAt(disk.files, path))
  {
    if path !in disk.files || !readable {
      return None;
    }
    var read := ReadBounded(disk.files[path], st.maxBytes);
    if read.Failed? {
      return None;
    }
    return Accept(st.checks, now, read.data);
  }

  /** The bytes of a readable cache file, after a source failure that may fall back. */
  predicate FallbackBytes(
    files: Files, path: string, maxBytes: int, fallback: bool, mayFallBack: bool, readable: bool, data: Bytes)
  {
    && fallback && path != "" && mayFallBack && readable
    && path in files && ReadBounded(files[path], maxBytes) == Got(data)
  }

  /** Where the bytes behind a protocol step come from. */
  lemma StepBytes<D>(st: Settings<D>, call: Call, files: Files, path: string) returns (data: Bytes)
    requires st.caching == (path != "") && Step(st, call, CacheAt(files, path)).result.Some?
    ensures Accept(st.checks, call.now, data) == Step(st, call, CacheAt(files, path)).result
    ensures if call.source.Got? then call.source == Got(data)
            else FallbackBytes(files, path, st.maxBytes, st.fallback, call.mayFallBack, call.cacheReadable, data)
  {
    data := FailClosed(st, call, CacheAt(files, path));
  }

  /** The body the three loaders share once the source has been read. */
  method LoadFrom<D>(
    disk: Disk, st: Settings<D>, path: string, source: Read, mayFallBack: bool, now: int, calls: Calls, readable: bool)
    returns (r: Option<D>)
    requires FreshTemp(disk.files, path, calls) && st.caching == (path != "")
    modifies disk
    ensures
      var out := Step(st, Call(source, mayFallBack, now, AllWork(calls), readable), CacheAt(old(disk.files), path));
      r == out.result && DiskFollows(old(disk.files), disk.files, path, out, calls)
  {
    if source.Failed? {
      if st.fallback && path != "" && mayFallBack {
        r := LoadCache(disk, st, path, now, readable);
        return;
      }
      return None;
    }
    var document := Accept(st.checks, now, source.data);
    if document.None? {
      return None;
    }
    var saved := SaveToCache(disk, path, source.data, calls);
    if !saved {
      return None;
    }
    return document;
  }

  /** `LoadFile`. */
  method LoadFile(disk: Disk, o: PolicyConfig, source: FileSource, now: int, calls: Calls, readable: bool)
    returns (r: Option<Decision>)
    requires FreshTemp(disk.files, o.cachePath, calls)
    modifies disk
    ensures
      var call := FileCall(o, source, now, calls, readable);
      var out := LoadResult(Signed(o.trust), PolicySettings(o), call, old(disk.files), o.cachePath);
      r == out.result && DiskFollows(old(disk.files), disk.files, o.cachePath, out, calls)
    ensures r.Some? ==> exists data ::
      && PolicyVouched(o, data, r.value, now)
      && (FileBytes(source, o.maxBytes, data)
          || (ReadPolicyFile(source, o.maxBytes).Failed?
              && FallbackBytes(old(disk.files), o.cachePath, o.maxBytes, o.cacheFallback, true, readable, data)))
    ensures forall data, d ::
      (FileBytes(source, o.maxBytes, data) && PolicyVouched(o, data, d, now)
       ==> r == if o.cachePath == "" || AllWork(calls) then Some(d) else None)
    ensures forall data ::
      (FileBytes(source, o.maxBytes, data) && r.Some? && o.cachePath != ""
       ==> o.cachePath in disk.files && disk.files[o.cachePath] == data)
  {
    ghost var files := disk.files;
    if !Signed(o.trust) {
      return None;
    }
    var read := ReadPolicyFile(source, o.maxBytes);
    r := LoadFrom(disk, PolicySettings(o), o.cachePath, read, true, now, calls, readable);
    PolicyStepMeans(o, FileCall(o, source, now, calls, readable), files);
  }

  /** The bounded contents of a policy file. */
  predicate FileBytes(source: FileSource, maxBytes: int, data: Bytes) {
    source.Content? && ReadBounded(source.data, maxBytes) == Got(data)
  }

  /** The bounded body of a response. */
  predicate UrlBytes(source: UrlSource, maxBytes: int, data: Bytes) {
    source.Body? && ReadBounded(source.data, maxBytes) == Got(data)
  }

  /** What the protocol step means for a policy. */
  lemma PolicyStepMeans(o: PolicyConfig, call: Call, files: Files)
    ensures
      var r := Step(PolicySettings(o), call, CacheAt(files, o.cachePath)).result;
      && (r.Some? ==> exists data ::
            && PolicyVouched(o, data, r.value, call.now)
            && (call.source == Got(data)
                || (call.source.Failed?
                    && FallbackBytes(
                         files, o.cachePath, o.maxBytes, o.cacheFallback, call.mayFallBack, call.cacheReadable, data))))
      && (forall data, d :: call.source == Got(data) && PolicyVouched(o, data, d, call.now)
            ==> r == if o.cachePath == "" || call.writeOk then Some(d) else None)
  {
    var st := PolicySettings(o);
    var r := Step(st, call, CacheAt(files, o.cachePath)).result;
    if r.Some? {
      var data := StepBytes(st, call, files, o.cachePath);
      PolicyAcceptIff(o, call.now, data, r.value);
    }
    forall data, d | call.source == Got(data) && PolicyVouched(o, data, d, call.now)
      ensures r == if o.cachePath == "" || call.writeOk then Some(d) else None
    {
      PolicyAcceptIff(o, call.now, data, d);
    }
  }

  /** `LoadURL`. */
  method LoadUrl(disk: Disk, o: PolicyConfig, source: UrlSource, now: int, calls: Calls, readable: bool)
    returns (r: Option<Decision>)
    requires FreshTemp(disk.files, o.cachePath, calls)
    modifies disk
    ensures
      var call := UrlCall(o, source, now, calls, readable);
      var out := LoadResult(Signed(o.trust), PolicySettings(o), call, old(disk.files), o.cachePath);
      r == out.result && DiskFollows(old(disk.files), disk.files, o.cachePath, out, calls)
    ensures r.Some? ==> exists data ::
      && PolicyVouched(o, data, r.value, now)
      && (UrlBytes(source, o.maxBytes, data)
          || ((source.RequestFails? || source.TransportFails? || source.BadStatus?)
              && FallbackBytes(old(disk.files), o.cachePath, o.maxBytes, o.cacheFallback, true, readable, data)))
    ensures forall data, d ::
      (UrlBytes(source, o.maxBytes, data) && PolicyVouched(o, data, d, now)
       ==> r == if o.cachePath == "" || AllWork(calls) then Some(d) else None)
    ensures forall data ::
      (UrlBytes(source, o.maxBytes, data) && r.Some? && o.cachePath != ""
       ==> o.cachePath in disk.files && disk.files[o.cachePath] == data)
  {
    ghost var files := disk.files;
    if !Signed(o.trust) {
      return None;
    }
    var read := FetchPolicyUrl(source, o.maxBytes);
    r := LoadFrom(disk, PolicySettings(o), o.cachePath, read, read.Failed? && !read.invalid, now, calls, readable);
    PolicyStepMeans(o, UrlCall(o, source, now, calls, readable), files);
  }

  // ---------------------------------------------------------------- hosted catalogs

  /** `hexDigest` is the decoded expected digest, if the configured one is valid hexadecimal. */
  datatype HostedOptions = HostedOptions(
    sha256: string, hexDigest: Option<Bytes>, trust: Trust, providerIds: seq<string>, maxBytes: int, maxAge: int,
    requireFreshness: bool, cachePath: string, cacheFallback: bool,
    hash: Bytes -> Bytes, verify: Verifier, decode: Bytes -> Option<Document>, valid: (string, Target) -> bool)

  predicate HostedConfigured(o: HostedOptions) {
    o.sha256 != "" || Signed(o.trust)
  }

  /** `VerifyHostedTrust`: every configured check must pass, and at least one must be configured. */
  predicate HostedTrusted(o: HostedOptions, data: Bytes) {
    && HostedConfigured(o)
    && (o.sha256 != "" ==> o.hexDigest.Some? && |o.hexDigest.value| == SHA256_SIZE && o.hash(data) == o.hexDigest.value)
    && (Signed(o.trust) ==> SignatureOk(o.verify, data, o.trust))
  }

  function ParseCatalog(o: HostedOptions, data: Bytes): Option<Document> {
    var doc := o.decode(data);
    if doc.Some? && Accepted(o.valid, o.providerIds, doc.value) then doc else None
  }

  function HostedChecks(o: HostedOptions): Checks<Document> {
    Checks(
      data => HostedTrusted(o, data),
      data => ParseCatalog(o, data),
      (d: Document, now: int) => HostedFresh(d.publishedAt, d.expiresAt, o.requireFreshness, o.maxAge, now))
  }

  /** The bytes are a catalog that passes every configured check, is well-formed, and is inside its window now. */
  ghost predicate CatalogVouched(o: HostedOptions, data: Bytes, d: Document, now: int) {
    && (o.sha256 != "" || o.trust.signature != [] || o.trust.publicKey != [])
    && (o.sha256 != "" ==> o.hexDigest.Some? && |o.hexDigest.value| == 32 && o.hash(data) == o.hexDigest.value)
    && (o.trust.signature != [] || o.trust.publicKey != [] ==>
          && |o.trust.signature| == 64 && |o.trust.publicKey| == 32
          && o.verify(o.trust.publicKey, data, o.trust.signature))
    && o.decode(data) == Some(d) && d.schemaVersion == 1
    && (forall i, j :: 0 <= i < j < |d.entries| ==> d.entries[i].id != d.entries[j].id)
    && (forall i :: 0 <= i < |d.entries| ==>
          d.entries[i].providerId in o.providerIds && o.valid(d.entries[i].providerId, d.entries[i]))
    && InHostedWindow(d.publishedAt, d.expiresAt, o.requireFreshness, o.maxAge, now)
  }

  lemma AcceptedMeans(o: HostedOptions, d: Document)
    ensures Accepted(o.valid, o.providerIds, d) <==>
      && d.schemaVersion == 1
      && (forall i, j :: 0 <= i < j < |d.entries| ==> d.entries[i].id != d.entries[j].id)
      && (forall i :: 0 <= i < |d.entries| ==>
            d.entries[i].providerId in o.providerIds && o.valid(d.entries[i].providerId, d.entries[i]))
  {
    var ids := TargetIds(d.entries);
    assert forall i :: 0 <= i < |d.entries| ==> ids[i] == d.entries[i].id;
    if NoDup(ids) {
      forall i, j | 0 <= i < j < |d.entries| ensures d.entries[i].id != d.entries[j].id { assert ids[i] != ids[j]; }
    }
    if Accepted(o.valid, o.providerIds, d) {
      forall i | 0 <= i < |d.entries|
        ensures d.entries[i].providerId in o.providerIds && o.valid(d.entries[i].providerId, d.entries[i])
      {
        assert EntryOk(o.valid, o.providerIds, d.entries[i]);
      }
    }
  }

  /** The checks of a hosted catalog demand exactly that. */
  lemma CatalogAcceptIff(o: HostedOptions, now: int, data: Bytes, d: Document)
    ensures Accept(HostedChecks(o), now, data) == Some(d) <==> CatalogVouched(o, data, d, now)
  {
    if o.decode(data).Some? {
      var e := o.decode(data).value;
      AcceptedMeans(o, e);
      HostedWindow(e.publishedAt, e.expiresAt, o.requireFreshness, o.maxAge, now);
    }
  }

  /** What the protocol step means for a hosted catalog. */
  lemma HostedStepMeans(o: HostedOptions, call: Call, files: Files)
    ensures
      var r := Step(HostedSettings(o), call, CacheAt(files, o.cachePath)).result;
      && (r.Some? ==> exists data ::
            && CatalogVouched(o, data, r.value, call.now)
            && (call.source == Got(data)
                || (call.source.Failed?
                    && FallbackBytes(
                         files, o.cachePath, o.maxBytes, o.cacheFallback, call.mayFallBack, call.cacheReadable, data))))
      && (forall data, d :: call.source == Got(data) && CatalogVouched(o, data, d, call.now)
            ==> r == if o.cachePath == "" || call.writeOk then Some(d) else None)
  {
    var st := HostedSettings(o);
    var r := Step(st, call, CacheAt(files, o.cachePath)).result;
    if r.Some? {
      var data := StepBytes(st, call, files, o.cachePath);
      CatalogAcceptIff(o, call.now, data, r.value);
    }
    forall data, d | call.source == Got(data) && CatalogVouched(o, data, d, call.now)
      ensures r == if o.cachePath == "" || call.writeOk then Some(d) else None
    {
      CatalogAcceptIff(o, call.now, data, d);
    }
  }

  function HostedSettings(o: HostedOptions): Settings<Document> {
    Settings(HostedChecks(o), o.maxBytes, o.cachePath != "", o.cacheFallback)
  }

  /** `LoadHosted`. */
  method LoadHosted(disk: Disk, o: HostedOptions, source: UrlSource, now: int, calls: Calls, readable: bool)
    returns (r: Option<Document>)
    requires FreshTemp(disk.files, o.cachePath, calls)
    modifies disk
    ensures
      var call := HostedCall(o, source, now, calls, readable);
      var out := LoadResult(HostedConfigured(o), HostedSettings(o), call, old(disk.files), o.cachePath);
      r == out.result && DiskFollows(old(disk.files), disk.files, o.cachePath, out, calls)
    ensures r.Some? ==> exists data ::
      && CatalogVouched(o, data, r.value, now)
      && (UrlBytes(source, o.maxBytes, data)
          || ((source.RequestFails? || source.TransportFails? || source.BadStatus? || source.BodyFails?)
              && FallbackBytes(old(disk.files), o.cachePath, o.maxBytes, o.cacheFallback, true, readable, data)))
    ensures forall data, d ::
      (UrlBytes(source, o.maxBytes, data) && CatalogVouched(o, data, d, now)
       ==> r == if o.cachePath == "" || AllWork(calls) then Some(d) else None)
    ensures forall data ::
      (UrlBytes(source, o.maxBytes, data) && r.Some? && o.cachePath != ""
       ==> o.cachePath in disk.files && disk.files[o.cachePath] == data)
  {
    ghost var files := disk.files;
    if !HostedConfigured(o) {
      return None;
    }
    var read := FetchHostedUrl(source, o.maxBytes);
    r := LoadFrom(disk, HostedSettings(o), o.cachePath, read, read.Failed? && !read.invalid, now, calls, readable);
    HostedStepMeans(o, HostedCall(o, source, now, calls, readable), files);
  }

  // ---------------------------------------------------------------- the protocol applies

  /** Policies are fresh on one interval of time. */
  lemma PolicyFreshOnInterval(o: PolicyConfig)
    ensures FreshOnInterval(PolicyChecks(o))
  {
  }

  /** So are hosted catalogs. */
  lemma HostedFreshOnInterval(o: HostedOptions)
    ensures FreshOnInterval(HostedChecks(o))
  {
  }

  /**
    The error class decides differently for the three loaders: a policy file that
    is missing or too large falls back to the cache; a policy URL that is not
    https, or whose body is too large or unreadable, does not; for a hosted
    catalog an unreadable body falls back.
   */
  lemma FallbackByClass(
    o: PolicyConfig, h: HostedOptions, file: FileSource, url: UrlSource, now: int, calls: Calls, readable: bool)
    ensures Eligible(PolicySettings(o), FileCall(o, file, now, calls, readable)) <==>
            o.cachePath != "" && o.cacheFallback && ReadPolicyFile(file, o.maxBytes).Failed?
    ensures Eligible(PolicySettings(o), UrlCall(o, url, now, calls, readable)) <==>
            o.cachePath != "" && o.cacheFallback && (url.RequestFails? || url.TransportFails? || url.BadStatus?)
    ensures Eligible(HostedSettings(h), HostedCall(h, url, now, calls, readable)) <==>
            && h.cachePath != "" && h.cacheFallback
            && (url.RequestFails? || url.TransportFails? || url.BadStatus? || url.BodyFails?)
  {
  }

  // ---------------------------------------------------------------- whole runs of the loaders

  /** Without configured trust the protocol step is the refusal the loaders begin with. */
  lemma UntrustedStep<D>(configured: bool, st: Settings<D>, call: Call, files: Files, path: string)
    requires !configured ==> forall data :: !st.checks.trusted(data)
    ensures LoadResult(configured, st, call, files, path) == Step(st, call, CacheAt(files, path))
  {
  }

  /** One request to load the policy, with the clock and whether the cache file can be read. */
  datatype Request =
    | FromFile(file: FileSource, now: int, readable: bool)
    | FromUrl(url: UrlSource, now: int, readable: bool)

  function PolicyCall(o: PolicyConfig, q: Request, calls: Calls): Call {
    match q
    case FromFile(file, now, readable) => FileCall(o, file, now, calls, readable)
    case FromUrl(url, now, readable) => UrlCall(o, url, now, calls, readable)
  }

  /** Whatever the request, the protocol gets bytes from a bounded read. */
  lemma PolicyReadsBounded(o: PolicyConfig, q: Request, calls: Calls)
    ensures ReadsBounded(PolicySettings(o), PolicyCall(o, q, calls))
  {
    match q {
      case FromFile(file, _, _) =>
        if file.Content? && ReadBounded(file.data, o.maxBytes).Got? { ReadBack(file.data, o.maxBytes); }
      case FromUrl(url, _, _) =>
        if url.Body? && ReadBounded(url.data, o.maxBytes).Got? { ReadBack(url.data, o.maxBytes); }
    }
  }

  lemma HostedReadsBounded(o: HostedOptions, source: UrlSource, now: int, calls: Calls, readable: bool)
    ensures ReadsBounded(HostedSettings(o), HostedCall(o, source, now, calls, readable))
  {
    if source.Body? && ReadBounded(source.data, o.maxBytes).Got? { ReadBack(source.data, o.maxBytes); }
  }

  /** A run follows the protocol: bounded sources, each result a protocol step, and the cache it leaves. */
  predicate Follows<D(==)>(st: Settings<D>, calls: seq<Call>, results: seq<Option<D>>, cache: Option<Bytes>) {
    && |results| == |calls| && BoundedSources(st, calls) && cache == CacheAfter(st, calls)
    && forall i :: 0 <= i < |calls| ==> results[i] == Step(st, calls[i], CacheAfter(st, calls[..i])).result
  }

  lemma FollowsOn<D>(st: Settings<D>, calls: seq<Call>, results: seq<Option<D>>, cache: Option<Bytes>, call: Call)
    requires Follows(st, calls, results, cache) && ReadsBounded(st, call)
    ensures Follows(st, calls + [call], results + [Step(st, call, cache).result], Step(st, call, cache).cache)
  {
    var all, out := calls + [call], results + [Step(st, call, cache).result];
    assert all[..|calls|] == calls;
    forall i | 0 <= i < |all| ensures out[i] == Step(st, all[i], CacheAfter(st, all[..i])).result {
      if i < |calls| { assert all[..i] == calls[..i]; }
    }
  }

  /**
    What a run of the loaders returns when it falls back: the document of the
    latest successful source load if that is fresh now, and otherwise nothing.
   */
  lemma {:induction false} RunFallsBack<D>(
    st: Settings<D>, calls: seq<Call>, results: seq<Option<D>>, cache: Option<Bytes>, i: nat, m: nat)
    requires Follows(st, calls, results, cache) && m < |calls| && LatestLoad(st, calls[..m], i)
    requires Eligible(st, calls[m]) && calls[m].cacheReadable
    ensures
      var stored := st.checks.parse(calls[i].source.data);
      && stored.Some?
      && results[m] == if st.checks.freshAt(stored.value, calls[m].now) then stored else None
  {
    assert calls[..m][i] == calls[i];
    FallbackReturnsLatest(st, calls[..m], calls[m], i);
  }

  /** Under a clock that never goes back, a fallback once refused stays refused until a source load succeeds. */
  lemma {:induction false} RunStaysStale<D(!new)>(
    st: Settings<D>, calls: seq<Call>, results: seq<Option<D>>, cache: Option<Bytes>, i: nat, k: nat, m: nat)
    requires FreshOnInterval(st.checks) && Follows(st, calls, results, cache) && ClockNeverBack(calls)
    requires i < k < m < |calls| && LatestLoad(st, calls[..m], i)
    requires Eligible(st, calls[k]) && calls[k].cacheReadable && Eligible(st, calls[m]) && calls[m].cacheReadable
    requires results[k].None?
    ensures results[m].None?
  {
    StaleStaysStale(st, calls, i, k, m);
  }

  /** So for every run of policy loads. */
  lemma {:induction false} PolicyRunStaysStale(
    o: PolicyConfig, requests: seq<Request>, behaved: seq<Calls>, results: seq<Option<Decision>>, cache: Option<Bytes>,
    i: nat, k: nat, m: nat)
    requires |requests| == |behaved|
    requires
      var st, calls := PolicySettings(o), PolicyCalls(o, requests, behaved);
      && Follows(st, calls, results, cache) && ClockNeverBack(calls)
      && i < k < m < |calls| && LatestLoad(st, calls[..m], i)
      && Eligible(st, calls[k]) && calls[k].cacheReadable && Eligible(st, calls[m]) && calls[m].cacheReadable
    ensures results[k].None? ==> results[m].None?
  {
    PolicyFreshOnInterval(o);
    if results[k].None? {
      RunStaysStale(PolicySettings(o), PolicyCalls(o, requests, behaved), results, cache, i, k, m);
    }
  }

  /** And for every run of hosted loads. */
  lemma {:induction false} HostedRunStaysStale(
    o: HostedOptions, requests: seq<HostedRequest>, behaved: seq<Calls>, results: seq<Option<Document>>,
    cache: Option<Bytes>, i: nat, k: nat, m: nat)
    requires |requests| == |behaved|
    requires
      var st, calls := HostedSettings(o), HostedCalls(o, requests, behaved);
      && Follows(st, calls, results, cache) && ClockNeverBack(calls)
      && i < k < m < |calls| && LatestLoad(st, calls[..m], i)
      && Eligible(st, calls[k]) && calls[k].cacheReadable && Eligible(st, calls[m]) && calls[m].cacheReadable
    ensures results[k].None? ==> results[m].None?
  {
    HostedFreshOnInterval(o);
    if results[k].None? {
      RunStaysStale(HostedSettings(o), HostedCalls(o, requests, behaved), results, cache, i, k, m);
    }
  }

  /** How the file system behaves at each request; what `os.CreateTemp` gives is always a new file. */
  ghost predicate AlwaysFresh(behaves: (nat, Files) -> Calls, path: string) {
    forall i, files :: FreshTemp(files, path, behaves(i, files))
  }

  /** One policy load, as a protocol step on the cache file. */
  method ServePolicy(disk: Disk, o: PolicyConfig, q: Request, calls: Calls) returns (r: Option<Decision>)
    requires FreshTemp(disk.files, o.cachePath, calls)
    modifies disk
    ensures
      var out := Step(PolicySettings(o), PolicyCall(o, q, calls), CacheAt(old(disk.files), o.cachePath));
      r == out.result && CacheAt(disk.files, o.cachePath) == out.cache
  {
    UntrustedStep(Signed(o.trust), PolicySettings(o), PolicyCall(o, q, calls), disk.files, o.cachePath);
    match q
    case FromFile(file, now, readable) => r := LoadFile(disk, o, file, now, calls, readable);
    case FromUrl(url, now, readable) => r := LoadUrl(disk, o, url, now, calls, readable);
  }

  /** The protocol calls of a run of requests, given how the file system behaved at each. */
  function PolicyCalls(o: PolicyConfig, requests: seq<Request>, behaved: seq<Calls>): seq<Call>
    requires |requests| == |behaved|
  {
    seq(|requests|, i requires 0 <= i < |requests| => PolicyCall(o, requests[i], behaved[i]))
  }

  lemma PolicyCallsGrow(o: PolicyConfig, requests: seq<Request>, behaved: seq<Calls>, i: nat, fs: Calls)
    requires |behaved| == i < |requests|
    ensures PolicyCalls(o, requests[..i + 1], behaved + [fs])
            == PolicyCalls(o, requests[..i], behaved) + [PolicyCall(o, requests[i], fs)]
  {
  }

  /**
    Any run of policy loads on a disk without a cache file, by file or URL, with
    any source, write and read failures and any clock, follows the protocol.
   */
  method RunPolicyLoads(disk: Disk, o: PolicyConfig, requests: seq<Request>, behaves: (nat, Files) -> Calls)
    returns (results: seq<Option<Decision>>, ghost behaved: seq<Calls>)
    requires AlwaysFresh(behaves, o.cachePath) && o.cachePath !in disk.files
    modifies disk
    ensures |behaved| == |requests|
    ensures Follows(PolicySettings(o), PolicyCalls(o, requests, behaved), results, CacheAt(disk.files, o.cachePath))
  {
    results, behaved := [], [];
    ghost var calls: seq<Call> := [];
    for i := 0 to |requests|
      invariant |behaved| == i && calls == PolicyCalls(o, requests[..i], behaved)
      invariant Follows(PolicySettings(o), calls, results, CacheAt(disk.files, o.cachePath))
    {
      var fs := behaves(i, disk.files);
      ghost var call := PolicyCall(o, requests[i], fs);
      PolicyReadsBounded(o, requests[i], fs);
      FollowsOn(PolicySettings(o), calls, results, CacheAt(disk.files, o.cachePath), call);
      PolicyCallsGrow(o, requests, behaved, i, fs);
      var r := ServePolicy(disk, o, requests[i], fs);
      results, calls, behaved := results + [r], calls + [call], behaved + [fs];
    }
    assert requests[..|requests|] == requests;
  }

  datatype HostedRequest = HostedRequest(url: UrlSource, now: int, readable: bool)

  function HostedCalls(o: HostedOptions, requests: seq<HostedRequest>, behaved: seq<Calls>): seq<Call>
    requires |requests| == |behaved|
  {
    seq(|requests|, i requires 0 <= i < |requests| =>
      HostedCall(o, requests[i].url, requests[i].now, behaved[i], requests[i].readable))
  }

  lemma HostedCallsGrow(o: HostedOptions, requests: seq<HostedRequest>, behaved: seq<Calls>, i: nat, fs: Calls)
    requires |behaved| == i < |requests|
    ensures HostedCalls(o, requests[..i + 1], behaved + [fs])
            == HostedCalls(o, requests[..i], behaved)
               + [HostedCall(o, requests[i].url, requests[i].now, fs, requests[i].readable)]
  {
  }

  method ServeHosted(disk: Disk, o: HostedOptions, q: HostedRequest, calls: Calls) returns (r: Option<Document>)
    requires FreshTemp(disk.files, o.cachePath, calls)
    modifies disk
    ensures
      var call := HostedCall(o, q.url, q.now, calls, q.readable);
      var out := Step(HostedSettings(o), call, CacheAt(old(disk.files), o.cachePath));
      r == out.result && CacheAt(disk.files, o.cachePath) == out.cache
  {
    ghost var call := HostedCall(o, q.url, q.now, calls, q.readable);
    UntrustedStep(HostedConfigured(o), HostedSettings(o), call, disk.files, o.cachePath);
    r := LoadHosted(disk, o, q.url, q.now, calls, q.readable);
  }

  /** The same for hosted catalogs. */
  method RunHostedLoads(disk: Disk, o: HostedOptions, requests: seq<HostedRequest>, behaves: (nat, Files) -> Calls)
    returns (results: seq<Option<Document>>, ghost behaved: seq<Calls>)
    requires AlwaysFresh(behaves, o.cachePath) && o.cachePath !in disk.files
    modifies disk
    ensures |behaved| == |requests|
    ensures Follows(HostedSettings(o), HostedCalls(o, requests, behaved), results, CacheAt(disk.files, o.cachePath))
  {
    results, behaved := [], [];
    ghost var calls: seq<Call> := [];
    for i := 0 to |requests|
      invariant |behaved| == i && calls == HostedCalls(o, requests[..i], behaved)
      invariant Follows(HostedSettings(o), calls, results, CacheAt(disk.files, o.cachePath))
    {
      var fs, q := behaves(i, disk.files), requests[i];
      ghost var call := HostedCall(o, q.url, q.now, fs, q.readable);
      HostedReadsBounded(o, q.url, q.now, fs, q.readable);
      FollowsOn(HostedSettings(o), calls, results, CacheAt(disk.files, o.cachePath), call);
      HostedCallsGrow(o, requests, behaved, i, fs);
      var r := ServeHosted(disk, o, q, fs);
      results, calls, behaved := results + [r], calls + [call], behaved + [fs];
    }
    assert requests[..|requests|] == requests;
  }
}
