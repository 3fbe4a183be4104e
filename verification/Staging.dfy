/**
  Fetching, verifying and staging boot artifacts, step by step: the shared steps
  and the linux provider (internal/providers/linux/provider.go).
 */
module Staging {
  import opened Common
  import opened Text
  import opened Provider
  import opened Checksums
  import opened SourcePaths
  import opened Cmdline
  import Options

  datatype Operation = Fetch | Verify | Write

  datatype Phase = Started | Completed

  /** What a run does that can be seen from outside: progress events and file writes. */
  datatype Step = Progress(op: Operation, phase: Phase, artifact: string) | FileWrite(path: string, data: Bytes)

  datatype WriteOutcome = Written | Untouched | Partial(left: Bytes)

  /**
    Everything outside the code.  Answers may depend on all steps so far, so any
    pattern of fetch, callback and write failures is covered.
   */
  datatype World = World(
    fetch: (seq<Step>, string) -> Option<Bytes>,
    accept: seq<Step> -> bool,
    write: (seq<Step>, string, Bytes) -> WriteOutcome,
    hash: Bytes -> string,
    https: string -> bool)

  /** The callback never refuses and every write succeeds. */
  ghost predicate Obliging(w: World) {
    (forall log :: w.accept(log)) && forall log, path, data :: w.write(log, path, data).Written?
  }

  /** Every fetch of the URL gives these bytes. */
  ghost predicate Serves(w: World, url: string, data: Bytes) {
    forall log :: w.fetch(log, url) == Some(data)
  }

  /** No file outside `paths` was created, removed or changed. */
  predicate SameExcept(a: map<string, Bytes>, b: map<string, Bytes>, paths: set<string>) {
    a - paths == b - paths
  }

  lemma SameExceptChain(a: map<string, Bytes>, b: map<string, Bytes>, c: map<string, Bytes>, p: string, q: string)
    requires SameExcept(a, b, {p}) && SameExcept(b, c, {q})
    ensures SameExcept(a, c, {p, q})
  {
    KeptThrough(a, b, c, p, q);
    KeptThrough(c, b, a, q, p);
    assert a - {p, q} == c - {p, q};
  }

  lemma KeptThrough(a: map<string, Bytes>, b: map<string, Bytes>, c: map<string, Bytes>, p: string, q: string)
    requires SameExcept(a, b, {p}) && SameExcept(b, c, {q})
    ensures forall k :: k in a && k != p && k != q ==> k in c && c[k] == a[k]
  {
    forall k | k in a && k != p && k != q ensures k in c && c[k] == a[k] {
      assert k in a - {p} && k in b - {p};
      assert a[k] == (a - {p})[k] == (b - {p})[k] == b[k];
      assert k in b - {q} && k in c - {q};
      assert b[k] == (b - {q})[k] == (c - {q})[k] == c[k];
    }
  }

  class Stager {
    const world: World
    var log: seq<Step>
    var files: map<string, Bytes>

    constructor (w: World, disk: map<string, Bytes>)
      ensures world == w && log == [] && files == disk
    {
      world, log, files := w, [], disk;
    }

    /** An event is delivered before the callback can refuse it. */
    method Report(op: Operation, phase: Phase, artifact: string) returns (ok: bool)
      modifies this`log
      ensures log == old(log) + [Progress(op, phase, artifact)] && ok == world.accept(log)
    {
      log := log + [Progress(op, phase, artifact)];
      ok := world.accept(log);
    }

    /** `os.WriteFile`; a failed write may leave other bytes behind. */
    method WriteFile(path: string, data: Bytes) returns (ok: bool)
      modifies this
      ensures log == old(log) + [FileWrite(path, data)]
      ensures ok == world.write(old(log), path, data).Written?
      ensures ok ==> files == old(files)[path := data]
      ensures SameExcept(old(files), files, {path})
    {
      var outcome := world.write(log, path, data);
      log := log + [FileWrite(path, data)];
      match outcome
      case Written =>
        files := files[path := data];
        ok := true;
      case Untouched =>
        ok := false;
      case Partial(left) =>
        files := files[path := left];
        ok := false;
    }

    /** The fetch bracket. */
    method FetchWithProgress(url: string, artifact: string) returns (r: Option<Bytes>, ghost n: nat)
      modifies this`log
      ensures n <= 2 && log == old(log) + Bracket(Fetch, artifact)[..n]
      ensures r.Some? ==> n == 2
      ensures Obliging(world) ==> forall data :: Serves(world, url, data) ==> r == Some(data)
    {
      n := 1;
      var ok := Report(Fetch, Started, artifact);
      if !ok {
        return None, n;
      }
      var data := world.fetch(log, url);
      if data.None? {
        return None, n;
      }
      ok := Report(Fetch, Completed, artifact);
      n := 2;
      if !ok {
        return None, n;
      }
      return data, n;
    }

    /** The write bracket, around the file write itself. */
    method WriteWithProgress(path: string, data: Bytes, artifact: string) returns (ok: bool, ghost n: nat)
      modifies this
      ensures n <= 3 && log == old(log) + WriteSteps(path, data, artifact)[..n]
      ensures ok ==> n == 3 && files == old(files)[path := data]
      ensures n < 2 ==> files == old(files)
      ensures Obliging(world) ==> ok
      ensures SameExcept(old(files), files, {path})
    {
      n := 1;
      ok := Report(Write, Started, artifact);
      if !ok {
        return;
      }
      ok := WriteFile(path, data);
      n := 2;
      assert WriteSteps(path, data, artifact)[..2] == [Progress(Write, Started, artifact), FileWrite(path, data)];
      if !ok {
        return;
      }
      ok := Report(Write, Completed, artifact);
      n := 3;
    }
  }

  function Bracket(op: Operation, artifact: string): seq<Step> {
    [Progress(op, Started, artifact), Progress(op, Completed, artifact)]
  }

  function WriteSteps(path: string, data: Bytes, artifact: string): seq<Step> {
    [Progress(Write, Started, artifact), FileWrite(path, data), Progress(Write, Completed, artifact)]
  }

  /** The canonical steps for one artifact. */
  function ArtifactSteps(name: string, verified: bool, path: string, data: Bytes, writeName: string): (steps: seq<Step>)
    ensures |steps| == if verified then 7 else 5
  {
    Bracket(Fetch, name) + (if verified then Bracket(Verify, name) else []) + WriteSteps(path, data, writeName)
  }

  /** Position of the file write among the canonical steps. */
  function WriteIndex(verified: bool): nat {
    if verified then 5 else 3
  }

  // ---------------------------------------------------------------- linux provider

  /** A nameless artifact is staged under the last element of its URL. */
  function StageName(a: Artifact): string {
    if a.name == "" then Base(a.url) else a.name
  }

  function StagePath(dir: string, a: Artifact): string {
    JoinPath(dir, StageName(a))
  }

  function LinuxSteps(dir: string, a: Artifact, data: Bytes): (steps: seq<Step>)
    ensures |steps| == if a.sha256 != "" then 7 else 5
  {
    ArtifactSteps(a.name, a.sha256 != "", StagePath(dir, a), data, StageName(a))
  }

  /** The pin, if there is one, matches. */
  predicate PinHolds(hash: Bytes -> string, a: Artifact, data: Bytes) {
    a.sha256 != "" ==> LowerOf(hash(data), a.sha256)
  }

  /**
    `fetchStageVerify`: whatever fails, the steps taken are a prefix of the
    canonical ones; the file is only written after its pin matched; success means
    all steps were taken and the file holds the fetched bytes.  Nothing else makes
    it fail: with matching bytes and no failure outside, it succeeds.
   */
  method FetchStageVerify(s: Stager, dir: string, a: Artifact)
    returns (r: Option<string>, ghost data: Bytes, ghost n: nat)
    modifies s
    ensures n <= |LinuxSteps(dir, a, data)| && s.log == old(s.log) + LinuxSteps(dir, a, data)[..n]
    ensures n > WriteIndex(a.sha256 != "") - 1 ==> PinHolds(s.world.hash, a, data)
    ensures n <= WriteIndex(a.sha256 != "") ==> s.files == old(s.files)
    ensures r.Some? ==> n == |LinuxSteps(dir, a, data)| && r.value == StagePath(dir, a)
                        && s.files == old(s.files)[r.value := data]
    ensures SameExcept(old(s.files), s.files, {StagePath(dir, a)})
    ensures forall d ::
      (Obliging(s.world) && Serves(s.world, a.url, d) && PinHolds(s.world.hash, a, d) ==> r.Some? && data == d)
  {
    var fetched;
    fetched, data, n := FetchVerify(s, dir, a);
    if fetched.None? {
      return None, data, n;
    }
    var ok, w := s.WriteWithProgress(StagePath(dir, a), fetched.value, StageName(a));
    WritePrefix(dir, a, data, w);
    n := n + w;
    return if ok then Some(StagePath(dir, a)) else None, data, n;
  }

  /** The first half: fetch, then check the pin if there is one. */
  method FetchVerify(s: Stager, dir: string, a: Artifact) returns (r: Option<Bytes>, ghost data: Bytes, ghost n: nat)
    modifies s`log
    ensures n <= WriteIndex(a.sha256 != "") - 1 && s.log == old(s.log) + LinuxSteps(dir, a, data)[..n]
    ensures r.Some? ==> r.value == data && n == WriteIndex(a.sha256 != "") - 1 && PinHolds(s.world.hash, a, data)
    ensures forall d ::
      (Obliging(s.world) && Serves(s.world, a.url, d) && PinHolds(s.world.hash, a, d) ==> r.Some? && data == d)
  {
    var fetched, k := s.FetchWithProgress(a.url, a.name);
    n, data := k, if fetched.Some? then fetched.value else [];
    FetchPrefix(dir, a, data, n);
    if fetched.None? || a.sha256 == "" {
      return fetched, data, n;
    }
    var ok, v := VerifyPin(s, a, fetched.value);
    n := 2 + v;
    VerifyPrefix(dir, a, data, v);
    return if ok then fetched else None, data, n;
  }

  lemma FetchPrefix(dir: string, a: Artifact, data: Bytes, n: nat)
    requires n <= 2
    ensures LinuxSteps(dir, a, data)[..n] == Bracket(Fetch, a.name)[..n]
  {
  }

  lemma VerifyPrefix(dir: string, a: Artifact, data: Bytes, v: nat)
    requires a.sha256 != "" && v <= 2
    ensures LinuxSteps(dir, a, data)[..2 + v] == LinuxSteps(dir, a, data)[..2] + Bracket(Verify, a.name)[..v]
  {
  }

  lemma WritePrefix(dir: string, a: Artifact, data: Bytes, w: nat)
    requires w <= 3
    ensures
      var steps, n := LinuxSteps(dir, a, data), WriteIndex(a.sha256 != "") - 1;
      steps[..n + w] == steps[..n] + WriteSteps(StagePath(dir, a), data, StageName(a))[..w]
  {
  }

  /** The verification bracket. */
  method VerifyPin(s: Stager, a: Artifact, data: Bytes) returns (ok: bool, ghost n: nat)
    modifies s`log
    ensures n <= 2 && s.log == old(s.log) + Bracket(Verify, a.name)[..n]
    ensures n == 2 ==> a.sha256 != "" && LowerOf(s.world.hash(data), a.sha256)
    ensures ok ==> n == 2
    ensures Obliging(s.world) && a.sha256 != "" && LowerOf(s.world.hash(data), a.sha256) ==> ok
  {
    HashMatchesIff(s.world.hash, data, a.sha256);
    n := 1;
    ok := s.Report(Verify, Started, a.name);
    if !ok || !HashMatches(s.world.hash, data, a.sha256) {
      return false, n;
    }
    ok := s.Report(Verify, Completed, a.name);
    n := 2;
  }

  /** The URLs that are present, in order and as often as they occur. */
  function NonEmpty(urls: seq<string>): (kept: seq<string>)
    ensures forall u :: multiset(kept)[u] == if u == "" then 0 else multiset(urls)[u]
  {
    if urls == [] then []
    else
      var front, last := urls[..|urls| - 1], urls[|urls| - 1];
      assert urls == front + [last];
      NonEmpty(front) + (if last == "" then [] else [last])
  }

  /** `nonEmptyURLs`. */
  method NonEmptyUrls(urls: seq<string>) returns (kept: seq<string>)
    ensures kept == NonEmpty(urls)
  {
    kept := [];
    for i := 0 to |urls|
      invariant kept == NonEmpty(urls[..i])
    {
      assert urls[..i + 1][..i] == urls[..i];
      if urls[i] != "" {
        kept := kept + [urls[i]];
      }
    }
    assert urls[..|urls|] == urls;
  }

  /** `requireHTTPS`. */
  method RequireHttps(https: string -> bool, urls: seq<string>) returns (ok: bool)
    ensures ok <==> forall u :: u in urls ==> https(u)
  {
    for i := 0 to |urls|
      invariant forall u :: u in urls[..i] ==> https(u)
    {
      if !https(urls[i]) {
        return false;
      }
    }
    assert urls[..|urls|] == urls;
    return true;
  }

  /** A kernel URL is required, and every URL present must be https. */
  method UrlsUsable(https: string -> bool, plan: BootPlan) returns (ok: bool)
    ensures ok <==> UrlsOk(https, plan)
  {
    if plan.kernel.url == "" {
      return false;
    }
    var urls := NonEmptyUrls([plan.kernel.url, plan.initrd.url]);
    ok := RequireHttps(https, urls);
    PresentUrls(plan.kernel.url, plan.initrd.url);
  }

  lemma PresentUrls(a: string, b: string)
    ensures forall u :: u in NonEmpty([a, b]) <==> u != "" && (u == a || u == b)
  {
    assert [a, b][..1] == [a] && [a][..0] == [];
    assert NonEmpty([a]) == if a == "" then [] else [a];
  }

  /** A plan without initrd has nothing more to do after the kernel. */
  function InitrdSteps(dir: string, a: Artifact, data: Bytes): seq<Step> {
    if a.url == "" then [] else LinuxSteps(dir, a, data)
  }

  function WithInitrd(files: map<string, Bytes>, dir: string, a: Artifact, data: Bytes): map<string, Bytes> {
    if a.url == "" then files else files[StagePath(dir, a) := data]
  }

  function StagedInitrd(dir: string, a: Artifact): Artifact {
    if a.url == "" then a else a.(path := StagePath(dir, a))
  }

  predicate InitrdPinHolds(hash: Bytes -> string, a: Artifact, data: Bytes) {
    a.url != "" ==> PinHolds(hash, a, data)
  }

  /** The canonical steps of a whole run. */
  function PlanSteps(dir: string, plan: BootPlan, kernel: Bytes, initrd: Bytes): seq<Step> {
    LinuxSteps(dir, plan.kernel, kernel) + InitrdSteps(dir, plan.initrd, initrd)
  }

  /** The disk after a complete run. */
  function StagedFiles(files: map<string, Bytes>, dir: string, plan: BootPlan, kernel: Bytes, initrd: Bytes)
    : map<string, Bytes>
  {
    WithInitrd(files[StagePath(dir, plan.kernel) := kernel], dir, plan.initrd, initrd)
  }

  function StagedPlan(dir: string, plan: BootPlan): BootPlan {
    plan.(kernel := plan.kernel.(path := StagePath(dir, plan.kernel)), initrd := StagedInitrd(dir, plan.initrd))
  }

  predicate UrlsOk(https: string -> bool, plan: BootPlan) {
    plan.kernel.url != "" && https(plan.kernel.url) && (plan.initrd.url != "" ==> https(plan.initrd.url))
  }

  /** Every pin matched, and every URL is https. */
  predicate PlanTrusted(w: World, plan: BootPlan, kernel: Bytes, initrd: Bytes) {
    && UrlsOk(w.https, plan)
    && PinHolds(w.hash, plan.kernel, kernel) && InitrdPinHolds(w.hash, plan.initrd, initrd)
  }

  /** Every file whose write is among the first `n` canonical steps matched its pin. */
  predicate WrittenPinsHold(hash: Bytes -> string, plan: BootPlan, kernel: Bytes, initrd: Bytes, n: nat) {
    var kernelSteps := if plan.kernel.sha256 != "" then 7 else 5;
    && (n >= WriteIndex(plan.kernel.sha256 != "") ==> PinHolds(hash, plan.kernel, kernel))
    && (n >= kernelSteps + WriteIndex(plan.initrd.sha256 != "") ==> InitrdPinHolds(hash, plan.initrd, initrd))
  }

  /** Nothing outside the code fails, and the sources serve bytes that match the pins. */
  ghost predicate Servable(w: World, dir: string, plan: BootPlan, kernel: Bytes, initrd: Bytes) {
    && dir != "" && Obliging(w) && PlanTrusted(w, plan, kernel, initrd)
    && Serves(w, plan.kernel.url, kernel) && (plan.initrd.url != "" ==> Serves(w, plan.initrd.url, initrd))
  }

  /** `FetchAndStageArtifacts` of the linux provider. */
  method FetchAndStageArtifacts(s: Stager, dir: string, plan: BootPlan)
    returns (r: Option<BootPlan>, ghost kernel: Bytes, ghost initrd: Bytes, ghost n: nat)
    modifies s
    ensures n <= |PlanSteps(dir, plan, kernel, initrd)|
    ensures s.log == old(s.log) + PlanSteps(dir, plan, kernel, initrd)[..n]
    ensures WrittenPinsHold(s.world.hash, plan, kernel, initrd, n)
    ensures r.Some? ==>
      && n == |PlanSteps(dir, plan, kernel, initrd)|
      && s.files == StagedFiles(old(s.files), dir, plan, kernel, initrd)
      && PlanTrusted(s.world, plan, kernel, initrd)
      && r.value == StagedPlan(dir, plan)
    ensures forall k, i :: Servable(s.world, dir, plan, k, i) ==>
      r.Some? && kernel == k && (plan.initrd.url != "" ==> initrd == i)
    ensures SameExcept(old(s.files), s.files, {StagePath(dir, plan.kernel), StagePath(dir, plan.initrd)})
  {
    kernel, initrd, n := [], [], 0;
    var secure := UrlsUsable(s.world.https, plan);
    if dir == "" || !secure {
      return None, kernel, initrd, n;
    }
    var kernelPath;
    ghost var start, disk := s.log, s.files;
    kernelPath, kernel, n := FetchStageVerify(s, dir, plan.kernel);
    if kernelPath.None? {
      KernelPrefix(dir, plan, kernel, initrd, n);
      SameExceptChain(disk, s.files, s.files, StagePath(dir, plan.kernel), StagePath(dir, plan.initrd));
      return None, kernel, initrd, n;
    }
    ghost var between, m := s.files, 0;
    var staged;
    staged, initrd, m := StageInitrd(s, dir, plan.initrd);
    SameExceptChain(disk, between, s.files, StagePath(dir, plan.kernel), StagePath(dir, plan.initrd));
    AppendPrefix(start, LinuxSteps(dir, plan.kernel, kernel), InitrdSteps(dir, plan.initrd, initrd), m);
    n := n + m;
    if staged.None? {
      return None, kernel, initrd, n;
    }
    r := Some(plan.(kernel := plan.kernel.(path := kernelPath.value), initrd := staged.value));
  }

  /** The second half of a run: the initrd, if the plan has one. */
  method StageInitrd(s: Stager, dir: string, a: Artifact) returns (r: Option<Artifact>, ghost data: Bytes, ghost m: nat)
    modifies s
    ensures m <= |InitrdSteps(dir, a, data)| && s.log == old(s.log) + InitrdSteps(dir, a, data)[..m]
    ensures m >= WriteIndex(a.sha256 != "") ==> InitrdPinHolds(s.world.hash, a, data)
    ensures r.Some? ==>
      && m == |InitrdSteps(dir, a, data)| && s.files == WithInitrd(old(s.files), dir, a, data)
      && r.value == StagedInitrd(dir, a) && InitrdPinHolds(s.world.hash, a, data)
    ensures SameExcept(old(s.files), s.files, {StagePath(dir, a)})
    ensures a.url == "" ==> r.Some?
    ensures forall d ::
      (Obliging(s.world) && Serves(s.world, a.url, d) && PinHolds(s.world.hash, a, d)
       ==> r.Some? && (a.url != "" ==> data == d))
  {
    if a.url == "" {
      return Some(a), [], 0;
    }
    var path;
    path, data, m := FetchStageVerify(s, dir, a);
    r := if path.None? then None else Some(a.(path := path.value));
  }

  lemma KernelPrefix(dir: string, plan: BootPlan, kernel: Bytes, initrd: Bytes, n: nat)
    requires n <= |LinuxSteps(dir, plan.kernel, kernel)|
    ensures PlanSteps(dir, plan, kernel, initrd)[..n] == LinuxSteps(dir, plan.kernel, kernel)[..n]
  {
  }

  lemma AppendPrefix(start: seq<Step>, a: seq<Step>, b: seq<Step>, m: nat)
    requires m <= |b|
    ensures start + a[..|a|] + b[..m] == start + (a + b)[..|a| + m]
  {
  }

  // ---------------------------------------------------------------- what the canonical steps mean

  /** In every prefix of the canonical steps of a pinned artifact, a write follows its completed verification. */
  lemma VerifiedBeforeWrite(name: string, path: string, data: Bytes, writeName: string, n: nat, i: nat)
    requires n <= |ArtifactSteps(name, true, path, data, writeName)| && i < n
    requires ArtifactSteps(name, true, path, data, writeName)[i].FileWrite?
    ensures Progress(Verify, Completed, name) in ArtifactSteps(name, true, path, data, writeName)[..i]
  {
    var steps := ArtifactSteps(name, true, path, data, writeName);
    assert i == 5;
    assert steps[..5][3] == Progress(Verify, Completed, name);
  }

  lemma ChildInjective(dir: string, a: string, b: string)
    requires Child(dir, a) == Child(dir, b)
    ensures a == b
  {
    var front := if dir == "." then "" else if dir == SLASH then SLASH else dir + SLASH;
    assert Child(dir, a) == front + a && Child(dir, b) == front + b;
    assert a == (front + a)[|front|..] && b == (front + b)[|front|..];
  }

  /**
    After a complete run the staged kernel still hashes to its pin exactly when it
    has none, when no initrd was staged at the same path, or when the initrd's
    bytes hash to the kernel's pin too.  Otherwise the initrd has replaced it.
   */
  lemma KernelPinSurvivesIff(
    w: World, files: map<string, Bytes>, dir: string, plan: BootPlan, kernel: Bytes, initrd: Bytes)
    requires PlanTrusted(w, plan, kernel, initrd)
    ensures
      var disk := StagedFiles(files, dir, plan, kernel, initrd);
      && (plan.initrd.url != "" ==> PinHolds(w.hash, plan.initrd, disk[StagePath(dir, plan.initrd)]))
      && (PinHolds(w.hash, plan.kernel, disk[StagePath(dir, plan.kernel)]) <==>
            || plan.kernel.sha256 == "" || plan.initrd.url == ""
            || StagePath(dir, plan.kernel) != StagePath(dir, plan.initrd)
            || LowerOf(w.hash(initrd), plan.kernel.sha256))
    ensures plan.initrd.url != "" && plan.initrd.sha256 != "" && plan.kernel.sha256 != "" ==>
      (LowerOf(w.hash(initrd), plan.kernel.sha256) <==> ToLower(plan.kernel.sha256) == ToLower(plan.initrd.sha256))
  {
    ToLowerIff(w.hash(initrd), plan.kernel.sha256);
    ToLowerIff(w.hash(initrd), plan.initrd.sha256);
  }

  /** Plain file names are staged at the same path exactly when they are the same. */
  lemma SamePathIff(dir: string, a: Artifact, b: Artifact)
    requires dir != "" && PlainElem(StageName(a)) && '/' !in StageName(a)
    requires PlainElem(StageName(b)) && '/' !in StageName(b)
    ensures StagePath(dir, a) == StagePath(dir, b) <==> StageName(a) == StageName(b)
  {
    JoinIsChild(dir, StageName(a));
    JoinIsChild(dir, StageName(b));
    if StagePath(dir, a) == StagePath(dir, b) {
      ChildInjective(Clean(dir), StageName(a), StageName(b));
    }
  }

  // ---------------------------------------------------------------- planning

  function PlannedArtifact(baseUrl: string, path: string, sha256: string): Artifact {
    Artifact(Base(path), JoinUrlPath(baseUrl, path), ToLower(sha256), "")
  }

  /** `Plan` of the linux provider, for the target it has selected. */
  function LinuxPlan(target: Target, options: seq<SelectedOption>): Result<BootPlan> {
    var source := target.source;
    var baseUrl := StripTrailingSlashes(source.baseUrl);
    if !ResolveAction(target.action).LinuxKexec? || baseUrl == "" || source.kernelPath == "" then Err
    else ApplySelectedOptions(BarePlan(target, baseUrl), options)
  }

  /** The plan before options are applied. */
  function BarePlan(target: Target, baseUrl: string): BootPlan {
    var source := target.source;
    var initrd := if source.initrdPath == "" then Artifact("", "", "", "")
                  else PlannedArtifact(baseUrl, source.initrdPath, source.initrdSha256);
    BootPlan(target, LinuxKexec, PlannedArtifact(baseUrl, source.kernelPath, source.kernelSha256), initrd,
             ReplaceAll(source.cmdline, "{base_url}", baseUrl), [], [])
  }

  /** Exactly when a target can be planned. */
  lemma LinuxPlanIff(target: Target, options: seq<SelectedOption>)
    ensures LinuxPlan(target, options).Ok? <==>
      && (target.action.Unset? || target.action.LinuxKexec?)
      && (exists i :: 0 <= i < |target.source.baseUrl| && target.source.baseUrl[i] != '/')
      && target.source.kernelPath != "" && Options.Compile(target.options, options).Ok?
  {
    var url := target.source.baseUrl;
    var base := StripTrailingSlashes(url);
    if base != "" {
      assert url[|base| - 1] == base[|base| - 1];
    }
  }

  const BASE_URL: string := "{base_url}"

  lemma BaseUrlBorderless()
    ensures Borderless(BASE_URL)
  {
    assert BASE_URL[0] == '{' && BASE_URL[1] == 'b' && BASE_URL[2] == 'a' && BASE_URL[3] == 's' && BASE_URL[4] == 'e';
    assert BASE_URL[5] == '_' && BASE_URL[6] == 'u' && BASE_URL[7] == 'r' && BASE_URL[8] == 'l' && BASE_URL[9] == '}';
    forall k | 0 < k < |BASE_URL| ensures BASE_URL[k..] != BASE_URL[..|BASE_URL| - k] {
      assert BASE_URL[k..][0] == BASE_URL[k] && BASE_URL[..|BASE_URL| - k][0] == '{';
    }
  }

  /**
    The planned command line: the target's, with the base URL in place of every
    `{base_url}`, then the tokens of the selected options.  Nothing else is set.
   */
  lemma {:induction false} PlannedCmdline(target: Target, options: seq<SelectedOption>)
    returns (parts: seq<string>, pieces: seq<string>)
    requires LinuxPlan(target, options).Ok? && TemplatesValid(target.options)
    ensures parts != [] && target.source.cmdline == Join(parts, "{base_url}")
    ensures forall i :: 0 <= i < |parts| ==> !Occurs("{base_url}", parts[i])
    ensures PiecesOf(target.options, options, pieces)
    ensures
      var plan, baseUrl := LinuxPlan(target, options).value, StripTrailingSlashes(target.source.baseUrl);
      && Fields(plan.cmdline) == Fields(Join(parts, baseUrl)) + Tokens(pieces)
      && plan.target == target && plan.action == LinuxKexec && plan.kbootArgs == [] && plan.secretRefs == []
  {
    var baseUrl := StripTrailingSlashes(target.source.baseUrl);
    parts := JoinedPieces(target.source.cmdline, BASE_URL);
    BaseUrlBorderless();
    ReplaceAllJoin(parts, BASE_URL, baseUrl);
    var cmdline := ReplaceAll(target.source.cmdline, BASE_URL, baseUrl);
    pieces := CompiledPieces(target.options, options);
    JoinTokens(Options.Compile(target.options, options).value);
    TokensOfPieces(pieces);
    AppendTokens(cmdline, Join(Options.Compile(target.options, options).value, " "));
  }

  lemma {:induction false} StripTwice(p: string)
    ensures StripTrailingSlashes(StripTrailingSlashes(p)) == StripTrailingSlashes(p)
  {
    if p != "" && p[|p| - 1] == '/' { StripTwice(p[..|p| - 1]); }
  }

  /**
    An artifact planned from a path and a pin: named by the last element of the
    path, fetched from the base URL, a slash and the path, pinned to the pin in
    lower case, and staged directly under the directory.
   */
  predicate Placed(a: Artifact, dir: string, baseUrl: string, path: string, pin: string) {
    var elems := Split(path, '/');
    && a.name == elems[|elems| - 1] && PlainElem(a.name) && '/' !in a.name
    && a.url == baseUrl + "/" + path && LowerOf(a.sha256, pin) && a.path == ""
    && StagePath(dir, a) == Child(Clean(dir), a.name)
  }

  /** Planning a target with accepted source paths places its kernel and, if it has one, its initrd that way. */
  lemma PlannedPlaces(urlOk: string -> bool, target: Target, options: seq<SelectedOption>, dir: string)
    requires LinuxPlan(target, options).Ok? && dir != ""
    requires PathAccepted(urlOk, target.source.kernelPath) && PathAccepted(urlOk, target.source.initrdPath)
    ensures
      var plan, source := LinuxPlan(target, options).value, target.source;
      var baseUrl := StripTrailingSlashes(source.baseUrl);
      && Placed(plan.kernel, dir, baseUrl, source.kernelPath, source.kernelSha256)
      && (if source.initrdPath == "" then plan.initrd == Artifact("", "", "", "")
          else Placed(plan.initrd, dir, baseUrl, source.initrdPath, source.initrdSha256))
  {
    var source := target.source;
    PlanArtifacts(target, options);
    PlannedPlace(urlOk, source.kernelPath, source.kernelSha256, source.baseUrl, dir);
    if source.initrdPath != "" {
      PlannedPlace(urlOk, source.initrdPath, source.initrdSha256, source.baseUrl, dir);
    }
  }

  /** Selected options change neither artifact. */
  lemma PlanArtifacts(target: Target, options: seq<SelectedOption>)
    requires LinuxPlan(target, options).Ok?
    ensures
      var plan, source := LinuxPlan(target, options).value, target.source;
      var baseUrl := StripTrailingSlashes(source.baseUrl);
      && source.kernelPath != ""
      && plan.kernel == PlannedArtifact(baseUrl, source.kernelPath, source.kernelSha256)
      && (if source.initrdPath == "" then plan.initrd == Artifact("", "", "", "")
          else plan.initrd == PlannedArtifact(baseUrl, source.initrdPath, source.initrdSha256))
  {
    var source := target.source;
    var baseUrl := StripTrailingSlashes(source.baseUrl);
    ApplyKeepsRest(BarePlan(target, baseUrl), options);
  }

  lemma PlannedPlace(urlOk: string -> bool, path: string, sha256: string, baseUrl: string, dir: string)
    requires path != "" && dir != "" && PathAccepted(urlOk, path)
    ensures
      var base := StripTrailingSlashes(baseUrl);
      Placed(PlannedArtifact(base, path, sha256), dir, base, path, sha256)
  {
    ToLowerIff(ToLower(sha256), sha256);
    StripTwice(baseUrl);
    AcceptedPathPlaces(urlOk, path, StripTrailingSlashes(baseUrl), dir);
    PathAcceptedIff(urlOk, path);
    BaseIsPlain(path);
  }

  // ---------------------------------------------------------------- a plan that loses its kernel

  const KernelPin: string := seq(64, _ => 'a')
  const InitrdPin: string := seq(64, _ => 'b')

  /** `a/image` and `b/image`. */
  function ImageIn(folder: char): string { [folder] + "/image" }

  function ImageUrl(folder: char): string { "https://h" + SLASH + ImageIn(folder) }

  /** Kernel and initrd share their last path element and are pinned to different digests. */
  const SameNameTarget := Target(
    "t", "linux", "T", LinuxKexec, CatalogEntry("d", "r", "x86_64", "installer"),
    SourceEntry("https://h", "", "", ImageIn('a'), ImageIn('b'), KernelPin, InitrdPin, ""), [], [])

  /** A server with two files; `[1]` and `[2]` stand for two contents with the pinned digests. */
  function TwoFileWorld(): World {
    World(
      (log, url) => if url == ImageUrl('a') then Some([1]) else Some([2]),
      log => true,
      (log, path, data) => Written,
      data => if data == [1] then KernelPin else InitrdPin,
      url => true)
  }

  lemma ImageName(folder: char)
    requires folder == 'a' || folder == 'b'
    ensures Base(ImageIn(folder)) == "image"
  {
    var p := ImageIn(folder);
    assert p == [folder] + ['/'] + "image";
    SplitAtSeparator([folder], '/', "image");
    SplitWithoutSeparator([folder], '/');
    SplitWithoutSeparator("image", '/');
    assert StripTrailingSlashes(p) == p;
  }

  lemma PinsAreDigests()
    ensures LowerHexDigest(KernelPin) && LowerHexDigest(InitrdPin) && KernelPin != InitrdPin
    ensures LowerOf(KernelPin, KernelPin) && LowerOf(InitrdPin, InitrdPin) && !LowerOf(InitrdPin, KernelPin)
    ensures ToLower(KernelPin) == KernelPin && ToLower(InitrdPin) == InitrdPin
  {
    assert KernelPin[0] != InitrdPin[0];
  }

  lemma ImageArtifact(folder: char, pin: string)
    requires (folder == 'a' || folder == 'b') && ToLower(pin) == pin
    ensures PlannedArtifact("https://h", ImageIn(folder), pin) == Artifact("image", ImageUrl(folder), pin, "")
  {
    ImageName(folder);
    assert StripLeadingSlashes(ImageIn(folder)) == ImageIn(folder);
  }

  lemma PlannedWithoutOptions(target: Target)
    requires target.options == [] && target.action.LinuxKexec? && StripTrailingSlashes(target.source.baseUrl) != ""
    requires target.source.kernelPath != "" && target.source.initrdPath != ""
    ensures
      var plan, source := LinuxPlan(target, []), target.source;
      var baseUrl := StripTrailingSlashes(source.baseUrl);
      && plan.Ok?
      && plan.value.kernel == PlannedArtifact(baseUrl, source.kernelPath, source.kernelSha256)
      && plan.value.initrd == PlannedArtifact(baseUrl, source.initrdPath, source.initrdSha256)
  {
    Options.WalkNothing([]);
  }

  lemma SameNamePlan()
    ensures
      var plan := LinuxPlan(SameNameTarget, []);
      && plan.Ok?
      && plan.value.kernel == Artifact("image", ImageUrl('a'), KernelPin, "")
      && plan.value.initrd == Artifact("image", ImageUrl('b'), InitrdPin, "")
  {
    PinsAreDigests();
    ImageArtifact('a', KernelPin);
    ImageArtifact('b', InitrdPin);
    PlannedWithoutOptions(SameNameTarget);
  }

  lemma SameNameServable(plan: BootPlan)
    requires plan.kernel == Artifact("image", ImageUrl('a'), KernelPin, "")
    requires plan.initrd == Artifact("image", ImageUrl('b'), InitrdPin, "")
    ensures Servable(TwoFileWorld(), "/tmp", plan, [1], [2])
  {
    PinsAreDigests();
    assert ImageUrl('a')[|"https://h"| + 1] != ImageUrl('b')[|"https://h"| + 1];
  }

  /** Planned from that target, both artifacts verify and are staged, and the kernel file holds the initrd. */
  method SameNameLosesKernel() returns (staged: Option<BootPlan>, files: map<string, Bytes>)
    ensures staged.Some? && staged.value.kernel.sha256 == KernelPin && staged.value.kernel.path in files
    ensures files[staged.value.kernel.path] == [2]
    ensures !PinHolds(TwoFileWorld().hash, staged.value.kernel, files[staged.value.kernel.path])
  {
    SameNamePlan();
    var plan := LinuxPlan(SameNameTarget, []).value;
    SameNameOverwrites(plan);
    staged, files := RunServable(TwoFileWorld(), "/tmp", plan, [1], [2]);
  }

  /** A run on an empty disk of a plan whose sources serve what they should. */
  method RunServable(w: World, dir: string, plan: BootPlan, ghost kernel: Bytes, ghost initrd: Bytes)
    returns (staged: Option<BootPlan>, files: map<string, Bytes>)
    requires plan.initrd.url != "" && Servable(w, dir, plan, kernel, initrd)
    ensures staged == Some(StagedPlan(dir, plan)) && files == StagedFiles(map[], dir, plan, kernel, initrd)
  {
    var s := new Stager(w, map[]);
    ghost var k, i, n;
    staged, k, i, n := FetchAndStageArtifacts(s, dir, plan);
    files := s.files;
  }

  lemma SameNameOverwrites(plan: BootPlan)
    requires plan.kernel == Artifact("image", ImageUrl('a'), KernelPin, "")
    requires plan.initrd == Artifact("image", ImageUrl('b'), InitrdPin, "")
    ensures
      var disk, kernel := StagedFiles(map[], "/tmp", plan, [1], [2]), StagedPlan("/tmp", plan).kernel;
      && plan.initrd.url != "" && Servable(TwoFileWorld(), "/tmp", plan, [1], [2])
      && kernel.path in disk && disk[kernel.path] == [2] && !PinHolds(TwoFileWorld().hash, kernel, [2])
  {
    PinsAreDigests();
    SameNameServable(plan);
    assert ImageUrl('b') != "";
  }
}
