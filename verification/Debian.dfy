/** The Debian trust chain (internal/providers/debian/provider.go, verify/verify.go). */
module Debian {
  import opened Common
  import opened Text
  import opened Provider
  import opened Checksums
  import opened SourcePaths
  import opened Staging

  /**
    What the provider is configured with.  `signed` gives the plaintext of a
    clearsigned message that verifies under the keyring, `text` decodes bytes and
    `urlPath` is the path of a URL, if it parses.
   */
  datatype Config = Config(
    dir: string, hasKeyring: bool, metadataUrl: string, checksumUrl: string, plan: BootPlan,
    signed: Bytes -> Option<Bytes>, text: Bytes -> string, urlPath: string -> Option<string>)

  /** The bytes a run fetched, in order. */
  datatype Transcript = Transcript(inRelease: Bytes, release: Bytes, sums: Bytes, kernel: Bytes, initrd: Bytes)

  /** `releasePath`: what follows the first `/dists/<release>/` in the URL's path. */
  function ReleasePath(c: Config): Option<string> {
    var parsed := c.urlPath(c.checksumUrl);
    var marker := "/dists/" + c.plan.target.catalog.release + "/";
    if parsed.None? || Index(parsed.value, marker) < 0 then None
    else Some(parsed.value[Index(parsed.value, marker) + |marker|..])
  }

  function KernelSumName(c: Config): string {
    "netboot/debian-installer/" + c.plan.target.catalog.architecture + "/linux"
  }

  function InitrdSumName(c: Config): string {
    "netboot/debian-installer/" + c.plan.target.catalog.architecture + "/initrd.gz"
  }

  // what the chain demands

  /** `path` is what follows the first `/dists/<release>/` in the path of the checksum URL. */
  ghost predicate AtReleasePath(c: Config, path: string) {
    && c.urlPath(c.checksumUrl).Some?
    && var url, marker := c.urlPath(c.checksumUrl).value, "/dists/" + c.plan.target.catalog.release + "/";
       var k := |url| - |marker| - |path|;
       OccursAt(marker, url, k) && url[k + |marker|..] == path && forall i :: 0 <= i < k ==> !OccursAt(marker, url, i)
  }

  lemma ReleasePathIff(c: Config, path: string)
    ensures ReleasePath(c) == Some(path) <==> AtReleasePath(c, path)
  {
    if c.urlPath(c.checksumUrl).Some? {
      var url, marker := c.urlPath(c.checksumUrl).value, "/dists/" + c.plan.target.catalog.release + "/";
      if AtReleasePath(c, path) { IndexIs(url, marker, |url| - |marker| - |path|); }
    }
  }

  /** The entry at the path is not empty, and the bytes hash to it, whatever its case. */
  predicate ReleaseListed(hash: Bytes -> string, data: Bytes, release: Result<Sums>, path: string) {
    release.Ok? && path in release.value && release.value[path] != "" && LowerOf(hash(data), release.value[path])
  }

  /** SHA256SUMS hashes to its entry in the SHA256 stanza of the signed Release. */
  ghost predicate SumsVouched(hash: Bytes -> string, c: Config, t: Transcript) {
    && c.signed(t.inRelease) == Some(t.release)
    && exists path :: AtReleasePath(c, path) && ReleaseListed(hash, t.sums, ParseReleaseText(c.text(t.release)), path)
  }

  /** Beyond that, the bytes of an artifact hash to their entry in that SHA256SUMS. */
  ghost predicate Vouched(hash: Bytes -> string, c: Config, t: Transcript, data: Bytes, name: string) {
    SumsVouched(hash, c, t) && HashListed(hash, data, Parse(c.text(t.sums)), name)
  }

  /** Nothing outside the code fails, and the sources serve what the chain demands. */
  ghost predicate ChainServed(w: World, c: Config, t: Transcript) {
    && Obliging(w) && Serves(w, c.metadataUrl, t.inRelease) && Serves(w, c.checksumUrl, t.sums)
    && SumsVouched(w.hash, c, t)
  }

  ghost predicate RunServed(w: World, c: Config, t: Transcript) {
    && c.hasKeyring && c.dir != "" && ChainServed(w, c, t)
    && Serves(w, c.plan.kernel.url, t.kernel) && Serves(w, c.plan.initrd.url, t.initrd)
    && Vouched(w.hash, c, t, t.kernel, KernelSumName(c)) && Vouched(w.hash, c, t, t.initrd, InitrdSumName(c))
  }

  function MetadataSteps(): (steps: seq<Step>)
    ensures |steps| == 8
  {
    Bracket(Fetch, "InRelease") + Bracket(Verify, "InRelease")
    + Bracket(Fetch, "SHA256SUMS") + Bracket(Verify, "SHA256SUMS")
  }

  function FileSteps(dir: string, file: string, data: Bytes): (steps: seq<Step>)
    ensures |steps| == 7
  {
    ArtifactSteps(file, true, JoinPath(dir, file), data, file)
  }

  /** The canonical steps of a Debian run. */
  function RunSteps(c: Config, t: Transcript): (steps: seq<Step>)
    ensures |steps| == 22
  {
    MetadataSteps() + FileSteps(c.dir, "linux", t.kernel) + FileSteps(c.dir, "initrd.gz", t.initrd)
  }

  /** The plan with the paths of the two staged files. */
  function StagedDebianPlan(c: Config): BootPlan {
    c.plan.(kernel := c.plan.kernel.(path := LinuxPath(c)), initrd := c.plan.initrd.(path := InitrdPath(c)))
  }

  // ---------------------------------------------------------------- steps

  /** `fetchStageVerify` of the Debian provider. */
  method StageFile(s: Stager, dir: string, url: string, file: string, sumName: string, sums: string)
    returns (r: Option<string>, ghost data: Bytes, ghost n: nat)
    modifies s
    ensures n <= 7 && s.log == old(s.log) + FileSteps(dir, file, data)[..n]
    ensures n > 3 ==> HashListed(s.world.hash, data, Parse(sums), sumName)
    ensures n <= 5 ==> s.files == old(s.files)
    ensures forall d ::
      (Obliging(s.world) && Serves(s.world, url, d) && HashListed(s.world.hash, d, Parse(sums), sumName)
       ==> r.Some? && data == d)
    ensures r.Some? ==> n == 7 && r.value == JoinPath(dir, file) && s.files == old(s.files)[JoinPath(dir, file) := data]
    ensures SameExcept(old(s.files), s.files, {JoinPath(dir, file)})
  {
    var fetched;
    fetched, data, n := FetchVerified(s, dir, url, file, sumName, sums);
    if fetched.None? {
      return None, data, n;
    }
    var wrote, w := s.WriteWithProgress(JoinPath(dir, file), fetched.value, file);
    FileWritePrefix(dir, file, data, w);
    n := 4 + w;
    if !wrote {
      return None, data, n;
    }
    return Some(JoinPath(dir, file)), data, n;
  }

  lemma FileFetchPrefix(dir: string, file: string, data: Bytes, n: nat)
    requires n <= 2
    ensures FileSteps(dir, file, data)[..n] == Bracket(Fetch, file)[..n]
  {
  }

  lemma FileVerifyPrefix(dir: string, file: string, data: Bytes, v: nat)
    requires v <= 2
    ensures FileSteps(dir, file, data)[..2 + v] == FileSteps(dir, file, data)[..2] + Bracket(Verify, file)[..v]
  {
  }

  lemma FileWritePrefix(dir: string, file: string, data: Bytes, w: nat)
    requires w <= 3
    ensures FileSteps(dir, file, data)[..4 + w]
            == FileSteps(dir, file, data)[..4] + WriteSteps(JoinPath(dir, file), data, file)[..w]
  {
  }

  /** The first half: fetch, then check against SHA256SUMS. */
  method FetchVerified(s: Stager, dir: string, url: string, file: string, sumName: string, sums: string)
    returns (r: Option<Bytes>, ghost data: Bytes, ghost n: nat)
    modifies s`log
    ensures n <= 4 && s.log == old(s.log) + FileSteps(dir, file, data)[..n]
    ensures n > 3 ==> HashListed(s.world.hash, data, Parse(sums), sumName)
    ensures r.Some? ==> n == 4 && r.value == data
    ensures forall d ::
      (Obliging(s.world) && Serves(s.world, url, d) && HashListed(s.world.hash, d, Parse(sums), sumName)
       ==> r.Some? && data == d)
  {
    var fetched, k := s.FetchWithProgress(url, file);
    n := k;
    if fetched.None? {
      data := [];
      FileFetchPrefix(dir, file, data, n);
      return None, data, n;
    }
    data := fetched.value;
    FileFetchPrefix(dir, file, data, n);
    var ok, v := VerifyAgainst(s, fetched.value, file, sumName, sums);
    FileVerifyPrefix(dir, file, data, v);
    n := 2 + v;
    return if ok then fetched else None, data, n;
  }

  /** The verification bracket around the check against SHA256SUMS. */
  method VerifyAgainst(s: Stager, data: Bytes, file: string, sumName: string, sums: string)
    returns (ok: bool, ghost v: nat)
    modifies s`log
    ensures v <= 2 && s.log == old(s.log) + Bracket(Verify, file)[..v]
    ensures v == 2 ==> HashListed(s.world.hash, data, Parse(sums), sumName)
    ensures ok ==> v == 2
    ensures Obliging(s.world) && HashListed(s.world.hash, data, Parse(sums), sumName) ==> ok
  {
    v := 1;
    ok := s.Report(Verify, Started, file);
    var verified := VerifyArtifact(s.world.hash, _ => false, data, sumName, "", Some(sums), false, false);
    if !ok || !verified {
      return false, v;
    }
    ok := s.Report(Verify, Completed, file);
    v := 2;
  }

  /** The metadata half of a run: the clearsigned InRelease, then SHA256SUMS against it. */
  method FetchMetadata(s: Stager, c: Config)
    returns (sums: Option<Bytes>, ghost inRelease: Bytes, ghost release: Bytes, ghost n: nat)
    modifies s`log
    ensures n <= 8 && s.log == old(s.log) + MetadataSteps()[..n]
    ensures sums.Some? ==> n == 8 && SumsVouched(s.world.hash, c, Transcript(inRelease, release, sums.value, [], []))
    ensures forall t ::
      (ChainServed(s.world, c, t) ==> sums == Some(t.sums) && inRelease == t.inRelease && release == t.release)
  {
    var plaintext;
    plaintext, inRelease, n := FetchInRelease(s, c);
    MetadataSplit(n, 0);
    if plaintext.None? {
      return None, inRelease, [], n;
    }
    release := plaintext.value;
    ghost var k;
    sums, k := FetchSums(s, c, plaintext.value);
    MetadataSplit(4, k);
    n := 4 + k;
    if ReleasePath(c).Some? { ReleasePathIff(c, ReleasePath(c).value); }
    forall t | ChainServed(s.world, c, t) ensures sums == Some(t.sums) { VouchedAtPath(s.world.hash, c, t); }
  }

  lemma VouchedAtPath(hash: Bytes -> string, c: Config, t: Transcript)
    requires SumsVouched(hash, c, t)
    ensures ReleasePath(c).Some?
    ensures ReleaseListed(hash, t.sums, ParseReleaseText(c.text(t.release)), ReleasePath(c).value)
  {
    var path :| AtReleasePath(c, path) && ReleaseListed(hash, t.sums, ParseReleaseText(c.text(t.release)), path);
    ReleasePathIff(c, path);
  }

  lemma MetadataSplit(n: nat, k: nat)
    requires n <= 4 && k <= 4 && (k > 0 ==> n == 4)
    ensures MetadataSteps()[..n + k] == InReleaseSteps()[..n] + SumsSteps()[..k]
  {
  }

  function InReleaseSteps(): seq<Step> {
    Bracket(Fetch, "InRelease") + Bracket(Verify, "InRelease")
  }

  method FetchInRelease(s: Stager, c: Config)
    returns (plaintext: Option<Bytes>, ghost inRelease: Bytes, ghost n: nat)
    modifies s`log
    ensures n <= 4 && s.log == old(s.log) + InReleaseSteps()[..n]
    ensures plaintext.Some? ==> n == 4 && c.signed(inRelease) == plaintext
    ensures forall d ::
      (Obliging(s.world) && Serves(s.world, c.metadataUrl, d) && c.signed(d).Some?
       ==> plaintext == c.signed(d) && inRelease == d)
  {
    ghost var steps := InReleaseSteps();
    inRelease := [];
    var fetched, k := s.FetchWithProgress(c.metadataUrl, "InRelease");
    n := k;
    assert steps[..n] == Bracket(Fetch, "InRelease")[..n];
    if fetched.None? {
      return None, inRelease, n;
    }
    inRelease := fetched.value;
    var ok := s.Report(Verify, Started, "InRelease");
    n := 3;
    assert steps[..3] == steps[..2] + [Progress(Verify, Started, "InRelease")];
    plaintext := c.signed(fetched.value);
    if !ok || plaintext.None? {
      return None, inRelease, n;
    }
    ok := s.Report(Verify, Completed, "InRelease");
    n := 4;
    assert steps[..4] == steps[..3] + [Progress(Verify, Completed, "InRelease")];
    plaintext := if ok then plaintext else None;
  }

  function SumsSteps(): seq<Step> {
    Bracket(Fetch, "SHA256SUMS") + Bracket(Verify, "SHA256SUMS")
  }

  method FetchSums(s: Stager, c: Config, release: Bytes) returns (sums: Option<Bytes>, ghost n: nat)
    modifies s`log
    ensures n <= 4 && s.log == old(s.log) + SumsSteps()[..n]
    ensures sums.Some? ==>
      && n == 4 && ReleasePath(c).Some?
      && ReleaseListed(s.world.hash, sums.value, ParseReleaseText(c.text(release)), ReleasePath(c).value)
    ensures ReleasePath(c).Some? ==> forall d ::
      (Obliging(s.world) && Serves(s.world, c.checksumUrl, d)
       && ReleaseListed(s.world.hash, d, ParseReleaseText(c.text(release)), ReleasePath(c).value)
       ==> sums == Some(d))
  {
    ghost var steps := SumsSteps();
    var fetched, k := s.FetchWithProgress(c.checksumUrl, "SHA256SUMS");
    n := k;
    assert steps[..n] == Bracket(Fetch, "SHA256SUMS")[..n];
    var path := ReleasePath(c);
    if fetched.None? || path.None? {
      return None, n;
    }
    var ok := s.Report(Verify, Started, "SHA256SUMS");
    n := 3;
    assert steps[..3] == steps[..2] + [Progress(Verify, Started, "SHA256SUMS")];
    var checksums := ParseRelease(c.text(release));
    if checksums.Ok? && path.value in checksums.value {
      HashMatchesIff(s.world.hash, fetched.value, checksums.value[path.value]);
    }
    if !ok || !SumsMatch(s.world.hash, fetched.value, checksums, path.value) {
      return None, n;
    }
    ok := s.Report(Verify, Completed, "SHA256SUMS");
    n := 4;
    assert steps[..4] == steps[..3] + [Progress(Verify, Completed, "SHA256SUMS")];
    return if ok then fetched else None, n;
  }

  // ---------------------------------------------------------------- the chain

  /** Where the two files land. */
  function LinuxPath(c: Config): string { JoinPath(c.dir, "linux") }

  function InitrdPath(c: Config): string { JoinPath(c.dir, "initrd.gz") }

  /**
    `FetchAndStageArtifacts` of the Debian provider.  Every run, finished or not,
    takes a prefix of the canonical steps; a file write is among them only if the
    bytes written are vouched for by the whole chain; success means all steps were
    taken and both files hold those bytes.  A run succeeds if the sources serve
    what the chain demands and nothing outside fails.
   */
  method FetchAndStage(s: Stager, c: Config) returns (r: Option<BootPlan>, ghost t: Transcript, ghost n: nat)
    modifies s
    ensures n <= 22 && s.log == old(s.log) + RunSteps(c, t)[..n]
    ensures
      var names := "netboot/debian-installer/" + c.plan.target.catalog.architecture;
      && (n > 11 ==> Vouched(s.world.hash, c, t, t.kernel, names + "/linux"))
      && (n > 18 ==> Vouched(s.world.hash, c, t, t.initrd, names + "/initrd.gz"))
    ensures n <= 13 ==> s.files == old(s.files)
    ensures SameExcept(old(s.files), s.files, {JoinPath(c.dir, "linux"), JoinPath(c.dir, "initrd.gz")})
    ensures r.Some? ==>
      && n == 22
      && s.files == old(s.files)[JoinPath(c.dir, "linux") := t.kernel][JoinPath(c.dir, "initrd.gz") := t.initrd]
      && r.value == StagedDebianPlan(c)
    ensures forall u :: RunServed(s.world, c, u) ==> r.Some? && t == u
  {
    t, n := Transcript([], [], [], [], []), 0;
    if !c.hasKeyring || c.dir == "" {
      return None, t, n;
    }
    ghost var start, disk := s.log, s.files;
    var sums;
    ghost var inRelease, release;
    sums, inRelease, release, n := FetchMetadata(s, c);
    if sums.None? {
      MetadataPrefix(c, t, n);
      return None, t, n;
    }
    t := Transcript(inRelease, release, sums.value, [], []);
    MetadataPrefix(c, t, 8);
    r, t, n := StageFiles(s, c, sums.value, start, t);
  }

  /** The artifact half of a run, under a trusted SHA256SUMS. */
  method StageFiles(s: Stager, c: Config, sums: Bytes, ghost start: seq<Step>, ghost meta: Transcript)
    returns (r: Option<BootPlan>, ghost t: Transcript, ghost n: nat)
    requires s.log == start + MetadataSteps()
    requires meta.sums == sums && SumsVouched(s.world.hash, c, meta)
    modifies s
    ensures 8 <= n <= 22 && s.log == start + RunSteps(c, t)[..n]
    ensures n > 11 ==> Vouched(s.world.hash, c, t, t.kernel, KernelSumName(c))
    ensures n > 18 ==> Vouched(s.world.hash, c, t, t.initrd, InitrdSumName(c))
    ensures forall u ::
      (RunServed(s.world, c, u) && u.(kernel := meta.kernel, initrd := meta.initrd) == meta ==> r.Some? && t == u)
    ensures n <= 13 ==> s.files == old(s.files)
    ensures SameExcept(old(s.files), s.files, {LinuxPath(c), InitrdPath(c)})
    ensures r.Some? ==>
      && n == 22
      && s.files == old(s.files)[LinuxPath(c) := t.kernel][InitrdPath(c) := t.initrd]
      && r.value == StagedDebianPlan(c)
  {
    ghost var disk := s.files;
    var kernelPath;
    ghost var kernel, k;
    kernelPath, kernel, k := StageFile(s, c.dir, c.plan.kernel.url, "linux", KernelSumName(c), c.text(sums));
    t := meta.(kernel := kernel);
    n := 8 + k;
    KernelStepsPrefix(start, c, t, k);
    ghost var between := s.files;
    SameExceptChain(disk, between, between, LinuxPath(c), InitrdPath(c));
    if kernelPath.None? {
      return None, t, n;
    }
    var initrdPath;
    ghost var initrd, m;
    initrdPath, initrd, m := StageFile(s, c.dir, c.plan.initrd.url, "initrd.gz", InitrdSumName(c), c.text(sums));
    t := t.(initrd := initrd);
    n := 15 + m;
    InitrdStepsPrefix(start, c, t, m);
    SameExceptChain(disk, between, s.files, LinuxPath(c), InitrdPath(c));
    if initrdPath.None? {
      return None, t, n;
    }
    var stagedKernel := c.plan.kernel.(path := kernelPath.value);
    var stagedInitrd := c.plan.initrd.(path := initrdPath.value);
    return Some(c.plan.(kernel := stagedKernel, initrd := stagedInitrd)), t, n;
  }

  lemma MetadataPrefix(c: Config, t: Transcript, n: nat)
    requires n <= 8
    ensures RunSteps(c, t)[..n] == MetadataSteps()[..n]
    ensures MetadataSteps()[..8] == MetadataSteps()
  {
  }

  lemma KernelStepsPrefix(start: seq<Step>, c: Config, t: Transcript, k: nat)
    requires k <= 7
    ensures start + MetadataSteps() + FileSteps(c.dir, "linux", t.kernel)[..k] == start + RunSteps(c, t)[..8 + k]
  {
    ThreePartPrefix(
      start, MetadataSteps(), FileSteps(c.dir, "linux", t.kernel), FileSteps(c.dir, "initrd.gz", t.initrd), k, 0);
  }

  lemma InitrdStepsPrefix(start: seq<Step>, c: Config, t: Transcript, m: nat)
    requires m <= 7
    ensures start + MetadataSteps()
            + FileSteps(c.dir, "linux", t.kernel)[..7] + FileSteps(c.dir, "initrd.gz", t.initrd)[..m]
         == start + RunSteps(c, t)[..15 + m]
  {
    ThreePartPrefix(
      start, MetadataSteps(), FileSteps(c.dir, "linux", t.kernel), FileSteps(c.dir, "initrd.gz", t.initrd), 7, m);
  }

  lemma ThreePartPrefix(start: seq<Step>, a: seq<Step>, b: seq<Step>, d: seq<Step>, k: nat, m: nat)
    requires k <= |b| && m <= |d|
    ensures start + a + b[..k] == start + (a + b + d)[..|a| + k]
    ensures start + a + b[..|b|] + d[..m] == start + (a + b + d)[..|a| + |b| + m]
  {
    assert (a + b + d)[..|a| + k] == a + b[..k];
    assert b[..|b|] == b;
    assert (a + b + d)[..|a| + |b| + m] == a + b + d[..m];
  }

  /** In every prefix of a run, each file write comes after the completed verification of that artifact. */
  lemma WritesFollowVerification(c: Config, t: Transcript, i: nat)
    requires i < |RunSteps(c, t)| && RunSteps(c, t)[i].FileWrite?
    ensures i == 13 || i == 20
    ensures i == 13 ==>
      && RunSteps(c, t)[i] == FileWrite(LinuxPath(c), t.kernel)
      && RunSteps(c, t)[11] == Progress(Verify, Completed, "linux")
    ensures i == 20 ==>
      && RunSteps(c, t)[i] == FileWrite(InitrdPath(c), t.initrd)
      && RunSteps(c, t)[18] == Progress(Verify, Completed, "initrd.gz")
  {
  }

  /** The two staged files are different files, so both survive a complete run. */
  lemma StagedFilesDiffer(c: Config)
    requires c.dir != ""
    ensures LinuxPath(c) != InitrdPath(c)
  {
    JoinIsChild(c.dir, "linux");
    JoinIsChild(c.dir, "initrd.gz");
    if LinuxPath(c) == InitrdPath(c) {
      ChildInjective(Clean(c.dir), "linux", "initrd.gz");
    }
  }
}
