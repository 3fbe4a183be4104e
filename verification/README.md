# Bootup: a verified model

Bootup is a stage-1 netboot loader. It loads a catalog of boot targets and an
optional signed policy, turns an operator's choices into a boot plan, fetches and
verifies artifacts, unpacks ISO images, and writes redacted diagnostics when
something fails. This project models the parts of it whose correctness is hard
to see from the code, and proves what they promise with Dafny 4.11. Nothing here
executes the original program.

Check everything with `dafny verify dfyconfig.toml`.

## What is modelled

| file | subject |
|---|---|
| `IsoFormat.dfy` | the ISO 9660 / Rock Ridge reader: volume descriptors, directory scan, records, System Use entries, extent arithmetic |
| `IsoEncode.dfy` | an encoder for the same format (sections 6.8.1.1 and 9.1 of ECMA-119, section 4.1 of RRIP) and the round trips |
| `IsoExtract.dfy` | recursive extraction into a file tree: confinement for every image, exactness for images that hold a tree |
| `IsoPrint.dfy` | a printer for whole images and the round trip through extraction |
| `CacheProtocol.dfy`, `Loaders.dfy` | signed policies and hosted catalogs with an authenticated cache, as a state machine over runs |
| `AtomicFiles.dfy` | replacing a file through a temporary one, step by step |
| `Options.dfy`, `Cmdline.dfy` | selected options, template expansion and the tokens of the kernel command line |
| `SecretRefs.dfy`, `TargetValidation.dfy` | secret references and target metadata |
| `Catalog.dfy`, `Registry.dfy` | catalog composition and validation, the provider registry, the planning pipeline |
| `Checksums.dfy` | SHA256SUMS and Release parsing, artifact checks |
| `SourcePaths.dfy`, `Staging.dfy`, `Debian.dfy` | source paths, staging traces, the Debian trust chain |
| `Redaction.dfy` | redaction by repeated replacement |
| `Common.dfy`, `Text.dfy`, `Ordering.dfy`, `Provider.dfy` | results, Go's string functions, sorted key lists, shared records |

## How the model relates to the code

- Code that loops or updates state is a method (or a class) proved equal to a
  function; the properties are lemmas about that function. What an operation
  demands or gives is also spelled out on its own (digests digit by digit,
  signatures as a call of the verifier, fragments by the kind of the option, names
  byte by byte), not only by the name of the function that computes it.
- Cryptography, JSON and URL decoding, UTF-8 decoding, the network, clocks and
  the operating system are parameters: function values that answer arbitrarily.
  Where failures matter (fetches, callbacks, writes, renames) the answers may
  depend on everything that happened before.
- Strings are sequences of Unicode scalar values, files and images are byte
  sequences. Error wording is not kept; the error class is kept where the cache
  fallback depends on it.

## Findings

- Redaction can leak. A value that can be read inside the marker survives its own
  replacement (`red` in `<redacted>`), a value that overlaps an edge of the marker
  can reappear there (`x<`), and a value that is harmless alone can be put back by
  a later one (`<<` before `x`, `Redaction.PairLeaksValue`). `Redaction.LeaksIff`
  says exactly which values some text still shows after they have been replaced;
  `Redaction.RedactedIsCleanIff` gives the exact condition for whole lists in which
  no value overlaps the marker of itself or of a later one.
- A linux plan whose kernel and initrd paths end in the same element loses its
  kernel: the initrd is staged over it and both stages succeed
  (`Staging.SameNameLosesKernel`). `Staging.KernelPinSurvivesIff` gives the exact
  condition.
- Resolving secret references twice is not idempotent for a target that declares
  a selected secret twice (`SecretRefs.DeclaredTwiceRefusedAgain`); validated
  targets never do (`SecretRefs.ResolveAgainIff`).
- Symbolic links can be taken for ordinary files: one to `/`, because its joined
  target is the empty string, and one whose target a later, empty SL entry
  overwrites. Both are extracted as empty regular files
  (`IsoPrint.LinkBecomesFile`); `IsoEncode.RecordAcceptedIff` says exactly which
  records are let through.
- The same failures fall back differently: a policy file that is too large falls
  back to the cache, a policy URL whose body is too large or unreadable does not,
  and a hosted catalog whose body is unreadable does (`Loaders.FallbackByClass`).
- With the largest 64-bit size limit the bounded read overflows and reads
  nothing (`CacheProtocol.LargestLimitReadsNothing`; exact condition in
  `CacheProtocol.ReadBoundedIff`), and the largest maximum age has no upper end
  (`Loaders.PolicyWindow`).
- The check on secret file names lets `.` and `..` through, which name the staging
  directory and its parent (`AtomicFiles.DotDotLeavesDir`). Only the final rename
  stops them, because it fails on a directory; so every staged secret lies directly
  in the staging directory (`AtomicFiles.Disk.StageSecret`), unless one of the two
  paths is a symbolic link, which the rename would replace.

## Model

| member | source | states |
|---|---|---|
| `IsoFormat.ParseRockRidgeSymlink` | internal/providers/mfsbsd/iso.go:291-322 | the component loop, on every byte string, stays inside the entry, moves forward, and computes the joined target or the error |
| `IsoFormat.ParseRockRidge` | internal/providers/mfsbsd/iso.go:250-289 | the System Use loop, on every byte string, consumes at least four bytes a turn and folds NM, PX and SL entries as specified |
| `IsoFormat.ParseDirectoryRecord` | internal/providers/mfsbsd/iso.go:195-248 | the record parser is total on byte strings and agrees with its specification, which the round trips pin down |
| `IsoFormat.NameReadIff` | internal/providers/mfsbsd/iso.go:324-334 | exactly which name is read from an ASCII identifier: it is the name in any case, then dots, then perhaps `;1`, and the name ends in no dot |
| `IsoFormat.StemReads` | internal/providers/mfsbsd/iso.go:324-334 | a stem, bare or with dots, a version or both behind it, reads as the stem with the bytes 65 to 90 raised by 32 |
| `IsoFormat.FoldedName` | internal/providers/mfsbsd/iso.go:331-333 | a stem with a byte beyond ASCII is lowered as a whole by Go's rules |
| `IsoFormat.ValidExtent` | internal/providers/mfsbsd/iso.go:183-193 | in 64-bit arithmetic without overflow, accepts exactly the extents inside the image; every extent ends below 2^44 |
| `IsoFormat.ScanRecords` | internal/providers/mfsbsd/iso.go:158-180 | the directory loop terminates with growing offsets and returns what the recursive scan defines |
| `IsoFormat.SkipSector` | internal/providers/mfsbsd/iso.go:164-166 | dividing and multiplying gives the start of the next sector |
| `IsoFormat.ReadDirectory` | internal/providers/mfsbsd/iso.go:146-181 | an out-of-range directory is refused before any read; otherwise its extent is scanned |
| `IsoFormat.ReadPrimaryVolumeRoot` | internal/providers/mfsbsd/iso.go:67-91 | the descriptor loop reads whole sectors inside the image, from sector 16, and computes the scan |
| `IsoFormat.RootFoundIff` | internal/providers/mfsbsd/iso.go:67-91 | a root is found exactly when a primary descriptor with a usable directory record comes before any terminator or foreign sector |
| `IsoEncode.ComponentsRoundTrip` | internal/providers/mfsbsd/iso.go:296-320 | encoded link components read back as their parts |
| `IsoEncode.EntryRoundTrip` | internal/providers/mfsbsd/iso.go:260-285 | every encoded NM, PX, SL or unknown entry reads back as its meaning |
| `IsoEncode.SystemUseRoundTrip` | internal/providers/mfsbsd/iso.go:250-289 | any list of entries followed by padding reads back as the fold of their meanings |
| `IsoEncode.RecordRoundTrip` | internal/providers/mfsbsd/iso.go:195-248 | any encoded record reads back with its name, extent, size, mode and flags, or is refused exactly when it is a link or multi-extent |
| `IsoEncode.PlainRecordName` | internal/providers/mfsbsd/iso.go:219-232 | a record without a Rock Ridge name is read under exactly the name its identifier spells |
| `IsoEncode.LastLinkDecides` | internal/providers/mfsbsd/iso.go:279-285 | whatever entries stand beside it, the last SL entry alone decides the link target |
| `IsoEncode.RecordAcceptedIff` | internal/providers/mfsbsd/iso.go:233-238 | with any list of System Use entries, a record is let through exactly when it is not multi-extent and its last SL entry, if any, spells no target |
| `IsoEncode.LinksAccepted` | internal/providers/mfsbsd/iso.go:279-321 | two link records, one to `/` and one whose target is overwritten, that parse as ordinary files |
| `IsoEncode.DirectoryRoundTrip` | internal/providers/mfsbsd/iso.go:146-181 | for every list of entries in zero-padded sectors the reader returns exactly the ordinary entries, in order |
| `IsoEncode.DescriptorRoundTrip` | internal/providers/mfsbsd/iso.go:67-91 | an encoded primary descriptor, after any descriptors that are passed over, gives back its root record |
| `IsoExtract.Destination.WriteFile` | internal/providers/mfsbsd/iso.go:124-143 | a file is created or overwritten with its extent and permissions, and never replaces a directory |
| `IsoExtract.Destination.ExtractRecords` | internal/providers/mfsbsd/iso.go:112-120 | the child loop stops at the first unsafe name or failure, leaving what was extracted so far |
| `IsoExtract.Destination.ExtractRecord` | internal/providers/mfsbsd/iso.go:93-144 | the recursive extraction computes the specified outcome and tree |
| `IsoExtract.Destination.ExtractImage` | internal/providers/mfsbsd/iso.go:36-65 | root lookup, destination directory, extraction |
| `IsoExtract.SafeComponentIff` | internal/providers/mfsbsd/iso.go:336-345 | the name check passes exactly names that are not empty, neither `.` nor `..`, and hold neither a slash nor a zero byte |
| `IsoExtract.ExtractConfined` | internal/providers/mfsbsd/iso.go:93-144 | for every record and image, aborted runs included: only paths below the destination through safe components change, files hold in-range extents, no directory is replaced |
| `IsoExtract.ImageConfined` | internal/providers/mfsbsd/iso.go:36-65 | the same for whole extractions of arbitrary byte strings |
| `IsoExtract.DeeperBoundSame` | internal/providers/mfsbsd/iso.go:93-121 | the model's depth bound never changes a successful outcome |
| `IsoExtract.ExtractTree` | internal/providers/mfsbsd/iso.go:93-144 | a record that lays out a finite tree is extracted successfully and adds exactly that tree |
| `IsoExtract.ExtractImageTree` | internal/providers/mfsbsd/iso.go:36-144 | an image with encoded directories, distinct safe names and in-range extents extracts to exactly its tree |
| `IsoPrint.PrintedImageExtracts` | internal/providers/mfsbsd/iso.go:36-144 | printing any file tree the format can carry, each name in a Rock Ridge entry or in its identifier, and extracting the image gives back exactly that tree: paths, contents and permissions |
| `IsoPrint.ChildEntryMeans` | internal/providers/mfsbsd/iso.go:195-248 | a printed entry reads back under its Rock Ridge name, or under the name its identifier spells |
| `IsoPrint.LinkBecomesFile` | internal/providers/mfsbsd/iso.go:93-144 | an image whose root directory holds one of the two accepted links extracts it as an empty regular file |
| `CacheProtocol.ReadBoundedIff` | internal/policy/policy.go:272-284 | the bounded read gives everything within the limit and refuses more, exactly when the limit is below the largest integer or there is nothing to read |
| `CacheProtocol.LargestLimitReadsNothing` | internal/policy/policy.go:272-284 | with the largest limit the 64-bit sum wraps around and every file reads as an empty one |
| `CacheProtocol.ReadBack` | internal/policy/policy.go:272-284 | bytes once read within the limit are read again unchanged |
| `CacheProtocol.FailClosed` | internal/policy/policy.go:171-183 | whatever the cache holds, a returned document comes from source or cache bytes that pass trust, parsing and freshness at the call's clock |
| `CacheProtocol.RejectedSourceStops` | internal/policy/policy.go:104-107 | a source that was read but rejected neither falls back nor touches the cache |
| `CacheProtocol.CacheIsLatestLoad` | internal/policy/policy.go:89-147 | over every run the cache is absent until a source load succeeds and then holds exactly the bytes of the latest one |
| `CacheProtocol.FallbackReturnsLatest` | internal/policy/policy.go:93-101 | an eligible fallback returns the document of the latest source load if it is fresh now, and nothing otherwise |
| `CacheProtocol.FallbackWithoutLoad` | internal/policy/policy.go:297-303 | before any successful source load a fallback returns nothing |
| `CacheProtocol.StaleStaysStale` | internal/policy/policy.go:234-258 | under a clock that never goes back, a cached document found stale stays refused until the next successful source load |
| `Loaders.SaveToCache` | internal/policy/policy.go:108-112 | the cache path holds the new bytes on success and its old state on failure; other files stay |
| `Loaders.LoadCache` | internal/policy/policy.go:297-303 | cached bytes go through the same bounded read and checks as a source |
| `Loaders.LoadFrom` | internal/policy/policy.go:126-146 | the shared loader body takes exactly one protocol step on the disk |
| `Loaders.LoadFile` | internal/policy/policy.go:89-114 | a protocol step in which every source failure may fall back; a returned decision comes from bytes, of the file or after its failure of the cache, that verify under a 32-byte key with a 64-byte signature, decode to it, have schema version 1 and ids, and are in their window; such a file is loaded and cached |
| `Loaders.LoadUrl` | internal/policy/policy.go:117-147 | the same for a URL, where only failed requests, transport and status may fall back |
| `Loaders.LoadHosted` | internal/catalog/hosted.go:43-68 | the same for hosted catalogs: the bytes hash to a configured digest, verify under a configured key, decode to the document, and the document has known providers, distinct ids, valid targets and is in its window |
| `Loaders.PolicyAcceptIff` | internal/policy/policy.go:171-258 | the checks of a policy pass exactly for such bytes |
| `Loaders.CatalogAcceptIff` | internal/catalog/hosted.go:70-100 | the checks of a hosted catalog pass exactly for such bytes |
| `Loaders.PolicyWindow` | internal/policy/policy.go:234-258 | the exact time window in which a policy is fresh, including saturation |
| `Loaders.HostedWindow` | internal/catalog/hosted.go:147-168 | the exact time window in which a catalog is fresh |
| `Loaders.PolicyFreshOnInterval` | internal/policy/policy.go:234-258 | the acceptance times of any policy form one interval |
| `Loaders.HostedFreshOnInterval` | internal/catalog/hosted.go:147-168 | the acceptance times of any catalog form one interval |
| `Loaders.PolicyReadsBounded` | internal/policy/policy.go:260-284 | whatever the request, policy loads hand the protocol bytes from a bounded read |
| `Loaders.HostedReadsBounded` | internal/catalog/hosted.go:133-145 | so do hosted loads |
| `Loaders.UntrustedStep` | internal/policy/policy.go:90-92 | the refusal without configured trust is the protocol's own step |
| `Loaders.RunPolicyLoads` | internal/policy/policy.go:89-147 | any run of file and URL loads on the disk follows the protocol: bounded sources, every result a step, and the cache file holds what the run leaves |
| `Loaders.RunHostedLoads` | internal/catalog/hosted.go:43-68 | the same for any run of hosted loads |
| `Loaders.RunFallsBack` | internal/policy/policy.go:93-101 | what any run of the loaders returns when it falls back: the latest loaded document if fresh now, otherwise nothing |
| `Loaders.RunStaysStale` | internal/policy/policy.go:234-258 | in any run under a clock that never goes back, a refused fallback stays refused until a source load succeeds |
| `Loaders.PolicyRunStaysStale` | internal/policy/policy.go:89-147 | so for every run of policy loads |
| `Loaders.HostedRunStaysStale` | internal/catalog/hosted.go:43-68 | and for every run of hosted loads |
| `Loaders.FallbackByClass` | internal/policy/policy.go:95-128 | exactly which source failures make a file load, a URL load and a hosted load eligible for fallback |
| `AtomicFiles.Disk.WriteAndRename` | internal/policy/policy.go:305-331 | in every intermediate state the target holds all old or all new bytes and no other file differs; failures leave nothing but an unremovable temporary file |
| `AtomicFiles.Disk.ReplaceCache` | internal/catalog/hosted.go:183-209 | the same with the deferred remove, for both cache writers |
| `AtomicFiles.Disk.StageSecret` | internal/secrets/store.go:115-160 | exactly when a secret is staged, where, with which bytes, all-or-nothing in every intermediate state; every staged secret is a direct child of the directory as long as `.` and `..` of it are directories, and otherwise only a path that is no directory is replaced |
| `AtomicFiles.DotDotIsParent` | internal/secrets/store.go:127-136 | the name `..` passes the check and gives the path of the parent directory |
| `AtomicFiles.DotDotLeavesDir` | internal/secrets/store.go:127-136 | for `/s/a` that path is `/s` |
| `Options.FindEnumValue` | internal/provider/provider.go:870-876 | the search succeeds exactly when some declared value equals the selection |
| `Options.EnumSelects` | internal/provider/provider.go:870-876 | with distinct values each declared value selects its own fragment |
| `Options.SelectedOptionFragments` | internal/provider/provider.go:823-857 | the map-filling and deleting loops compute the specified walk |
| `Options.ChooseById` | internal/provider/provider.go:827-836 | the first loop accepts exactly non-blank, distinct ids and gives their map |
| `Options.WalkOptions` | internal/provider/provider.go:838-856 | the second loop, which deletes what it uses, computes the walk |
| `Options.AcceptedIff` | internal/provider/provider.go:823-857 | selections are accepted exactly when each is non-blank, unique, declared and valid for its declaration |
| `Options.OrderIndependent` | internal/provider/provider.go:823-857 | success and fragments are the same for every permutation of the selections |
| `Options.WalkInCatalogOrder` | internal/provider/provider.go:838-852 | the fragments are the selected declarations' contributions in catalog order |
| `Cmdline.AppendTokens` | internal/provider/provider.go:1009-1020 | appending concatenates token lists |
| `Cmdline.ValidValueIff` | internal/provider/provider.go:877-883 | a string value is valid exactly when it is not empty and holds neither white space nor control characters |
| `Cmdline.ValidTemplateIff` | internal/provider/provider.go:970-987 | a template is valid exactly when it is tight text without control characters and with one `{value}` |
| `Cmdline.ValidFragmentIff` | internal/provider/provider.go:951-968 | a fragment is valid exactly when it is tight text without `{value}` and control characters, or is empty and not required |
| `Cmdline.FragmentIff` | internal/provider/provider.go:859-893 | exactly which fragment a selection gives: the fragment for `true` and nothing for `false`, that of the declared value, or the template around the value; anything else is an error |
| `Cmdline.CompiledPieces` | internal/provider/provider.go:823-857 | a compile gives one such piece per declaration, in catalog order, with empty ones left out |
| `Cmdline.CompileIff` | internal/provider/provider.go:823-857 | selections compile exactly when their ids are not blank and distinct and each picks a declaration that gives it a fragment |
| `Cmdline.FinalTokens` | internal/app/app.go:508-524 | the final tokens are the provider's, then those of the pieces in catalog order, then the operator's; nothing else in the plan changes |
| `Cmdline.KbootArguments` | internal/provider/provider.go:462-474 | a loader.kboot plan gets the non-empty pieces as arguments instead |
| `Cmdline.ExpandOneToken` | internal/provider/provider.go:884-884 | expanding a valid template rewrites exactly one token, in place of `{value}`, and keeps the token count |
| `Cmdline.ExpansionAcceptedIff` | internal/provider/provider.go:877-888 | a string option accepts exactly the valid values whose expansion does not spell `{value}` again, and the result differs from the template |
| `SecretRefs.DefaultSelection` | internal/provider/provider.go:771-775 | with nothing selected, every stored id is selected under its own name |
| `SecretRefs.CollectSelected` | internal/provider/provider.go:777-800 | the checking loop accepts exactly duplicate-free lists of valid references |
| `SecretRefs.CheckRequired` | internal/provider/provider.go:802-809 | succeeds exactly when every required declaration is selected |
| `SecretRefs.ListInOrder` | internal/provider/provider.go:811-816 | lists the selected declarations in declaration order |
| `SecretRefs.ResolveSecretRefs` | internal/provider/provider.go:765-821 | the three loops compute the specified resolution |
| `SecretRefs.ResolvedMeaning` | internal/provider/provider.go:765-821 | a resolution lists the selected declarations in order, each with the trimmed input id it was selected with or, if that is blank, its own id; every input is valid and stored, required ones are covered, and the list is empty exactly when nothing was selected and nothing is stored |
| `SecretRefs.ResolveIff` | internal/provider/provider.go:765-809 | selections resolve exactly when ids are distinct, every reference names a declared secret and a valid stored input, and every required secret is selected |
| `SecretRefs.ResolveAgainIff` | internal/provider/provider.go:765-821 | resolving again is the identity exactly when every selected id is declared once, and an error otherwise |
| `SecretRefs.DeclaredTwiceRefusedAgain` | internal/provider/provider.go:811-816 | a target declaring a secret twice whose resolution is refused the second time |
| `TargetValidation.DistinctAndValid` | internal/provider/provider.go:707-731 | the loop with a set of seen ids decides distinctness and validity of all items |
| `TargetValidation.ValidateTargetOptions` | internal/provider/provider.go:707-731 | option lists are accepted exactly when ids are distinct and every option is valid |
| `TargetValidation.ValidateSecretInputs` | internal/provider/provider.go:733-761 | the same for secret declarations |
| `TargetValidation.ValidOptionIff` | internal/provider/provider.go:707-731 | exactly which options are valid, character by character and by kind |
| `TargetValidation.ValidSecretIff` | internal/provider/provider.go:733-761 | exactly which secret declarations are valid |
| `TargetValidation.ValidTargetIff` | internal/provider/provider.go:521-578 | exactly which targets are valid for the provider that shows them, given the source and lifecycle checks |
| `TargetValidation.ValidSecretsDeclaredOnce` | internal/provider/provider.go:733-761 | validated targets declare each secret once |
| `Catalog.Compose` | internal/catalog/catalog.go:110-126 | composition succeeds exactly when schemas match and ids differ across all inputs, and is then the concatenation |
| `Catalog.AddEntries` | internal/catalog/catalog.go:117-123 | the inner loop succeeds exactly when no id is repeated, and then appends all entries |
| `Catalog.ComposeInStages` | internal/catalog/catalog.go:110-126 | composing in any grouping gives the same result, failures included |
| `Catalog.ComposeAssociative` | internal/catalog/catalog.go:110-126 | composition is associative, failures included |
| `Catalog.ValidateDocument` | internal/catalog/catalog.go:139-160 | the validation loop accepts exactly documents with known providers, distinct ids and valid targets |
| `Catalog.ComposedAccepted` | internal/catalog/catalog.go:110-161 | composing accepted documents gives an accepted document |
| `Catalog.TargetsOf` | internal/catalog/catalog.go:164-172 | the per-provider view keeps exactly the entries of that provider, in order |
| `Catalog.GroupedConserves` | internal/catalog/catalog.go:164-172 | grouping by provider keeps every entry exactly as often |
| `Registry.Registry.Register` | internal/provider/provider.go:340-347 | a provider id can be registered once; a refusal changes nothing |
| `Registry.ListTargets` | internal/provider/provider.go:357-370 | the loop collects the providers' targets in the given order and stops at an error or an invalid target |
| `Registry.Registry.Targets` | internal/provider/provider.go:350-371 | lists the providers' validated targets in the order of sorted ids |
| `Registry.Registry.Plan` | internal/provider/provider.go:432-453 | validates options, resolves references, passes them to the provider and records them in the plan |
| `Registry.Registry.Stage` | internal/provider/provider.go:477-500 | resolves the caller's references, else those of the plan, and passes them on |
| `Registry.RegisterProviders` | cmd/bootup/providers_default.go:23-77 | registering succeeds exactly for distinct ids, and every provider then shows the catalog's targets for its id |
| `Registry.MenuConservesCatalog` | internal/provider/provider.go:350-371 | the menu is the composed catalog grouped by sorted provider id, and a permutation of its entries |
| `Registry.SelectedOptions` | internal/policy/policy.go:362-376 | a policy's option map becomes the list sorted by id |
| `Registry.PolicyAgreesWithFlags` | internal/policy/policy.go:362-376 | a policy's option map compiles like flags with the same values in any order |
| `Registry.FindTarget` | internal/policy/policy.go:353-360 | the loop returns the first target with the id, and nothing exactly when there is none |
| `Registry.ChosenIsValid` | internal/provider/provider.go:350-371 | a target chosen from the menu has the id asked for, a registered provider and valid options and secret declarations |
| `Registry.PolicyRefHeld` | internal/policy/policy.go:158-161 | every reference of a policy resolves to the input the policy names |
| `Registry.SecretRefsPassThrough` | internal/policy/policy.go:150-169 | references validated by policy against the registry's menu name the inputs the policy gives and pass unchanged through planning and staging |
| `Checksums.ParseSHA256Sums` | verify/verify.go:177-208 | the line loop computes the collected map and stops at a malformed line |
| `Checksums.CollectSucceedsIff` | verify/verify.go:187-206 | parsing succeeds exactly when no line is malformed |
| `Checksums.LastEntryWins` | verify/verify.go:203-205 | the last line for a name decides its digest |
| `Checksums.NameHasEntry` | verify/verify.go:203-205 | every name in the map comes from such a line |
| `Checksums.DigestIff` | verify/verify.go:195-202 | a digest is accepted exactly when it has 64 hexadecimal digits |
| `Checksums.ParsedDigests` | verify/verify.go:195-205 | every digest in a parsed file has 64 lower-case hexadecimal digits |
| `Checksums.ParseConcat` | verify/verify.go:177-208 | two files joined by a newline parse to the first map overridden by the second, or fail if either does |
| `Checksums.PrintedLineIff` | verify/verify.go:203-204 | a printed line parses back exactly when stripping the `*` and `./` prefixes spares its name |
| `Checksums.RoundTrip` | verify/verify.go:177-208 | printing any list of records and parsing it gives their map |
| `Checksums.RecordMapExact` | verify/verify.go:186-205 | for distinct names that map holds exactly the records |
| `Checksums.VerifyArtifact` | verify/verify.go:86-134 | verification succeeds exactly when some material was supplied, the bytes hash to the expected digest in lower case, the sums parse and have an entry for the name that is the hash, and the signature verifies, as far as supplied |
| `Checksums.HashMatchesIff` | verify/verify.go:137-154 | the digest check passes exactly when an expectation is given and is the hash up to the case of A to Z |
| `Checksums.SumsMatchIff` | verify/verify.go:157-174 | the sums check passes exactly when the file parses, the name has an entry and the bytes hash to it |
| `Checksums.ParseRelease` | internal/providers/debian/provider.go:539-557 | the flagged line loop collects the SHA256 stanza |
| `Checksums.InSHA256Iff` | internal/providers/debian/provider.go:541-545 | the flag means that the closest header line above is `SHA256:` |
| `Checksums.ReleaseRoundTrip` | internal/providers/debian/provider.go:539-557 | of a whole Release file, with any other stanzas around it, exactly the SHA256 stanza is read, each name with its digest |
| `SourcePaths.PathAcceptedIff` | internal/provider/provider.go:659-680 | a path is accepted exactly when it is a slash-join of elements none of which is empty, `.` or `..` |
| `SourcePaths.CleanIdempotent` | internal/provider/provider.go:676-676 | cleaning a cleaned path changes nothing |
| `SourcePaths.AcceptedPathPlaces` | internal/providers/linux/provider.go:158-160 | an accepted path becomes the trimmed base URL, a slash and the path, and is staged as a direct child |
| `SourcePaths.JoinIsChild` | internal/providers/linux/provider.go:218-218 | joining a plain name to a directory gives a direct child of the cleaned directory |
| `SourcePaths.JoinIsChildIff` | internal/secrets/store.go:136-136 | joining a slash-free name gives a direct child exactly when it is neither empty, `.` nor `..` |
| `Staging.Stager.Report` | internal/provider/provider.go:295-300 | an event is delivered before the callback can refuse it |
| `Staging.Stager.WriteFile` | internal/providers/linux/provider.go:219-221 | a write changes at most its own path |
| `Staging.NonEmptyUrls` | internal/providers/linux/provider.go:175-183 | keeps exactly the non-empty URLs, in order and as often as they occur |
| `Staging.RequireHttps` | internal/providers/linux/provider.go:162-173 | succeeds exactly when every URL is https |
| `Staging.FetchStageVerify` | internal/providers/linux/provider.go:185-226 | under any failure the steps are a prefix of the canonical ones, and a pinned file is written only after its pin matched; matching bytes without an outside failure are staged |
| `Staging.FetchVerify` | internal/providers/linux/provider.go:185-210 | fetch and pin check take a prefix of the steps; completion means the pin matched |
| `Staging.VerifyPin` | internal/providers/linux/provider.go:196-210 | the verification bracket completes only if the bytes hash to the pin, and does so if nothing outside fails |
| `Staging.StageInitrd` | internal/providers/linux/provider.go:131-136 | the initrd half extends the canonical steps and the staged files |
| `Staging.FetchAndStageArtifacts` | internal/providers/linux/provider.go:110-137 | every run takes a prefix of one canonical sequence, and every file written, in aborted runs too, matched its pin; success means all of it, with both files staged, and a plan whose sources serve matching bytes succeeds |
| `Staging.VerifiedBeforeWrite` | internal/providers/linux/provider.go:196-221 | in every prefix a pinned artifact's write follows its completed verification |
| `Staging.KernelPinSurvivesIff` | internal/providers/linux/provider.go:128-134 | after success of any plan the kernel file hashes to its pin exactly when it has none, no initrd was staged at its path, or the initrd hashes to it too; for two pinned artifacts, when the pins agree |
| `Staging.SamePathIff` | internal/providers/linux/provider.go:211-218 | plain names share a staging path exactly when they are equal |
| `Staging.SameNameLosesKernel` | internal/providers/linux/provider.go:70-136 | planned from a target with paths `a/image` and `b/image` and two different 64-digit pins, a run stages both artifacts and the kernel file holds the initrd |
| `Staging.LinuxPlanIff` | internal/providers/linux/provider.go:54-89 | a target can be planned exactly when its action is Linux, its base URL is more than slashes, it has a kernel path and the selections compile |
| `Staging.PlannedPlaces` | internal/providers/linux/provider.go:54-89 | planned artifacts are named by the last element of their path, fetched below the base URL, pinned in lower case and staged as direct children |
| `Staging.PlannedCmdline` | internal/providers/linux/provider.go:79-89 | the planned command line is the target's with the base URL for every `{base_url}`, followed by the tokens of the selected options |
| `Debian.FetchVerified` | internal/providers/debian/provider.go:458-475 | fetch and verify take a prefix of the steps; completion means the bytes match SHA256SUMS |
| `Debian.VerifyAgainst` | internal/providers/debian/provider.go:463-475 | the verification bracket completes only if the name has an entry in SHA256SUMS and the bytes hash to it, and does so if nothing outside fails |
| `Debian.StageFile` | internal/providers/debian/provider.go:458-487 | no file is written before its bytes matched |
| `Debian.FetchMetadata` | internal/providers/debian/provider.go:412-444 | completion means SHA256SUMS hashes to its entry in the signed Release |
| `Debian.FetchInRelease` | internal/providers/debian/provider.go:412-425 | completion means the InRelease bytes carry a verified signature over the plaintext returned |
| `Debian.FetchSums` | internal/providers/debian/provider.go:427-444 | the SHA256SUMS step, against the release path |
| `Debian.ReleasePathIff` | internal/providers/debian/provider.go:559-570 | the release path is what follows the first `/dists/<release>/` |
| `Debian.FetchAndStage` | internal/providers/debian/provider.go:400-456 | every run takes a prefix of the canonical steps; each file written hashes to its entry `netboot/debian-installer/<arch>/linux` or `.../initrd.gz` in a SHA256SUMS that hashes to its entry in the signed Release; success leaves both on disk, and a run whose sources serve all that succeeds |
| `Debian.WritesFollowVerification` | internal/providers/debian/provider.go:458-487 | every file write in a run comes after the completed verification of that artifact |
| `Debian.StagedFilesDiffer` | internal/providers/debian/provider.go:447-454 | the two staged files never overwrite each other |
| `Redaction.RedactError` | internal/diagnostics/diagnostics.go:120-132 | the loop computes the iterated replacement, and the result is clean under the stated condition |
| `Redaction.BuildSummary` | internal/diagnostics/diagnostics.go:96-118 | option ids are kept and every option value and extra value is redacted |
| `Redaction.ReplacedIsGone` | internal/diagnostics/diagnostics.go:129-129 | replacing a value removes every occurrence of it, unless it overlaps its own marker |
| `Redaction.NeverBroughtBack` | internal/diagnostics/diagnostics.go:125-130 | a later replacement never brings an absent value back, unless that value overlaps the marker put in place of the later one |
| `Redaction.RedactedIsClean` | internal/diagnostics/diagnostics.go:120-132 | the redacted text contains none of the values |
| `Redaction.RedactIdempotent` | internal/diagnostics/diagnostics.go:120-132 | redacting again changes nothing |
| `Redaction.CleanTextUnchanged` | internal/diagnostics/diagnostics.go:125-130 | a text without any of the values is left alone |
| `Redaction.RedactedIsCleanIff` | internal/diagnostics/diagnostics.go:120-132 | for lists in which no value overlaps the marker of itself or of a later value, the result is clean exactly when the text was, or no value reads inside the marker |
| `Redaction.AllApartNoOverlaps` | internal/diagnostics/diagnostics.go:125-130 | values that overlap no edge of the marker at all always form such a list |
| `Redaction.BracketFreeCleanIff` | internal/diagnostics/diagnostics.go:120-132 | for bracket-free values that means: no value is part of the word `redacted` |
| `Redaction.LeaksIff` | internal/diagnostics/diagnostics.go:129-129 | some text still shows a value after replacing it exactly when the value is part of the marker, its front ends the marker, or it runs into the marker before its own first occurrence |
| `Redaction.MarkerLeaksValue` | internal/diagnostics/diagnostics.go:20-20 | a value inside the marker survives its own redaction |
| `Redaction.BracketLeaksValue` | internal/diagnostics/diagnostics.go:129-129 | a value that overlaps the marker's edge reappears there |
| `Redaction.PairIsHarmless` | internal/diagnostics/diagnostics.go:129-129 | neither `<<` nor `x` can leak alone |
| `Redaction.PairLeaksValue` | internal/diagnostics/diagnostics.go:125-130 | redacting `<<` and then `x` in `<x` shows `<<` |
| `Text.ReplaceAllAtFirst` | internal/diagnostics/diagnostics.go:129-129 | replacement cuts at the leftmost occurrence, keeps what precedes it and goes on after it |

## Left out

- NormalizeName: lower-casing is exact for ASCII identifiers; what Go does to other bytes is a parameter, so nothing is claimed about it.
- Extract: recursion is bounded by a depth, since the code has no cycle check; images whose directory graph has a cycle run out of depth here and recurse without end in the code.
- ExtractFile: filesystem errors other than a file or directory in the way (full disk, permissions, umask) and context cancellation are not modelled.
- RedactedIsCleanIff: lists in which a value overlaps the marker of itself or of a later value are outside it; some texts then leak, as `PairLeaksValue` shows, and which ones depends on what the other values leave of the text.
- ExtractConfined: a destination holds files and directories only; a symbolic link that is already there, which the code's file creation would follow, is not modelled.
- ImageConfined: the same holds for whole extractions.
- StageSecret: symbolic links appear only through the parameter saying which paths are directories.
- WriteAndRename: the random temporary name is assumed to differ from the target path, and failed calls are assumed not to change the target.
- ValidTarget: the URL, hash-pin, lifecycle-date and ISO-name checks of a target are one parameter, except for source paths, which are modelled on their own.
- LinuxPlan: takes the target the provider has already selected.
- TrimSpace: strings with invalid UTF-8 are not modelled.
- Loading secret files with their permission and size checks, provider runtime configuration and catalog generation: independent field checks.
- HTTP fetching, redirects, probing and release discovery.
- The Ubuntu, Fedora, mfsBSD and local-disk providers' own planning and staging, and archive extraction.
- kexec, local boot and loader.kboot handoff, menus, logging, diagnostics bundle files and output capture.
- OpenPGP, Ed25519, SHA-256, JSON, gzip, xz and tar themselves.
