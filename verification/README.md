# Verified model of the Verglos release and hunt tooling

This Dafny project models the parts of Verglos in which a promise spans several functions, a loop,
or a whole run, and proves those promises for every input, every run, or every interleaving. Code
that changes things in place is modelled by methods and classes with loop invariants, proved
against specification functions; the promises are then lemmas about those functions. Where an
operation is specified by a function, a second contract tells the same in other words, from its
inputs alone: what the operation grants, writes, releases or accepts, exactly when. Cryptography,
hashing, canonical JSON, clocks, the network and system failures are parameters with the few laws
that are used, named where they are used.

`dafny verify dfyconfig.toml` checks everything.

## What is modelled

| module | component |
|---|---|
| `Paths`, `ArchiveSafety`, `ArchiveExtractor` | POSIX path arithmetic, archive admission, all-or-nothing extraction |
| `Entitlement`, `EntitlementToken`, `Base64Url` | offline grace, the capability cache, the resolver that merges them; the signed token format |
| `Scheduler`, `SarifImport`, `Correlation`, `CorrelationOrder` | bounded-concurrency workers as interleavings, SARIF normalisation, grouping of observations and its dependence on input order |
| `ReplayWindow` | the private runner's persisted replay cache |
| `Utf8`, `OutputBounds`, `BoundedReads` | UTF-8 with replacement decoding, bounding captured output, bounded readers |
| `HeaderFixPlan`, `HeaderFixTransaction` | planning and applying the security-header fix; capture, check, roll back |
| `Attestation` | Sigstore attestation with a fault at any step |
| `RecordPackage` | writer, reader and verifier of the `.vgl` directory |
| `DockerRoot` | the work-list check of a project tree before it is mounted |
| `Hunt`, `HuntProbes` | the hunt lifecycle, the two-run proof, the probes and their negative controls |
| `SemVer`, `SemVerTexts` | version ordering and latest-stable selection; the same read off the texts |
| `ApprovalStore` | one content per approval request id |
| `Options`, `Strings`, `Sequences`, `Sorting` | shared helpers |

## Where the code does not do what its surroundings say

Each of these is stated as a lemma that gives the exact condition, and where it helps a concrete run.

* A private-runner nonce may start with `_` or `-`, but the cache reader tests remembered nonces with
  the id pattern, which does not allow that. Any released job with such a nonce makes every later
  poll fail (`ReplayWindow.NonceLocksOut`). So does a full window of 4096 jobs with 58 or more
  characters of id and nonce each (`ReplayWindow.FullWindowLocksOut`); with at most 57, and nonces
  that start with a letter or digit, it cannot happen (`ReplayWindow.ShortIdsStayReadable`).
  `ReplayWindow.StaysReadableIff` says of any readable cache and any job whether recording it keeps
  the cache readable. `ReplayWindow.UnderscoreNonceLocksOut` and `ReplayWindow.LongIdsLockOut` are
  runs that get there.
* Correlation depends on the order of its input where the collation ties different strings, and
  where payloads differ that have one canonical form. For any collation that is a total preorder
  the result is identical for every order exactly when no two items clash
  (`CorrelationOrder.OrderFreeIff`): two fingerprints that tie; or, within a fingerprint, two items
  that tie in producer and canonical form and have different payloads, or have different producers
  each of which is led by that item. Where ties are equalities, what is left is payloads that differ
  within one canonical form (`CorrelationOrder.OrderFreeUnderTotalOrder`).
* `compareVersions` answers 0 when either side does not parse. On a set of texts it is transitive
  exactly when all of them parse, or those that do are one version up to build metadata
  (`SemVer.TransitiveOnIff`; for one chain of three, `SemVer.TransitiveIff`; a chain that breaks,
  `SemVer.NotTransitiveOnAllStrings`).
* The scheduler of the inspection pipeline looks at the abort signal once more at the end, and then
  no aborted run returns (`Scheduler.AbortMeansNoResult`). The detector scheduler does not: an
  abort after the last worker has returned leaves the result in place
  (`Scheduler.AbortedRunReturnsIff`).
* The header-fix planner passes over a config above 1 MiB where the executor throws. After a patch,
  planning again says "skip" exactly while the patched file is within 1 MiB
  (`HeaderFixPlan.ReplanAfterPatch`). A dangling link in place of the helper file is planned as a
  creation and skipped by the writer (`HeaderFixPlan.Project.FixWithHelperFile`).
* A failed attestation removes its output directory but not the parent directories it created. A
  failure without a call of the signer, and with a removal that works, leaves no created directory
  exactly when the parent was there before or none was created yet; and the status file names a
  bundle as available that is missing exactly when the signer returned one, writing it back failed,
  and it had not been renamed before (`Attestation.ExecuteRecordAttest`; a run,
  `Attestation.ParentsStayBehind`).
* A header fix that throws while it is applied is not rolled back although its snapshots were
  taken: what it left stays (`HeaderFixTransaction.FixWithChecks`). A failed write leaves the tree
  as it was, or a partial helper file (`HeaderFixPlan.Project.ApplyHeaderFixes`).
* The hunt adapter counts code units and the probe worker counts bytes, so a needle of at most 4096
  characters and more than 4096 bytes passes the first and stops both runs of a proof in the second
  (`HuntProbes.ControlDefeatsProbe`, `HuntProbes.LongNeedleStopsBothRuns`).
* The approval store keeps one request per request id, but not one decision: where a rename
  replaces its destination, a second receipt for the same request takes the place of the first
  (`ApprovalStore.FirstDecisionKeptIff`, `ApprovalStore.DenialCanBecomeApproval`).
* The package writer does not check three limits of the verifier: viewer, descriptor, and the
  signature after it was put in canonical form. A fresh package is accepted exactly when what was
  packed keeps them, which can be read off before packing
  (`RecordPackage.PackageAcceptedIff`, `RecordPackage.PackThenVerify`).
* `./` is an accepted member path, and `a` and `a/` are different keys with one target, so members
  resolve at or below the root and non-overwriting rests on the exclusive write
  (`ArchiveSafety.AcceptedPathIsContained`, `ArchiveSafety.AtMostTwoSpellings`).

## Model

| member | source | states |
|---|---|---|
| ArchiveSafety.PathPassesIffNormalForm | packages/shared/src/archive-safety.ts:13-14 | the path tests accept exactly `./` and plain names joined by single separators with at most one trailing, without NUL or drive prefix |
| ArchiveSafety.AtMostTwoSpellings | packages/shared/src/archive-safety.ts:13-15 | two accepted spellings of the same names differ only by a trailing separator |
| ArchiveSafety.AcceptedPathIsContained | packages/shared/src/archive-safety.ts:13-14 | every accepted member resolves at or below any root, through plain names only, also when its back-slashes are kept literally |
| ArchiveSafety.LinkPassesIffWalkStaysInside | packages/shared/src/archive-safety.ts:19-23 | a link is accepted exactly when following its target name by name from its directory never climbs above the root; the resolved target has no `..` |
| ArchiveSafety.LinkResolution | packages/shared/src/archive-safety.ts:21-22 | normalising the joined target climbs textually exactly when the walk does |
| ArchiveSafety.AdmissibleStep | packages/shared/src/archive-safety.ts:11-24 | one member passes the tests after an admissible list exactly when the longer list is admissible |
| ArchiveSafety.FirstFaultRejects | packages/shared/src/archive-safety.ts:11-24 | a fault at any member makes the whole list inadmissible |
| ArchiveSafety.CheckMember | packages/shared/src/archive-safety.ts:12-23 | the tests of one turn, in order and without leaving the safe-integer range, against the keys and bytes taken so far |
| ArchiveSafety.ValidateArchiveMembers | packages/shared/src/archive-safety.ts:6-26 | accepts exactly the admissible lists within valid limits, otherwise reports the fault of the first member that breaks admissibility |
| ArchiveSafety.AdmissionAsTold | packages/shared/src/archive-safety.ts:11-24 | the admissible lists told from the members: plain names without NUL or drive, sizes that fit, no path twice, links whose walk stays inside |
| ArchiveSafety.FaultAsTold | packages/shared/src/archive-safety.ts:12-23 | the code of a rejection says what is wrong with the member: its path, a repeated path, its size or the sum, its link |
| ArchiveExtractor.TraversalBranchIsDead | packages/shared/src/archive-extractor.ts:17-27 | after admission the extractor's own traversal test cannot fire |
| ArchiveExtractor.WrittenWithinBudget | packages/shared/src/archive-extractor.ts:22-25 | the bytes to be written never exceed the sizes the admission added up |
| ArchiveExtractor.PrepareAll | packages/shared/src/archive-extractor.ts:17-27 | all payloads are prepared, or the first unfit one is reported, before any write |
| ArchiveExtractor.DirectoryStep | packages/shared/src/archive-extractor.ts:33 | one directory member adds exactly the directories it implies |
| ArchiveExtractor.FileStep | packages/shared/src/archive-extractor.ts:35-37 | one file member adds exactly its file and the directories above it, and never overwrites |
| ArchiveExtractor.RefusalIsConflict | packages/shared/src/archive-extractor.ts:32-38 | on a healthy disk a refused write means that two members are in each other's way |
| ArchiveExtractor.WriteAll | packages/shared/src/archive-extractor.ts:31-38 | the writing loop ends with exactly the members' tree, touches nothing outside the root, and on a healthy disk fails only on a conflict |
| ArchiveExtractor.PreparedIsPayloads | packages/shared/src/archive-extractor.ts:17-37 | the tree of the prepared members is that of the payloads, told without the prepare step |
| ArchiveExtractor.UnfitReason | packages/shared/src/archive-extractor.ts:21-25 | a payload is refused for a link, for missing data, or for a size that is not the declared one, the first such payload first |
| ArchiveExtractor.ExtractArchiveMembers | packages/shared/src/archive-extractor.ts:14-44 | all or nothing: success puts exactly the bytes of every file member at its place, and nothing else but the directories the members need; the failure reported is that of the first fault; failure leaves an existing root untouched and no root where there was none; on a healthy disk the inputs alone decide |
| ArchiveExtractor.CleanedUp | packages/shared/src/archive-extractor.ts:39-43 | after a failed run whose removal works the tree is the one before the call, up to created parent directories |
| Paths.FoldCanonical | packages/shared/src/archive-safety.ts:14 | `..` survives normalisation only as a leading run |
| Paths.FoldIdempotent | packages/shared/src/archive-safety.ts:14 | normalising a normal form changes nothing |
| Paths.WalkEscapes | packages/shared/src/archive-safety.ts:21-22 | a normalised walk begins with `..` exactly when the walk leaves its root at some point |
| Paths.ResolveIsTrail | packages/shared/src/archive-extractor.ts:16-18 | a path resolves to where its segments lead, one after the other: `.` stays, `..` goes up but never above the root, a name goes down |
| Paths.RelativeDecidesPrefix | packages/hunt/src/docker-adapter.ts:36-37 | the textual test on `relative` is the segment-prefix relation, whatever the names look like (`..x` included) |
| Paths.SegmentSurvives | packages/shared/src/archive-safety.ts:13 | a segment without back-slashes is still a segment once back-slashes become separators |
| Entitlement.Client.VerifyEntitlement | packages/entitlement/src/client.ts:116-216 | result and grace cache are those of the step the run lemmas are about, on every branch |
| Entitlement.Client.LoadCapabilities | packages/cli/src/entitlement.ts:197-256 | the same for the capability cache |
| Entitlement.Client.ResolveEntitlement | packages/cli/src/entitlement.ts:336-421 | what a call answers and keeps, told from the caches and the inputs: the server's answer, a cached one, the token's or Free; an answer an earlier call stored is given again offline until something replaces it; grace was earned by an earlier call; a license revoked long enough ago gives at most the Free capabilities |
| Entitlement.Answers | packages/cli/src/entitlement.ts:336-421 | an active answer gives exactly its capabilities and plan, an inactive one Free; a cached answer counts unless a token with a capability list was issued after it; without an answer only such a token grants more than Free |
| Entitlement.LoadedFrom | packages/cli/src/entitlement.ts:197-256 | the server is asked unless a cached answer of the same origin, license and simulated plan, at most seven days old, is still fresh |
| Entitlement.LicensedBy | packages/cli/src/entitlement.ts:289-313 | a license is that of a genuine token for this key, unexpired or in grace, told in milliseconds |
| Entitlement.LastStoredStays | packages/cli/src/entitlement.ts:236-255 | in every run the capability cache holds the last answer that was stored |
| Entitlement.LastVerifiedStays | packages/entitlement/src/client.ts:190-197 | in every run the grace file holds the last token that was verified unexpired |
| Entitlement.GraceCacheIsEarned | packages/entitlement/src/client.ts:190-197 | in every run the grace cache names a token verified earlier while unexpired, at the time it records |
| Entitlement.GraceIsBounded | packages/entitlement/src/client.ts:199-209 | whatever the clock does, an expired token is accepted only within seven days of a fresh verification, and strictly before exp + 1 s + 7 days |
| Entitlement.CapsStayBounded | packages/cli/src/entitlement.ts:197-256 | cached answers for a revoked license are older than the revocation or grant nothing |
| Entitlement.LicenseLapses | packages/cli/src/entitlement.ts:289-330 | eight days and a second after the revocation no license of the run still carries a capability list |
| Entitlement.RevocationIsBounded | packages/cli/src/entitlement.ts:336-421 | in every run, with any mix of failures and other licenses, nothing beyond the Free capabilities at or after T + 8 days + 1 s |
| Entitlement.RevocationBoundIsTight | packages/entitlement/src/server.ts:24-45 | a run that is still honoured three milliseconds before the bound |
| Base64Url.PaddingIsRestored | packages/entitlement/src/client.ts:276-281 | the padding computed from the length is the padding that was dropped; the length is never 1 modulo 4 |
| Base64Url.DecodeInvertsEncode | packages/entitlement/src/server.ts:69-75 | decoding inverts encoding for every byte string (section 5 of RFC 4648) |
| Base64Url.EncodeIsUrlSafe | packages/entitlement/src/server.ts:69-75 | an encoding contains no dot, padding or separator |
| Base64Url.EncodesSixBits | packages/entitlement/src/server.ts:69-75 | the encoding has one character of table 2 of RFC 4648 for every six bits, the last filled with zeros |
| EntitlementToken.SignedTokenSplits | packages/entitlement/src/server.ts:41-67 | a signed token splits at its dots into exactly the three segments it was made of |
| EntitlementToken.SignedTokenOpens | packages/entitlement/src/client.ts:121-174 | signing succeeds exactly for well-formed key ids; the token opens to the original claims exactly when a key that is tried accepts the signature |
| EntitlementToken.PinnedTokenOpens | packages/entitlement/src/client.ts:151-174 | with the key pinned the token opens to the original claims |
| EntitlementToken.OpenIff | packages/entitlement/src/client.ts:121-174 | any text opens to claims exactly when it is three segments, the header names a key id, a key tried for it verifies the first two, and the second decodes to the claims |
| EntitlementToken.KeysAsTold | packages/entitlement/src/client.ts:151-157 | which keys a signature is tried against |
| EntitlementToken.SignedThenVerified | packages/entitlement/src/client.ts:176-197 | a token with the default lifetime is accepted with its claims exactly from five minutes before issue to the last second of a day |
| EntitlementToken.InputIsUnambiguous | packages/entitlement/src/server.ts:61 | equal signing inputs have equal header and claims segments |
| EntitlementToken.OnlyIssuedClaimsOpen | packages/entitlement/src/client.ts:121-174 | if pinned keys verify only what was signed, whatever opens is claims that were issued, under the key id the token names |
| Scheduler.RefinesSequentialMap | packages/scanner/src/inspection-pipeline.ts:275-286 | every interleaving that returns gives the sequential map in index order, every slot filled |
| Scheduler.DetectorsInOrder | packages/scanner/src/index.ts:66-84 | detector results come in registration order whatever order the detectors finish in |
| Scheduler.ClaimsAndWrites | packages/scanner/src/index.ts:68-78 | indices are claimed in order, each once; a slot is written at most once and only by its claimant |
| Scheduler.InFlightBounded | packages/scanner/src/index.ts:82 | never more than min(limit, n) items in flight |
| Scheduler.FailureIsFinal | packages/scanner/src/index.ts:82-83 | a run in which a worker threw returns nothing however it goes on |
| Scheduler.ObservedAbortFails | packages/scanner/src/index.ts:71-77 | one step: a worker that meets its abort test after the abort throws |
| Scheduler.FinishOutcome | packages/scanner/src/inspection-pipeline.ts:380-419 | what the end of a run does to its worker and slot, for results, fallbacks and aborts |
| Scheduler.AbortedRunReturnsIff | packages/scanner/src/index.ts:68-84 | a run with an abort anywhere in it returns exactly when every worker had returned at that moment and the signal is not tested again at the end |
| Scheduler.AbortMeansNoResult | packages/scanner/src/inspection-pipeline.ts:380-419 | with the test at the end no run with an abort in it returns |
| Scheduler.StepsAreBounded | packages/scanner/src/index.ts:68-82 | at most 2n + min(limit, n) worker steps, exactly that many in a run that returns |
| Scheduler.QuiescentMeansSettled | packages/scanner/src/index.ts:68-82 | the workers never get stuck |
| Scheduler.EveryRunReturns | packages/scanner/src/inspection-pipeline.ts:380-419 | without abort or fatal throw every maximal interleaving returns the sequential map |
| SarifImport.NormalizeSarif | packages/scanner/src/inspection-pipeline.ts:158-214 | the nested loops give, for the first 20 000 results, one observation per usable result in order, with its rule id and its first safe location; observations and omissions add up; the limit is reported exactly when there were more |
| SarifImport.NormalAsTold | packages/scanner/src/inspection-pipeline.ts:170-196 | the normal form told from the results |
| SarifImport.NumbersIncrease | packages/scanner/src/inspection-pipeline.ts:192-196 | every observation belongs to the result at its number and no number is used twice |
| SarifImport.UsableAreKept | packages/scanner/src/inspection-pipeline.ts:170-191 | a result has an observation exactly when its rule id and some location are usable |
| Correlation.CorrelateObservations | packages/shared/src/correlation.ts:5 | the growing map, the sorts and the projection together give one group per fingerprint, in order; each shows all its items by producer and then canonical form, in input order where they tie, and its producers as they first appear |
| Correlation.CorrelateCorrelates | packages/shared/src/correlation.ts:5 | the same of the specification function |
| Correlation.GroupsStrictlyOrdered | packages/shared/src/correlation.ts:5 | one group per fingerprint, in increasing order |
| Correlation.EveryItemHasItsGroup | packages/shared/src/correlation.ts:5 | every item is in the group of its fingerprint |
| Correlation.GroupsHoldExactly | packages/shared/src/correlation.ts:5 | a group holds the payloads of its items with multiplicity, and each producer once |
| Correlation.DisagreementIff | packages/shared/src/correlation.ts:5 | `disagreement` holds exactly when two payloads of the group differ canonically |
| CorrelationOrder.PermutationInvariant | packages/shared/src/correlation.ts:5 | when the collation ties only equal strings, permuting the items leaves the result the same up to the canonical form of payloads |
| CorrelationOrder.OrderFreeIff | packages/shared/src/correlation.ts:5 | for every collation that is a total preorder: the result is identical for every order of the items exactly when no two items clash |
| CorrelationOrder.OrderFreeUnderTotalOrder | packages/shared/src/correlation.ts:5 | when the collation ties only equal strings: exactly when no two items agree in fingerprint, producer and canonical form with different payloads |
| CorrelationOrder.ViewOrderFreeIff | packages/shared/src/correlation.ts:5 | for every total preorder: the result up to the canonical form of payloads is the same for every order exactly when no two canonical items clash |
| ReplayWindow.Runner.PollPrivateRunnerJob | packages/cli/src/private-runner-client.ts:192-263 | exactly which result a poll has, told from the poll and the jobs on record: a job is released only when it is signed, admissible, well formed, not among the last 4096, and on record; and what is on record and in the file afterwards, crashes around the rename included |
| ReplayWindow.PollOutcome | packages/cli/src/private-runner-client.ts:192-263 | the same of one step of a run |
| ReplayWindow.OneResult | packages/cli/src/private-runner-client.ts:192-263 | no two results fit one poll |
| ReplayWindow.FileIsWindow | packages/cli/src/private-runner-client.ts:110-134 | in every run the file holds exactly the last 4096 recorded jobs |
| ReplayWindow.ReplayDecision | packages/cli/src/private-runner-client.ts:246-259 | a signed job is refused as a replay exactly when its id or nonce is among the last 4096 recorded |
| ReplayWindow.ReplayWindowHolds | packages/cli/src/private-runner-client.ts:246-259 | between two records of one id or nonce lie at least 4096 others, in every run and across crashes |
| ReplayWindow.RecordedIsReleased | packages/cli/src/private-runner-client.ts:246-259 | without a crash after a rename the records are exactly the releases |
| ReplayWindow.ReadableIff | packages/cli/src/private-runner-client.ts:88-108 | the cache after a run is accepted by its reader exactly when the ids and nonces of the last 4096 recorded jobs add up to at most 256 KiB with their quotes and commas, and every nonce starts with a letter or digit |
| ReplayWindow.ReadableIffText | packages/cli/src/private-runner-client.ts:88-108 | which caches the reader accepts, of any origin |
| ReplayWindow.StaysReadableIff | packages/cli/src/private-runner-client.ts:88-134 | from a readable cache, recording a job leaves a readable one exactly when its nonce starts with a letter or digit and the window with it fits |
| ReplayWindow.NonceLocksOut | packages/cli/src/private-runner-client.ts:88-97 | in any run, a released job whose nonce starts with `_` or `-` makes every later poll fail |
| ReplayWindow.FullWindowLocksOut | packages/cli/src/private-runner-client.ts:88-134 | in any run, a full window of jobs with at least 58 characters of id and nonce each makes every later poll fail |
| ReplayWindow.ShortIdsStayReadable | packages/cli/src/private-runner-client.ts:88-134 | if every offered job has at most 57 characters of id and nonce together and a nonce that starts with a letter or digit, every reachable cache can be read back |
| ReplayWindow.FullWindowFitsIff | packages/cli/src/private-runner-client.ts:21-22 | a full window of ids of one length fits exactly up to 28 characters |
| ReplayWindow.LockedOut | packages/cli/src/private-runner-client.ts:99-108 | a cache the reader refuses is never changed again and every poll fails |
| ReplayWindow.UnderscoreNonceLocksOut | packages/cli/src/private-runner-client.ts:88-97 | a run of one release after which the cache is unreadable |
| ReplayWindow.LongIdsLockOut | packages/cli/src/private-runner-client.ts:88-134 | a run of 4096 releases with ids and nonces of 29 characters after which every poll fails |
| Utf8.DecodeEncode | packages/hunt/src/docker-runner.ts:76-90 | decoding with replacement inverts encoding (section 3 of RFC 3629) |
| Utf8.DecodeCut | packages/hunt/src/docker-runner.ts:83-88 | a character cut off inside its encoding decodes to one replacement character |
| Utf8.Utf16Step | packages/hunt/src/docker-runner.ts:78-79 | reading a string character by character, with every surrogate that is not of a pair replaced |
| Utf8.Utf16RoundTrip | packages/hunt/src/docker-runner.ts:78-79 | reading UTF-16 inverts writing it |
| OutputBounds.ToBoundedText | packages/hunt/src/docker-runner.ts:78-90 | the loop turns at most twice and ends with the longest whole-character prefix, or that and one U+FFFD; the result encodes within the bound |
| OutputBounds.WholeIsLongest | packages/hunt/src/docker-runner.ts:78-90 | that prefix is the longest one whose encoding fits |
| OutputBounds.ReplacementKeptIff | packages/hunt/src/docker-runner.ts:84-88 | U+FFFD is kept exactly when three bytes of a four-byte character were inside the bound |
| OutputBounds.Finish | packages/hunt/src/docker-runner.ts:55-74 | the two streams together never exceed the bound, and the flag is up exactly when something was, or may have been, lost |
| BoundedReads.ReadBoundedResponse | packages/cli/src/http-response.ts:41-77 | returns the concatenation of the chunks exactly when they are bytes within the limit; stops at the first event that decides |
| BoundedReads.CopyAll | packages/cli/src/http-response.ts:70-76 | the chunks end up in one array in order, each after the previous |
| BoundedReads.ReadBoundedRegularFile | packages/cli/src/record-sigstore.ts:97-120 | whatever the sizes of the reads, returns the content exactly when path and handle are one regular file, and the content and all reported sizes agree with the limit |
| HeaderFixPlan.PlanNextjs | packages/cli/src/fix.ts:418-436 | the plan is about the first candidate that names a header or has a declaration; a patch keeps the whole text and puts the block right behind the declaration |
| HeaderFixPlan.Project.FixNextjs | packages/cli/src/fix.ts:449-481 | on an unchanged tree throws without writing exactly when a file over the limit comes first or the write fails, else does to the planned file what was planned; told from the files, the old text is kept around the block |
| HeaderFixPlan.PlanAsTold | packages/cli/src/fix.ts:418-436 | plans told from the files |
| HeaderFixPlan.FixAsTold | packages/cli/src/fix.ts:449-481 | executions told from the files |
| HeaderFixPlan.PlannedAsTold | packages/cli/src/fix.ts:604-615 | which files an approval must name |
| HeaderFixPlan.Project.FixWithHelperFile | packages/cli/src/fix.ts:568-595 | creates the helper exactly when nothing is at its path |
| HeaderFixPlan.Project.ApplyHeaderFixes | packages/cli/src/fix.ts:601-652 | without an approval of exactly the planned files, or when the plan has changed, nothing is written; otherwise only the planned file changes, to what was planned; a failed write leaves the tree as it was, or a helper file |
| HeaderFixPlan.DecidesSameMembers | packages/cli/src/fix.ts:404-408 | comparing the lists without repetitions and sorted decides equality of the sets |
| HeaderFixPlan.PatchedNodeDecides | packages/cli/src/fix.ts:426-431 | a patched file declares its headers unless it outgrew the limit |
| HeaderFixPlan.ReplanAfterPatch | packages/cli/src/fix.ts:418-436 | planning again says skip for the patched file exactly while it is within 1 MiB; beyond that the next execution throws |
| HeaderFixTransaction.GuardIsBelow | packages/cli/src/fix.ts:125-129 | the textual guard admits exactly paths strictly below the root |
| HeaderFixTransaction.CaptureHeaderFixSnapshots | packages/cli/src/fix.ts:122-140 | a capture succeeds exactly when every planned path is strictly below the root and holds a regular file of at most 1 MiB or nothing, and each snapshot has the bytes and permission bits of its file |
| HeaderFixTransaction.CapturedAreConsistent | packages/cli/src/fix.ts:122-140 | snapshots of one capture never contradict each other and pass the restore's own checks |
| HeaderFixTransaction.Workspace.RollbackHeaderFixSnapshots | packages/cli/src/fix.ts:142-151 | every restore is attempted, in any order; each outcome depends on its own path and fault only; restored paths are as captured and no other path changes |
| HeaderFixTransaction.Workspace.VerifyOrRollbackHeaderFix | packages/cli/src/fix.ts:160-177 | the checks run are a passing prefix and one failure; success of the rollback is exact and means every planned path is as captured, whatever the checks did |
| HeaderFixTransaction.FixWithChecks | packages/cli/src/index.ts:912-944 | capture, apply and checks together: which of the four outcomes it is; the fix is kept exactly when every check passes; a reported rollback means every planned file has its old bytes and permission bits, and fails only for a system error or a directory in the way; an apply that throws, or changes nothing, leaves what it left |
| Attestation.ExecuteRecordAttest | packages/cli/src/record-sigstore.ts:136-258 | under any faults: each outcome told from the steps that fail; exit 0 exactly when nothing threw, and then the directory is complete; an existing directory is never changed; a returned bundle is kept and no other is ever shown; exactly when a created directory remains, and when a returned bundle and the binding are there at the end |
| Attestation.SignAndPublish | packages/cli/src/record-sigstore.ts:203-242 | from the signer on, the output directory never shows a bundle the signer did not return |
| Attestation.Recover | packages/cli/src/record-sigstore.ts:243-257 | the catch block reports the outcome the flags prove and cleans up accordingly |
| Attestation.ParentsStayBehind | packages/cli/src/record-sigstore.ts:197-200 | a run in which a created parent directory outlives a failed claim |
| RecordPackage.ReadAndVerifyRecord | packages/shared/src/record-reader.ts:20-45 | succeeds exactly when every member is of a supported kind and listed once, and every one not omitted is present with the bytes, size and digest the manifest says; returns those bytes |
| RecordPackage.VerifyRecordPackageArtifacts | packages/cli/src/record-package.ts:168-240 | accepts exactly the directories with these files and no others, all regular and within their limits, with the only flags that fit |
| RecordPackage.AcceptanceAsTold | packages/cli/src/record-package.ts:168-240 | the same told name by name, with the descriptor version that goes with the Sigstore evidence |
| RecordPackage.RecordAsTold | packages/shared/src/record-reader.ts:20-45 | which records can be read, told member by member |
| RecordPackage.PackageAsTold | packages/cli/src/record-package.ts:129-152 | what lies in a package, file by file |
| RecordPackage.CheckNames | packages/cli/src/record-package.ts:205-217 | counting names and testing membership decides equality of the file sets |
| RecordPackage.Output.ExecuteRecordPackage | packages/cli/src/record-package.ts:44-166 | packs exactly the packable records when no step fails; otherwise the destination is as before and the staging directory gone |
| RecordPackage.PackageHoldsRecord | packages/cli/src/record-package.ts:133-139 | reading a package gives back the record that was packed |
| RecordPackage.PackageAcceptedIff | packages/cli/src/record-package.ts:120-152 | a package is accepted, for every combination of signature and Sigstore evidence, exactly when the viewer, descriptor and signature it was made of keep the limits only the verifier checks |
| RecordPackage.PackThenVerify | packages/cli/src/record-package.ts:44-240 | packing then verifying reports the right flags exactly when those three limits hold, stated on the store, the manifest and the extras before packing |
| RecordPackage.AcceptedIsPackage | packages/cli/src/record-package.ts:168-240 | whatever is accepted is the package of its record and some extras, file for file |
| RecordPackage.AcceptanceFixesBytes | packages/cli/src/record-package.ts:168-240 | two accepted directories of one manifest and flags differ at most in the signature, bundle and binding files |
| DockerRoot.ValidateDockerProjectRoot | packages/hunt/src/docker-adapter.ts:17-44 | ends on every finite tree; accepts exactly bounded absolute paths to directories with at most 100 000 entries, each reachable one a directory, a file, or a link that ends at or below the real root |
| DockerRoot.GoodIsReachable | packages/hunt/src/docker-adapter.ts:24-43 | the shape of the tree and reachability without following links say the same |
| Hunt.RunHunt | packages/hunt/src/index.ts:40-95 | for any adapter: one outcome per eligible finding in order, prepare first, cleanup exactly once and last |
| Hunt.RunAsTold | packages/hunt/src/index.ts:31-93 | the calls and outcomes of a run told from the report and the adapter: which findings qualify, in order, and what is said of each |
| Hunt.ClassifyIff | packages/shared/src/hunt-verdict.ts:3-9 | each canonical verdict is given exactly under its condition |
| Hunt.DecisiveIff | packages/hunt/src/index.ts:54-93 | an outcome is decisive exactly when a validated answer for that finding came in time and cleanup worked, and it is that answer |
| Hunt.SharedDeadline | packages/hunt/src/index.ts:49-58 | every execution gets what is left until one absolute deadline, never more than the budget under a monotone clock |
| Hunt.CleanupOnce | packages/hunt/src/index.ts:72-81 | between the calls of a run, cleanup occurs exactly once |
| Hunt.ExecutedArePrefix | packages/hunt/src/index.ts:49-55 | under a monotone clock the executed findings are a prefix of the eligible ones |
| Hunt.SelectedIsFirst | packages/hunt/src/attack-worker.ts:309-340 | the finding looked up by id is the first of the run, so the "no outcome" error cannot occur |
| Hunt.RunProof | packages/hunt/src/attack-worker.ts:155-235 | `confirmed` and `not-reproduced` hold exactly when prepare, execution and cleanup worked in both runs, the control was not reproduced, and the attack said so |
| HuntProbes.DigitIsFound | packages/hunt/src/attack-worker.ts:348-353 | the control digit exists for every needle but the empty one |
| HuntProbes.MatchesIff | packages/hunt/src/restricted-probe-worker.ts:38-65 | each probe matches exactly what it is for, told from its input |
| HuntProbes.WorkerIff | packages/hunt/src/restricted-probe-worker.ts:14-36 | the worker answers exactly for fields of 1 to 4096 bytes, with that |
| HuntProbes.AdapterIff | packages/hunt/src/restricted-process-adapter.ts:110-115 | the adapter takes exactly the inputs whose fields have 1 to 4096 UTF-16 code units and no control character |
| HuntProbes.ControlDefeatsProbe | packages/hunt/src/attack-worker.ts:345-363 | for validated inputs the control exists, is valid, runs the same probe, and is answered "no match", except for a needle of more than 4096 bytes |
| HuntProbes.ControlFollowsAttack | packages/hunt/src/restricted-probe-worker.ts:38-65 | whenever the attack run gets an answer the control run gets "no match" |
| HuntProbes.LongNeedleStopsBothRuns | packages/hunt/src/restricted-process-adapter.ts:110-115 | an input the adapter takes and the worker refuses |
| SemVer.ComparePrerelease | packages/cli/src/update.ts:36-53 | the early-return loop finds the first difference |
| SemVer.CompareVersions | packages/cli/src/update.ts:55-64 | the comparison of two texts, with 0 when one does not parse |
| SemVer.CompareIsPrecedence | packages/cli/src/update.ts:36-64 | the comparison is the precedence of section 11 of SemVer 2.0.0, antisymmetric, with equality as its only tie |
| SemVer.ParsedTransitive | packages/cli/src/update.ts:36-64 | transitive across numeric and alphanumeric identifiers and unequal lengths |
| SemVer.ParseDeterminesText | packages/cli/src/update.ts:19-34 | two texts parse alike exactly when they are equal up to build metadata |
| SemVer.ComparatorIsPreorder | packages/cli/src/update.ts:55-64 | on parseable texts a total preorder whose ties differ in build metadata only |
| SemVer.TransitiveIff | packages/cli/src/update.ts:55-64 | a chain of three texts is right exactly when the middle one parses or the first does not outrank the last in the sense of the standard |
| SemVer.TransitiveOnIff | packages/cli/src/update.ts:55-64 | on a set of texts the comparison is transitive exactly when all parse, or those that parse are one version up to build metadata |
| SemVer.NotTransitiveOnAllStrings | packages/cli/src/update.ts:55-64 | a chain that breaks |
| SemVer.LatestIsMaximal | packages/cli/src/update.ts:66-76 | selection returns a stable key that no stable key outranks, or null exactly when there is none |
| SemVer.LatestBreaksTies | packages/cli/src/update.ts:66-76 | among keys that differ in build metadata the first is chosen |
| SemVerTexts.ParsesIffGrammatical | packages/cli/src/update.ts:19-34 | a text parses exactly when the grammar writes it: three numbers up to the largest safe integer, identifiers, build metadata |
| SemVerTexts.ParseWritten | packages/cli/src/update.ts:19-34 | parsing inverts writing |
| SemVerTexts.NumeralOrder | packages/cli/src/update.ts:31 | numerals compare as their values do |
| SemVerTexts.CompareWritten | packages/cli/src/update.ts:36-64 | the comparison is the precedence of section 11 of SemVer 2.0.0 read off the two texts |
| SemVerTexts.LatestWritten | packages/cli/src/update.ts:66-76 | selection returns a release among the keys that no other comes after, and of those the first |
| ApprovalStore.Store.PutApprovalReceipt | packages/shared/src/approval-store.ts:28-58 | succeeds exactly for a receipt of the schema with the right digest and at most 256 KiB, against a store whose files all hold receipts and none of which spends the id on another request, when the rename works or finds the same receipt; only a rename that replaces changes the store |
| ApprovalStore.LookupIff | packages/shared/src/approval-store.ts:60-73 | a lookup returns a receipt exactly when the file under its digest holds it |
| ApprovalStore.AnswerStays | packages/shared/src/approval-store.ts:35-58 | no later call removes an answer to a request |
| ApprovalStore.OneContentPerRequestId | packages/shared/src/approval-store.ts:35-44 | over every run from any store, accepted receipts with one request id answer one request |
| ApprovalStore.FirstDecisionKeptIff | packages/shared/src/approval-store.ts:49-57 | the store keeps the first receipt for a request exactly when the second is the same or the rename does not replace |
| ApprovalStore.DenialCanBecomeApproval | packages/shared/src/approval-store.ts:49-57 | a run in which a denial becomes an approval |

## Left out

- CorrelationOrder.PermutationInvariant: compares payloads by their canonical form under a collation whose ties are equalities; the stronger claims are false, and `CorrelationOrder.OrderFreeIff` and `CorrelationOrder.ViewOrderFreeIff` say exactly when they hold.
- Correlation.CorrelateObservations: `localeCompare` is any total preorder, and the fingerprint is taken as given.
- Entitlement.Client.VerifyEntitlement: the shape tests of `validateClaims` are one flag of the claims; the timestamp tests are spelled out.
- EntitlementToken.SignedTokenOpens: JSON and Ed25519 are functions with round-trip and verify-after-sign laws; headers are compared as texts.
- Base64Url.DecodeInvertsEncode: what the platform's decoder makes of texts that are no encoding is modelled only as far as skipping unknown characters and stopping at padding.
- Scheduler.RefinesSequentialMap: what a producer does between two awaits is one value per item; progress events are not modelled.
- SarifImport.NormalizeSarif: whether a rule id is usable and which path a location yields are inputs; titles and severities are constants of the source or a lookup.
- HeaderFixPlan.Project.ApplyHeaderFixes: the tree may change between the approval and the second plan, not between the second plan and the write; the declaration pattern is any function that returns where its first match ends.
- HeaderFixTransaction.Workspace.RollbackHeaderFixSnapshots: a missing parent, a read-only file system and a path through a link are system errors of the one restore; temporary files are not in the tree.
- RecordPackage.VerifyRecordPackageArtifacts: equal SHA-256 hashes are taken to mean equal bytes; completeness, redaction and trust checks are one admitted-or-not input of the writer.
- DockerRoot.ValidateDockerProjectRoot: an unreadable directory rejects as an error of the system and is not a tree of the model.
- Hunt.SelectedIsFirst: takes the id not to be empty, as the schema of a hypothesis demands.
- Hunt.RunHunt: durations, reasons and evidence fields of an outcome are folded into "well shaped or not".
- HuntProbes.ControlDefeatsProbe: the URL parser and two regular expressions are functions with the one law each that the controls need; lone surrogates are not characters here.
- ApprovalStore.OneContentPerRequestId: calls are sequential; the code takes no lock, so two writers at once are not covered.
- OutputBounds.ToBoundedText: takes strings, as the redaction before it returns; redaction patterns are not modelled.
- Collisions of SHA-256, durability of `fsync`, and paths of other systems than POSIX.
- Concurrent writers to one cache, store or directory.
- Plan tables, tier names beyond those the resolver compares, configuration migration: single lookups.
- Command wiring, terminal and HTML output, telemetry, login, monitor registration, tool schemas.
- Running the selected tests after a fix and building the container command line: checks of one argument each.
- `runSupportedHuntRetest`: a renaming of the proof status.
