# EgressWeave: a verified model of its hardest parts

EgressWeave hands out HTTP clients whose connections are pinned to validated
addresses, and its release scripts produce evidence about what is published.
This project models the parts of both where mistakes hide in interleavings,
loops over hostile input and compositions, and proves what they promise. To
verify: `dafny verify dfyconfig.toml`.

- **The connection race** (`ConnectionRace.dfy`, `RaceProgress.dfy`). The asynchronous backend starts
  connection attempts 0.25 s apart, following section 5 of RFC 8305. A
  coordinator, one task per address, a start lock and a clock are a transition
  system whose runs are the interleavings asyncio can produce. The spacing of
  backend starts, the exact active count, the order of addresses, the reasons for
  a denial, the fate of every stream, the time the coordinator waits, a linear bound on
  the whole run and freedom from deadlock are proved over every run; and calls that
  hang or fail do not keep the next address from being tried in time and returned.
- **The resolver's slots** (`ResolverSlots.dfy`, `ResolverProgress.dfy`). Any number of callers and
  workers pass 32 semaphore slots along, and timed-out callers abandon workers
  that still own one. Slots are conserved, each is returned exactly once, all of
  them come back, and no state shuts out a caller whose deadline is ahead.
- **Addresses** (`Addresses.dfy`). The pinned list is bounded, ordered and free of
  duplicates.
- **The request pipeline** (`RequestHeaders.dfy`, `RequestSpelling.dfy`, `Decimal.dfy`,
  `DeclaredSize.dfy`, `BodyStreams.dfy`, `RequestPipeline.dfy`). Headers are
  rewritten to one canonical form, a declared length is compared as text, and a
  bounded stream counts what it yields: sections 5.5, 5.6.2 and 8.6 of RFC 9110,
  sections 6.1 to 6.3 of RFC 9112. End to end, the `Content-Length` given to the
  pool is the number of bytes that the calls of the body's iterators return.
- **Strict JSON and document identity** (`StrictJson.dfy`, `DocumentIdentity.dfy`).
  The validator's explicit stack accepts exactly the object graphs it should,
  shared or cyclic ones included; the serial number binds the rest of a document.
- **The dependency manifest** (`Graphs.dfy`, `Ordering.dfy`, `Manifest.dfy`,
  `Sbom.dfy`, `RuntimeLock.dfy`, `SbomOrder.dfy`). The recursive walk finds exactly
  what is reachable, the SBOM's dependency list is the manifest's graph renamed, and
  for a manifest that matches the runtime lock the SBOM forgets the order of its lists.
- **The archive preflights** (`LittleEndian.dfy`, `Slices.dfy`, `ZipDirectory.dfy`,
  `ZipPreflight.dfy`, `ZipArchives.dfy`, `TarFields.dfy`, `TarPreflight.dfy`,
  `TarArchives.dfy`, `ArtifactReader.dfy`).
  Each loop over a hostile archive accepts exactly a grammar written without it, and
  archives written field by field are accepted exactly if they keep the bounds:
  sections 4.3.12, 4.3.16 and 4.5 of PKWARE's APPNOTE, and the ustar and pax
  formats of IEEE Std 1003.1.
- **Checksums** (`Checksums.dfy`). The printer and the loader of `SHA256SUMS`,
  written independently in two files, are inverse to each other.

A loop of the source is a method with a loop, specified by a predicate that does
not mention it. An object whose methods update its fields is a class
(`DependencyWalk`, `BoundedRequestStream`, `ExpandedArchive`,
`LiveBoundedArtifactReader`). The race and the resolver are transition systems
on values, because their point is what other tasks do between two steps. All
exceptions that mean a denial are one outcome.

## What the proofs found

- The manifest loader alone does not keep package URLs apart
  (scripts/ci/generate_release_sbom.py:676-706): a component that is not a direct
  dependency of the root may have `@` in its name, two components can then share a
  package URL, and the SBOM depends on the order of the manifest's lists
  (`SbomOrder.OrderCanMatter`). Distinct package URLs are exactly what is needed
  (`SbomOrder.OrderIsFreeIffPurlsDistinct`), and names without `@` suffice
  (`SbomOrder.PlainNamesHaveDistinctPurls`). This is reachable only through
  `build_sbom` called by itself: both command lines run `validate_runtime_lock`
  first (scripts/ci/generate_release_sbom.py:1011,
  scripts/ci/generate_attestable_release_sbom.py:186), every locked name comes from a
  requirement, and there the property holds with no further condition
  (`SbomOrder.ReleasedSbomForgetsOrder`).
- The loader of `SHA256SUMS` reports that it wants LF lines, but rejects only the
  carriage return (src/egressweave/release_evidence.py:246-248): VT, FF, FS, GS and
  RS end a line as well. An accepted text is the printed form of what it lists
  exactly when LF is its only separator (`Checksums.ListedIsPrintedIffLf`,
  `Checksums.OtherSeparatorIsAccepted`).
- The header pipeline accepts its own output exactly when the trusted authority is
  itself a valid field value, which the pipeline appends unchecked
  (src/egressweave/request_safety.py:219-221, `RequestHeaders.PipelineIsIdempotent`).
  No input that reaches the other case is known: the clients take the authority from a
  URL that was normalized before (src/egressweave/sync_transport.py:213-216), and what
  normalization lets into it is not part of this model.
- The high-bit test of the tar number parser
  (scripts/ci/generate_release_sbom.py:398-399) refuses nothing that its digit test
  would accept (`TarFields.TarNumberGrammar`).

## Model

| member | source | states |
|---|---|---|
| ConnectionRace.StepKeepsInv | src/egressweave/transport.py:172-286 | every step of coordinator, task or clock keeps all thirteen invariants of the race |
| ConnectionRace.RunKeepsInv | src/egressweave/transport.py:152-286 | and so every state of every run has them |
| ConnectionRace.StartsAreStaggered | src/egressweave/transport.py:172-199 | a backend start comes less than 0.25 s after any earlier start only if the active count was zero and every attempt started before it is done, however early the coordinator created its task |
| ConnectionRace.LaunchKeepsSpacing | src/egressweave/transport.py:175-188 | the lock section alone keeps two consecutive starts a full delay apart unless the later one saw a zero count |
| ConnectionRace.ActiveCountIsExact | src/egressweave/transport.py:188-199 | until clean-up begins, the active count is the number of tasks between increment and decrement |
| ConnectionRace.TaskActionKeepsCount | src/egressweave/transport.py:175-199 | no task step breaks that count or the exclusiveness of the lock |
| ConnectionRace.AddressesTriedInPinnedOrder | src/egressweave/transport.py:201-220 | tasks are created for a prefix of the pinned addresses, once each, in order, never at or past the deadline, and early only when no task is left |
| ConnectionRace.DenialIsJustified | src/egressweave/transport.py:224-286 | every denial was decided in a state, before any clean-up, in which the deadline had passed or every address had been tried and had ended without a stream |
| ConnectionRace.ExitAccountsForStreams | src/egressweave/transport.py:242-285 | at exit no task runs; the returned stream comes from a batch read before the deadline and was never closed; every other stream of any batch had close attempted exactly once, and nothing else was closed |
| ConnectionRace.LoopIsLinear | src/egressweave/transport.py:224-283 | for n addresses the coordinator loop turns at most 2n + 1 times in every interleaving |
| ConnectionRace.RunsAreShort | src/egressweave/transport.py:172-286 | for n addresses coordinator and tasks together take at most 11n + 12 steps in every run, clean-up included |
| ConnectionRace.StepsDecrease | src/egressweave/transport.py:172-286 | every step but the clock's uses up one measure over addresses, tasks, batches and the coordinator's place |
| ConnectionRace.NothingIsStuck | src/egressweave/transport.py:172-286 | in every state of every run but the exit some step becomes possible when time passes, so with the bound above every run can only end at the exit |
| ConnectionRace.WaitIsTimely | src/egressweave/transport.py:225-246 | in every run the coordinator leaves once it reads the deadline or tracks no task; otherwise it waits until 0.25 s after the reading that followed the last creation while addresses are left, or until the deadline, and for no longer but for the time its own readings take |
| ConnectionRace.NextIsCreatedWhenDue | src/egressweave/transport.py:255-283 | in every run, while addresses and time are left, the next task is created after every empty batch, and after one without a stream exactly if no task is left or 0.25 s have gone by since the last creation |
| ConnectionRace.SleepIsExact | src/egressweave/transport.py:175-188 | in every run a task sleeps only beside a running attempt, and exactly until 0.25 s after the last start |
| ConnectionRace.KeepsBounded | src/egressweave/transport.py:222-283 | each turn pays for itself out of twice the addresses left, the tracked tasks and the flag for more addresses |
| ConnectionRace.KeepsPaced | src/egressweave/transport.py:219-219 | the coordinator's own timer keeps creations a full delay apart |
| RaceProgress.HangingCallsDoNotBlock | src/egressweave/transport.py:224-283 | from every reachable loop head at which all tracked calls hang, the next address can be created 0.25 s after the last creation, dialled no later than 0.25 s after the last start, and its stream returned, without any hanging call ending by itself |
| RaceProgress.SecondAddressCanWin | src/egressweave/transport.py:222-283 | for any list of two or more addresses and any deadline more than 0.25 s ahead, the second stream can be returned after 0.25 s although the first call never ends |
| RaceProgress.FirstAddressCanWin | src/egressweave/transport.py:222-278 | for any list and any deadline ahead the first stream can be returned at once |
| RaceProgress.FailuresAreFollowedAtOnce | src/egressweave/transport.py:265-283 | from every reachable loop head at which all tracked calls have failed, the next address can be dialled and returned without any time passing |
| RaceProgress.CleanupEnds | src/egressweave/transport.py:284-285 | clean-up can always run to the exit, with the verdict it began with |
| ResolverSlots.StepKeepsInv | src/egressweave/validation.py:243-293 | every step of any caller or worker keeps the slot count and the protocol of every request |
| ResolverSlots.SlotsAreConserved | src/egressweave/validation.py:247-293 | free slots, callers that own one and workers that own one always add up to 32, so at most 32 resolutions run |
| ResolverSlots.EachSlotIsReturnedOnce | src/egressweave/validation.py:251-281 | on no path is a slot returned twice, and a finished request has returned the slot it took |
| ResolverSlots.AllSlotsComeBack | src/egressweave/validation.py:260-281 | once every request is over, abandoned workers included, all slots are free |
| ResolverSlots.PutNeverBlocks | src/egressweave/validation.py:257-275 | a worker about to put finds its one-place queue empty, even after its caller gave up |
| ResolverSlots.AnswerIsItsOwnWorkers | src/egressweave/validation.py:282-293 | a caller is answered only with what its own worker resolved |
| ResolverSlots.RefusalIsJustified | src/egressweave/validation.py:251-293 | a refusal means that the deadline passed, no thread could start, or the worker failed |
| ResolverSlots.NoWorkerPastDeadline | src/egressweave/validation.py:251-256 | no worker is started for a caller whose reading after the acquire was at or past its deadline |
| ResolverSlots.RequestsFinish | src/egressweave/validation.py:243-293 | every step of a request uses up a finite measure; past its deadline a request that is not over has a step, and one that is not the end of its name resolution unless its caller is done and its worker still resolves |
| ResolverProgress.EveryCallerCanBeAnswered | src/egressweave/validation.py:247-293 | from every reachable state, any caller that waits for a slot before its deadline can be answered with any addresses, without time passing, even if all slots are held or abandoned |
| ResolverProgress.FreeSlotMeansAnswer | src/egressweave/validation.py:247-293 | with a free slot its own steps suffice |
| ResolverProgress.AllSlotsCanResolve | src/egressweave/validation.py:248-273 | a state in which 32 workers resolve at once is reachable, so the bound is tight |
| Addresses.BoundedUnique | src/egressweave/validation.py:205-222 | succeeds exactly when every candidate passes and the distinct ones fit the limit, and returns the first occurrences of the texts that the candidates give |
| Addresses.FirstsKeepOrder | src/egressweave/validation.py:212-222 | the first occurrences are without repetition, lose no address, and stand in order of appearance |
| RequestHeaders.BuildSafeRequestHeaders | src/egressweave/request_safety.py:175-221 | succeeds exactly on well-formed fields with one unambiguous framing signal, and replaces every host field |
| RequestHeaders.ForceIdentityAcceptEncoding | src/egressweave/response_safety.py:97-123 | the loop computes the identity-coded list that the pipeline theorems are about |
| RequestHeaders.EnforceHeaderLimits | src/egressweave/request_safety.py:105-139 | the early exits deny exactly the lists beyond one of the two budgets |
| RequestHeaders.EveryOctetCounts | src/egressweave/request_safety.py:121-134 | each field counts with every octet of its name and value |
| RequestHeaders.PipelineIsCanonical | src/egressweave/response_safety.py:109-123 | for every accepted input: the other fields in their order, then exactly one identity coding, then exactly one trusted host |
| RequestHeaders.PipelineKeepsFraming | src/egressweave/request_safety.py:192-221 | framing fields pass unchanged, and at most one survives, never both kinds |
| RequestHeaders.PipelineIsIdempotent | src/egressweave/request_safety.py:192-221 | a second run gives the same list if the authority is a valid field value, and is denied otherwise |
| RequestHeaders.OutputIsAcceptable | src/egressweave/request_safety.py:79-91 | every output field passes the field checks exactly when the authority does |
| RequestSpelling.KindIsSpelled | src/egressweave/request_safety.py:208-218 | a field name means what it spells, whatever the case of each letter |
| RequestSpelling.AcceptedIsAllowed | src/egressweave/request_safety.py:192-220 | a list is accepted exactly if every item is a pair with an allowed name and value, at most one is spelled `content-length` or `transfer-encoding` in whatever case, and its value is decimal, or spells `chunked` |
| RequestSpelling.OutputIsSpelled | src/egressweave/response_safety.py:109-123 | the output is, unchanged and in order, the fields spelled neither `host` nor `accept-encoding` in whatever case, then identity coding, then the trusted host |
| Decimal.LexIsNumeric | src/egressweave/request_body_safety.py:66-71 | digit strings of equal length are ordered as their values |
| Decimal.LengthThenLexIsNumeric | src/egressweave/request_body_safety.py:66-71 | comparison by length, then lexically, is numeric comparison for text without leading zeros |
| Decimal.TextExceedsIsNumeric | src/egressweave/request_body_safety.py:63-71 | the textual test on the stripped digits is `value > budget`, whatever their number |
| Decimal.StripKeepsValue | src/egressweave/request_body_safety.py:63-65 | dropping leading zeros keeps the value |
| Decimal.PlacesAreDecimal | src/egressweave/request_body_safety.py:73-76 | appending a digit multiplies the value by ten and adds the digit |
| DeclaredSize.EnforceDeclaredRequestSize | src/egressweave/request_body_safety.py:31-76 | returns a length exactly for one decimal field within budget, and then its numeric value |
| DeclaredSize.Accumulate | src/egressweave/request_body_safety.py:73-76 | the digit loop computes the value of the text |
| DeclaredSize.EnforceDeclaredResponseSize | src/egressweave/response_safety.py:163-227 | accepts exactly bodyless responses and identity-coded ones whose length, if any, is decimal and within budget |
| BodyStreams.StepKeepsInv | src/egressweave/request_body_safety.py:98-145 | any call on any iterator of one stream object keeps the stream's invariant |
| BodyStreams.AtMostOneIteratorDelivers | src/egressweave/request_body_safety.py:111-140 | however iterators interleave, what the calls return are the source's first chunks, all to the caller of one iterator, and together within budget and declared length |
| BodyStreams.CompletionIsExact | src/egressweave/request_body_safety.py:117-140 | once an iterator has completed, its caller has received every chunk in order, and exactly the declared number of bytes |
| BodyStreams.HonestBodyIsDelivered | src/egressweave/request_body_safety.py:111-140 | a lone iterator completes if and only if the body is bytes only, within budget and as long as declared, and then its caller has received the body |
| BodyStreams.ReceivedIsLogged | src/egressweave/request_body_safety.py:117-133 | the bytes and callers of all yields, read off the events of any sequence of calls, are the history of the stream object |
| BodyStreams.EventsTellStates | src/egressweave/request_body_safety.py:111-140 | a call yields exactly if its iterator goes on, stops exactly if it completes, and denies or raises exactly if it fails; a finished iterator only stops |
| BodyStreams.DenialsCloseSource | src/egressweave/request_body_safety.py:113-145 | in every interleaving the source is closed exactly once for each denial and each `close`, and no iterator denies twice |
| BodyStreams.BoundedRequestStream.Next | src/egressweave/request_body_safety.py:111-140 | resuming a generator changes the object as the state machine says, and closes the source on each denial |
| BodyStreams.IterateResponse | src/egressweave/response_safety.py:240-250 | yields the longest run of whole chunks within the budget, and denies exactly when the body exceeds it |
| RequestPipeline.HandleRequest | src/egressweave/sync_transport.py:197-250 | dispatches exactly the requests that pass every check, with canonical headers and a stream bound to the length they declare; closes the caller's stream exactly on denial |
| RequestPipeline.DeliveredBodyMatchesHeaders | src/egressweave/sync_transport.py:213-250 | if the dispatched headers carry a length, the calls that consume a body to completion return exactly that many bytes, and no interleaving returns more than length or budget |
| StrictJson.ValidateStrictJsonValue | scripts/ci/generate_attestable_release_sbom.py:92-127 | for every finite object graph, shared or cyclic: terminates, never removes an absent id, and accepts exactly if every descent through values of items and elements leads to a container with exact string keys and strict values only, and never to one it passed |
| StrictJson.AcceptsExactlyStrictGraphs | scripts/ci/generate_attestable_release_sbom.py:79-91 | the recursive definition that the loop refines is that statement about descents |
| StrictJson.AcceptedPath | scripts/ci/generate_attestable_release_sbom.py:79-91 | no path below an accepted container repeats or meets an impure one |
| StrictJson.RejectedPath | scripts/ci/generate_attestable_release_sbom.py:99-127 | a rejection always has a path to an active, a repeated or an impure container |
| StrictJson.Entered | scripts/ci/generate_attestable_release_sbom.py:102-121 | entering a container keeps the verdict of the whole stack and uses up the termination measure |
| StrictJson.PushItems | scripts/ci/generate_attestable_release_sbom.py:107-111 | the loop over a dictionary pushes a visit of the value of each item in order, or finds a key that is no exact string |
| DocumentIdentity.ValidIffBuilt | scripts/ci/generate_attestable_release_sbom.py:157-193 | the writer accepts a document exactly if the builder makes it from some foundation document |
| DocumentIdentity.AcceptedFields | scripts/ci/generate_attestable_release_sbom.py:58-75 | a document is accepted exactly if it is strict, has the four CycloneDX fields with an integer 1 as version, and a serial number derived from everything else it holds |
| DocumentIdentity.TamperingNeedsCollision | scripts/ci/generate_attestable_release_sbom.py:145-176 | two different documents are accepted with one serial number only if their unsigned parts differ, and are printed alike, or two different printed texts share a digest, or two different identity URLs share a UUID |
| Manifest.DependencyWalk.Visit | scripts/ci/generate_release_sbom.py:714-725 | a visit returns with its own name and only reachable names added, or names a real cycle or a reachable unknown |
| Manifest.DependencyWalk.VisitDependencies | scripts/ci/generate_release_sbom.py:722-723 | the loop over an active name's dependencies leaves all of them visited and adds only names below it, or passes on the cycle or unknown that it met |
| Manifest.DependencyWalk.ActiveNameIsOnCycle | scripts/ci/generate_release_sbom.py:715-716 | an active name met again lies on a cycle: the ghost trail behind the active set closes it |
| Manifest.Reachable | scripts/ci/generate_release_sbom.py:709-729 | succeeds exactly if everything reachable is known and acyclic, which is that some list of names holds the roots and has every name behind what it depends on; returns the reachable set, the least closed one; otherwise witnesses a cycle or an unknown name |
| Manifest.TopologicalIsAcyclic | scripts/ci/generate_release_sbom.py:714-725 | finishing order is topological, which excludes cycles and closes the visited set |
| Manifest.OrderedIsSound | scripts/ci/generate_release_sbom.py:709-729 | a list of names in which each stands behind what it depends on excludes cycles and unknown names below its members |
| Manifest.ReachableIsLeast | scripts/ci/generate_release_sbom.py:726-729 | what is reachable is the least set that holds the roots and what its members depend on |
| Sbom.LoadManifest | scripts/ci/generate_release_sbom.py:732-773 | accepts exactly a root with reviewed fields whose requirements name its dependencies, and allowed, distinct components that some order arranges behind what they depend on and that every closed set from the root's dependencies holds |
| Sbom.LoadComponents | scripts/ci/generate_release_sbom.py:759-766 | the loop accepts exactly allowed components with distinct names other than the root's, and builds their index |
| Sbom.DependenciesInOrder | scripts/ci/generate_release_sbom.py:948-963 | after the root's entry the references stand in text order, and so do the targets of every entry, whatever the order of the manifest |
| Sbom.EmittedIsClosed | scripts/ci/generate_release_sbom.py:949-963 | every target is some component's package URL, and so is every source but the root |
| Sbom.ReferenceIsUnique | scripts/ci/generate_release_sbom.py:949-963 | every package URL is the reference of exactly one entry |
| Sbom.EdgesAreRenamed | scripts/ci/generate_release_sbom.py:949-963 | the emitted edges are the manifest's, renamed by package URL |
| Sbom.EmittedPathIsManifestPath | scripts/ci/generate_release_sbom.py:949-963 | every path of the emitted list is a renamed path of the manifest |
| Sbom.EmittedIsAcyclic | scripts/ci/generate_release_sbom.py:949-963 | no path of the emitted list returns to its start |
| Sbom.ReviewedIsEmittable | scripts/ci/generate_release_sbom.py:767-773 | an accepted manifest with distinct package URLs meets every assumption of the emission |
| Sbom.SbomGraphIsTheManifestGraph | scripts/ci/generate_release_sbom.py:947-963 | what is emitted is the manifest's graph renamed: same edges, closed, acyclic |
| SbomOrder.SbomForgetsOrder | scripts/ci/generate_release_sbom.py:948-998 | permuting component and dependency lists changes neither the component nor the dependency list of the SBOM, if package URLs are distinct |
| SbomOrder.PermutedListsAreSame | scripts/ci/generate_release_sbom.py:948-998 | two lists differ in order only, as assumed there, if one is the other permuted with each dependency list permuted |
| SbomOrder.OrderIsFreeIffPurlsDistinct | scripts/ci/generate_release_sbom.py:948-998 | the SBOM's component list, like the stable sort behind it, is the same for every order of the manifest's list exactly if package URLs are distinct |
| SbomOrder.ListingTellsOrder | scripts/ci/generate_release_sbom.py:948-998 | of one component list in two orders, equal SBOM component lists come from equal sorted components, dependencies included |
| SbomOrder.ListedTellsComponents | scripts/ci/generate_release_sbom.py:898-919 | two components are listed alike exactly if they agree in everything but their dependencies |
| SbomOrder.PlainNamesHaveDistinctPurls | scripts/ci/generate_release_sbom.py:694-696 | names without `@` have distinct package URLs, whatever the versions |
| SbomOrder.OrderCanMatter | scripts/ci/generate_release_sbom.py:676-773 | a concrete manifest that the loader accepts in both orders of its components, with two different component lists |
| SbomOrder.RootDependenciesArePlain | scripts/ci/generate_release_sbom.py:753-755 | the requirement check keeps `@` out of the root's own dependencies |
| RuntimeLock.LoadRuntimeLock | scripts/ci/generate_release_sbom.py:786-827 | builds the one lock that the lines describe, and fails exactly if some line is not allowed or repeats a package |
| RuntimeLock.ValidateRuntimeLock | scripts/ci/generate_release_sbom.py:830-844 | succeeds exactly if the manifest and the lock load and every component has an entry with its version, digest and canonical marker |
| RuntimeLock.ValidationIsStated | scripts/ci/generate_release_sbom.py:830-844 | that is: the manifest is reviewed, each line parses, has one digest and no extras and names another package, and for each component some line states its version, digest and canonical marker |
| SbomOrder.LockedPurlsAreDistinct | scripts/ci/generate_release_sbom.py:830-844 | no two components of a manifest that matches its lock share a package URL |
| SbomOrder.ReleasedSbomForgetsOrder | scripts/ci/generate_release_sbom.py:1008-1014 | permuting the lists of a manifest that matches its lock changes neither the component nor the dependency list of the SBOM |
| SbomOrder.ReleasedSbomGraph | scripts/ci/generate_release_sbom.py:1008-1014 | the dependency list of that SBOM is the manifest's graph renamed: same edges, closed, acyclic |
| SbomOrder.ReleasedReferenceIsUnique | scripts/ci/generate_release_sbom.py:1008-1014 | in it each component's package URL is the reference of exactly one entry, which holds that component's dependencies and is not the root's |
| SbomOrder.ReleasedComponentIsListed | scripts/ci/generate_release_sbom.py:898-919 | on the shipped route every component is listed at exactly one place and nothing else is, with its version, digest, license, file name and marker, and a line of the lock states the same version, digest and canonical marker |
| SbomOrder.ListedTextsAreSafe | scripts/ci/generate_release_sbom.py:635-707 | no text of a listed component is empty or holds a line break or a NUL |
| Ordering.LeqIsLexicographic | scripts/ci/generate_release_sbom.py:948-948 | the order of texts: one begins the other, or the first place where they differ decides |
| Ordering.SortBySorts | scripts/ci/generate_release_sbom.py:948-948 | the model of `sorted` returns the same elements in order |
| Ordering.SortByIsStable | scripts/ci/generate_release_sbom.py:948-948 | and keeps the order of equal keys |
| Ordering.OrderMattersIffKeysCollide | scripts/ci/generate_release_sbom.py:948-948 | it gives one result for every input order exactly if no two elements share a key |
| ZipPreflight.FindZipEocd | scripts/ci/generate_release_sbom.py:295-309 | the bounded backward search returns the greatest offset of the whole file whose signature matches and whose comment ends the file, and fails only if there is none |
| ZipPreflight.FindInTail | scripts/ci/generate_release_sbom.py:302-309 | the candidate loop misses no end record between two matches |
| ZipPreflight.SignaturesDoNotOverlap | scripts/ci/generate_release_sbom.py:308-308 | two signatures are at least four octets apart, so searching before a candidate skips none |
| ZipPreflight.EndIsInTail | scripts/ci/generate_release_sbom.py:298-301 | every end record of a file lies in its last 65,557 octets |
| ZipPreflight.HasLocator | scripts/ci/generate_release_sbom.py:333-339 | finds a ZIP64 locator signature exactly if one lies in the twenty octets before the end record |
| ZipDirectory.ExtraIsPlain | scripts/ci/generate_release_sbom.py:312-325 | accepts exactly the encodings of field lists without ZIP64 data |
| ZipDirectory.PlainExtrasInverts | scripts/ci/generate_release_sbom.py:312-325 | decoding an encoded list of extra fields gives the list back |
| ZipDirectory.PlainExtrasAreEncoded | scripts/ci/generate_release_sbom.py:312-325 | every accepted extra block is the encoding of what it decodes to |
| ZipDirectory.TurnDecides | scripts/ci/generate_release_sbom.py:355-377 | one turn of the walk removes exactly one record of the region, or proves that the region holds no such run of records |
| ZipDirectory.SplitIsUnique | scripts/ci/generate_release_sbom.py:355-382 | a region is a run of well-formed records in one way at most |
| ZipDirectory.PartsMakeRecord | scripts/ci/generate_release_sbom.py:357-377 | a header that describes its name, extra fields and comment makes a record with them |
| ZipPreflight.ReadRecord | scripts/ci/generate_release_sbom.py:355-377 | reads a header wherever the region ends, and rejects exactly when no whole record is there |
| ZipPreflight.WalkDirectory | scripts/ci/generate_release_sbom.py:352-382 | accepts exactly the regions that split, with no leftover, into the declared number of records |
| ZipPreflight.PreflightWheelMembers | scripts/ci/generate_release_sbom.py:328-382 | accepts exactly the admissible archives: one disk, agreeing counts, no ZIP64, at most 10,000 well-formed records ending at the last end record |
| ZipPreflight.AdmissibleInOneWay | scripts/ci/generate_release_sbom.py:328-382 | an accepted archive determines its end record, directory offset and records |
| ZipPreflight.AssembledIsAdmissible | scripts/ci/generate_release_sbom.py:328-382 | any records after any prefix, with an end record without comment and no locator before it, are accepted |
| ZipArchives.WrittenIsRecord | scripts/ci/generate_release_sbom.py:355-377 | a central header written field by field, with name, extra fields and comment, is one record, and admissible exactly if it is on the first disk, defers neither size nor offset and has no extra field with identifier 1 |
| ZipArchives.WrittenFieldsArePlain | scripts/ci/generate_release_sbom.py:312-325 | written extra fields are free of ZIP64 data exactly if none has identifier 1 |
| ZipArchives.WrittenArchiveIsAccepted | scripts/ci/generate_release_sbom.py:328-382 | an archive of any prefix, a directory written field by field and an end record is accepted exactly if it has at most 10,000 entries, all of them admissible, nothing that defers to ZIP64, and no locator before the end record |
| ZipArchives.CommentedEndIsFound | scripts/ci/generate_release_sbom.py:302-307 | an end record with a comment of the length it declares is found |
| LittleEndian.OctetsHoldNumber | scripts/ci/generate_release_sbom.py:47-48 | a number that fits its octets is read back |
| LittleEndian.NumberIsInjective | scripts/ci/generate_release_sbom.py:47-48 | octets of one width hold a number in one way |
| LittleEndian.LeastFirst | scripts/ci/generate_release_sbom.py:47-48 | fields of two and four octets hold the least octet first |
| TarFields.TarNumberGrammar | scripts/ci/generate_release_sbom.py:396-405 | a field reads as n exactly if it is spaces, octal digits worth n, then spaces and NULs |
| TarFields.OctalRoundTrip | scripts/ci/generate_release_sbom.py:396-405 | every number that fits its digits is read back, whatever blanks surround them |
| TarFields.PlacesAreOctal | scripts/ci/generate_release_sbom.py:396-405 | appending a digit multiplies the value by eight and adds the digit |
| TarFields.ChecksumFits | scripts/ci/generate_release_sbom.py:408-413 | the checksum of every 512-octet header is at most 504 * 255 + 256, which fits six octal digits |
| TarFields.ObservedIsBlankedSum | scripts/ci/generate_release_sbom.py:411-411 | the observed checksum is the plain sum of the header whose checksum field holds blanks |
| TarFields.SumIsAdditive | scripts/ci/generate_release_sbom.py:411-411 | the sum counts every octet once |
| TarFields.StampIsAccepted | scripts/ci/generate_release_sbom.py:408-413 | writing its checksum into any header gives an accepted header |
| TarFields.ChecksumDetectsOneOctet | scripts/ci/generate_release_sbom.py:408-413 | changing one octet outside the field is always rejected |
| TarPreflight.ExpandedArchive.ReadExpanded | scripts/ci/generate_release_sbom.py:416-439 | however reads are chunked, the payload is the next bytes of the stream, spooled, and a failure means a bound, a corrupt stream or its end |
| TarPreflight.ExpandedArchive.CheckHeader | scripts/ci/generate_release_sbom.py:464-483 | accepts exactly allowed headers within the member bound |
| TarPreflight.ExpandedArchive.ReadMember | scripts/ci/generate_release_sbom.py:464-495 | consumes exactly one allowed member, or the stream is not acceptable from here |
| TarPreflight.ExpandedArchive.ReadPayload | scripts/ci/generate_release_sbom.py:484-495 | behind an allowed header the padded payload is consumed to the member's end, or no whole member without a sparse form stands here within the bound |
| TarPreflight.ExpandedArchive.Turn | scripts/ci/generate_release_sbom.py:453-495 | one turn consumes one block or member without changing whether the stream is acceptable, or proves that it is not |
| TarPreflight.ExpandedArchive.SkipTrailing | scripts/ci/generate_release_sbom.py:496-509 | accepts exactly zeros up to the end within the bound, and spools them |
| TarPreflight.ExpandedArchive.Preflight | scripts/ci/generate_release_sbom.py:442-520 | accepts exactly intact streams of allowed items up to two adjacent zero blocks and then zeros, within all bounds; the spool is then the whole stream and `consumed` its length |
| TarPreflight.EndsMeansClosed | scripts/ci/generate_release_sbom.py:453-463 | counting zero blocks up to two says that the only adjacent pair of them closes the item list |
| TarPreflight.ZeroTurn | scripts/ci/generate_release_sbom.py:460-462 | a zero block changes nothing but the count |
| TarPreflight.MemberTurn | scripts/ci/generate_release_sbom.py:463-495 | any other block must start a whole allowed member, and the rest decides |
| TarPreflight.LayoutIsUnique | scripts/ci/generate_release_sbom.py:442-520 | a stream is accepted for one list of items only |
| TarArchives.HeaderIsAllowed | scripts/ci/generate_release_sbom.py:464-483 | a ustar header written field by field is allowed exactly for files, directories, and extensions of at most 1 MiB, and its size and type are read back, for every size below 8 to the eleventh |
| TarArchives.WrittenIsMember | scripts/ci/generate_release_sbom.py:463-495 | a written entry spans 512 octets and its padded content, and is an allowed member exactly if it fits |
| TarArchives.ArchiveIsAcceptable | scripts/ci/generate_release_sbom.py:442-520 | an archive of written entries, two zero blocks and zeros is accepted exactly if it has at most 10,000 entries and 512 MiB, no extension above 1 MiB, and no sparse marker in a pax extension |
| ArtifactReader.LiveBoundedArtifactReader.Read | scripts/ci/generate_release_sbom.py:141-170 | returns bytes of the file as it was during the call, ends within the bound, and is denied only if the file outgrew it |
| ArtifactReader.LiveBoundedArtifactReader.Snapshot | scripts/ci/generate_release_sbom.py:878-895 | however the file grows meanwhile, copying ends, and a copy is the whole file as it was at the latest read, between its first and its last content and within the bound |
| Checksums.ParseLineInverts | src/egressweave/release_evidence.py:45-47 | a line matches the pattern exactly if it is the printed line of a valid entry: 64 small hexadecimal digits, two spaces, a name |
| Checksums.SplitUndoesJoin | src/egressweave/release_evidence.py:248-248 | splitting printed lines gives them back |
| Checksums.JoinUndoesSplit | src/egressweave/release_evidence.py:246-248 | text whose only separator is LF is the join of its lines |
| Checksums.ChecksumText | scripts/ci/prepare_release_evidence.py:346-357 | prints one line for each name in sorted order, whatever the insertion order |
| Checksums.ReadEntries | src/egressweave/release_evidence.py:249-257 | reads lines into the one dictionary that explains them, and fails only if there is none |
| Checksums.LoadChecksums | src/egressweave/release_evidence.py:246-262 | succeeds exactly on shaped text that lists sorted, distinct, expected names, with their digests |
| Checksums.PrintedIsListed | scripts/ci/prepare_release_evidence.py:346-357 | the printed form of any non-empty dictionary within the size bound is accepted, as that dictionary only |
| Checksums.RoundTrip | src/egressweave/release_evidence.py:246-262 | printing any such dictionary and loading the text with its names expected gives the dictionary back |
| Checksums.ListedInOneWay | src/egressweave/release_evidence.py:249-262 | a text lists one dictionary only |
| Checksums.ListedIsPrintedIffLf | src/egressweave/release_evidence.py:246-248 | accepted text is the printed form of what it lists if and only if LF is its only separator |
| Checksums.OtherSeparatorIsAccepted | src/egressweave/release_evidence.py:246-248 | for any two or more entries, another control in place of the first LF is accepted as the same dictionary |

## Left out

- Asyncio is a contract: `wait` returns an empty batch, and `sleep` wakes, only after the whole timeout, although a timer may fire early by the clock's resolution; the lock is exclusive, its fairness is not used. The clock is a real number, not a float.
- In the race, cancellation of the coordinator, process-control exceptions and the per-attempt `timeout` argument are not modelled. Streams of tasks that finish during clean-up are discarded by the source (src/egressweave/transport.py:145-150), so nothing is claimed about closing those.
- The race and the resolver are values with a step relation, not classes: aliasing and update in place are not captured, interleaving is.
- ResolverSlots.RequestsFinish: does not say that a blocked name resolution ever ends, because the source has no bound on it; nothing else keeps a request from ending.
- ConnectionRace.NothingIsStuck: counts the end of a backend call as a step that the network can always take, because the source gives the call its own timeout and the model does not.
- RaceProgress and ResolverProgress say what can still happen from a state; that a network, a name server or a scheduler makes it happen is not claimed.
- BodyStreams: closing the source does not change what it yields, and generator clean-up is a close like any other. The asynchronous stream class is the same state machine and is not repeated.
- BodyStreams.IterateResponse: one iteration of a response, because each iteration of the source counts from zero.
- RequestPipeline.HandleRequest: the checks of method and authority are one boolean and those of the extensions another; the timeouts and the server name bound to a request are not modelled.
- The synchronous backend's loop over addresses, connection pools, TLS, URL parsing and normalisation, IDNA and the address policy are not modelled; an address verdict is a parameter.
- Manifest.DependencyWalk.Visit: does not model Python's recursion limit.
- Sbom.LoadManifest: starts from parsed values: that a JSON value has the right type, the size bound, the schema version, the name canonicalisation `_name` and the parser behind `Requirement` are not modelled; of that parser only the alphabet of a name is used. That the artifact has the identity the manifest gives it is left out as well.
- RuntimeLock.LoadRuntimeLock: starts from parsed lines: the size bound, the joining and splitting of lines and the text around the hash option are not modelled. The canonical form of a marker is a parameter.
- StrictJson: an object graph is a finite heap that does not change during validation; `json.dumps` itself is not modelled.
- DocumentIdentity: strictness, canonical printing, SHA-256 and UUID version 5 are arbitrary functions, so collisions are stated, not excluded.
- SbomOrder.OrderIsFreeIffPurlsDistinct: concerns the component list. For the dependency list distinct package URLs are sufficient (`SbomOrder.SbomForgetsOrder`) but not necessary, because components that share one may also share their targets.
- Zip and tar: reading member contents, member names and metadata after the preflight is not modelled. Decompression is a byte string that may end in an error.
- ArtifactReader: another process may append to the file but not shorten or rewrite it; failing descriptors, digests and identity checks of the path are not modelled.
- Checksums: a digest is any 64 hexadecimal characters; reading the file twice and comparing digests is not modelled.
