# Verified model of the metadata proxy

The repository is a caching proxy for the Python Simple API. It finds a wheel's
`METADATA` by reading byte ranges of the remote ZIP file, caches project pages with
lifetimes in Redis or in memory, completes them in the background, and lets many
requests, background jobs and replicas race on the same cache keys. This project models
those parts and proves what the code is meant to guarantee: over every input of the ZIP
reader, over every run and interleaving of the caching protocols.

`dafny verify dfyconfig.toml` checks everything.

## How it is laid out

Reading a wheel through byte ranges (`app/wheel_metadata.py`):

- `Bytes`, `Text`, `Counting`, `Wrappers`, `ZipFailures`: little-endian words, string splitting,
  set sizes, options and results, one name per error.
- `ZipFormat`: the three ZIP records of PKWARE's APPNOTE (sections 4.3.7, 4.3.12, 4.3.16) with
  writers for all their fields; reading and writing undo each other in both directions.
- `EndOfCentralDirectory`, `CentralDirectory`: the backward search and the walk, each as a
  loop, each shown to accept exactly the bytes that a writer of acceptable records produces.
- `RangeReader`, `WheelMetadata`: one reply, and the whole extraction against any server.
- `WheelExactness`: exactly which archives the extraction gets METADATA from, in terms of the
  written records and of literal bounds only.
- `ZipRoundTrip`: a small ZIP writer, and the extraction as its inverse.

Caching (`app/cache.py`, `app/singleflight.py`, `app/metadata.py`, `app/simple_project.py`):

- `TimedStore`: a plain map whose entries expire. `Cache` is the in-memory class over a
  dictionary and refines it; `LuaScript` is the compare-and-set that runs inside Redis.
- `ProjectKeys`, `Enrichment`: fills, misses, 304 revalidations, lazy conversions and
  enrichment commits as jobs of any number of replicas on one shared store. Every backend
  call is one step; the clock, eviction and cancellation may strike between any two steps.
  `Lifetimes` bounds expiries over single commits and whole chains, `Overwrites` says which
  steps throw an enrichment away and when, `Readiness` what commits, 304s and fills leave for
  later readers, `Revalidation` adds the fill lock, `Scenarios` and `LockedScenario` have
  concrete runs.
- `KeyLocker`: the reference-counted locks, as a class and as a transition system.
  `SingleflightFill` and `Recovery` run their own protocols on top of that system;
  `RecoveryScenario` is a concrete run of the latter.
- `MetadataStore`: stores of several writes and loads of several reads, interleaved.
- `TaskRegistry`: the registries of background jobs, with shutdown and late callbacks.
- `Candidates`: which wheels are extracted, and how they are probed in batches.

Fields of the Simple API (`app/parse.py`): `Escape`, `HashFragment`, `SimpleFile`.

Methods follow the code's loops and updates; the functions they are proved against are
what the lemmas talk about. The transition systems have a `Step` type, an `Enabled`
predicate, an `Apply` function and a `Run` predicate, and their main results hold at the
end of every `Run` from the initial state.

## What the proofs found

- The ZIP64 locator is looked for in the fetched tail only. With a comment of nearly the
  maximal length it lies in front of that tail and goes unseen. `SuffixParseVersusWhole` and
  `RangedReadVersusWholeArchive` say exactly when the tail and the whole archive agree, and
  `HiddenLocatorIsAccepted` gives whole wheels that are read although they should be refused.
- A partial reply is collected up to the length that it declares itself, however little was
  asked for, and only then refused (`OversizedReplyIsCollected`). `KeptBeyondRequest` says
  exactly which replies do this, and `CollectedBeyondBudget` that only one in a run can, the
  last, which fails the run. The budget of 42,139,697 bytes is one of accepted bytes.
- Redis rounds a remaining lifetime to the nearest second, so a commit or a conversion can
  move an expiry up to half a second later, and an announced lifetime can outlast its body by
  as much. The lifetime results carry this slack, say that it arises exactly when a sample is
  rounded up, and `RoundingUpRestartsLifetimes` is a run in which it does.
- Commits and conversions compare texts, not generations. A copy that was given a shorter
  lifetime after they sampled it, with the same text, is outlived (`ShorterLifetimeIsUndone`;
  `LockedConversionUndoesALifetime` in one process). `CommitUndoesExactly` and
  `ConversionUndoesExactly` say exactly when; the chains in `LifetimesAreNotRestarted` therefore
  go on from each source as it was when it was sampled.
- Four writes put a body where they have not compared, and can throw away an enrichment
  committed in between. `Overwrites` has the exact condition for each, and `OthersDiscardNothing`
  shows that there is no fifth, apart from eviction and a newly fetched page.
  - A 304 publishes its stale bodies (`RepublishDiscardsExactly`, `RevalidationLosesAnEnrichment`),
    and before that may put the other format's stale body back (`RestoreDiscardsExactly`,
    `RestoreLosesAnEnrichment`). Within one process the fill lock rules both out
    (`LockedRevalidationDiscardsNothing`).
  - A conversion compares its source and not its target (`ConversionDiscardsExactly`). The lock
    does not rule this out, because the first attempt to serve a request runs outside it
    (`LockedConversionLosesAnEnrichment`).
  - A commit to the current copy overwrites the stale copy beside it
    (`CommitDiscardsExactly`, `CommitLosesAnEnrichment`).

  Readiness stays truthful in every case, because the markers are bound to the body's digest.
- The Redis compare-and-set is all-or-nothing only for positive lifetimes. Redis refuses any
  other one after it has done the earlier writes, and Python then tries its own dictionary
  (`SetExManyOrFallBack`, `RefusedLifetimeLeavesHalf`).
- Where some callers of an artifact name its wheel hash and others none, it may be extracted
  twice, and twice more for each lost record (`ExtractedOnce`; `OneLossCostsTwo` is a run
  with four extractions and one loss).
- A hash assignment with an algorithm that the HTML printer does not know survives one trip
  through HTML and is dropped by the second (`RenderingSettles` gives the exact condition).
- `MAX_ENTRIES` can never be exceeded: the count has 16 bits and 0xFFFF is refused before
  (`OnlyZeroEntriesAreInvalid`).

## Model

| member | source | states |
|---|---|---|
| ZipFormat.EndDecodesEncode | app/wheel_metadata.py:210-229 | the reader's field offsets give back every field of a written end record, behind any prefix |
| ZipFormat.EndEncodesDecode | app/wheel_metadata.py:213-229 | a self-consistent end record found in any bytes is exactly the writer's output for the fields read |
| ZipFormat.CentralDecodesEncode | app/wheel_metadata.py:257-269 | the 46-byte layout and the three variable parts give back a written central record in the middle of any bytes |
| ZipFormat.CentralEncodesDecode | app/wheel_metadata.py:257-269 | the bytes of any record the walk steps over are the encoding of the fields read from them |
| ZipFormat.LocalDecodesHeader | app/wheel_metadata.py:353-357 | flags, method and the two lengths are where a written local header has them |
| ZipFormat.LocalEncodesDecode | app/wheel_metadata.py:352-368 | the bytes of any local header found by its signature are the encoding of the fields read from them |
| ZipFormat.EndLayout | app/wheel_metadata.py:221-229 | signature and byte offset of each field of a written end record |
| ZipFormat.CentralLayout | app/wheel_metadata.py:257-269 | the same of a central directory header |
| ZipFormat.LocalLayout | app/wheel_metadata.py:353-357 | the same of a local file header |
| ZipFormat.LittleEndian | app/wheel_metadata.py:160-160 | the integers are little-endian |
| EndOfCentralDirectory.EndRecordOffset | app/wheel_metadata.py:211-220 | the search gives the last self-consistent end record, or -1 when there is none anywhere |
| EndOfCentralDirectory.FindEndRecord | app/wheel_metadata.py:211-220 | the backward loop finds the last self-consistent end record |
| EndOfCentralDirectory.ParseEocd | app/wheel_metadata.py:210-248 | the search and its checks return the directory or the first failing check, as the specification orders them |
| EndOfCentralDirectory.EocdExact | app/wheel_metadata.py:210-248 | success exactly on bytes that end in a written single-disk 32-bit end record pointing at the directory right before it, with no later end record and no visible locator |
| EndOfCentralDirectory.SuffixSearchIsComplete | app/wheel_metadata.py:27-27 | the end record found in the last 65557 bytes is the one that a search of the whole archive finds |
| EndOfCentralDirectory.SuffixParseVersusWhole | app/wheel_metadata.py:235-241 | the tail is accepted as the whole archive would be, if and only if no locator is hidden in front of the tail |
| EndOfCentralDirectory.OnlyZeroEntriesAreInvalid | app/wheel_metadata.py:242-243 | an end record is refused for its entry count only when the count is 0 |
| CentralDirectory.MetadataNameShape | app/wheel_metadata.py:178-185 | the accepted names are exactly a non-empty slash-free stem followed by `.dist-info/METADATA` |
| CentralDirectory.HasZip64Extra | app/wheel_metadata.py:156-168 | the loop's verdict on an extra field, malformed ones included |
| CentralDirectory.NoZip64Exact | app/wheel_metadata.py:156-168 | no ZIP64 field is reported exactly on the encodings of lists of other fields |
| CentralDirectory.Zip64Exact | app/wheel_metadata.py:156-168 | one is reported exactly when a complete one follows a list of other fields, whatever comes after it |
| CentralDirectory.ReadRecord | app/wheel_metadata.py:257-280 | one record is accepted exactly when a written record stands there whose sizes and offset are below 0xFFFFFFFF, on disk 0, without a ZIP64 field and with a name that can be decoded; otherwise the first check that fails |
| CentralDirectory.RecordExact | app/wheel_metadata.py:257-280 | the same of the specification |
| CentralDirectory.ParseCentralDirectory | app/wheel_metadata.py:251-290 | a member is returned exactly when the bytes tile into such records with one `<stem>.dist-info/METADATA` among them, and it has that record's fields |
| CentralDirectory.CentralExact | app/wheel_metadata.py:251-290 | the same of the specification |
| CentralDirectory.TilesAccepted | app/wheel_metadata.py:251-290 | every such written list is accepted |
| RangeReader.ReceiveUpTo | app/wheel_metadata.py:78-91 | the chunks kept are the most that fit the limit, and the verdict depends on the total only |
| RangeReader.FullResponse | app/wheel_metadata.py:61-91 | a 200 is read within the allowance and the wire limit, chunk by chunk, as the specification of the joined body says |
| RangeReader.PartialResponse | app/wheel_metadata.py:96-122 | a 206 needs a valid Content-Range and exactly its declared bytes, of which no more than that are collected |
| RangeReader.RangeResponse | app/wheel_metadata.py:43-124 | the reading of a reply depends on the joined body, not on its chunks; how many bytes were collected on the way |
| RangeReader.ReadReply | app/wheel_metadata.py:101-122 | an accepted body has the length of its range, lies inside the archive, and is full only within the allowed size |
| RangeReader.ReplyExact | app/wheel_metadata.py:53-122 | a reply is accepted exactly when it is the whole object, allowed and declared rightly, or the part that its Content-Range names, of at most 32 GiB |
| RangeReader.KeptBeyondRequest | app/wheel_metadata.py:104-119 | more than the requested length is collected exactly from a 206 reply that declares more and of which more arrives within that |
| RangeReader.OversizedReplyIsCollected | app/wheel_metadata.py:148-152 | a concrete reply of a hundred bytes to a request for thirty, collected whole and then refused |
| RangeReader.FetchSuffix | app/wheel_metadata.py:127-139 | an accepted tail is non-empty, at most the length asked for, and is the whole archive when the reply was full |
| RangeReader.SuffixExact | app/wheel_metadata.py:127-139 | a tail is accepted exactly when it is the last bytes asked for, or the whole of a shorter object |
| RangeReader.RangeExact | app/wheel_metadata.py:142-153 | a range is accepted exactly when the reply is that part of an object of the known size |
| RangeReader.HonestSuffix | app/wheel_metadata.py:127-139 | against an honest server the tail is the archive's own suffix, whichever of the two replies came |
| RangeReader.HonestExact | app/wheel_metadata.py:142-153 | against an honest server an exact range gives the archive's own bytes |
| WheelMetadata.FetchBytes | app/wheel_metadata.py:325-330 | local and remote fetches have the same refusals, and a remote one makes one request for the exact range |
| WheelMetadata.FetchedExactly | app/wheel_metadata.py:325-330 | bytes come exactly from a non-empty range inside the archive: its own, or a partial reply to a request for that very range |
| WheelMetadata.NothingWithoutTail | app/wheel_metadata.py:322-322 | against any server nothing is extracted unless the last 65557 bytes came as such |
| WheelMetadata.ExtractWheelMetadata | app/wheel_metadata.py:319-374 | the straight-line reader has the outcome, the requests and the declared member of the staged specification, whose successes `WheelExactness` characterises |
| WheelMetadata.ReadDirectory | app/wheel_metadata.py:332-336 | the same from the archive's last bytes on |
| WheelMetadata.ReadMember | app/wheel_metadata.py:336-353 | the same from the central directory on |
| WheelMetadata.ReadLocal | app/wheel_metadata.py:353-362 | the same from the local header on; success only with its signature, and flags and method as the directory has them |
| WheelMetadata.ReadData | app/wheel_metadata.py:363-374 | the same from the local name on; success only with the directory's name and no ZIP64 field |
| WheelMetadata.ExtractionSoundAndBounded | app/wheel_metadata.py:20-27 | for any server: a result has the declared size, at most 8 MiB, and the declared CRC of an admissible member; every range lies inside the archive; at most five requests and 42,139,697 accepted bytes |
| WheelMetadata.CollectedBeyondBudget | app/wheel_metadata.py:113-122 | for any server the bytes collected exceed that budget only through the last reply of a run, which is refused and fails the run, and is at most 32 GiB |
| WheelMetadata.ServerOfIsHonest | app/wheel_metadata.py:127-153 | for every archive there is an honest server |
| WheelMetadata.RangedReadRefinesLocal | app/wheel_metadata.py:319-374 | against any honest server, bytes or failure are a function of the archive alone, the same for 206 and full 200 replies |
| WheelMetadata.RangedReadVersusWholeArchive | app/wheel_metadata.py:319-374 | it succeeds, with the same bytes, exactly when a reader searching the whole archive would and no locator is hidden |
| WheelExactness.ExtractionExact | app/wheel_metadata.py:319-374 | a content is returned exactly for the archives of at most 32 GiB that end in the directory of acceptable records and an end record with no locator in view, where the one METADATA record is of this wheel, not encrypted and within 8 MiB, its local header agrees with it in flags, method and name and has no ZIP64 field, and the data behind unpacks to the content |
| WheelExactness.RangedExtractionExact | app/wheel_metadata.py:319-374 | the same against any honest server |
| WheelExactness.MemberExact | app/wheel_metadata.py:351-374 | the same of one member, from its local header on |
| ZipRoundTrip.ReadInvertsWrite | app/wheel_metadata.py:319-374 | reading any written archive, data descriptors and other gaps included, returns exactly its METADATA content, or the ZIP64 refusal when locator bytes stand 20 before the end record |
| ZipRoundTrip.ServedArchiveIsRead | app/wheel_metadata.py:319-374 | the same through any honest server |
| ZipRoundTrip.StoredMemberQualifies | app/wheel_metadata.py:293-297 | every content up to 8 MiB, stored under any qualifying name and with any comments, makes an archive to which the round trip applies |
| ZipRoundTrip.EmptyFileIsAccepted | app/wheel_metadata.py:270-277 | a wheel that also holds an empty file is read like any other |
| ZipRoundTrip.HiddenLocatorIsAccepted | app/wheel_metadata.py:235-241 | a whole wheel for every such content whose extraction succeeds although a locator is hidden and a reader of the whole archive refuses it |
| TimedStore.WholeExceeds | app/cache.py:270-271 | whole seconds exceed what is left exactly when they were rounded up, which flooring never does |
| TimedStore.Ttl | app/cache.py:255-271 | a reported lifetime is positive and ends at most its rounding's slack after the live entry does: none in memory, half a second in Redis |
| TimedStore.TtlExact | app/cache.py:255-271 | a lifetime is given exactly when the key is live and, after the backend's rounding, a second is left; and which number it is |
| TimedStore.TtlIfValues | app/cache.py:273-315 | a shared lifetime is given only while both keys hold the expected values, and outlives neither by more than that slack |
| TimedStore.TtlIfValuesExact | app/cache.py:273-315 | a shared lifetime is given exactly when both keys are live with the expected values and a rounded second is left to the sooner one; and which number it is |
| TimedStore.PutIsSeen | app/cache.py:164-168 | a written value is seen until its lifetime ends and not after, and no other key changes |
| TimedStore.LastWriteWins | app/cache.py:248-253 | after a batch each key holds its last write with that write's lifetime, and no other key has changed |
| TimedStore.CasAllOrNothing | app/cache.py:354-363 | a compare-and-set with positive lifetimes does all its writes or none, for overlapping and repeated keys too |
| Cache.Cache.Get | app/cache.py:164-168 | the answer of a plain timed map; only an expired entry of the key is dropped |
| Cache.Cache.GetMany | app/cache.py:192-204 | all answers at one instant; only expired visited entries are dropped |
| Cache.Cache.ExistsAny | app/cache.py:217-226 | true exactly when some key is live; only expired visited entries are dropped |
| Cache.Cache.SetEx | app/cache.py:235-235 | one write, nothing else |
| Cache.Cache.SetExMany | app/cache.py:251-253 | the writes done in order at one instant |
| Cache.Cache.Ttl | app/cache.py:262-271 | whole remaining seconds or nothing; an expired entry is dropped |
| Cache.Cache.TtlIfValues | app/cache.py:301-315 | exactly when both entries match and have a second left, the whole seconds of the sooner one; nothing is dropped |
| Cache.Cache.SetExManyIfUnchanged | app/cache.py:354-363 | verdict and new dictionary of the compare-and-set |
| Cache.StepRefines | app/cache.py:148-271 | one operation on stores with the same live entries gives the same answer and again the same live entries |
| Cache.CacheRefinesTimedMap | app/cache.py:148-271 | for any operations and non-decreasing clock readings every answer equals that of a map that never deletes |
| LuaScript.BuildArguments | app/cache.py:343-349 | where expectations and writes lie in the flat KEYS and ARGV arrays |
| LuaScript.CheckExpected | app/cache.py:325-333 | the script's first loop answers whether everything is unchanged, an absent key expected by `0` included |
| LuaScript.RunScript | app/cache.py:324-342 | from the flat arrays alone: the verdict, and the writes done until the end or the first refused lifetime |
| LuaScript.SetExManyIfUnchanged | app/cache.py:317-353 | the Redis call has the verdict and the store of the in-memory compare-and-set, unless it finds everything unchanged and some lifetime not positive, and only then it fails |
| LuaScript.SetExManyOrFallBack | app/cache.py:317-363 | the whole call: where Redis fails, the verdict and the writes of the in-memory attempt, and what Redis has kept |
| LuaScript.TtlIfValues | app/cache.py:281-299 | exactly when both keys match and have half a second left, the rounded seconds of the one that expires sooner |
| LuaScript.RefusedLifetimeLeavesHalf | app/cache.py:335-353 | a concrete call that reports nothing written and leaves one of its two writes in Redis |
| ProjectKeys.RenderIsInjective | app/metadata.py:150-157 | no two different keys of any projects are the same string |
| Enrichment.InvPreserved | app/metadata.py:640-699 | every step of every job, eviction and the clock keep the protocol's invariant |
| Enrichment.ReadinessIsTruthful | app/metadata.py:164-174 | in every run a positive lifetime is announced only for a body published by a ready commit and still current; it outlasts the sooner of body and marker by at most the rounding's slack, and at all exactly when rounded up |
| Enrichment.DiscoveryIsTruthful | app/metadata.py:155-157 | in every run a discovered marker is the digest of a body that some commit left |
| Enrichment.NoLostUpdate | app/metadata.py:664-699 | in every run each committed enrichment replaced exactly the body it was made from in the copy it was bound to, each converted body was made from its source's latest body, and every copy holds what was last written to it |
| Enrichment.CommitReplacesOnlyWhatItRead | app/metadata.py:666-695 | in every run exactly when a commit lands, and what both copies are then: all or nothing, only over the body it read, and no current body where there was none |
| Readiness.CommitLeavesMarkers | app/metadata.py:682-695 | in every run a landed commit leaves its body's digest as discovered, and if ready as ready, for the longer of the stale and the sampled lifetime; one that is not ready leaves the ready marker alone, and one that does not land leaves everything |
| Readiness.ReadyCommitIsAnnounced | app/metadata.py:164-174 | in every run readers of a body that a ready commit has changed are told the sampled seconds, on either backend |
| Readiness.UndisturbedCommitIsAnnounced | app/metadata.py:640-699 | from every reachable state with a current body that has a second left, the four awaits of a ready commit lead to a body that is announced |
| Readiness.RefreshLeavesMarker | app/metadata.py:177-188 | in every run a 304 sets the ready marker anew exactly when body and marker are those of what it published |
| Readiness.RevalidationIsAnnounced | app/simple_project.py:257-275 | in every run a 304 on a ready body, undisturbed until it refreshes the marker, makes readers be told its lifetime |
| Readiness.UpstreamIsStored | app/simple_project.py:286-385 | a fetched page is in both copies of its formats for their lifetimes, and a 404 is remembered |
| Overwrites.RepublishDiscardsExactly | app/simple_project.py:220-267 | in every run and for every copy a 304 that publishes discards an enrichment made since it read the stale bodies if and only if it publishes there, the last write was an enrichment after that read and still live, and the 304 does not leave that text |
| Overwrites.RestoreDiscardsExactly | app/simple_project.py:225-241 | the same for the stale body of the other format that a converting 304 puts back |
| Overwrites.ConversionDiscardsExactly | app/simple_project.py:112-125 | in every run and for every copy a conversion discards an enrichment if and only if its source is unchanged, the copy is one it writes, and the last write there was an enrichment, still live, of another text |
| Overwrites.CommitDiscardsExactly | app/metadata.py:666-695 | in every run and for every copy a commit discards an enrichment other than the body it read if and only if that is the live enrichment of the stale copy beside the current copy it changes |
| Overwrites.OthersDiscardNothing | app/simple_project.py:105-385 | in every run no step but these, an eviction and a fetched page changes what readers of a copy get, so none discards an enrichment |
| Scenarios.RestoreLosesAnEnrichment | app/simple_project.py:225-241 | a run in which a 304 puts back a stale body over its enrichment |
| Scenarios.CommitLosesAnEnrichment | app/metadata.py:666-695 | a run in which a commit of a former body overwrites an enriched stale copy that it has not read |
| LockedScenario.LockedConversionLosesAnEnrichment | app/simple_project.py:85-125 | a run of one process under the fill lock in which two requests convert one page and the second one publishes over the first one's enrichment |
| Revalidation.LockedRevalidationDiscardsNothing | app/simple_project.py:175-267 | in every run of one process, with commits and 304s under the fill lock, a 304 in flight never discards an enrichment made since it read |
| Revalidation.LockedInvPreserved | app/metadata.py:664-696 | every step of the locked protocol keeps: critical jobs hold their project's lock, and no enrichment comes between a 304's read and its writes |
| Scenarios.RevalidationLosesAnEnrichment | app/simple_project.py:220-267 | a run of two replicas that ends with an enrichment overwritten by the stale body it was made from |
| Lifetimes.CommitMovesExpiryByTheGap | app/metadata.py:665-694 | in every run, for both copies, the new expiry is the sampled one plus the sample-to-commit gap plus what rounding added, which is at most its slack and positive exactly when it rounded up |
| Lifetimes.ConversionMovesExpiryByTheGap | app/simple_project.py:112-125 | in every run the same for both copies that a conversion writes, each from its own source's sample |
| Lifetimes.SamplesPreserved | app/metadata.py:669-678 | every step keeps that each sample in flight or in the history is of what was then the last write to its source |
| Lifetimes.LifetimesAreNotRestarted | app/simple_project.py:112-125 | in every run each current and stale body goes back, sample by sample, to a write that a fetch, a 304 or the configuration gave its lifetime, and expires no later than that one plus all sample-to-commit gaps and one slack for each rounded sample |
| Lifetimes.ChainsAreBounded | app/simple_project.py:112-125 | the same of every write in the history: each link goes on from a real earlier write to its source |
| Lifetimes.CommitUndoesExactly | app/metadata.py:666-695 | in every run a commit outlives a lifetime given to its copy after the sample if and only if that write left the same body, still live and in nobody's way, the commit changes it, and that lifetime ends before the sampled one moved by the gap; without such a write it goes on from the copy's own expiry |
| Lifetimes.ConversionUndoesExactly | app/simple_project.py:112-125 | in every run the same for both copies that a landing conversion writes and their sources, whatever the stale source has become |
| Scenarios.ShorterLifetimeIsUndone | app/metadata.py:666-695 | a run in which a body was revalidated for five seconds and a commit then lets it live for a thousand |
| LockedScenario.LockedConversionUndoesALifetime | app/simple_project.py:85-125 | the same by a conversion in one process under the fill lock |
| Scenarios.RoundingUpRestartsLifetimes | app/cache.py:255-261 | a run in which 10.6 seconds left count as 11 and a commit at the same instant moves the expiry later |
| KeyLocker.KeyLocker.Register | app/singleflight.py:23-25 | the key's lock is shared or new, and its count goes up by one |
| KeyLocker.KeyLocker.Deregister | app/singleflight.py:30-36 | the count goes down, and the key leaves both dictionaries with its last user |
| KeyLocker.InvPreserved | app/singleflight.py:22-36 | every entry, acquisition, cancellation while queued, release and exit keeps locks, counts and holders consistent |
| KeyLocker.LockerIsSafe | app/singleflight.py:16-36 | in every schedule at most one task per key is inside, tasks share a lock exactly when they share a key, counts equal registered tasks, the dictionaries have the keys of registered tasks, and both are empty when nobody is registered |
| KeyLocker.NoTaskIsStranded | app/singleflight.py:22-36 | in every schedule, for each registered task some step that brings its key forward is enabled |
| SingleflightFill.AccountPreserved | app/simple_project.py:172-212 | no step of any request, lock user or writer starts an upstream request beyond the losses, failed fills, refetches and the one in credit |
| SingleflightFill.InvPreserved | app/simple_project.py:57-385 | every step of every request, of other lock users and of other writers keeps the holder and the account |
| SingleflightFill.FetchesNeverOverlap | app/simple_project.py:172-212 | in every schedule no two requests for the project are fetching at once |
| SingleflightFill.FetchesAreAccountedFor | app/simple_project.py:169-385 | in every schedule from any cache upstream requests exceed one only by lost entries, exchanges that filled nothing and 304 refetches |
| SingleflightFill.CacheableFills | app/simple_project.py:217-385 | a 404, a non-empty page, or a 304 with a non-empty stale body to serve leaves a cache that answers every such request, and calls for no second exchange |
| SingleflightFill.StampedeFetchesOnce | app/simple_project.py:172-178 | with nothing current and any stale copies at the start, a cacheable first reply and no losses, any number of requests cost at most one upstream request, and exactly one once somebody is served and nobody else filled in |
| SingleflightFill.AtMostTwoFetchesEach | app/simple_project.py:198-262 | in every schedule from any cache one request starts at most two upstream requests, and at most one before a 304 without a stale body |
| SingleflightFill.WarmRequestFetchesNothing | app/simple_project.py:57-135 | a request that the cache can answer, directly, with the format it also takes, or by conversion, is served without an upstream request |
| SingleflightFill.ColdRequestFetchesOnce | app/simple_project.py:169-335 | a request that finds nothing takes the lock, looks again, fetches once and is served what it stores |
| SingleflightFill.LooksExactly | app/simple_project.py:57-135 | what each look at the cache leads to, and that a conversion is published only over the body it was made from |
| SingleflightFill.ReplyIsCached | app/simple_project.py:217-385 | what each reply leaves in the cache |
| MetadataStore.IdentityIsThePath | app/metadata.py:104-106 | URLs have a path's identity exactly when they add only a query or fragment to it; taking the identity twice changes nothing |
| MetadataStore.InvPreserved | app/metadata.py:191-269 | every write, read, loss, damage and cancellation keeps records honest and behind their content |
| MetadataStore.LoadsAreNeverTorn | app/metadata.py:234-269 | in every interleaving a pair handed out was published for that identity, and with the wheel hash asked for |
| MetadataStore.ContentIsWrittenFirst | app/metadata.py:207-217 | in every interleaving a record in the store points to a body that was written before it |
| MetadataStore.StoreThenLoad | app/metadata.py:191-269 | a store and a later load that nobody disturbs, with any other jobs running, hand out exactly what was stored |
| MetadataStore.LostContentIsMadeGood | app/metadata.py:256-258 | after an undisturbed store with a wheel hash the content entry may be lost at any moment of a load, which still hands out what was stored |
| MetadataStore.ReadsExactly | app/metadata.py:234-269 | what each read of a load comes to: which records are followed, to which entry, and which texts are handed out |
| MetadataStore.WritesExactly | app/metadata.py:191-218 | what a store writes, in which order |
| TaskRegistry.Registry.Schedule | app/metadata.py:719-735 | closed exactly while closing, coalesced exactly with an unfinished job of the key, dropped exactly when the registry is full, queued otherwise, and the registry after it |
| TaskRegistry.Registry.RemoveIfCurrent | app/metadata.py:737-741 | only the job itself is removed |
| TaskRegistry.Registry.SweepDone | app/metadata.py:520-525 | exactly the finished jobs leave |
| TaskRegistry.InvPreserved | app/metadata.py:434-452 | scheduling, finishing, callbacks, shutdown passes and restarts keep the registry's invariant |
| TaskRegistry.RegistryIsSound | app/metadata.py:511-533 | in every run the registry and the unfinished jobs stay within the bound, every unfinished job is the registered one of its key and stays so after any late callback, and after shutdown none is unfinished or can be scheduled |
| TaskRegistry.ScheduledExactly | app/metadata.py:434-452 | in every run a new job is registered and unfinished exactly when the registry is not closing, no unfinished job has its key and there is room; otherwise nothing changes |
| TaskRegistry.FinishedJobsLeave | app/metadata.py:447-452 | in every run a finished job is gone after its callback, and after a shutdown pass exactly the unfinished ones are left |
| Recovery.AttemptsAddUp | app/metadata.py:343-411 | in every run attempts equal successes, failures, native fallbacks, abandoned ones and those in flight |
| Recovery.ExtractedOnce | app/metadata.py:336-396 | in every run an artifact whose callers agree on its wheel hash is extracted successfully at most once more than its record was lost or written by others; with callers that name one hash or none, at most twice, and twice again per loss |
| RecoveryScenario.OneLossCostsTwo | app/metadata.py:319-411 | a run in which callers with and without the hash, one loss and nothing foreign add up to four extractions |
| Recovery.AttemptsNeverOverlap | app/metadata.py:336-342 | in every run no two attempts for one artifact overlap |
| Recovery.ThriftPreserved | app/metadata.py:327-396 | each step keeps the bound on extractions, given that attempts start only after a miss under the lock |
| Recovery.FailureStopsExtraction | app/metadata.py:373-377 | over every run from a state with a failure marker, while it is not forgotten nobody begins to extract that wheel, and callers who all name it cause no extraction |
| Recovery.StepsExactly | app/metadata.py:327-411 | what each step of a job comes to: served, queued, probing, extracting or done; what is stored and which markers are left |
| Recovery.CountsExactly | app/metadata.py:343-411 | which counter each step of a recovery raises |
| Candidates.SortIsStable | app/metadata.py:624-624 | sorting by version alone leaves files of one version in listing order |
| Candidates.EligibleExactly | app/metadata.py:536-543 | eligible are exactly the files named as wheels with a version whose two metadata fields are both missing or false |
| Candidates.ExtractionCandidateIndexes | app/metadata.py:608-625 | collect, sort and cut choose exactly the eligible files with fewer than the limit before them, and as many as the limit and the eligible files allow |
| Candidates.ChosenBeatTheRest | app/metadata.py:608-625 | every chosen file is newer than every eligible one left out, or as new and earlier |
| Candidates.NewestIsUnique | app/metadata.py:608-625 | no other set of as many eligible files has that property |
| Candidates.ExtractInBatches | app/metadata.py:763-787 | whatever the batch size, exactly the candidates are probed, all other files stay, and a change is reported exactly when one was resolved |
| HashFragment.ParseHashes | app/parse.py:30-43 | the loop over the parts, with unknown names skipped and later values over earlier ones |
| HashFragment.CollectedExactly | app/parse.py:36-43 | a value is parsed for a known name exactly when the last part that assigns to the name assigns it |
| HashFragment.PrintableIsSupported | app/parse.py:41-41 | the six known names, and the values without separators |
| HashFragment.FragmentRoundTrip | app/parse.py:184-190 | URL and hashes come back from the printed link exactly when the URL has no fragment, all names are known and no value has a separator |
| Escape.EscIsPerCharacter | app/parse.py:215-216 | four passes over the string equal one substitution per character |
| Escape.EntitiesAreSpelled | app/parse.py:215-216 | the four entities by name; other characters stand for themselves |
| Escape.EscIsSafe | app/parse.py:215-216 | no quote and no angle bracket is left raw |
| Escape.EscIsUndone | app/parse.py:215-216 | unescaping gives back every string |
| SimpleFile.MappingRenders | app/parse.py:21-27 | a mapping comes back from HTML as its preferred hash alone, or as nothing, and stays so |
| SimpleFile.PreferredExactly | app/parse.py:22-25 | the printed hash is exactly the first with a digest in the order sha256, sha384, sha512, blake2b, sha1, md5 |
| SimpleFile.RenderingSettles | app/parse.py:87-101 | a second trip through HTML changes exactly the assignments with an unknown algorithm |
| SimpleFile.CarriedIsExact | app/parse.py:10-27 | which metadata values HTML carries unchanged |
| SimpleFile.HtmlRoundTrip | app/parse.py:184-210 | exactly the convertible files come back from their printed anchor as they were |

## Left out

- HTTP transport, routing, response headers, timing, logging, Prometheus counters and health checks.
- Redis connection state, degrading and reconnecting; Redis and the in-memory dictionary are each one atomic timed map, and a reply lost after its write is not modelled.
- zlib, CRC-32, UTF-8 and cp437 decoding, SHA-256, version parsing: functions given to the model; SHA-256 is injective and inflating undoes what the writer packed.
- The parsing of the wheel's file name and of the dist-info directory name: one given predicate on the member name.
- Header parsing: a reply has its Content-Length and Content-Range as already parsed or as unparsable.
- The JSON, HTML and URL libraries: page bodies are texts, conversions give any text or fail, an anchor is its attributes.
- `model_to_json` and `parse_simple_json` copy fields by name; they would add easy members only.
- `_advertise_metadata` edits documents through libraries that are not modelled; an enrichment's completed body is any text.
- When background jobs start and what they compute: commits may start at any time with any body, completed body and ready flag, which includes what the code does.
- Agreement between validators and stale bodies: a 304 may arrive whenever a stale body exists.
- Semaphores and idle waiting: they only delay steps, and every delay is among the runs.
- `app/accept.py`, `app/ttl.py`, `app/config.py`, `app/artifacts.py`, `app/simple_index.py`, `bench/`, nginx files: small or configuration.
- KeyLocker.KeyLocker.Register: the meta lock is not a field, because nothing awaits while it is held and so registering is one step.
- Lifetimes.LifetimesAreNotRestarted: chains go on from the source as it was sampled, so a re-timing between sample and commit does not shorten them, see `Lifetimes.CommitUndoesExactly`; and they start anew where the code gives a stale copy the configured lifetime: beside a commit to the current copy, and where a 304 puts a stale body back.
- Enrichment.NoLostUpdate: speaks of the copy that a commit is bound to and of a conversion's source; what is overwritten without comparing is in `Overwrites`.
- SingleflightFill.StampedeFetchesOnce: requests with one Accept header; requests with other headers, jobs and replicas appear as other lock users and other writers of non-empty entries.
- MetadataStore.LoadsAreNeverTorn: a record is damaged only into something that cannot be read or that carries a digest of no text; contents and blobs may become any text.
- Recovery.ExtractedOnce: one process; records written by other processes are counted as foreign.
- Candidates.ExtractionCandidateIndexes: a version is its place in the version order, a real number.
- SimpleFile.HtmlRoundTrip: unescaping knows the four entities that the printer writes, and lower case is that of ASCII.
- LuaScript.RunScript: the lifetimes and the count travel as decimal strings, keys and values as they are.
