# Hanstone core models

Dafny models of the ten parts of the Hanstone service whose behaviour finite tests do not settle, with proofs about
them. `dafny verify dfyconfig.toml` checks the whole project. Modules follow the program's files:

| part | modules |
|---|---|
| lesson attachment signatures: compound files ([MS-CFB] sections 2.2 to 2.6) and ZIP packages (APPNOTE.TXT sections 4.3.7, 4.3.12 and 4.3.16) | `SectorChains`, `DirectoryTrees`, `CompoundFiles`, `CompoundStreams`, `CompoundRecords`, `CompoundLayout`, `CompoundPacking`, `CompoundSamples`, `ZipPackages`, `ZipLayout` |
| class packages with revisions, under optimistic concurrency | `ClassHelperInputs`, `ClassHelperStore`, `ClassHelperRuns`, `ClassHelperHistory` |
| content-addressed video backups with pruning | `VideoBackups`, `BackupCommands`, `BackupSafety`, `BackupRuns` |
| the HLS transcode job protocol | `TranscodeJobs`, `TranscodeRuns`, `TranscodeSafety`, `TranscodeLosses` |
| subscription end dates | `Calendars`, `Subscriptions` |
| the in-memory and the Redis rate limiter | `RateLimits`, `RateLimitRuns`, `RateLimitWindows` |
| the EXIF GPS scanner | `ExifGps` |
| the HLS playlist rewriter | `HlsPaths`, `HlsManifests` |
| the static release installer | `ReleaseBundles`, `ReleaseInstaller`, `ReleaseSafety` |
| the account lifecycle | `Accounts`, `AccountRuns` |

`Bytes`, `Texts` and `Wrappers` hold little-endian reads, string splitting and trimming, and the result types.

How the parts are modelled:

- Parsers and scanners are methods with the loops of the program. Each is proved against a predicate that says what
  the accepted files are without saying in which order they are read: a refusal means that no such reading exists.
  Separate lemmas show that the reading is unique and that written files read back.
- Stores (database tables, the backup root, the release root, limiter maps) are classes whose methods make the
  program's writes, each proved to produce the state that a function of the old state gives. The safety theorems are
  about those functions: over all runs of steps, where a run interleaves requests or workers at their awaited calls,
  or stops a command between any two of its file steps.
- A request that reads first and commits later is a read step and a commit step with any steps between. A
  transaction is one atomic step.
- UTF-8 decoding, raw inflation, SHA-256, address signing and link formatting are function parameters; where a
  theorem needs it, the stored objects and the scanned videos do not collide under the hash.

## What the proofs found

- `scan_source` accepts a suffix in any case (deploy/local-video-maintenance.py:91) but `validate_manifest_files` only
  the lower-case one (deploy/local-video-maintenance.py:219). The backup of a directory completes in either case;
  restoring it works if and only if every name has the lower-case suffix, and otherwise every prune is refused as well
  (`BackupRuns.BackupIsOfUse`; `BackupRuns.PruneSucceeds` says exactly when a prune is refused).
  `BackupRuns.UpperCaseSuffixBlocksRestore` is the directory with one `ABC.MP4`.
- Both attempts of a transcode job share a package prefix
  (server/src/content/lesson-hls-transcode-worker.service.ts:105), so a worker can delete the package that another one
  attached. `TranscodeLosses.LossIsExact` gives the exact condition, `TranscodeLosses.AttachDecidesLoss` the same at
  the moment of attaching. Two ways lead there: a worker that outlives its lock
  (`TranscodeSafety.TakeoverLosesPackage`), and, without any late worker, an operator's retry that commits on a job
  that a worker has picked: the request reads the status and the lesson before the transaction that updates the job
  (server/src/content/lesson-video.service.ts:300-330), and in between the delay of the failed job can end
  (`TranscodeLosses.RetryLosesPackage`, with at least two attempts) or another request can reset it
  (`TranscodeLosses.RetriesLosePackage`). Runs with neither are safe (`TranscodeSafety.TimelyRunsKeepPackages`).
- The memory limiter tests the oldest key for truth (server/src/common/rate-limit.store.ts:44), so an empty key is
  never evicted and the map can exceed 10,000 keys. `RateLimitRuns.OverflowIsExact` gives the exact condition for a
  call, `RateLimitRuns.StaysWithinIsExact` for call sequences, and `RateLimitRuns.EmptyKeyOverflowIsReached`
  constructs calls to any number of keys. Beyond the capacity an admitted call can even evict its own key
  (`RateLimitRuns.OwnKeyIsExact`, `RateLimitRuns.OwnKeyLossIsReached`). The keys that the program builds are never
  empty (server/src/common/rate-limit.guard.ts:48, server/src/common/rate-limit.store.ts:116), so for them
  `RateLimitRuns.MemoryIsBounded` holds without exception.
- A rollback of the release links stopped between its two replacements (deploy/install-hosting-release.py:337-338)
  leaves both links at one release, and repeating it is refused (deploy/install-hosting-release.py:328), whereas a
  stopped install can be repeated. `ReleaseSafety.RollsBackAgain` gives the exact condition; installing the bundle
  that was current repairs the root (`ReleaseSafety.InstallRepairsRollback`).
- Unlinking checks the number of links outside the transaction that removes one
  (server/src/auth/auth.service.ts:795-812). Everyone keeps a way to sign in exactly as long as no unlink commits
  after its check has stopped holding (`AccountRuns.SignInIsExact`, `AccountRuns.UnlinkIsExact`);
  `AccountRuns.UnlinksReachStranded` constructs a run with two such requests, and one at a time they are harmless.
- In the model, where a transaction is one atomic step, the already-used refusals of class-package updates and
  restores (server/src/class-helper/class-helper.service.ts:188, 299) cannot happen once the revision check has
  passed: `ClassHelperRuns.UpdateOutcome` and `ClassHelperRuns.RestoreOutcome` list every outcome. This says nothing
  about the deployed isolation level: these transactions set none, unlike
  server/src/organization/organization-access.service.ts:355, and two of them that both passed the check may reach the
  guarded write, where the second is then refused.

## Model

| member | source | states |
|---|---|---|
| SectorChains.FollowChain | server/src/content/lesson-asset-signature.ts:353-373 | terminates on every allocation table; a result is the path from the start to the end-of-chain mark, in range, within the item limit and without repetition; a refusal means that every such path is longer than the limit |
| SectorChains.ChainUnique | server/src/content/lesson-asset-signature.ts:221-242 | an allocation table has at most one terminating path from a given sector |
| SectorChains.ChainsAreExact | server/src/content/lesson-asset-signature.ts:353-373 | a chain link by link: every sector lies in the table and is none of the four special values, each entry names the next sector, and the last one holds the end-of-chain mark |
| SectorChains.ChainNeverRepeats | server/src/content/lesson-asset-signature.ts:353-373 | a terminating path visits no sector twice, so the repetition check never refuses one |
| SectorChains.LeadsNowhere | server/src/content/lesson-asset-signature.ts:226-234 | reaching a sector that cannot stand in a chain, or one already visited, proves that no terminating path exists |
| DirectoryTrees.SiblingVisitor.Visit | server/src/content/lesson-asset-signature.ts:288-300 | on any links, cyclic ones included: success means the ids reachable from the given one form a finite binary tree, each new and visited once, no root or empty slot among them, all names distinct, and the map is extended by the tree in order; failure means there is no such tree |
| DirectoryTrees.TreeUnique | server/src/content/lesson-asset-signature.ts:290-299 | the sibling links unfold to at most one finite tree |
| DirectoryTrees.TreesAreExact | server/src/content/lesson-asset-signature.ts:288-300 | a tree node by node: the slot of each node holds its entry, which is not the root entry, and the entry links lead to the roots of its subtrees or to none |
| DirectoryTrees.EntriesMatchIds | server/src/content/lesson-asset-signature.ts:293-297 | the listed entries correspond one by one to the visited ids, and none is a root or empty entry |
| CompoundFiles.ReadHeader | server/src/content/lesson-asset-signature.ts:166-185 | an accepted header fixes a sector size of 512 or 4096 that divides the file, and announces no more FAT or DIFAT sectors than the file has |
| CompoundFiles.HeaderIsExact | server/src/content/lesson-asset-signature.ts:166-187 | a header is read as given numbers exactly when its bytes are the signature, the byte order mark, version 3 with 512-byte or version 4 with 4096-byte sectors, 64-byte mini sectors, the 4096-byte cutoff and those numbers, and the file is made of such sectors, no fewer than it announces |
| CompoundFiles.ReadDifat | server/src/content/lesson-asset-signature.ts:192-213 | the DIFAT is read exactly when a chain of exactly the announced length of in-range, distinct DIFAT sectors ends with the end-of-chain mark, and then lists the header slots followed by those sectors |
| CompoundFiles.DifatPathForced | server/src/content/lesson-asset-signature.ts:199-210 | any DIFAT chain agrees with the one walked so far: the links leave no choice |
| CompoundFiles.ReadFat | server/src/content/lesson-asset-signature.ts:215-220 | the FAT is the words of the listed sectors in DIFAT order, and exists exactly when all of them lie in the file |
| CompoundFiles.ReadRegularChain | server/src/content/lesson-asset-signature.ts:243-253 | a chain read through the FAT gives the bytes of exactly its sectors in order; a refusal means no chain within the limit lies in the file |
| CompoundFiles.ReadDirectory | server/src/content/lesson-asset-signature.ts:255-287 | the directory is read exactly when every slot is empty or well formed and exactly one is the root |
| CompoundFiles.SlotIsExact | server/src/content/lesson-asset-signature.ts:258-281 | a slot is empty exactly when its type byte is 0, and is read as an entry exactly when its bytes are a storage, stream or root with that name of 1 to 31 code units, those links and start, and a size below 2^32 |
| CompoundFiles.TwoRoots | server/src/content/lesson-asset-signature.ts:282-285 | two root slots leave no readable directory |
| CompoundFiles.Parse | server/src/content/lesson-asset-signature.ts:164-317 | parsing succeeds exactly on the buffers that describe a compound file: header, DIFAT, FAT, directory, sibling tree, mini FAT of the announced length and mini stream; the result is that file |
| CompoundFiles.DescribesUnique | server/src/content/lesson-asset-signature.ts:164-317 | a buffer describes at most one compound file, with one set of chains and one tree |
| CompoundStreams.ReadStream | server/src/content/lesson-asset-signature.ts:324-351 | for a non-empty stream in either store the result exists exactly when the chain has ceil(size / unit) units that lie in the store, and is then the first size bytes of those units in order; empty streams give nothing to read, other kinds of entries are refused |
| CompoundStreams.WrittenIsGathered | server/src/content/lesson-asset-signature.ts:331-338 | data written piece by piece into distinct units is what concatenating those units gives back |
| CompoundStreams.LinkedIsChain | server/src/content/lesson-asset-signature.ts:353-373 | linking distinct units makes exactly the chain that lists them |
| CompoundStreams.LaidStreamReadsBack | server/src/content/lesson-asset-signature.ts:331-338 | for every file, every data and every choice of distinct units the laid-out stream is held by exactly those units and its bytes are the data, in the mini stream below 4096 bytes and in the sectors from there on |
| CompoundStreams.LayAndRead | server/src/content/lesson-asset-signature.ts:324-351 | stream round trip: laying data out and reading the stream by its name gives the data, for any entry of its size that starts at its first unit |
| CompoundLayout.FilledIsGathered | server/src/content/lesson-asset-signature.ts:331-338 | of any number of data written into units of their own, each is gathered from its own units |
| CompoundLayout.AllLinked | server/src/content/lesson-asset-signature.ts:353-373 | and one table links the units of each into its chain: for all data in units of their own an allocation table exists |
| CompoundRecords.HeaderReadsBack | server/src/content/lesson-asset-signature.ts:166-185 | a written header, of either version, reads back with all its numbers and its 109 DIFAT slots |
| CompoundRecords.DifatReadsBack | server/src/content/lesson-asset-signature.ts:199-213 | the written DIFAT sectors are one chain and hold exactly the FAT sector numbers that the header has no room for |
| CompoundRecords.DirectoryReadsBack | server/src/content/lesson-asset-signature.ts:255-287 | a written directory of any slots, exactly one of them a root, reads back slot by slot |
| CompoundLayout.LaidIsDescribed | server/src/content/lesson-asset-signature.ts:164-317 | whatever the writer decides (either sector size, any tables, any number of DIFAT sectors, any sibling tree, any placement without a shared sector), a buffer in which the parts lie describes exactly the planned file |
| CompoundLayout.WriteAndParse | server/src/content/lesson-asset-signature.ts:164-317 | file round trip: parsing accepts every written file and gives back its tables, mini stream and entries |
| CompoundLayout.WriteAndRead | server/src/content/lesson-asset-signature.ts:324-351 | contents round trip: every short and every long stream of every written file is found by its name and gives its data back |
| CompoundPacking.PackIsValid | server/src/content/lesson-asset-signature.ts:164-317 | such files exist for any streams with valid, distinct names, short and long ones in any number, in either sector size and with as many DIFAT sectors as the FAT needs, as long as sector numbers and sizes fit the format: a valid plan in consecutive sectors is constructed |
| CompoundPacking.PackAndRead | server/src/content/lesson-asset-signature.ts:324-351 | and each of those streams, short or long, comes back from the file written by that plan |
| CompoundSamples.SampleIsValid | server/src/content/lesson-asset-signature.test.ts:73-132 | the files that the unit tests build are such files: up to three streams of at most 64 bytes and storages in a right-leaning tree |
| CompoundSamples.WriteSample | server/src/content/lesson-asset-signature.test.ts:167-178 | each of their streams reads back |
| ZipPackages.SafePathStaysInside | server/src/content/lesson-asset-signature.ts:38-41 | a list of parts without a parent segment resolves below any directory |
| ZipPackages.EntriesStayInside | server/src/content/lesson-asset-signature.ts:38-41 | for every entry of every package: the name is not empty, does not start with a slash, holds no backslash, null character or parent segment, is no other entry's, and resolves below any directory it is extracted into |
| ZipPackages.EndIsPlain | server/src/content/lesson-asset-signature.ts:65-81 | the end record of every package is the last one, names one disk, announces as many entries as there are, 1 to 2048 of at most 100 MiB in all, and a central directory before it |
| ZipPackages.EntriesAreRecorded | server/src/content/lesson-asset-signature.ts:83-115 | the announced range of every package is filled, end to end, by the records of its entries, each unencrypted, stored or deflated and with the fields of the entry |
| ZipPackages.RecordIsExact | server/src/content/lesson-asset-signature.ts:85-106 | a central record is read exactly when its bytes are one of such an entry |
| ZipPackages.FindEndRecord | server/src/content/lesson-asset-signature.ts:52-63 | finds the last self-consistent end record among all positions a comment can leave, or proves there is none |
| ZipPackages.EndFields | server/src/content/lesson-asset-signature.ts:65-81 | an accepted end record announces 1 to 2048 entries in a range that ends at or before it |
| ZipPackages.ReadListing | server/src/content/lesson-asset-signature.ts:83-115 | for any record reader: the entries are read exactly when the announced number of records tiles the announced range, with distinct names that are relative and free of parent segments, backslashes and null characters, and at most 100 MiB in all |
| ZipPackages.ListingUnique | server/src/content/lesson-asset-signature.ts:83-115 | a range holds at most one such listing |
| ZipPackages.Parse | server/src/content/lesson-asset-signature.ts:49-117 | parsing succeeds exactly on the buffers that hold a package, and returns its entries, no name of which is absolute, climbs, or holds a backslash or null character |
| ZipPackages.PackageUnique | server/src/content/lesson-asset-signature.ts:49-117 | a buffer holds at most one package |
| ZipPackages.FindListed | server/src/content/lesson-asset-signature.ts:112-125 | every entry of a package is found under its own name |
| ZipPackages.TextIsExact | server/src/content/lesson-asset-signature.ts:123-149 | an entry reads as a text exactly when it is of at most 2 MiB, its local part repeats flags, method and name, and the stored bytes, unpacked unless the method is 0, have the announced length and decode to the text |
| ZipPackages.MissingReadsNothing | server/src/content/lesson-asset-signature.ts:123-125 | a name that no entry has reads as nothing |
| ZipLayout.ArchiveParses | server/src/content/lesson-asset-signature.ts:49-117 | archive round trip: whatever the writer puts into the free header fields, an archive without a comment of 1 to 2048 members of at most 100 MiB in all, whose names are distinct, not empty, relative and free of parent segments, backslashes and null characters, is a package with exactly one entry per member, in order |
| ZipLayout.MemberReadsBack | server/src/content/lesson-asset-signature.ts:123-149 | contents round trip: every stored or deflated member of at most 2 MiB of a written archive reads back as its own text |
| ZipLayout.EndReadsBack | server/src/content/lesson-asset-signature.ts:52-81 | the end record at the end of a written archive is the one found, and announces what was written |
| ZipLayout.PlainWriterConforms | server/src/content/lesson-asset-signature.ts:86-107 | the writers the two round trips range over are not empty |
| ClassHelperInputs.CreateInputIsExact | server/src/class-helper/class-helper.service.ts:440-472 | a create body is accepted as an input if and only if it is an object with only the known properties, its twelve texts are those of the input and valid when trimmed, its assets are six different ids, one per kind, those of the input, and its publication flag, if present, is the one of the input |
| ClassHelperInputs.UpdateInputIsExact | server/src/class-helper/class-helper.service.ts:490-523 | an update body is accepted as a set of changes if and only if it is a non-empty object with only the known properties except the publication flag, each text it gives is that change and valid when trimmed, and its assets, if present, are at least one replacement with different ids, those of the changes |
| ClassHelperInputs.UpdatesChangeSomething | server/src/class-helper/class-helper.service.ts:490-523 | an accepted update holds at least one change |
| ClassHelperInputs.TextsAreExact | server/src/class-helper/class-helper.service.ts:440-472 | a text is accepted for a field exactly when it is not empty, has no outer space, is within the field's length, and is a slug, one of the six categories or one of the four grades where the field asks for one |
| ClassHelperInputs.RestoreHelperInput | server/src/class-helper/class-helper.service.ts:608-641 | collects the asset ids one by one and refuses exactly what the specification refuses: a non-object, a missing asset list, an unknown kind, a kind listed twice or an invalid create body |
| ClassHelperInputs.RestoreIsExact | server/src/class-helper/class-helper.service.ts:608-641 | a snapshot restores to an input if and only if its assets are objects of known kinds, none listed again unless its id was empty, the last ids of the six kinds are the input's and different, its texts are the input's, and the input is unpublished |
| ClassHelperInputs.SnapshotHoldsRow | server/src/class-helper/class-helper.service.ts:527-553 | a snapshot holds exactly the twelve texts, the status by its name, the publication time and the assets |
| ClassHelperInputs.SnapshotHoldsAssets | server/src/class-helper/class-helper.service.ts:540-551 | in order, each with its id, kind, file and status |
| ClassHelperInputs.SnapshotRestores | server/src/class-helper/class-helper.service.ts:527-553 | snapshot round trip: restoring the snapshot of a package that passed the input checks gives back its texts and asset ids, unpublished |
| ClassHelperInputs.TextChangesAreExact | server/src/class-helper/class-helper.service.ts:568-588 | the reported changed fields between two snapshots are exactly the texts that differ |
| ClassHelperInputs.AssetChangesAreExact | server/src/class-helper/class-helper.service.ts:576-598 | the reported replaced assets are exactly the kinds whose asset id differs |
| ClassHelperStore.LinkageUnique | server/src/class-helper/class-helper.service.ts:181-189 | a package has at most one linked asset per kind |
| ClassHelperStore.Database.SwapAssets | server/src/class-helper/class-helper.service.ts:181-189 | the swaps of a commit run one entry at a time, and the first refusal drops all of them |
| ClassHelperStore.Database.Update | server/src/class-helper/class-helper.service.ts:109-204 | an update from its transaction on: refused without any write, or committed as one change of row, history and links |
| ClassHelperStore.Database.Restore | server/src/class-helper/class-helper.service.ts:229-313 | a restore request: a missing or unreadable revision, bad links, expired assets and a lost race leave everything as it was; otherwise one change of row, history and links |
| ClassHelperStore.Database.Create | server/src/class-helper/class-helper.service.ts:56-107 | a create request, with the checks and the linking as loops of its own: either refused without a write, with the refusal that `CreateOutcome` describes, or committed as the state that `CreateOutcome` describes |
| ClassHelperStore.Database.ChangeStatus | server/src/class-helper/class-helper.service.ts:373-391 | publishing and archiving store exactly the requested status, with the time when it is published, and change nothing else; nothing happens when the request read that status, and a missing package is refused |
| ClassHelperRuns.UnchangedSinceRead | server/src/class-helper/class-helper.service.ts:109-111 | if the revision a request read is still current, the texts and linked assets are still what it read |
| ClassHelperRuns.SwapsKeepSlots | server/src/class-helper/class-helper.service.ts:181-189 | whatever a request has read and lists, its swaps never leave a package two linked assets of one kind |
| ClassHelperRuns.SwapsSucceed | server/src/class-helper/class-helper.service.ts:181-189 | available replacements of the right kinds always swap in, and move exactly the replaced and replacing assets |
| ClassHelperRuns.UpdateOutcome | server/src/class-helper/class-helper.service.ts:140-202 | an update fails with the first of: assets not ready, kind mismatch, edit conflict; taken as one atomic transaction it otherwise always commits, with the merged texts, the old version in history, exactly the listed assets linked and exactly those seen in their slots detached |
| ClassHelperRuns.RestoreOutcome | server/src/class-helper/class-helper.service.ts:250-312 | a restore fails with the first of: asset expired, edit conflict; taken as one atomic transaction it otherwise always commits, with exactly the restored texts and assets, those swapped out detached |
| ClassHelperRuns.CommitSucceeds | server/src/class-helper/class-helper.service.ts:155-189 | the guarded write, the history row and the swaps succeed together on an up-to-date row |
| ClassHelperRuns.SnapshotVersion | server/src/class-helper/class-helper.service.ts:527-553 | a stored snapshot determines the version it was taken of |
| ClassHelperRuns.VersionRestores | server/src/class-helper/class-helper.service.ts:608-641 | such a snapshot restores to exactly that version and shows exactly that version |
| ClassHelperHistory.CreateOutcome | server/src/class-helper/class-helper.service.ts:56-105 | a create fails with the first of: assets not ready or not of six kinds, kind mismatch; otherwise it always commits a package at revision 1 with exactly the requested assets linked, all of them the user's, and no other package or link changes |
| ClassHelperHistory.AssetRowsAreExact | server/src/content/lesson-video-cleanup-worker.service.ts:308-327 | uploads, scans and the cleanup write one asset row each, and only unlinked assets are removed |
| ClassHelperHistory.StepKeepsInv | server/src/class-helper/class-helper.service.ts:109-204 | every step of every request, upload, scan and cleanup keeps the invariant |
| ClassHelperHistory.RunKeepsInv | server/src/class-helper/class-helper.service.ts:229-313 | in every interleaving every state satisfies the invariant |
| ClassHelperHistory.OneAssetPerKind | server/src/class-helper/class-helper.service.ts:140-202 | in every interleaving each package has exactly one linked asset of each kind |
| ClassHelperHistory.RevisionIdentifiesVersion | server/src/class-helper/class-helper.service.ts:155-174 | in every interleaving two states with the same revision of a package have the same texts and linked assets |
| ClassHelperHistory.RevisionsOnlyGrow | server/src/class-helper/class-helper.service.ts:155-172 | packages are never lost and revisions never go back |
| ClassHelperHistory.LogOnlyGrows | server/src/class-helper/class-helper.service.ts:175-180 | no version that ever existed is rewritten |
| ClassHelperHistory.HistoryIsComplete | server/src/class-helper/class-helper.service.ts:175-180 | the history of a package at revision n holds exactly the revisions 1 to n - 1 |
| ClassHelperHistory.HistoryIsFaithful | server/src/class-helper/class-helper.service.ts:286-291 | the history row of an earlier revision restores to the texts and linked assets the package had at that revision |
| ClassHelperHistory.ReadsStayTrue | server/src/class-helper/class-helper.service.ts:364-371 | what a pending request read is still true whenever the revision is unchanged |
| ClassHelperHistory.RestoreReproduces | server/src/class-helper/class-helper.service.ts:229-313 | a restore step that changes anything reproduces the version of the restored revision and leaves the status alone |
| ClassHelperHistory.ReplacedAreAvailable | server/src/class-helper/class-helper.service.ts:254-265 | right after a revision the assets it replaced are free, ready and of the right kinds |
| ClassHelperHistory.RestoreUndoes | server/src/class-helper/class-helper.service.ts:229-313 | restoring the replaced revision right after a change succeeds and gives back the old texts and assets |
| ClassHelperHistory.EarlierRestores | server/src/class-helper/class-helper.service.ts:229-313 | undo at any later time and for any earlier revision of any run: a restore that sees the package as it is commits if and only if the assets it swaps in are available and of their kinds, and then gives back the texts and assets of that revision |
| ClassHelperHistory.NextReadsAsNext | server/src/class-helper/class-helper.service.ts:214-217 | in the revision list the snapshot compared with revision r is the one of revision r + 1, from history or from the current row |
| ClassHelperHistory.ListedInReachable | server/src/class-helper/class-helper.service.ts:206-227 | the same in every reachable state, for every revision older than the row that was read |
| ClassHelperHistory.ListedTextsAreExact | server/src/class-helper/class-helper.service.ts:568-588 | each listed revision reports exactly the texts that changed to the next version |
| ClassHelperHistory.ListedAssetsAreExact | server/src/class-helper/class-helper.service.ts:568-588 | each listed revision reports exactly the kinds whose asset changed to the next version |
| VideoBackups.ValidateManifestFiles | deploy/local-video-maintenance.py:210-230 | accepts exactly the manifests whose entries are named by a lesson id and `.mp4`, have a positive size and 64 lower-case hexadecimal digits, with distinct names, and the accepted files write back to the same manifest |
| VideoBackups.ScanSource | deploy/local-video-maintenance.py:87-113 | scans the listing in order, counting refused videos |
| VideoBackups.ScanCountsEach | deploy/local-video-maintenance.py:87-113 | each video of a directory is either listed or counted as invalid, once |
| VideoBackups.ScanIsExact | deploy/local-video-maintenance.py:87-113 | exactly the videos with a lesson id, an allowed size and the mark `ftyp` in their first 64 bytes are listed, each with its size and hash; there is no refused one exactly when every file with the suffix in any case is such a video, and then all of them are listed |
| BackupCommands.BackupRoot.CopyObject | deploy/local-video-maintenance.py:171-192 | copies one object unless it is there, and reports exactly which: a mismatch of size or hash, an unreadable source, or a stop before the replace changes nothing |
| BackupCommands.BackupRoot.Backup | deploy/local-video-maintenance.py:273-305 | a backup with a refused video or a critical disk is refused without a step, and one stopped after any number of file steps has done exactly that prefix of its plan: objects, dated manifest, latest manifest |
| BackupCommands.BackupRoot.CheckObjects | deploy/local-video-maintenance.py:233-240 | reports the first listed object that is missing or differs |
| BackupCommands.BackupRoot.VerifyManifest | deploy/local-video-maintenance.py:308-317 | verification succeeds exactly when the manifest is there and valid and each listed object is stored with its size and hash |
| BackupCommands.BackupRoot.Restore | deploy/local-video-maintenance.py:320-349 | a dry run or an unconfirmed restore changes nothing; the first succeeds, and the second asks for the confirmation, exactly when the manifest is there and valid and each listed object is stored with its size and hash; a stopped restore has replaced a prefix of the files |
| BackupCommands.BackupRoot.Prune | deploy/local-video-maintenance.py:352-405 | a dry or unconfirmed prune removes nothing, and one stopped after any number of removals has done exactly that prefix of its plan: expired manifests, then unreferenced objects |
| BackupSafety.OpKeepsBacked | deploy/local-video-maintenance.py:171-192 | each safe file step keeps every present manifest, the latest one included, backed by objects of the right size and hash |
| BackupSafety.PrefixKeepsBacked | deploy/local-video-maintenance.py:286-299 | so does every prefix of a plan of safe steps |
| BackupSafety.CopiesAreSafe | deploy/local-video-maintenance.py:286-294 | the copy loop only adds missing objects under their own hashes, and without an error every listed file is stored |
| BackupSafety.BackupIsSafe | deploy/local-video-maintenance.py:273-305 | every step of a backup is safe, whatever the scan, disk and clock |
| BackupSafety.SortIsExact | deploy/local-video-maintenance.py:361-377 | the manifests sorted out are exactly the older ones, and the kept digests exactly those that a retained manifest lists |
| BackupSafety.SortSucceeds | deploy/local-video-maintenance.py:364-377 | sorting succeeds exactly when every manifest is well formed and none is more than five minutes in the future |
| BackupSafety.ManifestsGo | deploy/local-video-maintenance.py:392-394 | what is left when a prune is stopped among its manifests: everything but the first k of them |
| BackupSafety.RemovalState | deploy/local-video-maintenance.py:395-397 | what is left when a prune is stopped among its objects: no expired manifest, and everything else but the first k objects |
| BackupSafety.RemovalsAreSafe | deploy/local-video-maintenance.py:392-397 | removing manifests before the objects only they list is safe at every step |
| BackupSafety.PlanIsExact | deploy/local-video-maintenance.py:356-388 | the dry-run plan lists exactly the manifests older than the retention time and the objects that neither a retained manifest nor the latest one lists |
| BackupSafety.PruneIsSafe | deploy/local-video-maintenance.py:352-405 | every step of a prune is safe |
| BackupSafety.PruneIsExact | deploy/local-video-maintenance.py:352-405 | a completed prune leaves exactly the objects that the retained manifests or the latest one list, exactly the retained manifests, and nothing else changed |
| BackupRuns.CommandKeepsBacked | deploy/local-video-maintenance.py:286-299 | a backup, prune or restore stopped anywhere keeps every manifest backed |
| BackupRuns.RunKeepsBacked | deploy/local-video-maintenance.py:356-397 | so does every run of commands, each stopped anywhere |
| BackupRuns.RunKeepsManifest | deploy/local-video-maintenance.py:361-377 | a manifest stays as written in every run whose backups use other times and whose prunes retain it |
| BackupRuns.RestoresEach | deploy/local-video-maintenance.py:332-347 | verified files restore without error, one step per file |
| BackupRuns.RestoreStopped | deploy/local-video-maintenance.py:332-347 | a restore stopped after k files has replaced exactly the first k |
| BackupRuns.OverlayIsExact | deploy/local-video-maintenance.py:332-344 | each listed name holds its object, and every other name is as before |
| BackupRuns.RestoreSucceeds | deploy/local-video-maintenance.py:320-349 | on a backed store a restore fails exactly when the manifest does not validate; otherwise every listed name gets the bytes of its object and unlisted names are left alone |
| BackupRuns.RestoreGivesBack | deploy/local-video-maintenance.py:273-349 | end to end: a completed restore of a completed backup that later commands retained puts back the exact bytes of every video at scan time and leaves all other names alone, provided that no stored object differs from a scanned video with the same hash |
| BackupRuns.LatestGivesBack | deploy/local-video-maintenance.py:273-349 | the same for `latest.json`, which a restore without a manifest name takes, as long as no later backup has replaced it, whatever the prunes retain |
| BackupRuns.OwnManifestIsValid | deploy/local-video-maintenance.py:87-113 | a manifest of its own scan validates later if and only if every listed name has the lower-case suffix |
| BackupRuns.BackupIsOfUse | deploy/local-video-maintenance.py:87-93 | over any backed store and for any directory without a refused video: the backup completes; restoring it, by its time or as the latest, succeeds if and only if every name ends in lower-case `.mp4`; if one does not, every prune is refused |
| BackupRuns.UpperCaseSuffixBlocksRestore | deploy/local-video-maintenance.py:91-93 | the input: over any backed store the backup of a directory that holds just `ABC.MP4` completes, and afterwards both restores and every prune are refused |
| BackupRuns.PruneSucceeds | deploy/local-video-maintenance.py:352-377 | the scan of a prune succeeds if and only if the retention is allowed, the latest manifest is there and valid with all its objects, and every dated manifest is valid and not from the future |
| BackupRuns.PruneReports | deploy/local-video-maintenance.py:352-405 | without `apply` or the confirmation a prune takes no step, and reports success or asks for the confirmation exactly when its scan succeeds |
| BackupRuns.FreshBackupCompletes | deploy/local-video-maintenance.py:273-299 | a backup of an unchanged directory with enough disk and no refused video over a backed store always completes, provided that no stored object and scanned video differ under one hash |
| TranscodeJobs.Worker.TryClaim | server/src/content/lesson-hls-transcode-worker.service.ts:83-93 | the claim takes the job exactly when its status and attempts are as picked: locked now, with one more attempt, and no other job changes |
| TranscodeJobs.Worker.AttachPackage | server/src/content/lesson-hls-transcode-worker.service.ts:117-187 | one transaction: exactly while the lesson still plays the source, the package replaces it, the source is queued for deletion and the job is ready; otherwise the job is superseded and nothing else changes |
| TranscodeJobs.Worker.ProcessNext | server/src/content/lesson-hls-transcode-worker.service.ts:68-228 | one run that no other worker interferes with, in each outcome and whatever the lesson is changed to meanwhile: job, lesson, deletion queue and stored packages afterwards, a failed job due again after 5, 30 or 120 minutes by its attempt or at once after the last, and no other job touched |
| TranscodeRuns.EachAttemptClaimedOnce | server/src/content/lesson-hls-transcode-worker.service.ts:83-93 | in every interleaving of any number of workers, crashes and takeovers: no attempt of a job is claimed twice, and none is beyond the maximum; an operator retry starts a new count |
| TranscodeRuns.StepKeepsClaims | server/src/content/lesson-hls-transcode-worker.service.ts:68-93 | every step keeps that |
| TranscodeRuns.PicksExactlyDueJobs | server/src/content/lesson-hls-transcode-worker.service.ts:70-82 | a worker may pick exactly the jobs below the maximum that are pending or failed and due, or whose lock is older than the timeout |
| TranscodeRuns.ThrowsAreExact | server/src/content/lesson-hls-transcode-worker.service.ts:104-206 | a worker can fail exactly while its package may be stored, and a failure takes away nothing but that package, if it was uploaded |
| TranscodeRuns.FailureIsExact | server/src/content/lesson-hls-transcode-worker.service.ts:199-222 | a failed attempt leaves the job failed and unlocked, due again after 5, 30 or 120 minutes by its attempt, or at once after the last, and no other job changes |
| TranscodeRuns.RetriesAreExact | server/src/content/lesson-video.service.ts:299-338 | a retry request goes on exactly from a failed job, and then exactly when the lesson is at the job source, each as read; it then resets the job |
| TranscodeRuns.RowWritesAreExact | server/src/content/lesson-video.service.ts:326-338 | a superseded job is unlocked and otherwise as before; a retried one starts afresh whatever it was |
| TranscodeRuns.CheckIsExact | server/src/content/lesson-hls-transcode-worker.service.ts:95-102 | a worker goes on exactly while the lesson still plays the source it picked |
| TranscodeSafety.PlayedPackagesAreStored | server/src/content/lesson-hls-transcode-worker.service.ts:188-199 | in every run without overlapping claims the package that a lesson plays is stored: no worker deletes it |
| TranscodeSafety.QueuedSourcesAreUnplayed | server/src/content/lesson-hls-transcode-worker.service.ts:150-170 | in every run, overlapping claims included: no queued source is played, and a source is queued only in the step that stops its lesson playing it |
| TranscodeSafety.TimelyRunsAreExclusive | server/src/content/lesson-hls-transcode-worker.service.ts:70-82 | when every worker ends or dies within the lock timeout and no operator's retry commits on a picked job, claims never overlap |
| TranscodeSafety.ClaimFindsFree | server/src/content/lesson-hls-transcode-worker.service.ts:83-93 | a claim that succeeds in such a run finds no other worker on the job |
| TranscodeSafety.TimelyRunsKeepPackages | server/src/content/lesson-hls-transcode-worker.service.ts:68-228 | such runs never lose a played package |
| TranscodeSafety.TakeoverLosesPackage | server/src/content/lesson-hls-transcode-worker.service.ts:188-199 | a run in which a worker outlives its lock and deletes the package that the lesson plays |
| TranscodeLosses.LossIsExact | server/src/content/lesson-hls-transcode-worker.service.ts:188-206 | from every reachable state in which a lesson plays a package: some continuation loses it while the lesson still plays it if and only if it is gone already or a worker that picked its job has passed the source check and has not ended |
| TranscodeLosses.AttachDecidesLoss | server/src/content/lesson-hls-transcode-worker.service.ts:117-191 | this is settled when the package is attached: it can be lost later if and only if it is gone then or another worker on the job has then passed its source check and has not ended |
| TranscodeLosses.LosingStepIsExact | server/src/content/lesson-hls-transcode-worker.service.ts:188-206 | a step takes a stored, played package away exactly when a worker on its job that is past its upload deletes it, after finding the lesson changed or after an error |
| TranscodeLosses.SurvivesContinuation | server/src/content/lesson-hls-transcode-worker.service.ts:188-206 | a stored, played package that no such worker threatens is stored in every state of every continuation until the lesson plays something else, and from then on the lesson never plays it again |
| TranscodeLosses.RetryLosesPackage | server/src/content/lesson-video.service.ts:300-330 | a run within the lock timeout that loses a played package, for every setting of at least two attempts: an operator's request finds the job failed and the lesson at its source, a worker picks the job again when the delay is over, the request commits, and a second worker picks the job and deletes what the first one attached |
| TranscodeLosses.RetriesLosePackage | server/src/content/lesson-video.service.ts:300-330 | the same for every setting, a single attempt included: two requests find the job failed, and the second one commits after a worker has picked the job that the first one reset |
| Calendars.MonthLength | lecture.js:190-193 | month lengths follow from the Gregorian day count: 30 and 31 days, and 28 or, in years divisible by 4 but not by 100 or divisible by 400, 29 |
| Calendars.MonthOfContains | lecture.js:187-189 | each day lies in exactly one month |
| Calendars.Span | lecture.js:187-191 | n months span 28n to 31n days |
| Subscriptions.LastDayIsClamped | lecture.js:188-192 | the last day lies n months later, at the paid day or the last day of that month |
| Subscriptions.EndIsMidnight | lecture.js:182-196 | the end exists exactly for valid inputs within the date range, and is the KST midnight after the last day |
| Subscriptions.SubscriptionEndIsRight | lecture.js:182-196 | for every paid time from 1970 on: the end is a KST midnight, the last included day is the clamped one, and 28n days < end - paid <= 31n + 1 days |
| Subscriptions.SubscriptionEndMonotone | lecture.js:182-196 | paying later never ends earlier, and more months always end later |
| Subscriptions.ActiveEndsLast | lecture.js:198-206 | the active subscription is a paid one of the user or of everyone that runs now and ends last, the first of them on a tie, and exists exactly when one runs |
| Subscriptions.LectureApp.CompleteDemoSubscription | lecture.js:757-775 | adds a subscription from now on exactly when the user may subscribe and has no running one; no user ever gets overlapping ones |
| Subscriptions.AddedIsDisjoint | lecture.js:757-775 | a subscription added then overlaps none of the user |
| RateLimits.FixedWindowRateLimiter.Consume | server/src/common/rate-limit.store.ts:20-36 | one call: it is allowed exactly below the limit of the window that is open, or of a new one, with what is left of it, and the whole new map in insertion order |
| RateLimits.FixedWindowRateLimiter.EvictExpired | server/src/common/rate-limit.store.ts:38-46 | drops the expired entries and, while still over the capacity, the oldest one unless its key is empty |
| RateLimits.FindLive | server/src/common/rate-limit.store.ts:38-41 | dropping expired entries finds exactly the live ones afterwards |
| RateLimitRuns.SizeAfterCall | server/src/common/rate-limit.store.ts:20-46 | on any map and with any policy, a call leaves more than 10,000 keys if and only if there are as many before its clean-up and either the call is refused, which skips the clean-up, or the clean-up leaves more than 10,000 live keys behind it |
| RateLimitRuns.OverflowIsExact | server/src/common/rate-limit.store.ts:30-46 | from a map of at most 10,000 keys, with limits and windows of at least one, a call leaves more if and only if a new key meets a full map of live entries whose oldest key is the empty string |
| RateLimitRuns.StaysWithinIsExact | server/src/common/rate-limit.store.ts:20-46 | in every call sequence with limits and windows of at least one, the map stays within 10,000 keys if and only if no call is of that kind |
| RateLimitRuns.EmptyKeyOverflows | server/src/common/rate-limit.store.ts:43-44 | an instance of that case: the map grows to 10,001 keys |
| RateLimitRuns.EmptyKeyOverflowIsReached | server/src/common/rate-limit.store.ts:20-46 | with the empty key there is no bound: for all limits and windows of at least one and every n, n calls from the empty map that leave n keys are constructed |
| RateLimitRuns.MemoryIsBounded | server/src/common/rate-limit.guard.ts:44-48 | in every call sequence without an empty key, with limits and windows of at least one, the map never exceeds 10,000 keys; the guard, the only caller, builds keys that are never empty |
| RateLimitRuns.OwnKeyIsExact | server/src/common/rate-limit.store.ts:20-46 | on any map and with a window of at least one, an admitted call is on record afterwards with its count, unless more than 10,000 live keys remain in the clean-up and its own key is the oldest and not empty |
| RateLimitRuns.OwnKeyLossIsReached | server/src/common/rate-limit.store.ts:20-46 | calls from the empty map that lead there are constructed, for all limits of at least two and windows of which the empty key's is the shortest: the last call is admitted and its key is gone |
| RateLimitRuns.OwnKeyIsKept | server/src/common/rate-limit.store.ts:29-35 | from a map of at most 10,000 keys, with a window of at least one, an admitted call never evicts its own key |
| RateLimitRuns.RedisRateLimitStore.RunScript | server/src/common/rate-limit.store.ts:64-71 | one atomic run of the script on counters that expire |
| RateLimitRuns.RedisRateLimitStore.Consume | server/src/common/rate-limit.store.ts:92-112 | one call of the Redis store: the count in the window that is open, or in a new one, allowed up to the limit; refused beyond 2^53 - 1 or without time left |
| RateLimitRuns.CallsAgree | server/src/common/rate-limit.store.ts:20-112 | one call from related states: equal replies and related states again, the memory count being the smaller of the Redis count and the limit |
| RateLimitRuns.StoresAgree | server/src/common/rate-limit.store.ts:20-112 | for every call sequence both stores give the same last reply, so by its prefixes the same replies throughout |
| RateLimitWindows.AdmissionsAreCounted | server/src/common/rate-limit.store.ts:20-36 | the admissions of a key that is not evicted while live are counted exactly, and its windows do not overlap |
| RateLimitWindows.SpanMeetsTwoWindows | server/src/common/rate-limit.store.ts:22-25 | a span as long as a window meets at most two windows |
| RateLimitWindows.AdmissionsAreLimited | server/src/common/rate-limit.store.ts:20-36 | each window admits at most the limit, and any span of a window length at most twice the limit |
| RateLimitWindows.FewKeysNeverEvict | server/src/common/rate-limit.store.ts:30-46 | with at most 10,000 live keys no key is evicted while live |
| ExifGps.TiffContainsGps | server/src/community/community-image-privacy.ts:5-21 | stays in bounds and answers exactly whether the block has a GPS entry in its first IFD, in the byte order it declares |
| ExifGps.TiffIsExact | server/src/community/community-image-privacy.ts:5-21 | for any laid-out block in either byte order and wherever the IFD lies: true exactly when an entry has tag 0x8825 |
| ExifGps.GpsIsExact | server/src/community/community-image-privacy.ts:5-21 | for any bytes at all: a block has GPS data exactly when, in the byte order that its first two bytes name, the mark 42 follows and an entry of the first IFD inside the block has tag 0x8825 |
| ExifGps.JpegContainsGps | server/src/community/community-image-privacy.ts:23-43 | stays in bounds, terminates, and answers whether the segment walk finds GPS data |
| ExifGps.JpegIsExact | server/src/community/community-image-privacy.ts:23-43 | for any segment list before SOS or EOI: true exactly when an APP1 segment is an Exif block with GPS data |
| ExifGps.JpegIsReached | server/src/community/community-image-privacy.ts:23-43 | for any bytes at all: GPS data is reported exactly when the file starts as a JPEG file and complete segments before the scan data or the end of the image lead to one with an Exif block that points to GPS data |
| ExifGps.PngContainsGps | server/src/community/community-image-privacy.ts:45-59 | the same for the chunk walk |
| ExifGps.PngIsExact | server/src/community/community-image-privacy.ts:45-59 | for any chunk list before IEND: true exactly when an eXIf chunk has GPS data |
| ExifGps.PngIsReached | server/src/community/community-image-privacy.ts:45-59 | for any bytes at all: GPS data is reported exactly when the file starts as a PNG file and complete chunks before the end chunk lead to one with an Exif block that points to GPS data |
| ExifGps.WebpContainsGps | server/src/community/community-image-privacy.ts:61-74 | the same for the RIFF walk |
| ExifGps.WebpIsExact | server/src/community/community-image-privacy.ts:61-74 | for any padded chunk list: true exactly when an EXIF chunk has GPS data |
| ExifGps.WebpIsReached | server/src/community/community-image-privacy.ts:61-74 | for any bytes at all: GPS data is reported exactly when the file starts as a WebP file and complete chunks lead to one with an Exif block that points to GPS data |
| ExifGps.PiecesWalk | server/src/community/community-image-privacy.ts:26-41 | for any container: walking laid-out pieces up to a stop finds exactly whether one of them has GPS data |
| ExifGps.FindsNext | server/src/community/community-image-privacy.ts:26-41 | a walk is determined turn by turn |
| ExifGps.ContainsExifGps | server/src/community/community-image-privacy.ts:76-81 | dispatches on the content type; other types are never flagged |
| HlsPaths.NormalizeIsIdempotent | server/src/content/hls-manifest.service.ts:40 | normalizing a relative path twice is normalizing once |
| HlsPaths.ResolvedIsInside | server/src/content/hls-manifest.service.ts:28-46 | an accepted reference names a safe, normalized key without parent segments under the directory of the master playlist |
| HlsPaths.CanonicalIsFixed | server/src/content/hls-manifest.service.ts:95-97 | such a key is its own normal form |
| HlsPaths.JoinGivesBack | server/src/content/hls-manifest.service.ts:95-97 | joining a directory with the rest of such a key gives the key back |
| HlsPaths.LinkRoundTrip | server/src/content/hls-manifest.service.ts:92-105 | every playlist path that a rewrite emits is accepted by render and names the same key |
| HlsPaths.CleanIsWalk | server/src/content/hls-manifest.service.ts:40 | normalizing is walking: the kept segments are where the path leads, unless it climbs out |
| HlsPaths.ResolveIsExact | server/src/content/hls-manifest.service.ts:28-46 | a reference resolves to a key if and only if, trimmed, it is relative and has no query, fragment, backslash, null character or scheme, it leads from the directory of its playlist to that key and names no directory, and the key is a safe one below the directory of the master playlist |
| HlsPaths.RenderIsExact | server/src/content/hls-manifest.service.ts:92-104 | a playlist request is answered for a key if and only if the master is one of the lesson, the path leads from its directory to the key, or is empty and the key is the master, and the key is a safe playlist key below that directory |
| HlsPaths.KeysAreExact | server/src/content/hls-manifest.service.ts:7 | a key is safe exactly when it is 1 to 1024 letters, digits, dots, underscores, slashes and hyphens, the first a letter or digit, and a playlist exactly when it ends in `.m3u8` in any case |
| HlsManifests.UriFinderIsLeftmost | server/src/content/hls-manifest.service.ts:48-52 | the attribute matches are the leftmost ones, non-empty and without a quote |
| HlsManifests.CutIsLine | server/src/content/hls-manifest.service.ts:56-64 | the pieces between and around the attributes are the line: nothing is lost |
| HlsManifests.CutIsLeftmost | server/src/content/hls-manifest.service.ts:48-64 | the line is cut at exactly the quoted, non-empty URI attributes, each the leftmost after the one before |
| HlsManifests.CutUnique | server/src/content/hls-manifest.service.ts:48-64 | there is one such cut |
| HlsManifests.ReplaceKeepsTexts | server/src/content/hls-manifest.service.ts:48-65 | replacing keeps all text outside the values, rewrites each value, and fails exactly when a value is refused |
| HlsManifests.LinesKeepTheirPlaces | server/src/content/hls-manifest.service.ts:132-143 | every line is rewritten in its place and the number of lines stays |
| HlsManifests.RewrittenReference | server/src/content/hls-manifest.service.ts:118-130 | an accepted reference becomes the signed address of its key, or, for a playlist, a link whose path render accepts for that key |
| HlsManifests.ManifestRewrite.Reference | server/src/content/hls-manifest.service.ts:118-130 | with the per-call cache a reference gives the same address as without |
| HlsManifests.ManifestRewrite.Attributes | server/src/content/hls-manifest.service.ts:48-65 | the loop over the matches replaces exactly the found values |
| HlsManifests.OutputLines | server/src/content/hls-manifest.service.ts:132-143 | when what is put in holds no line feed, the output text splits into exactly the rewritten lines, as many as the playlist had |
| HlsManifests.LineRewriterIsExact | server/src/content/hls-manifest.service.ts:132-142 | in a tag line exactly the attribute values become the links or signed addresses of their keys, any other line that is not blank becomes that of its reference, a blank line stays, and a line is refused exactly when a reference of it does not resolve |
| HlsManifests.LinesAreSplit | server/src/content/hls-manifest.service.ts:132 | the lines are those between line feeds, without one carriage return before each |
| HlsManifests.ManifestRewrite.Rewrite | server/src/content/hls-manifest.service.ts:107-144 | the whole playlist: refused exactly when it does not start with `#EXTM3U`, is longer than 1 MiB, or a reference of some line does not resolve; else each line has become what it has to, in its place, joined by line feeds, which for inline replacements are as many lines as before |
| ReleaseBundles.NamesAreExact | deploy/install-hosting-release.py:54-63 | a name is accepted exactly when it is relative, has no backslash or parent segment, and its last part is, in any case, none of the five secret names and has none of the four secret suffixes |
| ReleaseBundles.ValidateManifest | deploy/install-hosting-release.py:90-145 | accepts exactly the manifests of the expected commit that are well formed: 40 hexadecimal digits, well-formed entries with distinct accepted names and at most 2 GiB in all, the six required pages among them, and the right totals; the index holds exactly the listed entries |
| ReleaseBundles.IndexNames | deploy/install-hosting-release.py:54-63 | the index holds exactly the listed names, all of them relative, without parent segments and not secret files |
| ReleaseBundles.IndexSize | deploy/install-hosting-release.py:110-130 | no name is listed twice, and the total is the sum of the listed sizes, within 2 GiB |
| ReleaseBundles.WebPartMatches | deploy/install-hosting-release.py:263-268 | the web part of a verified bundle is a matching web copy |
| ReleaseInstaller.VerifyWebCopy | deploy/install-hosting-release.py:177-185 | accepts exactly the trees that hold the listed web files, each with its size and hash, and nothing else |
| ReleaseInstaller.VerifyBundle | deploy/install-hosting-release.py:157-174 | checks the manifest, the file set and each file, and returns what the specification returns |
| ReleaseInstaller.VerifiedIsExact | deploy/install-hosting-release.py:157-174 | a bundle is accepted if and only if its manifest is a well-formed one of the expected commit, its files are exactly the listed ones, each with its size and hash, and there are at most 50,000 with the manifest file |
| ReleaseInstaller.VerifiedIsBundle | deploy/install-hosting-release.py:157-174 | a verified bundle holds exactly the listed files, and its manifest validates again when read from the store |
| ReleaseInstaller.TargetRoot.Apply | deploy/install-hosting-release.py:243-310 | an install stopped after any number of file steps is in exactly the state that many steps lead to |
| ReleaseInstaller.TargetRoot.Rollback | deploy/install-hosting-release.py:313-348 | so is a rollback |
| ReleaseSafety.ApplyIsSafe | deploy/install-hosting-release.py:243-310 | in every state on the way of an install, links name stored releases whose files match their stored manifests |
| ReleaseSafety.RollbackIsSafe | deploy/install-hosting-release.py:313-348 | in every state on the way of a rollback as well |
| ReleaseSafety.RunKeepsInv | deploy/install-hosting-release.py:243-348 | in every run of installs and rollbacks, each stopped anywhere |
| ReleaseSafety.LinkedReleasesAreSound | deploy/install-hosting-release.py:157-348 | in every run of the tool from an empty root, where it installs only verified bundles and may stop anywhere: the current and the previous release hold exactly the files, sizes and hashes of their stored manifests |
| ReleaseSafety.ReapplyChangesNothing | deploy/install-hosting-release.py:297-301 | installing the current commit again takes no file step |
| ReleaseSafety.ApplyInstalls | deploy/install-hosting-release.py:243-310 | an install completes if and only if its files and manifest are absent or match and the current link is sound, and then leaves exactly the installed root |
| ReleaseSafety.InstallsAgain | deploy/install-hosting-release.py:243-310 | after a stop at any point of an install that can complete, installing again completes in the same root |
| ReleaseSafety.RollbackUndoes | deploy/install-hosting-release.py:313-348 | a completed rollback followed by the opposite one restores the root exactly |
| ReleaseSafety.RollbackCompletes | deploy/install-hosting-release.py:325-334 | from every root of a run a rollback completes if and only if the two links are the expected ones and differ |
| ReleaseSafety.RollsBackAgain | deploy/install-hosting-release.py:325-338 | a rollback stopped on its way can be repeated if and only if it was stopped before its first step; between its two steps every rollback is refused |
| ReleaseSafety.InstallRepairsRollback | deploy/install-hosting-release.py:243-338 | installing the bundle that was current then brings back the root before the rollback |
| Accounts.AuthService.Authenticate | server/src/auth/auth.service.ts:855-872 | a session signs in exactly when it is stored, not revoked, not over and its user is active |
| Accounts.AuthService.Refresh | server/src/auth/auth.service.ts:874-899 | the old session ends and the new one signs the same user in |
| Accounts.AuthService.RequestPasswordReset | server/src/auth/auth.service.ts:310-366 | issues a usable token for an active account with a password and ends its earlier ones; tokens of other users or purposes stay, and nothing happens otherwise |
| Accounts.AuthService.ConfirmPasswordReset | server/src/auth/auth.service.ts:368-426 | succeeds exactly for a usable token; then only the password of that user changes, none of the user's reset tokens is usable, none of the user's sessions signs in, and sessions of others stay |
| Accounts.AuthService.ConfirmEmailVerification | server/src/auth/auth.service.ts:490-545 | succeeds exactly for a usable token; then the address is verified and none of the user's verification tokens is usable |
| Accounts.AuthService.UnlinkOAuthAccount | server/src/auth/auth.service.ts:789-825 | refuses an unavailable account, a provider that is not linked and the last way to sign in; otherwise removes exactly that link |
| Accounts.AuthService.LinkOAuthIdentity | server/src/auth/auth.service.ts:984-1038 | keeps each identity on one account and each provider once per account; linking the own identity again is no error |
| Accounts.AuthService.ClaimOAuthAttempt | server/src/auth/auth.service.ts:697-715 | claims exactly an attempt of the same provider that is neither consumed nor over, which then cannot be claimed again |
| Accounts.AuthService.AnonymizeAccount | server/src/auth/auth.service.ts:1063-1121 | an active account becomes deleted and keeps no password, address, token, attempt, link or session, and no row of another user changes |
| AccountRuns.SignUpsAreExact | server/src/auth/auth.service.ts:219-245 | a sign-up commits an active account with its password, a session and a live verification token; a first OAuth sign-in commits an active account without a password whose only link is the identity, exactly when the identity is new |
| AccountRuns.SessionsAreExact | server/src/auth/auth.service.ts:874-924 | refreshing and signing out revoke the stored session, refreshing and signing in store a new one until its end, and no other session changes |
| AccountRuns.RowsAreExact | server/src/auth/auth.service.ts:310-366 | a request stores a live token and consumes the live ones of the account and purpose; linking, unlinking, starting an attempt and a new status write their own row only; a deleted account keeps no row |
| AccountRuns.TokensAreUsedOnce | server/src/auth/auth.service.ts:386-414 | in every interleaving of transactions each token is used at most once, and a user has at most one unconsumed token of each purpose |
| AccountRuns.UsedExactlyWhenLive | server/src/auth/auth.service.ts:386-414 | in every interleaving a token is used exactly when it is stored, unconsumed and not over and its user is on record; then exactly the password, or the time of verification, of that user is set |
| AccountRuns.AttemptsAreClaimedOnce | server/src/auth/auth.service.ts:709-715 | in every interleaving each OAuth attempt is claimed at most once |
| AccountRuns.ClaimedExactlyWhenLive | server/src/auth/auth.service.ts:697-715 | an attempt is claimed exactly when it is stored, unclaimed and not over |
| AccountRuns.LinksStayUnique | server/src/auth/auth.service.ts:984-1038 | in every interleaving each identity is linked to one account and each account has at most one link to a provider |
| AccountRuns.ExpiredNeverAuthenticates | server/src/auth/auth.service.ts:863-868 | in every interleaving a session signs in only the user it was issued to, and no one from its end on |
| AccountRuns.OverForGood | server/src/auth/auth.service.ts:863-870 | a session that is revoked or gone never signs in again |
| AccountRuns.ResetEndsSessions | server/src/auth/auth.service.ts:411-414 | a completed reset ends every session its user has then, for good |
| AccountRuns.DeletedNeverAuthenticates | server/src/auth/auth.service.ts:855-872 | a deleted account never signs in again, whatever requests were under way |
| AccountRuns.StepKeepsSignIn | server/src/auth/auth.service.ts:799-812 | a transaction whose unlink check holds when it commits leaves every account a way to sign in |
| AccountRuns.EveryoneCanSignIn | server/src/auth/auth.service.ts:789-825 | when requests run one at a time every account that is not deleted keeps a password or a link |
| AccountRuns.StepIsExact | server/src/auth/auth.service.ts:799-812 | one step of any request ends the guarantee that every account that is not deleted has a password or a link if and only if it removes the only link of such an account without a password |
| AccountRuns.UnlinkIsExact | server/src/auth/auth.service.ts:795-812 | for a link of an account that is not deleted: the unlink keeps the guarantee if and only if its own check still holds when it commits |
| AccountRuns.SignInIsExact | server/src/auth/auth.service.ts:789-825 | in every interleaving the guarantee holds up to a state if and only if no unlink before it was such a step |
| AccountRuns.ConcurrentUnlinksLoseSignIn | server/src/auth/auth.service.ts:795-812 | two unlink requests that both read the two links of an account leave it with neither |
| AccountRuns.UnlinksReachStranded | server/src/auth/auth.service.ts:795-812 | such a run from the empty system is constructed: sign-up, a second provider, two unlinks whose checks both held |

## Left out

- StoresAgree: needs a clock that never goes back and is shared with Redis, one policy per key, at most 10,000 live keys and at most 2^53 - 1 calls; beyond that the memory store evicts live keys and the two differ.
- AdmissionsAreLimited: is about keys that are not evicted while live; an evicted key starts a new window. `FewKeysNeverEvict` says when no key is.
- PlayedPackagesAreStored: assumes that no two workers hold claims of one job, and that replaced videos bring fresh keys; `LossIsExact` says exactly what is lost without the first.
- TimelyRunsAreExclusive: assumes that workers end or die within the lock timeout and that no operator's retry commits on a job that a worker has picked; `TakeoverLosesPackage` and `RetryLosesPackage` show that each is needed.
- EveryoneCanSignIn: is about one request at a time; `SignInIsExact` covers all interleavings.
- SampleIsValid: the test files with at most three entries, as one directory sector holds four; `PackIsValid` has no such limit.
- PackIsValid: one layout and a right-leaning sibling tree without storages; `LaidIsDescribed` covers every layout and every tree.
- BackupIsOfUse: assumes that digests are 64 hexadecimal digits and that no stored object and scanned video differ under one hash.
- ArchiveParses: covers archives without a comment; a comment may itself contain a self-consistent end record, which the reader then takes.
- ResetEndsSessions: a refresh whose check came before the reset may still commit a new session after it; that session did not exist at the reset.
- SubscriptionEndIsRight: paid times from 1970 on; `Date.UTC` treats years 0 to 99 differently.
- Byte buffers are sequences: the parsers and scanners only read them, so update in place and aliasing do not arise.
- Integer widths: file fields are read as unsigned numbers; sums stay below 2^53 in the program, so they are unbounded here.
- Strings: lengths count characters, not UTF-16 code units, and lower-casing covers ASCII; the compound-file names are code units.
- JSON: property names are constructors, numbers in snapshots stand for dates, and the text of a refusal is not modelled.
- `isValidLessonAssetSignature` and the per-format checks on top of the two parsers: branches over `has` and `readText`.
- Class packages: list, public snapshot view, download and the readiness check of publish; the user who changed a row; user deletion; the 100-row limit of the revision list; a row and its assets are read as one step.
- Class-package assets: an upload adds a row, a scan sets its status and cleanup removes a row without a package, at any time; the retention clock is not modelled.
- Backups: temporary files, locks, symbolic links, special files and permissions are outside the object set; a manifest that is not well-formed JSON; one clock reading per command; the disk check is a flag; a restore running during a prune.
- Transcoding: the transcoder and its files, the poll order, `lastError`, audit rows and the other columns of a deletion job; a transaction that reports an error is one that did not commit; attaching a playlist by hand and scanning the same upload twice.
- Subscriptions: paying through the payment provider, rendering and local storage; one clock reading per purchase.
- Rate limiting: connections and errors of Redis, the key prefix and counter overflow; a key expires exactly at its time.
- EXIF: fill bytes and markers without a length in JPEG files are read as the program reads them, which ends or misreads the walk; XMP is not looked at by the program.
- Playlists: absolute paths in `normalize`, which no caller passes; `encodeURIComponent`; expiry of signed addresses; line feeds inside a rewritten value.
- Releases: the staging directory is left out of the states of a command except for the refusal it causes; directory modes, the shape of the target path, temporary links and the process id.
- Accounts: password hashing, mail, roles, guardian data, request validation, the exchange with OAuth providers and the answer texts; earlier reads of a request are over-approximated by letting it commit in any state.
- User interface code, HTTP controllers, deployment wrappers, configuration range checks, consultation and community status tables, the rendition ladder and progress counters: they would only add easy members.
