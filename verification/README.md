# Verified model of the smart-home MCP server

A Dafny model of the parts of the server where order, interruption and
encoding matter, with proofs. `dafny verify dfyconfig.toml` checks all of it.

## What is modelled

**The component deployer** (`src/integrations/home_assistant/deployment.rs`).
`RemoteFiles` is the remote filesystem as an object: every request is one
atomic step; a request may fail before or after it took effect, an upload may
be cut short or arrive damaged, and once the connection is lost nothing works
until the next deployment connects again. A timeout is such a loss. `Trees`,
`Packages`, `Inspection` and `Removal` hold the embedded package, the bounded
tree walk, exact verification and ordered removal. `Layout` places the four
trees of a transaction (active, staging, backup, journal) on the filesystem,
`Recovery` says which combinations are safe and which can be recovered,
`Transaction` has the steps (`stage`, `commit`, `rollback`, `reconcile`),
`Shown` says when the versions they show in `active` go back, and
`Deployment` has one deployment, interrupted ones followed by a restart, and
any number of them. `Witnesses` leads an ordinary server into the corner cases,
and names one server and package on which that happens.

**The lease lock** (`LeaseLock`) is a state machine in which any number of
deployers take their filesystem requests in any order, with faults, arbitrary
clocks, cancellation and crashes. `LeaseHistory` relates each deployer to what
its requests met on the way.

**The SFTP packet bound** (`SftpStream`) and the chunked transfers
(`SftpFiles`).

**Native authoring** (`TextEdits`, `Authoring`): the text edit engine over
UTF-8 bytes (`Utf8`), and the read, check, read again, write protocol against
a server that other clients write to. `Trigger` is its sibling for automation
triggers.

**Resource URIs** (`ItemUri`): percent-encoding of identifiers and the two
parsers of item URIs; `ItemKeys` lists their alphabets and keys.

**Three folds over messages of the home server**: `Routers`, `DeviceGroups`
and `History`.

## What the proofs found

- *The deployer is safe in every run.* `Deployment.Campaign` covers any number
  of deployments of any packages, each failing or crashing at any request. The
  committed package is never lost or partial (`Recovery.Safe`), and its version
  never goes back.
- *The version in `active` can go back, and this is exactly when.* If the second
  rename of an update lands but reports an error, `rollback` takes the new tree
  away again. The old version is shown after the new one if and only if that
  happened and the old tree was restored (`Transaction.Commit`;
  `Transaction.SlippedRename` is the case, and `Witnesses.SlippedUpdate` the
  whole run). A deployment takes its tree back exactly if that rename slipped and
  the tree is not there in the end (`Deployment.RunLocked`). Over any number of
  deployments, the version in `active` never goes back, nor to other contents of
  the same version, if and only if nothing is shown after an update that was
  taken back, and nothing but that tree or a newer one after a first installation
  that was (`Shown.RisesExactly`); the latter is sure if every later package is
  the same or newer (`Shown.InOrderIsHarmless`). From the end of one deployment
  to the end of another it never goes back at all (`Shown.EndsRise`).
- *Recovery is not total, and this is exactly when it fails.* An interrupted
  deployment can be recovered by the next one if and only if the state is not
  `Recovery.Stuck`: a journal cut short, a journal left without staging, an
  install journal beside a retained backup, a backup whose manifest is already
  deleted, or staged data damaged beyond the limits of the walk. The gap
  between removing staging and removing the journal is
  `Recovery.GapIsRefused`, and `Witnesses.GapIsLeft` leaves a server in it. An
  update interrupted between its renames or after them is never stuck
  (`Transaction.BetweenRenames`, `Transaction.PlacedVerdict`). In all these states
  a package that was committed is in active, or its complete successor is
  (`Recovery.StuckKeepsActive`).
- *The build-time check leaves three limits open.* `validate_embedded` does not
  bound the number of entries or the length of one name, and does not exclude a
  path used as file and directory. A validated package can be staged exactly if
  it keeps these limits too (`Transaction.Stage`, `Recovery.DeployableExactly`);
  `Recovery.ValidYetNotDeployable` shows one that cannot.
- *Mutual exclusion can fail, and this is exactly when it holds.* Whatever files
  a run starts with and whatever leases are taken over in it, every change lands
  under its deployer's own lock, and whoever is between creating and releasing
  the lock owns it, at all times of the run, if and only if no eviction takes the
  lock of a deployer that is (`LeaseLock.MutualExclusion`). Taking over the lock
  of a deployer that is gone is harmless. Without such an eviction the changes of
  different deployments do not interleave
  (`LeaseLock.DeploymentsDoNotInterleave`), so that `Deployment.Campaign`, which
  has one deployment after the other, speaks about concurrent deployers too. With
  such an eviction the evicted owner lands at most one more change
  (`LeaseLock.AtMostOneStray`), and `LeaseLock.EvictedOwnerStillWrites` is a run
  in which it does.
- *A takeover takes only what was found stale.* Whatever others do in between, a
  deployer that creates its lock after evicting one evicted exactly the lease
  that it had read and judged stale (`LeaseHistory.TookOnlyWhatWasStale`), and
  nobody else took over the claim it made (`LeaseHistory.ClaimWasHeld`). An
  eviction that hits another lease, as it can, ends there.
- *The lock can become unusable.* Alone, a deployer acquires it exactly if neither
  file is there, or one is and is a stale lease (`LeaseLock.AcquiresExactly`). A
  deployer that crashes between creating its lock and removing the claim leaves
  both files (`LeaseLock.CrashBlocks`); from then on every deployer refuses, and
  no lease ever gets stale enough to change that (`LeaseLock.BlockedForEver`).
- *The stream bound ends with the report of an oversized frame, and with nothing
  else.* I/O errors and an early end of file change nothing. After an oversized
  frame was reported, its length prefix is held back as if it were sound, and a
  caller that polls again gets it (`SftpStream.PollAfterOversized`).
- *A poll may place bytes and still have to wait.* It does exactly if it handed a
  length prefix on; a caller must then keep its buffer.
- *Signed hexadecimal in URIs is harmless twice over.* The library's parser
  takes `%+A`, but all it can spell are control characters, which are refused
  before the canonical check would refuse them too.

## Assumptions

- SHA-256 has no collisions; a journal reads back as written and no proper
  prefix of one is a journal; the journal of the compiled-in version fits its
  512 bytes; versions are totally ordered and stand for real numbers.
- An upload into a private file (lock, claim, journal) is stored exactly or cut
  short. Uploads of package files may be stored as anything.
- A filesystem request that was sent before the lock was released does not land
  after it. Clocks are arbitrary.
- The home server answers reads truthfully and does not carry out a request
  that it answers with a client error. Under any other error it may have stored
  anything in place of the item concerned.
- The transaction directory is made before the lock is taken; everything else a
  deployment changes, it changes by requests that check the owner first.

## Model

| member | source | states |
|---|---|---|
| `RemoteFiles.Remote.WriteExclusive` | src/integrations/home_assistant/deployment.rs:1809-1849 | Exclusive creation fails on an existing path and without a parent; an upload that fails leaves nothing, a part, or all of it, and touches no other path. |
| `RemoteFiles.Remote.Rename` | src/integrations/home_assistant/deployment.rs:1850-1895 | A rename needs its source and an absent target, and moves the whole subtree or nothing, even when its answer is lost. |
| `RemoteFiles.Remote.RemoveDir` | src/integrations/home_assistant/deployment.rs:1920-1938 | Only an empty directory can be removed, and nothing else goes with it. |
| `RemoteFiles.MovedClosed` | src/integrations/home_assistant/deployment.rs:1850-1895 | Renaming keeps every entry's parent a directory. |
| `Trees.SubAfterRename` | src/integrations/home_assistant/deployment.rs:1850-1895 | After a rename the target holds the tree that was at the source and the source holds none. |
| `Packages.ListDirectories` | src/integrations/home_assistant/deployment.rs:1068-1078 | The expected directories are exactly the proper ancestors of the embedded files, in byte order. |
| `Packages.ParentsComeFirst` | src/integrations/home_assistant/deployment.rs:1068-1078 | That order lists every parent before its children, so creating them in order never misses a parent. |
| `Packages.ValidateEmbedded` | src/integrations/home_assistant/deployment.rs:380-408 | Succeeds exactly on packages with unique valid paths, bounded non-empty files, a bounded total and a manifest of this domain and version. |
| `Packages.PathsAreGoodNames` | src/integrations/home_assistant/deployment.rs:410-423 | Package paths are up to four names of listed characters that do not begin with a dot, within 255 characters. |
| `Inspection.Inspect` | src/integrations/home_assistant/deployment.rs:975-1054 | The walk terminates and changes nothing; when it returns a tree, that is exactly everything below the root, within the entry, depth, name, mode and size limits of the policy; on a working filesystem it succeeds exactly on such trees. |
| `Inspection.WalkIsComplete` | src/integrations/home_assistant/deployment.rs:975-1054 | When no directory is pending, what was collected is the whole tree. |
| `Removal.VerifyExact` | src/integrations/home_assistant/deployment.rs:1103-1127 | Comparing counts and then each expected path accepts exactly the listings that equal the embedded files and directories. |
| `Removal.CountingIsExact` | src/integrations/home_assistant/deployment.rs:1103-1127 | Equal counts and every expected file present leave no room for an unexpected one. |
| `Removal.ExactMeansPackage` | src/integrations/home_assistant/deployment.rs:1103-1127 | A listing passes exact verification if and only if the inspected tree is the package's tree. |
| `Removal.DeepestFirst` | src/integrations/home_assistant/deployment.rs:1129-1149 | Lists the directories once each, deeper ones first. |
| `Removal.EmptyByNow` | src/integrations/home_assistant/deployment.rs:1129-1149 | After the files and all deeper directories are gone, the next directory is empty, so no non-empty directory is ever removed. |
| `Removal.RemovePackageTree` | src/integrations/home_assistant/deployment.rs:1129-1149 | Nothing outside the root changes, only parts of the tree go, success means the whole tree is gone; on a working filesystem it succeeds exactly on trees that the policy accepts and otherwise changes nothing. Its refusals have their errors (`Removal.Refusal`). |
| `Removal.ValidateRecognizedVersion` | src/integrations/home_assistant/deployment.rs:1092-1101 | Accepts exactly the trees whose manifest is this domain's and carries an older version. |
| `Recovery.NeverLost` | src/integrations/home_assistant/deployment.rs:737-932 | What a safe state means: the committed tree is active, or complete in the backup while the complete new tree is active or staged under a journal. That every run stays safe is the result of the methods below. |
| `Recovery.RestoreBackup` | src/integrations/home_assistant/deployment.rs:915-920 | In a safe state, the backup that recovery renames to active is the tree that was last committed, never an older retained one. `Transaction.Reconcile` and `Transaction.Rollback` carry this through every interruption. |
| `Recovery.RemoveJournal` | src/integrations/home_assistant/deployment.rs:929-931 | In a safe state, removing the journal commits the old or the complete new tree and never goes back in versions. `Transaction.Reconcile` carries this through every interruption. |
| `Recovery.ResidueVerdict` | src/integrations/home_assistant/deployment.rs:867-932 | Of the states that an interrupted deployment leaves, exactly those that are not stuck can be reconciled. |
| `Recovery.GapIsRefused` | src/integrations/home_assistant/deployment.rs:855-860 | A crash after staging was removed and before the journal is removed leaves the committed package active, but every later reconcile refuses. |
| `Recovery.StuckKeepsActive` | src/integrations/home_assistant/deployment.rs:867-932 | A server that only an operator can recover still has the committed tree or its complete successor in active. |
| `Recovery.DeployableExactly` | src/integrations/home_assistant/deployment.rs:380-423 | A validated package fits the inspection of its own staged copy exactly if it is within the entry and name limits and uses no path twice: these the validation leaves open. |
| `Recovery.ValidYetNotDeployable` | src/integrations/home_assistant/deployment.rs:380-423 | A package with a path used as file and directory passes the validation and cannot be staged. |
| `Recovery.RisingUnlessRetreat` | src/integrations/home_assistant/deployment.rs:821-865 | During one replacement, versions shown in active go back if and only if the old tree is shown after the new one. |
| `Recovery.DraftFits` | src/integrations/home_assistant/deployment.rs:803-819 | A partly staged tree can be cleaned up exactly if it is undamaged. |
| `Recovery.ResidueIsSafe` | src/integrations/home_assistant/deployment.rs:737-932 | Whatever an interruption leaves is safe. |
| `Layout.RenamedSlot` | src/integrations/home_assistant/deployment.rs:437-453 | The four trees lie apart: a rename between two of them exchanges those two and leaves the others alone. |
| `Layout.WriteJournal` | src/integrations/home_assistant/deployment.rs:934-942 | Success leaves exactly the journal; a failure leaves none, an unreadable part, or all of it, and nothing else changes. |
| `Transaction.Stage` | src/integrations/home_assistant/deployment.rs:803-819 | Success means that the package is deployable and staging is exactly its tree; failure leaves a draft of it and touches nothing else; on a working filesystem it succeeds exactly for deployable packages, if old staging can be removed. |
| `Transaction.MakeRoom` | src/integrations/home_assistant/deployment.rs:821-827 | An update drops only a retained backup and then keeps the active tree as the backup; interrupted anywhere, the committed tree is where recovery looks. |
| `Transaction.Commit` | src/integrations/home_assistant/deployment.rs:821-837 | Success makes the staged tree active and, after an update, the old one the backup; interrupted anywhere it leaves a residue with the old or the new tree committed. The old tree is shown in active after the new one if and only if the second rename landed while reporting an error and the old tree was restored. |
| `Transaction.Place` | src/integrations/home_assistant/deployment.rs:829-836 | The second rename: the same for what it shows; after an error of its own, unless the rollback or the removal of the journal is reported as failed, the committed tree is active again and staging and journal are gone. Of its errors, `CleanupIncomplete` means that the new tree is in place, `RollbackFailed` that the rollback did not complete, and any other that the old state is restored. |
| `Transaction.SlippedRename` | src/integrations/home_assistant/deployment.rs:829-855 | When the second rename of an update lands, its answer is lost and nothing else goes wrong, the rollback puts the older version back in active. |
| `Transaction.Rollback` | src/integrations/home_assistant/deployment.rs:839-865 | Success restores the committed tree and removes staging and journal; a failure loses nothing; active goes from what was found to nothing to the committed tree, or stops on the way. |
| `Transaction.VerifyActive` | src/integrations/home_assistant/deployment.rs:906-911 | Accepts an active tree exactly if it is the package's. On a working filesystem the error tells a tree that is another from one that is not in order. |
| `Transaction.Reconcile` | src/integrations/home_assistant/deployment.rs:867-932 | Keeps the server safe when interrupted; on a working filesystem succeeds exactly on recoverable states, then journal and staging are gone and the active tree is the one before or the restored backup; refusing changes nothing, except that a backup may have been restored before staging is found unremovable. The error `CleanupIncomplete` means that only the journal is left to remove. |
| `Transaction.RestoreAndDiscard` | src/integrations/home_assistant/deployment.rs:915-920 | An update interrupted between its renames gets the committed tree back, whatever interrupts this. |
| `Transaction.CloseJournal` | src/integrations/home_assistant/deployment.rs:929-931 | The end of a reconciliation commits the tree in use and never another. |
| `Transaction.KeepsRestore` | src/integrations/home_assistant/deployment.rs:915-920 | Restoring the backup keeps the server safe and a residue a residue. |
| `Transaction.StagedVerdict` | src/integrations/home_assistant/deployment.rs:821-932 | An interruption between the journal and the first rename is stuck exactly if an install has a backup beside it, or an old backup already lost its manifest. |
| `Transaction.BetweenRenames` | src/integrations/home_assistant/deployment.rs:821-932 | An interruption of an update between its renames is never stuck. |
| `Transaction.PlacedVerdict` | src/integrations/home_assistant/deployment.rs:821-932 | With the new tree in place and the journal still there, an update is never stuck, and an install exactly if it has a backup beside it. |
| `Deployment.Decide` | src/integrations/home_assistant/deployment.rs:737-786 | Keeps exactly an exact copy, installs over nothing, updates an older version, and refuses newer, equal but different, and unrecognised trees. For an update it names the version in the replaced manifest. On a working filesystem each refusal has its error. |
| `Deployment.Deliver` | src/integrations/home_assistant/deployment.rs:743-786 | Staging, journal and commit: success means the package was deployable and is active, with the old tree as the backup; any interruption leaves a residue of this package; a working filesystem delivers exactly the deployable packages, and of the others leaves nothing staged that can be removed. |
| `Deployment.RunLocked` | src/integrations/home_assistant/deployment.rs:737-786 | One deployment under the lock: safe when interrupted anywhere, the committed version never goes back, success means the package is active and nothing is left over. The new tree is shown and not kept exactly if the second rename reported an error although it landed and the tree is not there in the end; versions shown in active go back if and only if then the old one was restored. On a working filesystem it succeeds exactly when the state is recoverable and the active tree is the package's already, or acceptable with a deployable package. It answers "noop", "install" or "update" as the tree in use before it was the package's already, none, or another, and with "update" the version of that tree. The error `CleanupIncomplete` means that all is done but the removal of the journal. |
| `Deployment.ResidueRefusesEarly` | src/integrations/home_assistant/deployment.rs:867-932 | On what an interruption leaves, a refusing reconcile has changed nothing at all. |
| `Deployment.RecoverFromInterruptions` | src/integrations/home_assistant/deployment.rs:737-932 | Any number of deployments of a package, interrupted anywhere, and one uninterrupted reconcile: if one of them began to replace, it succeeds exactly if the state is not stuck, and then active is the tree in use before them all or the complete new one; refusing, it changes nothing. |
| `Deployment.RunTransaction` | src/integrations/home_assistant/deployment.rs:482-509 | A whole deployment from validation on keeps the server safe, moves the committed tree only forward, and shows no more in active than its locked part, taking its tree back exactly as that does. Its answer is as truthful. On a working filesystem it succeeds exactly if the package is valid, the configuration directory is there, its two directories are missing or have their mode, and the locked part succeeds. |
| `Deployment.Campaign` | src/integrations/home_assistant/deployment.rs:482-932 | Any number of deployments with any failures and crashes: the server is always safe, the versions of the committed tree never decrease, and it is always one that was there or a complete package. The trees shown in active follow one another as `Shown.RisesExactly` and `Shown.EndsRise` ask, and a tree is taken back exactly by a slipped rename. |
| `Shown.RisesExactly` | src/integrations/home_assistant/deployment.rs:482-932 | Over any number of deployments the version in active never goes back, nor to other contents of the same version, if and only if nothing is shown after an update that was taken back and nothing but that tree or a newer one after an installation that was. |
| `Shown.InOrderIsHarmless` | src/integrations/home_assistant/deployment.rs:482-932 | An installation that was taken back does no harm if every later package that passes its checks is the same or newer. |
| `Shown.RisesInOrder` | src/integrations/home_assistant/deployment.rs:482-932 | So if only installations are taken back and the packages after each are in order, the version in active never goes back. |
| `Shown.EndsRise` | src/integrations/home_assistant/deployment.rs:482-932 | The versions in active at the ends of deployments, where there are any, never decrease. |
| `Shown.HoldersRise` | src/integrations/home_assistant/deployment.rs:482-932 | Nor do those of the tree in use, the active one or else the one that recovery restores. |
| `Witnesses.SlippedUpdate` | src/integrations/home_assistant/deployment.rs:803-865 | From any server in order with an older package: staging, journal, first rename, a second rename whose answer is lost, rollback; the version in active goes up and back. |
| `Witnesses.GapIsLeft` | src/integrations/home_assistant/deployment.rs:867-932 | From any such server two broken connections leave the old package in place and a journal without staging, and the next reconcile refuses on a working filesystem. |
| `Witnesses.ExampleIsUpdatable` | src/integrations/home_assistant/deployment.rs:737-786 | A server with version 1 of a one-file package, version 2 of it, and formats that meet every assumption are such a case. |
| `Deployment.UntouchedIsSafe` | src/integrations/home_assistant/deployment.rs:737-741 | A server without a journal is safe with whatever is active, so every run may start there. |
| `LeaseLock.RunKeepsInv` | src/integrations/home_assistant/deployment.rs:522-652 | In every run, also those that go on mutating after errors, each deployer creates its lock file once, and acts after verification only if it owned the lock. |
| `LeaseLock.OwnershipIsAnInterval` | src/integrations/home_assistant/deployment.rs:522-652 | What a deployer owned and lost in any interleaving it never owns again. |
| `LeaseLock.OwnersAreEqual` | src/integrations/home_assistant/deployment.rs:522-529 | Two deployers never own the lock in one state. |
| `LeaseLock.PassingMeansOwning` | src/integrations/home_assistant/deployment.rs:522-529 | Whoever passes the content check of the owner verification owns the lock then. |
| `LeaseLock.AtMostOneStray` | src/integrations/home_assistant/deployment.rs:537-589 | A deployer that lost the lock lands at most one more mutation, the one it had verified for. |
| `LeaseHistory.TookOnlyWhatWasStale` | src/integrations/home_assistant/deployment.rs:591-652 | In every run, a deployer that created its lock had read both files, found neither or exactly one stale lease, looked again as its route asks, and created where there was no lock; if it evicted a lock, that was exactly the lease it had read and found stale, and if it took over a claim, that was the one it had read. |
| `LeaseHistory.EnteredAfterAllChecks` | src/integrations/home_assistant/deployment.rs:609-652 | A deployer that entered had found after an eviction the same claim again, removed a claim only after finding its own lock, and entered owning the lock with no claim about. |
| `LeaseHistory.ClaimWasHeld` | src/integrations/home_assistant/deployment.rs:621-637 | From its eviction until it looks at the claim again, the claim is the evicted lease at every moment, so nobody else took it over. |
| `LeaseHistory.FinishedOwnsNothing` | src/integrations/home_assistant/deployment.rs:531-534 | In every run, a deployer that finished owns the lock no more. |
| `LeaseLock.UnrobbedNeverStrays` | src/integrations/home_assistant/deployment.rs:522-652 | Whatever is taken over, all mutations of a deployer land while it owns the lock unless another's step took the lock away after it had verified. |
| `LeaseLock.RobberEvictsOrWasRobbed` | src/integrations/home_assistant/deployment.rs:522-652 | A step that does so is the eviction of a lease, or the release of a deployer that lost the lock itself. |
| `LeaseLock.EvictionRobsFirst` | src/integrations/home_assistant/deployment.rs:522-652 | So if no landing eviction takes a lock whose owner had verified, every mutation of every deployer lands under its own lock. |
| `LeaseLock.EvictionRobs` | src/integrations/home_assistant/deployment.rs:522-652 | And after every such eviction some deployer is about to change something under a lock that is not its own. |
| `LeaseLock.MutualExclusion` | src/integrations/home_assistant/deployment.rs:522-652 | In every run from any files, with any takeovers: all changes land under the own lock and every deployer between creating and releasing its lock owns it, at all times, if and only if no eviction ever takes the lock of such a deployer. |
| `LeaseLock.OneInside` | src/integrations/home_assistant/deployment.rs:522-652 | Wherever that holds, no two deployers are between creating and releasing the lock at once. |
| `LeaseLock.NextKeepsHeld` | src/integrations/home_assistant/deployment.rs:522-652 | Each single step keeps that exclusion exactly if it does not evict the lock of such a deployer. |
| `LeaseLock.WithoutTakeovers` | src/integrations/home_assistant/deployment.rs:522-652 | In particular it holds if no lease is ever judged stale, whatever files there are at first. |
| `LeaseLock.DeploymentsDoNotInterleave` | src/integrations/home_assistant/deployment.rs:522-589 | Where it holds, every change between two moments at which a deployer holds the lock is that deployer's. |
| `LeaseLock.AcquiresExactly` | src/integrations/home_assistant/deployment.rs:591-652 | A deployer that runs alone and undisturbed acquires the lock if and only if neither file is there, or exactly one is and it is a stale lease; refusing, it changes no file. |
| `LeaseLock.ReleasesExactly` | src/integrations/home_assistant/deployment.rs:531-534 | Undisturbed, it releases the lock again and leaves neither file. |
| `LeaseLock.ReleasedAfterFailure` | src/integrations/home_assistant/deployment.rs:495-508 | Work that failed or timed out is followed by a release that frees the lock. |
| `LeaseLock.BlockedForEver` | src/integrations/home_assistant/deployment.rs:596-598 | Once lock and claim are both there and nobody is about to clear one, no run changes either and nobody acquires the lock any more. |
| `LeaseLock.CrashBlocks` | src/integrations/home_assistant/deployment.rs:626-632 | A crash between creating the lock and removing the claim leaves a server in that state, for any number of other deployers. |
| `LeaseLock.EvictedOwnerStillWrites` | src/integrations/home_assistant/deployment.rs:591-652 | A run with three deployers and one stale lease in which an evicted owner's mutation lands while another owns the lock. |
| `SftpStream.BoundedStream.PollRead` | src/integrations/home_assistant/deployment.rs:1297-1359 | Over any polls, short reads, I/O errors and ends of file, until an oversized frame is reported, the bytes taken are those emitted and the part of a length prefix held back. Each error means what it says, and only an oversized frame gives that error. A filled poll makes progress, waiting happens only when the channel waits, and a poll that does not fill has placed bytes exactly if it handed a length prefix on. |
| `SftpStream.BoundedStream.NothingOversized` | src/integrations/home_assistant/deployment.rs:1297-1359 | Everything emitted before an oversized frame was reported is made of frames that declare at most the packet limit; no byte of a larger one gets out. |
| `SftpStream.WholeFramesAreFramed` | src/integrations/home_assistant/deployment.rs:1318 | Whole frames are exactly packets within the limit, each behind its length in four bytes, the most significant first. |
| `SftpStream.WithinLimitIsFramed` | src/integrations/home_assistant/deployment.rs:1297-1359 | To stay within the limit is exactly to be such packets and the beginning of one more. |
| `SftpStream.LimitOnDeclarations` | src/integrations/home_assistant/deployment.rs:1318-1325 | After such packets, a declared length above the limit breaks the bound, and one within it does not. |
| `SftpStream.PollAfterOversized` | src/integrations/home_assistant/deployment.rs:1319-1334 | After the report, the next poll with room emits bytes of that frame, and with room for its length prefix breaks the bound. |
| `SftpStream.OversizedShows` | src/integrations/home_assistant/deployment.rs:1297-1359 | A frame that declares too much after whole frames is not within the limit. |
| `SftpStream.AppendFrame` | src/integrations/home_assistant/deployment.rs:1297-1359 | Whole frames followed by one whole frame are whole frames. |
| `SftpStream.BeginningWithinLimit` | src/integrations/home_assistant/deployment.rs:1297-1359 | A beginning of a stream of bounded frames is bounded too. |
| `SftpFiles.WriteChunks` | src/integrations/home_assistant/deployment.rs:1501-1538 | Writing consecutive chunks stores exactly the bytes. |
| `SftpFiles.ReadChunks` | src/integrations/home_assistant/deployment.rs:1430-1473 | Never returns more than the file limit whatever the server sends; from an honest server it returns the file, and on a working connection exactly if it is within the limit. |
| `SftpFiles.RoundTrip` | src/integrations/home_assistant/deployment.rs:1430-1538 | What was uploaded comes back, however reads are split. |
| `Utf8.Cut` | src/mcp/authoring.rs:122-172 | A text cut at a character boundary gives two texts. |
| `Utf8.OccursOnBoundaries` | src/mcp/authoring.rs:122-129 | Where one text occurs in another, it begins and ends on character boundaries. |
| `Utf8.WellFormedIsEncoding` | src/mcp/authoring.rs:122-172 | A byte string is a text exactly if it is the encoding of some characters. |
| `TextEdits.Unique` | src/mcp/authoring.rs:122-129 | Succeeds exactly if the needle is not empty and occurs once, overlapping occurrences counted, and returns that place. |
| `TextEdits.EditIsSound` | src/mcp/authoring.rs:131-172 | One edit cuts on character boundaries, changes exactly one span, keeps well-formed text within the limit, and really changes it. |
| `TextEdits.EditJoins` | src/mcp/authoring.rs:131-172 | An edit applies exactly if it may and its text joins as it says: at the start, at the end, before or after the one occurrence of its anchor, or in place of the one occurrence of the old text. |
| `TextEdits.EditsAreSound` | src/mcp/authoring.rs:131-172 | So is every text on the way of a list of edits. |
| `TextEdits.AllEditIsUnique` | src/mcp/authoring.rs:131-172 | A list of edits has one outcome at most. |
| `TextEdits.ReplacementUndone` | src/mcp/authoring.rs:131-172 | The opposite replacement restores the text exactly if the new text occurs once. |
| `TextEdits.ApplyEdits` | src/mcp/authoring.rs:131-172 | Returns the outcome of all edits in order if each applies and the outcome differs from the start, and fails exactly otherwise. |
| `Authoring.Candidate` | src/mcp/authoring.rs:332-350 | The item to be stored is what the edited text parses to; refused exactly if an edit fails, the text is not valid for its target, or its meaning is unchanged. |
| `Authoring.Observe` | src/mcp/authoring.rs:307-350 | The first read only reads; it goes on only with the expected revision or, for a creation, with absence, and uninterrupted exactly when the request is feasible. Each refusal says what was seen: an item where one is to be created, another revision, a failed read, or a text from which the edits make no item. |
| `Authoring.Reread` | src/mcp/authoring.rs:351-367 | Goes on only if the second read agrees with the first. A refusal says that an item appeared, changed or went, or that the read failed. |
| `Authoring.Dispatch` | src/mcp/authoring.rs:368-396 | Sends at most once and touches only the target; accepted means stored, rejected means unchanged, and anything else, a partial write included, is said to be unknown. Uncancelled, the answer is rejected exactly for the four errors by which nothing was done. |
| `Authoring.Author` | src/mcp/authoring.rs:297-396 | Under any cancellation, failure and other writers the answer is honest about what was sent; uncancelled and alone, it is accepted exactly if the request is feasible, and otherwise nothing changes. Every refusal says truly what was seen (`Refuses`), and uncancelled and alone each of them is given exactly where it belongs (`Settles`). |
| `Authoring.OneAnswer` | src/mcp/authoring.rs:297-396 | Where nobody interferes, exactly one answer is right. |
| `Authoring.TwoReadsThenSent` | src/mcp/authoring.rs:351-383 | A mutation is sent only as the last event, after two reads that agreed on the item it is meant for. |
| `Authoring.AtMostOneMutation` | src/mcp/authoring.rs:307-395 | At most one mutation is sent, and none if the answer is cancelled, already exists, conflict, preflight failure or invalid. |
| `Authoring.CompareAndSwap` | src/mcp/authoring.rs:297-396 | If nobody writes between the second read and the write, an accepted request replaced exactly the item it was meant for and changed nothing else. |
| `Authoring.AcceptedMeansDone` | src/mcp/authoring.rs:384-387 | Accepted means that the target holds the outcome of the edits on a text with the expected revision, or the parsed new text; a new blueprint replaced none. |
| `Trigger.MatchingCounts` | src/integrations/home_assistant/client.rs:302-306 | Taking the first match and failing on a second finds exactly the sole automation of that identifier. |
| `Trigger.Body` | src/integrations/home_assistant/client.rs:291-314 | The flag is set exactly when the configuration is native, of the key, small enough and of the expected revision and one valid automation has the identifier, before anything is sent; one request follows if the server can be reached. Each fault says which check failed. |
| `Trigger.ExecuteTrigger` | src/mcp.rs:2030-2048 | Under every timing of timeout and cancellation at most one request is sent, and none unless all those conditions hold; success exactly if they do, the server accepted and nothing struck; otherwise the answer names the first failed check, or the strike. |
| `EntityIds.TwoWords` | src/integrations/home_assistant/actions/mod.rs:50-76 | Entity identifiers are exactly two words of at most 255 lower-case letters, digits and underscores around a dot. |
| `ItemUri.WriteItemUri` | src/mcp.rs:643-653 | The loop spells the percent-encoded identifier under its catalog. |
| `ItemUri.DecodeItemId` | src/mcp.rs:655-682 | The loop returns the identifier that the text stands for, and fails exactly if it is empty, too long, badly escaped, not UTF-8 or has a control character. |
| `ItemUri.DecodedEncoded` | src/mcp.rs:643-682 | Decoding inverts encoding on all byte strings. |
| `ItemUri.RoundTrip` | src/mcp.rs:643-682 | An identifier comes back from its encoding exactly if it is non-empty UTF-8 without control characters whose encoding is at most 768 bytes, as every such one of up to 256 bytes is. |
| `ItemUri.EncodedIsInjective` | src/mcp.rs:643-653 | No two identifiers are spelled alike. |
| `ItemUri.EncodedIsNormal` | src/mcp.rs:643-653 | An encoding consists of unreserved characters and of percent signs with two upper-case digits, which stand for bytes that are not unreserved. |
| `ItemUri.SignedHexIsTaken` | src/mcp.rs:665-681 | A percent sign, a plus sign and one digit decode to that digit's value. |
| `ItemUri.SignedHexNeverSurvives` | src/mcp.rs:665-681 | No text with a signed digit pair decodes, although the number parser takes it. |
| `ItemUri.ParsedIsCanonical` | src/mcp.rs:487-528 | A URI is accepted as a resource if and only if it is the one canonical spelling of a nameable resource. |
| `ItemUri.SpellingsAreUnique` | src/mcp.rs:487-528 | No resource has two accepted URIs. |
| `ItemUri.TargetAgrees` | src/mcp/authoring.rs:25-51 | The parser of edit targets accepts exactly the editable items that the resource parser names, with the same catalog and identifier, whose key is a valid configuration key or blueprint path. |
| `ItemKeys.UnreservedAreListed` | src/mcp.rs:646 | The bytes spelled unescaped are the letters, the digits and four marks. |
| `ItemKeys.ControlsAreCharacters` | src/mcp.rs:655-682 | A text counts as having a control character exactly if one of its characters is one. |
| `ItemKeys.ConfigKeysAreListed` | src/integrations/home_assistant/actions/authoring.rs:197-203 | Configuration keys are 1 to 64 lower-case letters, digits and underscores. |
| `ItemKeys.BlueprintPathsAreComponents` | src/integrations/home_assistant/actions/management.rs:141-166 | Blueprint paths are exactly up to eight plain components around slashes, within 255 bytes, that end in ".yaml"; the checks on slashes in front, backslashes and control characters add nothing. |
| `Routers.Table.Apply` | src/integrations/home_assistant/client.rs:2050-2080 | Applies one event so that the map reflects it; fails on improper events, and on proper ones exactly if the map outgrows 100 entries. |
| `Routers.OneMoreEvent` | src/integrations/home_assistant/client.rs:2050-2080 | An event decides its own key and leaves what is known of the others. |
| `Routers.StillFine` | src/integrations/home_assistant/client.rs:2066-2073 | The bound of 100 holds after every event, not only at the end. |
| `Routers.ReflectsIsUnique` | src/integrations/home_assistant/client.rs:1471-1544 | The events determine the map. |
| `Routers.ThreadRouters` | src/integrations/home_assistant/client.rs:1471-1544 | Succeeds exactly on a session whose confirmations come in place and whose events are all proper and never fill the map beyond 100; then a key is in the result exactly if the last event about it, over all three phases, discovered it, with that event's data, in the order of the keys. A failure names the end or break of the connection, or the message that is to blame. |
| `DeviceGroups.SameGroup` | src/integrations/home_assistant/client.rs:2457-2471 | Two entities share a key exactly if they are one entity or have the same device and the same effective area. |
| `DeviceGroups.OwnAreaDecides` | src/integrations/home_assistant/client.rs:2462-2465 | An entity's own area goes before its device's: one with an area of its own is together with another of the device exactly if that is in the same area, and its group is named after it. |
| `DeviceGroups.DeviceAreaOtherwise` | src/integrations/home_assistant/client.rs:2462-2465 | Entities of a device without areas of their own are together, where the device is. |
| `DeviceGroups.NameAndAreaAreShared` | src/integrations/home_assistant/client.rs:2472-2478 | A group's name and area do not depend on which member comes first. |
| `DeviceGroups.Partition` | src/integrations/home_assistant/client.rs:2446-2492 | Every entity is in exactly one group, together with exactly the others of its key. |
| `DeviceGroups.MembersKeepCounts` | src/integrations/home_assistant/client.rs:2453-2479 | A group holds each of its entities as often as the input does. |
| `DeviceGroups.GroupDevices` | src/integrations/home_assistant/client.rs:2446-2492 | Succeeds exactly if entities are distinct and are the registry's keys; the groups are those of the keys in use, members in input order, sorted by area, name and first entity. |
| `History.CutGroupWise` | src/integrations/home_assistant/client.rs:565-579 | Cutting each group to what remains is cutting all points to the cap. |
| `History.CheckGroup` | src/integrations/home_assistant/client.rs:549-564 | Accepts exactly a group about one valid, requested, unseen entity. |
| `History.TakeStates` | src/integrations/home_assistant/client.rs:565-572 | Validates every state, also beyond the cap, and keeps the first ones. |
| `History.GetHistory` | src/integrations/home_assistant/client.rs:541-584 | Succeeds exactly if all groups are valid and about distinct requested entities and the answer is within the output bound; the answer is exactly the first 2000 points of all groups in order, each with its entity; truncated exactly if there are more. |

## Left out

- RunTransaction: does not take the lock itself; the lock is `LeaseLock`, and in the transaction the owner checks before each request are among the failures that any request may have.
- RunLocked: apart from `CleanupIncomplete`, which error code belongs to which failure is promised by the steps' own contracts only.
- ThreadRouters: the overall timeout on a silent connection is the end of the list of arrivals.
- Recovery: nothing says that a stuck server gets unstuck; that takes an operator.
- PollRead: promises nothing about framing once an oversized frame was reported, because the code then passes that frame on.
- Authoring: which fault a failed read has is up to the server; the shape of the arguments (field names, revision syntax, number of edits) is taken as checked; JSON, YAML and their validation are abstract functions.
- Trigger: the validity of the input (confirmation, key and revision syntax) is one boolean.
- Requests still in flight when the lock is released, and accuracy of clocks between hosts.
- SSH, SFTP, HTTP and WebSocket transports, TLS and host keys; the lookup behind `read_dir` and `lstat` of the native filesystem.
- SHA-256, JSON, YAML and semantic versions, which are functions with the assumptions above.
- Sign-in, the database, telemetry, the skill catalog, schemas, fixed action tables, single-field normalizers and the Python component.
