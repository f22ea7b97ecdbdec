/** The journaled install and update transaction. */
module Transaction {
  import opened Basics
  import opened RemoteFiles
  import opened TextOrder
  import opened Trees
  import opened Packages
  import opened Inspection
  import opened Removal
  import opened Recovery
  import opened Layout

  ghost predicate Journaled(formats: Formats, package: Package, s: Slots, operation: Operation) {
    JournalAt(formats, s.journal) == Written(Journal(1, operation, package.version))
  }

  // ---- the steps on a residue ----

  lemma ResidueStaging(formats: Formats, package: Package, l: Ledger, s: Slots, staging: Tree)
    requires Residue(formats, package, l, s)
    requires PartOf(staging, s.staging) && Rooted(staging)
    requires JournalAt(formats, s.journal).Written? ==>
      (s.active != NOTHING && s.staging != NOTHING) || l.base == NOTHING
    ensures Residue(formats, package, l, s.(staging := staging))
  {
    hide Fits, Older;
    assert PartOf(staging, NOTHING) ==> staging == NOTHING;
  }

  lemma ResidueRestore(formats: Formats, package: Package, l: Ledger, s: Slots)
    requires Residue(formats, package, l, s) && JournalAt(formats, s.journal).Written?
    requires JournalAt(formats, s.journal).journal.operation == Update
    requires s.active == NOTHING && l.base != NOTHING
    ensures s.backup == l.base
    ensures Residue(formats, package, l, s.(active := s.backup, backup := NOTHING))
  {
  }

  lemma ResidueDropJournal(formats: Formats, package: Package, l: Ledger, s: Slots)
    requires Residue(formats, package, l, s) && (s.active != NOTHING || l.base == NOTHING)
    ensures Residue(formats, package, Settle(l, s.(journal := NOTHING)), s.(journal := NOTHING))
  {
  }

  /** Removing part of an old tree leaves a remnant of it. */
  lemma RemnantShrinks(formats: Formats, package: Package, t: Tree, part: Tree)
    requires Remnant(formats, package, t) && PartOf(part, t) && Rooted(part)
    ensures Remnant(formats, package, part)
  {
    if part != NOTHING {
      SubsetCardinality(part.Keys, t.Keys);
      assert |part| == |part.Keys| && |t| == |t.Keys|;
      SumOfPart(Contents(part), Contents(t));
    }
  }

  // ---- staging ----

  method StageDirectory(fs: Remote, paths: Paths, q: Path) returns (r: Result<()>)
    requires fs.Valid() && Ready(fs.entries, paths)
    modifies fs`entries, fs`reachable
    ensures r.Err? ==> Ordinary(r.error)
    ensures fs.Valid() && Ready(fs.entries, paths)
    ensures !old(fs.reachable) ==> r.Err? && !fs.reachable && fs.entries == old(fs.entries)
    ensures
      var s, s' := SlotsOf(old(fs.entries), paths), SlotsOf(fs.entries, paths);
      && (s' == s || exists mode: nat :: s' == s.(staging := s.staging[q := Directory(mode)]))
      && (r.Ok? ==> s' == s.(staging := s.staging[q := Directory(DIRECTORY_MODE)]))
    ensures fs.reliable && old(fs.reachable) ==>
      fs.reachable && (r.Ok? <==> MayAdd(old(fs.entries), paths, StagingSlot, q))
  {
    ghost var e := fs.entries;
    assert paths.Staging() == paths.Root(StagingSlot);
    MayAddIsMayCreate(e, paths, StagingSlot, q);
    r := fs.Mkdir(paths.Staging() + q, DIRECTORY_MODE);
    if MayCreate(e, paths.Staging() + q) {
      forall mode: nat
        ensures SlotsOf(e[paths.Staging() + q := Directory(mode)], paths) ==
          SlotsOf(e, paths).(staging := SlotsOf(e, paths).staging[q := Directory(mode)])
        ensures Ready(e[paths.Staging() + q := Directory(mode)], paths)
      {
        AddedEntry(e, paths, StagingSlot, q, Directory(mode));
      }
    }
  }

  method StageFile(fs: Remote, paths: Paths, q: Path, bytes: Bytes) returns (r: Result<()>)
    requires fs.Valid() && Ready(fs.entries, paths)
    modifies fs`entries, fs`reachable
    ensures r.Err? ==> Ordinary(r.error)
    ensures fs.Valid() && Ready(fs.entries, paths)
    ensures !old(fs.reachable) ==> r.Err? && !fs.reachable && fs.entries == old(fs.entries)
    ensures
      var s, s' := SlotsOf(old(fs.entries), paths), SlotsOf(fs.entries, paths);
      && (s' == s || exists stored: Bytes :: s' == s.(staging := s.staging[q := InstalledFile(stored)]))
      && (r.Ok? && fs.reliable ==> s' == s.(staging := s.staging[q := InstalledFile(bytes)]))
    ensures fs.reliable && old(fs.reachable) ==>
      fs.reachable && (r.Ok? <==> MayAdd(old(fs.entries), paths, StagingSlot, q))
  {
    ghost var e := fs.entries;
    var path := paths.Staging() + q;
    assert paths.Staging() == paths.Root(StagingSlot);
    MayAddIsMayCreate(e, paths, StagingSlot, q);
    r := fs.WriteExclusive(path, bytes, FILE_MODE);
    if fs.entries != e || r.Ok? {
      ghost var entry := fs.entries[path];
      AddedEntry(e, paths, StagingSlot, q, entry);
      assert entry == InstalledFile(entry.bytes);
    }
  }

  lemma DirectoriesSoFar(package: Package, order: seq<Path>, n: nat)
    requires n < |order|
    ensures TreeOf(map[], Taken(order, n))[order[n] := Directory(DIRECTORY_MODE)] == TreeOf(map[], Taken(order, n + 1))
  {
    TakenNext(order, n);
  }

  lemma RoomForDirectory(e: Files, paths: Paths, package: Package, order: seq<Path>, n: nat)
    requires forall q :: q in order <==> q in ExpectedDirectories(package.files)
    requires InOrder(order) && n < |order| && Ready(e, paths)
    requires SlotsOf(e, paths).staging == TreeOf(map[], Taken(order, n))
    ensures MayAdd(e, paths, StagingSlot, order[n])
  {
    hide Text, Before;
    ParentsComeFirst(package.files, order, n);
    assert order[n] !in order[..n];
    if |order[n]| > 1 {
      var j :| 0 <= j < n && order[j] == Parent(order[n]);
      assert order[..n][j] == Parent(order[n]);
    } else {
      assert Parent(order[n]) == [];
    }
  }

  lemma RoomForFile(e: Files, paths: Paths, formats: Formats, package: Package, n: nat)
    requires ValidPackage(formats, package) && Unambiguous(package)
    requires n < |package.files| && Ready(e, paths)
    requires SlotsOf(e, paths).staging == TreeOf(FileMap(package.files[..n]), ExpectedDirectories(package.files))
    ensures MayAdd(e, paths, StagingSlot, package.files[n].path)
  {
    hide Text, PlainName, FileMap, ValidPackage;
    FileHasRoom(formats, package, n);
  }

  lemma FileHasRoom(formats: Formats, package: Package, n: nat)
    requires ValidPackage(formats, package) && Unambiguous(package) && n < |package.files|
    ensures
      var q := package.files[n].path;
      && q != [] && q !in FileMap(package.files[..n]) && q !in ExpectedDirectories(package.files)
      && (Parent(q) == [] || Parent(q) in ExpectedDirectories(package.files))
      && Parent(q) !in FileMap(package.files[..n])
  {
    hide Text, PlainName, FileMap;
    var files := package.files;
    var q := files[n].path;
    assert ValidFile(files[n]);
    FileMapHolds(files);
    FirstFiles(files, n);
    DirectoryOf(files, Parent(q));
    assert Parent(q) != [] ==> Parent(q) in ExpectedDirectories(files);
    DirectoryOf(files, q);
    assert q in FileMap(files);
  }

  lemma FirstFiles(files: seq<EmbeddedFile>, n: nat)
    requires DistinctPaths(files) && n < |files|
    requires forall i :: 0 <= i < |files| ==> ValidFile(files[i])
    ensures FileMap(files[..n + 1]) == FileMap(files[..n])[files[n].path := files[n].bytes]
    ensures files[n].path !in FileMap(files[..n]) && [] !in FileMap(files[..n])
    ensures forall q :: q in FileMap(files[..n]) ==> q in FileMap(files)
  {
    hide Text, PlainName;
    FileMapGrows(files, n);
    hide FileMap;
    var front := files[..n];
    DistinctPrefix(files, n);
    FileMapHolds(front);
    FileMapHolds(files);
    forall q | q in FileMap(front)
      ensures q in FileMap(files) && q != files[n].path && q != []
    {
      var i :| 0 <= i < |front| && front[i].path == q;
      var file := files[i];
      assert file.path == q && ValidFile(file);
    }
  }

  lemma FilesSoFar(package: Package, n: nat)
    requires DistinctPaths(package.files) && n < |package.files|
    requires forall i :: 0 <= i < |package.files| ==> ValidFile(package.files[i])
    ensures
      var directories := ExpectedDirectories(package.files);
      var file := package.files[n];
      TreeOf(FileMap(package.files[..n]), directories)[file.path := InstalledFile(file.bytes)] ==
        TreeOf(FileMap(package.files[..n + 1]), directories)
  {
    FirstFiles(package.files, n);
  }

  /** Creates the staging root and its directories, parents first. */
  method MakeDirectories(fs: Remote, paths: Paths, package: Package) returns (r: Result<()>)
    requires fs.Valid() && Ready(fs.entries, paths) && SlotsOf(fs.entries, paths).staging == NOTHING
    modifies fs`entries, fs`reachable
    ensures r.Err? ==> Ordinary(r.error)
    ensures fs.Valid() && Ready(fs.entries, paths)
    ensures !old(fs.reachable) ==> r.Err? && !fs.reachable && fs.entries == old(fs.entries)
    ensures OnlyStaging(SlotsOf(old(fs.entries), paths), SlotsOf(fs.entries, paths))
    ensures Draft(package, SlotsOf(fs.entries, paths).staging)
    ensures r.Ok? ==> SlotsOf(fs.entries, paths).staging == TreeOf(map[], ExpectedDirectories(package.files))
    ensures fs.reliable && old(fs.reachable) ==> fs.reachable && r.Ok?
  {
    hide MayAdd, Text, Draft, TreeOf, Ready, SlotsOf;
    ghost var s := SlotsOf(fs.entries, paths);
    MayAddRoot(fs.entries, paths);
    RootDrafts(package);
    var made :- StageDirectory(fs, paths, []);
    var directories := ListDirectories(package.files);
    OnlyRoot(directories);
    for i := 0 to |directories|
      invariant fs.Valid() && Ready(fs.entries, paths)
      invariant fs.reliable ==> fs.reachable
      invariant SlotsOf(fs.entries, paths) == s.(staging := TreeOf(map[], Taken(directories, i)))
      invariant Draft(package, SlotsOf(fs.entries, paths).staging)
    {
      RoomForDirectory(fs.entries, paths, package, directories, i);
      DirectoriesSoFar(package, directories, i);
      DirectoryDrafts(package, SlotsOf(fs.entries, paths).staging, directories[i]);
      made :- StageDirectory(fs, paths, directories[i]);
    }
    AllTaken(directories, ExpectedDirectories(package.files));
    return Ok(());
  }

  /** Uploads the files one by one. */
  method WriteFiles(fs: Remote, paths: Paths, formats: Formats, package: Package) returns (r: Result<()>)
    requires fs.Valid() && Ready(fs.entries, paths) && ValidPackage(formats, package)
    requires SlotsOf(fs.entries, paths).staging == TreeOf(map[], ExpectedDirectories(package.files))
    requires Draft(package, SlotsOf(fs.entries, paths).staging)
    modifies fs`entries, fs`reachable
    ensures r.Err? ==> Ordinary(r.error)
    ensures fs.Valid() && Ready(fs.entries, paths)
    ensures !old(fs.reachable) ==> !fs.reachable && fs.entries == old(fs.entries)
    ensures OnlyStaging(SlotsOf(old(fs.entries), paths), SlotsOf(fs.entries, paths))
    ensures Draft(package, SlotsOf(fs.entries, paths).staging)
    ensures fs.reliable && old(fs.reachable) ==> fs.reachable
    ensures fs.reliable && old(fs.reachable) && Unambiguous(package) ==>
      r.Ok? && SlotsOf(fs.entries, paths).staging == PackageTree(package)
  {
    hide MayAdd, Text, Draft, TreeOf, Ready, SlotsOf, ValidPackage, Unambiguous;
    ghost var s := SlotsOf(fs.entries, paths);
    assert package.files[..0] == [];
    for i := 0 to |package.files|
      invariant fs.Valid() && Ready(fs.entries, paths)
      invariant !old(fs.reachable) ==> !fs.reachable && fs.entries == old(fs.entries)
      invariant fs.reliable && old(fs.reachable) ==> fs.reachable
      invariant OnlyStaging(s, SlotsOf(fs.entries, paths))
      invariant Draft(package, SlotsOf(fs.entries, paths).staging)
      invariant fs.reliable ==>
        SlotsOf(fs.entries, paths).staging == TreeOf(FileMap(package.files[..i]), ExpectedDirectories(package.files))
    {
      var file := package.files[i];
      if fs.reliable && Unambiguous(package) {
        RoomForFile(fs.entries, paths, formats, package, i);
      }
      StageFileStep(formats, package, SlotsOf(fs.entries, paths).staging, i);
      var made :- StageFile(fs, paths, file.path, file.bytes);
    }
    assert package.files[..|package.files|] == package.files;
    return Ok(());
  }

  ghost predicate OnlyStaging(s: Slots, s': Slots) {
    s' == s.(staging := s'.staging)
  }

  lemma RootDrafts(package: Package)
    ensures Draft(package, NOTHING)
    ensures forall mode: nat :: Draft(package, NOTHING[[] := Directory(mode)])
  {
  }

  /** Uploads the embedded tree and reads it back. Whatever goes wrong, only
      staging changes; on success staging is the complete package. */
  method Stage(fs: Remote, paths: Paths, formats: Formats, package: Package) returns (r: Result<()>)
    requires fs.Valid() && formats.Valid() && ValidPackage(formats, package) && Ready(fs.entries, paths)
    modifies fs`entries, fs`reachable
    ensures r.Err? ==> Ordinary(r.error)
    ensures fs.Valid() && Ready(fs.entries, paths)
    ensures !old(fs.reachable) ==> r.Err? && !fs.reachable && fs.entries == old(fs.entries)
    ensures OnlyStaging(SlotsOf(old(fs.entries), paths), SlotsOf(fs.entries, paths))
    ensures SlotsOf(old(fs.entries), paths).staging == NOTHING ==> Draft(package, SlotsOf(fs.entries, paths).staging)
    ensures r.Ok? ==> SlotsOf(fs.entries, paths).staging == PackageTree(package) && Deployable(formats, package)
    ensures fs.reliable && old(fs.reachable) ==>
      var staging := SlotsOf(old(fs.entries), paths).staging;
      && fs.reachable
      && (r.Ok? <==> Deployable(formats, package) && (staging == NOTHING || Fits(package, CurrentPartial, staging)))
  {
    hide Fits, Deployable, ValidPackage, Unambiguous, Older, PartOf, Rooted, Describes, Exact, Ready, SlotsOf, Draft,
      PackageTree, Plain;
    ghost var s := SlotsOf(fs.entries, paths);
    StagePreliminaries(formats, package, s.staging);
    var present :- Present(fs, paths, StagingSlot);
    if present {
      var removed :- Discard(fs, paths, StagingSlot, CurrentPartial, package, formats);
    }
    var made :- MakeDirectories(fs, paths, package);
    var written :- WriteFiles(fs, paths, formats, package);
    AtRoot(fs.entries, paths, StagingSlot);
    assert paths.Staging() == paths.Root(StagingSlot);
    var inspected :- Inspect(fs, paths.Staging(), CurrentExact, package);
    if inspected.None? {
      return Err(VerificationFailed);
    }
    ExactMeansPackage(package, inspected.value, SlotsOf(fs.entries, paths).staging);
    r := VerifyExact(formats, package, inspected.value);
    if r.Ok? {
      DeployableExactly(formats, package);
    }
  }

  lemma StagePreliminaries(formats: Formats, package: Package, staging: Tree)
    requires ValidPackage(formats, package)
    ensures DistinctPaths(package.files)
    ensures forall i :: 0 <= i < |package.files| ==> ValidFile(package.files[i])
    ensures [] !in FileMap(package.files)
    ensures PackageTree(package) != NOTHING && Draft(package, NOTHING)
    ensures Deployable(formats, package) ==>
      && Unambiguous(package)
      && Fits(package, CurrentExact, PackageTree(package))
    ensures Fits(package, CurrentPartial, staging) ==> Plain(staging) && staging != NOTHING
    ensures Plain(NOTHING)
    ensures forall part :: PartOf(part, NOTHING) ==> part == NOTHING
  {
    NoRootFile(formats, package);
    assert forall i :: 0 <= i < |package.files| ==> ValidFile(package.files[i]);
    hide ValidFile, FileMap, ExpectedDirectories, Text;
    if Deployable(formats, package) {
      CopyFits(formats, package, CurrentExact);
    }
  }

  lemma MayAddRoot(e: Files, paths: Paths)
    requires Ready(e, paths) && SlotsOf(e, paths).staging == NOTHING
    ensures MayAdd(e, paths, StagingSlot, [])
  {
  }

  lemma OnlyRoot(order: seq<Path>)
    ensures NOTHING[[] := Directory(DIRECTORY_MODE)] == TreeOf(map[], Taken(order, 0))
  {
  }

  lemma DirectoryDrafts(package: Package, t: Tree, q: Path)
    requires Draft(package, t) && q in ExpectedDirectories(package.files)
    ensures forall mode: nat :: Draft(package, t[q := Directory(mode)])
  {
  }

  lemma StageFileStep(formats: Formats, package: Package, t: Tree, n: nat)
    requires ValidPackage(formats, package) && n < |package.files| && Draft(package, t)
    ensures forall stored: Bytes :: Draft(package, t[package.files[n].path := InstalledFile(stored)])
    ensures
      var directories := ExpectedDirectories(package.files);
      var file := package.files[n];
      TreeOf(FileMap(package.files[..n]), directories)[file.path := InstalledFile(file.bytes)] ==
        TreeOf(FileMap(package.files[..n + 1]), directories)
  {
    FileMapHolds(package.files);
    FilesSoFar(package, n);
  }

  // ---- commit and rollback ----

  /** The state in which a journaled transaction may start moving trees. */
  ghost predicate Staged(formats: Formats, package: Package, l: Ledger, s: Slots, operation: Operation) {
    && Residue(formats, package, l, s)
    && Journaled(formats, package, s, operation)
    && s.active == l.base && s.staging == l.incoming
    && (operation == Update ==> l.base != NOTHING)
  }

  /** The two moments at which `commit` may find its second rename refused. */
  ghost predicate Halfway(formats: Formats, package: Package, l: Ledger, s: Slots, operation: Operation) {
    && Residue(formats, package, l, s)
    && Journaled(formats, package, s, operation)
    && (s.active == NOTHING || (s.active == l.incoming && s.staging == NOTHING))
    && (operation == Update ==> s.backup == l.base)
  }

  /** An interruption before the first rename, with staging and journal whole,
      leaves a stuck server exactly if an install has a backup beside it or the
      removal of an old backup has begun with its manifest. */
  lemma StagedVerdict(formats: Formats, package: Package, l: Ledger, s: Slots, operation: Operation)
    requires ValidPackage(formats, package) && Staged(formats, package, l, s, operation)
    ensures Stuck(formats, s, l.incoming) <==> s.backup != NOTHING && (operation == Install || MANIFEST !in s.backup)
  {
    hide Fits, Older, Undamaged, Draft, Rooted, PackageTree;
    IncomingIsUndamaged(formats, package);
  }

  /** An interruption between the renames of an update never does. */
  lemma BetweenRenames(formats: Formats, package: Package, l: Ledger, s: Slots)
    requires ValidPackage(formats, package) && Residue(formats, package, l, s)
    requires Journaled(formats, package, s, Update) && s.active == NOTHING
    ensures !Stuck(formats, s, l.incoming)
  {
    hide Fits, Older, Undamaged, Draft, Rooted, PackageTree;
    IncomingIsUndamaged(formats, package);
    ReplaceableFacts(formats, package, l.base);
  }

  /** After the second rename, an update is never stuck, and an install exactly if
      it has a backup beside it. */
  lemma PlacedVerdict(formats: Formats, package: Package, l: Ledger, s: Slots, operation: Operation)
    requires ValidPackage(formats, package) && Residue(formats, package, l, s)
    requires Journaled(formats, package, s, operation) && s.active == l.incoming
    ensures Stuck(formats, s, l.incoming) <==> operation == Install && s.backup != NOTHING
  {
    hide Fits, Undamaged, Draft, Rooted, PackageTree;
    IncomingIsUndamaged(formats, package);
    UndamagedNothing();
    PackageVersion(formats, package);
    if operation == Update {
      ReplaceableFacts(formats, package, l.base);
    }
  }

  lemma UndamagedNothing()
    ensures Undamaged(NOTHING)
  {
  }

  lemma IncomingIsThere(package: Package)
    ensures PackageTree(package) != NOTHING && [] in PackageTree(package)
  {
    assert [] in PackageTree(package);
  }

  lemma NothingLeftToTake(formats: Formats, package: Package, l: Ledger, s: Slots, operation: Operation)
    requires Halfway(formats, package, l, s, operation) && Rooted(s.active)
    ensures s.active != NOTHING ==>
      Halfway(formats, package, l, s.(active := NOTHING, staging := s.active), operation)
    ensures operation == Update ==> l.base != NOTHING && Replaceable(formats, package, l.base)
  {
    hide Fits, Older, Draft;
    IncomingIsThere(package);
    if s.active != NOTHING {
      IncomingDrafts(package);
    }
    if operation == Update {
      ReplaceableFacts(formats, package, l.base);
    }
  }

  lemma IncomingDrafts(package: Package)
    ensures Draft(package, PackageTree(package))
  {
  }

  lemma IncomingUndamaged(formats: Formats, package: Package)
    requires Deployable(formats, package)
    ensures Undamaged(PackageTree(package)) && Unambiguous(package)
    ensures Fits(package, CurrentPartial, PackageTree(package))
    ensures Plain(PackageTree(package)) && Plain(NOTHING)
  {
    CopyFits(formats, package, CurrentPartial);
    var t := PackageTree(package);
    assert forall q :: q in t && q != [] ==> Allowed(package, CurrentPartial, q, t[q]);
  }

  lemma SlotsRooted(e: Files, paths: Paths)
    requires Closed(e)
    ensures Rooted(SlotsOf(e, paths).active) && Rooted(SlotsOf(e, paths).staging) && Rooted(SlotsOf(e, paths).backup)
  {
    SubIsRooted(e, paths.Active());
    SubIsRooted(e, paths.Staging());
    SubIsRooted(e, paths.Backup());
  }

  /** Undoes a transaction whose new tree could not be put in place: takes the
      new tree back if it arrived after all, restores the old one, and cleans
      up. It never leaves the residues of the transaction, and completing means
      that the active tree is the base again. */
  method Rollback(fs: Remote, paths: Paths, formats: Formats, package: Package, operation: Operation, ghost l: Ledger)
    returns (r: Result<()>, ghost taken: Tree)
    requires fs.Valid() && Halfway(formats, package, l, SlotsOf(fs.entries, paths), operation)
    modifies fs`entries, fs`reachable
    ensures fs.Valid() && (Ready(old(fs.entries), paths) ==> Ready(fs.entries, paths))
    ensures r.Err? ==> r.error == RollbackFailed
    ensures !old(fs.reachable) ==> r.Err? && !fs.reachable && fs.entries == old(fs.entries)
    ensures
      var s' := SlotsOf(fs.entries, paths);
      && Residue(formats, package, Settle(l, s'), s')
      && Settle(l, s').base == l.base
      && (r.Ok? ==> s'.journal == NOTHING && s'.staging == NOTHING && s'.active == l.base)
      && TakesThenRestores(SlotsOf(old(fs.entries), paths).active, taken, s'.active, l.base)
    ensures fs.reliable && old(fs.reachable) && Ready(old(fs.entries), paths) ==>
      (Deployable(formats, package) && Undamaged(SlotsOf(old(fs.entries), paths).staging) ==> fs.reachable && r.Ok?)
  {
    hide Fits, Older, Draft, Rooted, Deployable, PackageTree, PartOf, SlotsOf, Ready, Undamaged, Describes;
    r, taken := RollbackSteps(fs, paths, formats, package, operation, l);
    if r.Err? {
      return Err(RollbackFailed), taken;
    }
  }

  method RollbackSteps(fs: Remote, paths: Paths, formats: Formats, package: Package, operation: Operation,
                       ghost l: Ledger)
    returns (r: Result<()>, ghost taken: Tree)
    requires fs.Valid() && Halfway(formats, package, l, SlotsOf(fs.entries, paths), operation)
    modifies fs`entries, fs`reachable
    ensures fs.Valid() && (Ready(old(fs.entries), paths) ==> Ready(fs.entries, paths))
    ensures !old(fs.reachable) ==> r.Err? && !fs.reachable && fs.entries == old(fs.entries)
    ensures
      var s' := SlotsOf(fs.entries, paths);
      && Residue(formats, package, Settle(l, s'), s')
      && Settle(l, s').base == l.base
      && (r.Ok? ==> s'.journal == NOTHING && s'.staging == NOTHING && s'.active == l.base)
      && TakesThenRestores(SlotsOf(old(fs.entries), paths).active, taken, s'.active, l.base)
    ensures fs.reliable && old(fs.reachable) && Ready(old(fs.entries), paths) ==>
      (Deployable(formats, package) && Undamaged(SlotsOf(old(fs.entries), paths).staging) ==> fs.reachable && r.Ok?)
  {
    hide Fits, Older, Draft, Rooted, Deployable, PackageTree, PartOf, SlotsOf, Ready, Undamaged, Residue, Settle,
      Halfway, JournalAt;
    if Deployable(formats, package) {
      IncomingUndamaged(formats, package);
    }
    var restored;
    restored, taken := RestoreBase(fs, paths, formats, package, operation, l);
    if restored.Err? {
      return restored, taken;
    }
    r := CleanUp(fs, paths, formats, package, l);
  }

  /** Renames the backup to active, if it is a package this one may replace. */
  method RestoreChecked(fs: Remote, paths: Paths, formats: Formats, package: Package) returns (r: Result<()>)
    requires fs.Valid() && SlotsOf(fs.entries, paths).active == NOTHING
    modifies fs`entries, fs`reachable
    ensures r.Err? ==> Ordinary(r.error)
    ensures fs.Valid() && (Ready(old(fs.entries), paths) ==> Ready(fs.entries, paths))
    ensures !old(fs.reachable) ==> r.Err? && !fs.reachable && fs.entries == old(fs.entries)
    ensures
      var s, s' := SlotsOf(old(fs.entries), paths), SlotsOf(fs.entries, paths);
      && (s' == s || s' == s.(active := s.backup, backup := NOTHING))
      && (r.Ok? ==> s' != s && Replaceable(formats, package, s.backup))
    ensures fs.reliable && old(fs.reachable) && Ready(old(fs.entries), paths) ==>
      fs.reachable && (Replaceable(formats, package, SlotsOf(old(fs.entries), paths).backup) ==> r.Ok?)
  {
    hide Fits, Older, PackageTree, SlotsOf, Ready, Describes;
    ghost var s := SlotsOf(fs.entries, paths);
    if Replaceable(formats, package, s.backup) {
      ReplaceableFacts(formats, package, s.backup);
    }
    AtRoot(fs.entries, paths, BackupSlot);
    assert paths.Backup() == paths.Root(BackupSlot);
    var inspected :- Inspect(fs, paths.Backup(), Recognized, package);
    if inspected.None? {
      return Err(UnsafeState);
    }
    var fine := ValidateRecognizedVersion(formats, package, inspected.value, s.backup);
    if fine.Err? {
      return fine;
    }
    r := Move(fs, paths, BackupSlot, ActiveSlot);
  }

  /** The first half of a rollback: the new tree goes back to staging, and the
      backup, if the transaction made one, back to active. */
  method RestoreBase(fs: Remote, paths: Paths, formats: Formats, package: Package, operation: Operation,
                     ghost l: Ledger)
    returns (r: Result<()>, ghost taken: Tree)
    requires fs.Valid() && Halfway(formats, package, l, SlotsOf(fs.entries, paths), operation)
    modifies fs`entries, fs`reachable
    ensures r.Err? ==> Ordinary(r.error)
    ensures fs.Valid() && (Ready(old(fs.entries), paths) ==> Ready(fs.entries, paths))
    ensures !old(fs.reachable) ==> r.Err? && !fs.reachable && fs.entries == old(fs.entries)
    ensures
      var s, s' := SlotsOf(old(fs.entries), paths), SlotsOf(fs.entries, paths);
      && Residue(formats, package, l, s') && Settle(l, s') == l
      && (s'.staging == s.staging || s'.staging == l.incoming || s'.staging == NOTHING)
      && (r.Ok? ==>
            && s'.active == l.base && s'.staging in {s.staging, l.incoming}
            && JournalAt(formats, s'.journal).Written?
            && (JournalAt(formats, s'.journal).journal.operation == Update ==> l.base != NOTHING)
            && l.incoming == PackageTree(package))
      && TakesThenRestores(s.active, taken, s'.active, l.base)
    ensures fs.reliable && old(fs.reachable) && Ready(old(fs.entries), paths) ==>
      (Deployable(formats, package) ==> fs.reachable && r.Ok?)
  {
    hide Fits, Older, Draft, Rooted, Deployable, PackageTree, PartOf, SlotsOf, Ready, Undamaged, Describes;
    ghost var s0 := SlotsOf(fs.entries, paths);
    SlotsRooted(fs.entries, paths);
    NothingLeftToTake(formats, package, l, s0, operation);
    if Deployable(formats, package) {
      IncomingUndamaged(formats, package);
    }
    taken := s0.active;
    var present :- Present(fs, paths, ActiveSlot);
    if present {
      var moved := Move(fs, paths, ActiveSlot, StagingSlot);
      taken := SlotsOf(fs.entries, paths).active;
      if moved.Err? {
        return moved, taken;
      }
    }
    ghost var s1 := SlotsOf(fs.entries, paths);
    assert Halfway(formats, package, l, s1, operation) && s1.active == NOTHING;
    if operation == Update {
      ResidueRestore(formats, package, l, s1);
      var restored :- RestoreChecked(fs, paths, formats, package);
    }
    return Ok(()), taken;
  }

  /** The active trees of a rollback: what it finds, what is left after taking
      the new tree back, and what is there in the end. */
  ghost predicate TakesThenRestores(found: Tree, taken: Tree, end: Tree, base: Tree) {
    && (taken == found || taken == NOTHING)
    && (end == taken || (taken == NOTHING && end == base))
  }

  /** The end of a rollback: staging and journal go. */
  method CleanUp(fs: Remote, paths: Paths, formats: Formats, package: Package, ghost l: Ledger)
    returns (r: Result<()>)
    requires fs.Valid() && Residue(formats, package, l, SlotsOf(fs.entries, paths))
    requires SlotsOf(fs.entries, paths).active == l.base
    requires JournalAt(formats, SlotsOf(fs.entries, paths).journal).Written?
    requires JournalAt(formats, SlotsOf(fs.entries, paths).journal).journal.operation == Update ==> l.base != NOTHING
    modifies fs`entries, fs`reachable
    ensures r.Err? ==> Ordinary(r.error)
    ensures fs.Valid() && (Ready(old(fs.entries), paths) ==> Ready(fs.entries, paths))
    ensures !old(fs.reachable) ==> r.Err? && !fs.reachable && fs.entries == old(fs.entries)
    ensures
      var s' := SlotsOf(fs.entries, paths);
      && Residue(formats, package, Settle(l, s'), s')
      && Settle(l, s').base == l.base
      && s'.active == l.base
      && (r.Ok? ==> s'.journal == NOTHING && s'.staging == NOTHING)
    ensures fs.reliable && old(fs.reachable) ==>
      (Deployable(formats, package) && Undamaged(SlotsOf(old(fs.entries), paths).staging) ==> fs.reachable && r.Ok?)
  {
    hide Fits, Older, Draft, Rooted, Deployable, PackageTree, PartOf, SlotsOf, Ready, Undamaged;
    ghost var s := SlotsOf(fs.entries, paths);
    if Deployable(formats, package) {
      StagingVerdict(formats, package, s.staging);
    }
    JournalIsFile(formats, s);
    var present :- Present(fs, paths, StagingSlot);
    if present {
      var removed := Discard(fs, paths, StagingSlot, CurrentPartial, package, formats);
      ResidueStaging(formats, package, l, s, SlotsOf(fs.entries, paths).staging);
      if removed.Err? {
        return removed;
      }
    }
    ResidueDropJournal(formats, package, l, SlotsOf(fs.entries, paths));
    present :- Present(fs, paths, JournalSlot);
    if present {
      var dropped :- DropJournal(fs, paths);
    }
    return Ok(());
  }

  lemma JournalIsFile(formats: Formats, s: Slots)
    requires JournalAt(formats, s.journal).Written?
    ensures IsFile(s.journal) && Plain(s.journal) && s.journal != NOTHING
  {
  }

  /** The first half of `Commit`: an update drops the retained backup and puts
      the active tree in its place. */
  method MakeRoom(fs: Remote, paths: Paths, formats: Formats, package: Package, operation: Operation, ghost l: Ledger)
    returns (r: Result<()>)
    requires fs.Valid() && Staged(formats, package, l, SlotsOf(fs.entries, paths), operation)
    modifies fs`entries, fs`reachable
    ensures r.Err? ==> Ordinary(r.error)
    ensures fs.Valid() && (Ready(old(fs.entries), paths) ==> Ready(fs.entries, paths))
    ensures
      var s, s' := SlotsOf(old(fs.entries), paths), SlotsOf(fs.entries, paths);
      && Residue(formats, package, Settle(l, s'), s')
      && Settle(l, s').base == l.base
      && s'.active in {NOTHING, l.base}
      && (r.Ok? ==>
            && Halfway(formats, package, l, s', operation) && s'.active == NOTHING && s'.staging == l.incoming
            && s'.backup == if operation == Update then l.base else s.backup)
    ensures fs.reliable && old(fs.reachable) && Ready(old(fs.entries), paths) ==>
      && fs.reachable
      && (var backup := SlotsOf(old(fs.entries), paths).backup;
          backup == NOTHING || Replaceable(formats, package, backup) ==> r.Ok?)
  {
    hide Fits, Older, Draft, Rooted, PackageTree, PartOf, SlotsOf, Ready, Undamaged, Describes, Replaceable;
    ghost var s0 := SlotsOf(fs.entries, paths);
    IncomingIsThere(package);
    BackupVerdict(formats, package, s0.backup);
    PlainNothing();
    if Replaceable(formats, package, s0.backup) {
      ReplaceableFacts(formats, package, s0.backup);
    }
    if operation == Update {
      var present :- Present(fs, paths, BackupSlot);
      if present {
        var removed := Discard(fs, paths, BackupSlot, Recognized, package, formats);
        RemnantShrinks(formats, package, s0.backup, SlotsOf(fs.entries, paths).backup);
        if removed.Err? {
          return removed;
        }
      }
      ghost var s1 := SlotsOf(fs.entries, paths);
      assert Staged(formats, package, l, s1, operation) && s1.backup == NOTHING;
      AsideIsHalfway(formats, package, l, s1);
      var aside :- Move(fs, paths, ActiveSlot, BackupSlot);
    }
    return Ok(());
  }

  /** Moves the staged tree in place. An interruption leaves a residue of this
      transaction; completing leaves the complete new tree active and, after an
      update, the old tree as the backup. `shown` are the active trees, at first
      and after each rename; `slipped` says that the second rename reported an
      error although the new tree was there. The old tree is shown again after
      the new one exactly if that happened and the old one was restored. */
  method Commit(fs: Remote, paths: Paths, formats: Formats, package: Package, operation: Operation, ghost l: Ledger)
    returns (r: Result<()>, ghost shown: seq<Tree>, ghost slipped: bool)
    requires fs.Valid() && ValidPackage(formats, package)
    requires Staged(formats, package, l, SlotsOf(fs.entries, paths), operation)
    modifies fs`entries, fs`reachable
    ensures fs.Valid() && (Ready(old(fs.entries), paths) ==> Ready(fs.entries, paths))
    ensures
      var s, s' := SlotsOf(old(fs.entries), paths), SlotsOf(fs.entries, paths);
      && Residue(formats, package, Settle(l, s'), s')
      && (Settle(l, s').base == l.base || (Settle(l, s').base == l.incoming && s'.active == l.incoming))
      && (r.Ok? || r == Err(CleanupIncomplete) ==>
            s'.(journal := NOTHING) ==
              Slots(l.incoming, NOTHING, if operation == Update then l.base else s.backup, NOTHING))
      && (r.Ok? ==> s'.journal == NOTHING)
      && Shows(l, shown, slipped, s'.active)
    ensures slipped ==> r.Err?
    ensures fs.reliable && old(fs.reachable) && Ready(old(fs.entries), paths) ==>
      && fs.reachable && !slipped
      && (var backup := SlotsOf(old(fs.entries), paths).backup;
          backup == NOTHING || Replaceable(formats, package, backup) ==> r.Ok?)
  {
    hide Fits, Older, Draft, Rooted, PackageTree, PartOf, SlotsOf, Ready, Undamaged, Describes, Replaceable, Shows,
      ValidPackage;
    IncomingIsThere(package);
    StagedTrees(formats, package, l, SlotsOf(fs.entries, paths), operation);
    slipped := false;
    var roomy := MakeRoom(fs, paths, formats, package, operation, l);
    ghost var s2 := SlotsOf(fs.entries, paths);
    shown := [l.base, s2.active];
    if roomy.Err? {
      ShownQuietly(l, s2.active);
      return roomy, shown, slipped;
    }
    r, shown, slipped := Place(fs, paths, formats, package, operation, l);
  }

  /** The second half of `Commit`. */
  method Place(fs: Remote, paths: Paths, formats: Formats, package: Package, operation: Operation, ghost l: Ledger)
    returns (r: Result<()>, ghost shown: seq<Tree>, ghost slipped: bool)
    requires fs.Valid() && Halfway(formats, package, l, SlotsOf(fs.entries, paths), operation)
    requires SlotsOf(fs.entries, paths).active == NOTHING && SlotsOf(fs.entries, paths).staging == l.incoming
    requires l.incoming != NOTHING && l.base != l.incoming
    modifies fs`entries, fs`reachable
    ensures fs.Valid() && (Ready(old(fs.entries), paths) ==> Ready(fs.entries, paths))
    ensures
      var s, s' := SlotsOf(old(fs.entries), paths), SlotsOf(fs.entries, paths);
      && Residue(formats, package, Settle(l, s'), s')
      && (Settle(l, s').base == l.base || (Settle(l, s').base == l.incoming && s'.active == l.incoming))
      && (r.Ok? ==> s' == Slots(l.incoming, NOTHING, s.backup, NOTHING))
      && (r == Err(CleanupIncomplete) ==> s'.(journal := NOTHING) == Slots(l.incoming, NOTHING, s.backup, NOTHING))
      && (r == Err(RollbackFailed) && s'.active == l.incoming ==> slipped)
      && Shows(l, shown, slipped, s'.active)
    ensures slipped ==> r.Err?
    ensures r.Err? && r.error != RollbackFailed && r.error != CleanupIncomplete ==>
      var s' := SlotsOf(fs.entries, paths);
      s'.active == l.base && s'.staging == NOTHING && s'.journal == NOTHING
    ensures fs.reliable && old(fs.reachable) && Ready(old(fs.entries), paths) ==> fs.reachable && !slipped && r.Ok?
  {
    hide Fits, Older, Draft, Rooted, PackageTree, PartOf, SlotsOf, Ready, Undamaged, Describes, Replaceable, Shows;
    ghost var s2 := SlotsOf(fs.entries, paths);
    slipped := false;
    BroughtIn(formats, package, l, s2, operation);
    var placed := Move(fs, paths, StagingSlot, ActiveSlot);
    ghost var s3 := SlotsOf(fs.entries, paths);
    if placed.Err? {
      slipped := s3.active != NOTHING;
      var undone;
      ghost var taken: Tree;
      undone, taken := Rollback(fs, paths, formats, package, operation, l);
      shown := [l.base, NOTHING, s3.active, taken, SlotsOf(fs.entries, paths).active];
      ShownRolledBack(l, s3.active, taken, SlotsOf(fs.entries, paths).active);
      return if undone.Err? then undone else placed, shown, slipped;
    }
    shown := [l.base, NOTHING, s3.active];
    ShownPlaced(l);
    ResidueDropJournal(formats, package, l, s3);
    var dropped := DropJournal(fs, paths);
    assert SlotsOf(fs.entries, paths).active == l.incoming;
    if dropped.Err? {
      return Err(CleanupIncomplete), shown, slipped;
    }
    return Ok(()), shown, slipped;
  }

  /** The run in which versions in active go back: the second rename takes
      effect, its answer is lost, and the rollback that follows finds nothing in
      its way. */
  method SlippedRename(fs: Remote, paths: Paths, formats: Formats, package: Package, ghost l: Ledger)
    returns (r: Result<()>, ghost between: Tree)
    requires fs.Valid() && fs.reliable && fs.reachable && Ready(fs.entries, paths)
    requires Deployable(formats, package)
    requires Halfway(formats, package, l, SlotsOf(fs.entries, paths), Update)
    requires SlotsOf(fs.entries, paths).active == NOTHING && SlotsOf(fs.entries, paths).staging == l.incoming
    modifies fs`entries, fs`reachable
    ensures r.Ok? && between == l.incoming && SlotsOf(fs.entries, paths).active == l.base
    ensures Newer(formats, l.base, between)
    ensures !Rising(formats, [l.base, between, SlotsOf(fs.entries, paths).active])
  {
    hide Fits, Draft, Rooted, PackageTree, PartOf, SlotsOf, Ready, Undamaged, Describes, Rising, VersionOf;
    ghost var s := SlotsOf(fs.entries, paths);
    assert ValidPackage(formats, package);
    IncomingIsThere(package);
    BroughtIn(formats, package, l, s, Update);
    PlainNothing();
    StagingVerdict(formats, package, NOTHING);
    UpdateGoesUp(formats, package, l, s);
    var placed := Move(fs, paths, StagingSlot, ActiveSlot);
    between := SlotsOf(fs.entries, paths).active;
    ghost var taken: Tree;
    r, taken := Rollback(fs, paths, formats, package, Update, l);
    DownIsNotRising(formats, l.base, between);
  }

  lemma UpdateGoesUp(formats: Formats, package: Package, l: Ledger, s: Slots)
    requires ValidPackage(formats, package) && Halfway(formats, package, l, s, Update)
    ensures Newer(formats, l.base, l.incoming) && l.base != NOTHING
  {
    PackageVersion(formats, package);
    ReplaceableFacts(formats, package, l.base);
  }

  lemma DownIsNotRising(formats: Formats, base: Tree, incoming: Tree)
    requires Newer(formats, base, incoming) && base != NOTHING && incoming != NOTHING
    ensures !Rising(formats, [base, incoming, base])
  {
    var shown := [base, incoming, base];
    assert !Forward(formats, shown[1], shown[2]);
  }

  /** What the active trees of one replacement can look like. */
  ghost predicate Shows(l: Ledger, shown: seq<Tree>, slipped: bool, end: Tree) {
    && shown != [] && shown[0] == l.base && shown[|shown| - 1] == end
    && (forall t :: t in shown ==> t in {NOTHING, l.base, l.incoming})
    && (l.incoming in shown <==> slipped || end == l.incoming)
    && (Retreats(shown, l.base, l.incoming) <==> slipped && end == l.base != NOTHING)
  }

  lemma StagedTrees(formats: Formats, package: Package, l: Ledger, s: Slots, operation: Operation)
    requires ValidPackage(formats, package) && Staged(formats, package, l, s, operation)
    ensures s.active == l.base && l.incoming != NOTHING && l.base != l.incoming
  {
    IncomingIsThere(package);
    PackageVersion(formats, package);
  }

  lemma ShownQuietly(l: Ledger, end: Tree)
    requires end in {NOTHING, l.base} && l.incoming != NOTHING && l.base != l.incoming
    ensures Shows(l, [l.base, end], false, end)
  {
  }

  lemma ShownPlaced(l: Ledger)
    requires l.incoming != NOTHING && l.base != l.incoming
    ensures Shows(l, [l.base, NOTHING, l.incoming], false, l.incoming)
  {
    var shown := [l.base, NOTHING, l.incoming];
    assert l.incoming == shown[2];
  }

  lemma ShownRolledBack(l: Ledger, found: Tree, taken: Tree, end: Tree)
    requires l.incoming != NOTHING && l.base != l.incoming
    requires found in {NOTHING, l.incoming} && TakesThenRestores(found, taken, end, l.base)
    ensures Shows(l, [l.base, NOTHING, found, taken, end], found != NOTHING, end)
  {
    var shown := [l.base, NOTHING, found, taken, end];
    assert shown[2] == found && shown[4] == end;
  }

  lemma AsideIsHalfway(formats: Formats, package: Package, l: Ledger, s: Slots)
    requires Staged(formats, package, l, s, Update) && s.backup == NOTHING
    ensures Halfway(formats, package, l, s.(active := NOTHING, backup := s.active), Update)
    ensures s.active != NOTHING
  {
    hide Fits, Older, Draft;
    ReplaceableFacts(formats, package, l.base);
  }

  lemma BroughtIn(formats: Formats, package: Package, l: Ledger, s: Slots, operation: Operation)
    requires Halfway(formats, package, l, s, operation) && s.active == NOTHING && s.staging == l.incoming
    ensures Halfway(formats, package, l, s.(active := s.staging, staging := NOTHING), operation)
  {
    hide Fits, Older;
  }

  // ---- reconciliation ----

  method ReadJournal(fs: Remote, paths: Paths, formats: Formats, package: Package) returns (r: Result<Option<Journal>>)
    requires fs.Valid()
    modifies fs`reachable
    ensures r.Err? ==> Ordinary(r.error)
    ensures !old(fs.reachable) ==> r.Err? && !fs.reachable
    ensures r.Ok? ==>
      var state := JournalAt(formats, SlotsOf(fs.entries, paths).journal);
      match r.value
      case None => state == NoJournal
      case Some(journal) => state == Written(journal) && journal.target == package.version
    ensures fs.reliable && old(fs.reachable) ==>
      var state := JournalAt(formats, SlotsOf(fs.entries, paths).journal);
      && fs.reachable
      && (r.Ok? <==> state.NoJournal? || (state.Written? && state.journal.target == package.version))
      && (r.Err? ==> r.error == UnsafeState)
  {
    var path := paths.Journal();
    AbsentIsNothing(fs.entries, path);
    var node :- fs.Lstat(path);
    if node.None? {
      return Ok(None);
    }
    if node.value.kind != FileNode || node.value.mode != PRIVATE_MODE || node.value.size > MAX_JOURNAL_SIZE {
      return Err(UnsafeState);
    }
    var bytes :- fs.Read(path);
    if |bytes| != node.value.size {
      return Err(UnsafeState);
    }
    var journal := formats.unseal(bytes);
    if journal.None? || journal.value.schema != 1 || journal.value.target != package.version {
      return Err(UnsafeState);
    }
    return Ok(journal);
  }

  /** What every step keeps: the package is safe, and the residue of an
      interrupted deployment stays one. */
  ghost predicate Keeps(formats: Formats, package: Package, l: Ledger, s: Slots, l': Ledger, s': Slots) {
    Safe(formats, l', s') && (Residue(formats, package, l, s) ==> Residue(formats, package, l', s'))
  }

  /** Staging may go while the committed tree is in place. */
  ghost predicate MayDiscard(formats: Formats, l: Ledger, s: Slots) {
    JournalAt(formats, s.journal).Written? ==>
      s.staging != NOTHING && (s.active != NOTHING || l.base == NOTHING)
  }

  lemma KeepsStaging(formats: Formats, package: Package, l: Ledger, s: Slots, staging: Tree)
    requires Safe(formats, l, s) && MayDiscard(formats, l, s)
    requires PartOf(staging, s.staging) && Rooted(staging)
    ensures Keeps(formats, package, l, s, l, s.(staging := staging))
  {
    ChangeStaging(formats, l, s, staging);
    if Residue(formats, package, l, s) {
      ResidueStaging(formats, package, l, s, staging);
    }
  }

  lemma KeepsRestore(formats: Formats, package: Package, l: Ledger, s: Slots)
    requires Safe(formats, l, s) && JournalAt(formats, s.journal).Written?
    requires JournalAt(formats, s.journal).journal.operation == Update && s.active == NOTHING
    ensures s.backup == l.base && l.base != NOTHING
    ensures Keeps(formats, package, l, s, l, s.(active := s.backup, backup := NOTHING))
  {
    RestoreBackup(formats, l, s);
    if Residue(formats, package, l, s) {
      ResidueRestore(formats, package, l, s);
    }
  }

  lemma KeepsDropJournal(formats: Formats, package: Package, l: Ledger, s: Slots)
    requires Safe(formats, l, s) && (s.active != NOTHING || l.base == NOTHING)
    ensures
      var s' := s.(journal := NOTHING);
      && Keeps(formats, package, l, s, Settle(l, s'), s')
      && Settle(l, s').base in {l.base, l.incoming}
      && Forward(formats, l.base, Settle(l, s').base)
  {
    RemoveJournal(formats, l, s);
    if Residue(formats, package, l, s) {
      ResidueDropJournal(formats, package, l, s);
    }
  }

  /** Where a reconciled server keeps its package. */
  ghost function Reconciled(formats: Formats, s: Slots): Slots {
    if s.active == NOTHING && JournalAt(formats, s.journal).Written?
       && JournalAt(formats, s.journal).journal.operation == Update
    then Slots(s.backup, NOTHING, NOTHING, NOTHING)
    else Slots(s.active, NOTHING, s.backup, NOTHING)
  }

  method DiscardStaging(fs: Remote, paths: Paths, formats: Formats, package: Package, ghost l: Ledger)
    returns (r: Result<()>)
    requires fs.Valid() && Safe(formats, l, SlotsOf(fs.entries, paths))
      && MayDiscard(formats, l, SlotsOf(fs.entries, paths))
    modifies fs`entries, fs`reachable
    ensures r.Err? ==> Ordinary(r.error)
    ensures fs.Valid() && (Ready(old(fs.entries), paths) ==> Ready(fs.entries, paths))
    ensures !old(fs.reachable) ==> r.Err? && !fs.reachable && fs.entries == old(fs.entries)
    ensures OnlyStaging(SlotsOf(old(fs.entries), paths), SlotsOf(fs.entries, paths))
    ensures r.Ok? ==> SlotsOf(fs.entries, paths).staging == NOTHING
    ensures Keeps(formats, package, l, SlotsOf(old(fs.entries), paths), l, SlotsOf(fs.entries, paths))
    ensures fs.reliable && old(fs.reachable) ==>
      && fs.reachable
      && (r.Ok? <==> Fits(package, CurrentPartial, SlotsOf(old(fs.entries), paths).staging))
      && (r.Err? ==> fs.entries == old(fs.entries) && r.error == UnsafeState)
  {
    hide Fits, Older, Rooted, PartOf, Safe, Residue, SlotsOf, Ready, Settle;
    ghost var s := SlotsOf(fs.entries, paths);
    r := Discard(fs, paths, StagingSlot, CurrentPartial, package, formats);
    KeepsStaging(formats, package, l, s, SlotsOf(fs.entries, paths).staging);
  }

  /** The checks on an active tree that a finished transaction left. */
  method VerifyActive(fs: Remote, paths: Paths, formats: Formats, package: Package) returns (r: Result<()>)
    requires fs.Valid() && formats.Valid() && ValidPackage(formats, package)
    modifies fs`reachable
    ensures r.Err? ==> Ordinary(r.error)
    ensures !old(fs.reachable) ==> r.Err? && !fs.reachable
    ensures r.Ok? ==> Exact(package, SlotsOf(fs.entries, paths).active)
    ensures fs.reliable && old(fs.reachable) ==>
      var active := SlotsOf(fs.entries, paths).active;
      && fs.reachable && (r.Ok? <==> Exact(package, active))
      && (r.Err? ==> r.error == if Fits(package, Recognized, active) then VerificationFailed else UnsafeState)
  {
    hide Fits, TreeOf;
    NoRootFile(formats, package);
    assert paths.Active() == paths.Root(ActiveSlot);
    AtRoot(fs.entries, paths, ActiveSlot);
    NothingDoesNotFit(package, Recognized);
    IncomingIsThere(package);
    var inspected :- Inspect(fs, paths.Active(), Recognized, package);
    if inspected.None? {
      return Err(UnsafeState);
    }
    ExactMeansPackage(package, inspected.value, SlotsOf(fs.entries, paths).active);
    r := VerifyExact(formats, package, inspected.value);
  }

  lemma RefusedUnlessPlain(formats: Formats, package: Package, t: Tree)
    ensures !Plain(t) || t == NOTHING ==> Refusal(formats, package, Recognized, t) == UnsafeState
  {
  }

  /** Checks a retained backup before anything is changed. */
  method CheckBackup(fs: Remote, paths: Paths, formats: Formats, package: Package) returns (r: Result<bool>)
    requires fs.Valid()
    modifies fs`reachable
    ensures r.Err? ==> Ordinary(r.error)
    ensures !old(fs.reachable) ==> r.Err? && !fs.reachable
    ensures r.Ok? ==>
      var backup := SlotsOf(fs.entries, paths).backup;
      && r.value == (backup != NOTHING)
      && (backup == NOTHING || Replaceable(formats, package, backup))
    ensures fs.reliable && old(fs.reachable) ==>
      var backup := SlotsOf(fs.entries, paths).backup;
      && fs.reachable && (r.Ok? <==> backup == NOTHING || Replaceable(formats, package, backup))
      && (r.Err? ==> r.error == Refusal(formats, package, Recognized, backup))
  {
    hide Fits, Older, Describes;
    ghost var backup := SlotsOf(fs.entries, paths).backup;
    RefusedUnlessPlain(formats, package, backup);
    PlainNothing();
    if Replaceable(formats, package, backup) {
      ReplaceableFacts(formats, package, backup);
    }
    assert paths.Backup() == paths.Root(BackupSlot);
    AtRoot(fs.entries, paths, BackupSlot);
    var present :- Present(fs, paths, BackupSlot);
    if present {
      var inspected :- Inspect(fs, paths.Backup(), Recognized, package);
      if inspected.None? {
        return Err(UnsafeState);
      }
      var fine :- ValidateRecognizedVersion(formats, package, inspected.value, backup);
    }
    return Ok(present);
  }

  /** The end of a reconciliation: the journal goes, which commits the active
      tree. */
  method CloseJournal(fs: Remote, paths: Paths, formats: Formats, package: Package, ghost l: Ledger)
    returns (r: Result<()>)
    requires fs.Valid() && Safe(formats, l, SlotsOf(fs.entries, paths))
    requires JournalAt(formats, SlotsOf(fs.entries, paths).journal).Written?
    requires SlotsOf(fs.entries, paths).active != NOTHING || l.base == NOTHING
    modifies fs`entries, fs`reachable
    ensures fs.Valid() && (Ready(old(fs.entries), paths) ==> Ready(fs.entries, paths))
    ensures !old(fs.reachable) ==> r.Err? && !fs.reachable && fs.entries == old(fs.entries)
    ensures
      var s, s' := SlotsOf(old(fs.entries), paths), SlotsOf(fs.entries, paths);
      && Keeps(formats, package, l, s, Settle(l, s'), s')
      && Settle(l, s').base in {l.base, l.incoming}
      && Forward(formats, l.base, Settle(l, s').base)
      && Holder(Settle(l, s'), s') == Holder(l, s)
      && (s' == s || s' == s.(journal := NOTHING))
      && (r.Ok? ==> s'.journal == NOTHING)
    ensures r.Err? ==> r.error == CleanupIncomplete
    ensures fs.reliable && old(fs.reachable) ==> fs.reachable && r.Ok?
  {
    hide Fits, Residue, Ready, SlotsOf, Newer, VersionOf;
    ghost var s := SlotsOf(fs.entries, paths);
    ReconcileFacts(formats, package, l, s);
    KeepsDropJournal(formats, package, l, s);
    JournalIsFile(formats, s);
    var dropped := DropJournal(fs, paths);
    if dropped.Err? {
      return Err(CleanupIncomplete);
    }
    return Ok(());
  }

  /** An update that was interrupted between its renames: the backup goes back,
      then staging goes. */
  method RestoreAndDiscard(fs: Remote, paths: Paths, formats: Formats, package: Package, ghost l: Ledger)
    returns (r: Result<()>)
    requires fs.Valid() && Safe(formats, l, SlotsOf(fs.entries, paths))
    requires JournalAt(formats, SlotsOf(fs.entries, paths).journal).Written?
    requires JournalAt(formats, SlotsOf(fs.entries, paths).journal).journal.operation == Update
    requires SlotsOf(fs.entries, paths).active == NOTHING
    modifies fs`entries, fs`reachable
    ensures fs.Valid() && (Ready(old(fs.entries), paths) ==> Ready(fs.entries, paths))
    ensures !old(fs.reachable) ==> r.Err? && !fs.reachable && fs.entries == old(fs.entries)
    ensures
      var s, s' := SlotsOf(old(fs.entries), paths), SlotsOf(fs.entries, paths);
      && Keeps(formats, package, l, s, l, s') && Settle(l, s') == l
      && s'.active in {NOTHING, l.base} && l.base != NOTHING && s'.journal == s.journal
      && (r.Ok? ==> s' == Slots(s.backup, NOTHING, NOTHING, s.journal) && s.backup == l.base)
    ensures r.Err? ==> r.error != CleanupIncomplete
    ensures fs.reliable && old(fs.reachable) && Ready(old(fs.entries), paths) ==>
      && fs.reachable && (r.Ok? <==> Fits(package, CurrentPartial, SlotsOf(old(fs.entries), paths).staging))
      && (r.Err? ==> r.error == UnsafeState)
  {
    hide Fits, Residue, Ready, SlotsOf, Newer, VersionOf;
    ghost var s := SlotsOf(fs.entries, paths);
    ReconcileFacts(formats, package, l, s);
    KeepsRestore(formats, package, l, s);
    var restored := Move(fs, paths, BackupSlot, ActiveSlot);
    if restored.Err? {
      return Err(RollbackFailed);
    }
    r := DiscardStaging(fs, paths, formats, package, l);
  }

  /** A transaction that was interrupted with everything done but the removal of
      its journal, to go by what is there. */
  ghost predicate Finished(formats: Formats, s: Slots) {
    && JournalAt(formats, s.journal).Written? && s.active != NOTHING && s.staging == NOTHING
    && (JournalAt(formats, s.journal).journal.operation == Install <==> s.backup == NOTHING)
  }

  /** Brings a server that an earlier deployment left behind back to a state
      without journal and staging. It succeeds exactly on recoverable states,
      and short of one case it refuses without having changed anything. */
  method Reconcile(fs: Remote, paths: Paths, formats: Formats, package: Package, ghost l: Ledger)
    returns (r: Result<()>)
    requires fs.Valid() && formats.Valid() && ValidPackage(formats, package)
    requires Safe(formats, l, SlotsOf(fs.entries, paths))
    modifies fs`entries, fs`reachable
    ensures fs.Valid() && (Ready(old(fs.entries), paths) ==> Ready(fs.entries, paths))
    ensures !old(fs.reachable) ==> r.Err? && !fs.reachable && fs.entries == old(fs.entries)
    ensures
      var s, s' := SlotsOf(old(fs.entries), paths), SlotsOf(fs.entries, paths);
      && Keeps(formats, package, l, s, Settle(l, s'), s')
      && Settle(l, s').base in {l.base, l.incoming}
      && Forward(formats, l.base, Settle(l, s').base)
      && (r.Ok? ==> s' == Reconciled(formats, s))
      && (r == Err(CleanupIncomplete) ==> s'.(journal := NOTHING) == Reconciled(formats, s))
      && (r.Ok? ==> s'.backup == NOTHING || Replaceable(formats, package, s'.backup))
      && Holder(Settle(l, s'), s') == Holder(l, s)
      && (s'.active == s.active || (s.active == NOTHING && s'.active == l.base))
    ensures fs.reliable && old(fs.reachable) && Ready(old(fs.entries), paths) ==>
      var s := SlotsOf(old(fs.entries), paths);
      && fs.reachable
      && (r.Ok? <==> Recoverable(formats, package, s))
      && (r.Err? ==> r.error in {UnsafeState, VerificationFailed})
      && (r == Err(VerificationFailed) ==>
            || (s.backup != NOTHING && Unranked(formats, package, s.backup))
            || (Finished(formats, s) && Fits(package, Recognized, s.active)))
      && (r.Err? && !RefusedLate(formats, package, s) ==> fs.entries == old(fs.entries))
  {
    hide Fits, Residue, Exact, Replaceable, Plain, Ready, SlotsOf, Newer, VersionOf, ValidPackage, Unranked;
    ghost var s := SlotsOf(fs.entries, paths);
    ReconcileFacts(formats, package, l, s);
    var journal :- ReadJournal(fs, paths, formats, package);
    var active :- Present(fs, paths, ActiveSlot);
    var staging :- Present(fs, paths, StagingSlot);
    var backup :- CheckBackup(fs, paths, formats, package);
    if journal.None? {
      if staging {
        r := DiscardStaging(fs, paths, formats, package, l);
        return;
      }
      return Ok(());
    }
    match (journal.value.operation, active, staging, backup) {
      case (Install, false, true, false) =>
        var removed :- DiscardStaging(fs, paths, formats, package, l);
      case (Install, true, false, false) =>
        var verified :- VerifyActive(fs, paths, formats, package);
      case (Update, true, true, _) =>
        var removed :- DiscardStaging(fs, paths, formats, package, l);
      case (Update, false, true, true) =>
        var restored :- RestoreAndDiscard(fs, paths, formats, package, l);
      case (Update, true, false, true) =>
        var verified :- VerifyActive(fs, paths, formats, package);
      case _ =>
        return Err(UnsafeState);
    }
    r := CloseJournal(fs, paths, formats, package, l);
  }

  lemma ReconcileFacts(formats: Formats, package: Package, l: Ledger, s: Slots)
    requires Safe(formats, l, s)
    ensures Settle(l, s) == l
    ensures Keeps(formats, package, l, s, l, s)
    ensures Plain(NOTHING) && !Fits(package, CurrentPartial, NOTHING) && !Replaceable(formats, package, NOTHING)
  {
    NothingDoesNotFit(package, CurrentPartial);
    NothingDoesNotFit(package, Recognized);
  }
}
