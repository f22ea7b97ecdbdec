/** The transaction directory as four trees, what is safe in it, and what a
    restarted deployer can finish. Everything here is about values; the steps
    of the deployer are in `Transaction`. */
module Recovery {
  import opened Basics
  import opened RemoteFiles
  import opened Trees
  import opened Packages
  import opened Inspection
  import opened Removal

  /** The trees the transaction moves around. */
  datatype Slots = Slots(active: Tree, staging: Tree, backup: Tree, journal: Tree)

  /** `base` is the tree that was last committed as active, nothing if there
      was none; `incoming` is the tree the journaled transaction installs. */
  datatype Ledger = Ledger(base: Tree, incoming: Tree)

  datatype JournalState = NoJournal | Unreadable | Written(journal: Journal)

  function JournalAt(formats: Formats, t: Tree): JournalState {
    if t == NOTHING then NoJournal
    else if [] !in t then Unreadable
    else
      match t[[]]
      case File(bytes, mode) =>
        if mode != PRIVATE_MODE || |bytes| > MAX_JOURNAL_SIZE then Unreadable
        else
          (match formats.unseal(bytes)
           case Some(journal) => if journal.schema == 1 then Written(journal) else Unreadable
           case None => Unreadable)
      case _ => Unreadable
  }

  ghost predicate Newer(formats: Formats, earlier: Tree, later: Tree) {
    && VersionOf(formats, earlier).Some? && VersionOf(formats, later).Some?
    && VersionOf(formats, earlier).value < VersionOf(formats, later).value
  }

  // ---- safety ----

  /** The active package is never lost and never partial. Outside a journaled
      transaction it is the committed tree. Inside one it is that tree or the
      complete new one, and while it is absent the committed tree is complete
      in the backup with the new one complete in staging. */
  ghost predicate Safe(formats: Formats, l: Ledger, s: Slots) {
    match JournalAt(formats, s.journal)
    case NoJournal => s.active == l.base
    case Unreadable => s.active == l.base
    case Written(journal) =>
      l.incoming != NOTHING &&
      match journal.operation
      case Install =>
        l.base == NOTHING && (s.active == NOTHING || (s.active == l.incoming && s.staging == NOTHING))
      case Update =>
        && l.base != NOTHING && Newer(formats, l.base, l.incoming)
        && (|| s.active == l.base
            || (s.active == NOTHING && s.backup == l.base && s.staging == l.incoming)
            || (s.active == l.incoming && s.staging == NOTHING && s.backup == l.base))
  }

  /** Removing the journal commits whatever is active. */
  ghost function Settle(l: Ledger, s: Slots): Ledger {
    if s.journal == NOTHING then l.(base := s.active) else l
  }

  /** The committed tree stays, or gives way to a newer one. */
  ghost predicate Forward(formats: Formats, before: Tree, after: Tree) {
    after == before || (after != NOTHING && (before == NOTHING || Newer(formats, before, after)))
  }

  /** Versions of the trees shown never go back, where there are any. */
  ghost predicate Rising(formats: Formats, shown: seq<Tree>) {
    forall i, j :: 0 <= i < j < |shown| && shown[i] != NOTHING && shown[j] != NOTHING ==>
      Forward(formats, shown[i], shown[j])
  }

  /** A replaced tree is shown again after the tree that was to replace it. */
  ghost predicate Retreats(shown: seq<Tree>, base: Tree, incoming: Tree) {
    base != NOTHING && exists i, j :: 0 <= i < j < |shown| && shown[i] == incoming && shown[j] == base
  }

  /** During one replacement, versions go back only by a retreat. */
  lemma RisingUnlessRetreat(formats: Formats, shown: seq<Tree>, base: Tree, incoming: Tree)
    requires forall t :: t in shown ==> t in {NOTHING, base, incoming}
    requires base == NOTHING || Newer(formats, base, incoming)
    requires incoming != NOTHING
    ensures Rising(formats, shown) <==> !Retreats(shown, base, incoming)
  {
    if Retreats(shown, base, incoming) {
      var i, j :| 0 <= i < j < |shown| && shown[i] == incoming && shown[j] == base;
      assert !Forward(formats, shown[i], shown[j]);
    } else {
      forall i, j | 0 <= i < j < |shown| && shown[i] != NOTHING && shown[j] != NOTHING
        ensures Forward(formats, shown[i], shown[j])
      {
        assert shown[i] in shown && shown[j] in shown;
      }
    }
  }

  /** The tree in use: the active one, or else the one to be restored. */
  ghost function Holder(l: Ledger, s: Slots): Tree {
    if s.active != NOTHING then s.active else l.base
  }

  lemma ForwardTransitive(formats: Formats, a: Tree, b: Tree, c: Tree)
    requires Forward(formats, a, b) && Forward(formats, b, c)
    ensures Forward(formats, a, c)
  {
  }

  /** What `Safe` means for someone looking at the server. */
  lemma NeverLost(formats: Formats, l: Ledger, s: Slots)
    requires Safe(formats, l, s) && l.base != NOTHING
    ensures
      || s.active == l.base
      || (s.active == l.incoming && s.backup == l.base && JournalAt(formats, s.journal).Written?)
      || (s.active == NOTHING && s.backup == l.base && s.staging == l.incoming
          && JournalAt(formats, s.journal).Written?
          && JournalAt(formats, s.journal).journal.operation == Update)
  {
  }

  /** Anything may happen in staging unless the active tree is away or new. */
  lemma ChangeStaging(formats: Formats, l: Ledger, s: Slots, staging: Tree)
    requires Safe(formats, l, s)
    requires JournalAt(formats, s.journal).Written? ==>
      s.staging != NOTHING && (s.active != NOTHING || l.base == NOTHING)
    ensures Safe(formats, l, s.(staging := staging))
    ensures Settle(l, s) == l ==> Settle(l, s.(staging := staging)) == l
  {
  }

  /** A restored backup is the tree that was last committed, never an older
      retained one. */
  lemma RestoreBackup(formats: Formats, l: Ledger, s: Slots)
    requires Safe(formats, l, s) && JournalAt(formats, s.journal).Written?
    requires JournalAt(formats, s.journal).journal.operation == Update && s.active == NOTHING
    ensures s.backup == l.base && s.backup != NOTHING && s.staging == l.incoming
    ensures Safe(formats, l, s.(active := s.backup, backup := NOTHING))
  {
  }

  /** Removing the journal commits the base or the complete incoming tree,
      and never goes back in versions. */
  lemma RemoveJournal(formats: Formats, l: Ledger, s: Slots)
    requires Safe(formats, l, s) && (s.active != NOTHING || l.base == NOTHING)
    ensures Safe(formats, Settle(l, s.(journal := NOTHING)), s.(journal := NOTHING))
    ensures Settle(l, s.(journal := NOTHING)).base in {l.base, l.incoming}
    ensures JournalAt(formats, s.journal).Written? ==>
      Forward(formats, l.base, Settle(l, s.(journal := NOTHING)).base)
    ensures !JournalAt(formats, s.journal).Written? ==>
      Settle(l, s.(journal := NOTHING)).base == l.base
  {
  }

  // ---- recovery ----

  ghost predicate Plain(t: Tree) {
    [] in t ==> !t[[]].Other?
  }

  /** An installed tree the walk accepts and this package may replace. */
  ghost predicate Replaceable(formats: Formats, package: Package, t: Tree) {
    Fits(package, Recognized, t) && Older(formats, t, package)
  }

  ghost predicate Exact(package: Package, t: Tree) {
    Unambiguous(package) && Fits(package, Recognized, t) && t == PackageTree(package)
  }

  /** The states that `reconcile` settles. */
  ghost predicate Recoverable(formats: Formats, package: Package, s: Slots) {
    && Plain(s.active) && Plain(s.staging)
    && (s.backup == NOTHING || Replaceable(formats, package, s.backup))
    && match JournalAt(formats, s.journal)
       case NoJournal => s.staging == NOTHING || Fits(package, CurrentPartial, s.staging)
       case Unreadable => false
       case Written(journal) =>
         && journal.target == package.version
         && match journal.operation
            case Install =>
              && s.backup == NOTHING
              && (if s.active == NOTHING
                  then Fits(package, CurrentPartial, s.staging)
                  else s.staging == NOTHING && Exact(package, s.active))
            case Update =>
              if s.active == NOTHING
              then s.backup != NOTHING && Fits(package, CurrentPartial, s.staging)
              else if s.staging != NOTHING
              then Fits(package, CurrentPartial, s.staging)
              else s.backup != NOTHING && Exact(package, s.active)
  }

  /** The one way `reconcile` may refuse after having changed something: the
      backup is restored before the staged tree turns out not to be removable. */
  ghost predicate RefusedLate(formats: Formats, package: Package, s: Slots) {
    && JournalAt(formats, s.journal).Written?
    && JournalAt(formats, s.journal).journal.operation == Update
    && s.active == NOTHING && s.staging != NOTHING && s.backup != NOTHING
    && !Fits(package, CurrentPartial, s.staging)
  }

  /** A package whose staged copy passes its own inspection. */
  ghost predicate Deployable(formats: Formats, package: Package) {
    && ValidPackage(formats, package)
    && Unambiguous(package)
    && |FileMap(package.files)| + |ExpectedDirectories(package.files)| <= MAX_ENTRIES
    && (forall i, n :: 0 <= i < |package.files| && 0 <= n < |package.files[i].path| ==>
      |package.files[i].path[n]| <= 128)
  }

  /** A staged copy, perhaps unfinished, perhaps damaged in transit. */
  ghost predicate Draft(package: Package, t: Tree) {
    forall q :: q in t ==>
      match t[q]
      case Directory(_) => q == [] || q in ExpectedDirectories(package.files)
      case File(_, mode) => q in FileMap(package.files) && mode == FILE_MODE
      case Other => false
  }

  /** Directory modes were set and no upload grew past the limits. */
  ghost predicate Undamaged(t: Tree) {
    && (forall q :: q in t && t[q].Directory? ==> t[q].mode == DIRECTORY_MODE)
    && (forall q :: q in t && t[q].File? ==> |t[q].bytes| <= MAX_FILE_SIZE)
    && SumSizes(Contents(t)) <= MAX_TOTAL_SIZE
  }

  ghost predicate Remnant(formats: Formats, package: Package, t: Tree) {
    t == NOTHING || (Fits(package, Recognized, t) && (MANIFEST in t ==> Older(formats, t, package)))
  }

  /** Every state an interrupted deployment of `package` can leave. */
  ghost predicate Residue(formats: Formats, package: Package, l: Ledger, s: Slots) {
    && l.incoming == PackageTree(package)
    && (l.base == NOTHING || Replaceable(formats, package, l.base) || l.base == l.incoming)
    && Remnant(formats, package, s.backup)
    && Draft(package, s.staging) && Rooted(s.staging)
    && match JournalAt(formats, s.journal)
       case NoJournal => s.active == l.base
       case Unreadable => s.active == l.base
       case Written(journal) =>
         && journal.target == package.version
         && match journal.operation
            case Install =>
              l.base == NOTHING && (s.active == NOTHING || (s.active == l.incoming && s.staging == NOTHING))
            case Update =>
              && Replaceable(formats, package, l.base)
              && (|| s.active == l.base
                  || (s.active == NOTHING && s.backup == l.base && s.staging == l.incoming)
                  || (s.active == l.incoming && s.staging == NOTHING && s.backup == l.base))
  }

  /** The residues that need an operator. */
  ghost predicate Stuck(formats: Formats, s: Slots, incoming: Tree) {
    || JournalAt(formats, s.journal).Unreadable?
    || !Undamaged(s.staging)
    || (s.backup != NOTHING && MANIFEST !in s.backup)
    || (JournalAt(formats, s.journal).Written? && s.staging == NOTHING && s.active != incoming)
    || (JournalAt(formats, s.journal).Written? && s.backup != NOTHING
        && JournalAt(formats, s.journal).journal.operation == Install)
  }

  lemma DeployableNames(formats: Formats, package: Package, q: Path)
    requires Deployable(formats, package)
    requires q in FileMap(package.files) || q in ExpectedDirectories(package.files)
    ensures 1 <= |q| <= MAX_DEPTH && ValidEntryName(Last(q))
    ensures q in FileMap(package.files) ==> |FileMap(package.files)[q]| <= MAX_FILE_SIZE
  {
    var files := package.files;
    FileMapHolds(files);
    if q in FileMap(files) {
      var i :| 0 <= i < |files| && files[i].path == q;
      assert ValidFile(files[i]);
      assert |files[i].path[|q| - 1]| <= 128;
    } else {
      DirectoryOf(files, q);
      var i :| 0 <= i < |files| && 0 < |q| < |files[i].path| && q <= files[i].path;
      assert ValidFile(files[i]);
      assert q[|q| - 1] == files[i].path[|q| - 1];
      assert |files[i].path[|q| - 1]| <= 128;
    }
  }

  /** An undamaged draft is a tree that the walk accepts for removal. */
  lemma DraftFits(formats: Formats, package: Package, t: Tree)
    requires Deployable(formats, package) && Draft(package, t) && Rooted(t) && t != NOTHING
    ensures Fits(package, CurrentPartial, t) <==> Undamaged(t)
  {
    var names := {[]} + ExpectedDirectories(package.files) + FileMap(package.files).Keys;
    assert t.Keys <= names;
    SubsetCardinality(t.Keys, names);
    assert |t| == |t.Keys|;
    forall q | q in t && q != []
      ensures Undamaged(t) ==> Allowed(package, CurrentPartial, q, t[q])
    {
      DeployableNames(formats, package, q);
    }
    if Fits(package, CurrentPartial, t) {
      FittingIsUndamaged(package, t);
    }
    if Undamaged(t) {
      assert t[[]].Directory? by {
        if t[[]].File? {
          DeployableNames(formats, package, []);
        }
      }
    }
  }

  lemma FittingIsUndamaged(package: Package, t: Tree)
    requires Fits(package, CurrentPartial, t)
    ensures Undamaged(t)
  {
    hide Text, ValidEntryName;
    forall q | q in t
      ensures t[q].Directory? ==> t[q].mode == DIRECTORY_MODE
      ensures t[q].File? ==> |t[q].bytes| <= MAX_FILE_SIZE
    {
      assert q != [] ==> Allowed(package, CurrentPartial, q, t[q]);
    }
  }

  /** A complete copy of a deployable package passes every policy of the walk. */
  lemma CopyFits(formats: Formats, package: Package, policy: TreePolicy)
    requires Deployable(formats, package)
    ensures Fits(package, policy, PackageTree(package))
    ensures Exact(package, PackageTree(package))
  {
    var t := PackageTree(package);
    NoRootFile(formats, package);
    PackageContents(package);
    PackageSize(package);
    forall q | q in t && q != []
      ensures Allowed(package, policy, q, t[q])
      ensures Allowed(package, Recognized, q, t[q])
    {
      DeployableNames(formats, package, q);
    }
  }

  lemma NoRootFile(formats: Formats, package: Package)
    requires ValidPackage(formats, package)
    ensures [] !in FileMap(package.files) && [] !in ExpectedDirectories(package.files)
  {
    FileMapHolds(package.files);
    DirectoryOf(package.files, []);
    assert forall i :: 0 <= i < |package.files| ==> ValidFile(package.files[i]);
  }

  lemma Separate(package: Package)
    requires Unambiguous(package)
    ensures ExpectedDirectories(package.files) !! FileMap(package.files).Keys
  {
  }

  lemma PackageSize(package: Package)
    requires Unambiguous(package) && [] !in FileMap(package.files) && [] !in ExpectedDirectories(package.files)
    ensures |PackageTree(package)| == 1 + |FileMap(package.files)| + |ExpectedDirectories(package.files)|
  {
    hide FileMap, ExpectedDirectories, Unambiguous;
    var below := ExpectedDirectories(package.files) + FileMap(package.files).Keys;
    assert ExpectedDirectories(package.files) !! FileMap(package.files).Keys by {
      Separate(package);
    }
    assert |below| == |ExpectedDirectories(package.files)| + |FileMap(package.files).Keys|;
    assert PackageTree(package).Keys == {[]} + below;
    assert |PackageTree(package)| == |PackageTree(package).Keys|;
  }

  /** `Deployable` is exactly what staging needs: the limits that the build-time
      validation leaves open are the number of entries, the length of a single
      name, and a path used both as a file and as a directory. */
  lemma DeployableExactly(formats: Formats, package: Package)
    requires ValidPackage(formats, package)
    ensures Deployable(formats, package) <==>
      Unambiguous(package) && Fits(package, CurrentExact, PackageTree(package))
  {
    if Deployable(formats, package) {
      CopyFits(formats, package, CurrentExact);
    } else if Unambiguous(package) && Fits(package, CurrentExact, PackageTree(package)) {
      NoRootFile(formats, package);
      PackageSize(package);
      forall i, n | 0 <= i < |package.files| && 0 <= n < |package.files[i].path|
        ensures |package.files[i].path[n]| <= 128
      {
        FittingNames(package, i, n);
      }
    }
  }

  /** A path used as a file and as a directory passes the validation. */
  function ClashingPackage(manifest: Bytes, version: string): Package {
    Package([EmbeddedFile(MANIFEST, manifest), EmbeddedFile(["a"], [0]), EmbeddedFile(["a", "b"], [0])], version)
  }

  /** So a valid package need not be deployable: `Stage` never succeeds on this
      one, whatever its manifest. */
  lemma ValidYetNotDeployable(formats: Formats, manifest: Bytes, version: string)
    requires formats.manifest(manifest) == Some(Manifest(DOMAIN, version)) && 0 < |manifest| <= MAX_FILE_SIZE
    ensures ValidPackage(formats, ClashingPackage(manifest, version))
    ensures !Deployable(formats, ClashingPackage(manifest, version))
  {
    hide FileMap, ExpectedDirectories, SumSizes, ValidFile;
    var files := ClashingPackage(manifest, version).files;
    ClashingFiles(manifest, version);
    FileMapHolds(files);
    assert files[0].path in FileMap(files) && files[1].path in FileMap(files);
    ClashingSizes(files);
    DirectoryOf(files, ["a"]);
    assert files[2].path[..1] == ["a"] && ["a"] <= files[2].path;
  }

  lemma ClashingFiles(manifest: Bytes, version: string)
    requires 0 < |manifest| <= MAX_FILE_SIZE
    ensures
      var files := ClashingPackage(manifest, version).files;
      DistinctPaths(files) && forall i :: 0 <= i < |files| ==> ValidFile(files[i])
  {
    assert PlainName("a") && PlainName("b") && PlainName("manifest.json");
    assert Parent(["a", "b"]) == ["a"];
  }

  lemma ClashingSizes(files: seq<EmbeddedFile>)
    requires |files| == 3 && DistinctPaths(files)
    ensures SumSizes(FileMap(files)) == |files[0].bytes| + |files[1].bytes| + |files[2].bytes|
  {
    hide SumSizes, FileMap;
    OneMoreFile(files, 0);
    OneMoreFile(files, 1);
    OneMoreFile(files, 2);
    assert files[..0] == [] && files[..3] == files;
    NoFilesNoSize();
  }

  lemma NoFilesNoSize()
    ensures SumSizes(FileMap([])) == 0
  {
  }

  lemma FittingNames(package: Package, i: nat, n: nat)
    requires DistinctPaths(package.files) && Fits(package, CurrentExact, PackageTree(package))
    requires i < |package.files| && n < |package.files[i].path|
    ensures |package.files[i].path[n]| <= 128
  {
    hide Text;
    var path := package.files[i].path;
    var q := path[..n + 1];
    FileMapHolds(package.files);
    DirectoryOf(package.files, q);
    assert n + 1 == |path| ==> q == path;
    assert q in PackageTree(package);
    assert Allowed(package, CurrentExact, q, PackageTree(package)[q]);
    assert Last(q) == path[n];
  }

  /** An interrupted deployment is recoverable unless it is stuck. */
  lemma ResidueVerdict(formats: Formats, package: Package, l: Ledger, s: Slots)
    requires Deployable(formats, package) && Residue(formats, package, l, s)
    requires formats.rank(package.version).Some?
    ensures Recoverable(formats, package, s) <==> !Stuck(formats, s, l.incoming)
  {
    hide JournalAt, ValidPackage, Fits, Draft, Undamaged, Exact, Replaceable, Remnant, Plain, Deployable, Rooted,
      PackageTree, VersionOf;
    ResidueFacts(formats, package, l, s);
  }

  lemma ResidueFacts(formats: Formats, package: Package, l: Ledger, s: Slots)
    requires Deployable(formats, package) && Residue(formats, package, l, s)
    requires formats.rank(package.version).Some?
    ensures Plain(NOTHING) && Plain(s.staging) && (s.active == l.base || s.active == l.incoming || s.active == NOTHING)
    ensures Undamaged(s.staging) <==> s.staging == NOTHING || Fits(package, CurrentPartial, s.staging)
    ensures Fits(package, CurrentPartial, s.staging) ==> s.staging != NOTHING
    ensures Replaceable(formats, package, s.backup) <==> s.backup != NOTHING && MANIFEST in s.backup
    ensures l.incoming != NOTHING && Plain(l.incoming) && Exact(package, l.incoming)
      && !Replaceable(formats, package, l.incoming)
    ensures Replaceable(formats, package, l.base) ==>
      l.base != NOTHING && Plain(l.base) && MANIFEST in l.base && !Exact(package, l.base)
  {
    assert ValidPackage(formats, package);
    hide JournalAt, ValidPackage, Fits, Draft, Undamaged, Exact, Replaceable, Remnant, Plain, Deployable, Rooted,
      PackageTree, VersionOf;
    CopyFits(formats, package, CurrentPartial);
    StagingVerdict(formats, package, s.staging);
    BackupVerdict(formats, package, s.backup);
    IncomingFacts(formats, package);
    if Replaceable(formats, package, l.base) {
      ReplaceableFacts(formats, package, l.base);
    }
    PlainNothing();
  }

  lemma PlainNothing()
    ensures Plain(NOTHING)
  {
  }

  lemma StagingVerdict(formats: Formats, package: Package, t: Tree)
    requires Deployable(formats, package) && Draft(package, t) && Rooted(t)
    ensures Plain(t)
    ensures Undamaged(t) <==> t == NOTHING || Fits(package, CurrentPartial, t)
    ensures Fits(package, CurrentPartial, t) ==> t != NOTHING
  {
    if t == NOTHING {
      assert Contents(NOTHING) == map[];
    } else {
      DraftFits(formats, package, t);
    }
  }

  lemma BackupVerdict(formats: Formats, package: Package, t: Tree)
    requires Remnant(formats, package, t)
    ensures Replaceable(formats, package, t) <==> t != NOTHING && MANIFEST in t
  {
    NothingDoesNotFit(package, Recognized);
  }

  lemma IncomingFacts(formats: Formats, package: Package)
    requires Deployable(formats, package) && formats.rank(package.version).Some?
    ensures PackageTree(package) != NOTHING && Plain(PackageTree(package))
    ensures !Replaceable(formats, package, PackageTree(package))
  {
    PackageVersion(formats, package);
    CopyFits(formats, package, Recognized);
  }

  lemma ReplaceableFacts(formats: Formats, package: Package, t: Tree)
    requires Replaceable(formats, package, t)
    ensures t != NOTHING && Plain(t) && MANIFEST in t
    ensures Remnant(formats, package, t)
    ensures formats.rank(package.version).Some? && ValidPackage(formats, package) ==> !Exact(package, t)
  {
    if ValidPackage(formats, package) {
      PackageVersion(formats, package);
    }
  }

  /** Even a server that needs an operator has a package in active if one was
      committed: that one or its complete successor. */
  lemma StuckKeepsActive(formats: Formats, package: Package, l: Ledger, s: Slots)
    requires ValidPackage(formats, package) && Residue(formats, package, l, s)
    requires Stuck(formats, s, l.incoming) && l.base != NOTHING
    ensures s.active in {l.base, l.incoming}
  {
    hide Fits, Older, Undamaged, Draft, Rooted, PackageTree, VersionOf, ValidPackage;
    IncomingIsUndamaged(formats, package);
    if Replaceable(formats, package, l.base) {
      ReplaceableFacts(formats, package, l.base);
    }
  }

  lemma IncomingIsUndamaged(formats: Formats, package: Package)
    requires ValidPackage(formats, package)
    ensures Undamaged(PackageTree(package)) && PackageTree(package) != NOTHING
  {
    hide FileMap, ExpectedDirectories;
    NoRootFile(formats, package);
    SizesAreValid(formats, package);
    var t := PackageTree(package);
    assert [] in t;
    assert Contents(t) == FileMap(package.files);
    hide PackageTree, Contents;
    assert forall q :: q in t && t[q].File? ==> q in FileMap(package.files) && t[q].bytes == FileMap(package.files)[q];
  }

  lemma SizesAreValid(formats: Formats, package: Package)
    requires ValidPackage(formats, package)
    ensures forall q :: q in FileMap(package.files) ==> |FileMap(package.files)[q]| <= MAX_FILE_SIZE
  {
    hide FileMap, ValidRelativePath;
    var files := package.files;
    FileMapHolds(files);
    forall q | q in FileMap(files)
      ensures |FileMap(files)[q]| <= MAX_FILE_SIZE
    {
      var i :| 0 <= i < |files| && files[i].path == q;
      assert ValidFile(files[i]);
    }
  }

  /** The gap in `rollback` and `reconcile`: once staging is removed and until
      the journal is, the committed tree is in place, but a restart refuses. */
  lemma GapIsRefused(formats: Formats, package: Package, l: Ledger, s: Slots)
    requires Deployable(formats, package) && formats.rank(package.version).Some?
    requires Residue(formats, package, l, s) && JournalAt(formats, s.journal).Written?
    requires s.active == l.base && s.active != l.incoming
    ensures var gap := s.(staging := NOTHING);
      && Residue(formats, package, l, gap) && Safe(formats, l, gap)
      && Stuck(formats, gap, l.incoming) && !Recoverable(formats, package, gap)
  {
    hide Fits, Older, Undamaged, Exact, Replaceable, Remnant, Plain, PackageTree, VersionOf, Recoverable;
    var gap := s.(staging := NOTHING);
    assert Draft(package, NOTHING) && Rooted(NOTHING);
    ResidueVerdict(formats, package, l, gap);
    ResidueIsSafe(formats, package, l, gap);
  }

  lemma ResidueIsSafe(formats: Formats, package: Package, l: Ledger, s: Slots)
    requires ValidPackage(formats, package) && Residue(formats, package, l, s)
    ensures Safe(formats, l, s)
  {
    PackageVersion(formats, package);
  }
}
