/** Runs that lead an ordinary server into the two corner cases of the deployer,
    and one server and package on which they take place. */
module Witnesses {
  import opened Basics
  import opened RemoteFiles
  import opened Trees
  import opened Packages
  import opened Inspection
  import opened Removal
  import opened Recovery
  import opened Layout
  import opened Transaction
  import opened Deployment

  /** A server in order, with an older package that this one may replace. */
  ghost predicate Updatable(e: Files, paths: Paths, formats: Formats, package: Package, base: Tree) {
    && Closed(e) && Ready(e, paths) && formats.Valid()
    && Deployable(formats, package) && Journalable(formats, package)
    && base != NOTHING && Cleared(formats, package, base, SlotsOf(e, paths))
  }

  method StageAndJournal(fs: Remote, paths: Paths, formats: Formats, package: Package, ghost base: Tree)
    returns (r: Result<()>)
    requires fs.Valid() && fs.reliable && fs.reachable && Updatable(fs.entries, paths, formats, package, base)
    modifies fs`entries, fs`reachable
    ensures r.Ok? && fs.Valid() && fs.reachable && Ready(fs.entries, paths)
    ensures Staged(formats, package, Ledger(base, PackageTree(package)), SlotsOf(fs.entries, paths), Update)
    ensures SlotsOf(fs.entries, paths).backup == SlotsOf(old(fs.entries), paths).backup
  {
    hide Fits, Older, Draft, Rooted, PackageTree, SlotsOf, Ready, Deployable, ValidPackage, PartOf, Residue;
    ghost var l := Ledger(base, PackageTree(package));
    ghost var s0 := SlotsOf(fs.entries, paths);
    DeployableIsValid(formats, package);
    var staged := Stage(fs, paths, formats, package);
    ghost var s1 := SlotsOf(fs.entries, paths);
    SlotsRooted(fs.entries, paths);
    ClearedIsResidue(formats, package, base, s0, s1.staging);
    r := WriteJournal(fs, paths, formats, Journal(1, Update, package.version));
    JournalIsResidue(formats, package, l, s1, SlotsOf(fs.entries, paths).journal, Update);
  }

  /** The second rename of an update takes effect and its answer is lost: the
      version in active goes up, and back. */
  method SlippedUpdate(fs: Remote, paths: Paths, formats: Formats, package: Package, ghost base: Tree)
    returns (r: Result<()>, ghost between: Tree)
    requires fs.Valid() && fs.reliable && fs.reachable && Updatable(fs.entries, paths, formats, package, base)
    modifies fs`entries, fs`reachable
    ensures r.Ok? && between == PackageTree(package) && SlotsOf(fs.entries, paths).active == base
    ensures !Rising(formats, [base, between, SlotsOf(fs.entries, paths).active])
  {
    hide Fits, Older, Draft, Rooted, PackageTree, SlotsOf, Ready, Deployable, ValidPackage, PartOf, Residue, Rising,
      Replaceable, Newer;
    ghost var l := Ledger(base, PackageTree(package));
    DeployableIsValid(formats, package);
    r := StageAndJournal(fs, paths, formats, package, base);
    r := MakeRoom(fs, paths, formats, package, Update, l);
    r, between := SlippedRename(fs, paths, formats, package, l);
  }

  /** A deployment breaks off before its renames; the next one, recovering,
      discards staging and breaks off too. The old package is in place, and the
      one after that refuses. */
  method GapIsLeft(fs: Remote, paths: Paths, formats: Formats, package: Package, ghost base: Tree)
    returns (r: Result<()>)
    requires fs.Valid() && fs.reliable && fs.reachable && Updatable(fs.entries, paths, formats, package, base)
    modifies fs
    ensures r.Err? && fs.reliable
    ensures
      var s, l := SlotsOf(fs.entries, paths), Ledger(base, PackageTree(package));
      && s.active == base && s.staging == NOTHING && Journaled(formats, package, s, Update)
      && Safe(formats, l, s) && Stuck(formats, s, l.incoming) && !Recoverable(formats, package, s)
  {
    hide Fits, Older, Draft, Rooted, PackageTree, SlotsOf, Ready, Deployable, ValidPackage, PartOf, Residue, Plain,
      Replaceable, Safe, Stuck, Recoverable, Exact, Newer;
    Ranked(formats, package, base);
    ghost var l := Ledger(base, PackageTree(package));
    DeployableIsValid(formats, package);
    r := StageAndJournal(fs, paths, formats, package, base);
    fs.Disconnect();
    fs.Connect(true);
    ghost var s := SlotsOf(fs.entries, paths);
    IncomingUndamaged(formats, package);
    IncomingIsThere(package);
    BaseDiffers(formats, package, base);
    ResidueIsSafe(formats, package, l, s);
    GapIsRefused(formats, package, l, s);
    r := DiscardStaging(fs, paths, formats, package, l);
    fs.Disconnect();
    r := CloseJournal(fs, paths, formats, package, l);
    fs.Connect(true);
    assert SlotsOf(fs.entries, paths) == s.(staging := NOTHING);
    r := Reconcile(fs, paths, formats, package, l);
  }

  lemma Ranked(formats: Formats, package: Package, base: Tree)
    requires Replaceable(formats, package, base)
    ensures formats.rank(package.version).Some?
  {
  }

  // ---- one server ----

  /** A journal as text: its fields as numbers, each so many ones and a two, and
      a zero at the end. */
  function Spelled(numbers: seq<nat>): Bytes {
    if numbers == [] then [0] else Ones(numbers[0]) + [2] + Spelled(numbers[1..])
  }

  function Ones(n: nat): Bytes {
    seq(n, _ => 1)
  }

  function Numbers(journal: Journal): seq<nat> {
    [journal.schema, if journal.operation == Install then 0 else 1]
    + seq(|journal.target|, i requires 0 <= i < |journal.target| => journal.target[i] as nat)
  }

  lemma NumbersDiffer(j: Journal, k: Journal)
    requires Numbers(j) == Numbers(k)
    ensures j == k
  {
    assert |j.target| == |k.target|;
    forall i | 0 <= i < |j.target|
      ensures j.target[i] == k.target[i]
    {
      assert Numbers(j)[i + 2] == Numbers(k)[i + 2];
    }
    assert Numbers(j)[0] == Numbers(k)[0] && Numbers(j)[1] == Numbers(k)[1];
  }

  /** No spelling is the beginning of another. */
  lemma {:induction false} SpelledApart(a: seq<nat>, b: seq<nat>)
    requires Spelled(a) <= Spelled(b)
    ensures a == b
  {
    var x, y := Spelled(a), Spelled(b);
    if a == [] || b == [] {
      assert x[0] == y[0];
    } else {
      assert x[a[0]] == 2 && y[b[0]] == 2;
      assert forall i :: 0 <= i < a[0] ==> x[i] == 1;
      assert forall i :: 0 <= i < b[0] ==> y[i] == 1;
      assert forall i :: 0 <= i < |x| ==> x[i] == y[i];
      assert a[0] == b[0];
      assert x[a[0] + 1..] == Spelled(a[1..]) && y[b[0] + 1..] == Spelled(b[1..]);
      SpelledApart(a[1..], b[1..]);
    }
  }

  ghost function Unsealed(b: Bytes): Option<Journal> {
    if j :| Spelled(Numbers(j)) == b then Some(j) else None
  }

  ghost function ExampleFormats(): Formats {
    Formats(
      b => if b == [1] then Some(Manifest(DOMAIN, "1")) else if b == [2] then Some(Manifest(DOMAIN, "2")) else None,
      text => if text == "1" then Some(1.0) else if text == "2" then Some(2.0) else None,
      j => Spelled(Numbers(j)),
      b => Unsealed(b),
      b => b)
  }

  lemma ExampleFormatsAreValid()
    ensures ExampleFormats().Valid()
  {
    hide Spelled, Numbers;
    var formats := ExampleFormats();
    forall j
      ensures formats.unseal(formats.seal(j)) == Some(j)
    {
      OneSpelling(j, Spelled(Numbers(j)));
    }
    forall j, b | b < formats.seal(j)
      ensures formats.unseal(b).None?
    {
      OneSpelling(j, b);
    }
  }

  lemma OneSpelling(j: Journal, b: Bytes)
    requires b <= Spelled(Numbers(j))
    ensures Unsealed(b) == if b == Spelled(Numbers(j)) then Some(j) else None
  {
    hide Spelled, Numbers;
    assert Spelled(Numbers(j)) == b ==> Unsealed(b).Some?;
    if Unsealed(b).Some? {
      var k := Unsealed(b).value;
      assert Spelled(Numbers(k)) == b;
      SpelledApart(Numbers(k), Numbers(j));
      NumbersDiffer(k, j);
    }
  }

  function ExamplePackage(): Package {
    Package([EmbeddedFile(MANIFEST, [2])], "2")
  }

  function ExampleBase(): Tree {
    map[[] := Directory(DIRECTORY_MODE), MANIFEST := InstalledFile([1])]
  }

  /** The configuration directory is the root. */
  function ExampleServer(): Files {
    var paths := Paths([]);
    Filled(paths.Components(), paths.Transaction(), paths.Active(), paths.Active() + MANIFEST)
  }

  function Filled(components: Path, transaction: Path, active: Path, manifest: Path): Files {
    var directory := Directory(DIRECTORY_MODE);
    map[[] := directory, components := directory, transaction := directory, active := directory,
        manifest := InstalledFile([1])]
  }

  lemma ExamplePackageIsDeployable()
    ensures Deployable(ExampleFormats(), ExamplePackage())
    ensures FileMap(ExamplePackage().files) == map[MANIFEST := [2]]
    ensures ExpectedDirectories(ExamplePackage().files) == {}
  {
    var package := ExamplePackage();
    FileMapHolds(package.files);
    assert FileMap(package.files) == map[MANIFEST := [2]];
    SumWith(map[], MANIFEST, [2]);
    assert ValidFile(package.files[0]);
  }

  lemma ExampleBaseIsReplaceable()
    ensures Replaceable(ExampleFormats(), ExamplePackage(), ExampleBase())
  {
    var t := ExampleBase();
    assert Contents(t) == map[MANIFEST := [1]];
    SumWith(map[], MANIFEST, [1]);
    assert Allowed(ExamplePackage(), Recognized, MANIFEST, t[MANIFEST]);
  }

  lemma ExampleIsJournalable()
    ensures Journalable(ExampleFormats(), ExamplePackage())
  {
    forall operation
      ensures |Spelled(Numbers(Journal(1, operation, "2")))| <= MAX_JOURNAL_SIZE
    {
      SpelledShort(Numbers(Journal(1, operation, "2")));
    }
  }

  lemma SpelledShort(numbers: seq<nat>)
    requires |numbers| == 3 && numbers[0] <= 1 && numbers[1] <= 1 && numbers[2] <= 100
    ensures |Spelled(numbers)| <= 200
  {
    assert Spelled(numbers[1..][1..]) == Ones(numbers[2]) + [2] + Spelled([]);
  }

  /** The runs above take place here. */
  lemma ExampleIsUpdatable()
    ensures Updatable(ExampleServer(), Paths([]), ExampleFormats(), ExamplePackage(), ExampleBase())
  {
    ExampleFormatsAreValid();
    ExamplePackageIsDeployable();
    ExampleBaseIsReplaceable();
    ExampleIsJournalable();
    ExampleSlots();
    hide SlotsOf, ExampleServer, Journalable, Deployable, Replaceable;
  }

  lemma ExampleSlots()
    ensures SlotsOf(ExampleServer(), Paths([])) == Slots(ExampleBase(), NOTHING, NOTHING, NOTHING)
    ensures Closed(ExampleServer()) && Ready(ExampleServer(), Paths([]))
  {
    var e, paths := ExampleServer(), Paths([]);
    ExampleClosed();
    ExampleActive();
    hide ExampleServer, ExampleBase, Closed, Sub;
    AbsentIsNothing(e, paths.Staging());
    AbsentIsNothing(e, paths.Backup());
    AbsentIsNothing(e, paths.Journal());
  }

  lemma ExampleClosed()
    ensures
      var e, paths := ExampleServer(), Paths([]);
      && Closed(e) && Ready(e, paths)
      && paths.Staging() !in e && paths.Backup() !in e && paths.Journal() !in e
  {
    var paths := Paths([]);
    HoldersDiffer(paths);
    HoldersOutside(paths, ActiveSlot);
    RootsApart(paths, ActiveSlot, StagingSlot);
    RootsApart(paths, ActiveSlot, BackupSlot);
    RootsApart(paths, ActiveSlot, JournalSlot);
    assert Parent(paths.Active() + MANIFEST) == paths.Active();
    FilledIsClosed(paths.Components(), paths.Transaction(), paths.Active(), paths.Active() + MANIFEST);
  }

  lemma FilledIsClosed(components: Path, transaction: Path, active: Path, manifest: Path)
    requires |components| == |transaction| == 1 && components != transaction
    requires active != [] && Parent(active) == components && manifest != [] && Parent(manifest) == active
    ensures
      var e := Filled(components, transaction, active, manifest);
      && Closed(e) && IsDirectory(e, components) && IsDirectory(e, transaction)
      && forall q :: |q| == 2 && q != active ==> q !in e
  {
    assert Parent(components) == Parent(transaction) == [];
  }

  lemma ExampleActive()
    ensures Sub(ExampleServer(), Paths([]).Active()) == ExampleBase()
  {
    var e, root, t := ExampleServer(), Paths([]).Active(), ExampleBase();
    forall q
      ensures q in t <==> root + q in e
      ensures q in t ==> t[q] == e[root + q]
    {
      assert root + [] == root;
      assert q == (root + q)[|root|..];
      assert MANIFEST == (root + MANIFEST)[|root|..];
    }
  }
}
