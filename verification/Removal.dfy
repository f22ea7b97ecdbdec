/** Checking a staged or installed tree against the package, and removing one. */
module Removal {
  import opened Basics
  import opened RemoteFiles
  import opened Trees
  import opened Packages
  import opened Inspection

  // ---- exact verification by counting ----

  /** Accepts a tree whose directories are the expected ones, that has as many
      files as the package and matches each of them by length and digest. */
  method VerifyExact(formats: Formats, package: Package, found: InspectedTree) returns (r: Result<()>)
    requires formats.Valid() && DistinctPaths(package.files)
    ensures r.Err? ==> r.error == VerificationFailed
    ensures r.Ok? <==> found == InspectedTree(FileMap(package.files), ExpectedDirectories(package.files))
  {
    FileMapHolds(package.files);
    var listed := ListDirectories(package.files);
    var expected := set q | q in listed;
    assert expected == ExpectedDirectories(package.files);
    if |found.files| != |package.files| || found.directories != expected {
      return Err(VerificationFailed);
    }
    for i := 0 to |package.files|
      invariant forall j :: 0 <= j < i ==>
        package.files[j].path in found.files && found.files[package.files[j].path] == package.files[j].bytes
    {
      var file := package.files[i];
      if file.path !in found.files {
        return Err(VerificationFailed);
      }
      var actual := found.files[file.path];
      if |actual| != |file.bytes| || formats.digest(actual) != formats.digest(file.bytes) {
        return Err(VerificationFailed);
      }
    }
    CountingIsExact(package.files, found.files);
    return Ok(());
  }

  /** Equal counts and a match for each listed file leave no room for another. */
  lemma CountingIsExact(files: seq<EmbeddedFile>, found: map<Path, Bytes>)
    requires DistinctPaths(files) && |found| == |files|
    requires forall i :: 0 <= i < |files| ==> files[i].path in found && found[files[i].path] == files[i].bytes
    ensures found == FileMap(files)
  {
    FileMapHolds(files);
    hide FileMap, DistinctPaths;
    var expected := FileMap(files);
    assert expected.Keys <= found.Keys;
    assert |expected.Keys| == |found.Keys|;
    FullSubset(expected.Keys, found.Keys);
  }

  /** No path of the package is both a file and a directory. */
  ghost predicate Unambiguous(package: Package) {
    FileMap(package.files).Keys !! ExpectedDirectories(package.files)
  }

  /** What passing both the walk and the exact check says about the server. */
  lemma ExactMeansPackage(package: Package, found: InspectedTree, t: Tree)
    requires Describes(found, t)
    ensures found == InspectedTree(FileMap(package.files), ExpectedDirectories(package.files)) ==>
      t == PackageTree(package) && Unambiguous(package)
    ensures t == PackageTree(package) && Unambiguous(package) && [] !in FileMap(package.files) ==>
      found == InspectedTree(FileMap(package.files), ExpectedDirectories(package.files))
  {
    if t == PackageTree(package) && Unambiguous(package) && [] !in FileMap(package.files) {
      DescribedContents(found, t);
      PackageContents(package);
    }
  }

  lemma PackageContents(package: Package)
    requires Unambiguous(package) && [] !in FileMap(package.files)
    ensures Contents(PackageTree(package)) == FileMap(package.files)
    ensures Directories(PackageTree(package)) == ExpectedDirectories(package.files)
  {
    var t := PackageTree(package);
    forall q
      ensures q in Contents(t) <==> q in FileMap(package.files)
      ensures q in Directories(t) <==> q in ExpectedDirectories(package.files)
    {
      DirectoryOf(package.files, q);
    }
  }

  // ---- removal ----

  ghost predicate SameOutside(e: Files, e': Files, root: Path) {
    forall p :: !(root <= p) ==> (p in e <==> p in e') && (p in e ==> e[p] == e'[p])
  }

  lemma SameOutsideSub(e: Files, e': Files, root: Path, other: Path)
    requires SameOutside(e, e', root) && Apart(root, other)
    ensures Sub(e', other) == Sub(e, other)
  {
    forall q
      ensures q in Sub(e, other) <==> q in Sub(e', other)
      ensures q in Sub(e, other) ==> Sub(e, other)[q] == Sub(e', other)[q]
    {
      BelowIsApart(other, q, root);
    }
  }

  /** Directories with the deepest first. */
  method DeepestFirst(directories: set<Path>) returns (q: seq<Path>)
    ensures forall d :: d in q <==> d in directories
    ensures forall i, j :: 0 <= i < j < |q| ==> q[i] != q[j] && |q[i]| >= |q[j]|
  {
    q := [];
    var rest := Ordered(directories);
    while rest != []
      invariant forall d :: d in directories <==> d in q || d in rest
      invariant forall i, j :: 0 <= i < j < |q| ==> q[i] != q[j] && |q[i]| >= |q[j]|
      invariant forall i, j :: 0 <= i < j < |rest| ==> rest[i] != rest[j]
      invariant forall i, j :: 0 <= i < |q| && 0 <= j < |rest| ==> q[i] != rest[j] && |q[i]| >= |rest[j]|
      decreases |rest|
    {
      var n := 0;
      for i := 1 to |rest|
        invariant 0 <= n < |rest|
        invariant forall j :: 0 <= j < i ==> |rest[j]| <= |rest[n]|
      {
        if |rest[i]| > |rest[n]| {
          n := i;
        }
      }
      ghost var former := rest;
      q := q + [rest[n]];
      rest := rest[..n] + rest[n + 1..];
      assert former == former[..n] + [former[n]] + former[n + 1..];
      forall i | 0 <= i < |rest|
        ensures rest[i] == former[if i < n then i else i + 1]
      {
      }
    }
  }

  /** `e` without some entries below `root`. */
  ghost predicate Stripped(e: Files, e': Files, root: Path, gone: set<Path>) {
    SameOutside(e, e', root) && Sub(e', root) == Sub(e, root) - gone
  }

  lemma StripOne(e: Files, e': Files, root: Path, gone: set<Path>, q: Path)
    requires Stripped(e, e', root, gone)
    ensures Stripped(e, e' - {root + q}, root, gone + {q})
  {
    SubAfterRemove(e', root, q);
    assert Sub(e, root) - gone - {q} == Sub(e, root) - (gone + {q});
    assert root <= root + q;
  }

  ghost function Taken(q: seq<Path>, n: nat): set<Path>
    requires n <= |q|
  {
    set p | p in q[..n]
  }

  lemma TakenNext(q: seq<Path>, n: nat)
    requires n < |q|
    ensures Taken(q, n + 1) == Taken(q, n) + {q[n]}
  {
    assert q[..n + 1] == q[..n] + [q[n]];
  }

  lemma TakenNextBeside(s: set<Path>, q: seq<Path>, n: nat)
    requires n < |q|
    ensures s + Taken(q, n) + {q[n]} == s + Taken(q, n + 1)
  {
    TakenNext(q, n);
  }

  lemma NotYetTaken(q: seq<Path>, n: nat, p: Path)
    requires n <= |q| && p in q && p !in Taken(q, n)
    ensures exists i :: n <= i < |q| && q[i] == p
  {
    assert q == q[..n] + q[n..];
    assert p in q[n..];
    var i :| 0 <= i < |q| - n && q[n..][i] == p;
    assert q[n + i] == p;
  }

  /** Once everything deeper is gone, a directory of the tree is empty. */
  lemma EmptyByNow(e: Files, e': Files, root: Path, found: InspectedTree, order: seq<Path>, n: nat)
    requires Closed(e) && Describes(found, Sub(e, root))
    requires forall d :: d in order <==> d in found.directories
    requires forall i, j :: 0 <= i < j < |order| ==> order[i] != order[j] && |order[i]| >= |order[j]|
    requires n <= |order| && Stripped(e, e', root, found.files.Keys + Taken(order, n))
    requires root != []
    ensures n < |order| ==> MayRemoveDirectory(e', root + order[n])
    ensures n == |order| ==> MayRemoveDirectory(e', root)
  {
    var t := Sub(e, root);
    var target := if n < |order| then order[n] else [];
    var left := Sub(e', root);
    assert target in left by {
      if n < |order| {
        assert order[n] in order;
        assert order[n] !in Taken(order, n);
      }
    }
    assert root + target in e' && e'[root + target] == left[target] == Directory(DIRECTORY_MODE);
    ChildNames(e', root + target);
    forall name
      ensures root + target + [name] !in e'
    {
      var child := target + [name];
      assert root + target + [name] == root + child;
      if child in left {
        assert child in order && child !in Taken(order, n);
        NotYetTaken(order, n, child);
        assert false;
      }
    }
    assert n == |order| ==> root + target == root;
  }

  /** The first half of a removal: the listed files. */
  method RemoveListedFiles(fs: Remote, root: Path, found: InspectedTree) returns (r: Result<()>)
    requires fs.Valid() && root != [] && Describes(found, Sub(fs.entries, root))
    modifies fs`entries, fs`reachable
    ensures r.Err? ==> Ordinary(r.error)
    ensures fs.Valid()
    ensures !old(fs.reachable) ==> !fs.reachable && fs.entries == old(fs.entries)
    ensures SameOutside(old(fs.entries), fs.entries, root) && PartOf(Sub(fs.entries, root), Sub(old(fs.entries), root))
    ensures r.Ok? ==> Stripped(old(fs.entries), fs.entries, root, found.files.Keys)
    ensures fs.reliable && old(fs.reachable) ==> r.Ok? && fs.reachable
  {
    hide Describes, Closed, Stripped, PartOf, SameOutside, Taken, InOrder, MayRemoveFile;
    ghost var e := fs.entries;
    Untouched(e, root);
    var files := Ordered(found.files.Keys);
    StrippingStarts(e, root, found, files);
    for i := 0 to |files|
      invariant fs.Valid()
      invariant !old(fs.reachable) ==> !fs.reachable && fs.entries == e
      invariant fs.reliable && old(fs.reachable) ==> fs.reachable
      invariant Stripped(e, fs.entries, root, Taken(files, i))
    {
      StripOne(e, fs.entries, root, Taken(files, i), files[i]);
      TakenNext(files, i);
      StillAFile(e, fs.entries, root, found, files, i);
      Stripping(e, fs.entries, root, Taken(files, i));
      Stripping(e, fs.entries - {root + files[i]}, root, Taken(files, i + 1));
      var removed :- fs.RemoveFile(root + files[i]);
    }
    AllTaken(files, found.files.Keys);
    Stripping(e, fs.entries, root, found.files.Keys);
    return Ok(());
  }

  /** The second half: the listed directories from the deepest up, and the
      root. */
  method RemoveListedDirectories(fs: Remote, root: Path, found: InspectedTree, ghost e: Files) returns (r: Result<()>)
    requires fs.Valid() && root != [] && Closed(e) && Describes(found, Sub(e, root))
    requires Stripped(e, fs.entries, root, found.files.Keys)
    modifies fs`entries, fs`reachable
    ensures r.Err? ==> Ordinary(r.error)
    ensures fs.Valid()
    ensures !old(fs.reachable) ==> r.Err? && !fs.reachable && fs.entries == old(fs.entries)
    ensures SameOutside(e, fs.entries, root) && PartOf(Sub(fs.entries, root), Sub(e, root))
    ensures r.Ok? ==> Sub(fs.entries, root) == NOTHING
    ensures fs.reliable && old(fs.reachable) ==> r.Ok? && fs.reachable
  {
    hide Describes, Closed, Stripped, PartOf, SameOutside, Taken, MayRemoveDirectory;
    Stripping(e, fs.entries, root, found.files.Keys);
    var order := DeepestFirst(found.directories);
    NoneTaken(order, found.files.Keys);
    for i := 0 to |order|
      invariant fs.Valid()
      invariant !old(fs.reachable) ==> !fs.reachable && fs.entries == old(fs.entries)
      invariant fs.reliable && old(fs.reachable) ==> fs.reachable
      invariant Stripped(e, fs.entries, root, found.files.Keys + Taken(order, i))
    {
      EmptyByNow(e, fs.entries, root, found, order, i);
      StripOne(e, fs.entries, root, found.files.Keys + Taken(order, i), order[i]);
      TakenNextBeside(found.files.Keys, order, i);
      Stripping(e, fs.entries, root, found.files.Keys + Taken(order, i));
      Stripping(e, fs.entries - {root + order[i]}, root, found.files.Keys + Taken(order, i + 1));
      var removed :- fs.RemoveDir(root + order[i]);
    }
    AllTaken(order, found.directories);
    EmptyByNow(e, fs.entries, root, found, order, |order|);
    ghost var gone := found.files.Keys + Taken(order, |order|);
    Stripping(e, fs.entries, root, gone);
    StripOne(e, fs.entries, root, gone, []);
    assert root + [] == root;
    Stripping(e, fs.entries - {root}, root, gone + {[]});
    AllGone(e, fs.entries - {root}, root, found);
    r := fs.RemoveDir(root);
  }

  /** The error with which a tree is refused. */
  ghost function Refusal(formats: Formats, package: Package, policy: TreePolicy, t: Tree): DeployError {
    if policy.Recognized? && Fits(package, policy, t) && Unranked(formats, package, t)
    then VerificationFailed else UnsafeState
  }

  /** Removes a tree that the walk accepts: files first, then directories from
      the deepest up, then the root. */
  method RemovePackageTree(fs: Remote, root: Path, policy: TreePolicy, package: Package, formats: Formats)
    returns (r: Result<()>)
    requires fs.Valid() && root != []
    modifies fs`entries, fs`reachable
    ensures r.Err? ==> Ordinary(r.error)
    ensures fs.Valid()
    ensures !old(fs.reachable) ==> r.Err? && !fs.reachable && fs.entries == old(fs.entries)
    ensures SameOutside(old(fs.entries), fs.entries, root)
    ensures PartOf(Sub(fs.entries, root), Sub(old(fs.entries), root))
    ensures r.Ok? ==> Sub(fs.entries, root) == NOTHING
    ensures fs.reliable && old(fs.reachable) ==>
      && fs.reachable
      && (r.Ok? <==>
            && Fits(package, policy, Sub(old(fs.entries), root))
            && (policy.Recognized? ==> Older(formats, Sub(old(fs.entries), root), package)))
      && (r.Err? ==> fs.entries == old(fs.entries))
      && (r.Err? ==> r.error == Refusal(formats, package, policy, Sub(old(fs.entries), root)))
  {
    hide Fits, Describes, Closed, Stripped, PartOf, SameOutside, Older, Unranked;
    ghost var e := fs.entries;
    ghost var t := Sub(e, root);
    Untouched(e, root);
    var inspected :- Inspect(fs, root, policy, package);
    if inspected.None? {
      NothingDoesNotFit(package, policy);
      return Err(UnsafeState);
    }
    var found := inspected.value;
    if policy.Recognized? {
      var fine := ValidateRecognizedVersion(formats, package, found, t);
      if fine.Err? {
        return fine;
      }
    }
    var stripped :- RemoveListedFiles(fs, root, found);
    r := RemoveListedDirectories(fs, root, found, e);
  }

  lemma Stripping(e: Files, e': Files, root: Path, gone: set<Path>)
    requires Stripped(e, e', root, gone)
    ensures SameOutside(e, e', root)
    ensures PartOf(Sub(e', root), Sub(e, root))
  {
  }

  lemma Untouched(e: Files, root: Path)
    ensures SameOutside(e, e, root)
    ensures PartOf(Sub(e, root), Sub(e, root))
  {
  }

  lemma StrippingStarts(e: Files, root: Path, found: InspectedTree, files: seq<Path>)
    ensures Stripped(e, e, root, Taken(files, 0))
  {
    assert Taken(files, 0) == {};
    assert Sub(e, root) - {} == Sub(e, root);
  }

  lemma AllTaken(q: seq<Path>, s: set<Path>)
    requires forall p :: p in q <==> p in s
    ensures Taken(q, |q|) == s
  {
    assert q[..|q|] == q;
  }

  lemma NoneTaken(q: seq<Path>, s: set<Path>)
    ensures s + Taken(q, 0) == s
  {
  }

  lemma StillAFile(e: Files, e': Files, root: Path, found: InspectedTree, files: seq<Path>, n: nat)
    requires Describes(found, Sub(e, root)) && InOrder(files) && n < |files|
    requires forall p :: p in files <==> p in found.files
    requires Stripped(e, e', root, Taken(files, n)) && root != []
    ensures MayRemoveFile(e', root + files[n])
  {
    assert files[n] in files;
    assert files[n] !in Taken(files, n);
    assert files[n] in Sub(e', root);
  }

  lemma AllGone(e: Files, e': Files, root: Path, found: InspectedTree)
    requires Describes(found, Sub(e, root))
    requires Stripped(e, e', root, found.files.Keys + found.directories + {[]})
    ensures Sub(e', root) == NOTHING
  {
  }

  lemma NothingDoesNotFit(package: Package, policy: TreePolicy)
    ensures !Fits(package, policy, NOTHING)
  {
  }

  /** The installed version is one, but the package's own is none. */
  ghost predicate Unranked(formats: Formats, package: Package, t: Tree) {
    VersionOf(formats, t).Some? && formats.rank(package.version).None?
  }

  /** The manifest check on a tree that the walk described. */
  method ValidateRecognizedVersion(formats: Formats, package: Package, found: InspectedTree, ghost t: Tree)
    returns (r: Result<()>)
    requires Describes(found, t)
    ensures r.Ok? <==> Older(formats, t, package)
    ensures r.Err? ==> r.error == if Unranked(formats, package, t) then VerificationFailed else UnsafeState
  {
    DescribedContents(found, t);
    if MANIFEST !in found.files {
      assert MANIFEST !in Contents(t);
      return Err(UnsafeState);
    }
    var installed := VersionOfManifest(formats, found.files[MANIFEST]);
    assert t[MANIFEST] == InstalledFile(found.files[MANIFEST]);
    if installed.None? {
      return Err(UnsafeState);
    }
    var target := formats.rank(package.version);
    if target.None? {
      return Err(VerificationFailed);
    }
    if installed.value >= target.value {
      return Err(UnsafeState);
    }
    return Ok(());
  }
}
