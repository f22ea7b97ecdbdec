/** The component package a deployer carries, and the formats it reads and
    writes through foreign code. */
module Packages {
  import opened Basics
  import opened RemoteFiles
  import opened TextOrder
  import opened Alphabets
  import opened Trees

  const DOMAIN := "smarthome_mcp"
  const MANIFEST: Path := ["manifest.json"]
  const MAX_TOTAL_SIZE := 4 * 1024 * 1024
  const MAX_DEPTH := 4
  const MAX_JOURNAL_SIZE := 512

  datatype EmbeddedFile = EmbeddedFile(path: Path, bytes: Bytes)

  /** The compiled-in file table and the version it was built as. */
  datatype Package = Package(files: seq<EmbeddedFile>, version: string)

  datatype Manifest = Manifest(domain: string, version: string)

  datatype Operation = Install | Update

  datatype Journal = Journal(schema: nat, operation: Operation, target: string)

  /** JSON, semantic versions and SHA-256 as functions the deployer is given.
      `rank` places a version text in the total order of its versions. */
  datatype Formats = Formats(
    manifest: Bytes -> Option<Manifest>,
    rank: string -> Option<real>,
    seal: Journal -> Bytes,
    unseal: Bytes -> Option<Journal>,
    digest: Bytes -> Bytes)
  {
    /** A journal reads back as itself, no cut-off journal reads at all, and
        no two contents share a digest. */
    ghost predicate Valid() {
      && (forall j :: unseal(seal(j)) == Some(j))
      && (forall j, b :: b < seal(j) ==> unseal(b).None?)
      && (forall a, b :: digest(a) == digest(b) ==> a == b)
    }
  }

  // ---- names and their order ----

  predicate NameCharacter(c: char) {
    'a' <= c <= 'z' || 'A' <= c <= 'Z' || '0' <= c <= '9' || c == '_' || c == '-' || c == '.'
  }

  predicate PlainName(name: string) {
    name != [] && name[0] != '.' && forall i :: 0 <= i < |name| ==> NameCharacter(name[i])
  }

  predicate ValidEntryName(name: string) {
    PlainName(name) && |name| <= 128
  }

  /** The text of a relative path. */
  function Text(path: Path): string {
    if path == [] then ""
    else if |path| == 1 then path[0]
    else Text(Parent(path)) + "/" + Last(path)
  }

  predicate ValidRelativePath(path: Path) {
    && 1 <= |path| <= MAX_DEPTH
    && |Text(path)| <= 255
    && forall i :: 0 <= i < |path| ==> PlainName(path[i])
  }

  const NAME_CHARACTERS := LOWER + UPPER + DIGITS + "_-."

  /** What may be the name of a file or directory. */
  ghost predicate GoodName(name: string) {
    name != "" && name[0] != '.' && forall c :: c in name ==> c in NAME_CHARACTERS
  }

  /** The names with slashes between them. */
  function Joined(path: Path): string {
    if path == [] then "" else if |path| == 1 then path[0] else path[0] + "/" + Joined(path[1..])
  }

  lemma {:induction false} TextIsJoined(path: Path)
    ensures Text(path) == Joined(path)
  {
    if |path| > 1 {
      TextIsJoined(Parent(path));
      TextIsJoined(path[1..]);
      JoinedLast(path);
    }
  }

  lemma {:induction false} JoinedLast(path: Path)
    requires |path| > 1
    ensures Joined(path) == Joined(Parent(path)) + "/" + Last(path)
  {
    if |path| > 2 {
      JoinedLast(path[1..]);
      assert Parent(path)[1..] == Parent(path[1..]);
      assert path[0] + "/" + (Joined(Parent(path[1..])) + "/" + Last(path)) ==
        path[0] + "/" + Joined(Parent(path[1..])) + "/" + Last(path);
    }
  }

  /** Paths are up to four names, and entries of a directory names of up to 128
      characters. */
  lemma PathsAreGoodNames(path: Path)
    ensures ValidRelativePath(path) <==>
      1 <= |path| <= 4 && |Joined(path)| <= 255 && forall name :: name in path ==> GoodName(name)
    ensures forall name :: ValidEntryName(name) <==> GoodName(name) && |name| <= 128
  {
    hide GoodName, PlainName, Text;
    TextIsJoined(path);
    forall name
      ensures PlainName(name) <==> GoodName(name)
    {
      PlainIsGood(name);
    }
    assert forall i :: 0 <= i < |path| ==> path[i] in path;
  }

  lemma PlainIsGood(name: string)
    ensures PlainName(name) <==> GoodName(name)
  {
    forall c
      ensures NameCharacter(c) <==> c in NAME_CHARACTERS
    {
      LettersAreRanges(c);
    }
    hide NameCharacter;
    assert forall i :: 0 <= i < |name| ==> name[i] in name;
  }

  /** A directory comes before everything inside it. */
  lemma {:induction false} DirectoryBeforeContents(path: Path, n: nat)
    requires 0 < n < |path|
    ensures Before(Text(path[..n]), Text(path))
    ensures Text(path[..n]) < Text(path)
  {
    assert Parent(path) == path[..|path| - 1];
    if n < |path| - 1 {
      DirectoryBeforeContents(Parent(path), n);
      assert Parent(path)[..n] == path[..n];
    }
    PrefixIsBefore(Text(path[..n]), Text(path));
  }

  ghost predicate InOrder(q: seq<Path>) {
    forall i, j :: 0 <= i < j < |q| ==> q[i] != q[j] && !Before(Text(q[j]), Text(q[i]))
  }

  predicate TextBefore(a: Path, b: Path) {
    Before(Text(a), Text(b))
  }

  lemma TextBeforeIsWeakOrder()
    ensures WeakOrder(TextBefore)
  {
    hide Text, Before;
    BeforeIsWeakOrder();
  }

  /** The elements of a set of paths in iteration order. */
  method Ordered(s: set<Path>) returns (q: seq<Path>)
    ensures forall p :: p in q <==> p in s
    ensures InOrder(q)
  {
    TextBeforeIsWeakOrder();
    q := OrderedBy(s, TextBefore);
    assert InOrderBy(q, TextBefore);
  }

  // ---- the tree a package stands for ----

  function FileMap(files: seq<EmbeddedFile>): map<Path, Bytes> {
    if files == [] then map[]
    else FileMap(files[..|files| - 1])[files[|files| - 1].path := files[|files| - 1].bytes]
  }

  ghost predicate DistinctPaths(files: seq<EmbeddedFile>) {
    forall i, j :: 0 <= i < j < |files| ==> files[i].path != files[j].path
  }

  /** The map holds every listed file, and nothing else. */
  lemma {:induction false} FileMapHolds(files: seq<EmbeddedFile>)
    requires DistinctPaths(files)
    ensures forall i :: 0 <= i < |files| ==>
      files[i].path in FileMap(files) && FileMap(files)[files[i].path] == files[i].bytes
    ensures forall p :: p in FileMap(files) ==> exists i :: 0 <= i < |files| && files[i].path == p
    ensures |FileMap(files)| == |files|
  {
    if files != [] {
      var front := files[..|files| - 1];
      var last := files[|files| - 1];
      FileMapHolds(front);
      forall i | 0 <= i < |files|
        ensures files[i].path in FileMap(files) && FileMap(files)[files[i].path] == files[i].bytes
      {
        if i < |front| {
          assert front[i] == files[i];
          assert files[i].path != last.path;
        }
      }
      forall p | p in FileMap(files)
        ensures exists i :: 0 <= i < |files| && files[i].path == p
      {
        if p == last.path {
          assert files[|files| - 1].path == p;
        } else {
          var i :| 0 <= i < |front| && front[i].path == p;
          assert files[i].path == p;
        }
      }
      assert last.path !in FileMap(front);
    }
  }

  ghost function ExpectedDirectories(files: seq<EmbeddedFile>): set<Path> {
    set i, n | 0 <= i < |files| && 0 < n < |files[i].path| :: files[i].path[..n]
  }

  lemma DirectoryOf(files: seq<EmbeddedFile>, q: Path)
    ensures q in ExpectedDirectories(files) <==>
      exists i :: 0 <= i < |files| && 0 < |q| < |files[i].path| && q <= files[i].path
  {
    if q in ExpectedDirectories(files) {
      var i, n :| 0 <= i < |files| && 0 < n < |files[i].path| && files[i].path[..n] == q;
      assert 0 < |q| < |files[i].path| && q <= files[i].path;
    }
    if i :| 0 <= i < |files| && 0 < |q| < |files[i].path| && q <= files[i].path {
      assert files[i].path[..|q|] == q;
    }
  }

  lemma MoreDirectories(files: seq<EmbeddedFile>, i: nat)
    requires i < |files|
    ensures ExpectedDirectories(files[..i + 1]) ==
      ExpectedDirectories(files[..i]) + set n | 0 < n < |files[i].path| :: files[i].path[..n]
  {
    forall q
      ensures q in ExpectedDirectories(files[..i + 1]) <==>
        q in ExpectedDirectories(files[..i]) || (0 < |q| < |files[i].path| && q <= files[i].path)
    {
      DirectoryOf(files[..i + 1], q);
      DirectoryOf(files[..i], q);
      assert forall j :: 0 <= j < i ==> files[..i][j] == files[..i + 1][j];
      assert files[..i + 1][i] == files[i];
    }
    forall q | 0 < |q| < |files[i].path| && q <= files[i].path
      ensures q in set n | 0 < n < |files[i].path| :: files[i].path[..n]
    {
      assert files[i].path[..|q|] == q;
    }
  }

  /** Collects the parent directories of every file, in set order. */
  method ListDirectories(files: seq<EmbeddedFile>) returns (directories: seq<Path>)
    ensures forall q :: q in directories <==> q in ExpectedDirectories(files)
    ensures InOrder(directories)
  {
    var found: set<Path> := {};
    for i := 0 to |files|
      invariant found == ExpectedDirectories(files[..i])
    {
      var current := files[i].path;
      ghost var before := found;
      while |current| > 1
        invariant current <= files[i].path
        invariant found == before + set n | |current| <= n < |files[i].path| && 0 < n :: files[i].path[..n]
        decreases |current|
      {
        var parent := Parent(current);
        assert parent == files[i].path[..|parent|];
        found := found + {parent};
        current := parent;
      }
      MoreDirectories(files, i);
    }
    assert files[..|files|] == files;
    directories := Ordered(found);
  }

  /** The listing order creates every parent before its children. */
  lemma ParentsComeFirst(files: seq<EmbeddedFile>, directories: seq<Path>, i: nat)
    requires forall q :: q in directories <==> q in ExpectedDirectories(files)
    requires InOrder(directories)
    requires i < |directories|
    ensures |directories[i]| > 1 ==>
      exists j :: 0 <= j < i && directories[j] == Parent(directories[i])
    ensures directories[i] != []
  {
    var q := directories[i];
    DirectoryOf(files, q);
    if |q| > 1 {
      DirectoryOf(files, Parent(q));
      assert Parent(q) in directories;
      var j :| 0 <= j < |directories| && directories[j] == Parent(q);
      DirectoryBeforeContents(q, |q| - 1);
    }
  }

  function InstalledFile(bytes: Bytes): Entry {
    File(bytes, FILE_MODE)
  }

  /** The complete tree of files and directories. */
  ghost function TreeOf(files: map<Path, Bytes>, directories: set<Path>): Tree {
    map q | q in {[]} + directories + files.Keys ::
      if q in files then InstalledFile(files[q]) else Directory(DIRECTORY_MODE)
  }

  ghost function PackageTree(package: Package): Tree {
    TreeOf(FileMap(package.files), ExpectedDirectories(package.files))
  }

  // ---- sizes ----

  ghost function SumSizes(files: map<Path, Bytes>): nat {
    if files == map[] then 0 else
      var p :| p in files;
      |files[p]| + SumSizes(files - {p})
  }

  lemma {:induction false} SumWithout(files: map<Path, Bytes>, p: Path)
    requires p in files
    ensures SumSizes(files) == |files[p]| + SumSizes(files - {p})
    decreases |files|
  {
    var chosen :| chosen in files && SumSizes(files) == |files[chosen]| + SumSizes(files - {chosen});
    if chosen != p {
      SumWithout(files - {chosen}, p);
      SumWithout(files - {p}, chosen);
      assert files - {chosen} - {p} == files - {p} - {chosen};
    }
  }

  lemma SumWith(files: map<Path, Bytes>, p: Path, bytes: Bytes)
    requires p !in files
    ensures SumSizes(files[p := bytes]) == |bytes| + SumSizes(files)
  {
    SumWithout(files[p := bytes], p);
    assert files[p := bytes] - {p} == files;
  }

  lemma {:induction false} SumOfPart(part: map<Path, Bytes>, whole: map<Path, Bytes>)
    requires forall p :: p in part ==> p in whole && |part[p]| <= |whole[p]|
    ensures SumSizes(part) <= SumSizes(whole)
    decreases |part|
  {
    if part != map[] {
      var p :| p in part;
      SumWithout(part, p);
      SumWithout(whole, p);
      SumOfPart(part - {p}, whole - {p});
    }
  }

  // ---- what makes a package fit to ship ----

  ghost predicate ManifestNames(formats: Formats, bytes: Bytes, version: string) {
    formats.manifest(bytes) == Some(Manifest(DOMAIN, version))
  }

  ghost predicate ValidPackage(formats: Formats, package: Package) {
    && DistinctPaths(package.files)
    && (forall i :: 0 <= i < |package.files| ==> ValidFile(package.files[i]))
    && SumSizes(FileMap(package.files)) <= MAX_TOTAL_SIZE
    && MANIFEST in FileMap(package.files)
    && ManifestNames(formats, FileMap(package.files)[MANIFEST], package.version)
  }

  ghost predicate ValidFile(file: EmbeddedFile) {
    ValidRelativePath(file.path) && 0 < |file.bytes| <= MAX_FILE_SIZE
  }

  lemma DistinctPrefix(files: seq<EmbeddedFile>, n: nat)
    requires n <= |files| && DistinctPaths(files)
    ensures DistinctPaths(files[..n])
  {
    var front := files[..n];
    forall i, j | 0 <= i < j < |front|
      ensures front[i].path != front[j].path
    {
      assert front[i] == files[i] && front[j] == files[j];
    }
  }

  lemma FileMapGrows(files: seq<EmbeddedFile>, n: nat)
    requires n < |files|
    ensures FileMap(files[..n + 1]) == FileMap(files[..n])[files[n].path := files[n].bytes]
  {
    var longer := files[..n + 1];
    assert longer[..n] == files[..n];
  }

  lemma OneMoreFile(files: seq<EmbeddedFile>, i: nat)
    requires i < |files| && DistinctPaths(files[..i])
    requires forall j :: 0 <= j < i ==> files[j].path != files[i].path
    ensures DistinctPaths(files[..i + 1])
    ensures SumSizes(FileMap(files[..i + 1])) == SumSizes(FileMap(files[..i])) + |files[i].bytes|
  {
    FileMapHolds(files[..i]);
    FileMapGrows(files, i);
    hide FileMap, SumSizes;
    assert DistinctPaths(files[..i + 1]) by {
      var front := files[..i];
      assert forall a :: 0 <= a < i ==> front[a] == files[a];
    }
    SumWith(FileMap(files[..i]), files[i].path, files[i].bytes);
  }

  /** The checks on paths and sizes, with the duplicate check through a set. */
  method CheckFiles(files: seq<EmbeddedFile>) returns (fine: bool)
    ensures fine <==>
      && DistinctPaths(files)
      && (forall i :: 0 <= i < |files| ==> ValidFile(files[i]))
      && SumSizes(FileMap(files)) <= MAX_TOTAL_SIZE
  {
    assert SumSizes(FileMap(files[..0])) == 0;
    hide ValidRelativePath, SumSizes, FileMap;
    var paths: set<Path> := {};
    var total := 0;
    for i := 0 to |files|
      invariant DistinctPaths(files[..i])
      invariant paths == set j | 0 <= j < i :: files[j].path
      invariant forall j :: 0 <= j < i ==> ValidFile(files[j])
      invariant total == SumSizes(FileMap(files[..i]))
    {
      if !ValidRelativePath(files[i].path) || files[i].path in paths || files[i].bytes == []
        || |files[i].bytes| > MAX_FILE_SIZE {
        assert !ValidFile(files[i]) || !DistinctPaths(files);
        return false;
      }
      paths := paths + {files[i].path};
      total := total + |files[i].bytes|;
      OneMoreFile(files, i);
    }
    assert files[..|files|] == files;
    return total <= MAX_TOTAL_SIZE;
  }

  method FindFile(files: seq<EmbeddedFile>, path: Path) returns (r: Option<Bytes>)
    requires DistinctPaths(files)
    ensures r == if path in FileMap(files) then Some(FileMap(files)[path]) else None
  {
    FileMapHolds(files);
    for n := 0 to |files|
      invariant forall j :: 0 <= j < n ==> files[j].path != path
    {
      if files[n].path == path {
        return Some(files[n].bytes);
      }
    }
    return None;
  }

  method ValidateEmbedded(formats: Formats, package: Package) returns (r: Result<()>)
    ensures r.Ok? <==> ValidPackage(formats, package)
    ensures r.Err? ==> r.error == VerificationFailed
  {
    var fine := CheckFiles(package.files);
    if !fine {
      return Err(VerificationFailed);
    }
    var found := FindFile(package.files, MANIFEST);
    if found.None? {
      return Err(VerificationFailed);
    }
    var manifest := formats.manifest(found.value);
    if manifest.None? || manifest.value.domain != DOMAIN || manifest.value.version != package.version {
      return Err(VerificationFailed);
    }
    return Ok(());
  }

  // ---- versions of installed trees ----

  /** The parsed version of the manifest, when it is this component's. */
  function VersionOfManifest(formats: Formats, bytes: Bytes): Option<real> {
    match formats.manifest(bytes)
    case None => None
    case Some(manifest) => if manifest.domain == DOMAIN then formats.rank(manifest.version) else None
  }

  function VersionOf(formats: Formats, t: Tree): Option<real> {
    if MANIFEST in t && t[MANIFEST].File? then VersionOfManifest(formats, t[MANIFEST].bytes) else None
  }

  /** An installed tree that this package may replace. */
  ghost predicate Older(formats: Formats, t: Tree, package: Package) {
    && VersionOf(formats, t).Some?
    && formats.rank(package.version).Some?
    && VersionOf(formats, t).value < formats.rank(package.version).value
  }

  lemma PackageVersion(formats: Formats, package: Package)
    requires ValidPackage(formats, package)
    ensures VersionOf(formats, PackageTree(package)) == formats.rank(package.version)
  {
    assert MANIFEST in PackageTree(package);
  }
}
