/** The bounded walk over an installed or staged tree, and the ordered removal
    that relies on it. */
module Inspection {
  import opened Basics
  import opened RemoteFiles
  import opened Trees
  import opened Packages

  datatype TreePolicy = Recognized | CurrentExact | CurrentPartial

  datatype InspectedTree = InspectedTree(files: map<Path, Bytes>, directories: set<Path>)

  /** One directory still to be listed. */
  datatype Pending = Pending(relative: Path, depth: nat)

  // ---- what the walk accepts ----

  ghost predicate Allowed(package: Package, policy: TreePolicy, q: Path, entry: Entry) {
    && q != [] && |q| <= MAX_DEPTH && ValidEntryName(Last(q))
    && match entry
       case Directory(mode) =>
         mode == DIRECTORY_MODE && (policy.Recognized? || q in ExpectedDirectories(package.files))
       case File(bytes, mode) =>
         mode == FILE_MODE && (policy.Recognized? || q in FileMap(package.files)) && |bytes| <= MAX_FILE_SIZE
       case Other => false
  }

  ghost function Contents(t: Tree): map<Path, Bytes> {
    map q | q in t && t[q].File? :: t[q].bytes
  }

  ghost function Directories(t: Tree): set<Path> {
    set q | q in t && q != [] && t[q].Directory?
  }

  /** A whole tree within every bound of the walk. */
  ghost predicate Fits(package: Package, policy: TreePolicy, t: Tree) {
    && [] in t && t[[]] == Directory(DIRECTORY_MODE)
    && |t| <= MAX_ENTRIES + 1
    && (forall q :: q in t && q != [] ==> Allowed(package, policy, q, t[q]))
    && SumSizes(Contents(t)) <= MAX_TOTAL_SIZE
    && (policy.CurrentExact? ==>
          && Contents(t).Keys == FileMap(package.files).Keys
          && Directories(t) == ExpectedDirectories(package.files))
  }

  /** The walk's answer lists the tree completely. */
  ghost predicate Describes(found: InspectedTree, t: Tree) {
    && t == TreeOf(found.files, found.directories)
    && found.files.Keys !! found.directories
    && [] !in found.files && [] !in found.directories
  }

  lemma DescribedContents(found: InspectedTree, t: Tree)
    requires Describes(found, t)
    ensures Contents(t) == found.files
    ensures Directories(t) == found.directories
  {
    forall q
      ensures q in Contents(t) <==> q in found.files
      ensures q in Directories(t) <==> q in found.directories
    {
    }
  }

  lemma DescribedSize(found: InspectedTree, t: Tree)
    requires Describes(found, t)
    ensures |t| == 1 + |found.files| + |found.directories|
  {
    var below := found.directories + found.files.Keys;
    assert |below| == |found.directories| + |found.files.Keys|;
    assert t.Keys == {[]} + below;
    assert |t| == |t.Keys|;
  }

  // ---- the state of the walk ----

  /** Everything collected is in the tree and allowed there. */
  ghost predicate Sound(package: Package, policy: TreePolicy, t: Tree, found: InspectedTree) {
    && (forall q :: q in found.directories ==>
          q in t && t[q] == Directory(DIRECTORY_MODE) && Allowed(package, policy, q, t[q]))
    && (forall q :: q in found.files ==>
          q in t && t[q] == InstalledFile(found.files[q]) && Allowed(package, policy, q, t[q]))
  }

  ghost predicate Collected(found: InspectedTree, q: Path) {
    q in found.files || q in found.directories
  }

  ghost predicate Known(found: InspectedTree, q: Path) {
    q == [] || q in found.directories
  }

  /** Exactly the entries of the directories already listed were collected;
      of the directory being listed, those named so far. */
  ghost predicate Covers(t: Tree, found: InspectedTree, pending: set<Path>, here: Option<Path>, seen: set<string>) {
    forall q :: q in t && q != [] ==>
      (Collected(found, q) <==>
        && Known(found, Parent(q))
        && Parent(q) !in pending
        && (here == Some(Parent(q)) ==> Last(q) in seen))
  }

  lemma {:induction false} AllCollected(t: Tree, found: InspectedTree, q: Path)
    requires Rooted(t) && q in t && q != []
    requires Covers(t, found, {}, None, {})
    requires forall p :: p in found.files ==> p in t && t[p].File?
    ensures Collected(found, q)
    decreases |q|
  {
    if Parent(q) != [] {
      AllCollected(t, found, Parent(q));
    }
  }

  /** When nothing is pending, the collection is the whole tree. */
  lemma WalkIsComplete(package: Package, policy: TreePolicy, t: Tree, found: InspectedTree)
    requires Rooted(t) && t != NOTHING && t[[]] == Directory(DIRECTORY_MODE)
    requires Sound(package, policy, t, found)
    requires Covers(t, found, {}, None, {})
    ensures Describes(found, t)
  {
    forall q | q in t && q != []
      ensures Collected(found, q)
    {
      AllCollected(t, found, q);
    }
    forall q
      ensures q in t <==> q in TreeOf(found.files, found.directories)
      ensures q in t ==> t[q] == TreeOf(found.files, found.directories)[q]
    {
    }
  }

  lemma PartialCount(package: Package, policy: TreePolicy, t: Tree, found: InspectedTree)
    requires Sound(package, policy, t, found) && [] in t
    ensures |found.files| + |found.directories| + 1 <= |t|
    ensures SumSizes(found.files) <= SumSizes(Contents(t))
  {
    var all := found.files.Keys + found.directories;
    assert found.files.Keys !! found.directories;
    assert |all| == |found.files.Keys| + |found.directories|;
    SubsetCardinality({[]} + all, t.Keys);
    SumOfPart(found.files, Contents(t));
  }

  function Adding(found: InspectedTree, q: Path, entry: Entry): InspectedTree {
    match entry
    case File(bytes, _) => found.(files := found.files[q := bytes])
    case Directory(_) => found.(directories := found.directories + {q})
    case Other => found
  }

  /** The next name of the directory being listed extends the collection. */
  lemma CoversNext(t: Tree, found: InspectedTree, pending: set<Path>, here: Path, seen: set<string>, name: string)
    requires Covers(t, found, pending, Some(here), seen)
    requires Known(found, here) && here !in pending && name !in seen
    requires here + [name] in t && !t[here + [name]].Other?
    ensures !Collected(found, here + [name])
    ensures
      var q := here + [name];
      var pending' := if t[q].Directory? then pending + {q} else pending;
      Covers(t, Adding(found, q, t[q]), pending', Some(here), seen + {name})
  {
    var q := here + [name];
    assert Parent(q) == here && Last(q) == name;
    var found' := Adding(found, q, t[q]);
    var pending' := if t[q].Directory? then pending + {q} else pending;
    forall p | p in t && p != []
      ensures Collected(found', p) <==>
        Known(found', Parent(p)) && Parent(p) !in pending'
          && (Some(here) == Some(Parent(p)) ==> Last(p) in seen + {name})
    {
      CoversNextAt(t, found, pending, here, seen, name, p);
    }
  }

  lemma CoversNextAt(t: Tree, found: InspectedTree, pending: set<Path>, here: Path, seen: set<string>, name: string,
                     p: Path)
    requires Covers(t, found, pending, Some(here), seen)
    requires Known(found, here) && here !in pending && name !in seen
    requires here + [name] in t && !t[here + [name]].Other? && !Collected(found, here + [name])
    requires p in t && p != []
    ensures
      var q := here + [name];
      var found' := Adding(found, q, t[q]);
      var pending' := if t[q].Directory? then pending + {q} else pending;
      Collected(found', p) <==>
        Known(found', Parent(p)) && Parent(p) !in pending'
          && (Some(here) == Some(Parent(p)) ==> Last(p) in seen + {name})
  {
    assert Collected(found, p) <==>
      Known(found, Parent(p)) && Parent(p) !in pending && (Some(here) == Some(Parent(p)) ==> Last(p) in seen);
    hide Covers;
    assert p == Parent(p) + [Last(p)];
  }

  lemma CoversPopped(t: Tree, found: InspectedTree, pending: set<Path>, here: Path)
    requires Covers(t, found, pending, None, {}) && here in pending
    ensures Covers(t, found, pending - {here}, Some(here), {})
  {
  }

  lemma CoversListed(t: Tree, found: InspectedTree, pending: set<Path>, here: Path, seen: set<string>)
    requires Covers(t, found, pending, Some(here), seen)
    requires forall n :: here + [n] in t ==> n in seen
    ensures Covers(t, found, pending, None, {})
  {
    forall q | q in t && q != []
      ensures Collected(found, q) <==> Known(found, Parent(q)) && Parent(q) !in pending
    {
      assert q == Parent(q) + [Last(q)];
    }
  }

  ghost function Open(stack: seq<Pending>): set<Path> {
    set i | 0 <= i < |stack| :: stack[i].relative
  }

  /** The pending directories are distinct, known and at their own depth. */
  ghost predicate StackFits(found: InspectedTree, stack: seq<Pending>) {
    && (forall i :: 0 <= i < |stack| ==>
          Known(found, stack[i].relative) && stack[i].depth == |stack[i].relative| <= MAX_DEPTH)
    && (forall i, j :: 0 <= i < j < |stack| ==> stack[i].relative != stack[j].relative)
  }

  lemma OpenAfterPush(found: InspectedTree, stack: seq<Pending>, q: Path)
    requires StackFits(found, stack) && !Known(found, q) && |q| <= MAX_DEPTH
    ensures Open(stack + [Pending(q, |q|)]) == Open(stack) + {q}
    ensures StackFits(found.(directories := found.directories + {q}), stack + [Pending(q, |q|)])
  {
    var longer := stack + [Pending(q, |q|)];
    assert forall i :: 0 <= i < |stack| ==> longer[i] == stack[i];
    assert longer[|stack|].relative == q;
  }

  lemma OpenAfterPop(found: InspectedTree, stack: seq<Pending>)
    requires StackFits(found, stack) && stack != []
    ensures Open(stack[..|stack| - 1]) == Open(stack) - {stack[|stack| - 1].relative}
    ensures StackFits(found, stack[..|stack| - 1])
  {
    var shorter := stack[..|stack| - 1];
    assert forall i :: 0 <= i < |shorter| ==> shorter[i] == stack[i];
  }

  lemma SoundNext(package: Package, policy: TreePolicy, t: Tree, found: InspectedTree, q: Path)
    requires Sound(package, policy, t, found)
    requires q in t && Allowed(package, policy, q, t[q]) && !Collected(found, q)
    ensures Sound(package, policy, t, Adding(found, q, t[q]))
  {
  }

  lemma OneMore(found: InspectedTree, q: Path, entry: Entry)
    requires !Collected(found, q) && !entry.Other?
    ensures
      var found' := Adding(found, q, entry);
      && |found'.files| + |found'.directories| == |found.files| + |found.directories| + 1
      && SumSizes(found'.files) == SumSizes(found.files) + (if entry.File? then |entry.bytes| else 0)
  {
    if entry.File? {
      SumWith(found.files, q, entry.bytes);
    }
  }

  /** Why the walk of a tree within the bounds never gives up. */
  lemma RoomForNext(package: Package, policy: TreePolicy, t: Tree, found: InspectedTree, q: Path)
    requires Fits(package, policy, t) && Sound(package, policy, t, found)
    requires q in t && q != [] && !Collected(found, q)
    ensures Allowed(package, policy, q, t[q])
    ensures |found.files| + |found.directories| + 1 <= MAX_ENTRIES
    ensures t[q].File? ==> SumSizes(found.files) + |t[q].bytes| <= MAX_TOTAL_SIZE
  {
    SoundNext(package, policy, t, found, q);
    PartialCount(package, policy, t, Adding(found, q, t[q]));
    OneMore(found, q, t[q]);
  }

  /** The variables of the walk. */
  datatype Walk = Walk(found: InspectedTree, stack: seq<Pending>, entries: nat, total: nat)

  ghost predicate WalkFits(package: Package, policy: TreePolicy, t: Tree, w: Walk) {
    && Sound(package, policy, t, w.found)
    && StackFits(w.found, w.stack)
    && w.entries == |w.found.files| + |w.found.directories| <= MAX_ENTRIES
    && w.total == SumSizes(w.found.files) <= MAX_TOTAL_SIZE
  }

  ghost predicate Midway(t: Tree, w: Walk, here: Path, seen: set<string>) {
    && Known(w.found, here) && here !in Open(w.stack)
    && Covers(t, w.found, Open(w.stack), Some(here), seen)
  }

  function Extend(w: Walk, q: Path, entry: Entry): Walk {
    match entry
    case File(bytes, _) => Walk(Adding(w.found, q, entry), w.stack, w.entries + 1, w.total + |bytes|)
    case Directory(_) => Walk(Adding(w.found, q, entry), w.stack + [Pending(q, |q|)], w.entries + 1, w.total)
    case Other => w
  }

  ghost predicate HasRoom(w: Walk, entry: Entry) {
    w.entries + 1 <= MAX_ENTRIES && (entry.File? ==> w.total + |entry.bytes| <= MAX_TOTAL_SIZE)
  }

  lemma ExtendFits(package: Package, policy: TreePolicy, t: Tree, w: Walk, here: Path, seen: set<string>, name: string)
    requires WalkFits(package, policy, t, w) && Midway(t, w, here, seen)
    requires here + [name] in t && name !in seen
    requires Allowed(package, policy, here + [name], t[here + [name]]) && HasRoom(w, t[here + [name]])
    ensures WalkFits(package, policy, t, Extend(w, here + [name], t[here + [name]]))
    ensures Midway(t, Extend(w, here + [name], t[here + [name]]), here, seen + {name})
  {
    var q := here + [name];
    var w' := Extend(w, q, t[q]);
    CoversNext(t, w.found, Open(w.stack), here, seen, name);
    SoundNext(package, policy, t, w.found, q);
    OneMore(w.found, q, t[q]);
    if t[q].Directory? {
      OpenAfterPush(w.found, w.stack, q);
      assert w'.found == w.found.(directories := w.found.directories + {q});
    }
  }

  lemma NextHasRoom(package: Package, policy: TreePolicy, t: Tree, w: Walk, here: Path, seen: set<string>, name: string)
    requires WalkFits(package, policy, t, w) && Midway(t, w, here, seen)
    requires here + [name] in t && name !in seen
    ensures !Collected(w.found, here + [name])
    ensures Fits(package, policy, t) ==>
      Allowed(package, policy, here + [name], t[here + [name]]) && HasRoom(w, t[here + [name]])
  {
    var q := here + [name];
    assert Parent(q) == here && Last(q) == name;
    if Fits(package, policy, t) {
      RoomForNext(package, policy, t, w.found, q);
    }
  }

  /** Checks and records one entry of a directory. */
  method Visit(fs: Remote, root: Path, policy: TreePolicy, package: Package,
               expectedFiles: set<Path>, expectedDirectories: set<Path>,
               here: Path, depth: nat, name: string, w: Walk)
    returns (r: Result<Walk>)
    requires expectedFiles == FileMap(package.files).Keys
    requires expectedDirectories == ExpectedDirectories(package.files)
    requires root + (here + [name]) in fs.entries && depth == |here|
    modifies fs`reachable
    ensures r.Err? ==> Ordinary(r.error)
    ensures fs.reliable && old(fs.reachable) && r.Err? ==> r.error == UnsafeState
    ensures !old(fs.reachable) ==> r.Err? && !fs.reachable
    ensures r.Ok? ==>
      var q := here + [name];
      var entry := fs.entries[root + q];
      && Allowed(package, policy, q, entry) && HasRoom(w, entry)
      && r.value == Extend(w, q, entry)
    ensures fs.reliable && old(fs.reachable) ==> fs.reachable
    ensures fs.reliable && old(fs.reachable) && !Collected(w.found, here + [name]) ==>
      var q := here + [name];
      var entry := fs.entries[root + q];
      Allowed(package, policy, q, entry) && HasRoom(w, entry) ==> r.Ok?
  {
    var relative := here + [name];
    assert Last(relative) == name;
    if w.entries + 1 > MAX_ENTRIES || !ValidEntryName(name) {
      return Err(UnsafeState);
    }
    if |relative| > MAX_DEPTH {
      return Err(UnsafeState);
    }
    var path := root + relative;
    var node :- fs.Lstat(path);
    if node.None? {
      return Err(UnsafeState);
    }
    if node.value.kind == DirectoryNode {
      if node.value.mode != DIRECTORY_MODE || !(policy.Recognized? || relative in expectedDirectories) {
        return Err(UnsafeState);
      }
      if relative in w.found.directories {
        return Err(UnsafeState);
      }
      var found := w.found.(directories := w.found.directories + {relative});
      return Ok(Walk(found, w.stack + [Pending(relative, depth + 1)], w.entries + 1, w.total));
    } else {
      if node.value.mode != FILE_MODE || !(policy.Recognized? || relative in expectedFiles) {
        return Err(UnsafeState);
      }
      if node.value.size > MAX_FILE_SIZE {
        return Err(UnsafeState);
      }
      var bytes :- fs.Read(path);
      if |bytes| != node.value.size {
        return Err(VerificationFailed);
      }
      if w.total + |bytes| > MAX_TOTAL_SIZE || relative in w.found.files {
        return Err(UnsafeState);
      }
      return Ok(Walk(w.found.(files := w.found.files[relative := bytes]), w.stack, w.entries + 1, w.total + |bytes|));
    }
  }

  lemma ListingIsBounded(package: Package, policy: TreePolicy, e: Files, root: Path, here: Path)
    requires Closed(e) && Fits(package, policy, Sub(e, root))
    ensures |Children(e, root + here)| <= MAX_ENTRIES
  {
    var t := Sub(e, root);
    var names := Children(e, root + here);
    ChildNames(e, root + here);
    var below := set n | n in names :: here + [n];
    forall q | q in below
      ensures q in t && q != []
    {
      var n :| n in names && q == here + [n];
      assert root + q == root + here + [n];
    }
    SameSize(names, here);
    SubsetCardinality(below, t.Keys - {[]});
  }

  lemma {:induction false} SameSize(names: set<string>, here: Path)
    ensures |set n | n in names :: here + [n]| == |names|
    decreases |names|
  {
    if names != {} {
      var name :| name in names;
      SameSize(names - {name}, here);
      assert forall n :: here + [n] == here + [name] ==> (here + [n])[|here|] == name;
      assert (set n | n in names :: here + [n]) == (set n | n in names - {name} :: here + [n]) + {here + [name]};
    }
  }

  /** The walk between two directories. */
  ghost predicate AtRest(package: Package, policy: TreePolicy, t: Tree, w: Walk) {
    && WalkFits(package, policy, t, w)
    && Covers(t, w.found, Open(w.stack), None, {})
  }

  ghost predicate AfterNames(package: Package, policy: TreePolicy, t: Tree, w: Walk, here: Path, names: seq<string>,
                             n: nat)
    requires n <= |names|
  {
    && WalkFits(package, policy, t, w)
    && Midway(t, w, here, Seen(names, n))
  }

  ghost function Seen(names: seq<string>, n: nat): set<string>
    requires n <= |names|
  {
    set m | m in names[..n]
  }

  lemma SeenNext(names: seq<string>, n: nat)
    requires n < |names|
    ensures Seen(names, n + 1) == Seen(names, n) + {names[n]}
  {
    assert names[..n + 1] == names[..n] + [names[n]];
  }

  lemma NextName(package: Package, policy: TreePolicy, t: Tree, w: Walk, here: Path, names: seq<string>, n: nat)
    requires n < |names| && AfterNames(package, policy, t, w, here, names, n)
    requires forall i, j :: 0 <= i < j < |names| ==> names[i] != names[j]
    requires here + [names[n]] in t
    ensures !Collected(w.found, here + [names[n]])
    ensures
      var q := here + [names[n]];
      && (Fits(package, policy, t) ==> Allowed(package, policy, q, t[q]) && HasRoom(w, t[q]))
      && (Allowed(package, policy, q, t[q]) && HasRoom(w, t[q]) ==>
            && AfterNames(package, policy, t, Extend(w, q, t[q]), here, names, n + 1)
            && Extend(w, q, t[q]).entries == w.entries + 1)
  {
    var q := here + [names[n]];
    var seen := Seen(names, n);
    assert names[n] !in names[..n];
    NextHasRoom(package, policy, t, w, here, seen, names[n]);
    if Allowed(package, policy, q, t[q]) && HasRoom(w, t[q]) {
      ExtendFits(package, policy, t, w, here, seen, names[n]);
      SeenNext(names, n);
    }
  }

  lemma Popped(package: Package, policy: TreePolicy, t: Tree, w: Walk, names: seq<string>)
    requires AtRest(package, policy, t, w) && w.stack != []
    ensures
      var here := w.stack[|w.stack| - 1];
      && here.depth == |here.relative| <= MAX_DEPTH
      && Known(w.found, here.relative)
      && AfterNames(package, policy, t, w.(stack := w.stack[..|w.stack| - 1]), here.relative, names, 0)
  {
    OpenAfterPop(w.found, w.stack);
    var here := w.stack[|w.stack| - 1];
    assert here.relative in Open(w.stack);
    CoversPopped(t, w.found, Open(w.stack), here.relative);
    assert Seen(names, 0) == {};
  }

  lemma Listed(package: Package, policy: TreePolicy, t: Tree, w: Walk, here: Path, names: seq<string>)
    requires AfterNames(package, policy, t, w, here, names, |names|)
    requires forall n :: here + [n] in t ==> n in names
    ensures AtRest(package, policy, t, w)
  {
    assert names[..|names|] == names;
    CoversListed(t, w.found, Open(w.stack), here, Seen(names, |names|));
  }

  lemma WithinEntries(package: Package, policy: TreePolicy, t: Tree, w: Walk)
    requires AtRest(package, policy, t, w)
    ensures w.entries <= MAX_ENTRIES
  {
  }

  /** Lists one directory: the body of the walk's outer loop. */
  method ListDirectory(fs: Remote, root: Path, policy: TreePolicy, package: Package,
                       expectedFiles: set<Path>, expectedDirectories: set<Path>, here: Pending, w: Walk)
    returns (r: Result<Walk>)
    requires fs.Valid()
    requires expectedFiles == FileMap(package.files).Keys
    requires expectedDirectories == ExpectedDirectories(package.files)
    requires w.stack != [] && here == w.stack[|w.stack| - 1]
    requires AtRest(package, policy, Sub(fs.entries, root), w) && IsDirectory(fs.entries, root + here.relative)
    modifies fs`reachable
    ensures r.Err? ==> Ordinary(r.error)
    ensures fs.reliable && old(fs.reachable) && r.Err? ==> r.error == UnsafeState
    ensures !old(fs.reachable) ==> r.Err? && !fs.reachable
    ensures r.Ok? ==>
      && AtRest(package, policy, Sub(fs.entries, root), r.value)
      && w.entries <= r.value.entries <= MAX_ENTRIES
      && (r.value.entries == w.entries ==> r.value.stack == w.stack[..|w.stack| - 1])
    ensures fs.reliable && old(fs.reachable) ==> fs.reachable
    ensures fs.reliable && old(fs.reachable) && Fits(package, policy, Sub(fs.entries, root)) ==> r.Ok?
  {
    hide AtRest, AfterNames, Fits, Allowed, Known;
    ghost var t := Sub(fs.entries, root);
    Popped(package, policy, t, w, []);
    if here.depth > MAX_DEPTH {
      return Err(UnsafeState);
    }
    if Fits(package, policy, t) {
      ListingIsBounded(package, policy, fs.entries, root, here.relative);
    }
    var names :- fs.ReadDir(root + here.relative);
    Popped(package, policy, t, w, names);
    var v := w.(stack := w.stack[..|w.stack| - 1]);
    for i := 0 to |names|
      invariant fs.reliable ==> fs.reachable
      invariant AfterNames(package, policy, t, v, here.relative, names, i)
      invariant v.entries == w.entries + i && (i == 0 ==> v.stack == w.stack[..|w.stack| - 1])
    {
      assert root + here.relative + [names[i]] == root + (here.relative + [names[i]]);
      NextName(package, policy, t, v, here.relative, names, i);
      v :- Visit(fs, root, policy, package, expectedFiles, expectedDirectories, here.relative, here.depth, names[i], v);
    }
    forall n | here.relative + [n] in t
      ensures n in names
    {
      assert root + (here.relative + [n]) == root + here.relative + [n];
    }
    Listed(package, policy, t, v, here.relative, names);
    WithinEntries(package, policy, t, v);
    return Ok(v);
  }

  lemma WalkStarts(package: Package, policy: TreePolicy, t: Tree)
    ensures AtRest(package, policy, t, Walk(InspectedTree(map[], {}), [Pending([], 0)], 0, 0))
  {
    var stack := [Pending([], 0)];
    assert stack[0].relative == [];
    assert Open(stack) == {[]};
  }

  lemma WalkEnds(package: Package, policy: TreePolicy, t: Tree, w: Walk)
    requires Rooted(t) && t != NOTHING && t[[]] == Directory(DIRECTORY_MODE)
    requires AtRest(package, policy, t, w) && w.stack == []
    ensures Describes(w.found, t)
    ensures Fits(package, policy, t) <==>
      (policy.CurrentExact? ==>
         && w.found.files.Keys == FileMap(package.files).Keys
         && w.found.directories == ExpectedDirectories(package.files))
  {
    assert Open([]) == {};
    WalkIsComplete(package, policy, t, w.found);
    DescribedContents(w.found, t);
    DescribedSize(w.found, t);
    forall q | q in t && q != []
      ensures Allowed(package, policy, q, t[q])
    {
      assert Collected(w.found, q);
    }
  }

  lemma PendingIsDirectory(package: Package, policy: TreePolicy, e: Files, root: Path, w: Walk)
    requires Sub(e, root) != NOTHING && Rooted(Sub(e, root)) && Sub(e, root)[[]] == Directory(DIRECTORY_MODE)
    requires AtRest(package, policy, Sub(e, root), w) && w.stack != []
    ensures IsDirectory(e, root + w.stack[|w.stack| - 1].relative)
  {
    var q := w.stack[|w.stack| - 1].relative;
    assert Known(w.found, q);
    assert q in Sub(e, root);
  }

  /** Walks the tree with an explicit stack of directories still to list. */
  method Inspect(fs: Remote, root: Path, policy: TreePolicy, package: Package)
    returns (r: Result<Option<InspectedTree>>)
    requires fs.Valid()
    modifies fs`reachable
    ensures r.Err? ==> Ordinary(r.error)
    ensures fs.reliable && old(fs.reachable) && r.Err? ==> r.error == UnsafeState
    ensures !old(fs.reachable) ==> r.Err? && !fs.reachable
    ensures r.Ok? && r.value.None? ==> Sub(fs.entries, root) == NOTHING
    ensures r.Ok? && r.value.Some? ==>
      && Describes(r.value.value, Sub(fs.entries, root))
      && Fits(package, policy, Sub(fs.entries, root))
    ensures fs.reliable && old(fs.reachable) ==>
      && fs.reachable
      && (r.Ok? <==> Sub(fs.entries, root) == NOTHING || Fits(package, policy, Sub(fs.entries, root)))
  {
    hide AtRest, Describes;
    ghost var t := Sub(fs.entries, root);
    SubIsRooted(fs.entries, root);
    AbsentIsNothing(fs.entries, root);
    var node :- fs.Lstat(root);
    if node.None? {
      return Ok(None);
    }
    if node.value.kind != DirectoryNode || node.value.mode != DIRECTORY_MODE {
      return Err(UnsafeState);
    }
    var listed := ListDirectories(package.files);
    var expectedDirectories := set q | q in listed;
    var expectedFiles := FileMap(package.files).Keys;
    var w := Walk(InspectedTree(map[], {}), [Pending([], 0)], 0, 0);
    WalkStarts(package, policy, t);
    while w.stack != []
      invariant fs.reliable ==> fs.reachable
      invariant AtRest(package, policy, t, w) && w.entries <= MAX_ENTRIES
      decreases MAX_ENTRIES - w.entries, |w.stack|
    {
      PendingIsDirectory(package, policy, fs.entries, root, w);
      w :- ListDirectory(fs, root, policy, package, expectedFiles, expectedDirectories, w.stack[|w.stack| - 1], w);
    }
    WalkEnds(package, policy, t, w);
    assert Sub(fs.entries, root) == t;
    assert expectedDirectories == ExpectedDirectories(package.files);
    if policy.CurrentExact? && (w.found.files.Keys != expectedFiles || w.found.directories != expectedDirectories) {
      return Err(UnsafeState);
    }
    return Ok(Some(w.found));
  }
}
