/** The remote filesystem behind the deployer's `RemoteFs` trait.

    A path is the sequence of its components, so joining a name is appending
    it and the depth of a path is its length. Every operation is one step. A
    connection that is not `reliable` may fail any operation before it takes
    effect, or after; a connection that is no longer `reachable` models a
    deployer that crashed or whose transaction was cancelled: nothing it does
    from then on has an effect. */
module RemoteFiles {
  import opened Basics

  type Path = seq<string>

  datatype Entry = File(bytes: Bytes, mode: nat) | Directory(mode: nat) | Other

  datatype NodeKind = FileNode | DirectoryNode

  datatype Node = Node(kind: NodeKind, size: nat, mode: nat)

  type Files = map<Path, Entry>

  // Octal 755, 644 and 600.
  const DIRECTORY_MODE := 493
  const FILE_MODE := 420
  const PRIVATE_MODE := 384

  const MAX_ENTRIES := 32
  const MAX_FILE_SIZE := 1024 * 1024

  function Parent(path: Path): Path
    requires path != []
  {
    path[..|path| - 1]
  }

  function Last(path: Path): string
    requires path != []
  {
    path[|path| - 1]
  }

  predicate IsDirectory(e: Files, path: Path) {
    path in e && e[path].Directory?
  }

  /** Every entry hangs below a directory. */
  ghost predicate Closed(e: Files) {
    && IsDirectory(e, [])
    && forall p {:trigger Parent(p)} :: p in e && p != [] ==> IsDirectory(e, Parent(p))
  }

  /** What `lstat` answers; a symbolic link or device is refused. */
  function Status(e: Files, path: Path): Result<Option<Node>> {
    if path !in e then
      Ok(None)
    else
      match e[path]
      case File(bytes, mode) => Ok(Some(Node(FileNode, |bytes|, mode)))
      case Directory(mode) => Ok(Some(Node(DirectoryNode, 0, mode)))
      case Other => Err(UnsafeState)
  }

  /** The condition for `mkdir` and exclusive creation. */
  predicate MayCreate(e: Files, path: Path) {
    path != [] && path !in e && IsDirectory(e, Parent(path))
  }

  predicate MayRename(e: Files, from: Path, to: Path) {
    from != [] && from in e && MayCreate(e, to) && !(from <= to)
  }

  /** The names below a directory. */
  function Children(e: Files, path: Path): set<string> {
    set p | p in e && |p| == |path| + 1 && path <= p :: p[|path|]
  }

  predicate MayRemoveDirectory(e: Files, path: Path) {
    path != [] && IsDirectory(e, path) && Children(e, path) == {}
  }

  predicate MayRemoveFile(e: Files, path: Path) {
    path != [] && path in e && e[path].File?
  }

  /** `e` with everything at or below `from` moved to `to`. */
  function Moved(e: Files, from: Path, to: Path): Files {
    var kept := set p | p in e && !(from <= p);
    var placed := set p | p in e && from <= p :: to + p[|from|..];
    map q | q in kept + placed ::
      if to <= q && from + q[|to|..] in e then e[from + q[|to|..]] else if q in e then e[q] else Other
  }

  class Remote {
    var entries: Files
    var reachable: bool
    var reliable: bool

    ghost predicate Valid()
      reads this`entries
    {
      Closed(entries)
    }

    constructor (initial: Files)
      requires Closed(initial)
      ensures Valid() && entries == initial && reachable
    {
      entries := initial;
      reachable := true;
      reliable := *;
    }

    /** A new connection to the same server, perhaps after a crash. */
    method Connect(dependable: bool)
      modifies `reachable, `reliable
      ensures reachable && reliable == dependable
    {
      reachable := true;
      reliable := dependable;
    }

    /** The deployer crashes, or its connection breaks. */
    method Disconnect()
      modifies `reachable
      ensures !reachable
    {
      reachable := false;
    }

    /** Decides whether the network or a crash gets in the way now. */
    method Interrupted() returns (stopped: bool)
      modifies `reachable
      ensures !old(reachable) ==> stopped && !reachable
      ensures reliable && old(reachable) ==> !stopped && reachable
    {
      if !reachable {
        return true;
      }
      if reliable {
        return false;
      }
      var crash: bool := *;
      reachable := !crash;
      stopped := *;
      stopped := stopped || crash;
    }

    method Lstat(path: Path) returns (r: Result<Option<Node>>)
      modifies `reachable
      ensures r.Err? ==> Ordinary(r.error)
      ensures !old(reachable) ==> r.Err? && !reachable
      ensures r.Ok? ==> r == Status(entries, path)
      ensures reliable && old(reachable) ==> reachable && r == Status(entries, path)
    {
      var stopped := Interrupted();
      if stopped {
        return Err(Unavailable);
      }
      r := Status(entries, path);
    }

    method ReadDir(path: Path) returns (r: Result<seq<string>>)
      modifies `reachable
      ensures r.Err? ==> Ordinary(r.error)
      ensures reliable && old(reachable) && r.Err? ==> r.error == UnsafeState
      ensures !old(reachable) ==> r.Err? && !reachable
      ensures r.Ok? ==>
        && IsDirectory(entries, path)
        && (forall n :: n in r.value <==> path + [n] in entries)
        && (forall i, j :: 0 <= i < j < |r.value| ==> r.value[i] != r.value[j])
        && |r.value| <= MAX_ENTRIES
      ensures reliable && old(reachable) ==>
        && reachable
        && (r.Ok? <==> IsDirectory(entries, path) && |Children(entries, path)| <= MAX_ENTRIES)
    {
      var stopped := Interrupted();
      if stopped {
        return Err(Unavailable);
      }
      if !IsDirectory(entries, path) {
        return Err(UnsafeState);
      }
      var names := Children(entries, path);
      if |names| > MAX_ENTRIES {
        return Err(UnsafeState);
      }
      ChildNames(entries, path);
      var listing := Enumerate(names);
      r := Ok(listing);
    }

    method Read(path: Path) returns (r: Result<Bytes>)
      modifies `reachable
      ensures r.Err? ==> Ordinary(r.error)
      ensures reliable && old(reachable) && r.Err? ==> r.error == UnsafeState
      ensures !old(reachable) ==> r.Err? && !reachable
      ensures r.Ok? ==> path in entries && entries[path].File? && r.value == entries[path].bytes
      ensures reliable && old(reachable) ==>
        && reachable
        && (r.Ok? <==> path in entries && entries[path].File? && |entries[path].bytes| <= MAX_FILE_SIZE)
    {
      var stopped := Interrupted();
      if stopped {
        return Err(Unavailable);
      }
      if path !in entries || !entries[path].File? || |entries[path].bytes| > MAX_FILE_SIZE {
        return Err(UnsafeState);
      }
      r := Ok(entries[path].bytes);
    }

    /** Creates the directory, then sets its mode; an interruption in between
        leaves whatever mode the server chose. */
    method Mkdir(path: Path, mode: nat) returns (r: Result<()>)
      requires Valid()
      modifies `entries, `reachable
      ensures r.Err? ==> Ordinary(r.error)
      ensures Valid()
      ensures !old(reachable) ==> r.Err? && !reachable && entries == old(entries)
      ensures r.Ok? ==> MayCreate(old(entries), path) && entries == old(entries)[path := Directory(mode)]
      ensures r.Err? && entries != old(entries) ==>
        MayCreate(old(entries), path) && exists m: nat :: entries == old(entries)[path := Directory(m)]
      ensures reliable && old(reachable) ==>
        && reachable
        && (r.Ok? <==> MayCreate(old(entries), path))
        && (r.Err? ==> entries == old(entries) && r.error == UnsafeState)
    {
      var stopped := Interrupted();
      if stopped {
        return Err(Unavailable);
      }
      if !MayCreate(entries, path) {
        return Err(UnsafeState);
      }
      var chosen: nat := *;
      CreatedClosed(entries, path, Directory(chosen));
      CreatedClosed(entries, path, Directory(mode));
      entries := entries[path := Directory(chosen)];
      stopped := Interrupted();
      if stopped {
        return Err(Unavailable);
      }
      assert entries[path := Directory(mode)] == old(entries)[path := Directory(mode)];
      entries := entries[path := Directory(mode)];
      stopped := Interrupted();
      if stopped {
        return Err(Unavailable);
      }
      r := Ok(());
    }

    /** Creates the file exclusively and uploads its bytes. An interruption
        leaves a prefix of them. The upload of a package file may also be
        damaged without any error being reported; a private file fits into one
        write request, so it is stored as given or cut short. */
    method WriteExclusive(path: Path, bytes: Bytes, mode: nat) returns (r: Result<()>)
      requires Valid()
      modifies `entries, `reachable
      ensures r.Err? ==> Ordinary(r.error)
      ensures Valid()
      ensures !old(reachable) ==> r.Err? && !reachable && entries == old(entries)
      ensures r.Ok? ==>
        && MayCreate(old(entries), path)
        && path in entries && entries[path].File? && entries[path].mode == mode
        && entries == old(entries)[path := entries[path]]
        && (reliable || mode == PRIVATE_MODE ==> entries[path].bytes == bytes)
      ensures r.Err? && entries != old(entries) ==>
        && MayCreate(old(entries), path)
        && path in entries && entries[path].File? && entries[path].mode == mode
        && entries[path].bytes <= bytes
        && entries == old(entries)[path := entries[path]]
      ensures reliable && old(reachable) ==>
        && reachable
        && (r.Ok? <==> MayCreate(old(entries), path))
        && (r.Err? ==> entries == old(entries))
    {
      var stopped := Interrupted();
      if stopped {
        return Err(Unavailable);
      }
      if !MayCreate(entries, path) {
        return Err(UnsafeState);
      }
      var length: nat :| length <= |bytes|;
      CreatedClosed(entries, path, File(bytes[..length], mode));
      entries := entries[path := File(bytes[..length], mode)];
      stopped := Interrupted();
      if stopped {
        return Err(Unavailable);
      }
      var stored := bytes;
      if !reliable && mode != PRIVATE_MODE {
        stored := *;
      }
      CreatedClosed(old(entries), path, File(stored, mode));
      assert entries[path := File(stored, mode)] == old(entries)[path := File(stored, mode)];
      entries := entries[path := File(stored, mode)];
      r := Ok(());
    }

    method Rename(from: Path, to: Path) returns (r: Result<()>)
      requires Valid()
      modifies `entries, `reachable
      ensures r.Err? ==> Ordinary(r.error)
      ensures Valid()
      ensures !old(reachable) ==> r.Err? && !reachable && entries == old(entries)
      ensures r.Ok? || entries != old(entries) ==>
        MayRename(old(entries), from, to) && entries == Moved(old(entries), from, to)
      ensures reliable && old(reachable) ==>
        && reachable
        && (r.Ok? <==> MayRename(old(entries), from, to))
        && (r.Err? ==> entries == old(entries))
    {
      var stopped := Interrupted();
      if stopped {
        return Err(Unavailable);
      }
      if !MayRename(entries, from, to) {
        return Err(UnsafeState);
      }
      MovedClosed(entries, from, to);
      entries := Moved(entries, from, to);
      stopped := Interrupted();
      if stopped {
        return Err(Unavailable);
      }
      r := Ok(());
    }

    method RemoveFile(path: Path) returns (r: Result<()>)
      requires Valid()
      modifies `entries, `reachable
      ensures r.Err? ==> Ordinary(r.error)
      ensures Valid()
      ensures !old(reachable) ==> r.Err? && !reachable && entries == old(entries)
      ensures r.Ok? || entries != old(entries) ==>
        MayRemoveFile(old(entries), path) && entries == old(entries) - {path}
      ensures reliable && old(reachable) ==>
        && reachable
        && (r.Ok? <==> MayRemoveFile(old(entries), path))
        && (r.Err? ==> entries == old(entries))
    {
      var stopped := Interrupted();
      if stopped {
        return Err(Unavailable);
      }
      if !MayRemoveFile(entries, path) {
        return Err(UnsafeState);
      }
      RemovedClosed(entries, path);
      entries := entries - {path};
      stopped := Interrupted();
      if stopped {
        return Err(Unavailable);
      }
      r := Ok(());
    }

    method RemoveDir(path: Path) returns (r: Result<()>)
      requires Valid()
      modifies `entries, `reachable
      ensures r.Err? ==> Ordinary(r.error)
      ensures Valid()
      ensures !old(reachable) ==> r.Err? && !reachable && entries == old(entries)
      ensures r.Ok? || entries != old(entries) ==>
        MayRemoveDirectory(old(entries), path) && entries == old(entries) - {path}
      ensures reliable && old(reachable) ==>
        && reachable
        && (r.Ok? <==> MayRemoveDirectory(old(entries), path))
        && (r.Err? ==> entries == old(entries))
    {
      var stopped := Interrupted();
      if stopped {
        return Err(Unavailable);
      }
      if !MayRemoveDirectory(entries, path) {
        return Err(UnsafeState);
      }
      RemovedClosed(entries, path);
      entries := entries - {path};
      stopped := Interrupted();
      if stopped {
        return Err(Unavailable);
      }
      r := Ok(());
    }
  }

  lemma ChildNames(e: Files, path: Path)
    ensures forall n :: n in Children(e, path) <==> path + [n] in e
  {
    forall n
      ensures n in Children(e, path) <==> path + [n] in e
    {
      if path + [n] in e {
        assert path <= path + [n] && (path + [n])[|path|] == n;
      }
      if n in Children(e, path) {
        var p :| p in e && |p| == |path| + 1 && path <= p && p[|path|] == n;
        assert p == path + [n];
      }
    }
  }

  lemma CreatedClosed(e: Files, path: Path, entry: Entry)
    requires Closed(e) && MayCreate(e, path)
    ensures Closed(e[path := entry])
  {
    var e' := e[path := entry];
    assert IsDirectory(e', []);
    forall p | p in e' && p != []
      ensures IsDirectory(e', Parent(p))
    {
      assert IsDirectory(e, Parent(p));
    }
  }

  /** A file, or a directory without children, can go. */
  lemma RemovedClosed(e: Files, path: Path)
    requires Closed(e) && path != []
    requires MayRemoveDirectory(e, path) || MayRemoveFile(e, path)
    ensures Closed(e - {path})
  {
    var e' := e - {path};
    assert IsDirectory(e', []);
    ChildNames(e, path);
    forall p | p in e' && p != []
      ensures IsDirectory(e', Parent(p))
    {
      assert IsDirectory(e, Parent(p));
      assert p == Parent(p) + [Last(p)];
    }
  }

  /** Where each entry of a renamed tree comes from. */
  lemma MovedAt(e: Files, from: Path, to: Path, q: Path)
    requires Closed(e) && MayRename(e, from, to)
    ensures to <= q ==>
      && (q in Moved(e, from, to) <==> from + q[|to|..] in e)
      && (q in Moved(e, from, to) ==> Moved(e, from, to)[q] == e[from + q[|to|..]])
    ensures !(to <= q) ==>
      && (q in Moved(e, from, to) <==> q in e && !(from <= q))
      && (q in Moved(e, from, to) ==> Moved(e, from, to)[q] == e[q])
  {
    if to <= q {
      var p := from + q[|to|..];
      assert p[|from|..] == q[|to|..];
      assert to + p[|from|..] == q;
      if q in e {
        AncestorsExist(e, q, |to|);
        assert false;
      }
      if q in Moved(e, from, to) {
        var p' :| p' in e && from <= p' && q == to + p'[|from|..];
        assert p' == from + p'[|from|..];
        assert q[|to|..] == p'[|from|..];
      }
    } else {
      forall p | p in e && from <= p
        ensures q != to + p[|from|..]
      {
      }
    }
  }

  lemma {:induction false} AncestorsExist(e: Files, p: Path, n: nat)
    requires Closed(e) && p in e && n <= |p|
    ensures p[..n] in e
    ensures n < |p| ==> IsDirectory(e, p[..n])
    decreases |p| - n
  {
    if n == |p| {
      assert p[..n] == p;
    } else {
      AncestorsExist(e, p, n + 1);
      assert Parent(p[..n + 1]) == p[..n];
    }
  }

  lemma MovedClosed(e: Files, from: Path, to: Path)
    requires Closed(e) && MayRename(e, from, to)
    ensures Closed(Moved(e, from, to))
  {
    var m := Moved(e, from, to);
    MovedAt(e, from, to, []);
    forall p | p in m && p != []
      ensures IsDirectory(m, Parent(p))
    {
      MovedAt(e, from, to, p);
      MovedAt(e, from, to, Parent(p));
      if to <= p {
        if p == to {
          assert from <= Parent(p) ==> from <= to;
        } else {
          var source := from + p[|to|..];
          assert Parent(source) == from + Parent(p)[|to|..];
        }
      } else {
        assert from <= Parent(p) ==> from <= p;
        assert to <= Parent(p) ==> to <= p;
      }
    }
  }
}
