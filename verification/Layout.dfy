/** Where the transaction keeps its trees, and the filesystem steps on them. */
module Layout {
  import opened Basics
  import opened RemoteFiles
  import opened Trees
  import opened Packages
  import opened Inspection
  import opened Removal
  import opened Recovery

  datatype Slot = ActiveSlot | StagingSlot | BackupSlot | JournalSlot

  datatype Paths = Paths(config: Path) {
    function Components(): Path { config + ["custom_components"] }

    function Active(): Path { config + ["custom_components", "smarthome_mcp"] }

    function Transaction(): Path { config + [".smarthome_mcp-deploy"] }

    function Staging(): Path { config + [".smarthome_mcp-deploy", "staging"] }

    function Backup(): Path { config + [".smarthome_mcp-deploy", "backup"] }

    function Journal(): Path { config + [".smarthome_mcp-deploy", "journal.json"] }

    function Root(slot: Slot): Path {
      match slot
      case ActiveSlot => Active()
      case StagingSlot => Staging()
      case BackupSlot => Backup()
      case JournalSlot => Journal()
    }
  }

  function At(s: Slots, slot: Slot): Tree {
    match slot
    case ActiveSlot => s.active
    case StagingSlot => s.staging
    case BackupSlot => s.backup
    case JournalSlot => s.journal
  }

  function Put(s: Slots, slot: Slot, t: Tree): Slots {
    match slot
    case ActiveSlot => s.(active := t)
    case StagingSlot => s.(staging := t)
    case BackupSlot => s.(backup := t)
    case JournalSlot => s.(journal := t)
  }

  function SlotsOf(e: Files, paths: Paths): Slots {
    Slots(Sub(e, paths.Active()), Sub(e, paths.Staging()), Sub(e, paths.Backup()), Sub(e, paths.Journal()))
  }

  /** The directories that hold the trees exist. */
  predicate Ready(e: Files, paths: Paths) {
    IsDirectory(e, paths.Components()) && IsDirectory(e, paths.Transaction())
  }

  lemma RootsApart(paths: Paths, a: Slot, b: Slot)
    requires a != b
    ensures Apart(paths.Root(a), paths.Root(b))
  {
    var n := |paths.config|;
    var p, q := paths.Root(a), paths.Root(b);
    assert p[n] != q[n] || p[n + 1] != q[n + 1];
  }

  lemma HoldersOutside(paths: Paths, slot: Slot)
    ensures !(paths.Root(slot) <= paths.Components()) && !(paths.Root(slot) <= paths.Transaction())
    ensures paths.Root(slot) != []
    ensures Parent(paths.Root(slot)) == if slot.ActiveSlot? then paths.Components() else paths.Transaction()
  {
  }

  lemma AtRoot(e: Files, paths: Paths, slot: Slot)
    ensures At(SlotsOf(e, paths), slot) == Sub(e, paths.Root(slot))
  {
    hide Sub;
  }

  /** A step inside one slot leaves the others alone. */
  lemma WithinSlot(e: Files, e': Files, paths: Paths, slot: Slot)
    requires SameOutside(e, e', paths.Root(slot))
    ensures SlotsOf(e', paths) == Put(SlotsOf(e, paths), slot, Sub(e', paths.Root(slot)))
    ensures Ready(e, paths) ==> Ready(e', paths)
  {
    forall other | other != slot
      ensures At(SlotsOf(e', paths), other) == At(SlotsOf(e, paths), other)
    {
      RootsApart(paths, slot, other);
      SameOutsideSub(e, e', paths.Root(slot), paths.Root(other));
    }
    var s, s' := SlotsOf(e, paths), SlotsOf(e', paths);
    assert slot != ActiveSlot ==> At(s', ActiveSlot) == At(s, ActiveSlot);
    assert slot != StagingSlot ==> At(s', StagingSlot) == At(s, StagingSlot);
    assert slot != BackupSlot ==> At(s', BackupSlot) == At(s, BackupSlot);
    assert slot != JournalSlot ==> At(s', JournalSlot) == At(s, JournalSlot);
    HoldersOutside(paths, slot);
  }

  function Shifted(s: Slots, from: Slot, to: Slot): Slots {
    Put(Put(s, to, At(s, from)), from, NOTHING)
  }

  lemma RenamedSlot(e: Files, paths: Paths, from: Slot, to: Slot)
    requires Closed(e) && from != to && MayRename(e, paths.Root(from), paths.Root(to))
    ensures SlotsOf(Moved(e, paths.Root(from), paths.Root(to)), paths) == Shifted(SlotsOf(e, paths), from, to)
    ensures Ready(e, paths) ==> Ready(Moved(e, paths.Root(from), paths.Root(to)), paths)
    ensures At(SlotsOf(e, paths), from) != NOTHING && At(SlotsOf(e, paths), to) == NOTHING
  {
    hide Moved, Closed, MayRename, Sub, Ready;
    var m := Moved(e, paths.Root(from), paths.Root(to));
    SubAfterRename(e, paths.Root(from), paths.Root(to));
    AtRoot(e, paths, from);
    AtRoot(e, paths, to);
    AtRoot(m, paths, from);
    AtRoot(m, paths, to);
    var s, s' := SlotsOf(e, paths), SlotsOf(m, paths);
    forall other | other != from && other != to
      ensures At(s', other) == At(s, other)
    {
      RootsApart(paths, other, from);
      RootsApart(paths, other, to);
      SubApartFromRename(e, paths.Root(from), paths.Root(to), paths.Root(other));
      AtRoot(e, paths, other);
      AtRoot(m, paths, other);
    }
    SameSlots(s', Shifted(s, from, to));
    if Ready(e, paths) {
      RenameKeepsReady(e, paths, from, to);
    }
  }

  lemma SameSlots(s: Slots, r: Slots)
    requires forall slot :: At(s, slot) == At(r, slot)
    ensures s == r
  {
    assert At(s, ActiveSlot) == At(r, ActiveSlot);
    assert At(s, StagingSlot) == At(r, StagingSlot);
    assert At(s, BackupSlot) == At(r, BackupSlot);
    assert At(s, JournalSlot) == At(r, JournalSlot);
  }

  lemma RenameKeepsReady(e: Files, paths: Paths, from: Slot, to: Slot)
    requires Closed(e) && MayRename(e, paths.Root(from), paths.Root(to)) && Ready(e, paths)
    ensures Ready(Moved(e, paths.Root(from), paths.Root(to)), paths)
  {
    hide Moved;
    HoldersOutside(paths, from);
    HoldersOutside(paths, to);
    MovedAt(e, paths.Root(from), paths.Root(to), paths.Components());
    MovedAt(e, paths.Root(from), paths.Root(to), paths.Transaction());
  }

  lemma MayRenameSlot(e: Files, paths: Paths, from: Slot, to: Slot)
    requires Closed(e) && from != to && Ready(e, paths)
    ensures MayRename(e, paths.Root(from), paths.Root(to)) <==>
      At(SlotsOf(e, paths), from) != NOTHING && At(SlotsOf(e, paths), to) == NOTHING
  {
    RootsApart(paths, from, to);
    HoldersOutside(paths, from);
    HoldersOutside(paths, to);
    AbsentIsNothing(e, paths.Root(from));
    AbsentIsNothing(e, paths.Root(to));
    AtRoot(e, paths, from);
    AtRoot(e, paths, to);
  }

  // ---- steps ----

  /** Whether something is there. */
  method Present(fs: Remote, paths: Paths, slot: Slot) returns (r: Result<bool>)
    requires fs.Valid()
    modifies fs`reachable
    ensures r.Err? ==> Ordinary(r.error) && (fs.reliable && old(fs.reachable) ==> r.error == UnsafeState)
    ensures !old(fs.reachable) ==> r.Err? && !fs.reachable
    ensures r.Ok? ==>
      r.value == (At(SlotsOf(fs.entries, paths), slot) != NOTHING) && Plain(At(SlotsOf(fs.entries, paths), slot))
    ensures fs.reliable && old(fs.reachable) ==>
      fs.reachable && (r.Ok? <==> Plain(At(SlotsOf(fs.entries, paths), slot)))
  {
    AbsentIsNothing(fs.entries, paths.Root(slot));
    AtRoot(fs.entries, paths, slot);
    var node :- fs.Lstat(paths.Root(slot));
    return Ok(node.Some?);
  }

  method Move(fs: Remote, paths: Paths, from: Slot, to: Slot) returns (r: Result<()>)
    requires fs.Valid() && from != to
    modifies fs`entries, fs`reachable
    ensures r.Err? ==> Ordinary(r.error)
    ensures fs.Valid() && (Ready(old(fs.entries), paths) ==> Ready(fs.entries, paths))
    ensures !old(fs.reachable) ==> r.Err? && !fs.reachable && fs.entries == old(fs.entries)
    ensures r.Ok? || fs.entries != old(fs.entries) ==>
      var s := SlotsOf(old(fs.entries), paths);
      At(s, from) != NOTHING && At(s, to) == NOTHING && SlotsOf(fs.entries, paths) == Shifted(s, from, to)
    ensures fs.reliable && old(fs.reachable) && Ready(old(fs.entries), paths) ==>
      var s := SlotsOf(old(fs.entries), paths);
      && fs.reachable
      && (r.Ok? <==> At(s, from) != NOTHING && At(s, to) == NOTHING)
      && (r.Err? ==> fs.entries == old(fs.entries))
  {
    if MayRename(fs.entries, paths.Root(from), paths.Root(to)) {
      RenamedSlot(fs.entries, paths, from, to);
    }
    if Ready(fs.entries, paths) {
      MayRenameSlot(fs.entries, paths, from, to);
    }
    r := fs.Rename(paths.Root(from), paths.Root(to));
  }

  method Discard(fs: Remote, paths: Paths, slot: Slot, policy: TreePolicy, package: Package, formats: Formats)
    returns (r: Result<()>)
    requires fs.Valid()
    modifies fs`entries, fs`reachable
    ensures r.Err? ==> Ordinary(r.error)
    ensures fs.Valid() && (Ready(old(fs.entries), paths) ==> Ready(fs.entries, paths))
    ensures !old(fs.reachable) ==> r.Err? && !fs.reachable && fs.entries == old(fs.entries)
    ensures
      var s, s' := SlotsOf(old(fs.entries), paths), SlotsOf(fs.entries, paths);
      && s' == Put(s, slot, At(s', slot))
      && PartOf(At(s', slot), At(s, slot)) && Rooted(At(s', slot))
      && (r.Ok? ==> At(s', slot) == NOTHING)
    ensures fs.reliable && old(fs.reachable) ==>
      var t := At(SlotsOf(old(fs.entries), paths), slot);
      && fs.reachable
      && (r.Ok? <==> Fits(package, policy, t) && (policy.Recognized? ==> Older(formats, t, package)))
      && (r.Err? ==> fs.entries == old(fs.entries) && r.error == Refusal(formats, package, policy, t))
  {
    hide Fits, Older, PartOf, Rooted, SameOutside;
    HoldersOutside(paths, slot);
    AtRoot(fs.entries, paths, slot);
    r := RemovePackageTree(fs, paths.Root(slot), policy, package, formats);
    WithinSlot(old(fs.entries), fs.entries, paths, slot);
    AtRoot(fs.entries, paths, slot);
    SubIsRooted(fs.entries, paths.Root(slot));
  }

  ghost predicate IsFile(t: Tree) {
    [] in t && t[[]].File?
  }

  method DropJournal(fs: Remote, paths: Paths) returns (r: Result<()>)
    requires fs.Valid()
    modifies fs`entries, fs`reachable
    ensures r.Err? ==> Ordinary(r.error)
    ensures fs.Valid() && (Ready(old(fs.entries), paths) ==> Ready(fs.entries, paths))
    ensures !old(fs.reachable) ==> r.Err? && !fs.reachable && fs.entries == old(fs.entries)
    ensures r.Ok? || fs.entries != old(fs.entries) ==>
      SlotsOf(fs.entries, paths) == SlotsOf(old(fs.entries), paths).(journal := NOTHING)
    ensures fs.reliable && old(fs.reachable) ==>
      && fs.reachable
      && (r.Ok? <==> IsFile(SlotsOf(old(fs.entries), paths).journal))
      && (r.Err? ==> fs.entries == old(fs.entries))
  {
    var path := paths.Journal();
    assert path == paths.Root(JournalSlot);
    HoldersOutside(paths, JournalSlot);
    AbsentIsNothing(fs.entries, path);
    SubIsRooted(fs.entries, path);
    if MayRemoveFile(fs.entries, path) {
      FileStandsAlone(Sub(fs.entries, path));
      SubAfterRemove(fs.entries, path, []);
      assert path + [] == path;
      WithinSlot(fs.entries, fs.entries - {path}, paths, JournalSlot);
    }
    r := fs.RemoveFile(path);
  }

  lemma FileStandsAlone(t: Tree)
    requires Rooted(t) && IsFile(t)
    ensures t - {[]} == NOTHING
  {
    forall q | q in t && q != []
      ensures false
    {
      RootDirectory(t, q);
    }
  }

  lemma {:induction false} RootDirectory(t: Tree, q: Path)
    requires Rooted(t) && q in t && q != []
    ensures [] in t && t[[]].Directory?
    decreases |q|
  {
    if Parent(q) != [] {
      RootDirectory(t, Parent(q));
    }
  }

  /** What a new entry of a tree needs. */
  ghost predicate MayAdd(e: Files, paths: Paths, slot: Slot, q: Path) {
    var t := At(SlotsOf(e, paths), slot);
    q !in t && if q == [] then Ready(e, paths) else IsDirectory(t, Parent(q))
  }

  lemma AddedEntry(e: Files, paths: Paths, slot: Slot, q: Path, entry: Entry)
    requires Closed(e) && MayCreate(e, paths.Root(slot) + q)
    ensures
      var s := SlotsOf(e, paths);
      SlotsOf(e[paths.Root(slot) + q := entry], paths) == Put(s, slot, At(s, slot)[q := entry])
    ensures Ready(e, paths) ==> Ready(e[paths.Root(slot) + q := entry], paths)
  {
    AtRoot(e, paths, slot);
    SubAfterCreate(e, paths.Root(slot), q, entry);
    assert paths.Root(slot) <= paths.Root(slot) + q;
    WithinSlot(e, e[paths.Root(slot) + q := entry], paths, slot);
  }

  lemma MayAddIsMayCreate(e: Files, paths: Paths, slot: Slot, q: Path)
    requires Closed(e) && Ready(e, paths)
    ensures MayAdd(e, paths, slot, q) <==> MayCreate(e, paths.Root(slot) + q)
  {
    var root := paths.Root(slot);
    AtRoot(e, paths, slot);
    HoldersOutside(paths, slot);
    if q == [] {
      assert root + q == root;
    } else {
      assert Parent(root + q) == root + Parent(q);
    }
  }

  // ---- the journal ----

  method VerifyExactPrivateFile(fs: Remote, path: Path, expected: Bytes) returns (r: Result<()>)
    modifies fs`reachable
    ensures r.Err? ==> Ordinary(r.error)
    ensures !old(fs.reachable) ==> r.Err? && !fs.reachable
    ensures r.Ok? ==> path in fs.entries && fs.entries[path] == File(expected, PRIVATE_MODE)
    ensures fs.reliable && old(fs.reachable) ==>
      && fs.reachable
      && (r.Ok? <==>
            path in fs.entries && fs.entries[path] == File(expected, PRIVATE_MODE) && |expected| <= MAX_FILE_SIZE)
  {
    var node :- fs.Lstat(path);
    if node.None? || node.value.kind != FileNode || node.value.mode != PRIVATE_MODE || node.value.size != |expected| {
      return Err(UnsafeState);
    }
    var bytes :- fs.Read(path);
    if bytes != expected {
      return Err(UnsafeState);
    }
    return Ok(());
  }

  method WriteJournal(fs: Remote, paths: Paths, formats: Formats, journal: Journal) returns (r: Result<()>)
    requires fs.Valid() && formats.Valid() && journal.schema == 1 && |formats.seal(journal)| <= MAX_JOURNAL_SIZE
    modifies fs`entries, fs`reachable
    ensures r.Err? ==> Ordinary(r.error)
    ensures fs.Valid() && (Ready(old(fs.entries), paths) ==> Ready(fs.entries, paths))
    ensures !old(fs.reachable) ==> r.Err? && !fs.reachable && fs.entries == old(fs.entries)
    ensures
      var s, s' := SlotsOf(old(fs.entries), paths), SlotsOf(fs.entries, paths);
      && s' == s.(journal := s'.journal)
      && (fs.entries != old(fs.entries) ==>
            s.journal == NOTHING && JournalAt(formats, s'.journal) in {Unreadable, Written(journal)})
      && (r.Ok? ==> JournalAt(formats, s'.journal) == Written(journal))
    ensures fs.reliable && old(fs.reachable) && Ready(old(fs.entries), paths) ==>
      fs.reachable && (SlotsOf(old(fs.entries), paths).journal == NOTHING ==> r.Ok?)
  {
    var path := paths.Journal();
    ghost var e := fs.entries;
    assert path == paths.Root(JournalSlot) && path + [] == path;
    AbsentIsNothing(e, path);
    if Ready(e, paths) {
      MayAddIsMayCreate(e, paths, JournalSlot, []);
    }
    var bytes := formats.seal(journal);
    var written := fs.WriteExclusive(path, bytes, PRIVATE_MODE);
    if fs.entries != e || written.Ok? {
      ghost var entry := fs.entries[path];
      AddedEntry(e, paths, JournalSlot, [], entry);
      JournalEntry(formats, journal, entry);
    }
    if written.Err? {
      return written;
    }
    r := VerifyExactPrivateFile(fs, path, bytes);
  }

  /** A journal file that holds a part of a journal is no journal. */
  lemma JournalEntry(formats: Formats, journal: Journal, entry: Entry)
    requires formats.Valid() && journal.schema == 1 && |formats.seal(journal)| <= MAX_JOURNAL_SIZE
    requires entry.File? && entry.mode == PRIVATE_MODE && entry.bytes <= formats.seal(journal)
    ensures JournalAt(formats, NOTHING[[] := entry]) ==
      if entry.bytes == formats.seal(journal) then Written(journal) else Unreadable
  {
    assert NOTHING[[] := entry][[]] == entry;
    assert entry.bytes != formats.seal(journal) ==> entry.bytes < formats.seal(journal);
  }
}
