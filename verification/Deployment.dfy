/** One deployment under the lock, and any number of them with failures. */
module Deployment {
  import opened Basics
  import opened RemoteFiles
  import opened Trees
  import opened Packages
  import opened Inspection
  import opened Removal
  import opened Recovery
  import opened Layout
  import opened Transaction
  import opened Shown

  datatype Outcome = Outcome(operation: string, changed: bool, previous: Option<string>)

  /** The compiled-in version is short enough for its journal to be read back. */
  ghost predicate Journalable(formats: Formats, package: Package) {
    forall operation :: |formats.seal(Journal(1, operation, package.version))| <= MAX_JOURNAL_SIZE
  }

  /** An active tree that a deployment may start from. */
  ghost predicate Accepted(formats: Formats, package: Package, active: Tree) {
    active == NOTHING || Replaceable(formats, package, active) || Exact(package, active)
  }

  /** What a deployment decides to do with the active tree. */
  datatype Plan = Refuse(error: DeployError) | Keep | Replace(operation: Operation, previous: Option<string>)

  /** The tree is a package of this domain whose manifest says `version`. */
  ghost predicate HasVersion(formats: Formats, t: Tree, version: string) {
    && MANIFEST in t && t[MANIFEST].File?
    && formats.manifest(t[MANIFEST].bytes) == Some(Manifest(DOMAIN, version))
  }

  /** What a deployment that succeeded has to answer, when `former` was in use. */
  ghost predicate Truthful(formats: Formats, package: Package, former: Tree, outcome: Outcome) {
    && (outcome.changed <==> former != PackageTree(package))
    && (former == PackageTree(package) ==> outcome.operation == "noop" && outcome.previous == None)
    && (former == NOTHING ==> outcome.operation == "install" && outcome.previous == None)
    && (former != NOTHING && former != PackageTree(package) ==>
          && outcome.operation == "update"
          && outcome.previous.Some? && HasVersion(formats, former, outcome.previous.value))
  }

  /** Reads the active tree and compares versions. */
  method Decide(fs: Remote, paths: Paths, formats: Formats, package: Package) returns (plan: Plan)
    requires fs.Valid() && formats.Valid() && ValidPackage(formats, package)
    modifies fs`reachable
    ensures !old(fs.reachable) ==> plan.Refuse? && !fs.reachable
    ensures
      var active := SlotsOf(fs.entries, paths).active;
      match plan
      case Keep => Exact(package, active)
      case Replace(Install, previous) => active == NOTHING && previous == None
      case Replace(Update, previous) =>
        && active != NOTHING && Replaceable(formats, package, active)
        && previous.Some? && HasVersion(formats, active, previous.value)
      case Refuse(_) => true
    ensures plan.Replace? ==> formats.rank(package.version).Some?
    ensures fs.reliable && old(fs.reachable) ==>
      && fs.reachable
      && (plan.Refuse? <==>
            !(formats.rank(package.version).Some? && Accepted(formats, package, SlotsOf(fs.entries, paths).active)))
      && (plan.Refuse? ==>
            var active := SlotsOf(fs.entries, paths).active;
            plan.error == if formats.rank(package.version).None?
                             && (active == NOTHING || Fits(package, Recognized, active))
                          then VerificationFailed else UnsafeState)
  {
    hide Fits, TreeOf, ValidPackage;
    ghost var active := SlotsOf(fs.entries, paths).active;
    NoRootFile(formats, package);
    IncomingIsThere(package);
    NothingDoesNotFit(package, Recognized);
    assert paths.Active() == paths.Root(ActiveSlot);
    AtRoot(fs.entries, paths, ActiveSlot);
    ExactIsNotOlder(formats, package, active);
    var inspected := Inspect(fs, paths.Active(), Recognized, package);
    if inspected.Err? {
      return Refuse(inspected.error);
    }
    var target := formats.rank(package.version);
    if target.None? {
      return Refuse(VerificationFailed);
    }
    if inspected.value.None? {
      return Replace(Install, None);
    }
    var found := inspected.value.value;
    DescribedContents(found, active);
    DescribedManifest(found, active);
    if MANIFEST !in found.files {
      return Refuse(UnsafeState);
    }
    var manifest := formats.manifest(found.files[MANIFEST]);
    if manifest.None? || manifest.value.domain != DOMAIN {
      return Refuse(UnsafeState);
    }
    var current := formats.rank(manifest.value.version);
    if current.None? {
      return Refuse(UnsafeState);
    }
    if current.value > target.value {
      return Refuse(UnsafeState);
    }
    if current.value == target.value {
      if manifest.value.version != package.version {
        return Refuse(UnsafeState);
      }
      ExactMeansPackage(package, found, active);
      FormatsDistinct(formats, package);
      var verified := VerifyExact(formats, package, found);
      if verified.Err? {
        return Refuse(UnsafeState);
      }
      return Keep;
    }
    return Replace(Update, Some(manifest.value.version));
  }

  lemma FormatsDistinct(formats: Formats, package: Package)
    requires ValidPackage(formats, package)
    ensures DistinctPaths(package.files)
  {
  }

  lemma DescribedManifest(found: InspectedTree, t: Tree)
    requires Describes(found, t)
    ensures MANIFEST in found.files <==> MANIFEST in t && t[MANIFEST].File?
    ensures MANIFEST in found.files ==> t[MANIFEST].bytes == found.files[MANIFEST]
  {
  }

  /** The package's own tree carries its own version. */
  lemma ExactIsNotOlder(formats: Formats, package: Package, t: Tree)
    requires ValidPackage(formats, package)
    ensures Exact(package, t) ==>
      && MANIFEST in t && t[MANIFEST].File?
      && formats.manifest(t[MANIFEST].bytes) == Some(Manifest(DOMAIN, package.version))
      && !Older(formats, t, package)
  {
    PackageVersion(formats, package);
  }

  /** The server before staging: reconciled, with an active tree to replace. */
  ghost predicate Cleared(formats: Formats, package: Package, base: Tree, s: Slots) {
    && s.active == base && s.staging == NOTHING && s.journal == NOTHING
    && (s.backup == NOTHING || Replaceable(formats, package, s.backup))
    && (base == NOTHING || Replaceable(formats, package, base))
  }

  lemma ClearedIsResidue(formats: Formats, package: Package, base: Tree, s: Slots, staging: Tree)
    requires Cleared(formats, package, base, s) && Draft(package, staging) && Rooted(staging)
    ensures Residue(formats, package, Ledger(base, PackageTree(package)), s.(staging := staging))
  {
    if s.backup != NOTHING {
      ReplaceableFacts(formats, package, s.backup);
    }
  }

  lemma JournalIsResidue(formats: Formats, package: Package, l: Ledger, s: Slots, journal: Tree, operation: Operation)
    requires Residue(formats, package, l, s) && s.journal == NOTHING && s.staging == l.incoming
    requires JournalAt(formats, journal) in {Unreadable, Written(Journal(1, operation, package.version))}
    requires operation == Install <==> l.base == NOTHING
    requires operation == Update ==> Replaceable(formats, package, l.base)
    ensures Residue(formats, package, l, s.(journal := journal))
    ensures JournalAt(formats, journal).Written? ==> Staged(formats, package, l, s.(journal := journal), operation)
  {
  }

  /** What was staged is gone if it can be removed at all. */
  ghost predicate Cleaned(package: Package, s: Slots) {
    s.journal == NOTHING && (s.staging == NOTHING || !Fits(package, CurrentPartial, s.staging))
  }

  /** Stages, journals and commits the replacement of `base`. */
  method Deliver(fs: Remote, paths: Paths, formats: Formats, package: Package, operation: Operation, ghost base: Tree)
    returns (r: Result<()>, ghost shown: seq<Tree>, ghost slipped: bool)
    requires fs.Valid() && formats.Valid() && ValidPackage(formats, package) && Journalable(formats, package)
    requires Ready(fs.entries, paths) && Cleared(formats, package, base, SlotsOf(fs.entries, paths))
    requires operation == Install <==> base == NOTHING
    modifies fs`entries, fs`reachable
    ensures fs.Valid() && Ready(fs.entries, paths)
    ensures
      var l := Ledger(base, PackageTree(package));
      var s' := SlotsOf(fs.entries, paths);
      && Residue(formats, package, Settle(l, s'), s')
      && Settle(l, s').base in {base, PackageTree(package)}
      && (r.Ok? ==> s'.active == PackageTree(package) && s'.journal == NOTHING && s'.staging == NOTHING)
      && (r == Err(CleanupIncomplete) ==> s'.active == PackageTree(package) && s'.staging == NOTHING)
      && (r.Ok? && operation == Update ==> s'.backup == base)
      && Shows(l, shown, slipped, s'.active)
    ensures r.Ok? ==> Deployable(formats, package)
    ensures slipped ==> r.Err?
    ensures fs.reliable && old(fs.reachable) ==> fs.reachable && !slipped && (r.Ok? <==> Deployable(formats, package))
    ensures fs.reliable && old(fs.reachable) && r.Err? ==> Cleaned(package, SlotsOf(fs.entries, paths))
  {
    hide Fits, Older, Draft, Rooted, PackageTree, SlotsOf, Ready, Residue, Deployable, ValidPackage, PartOf, Shows;
    ghost var l := Ledger(base, PackageTree(package));
    ghost var s0 := SlotsOf(fs.entries, paths);
    shown, slipped := [base], false;
    BaseDiffers(formats, package, base);
    NothingShown(l);
    var staged := Stage(fs, paths, formats, package);
    SlotsRooted(fs.entries, paths);
    ClearedIsResidue(formats, package, base, s0, SlotsOf(fs.entries, paths).staging);
    if staged.Err? {
      DraftIsPlain(package, SlotsOf(fs.entries, paths).staging);
      var present :- Present(fs, paths, StagingSlot);
      if present {
        ghost var s1 := SlotsOf(fs.entries, paths);
        var removed := Discard(fs, paths, StagingSlot, CurrentPartial, package, formats);
        StillDraft(formats, package, l, s1, SlotsOf(fs.entries, paths).staging);
        if removed.Err? {
          return removed, shown, slipped;
        }
      }
      return staged, shown, slipped;
    }
    ghost var s2 := SlotsOf(fs.entries, paths);
    var journal := Journal(1, operation, package.version);
    var written := WriteJournal(fs, paths, formats, journal);
    ghost var s3 := SlotsOf(fs.entries, paths);
    if s3 != s2 {
      JournalIsResidue(formats, package, l, s2, s3.journal, operation);
    }
    if written.Err? {
      return written, shown, slipped;
    }
    r, shown, slipped := Commit(fs, paths, formats, package, operation, l);
  }

  lemma DraftIsPlain(package: Package, t: Tree)
    requires Draft(package, t)
    ensures Plain(t)
  {
  }

  lemma BaseDiffers(formats: Formats, package: Package, base: Tree)
    requires ValidPackage(formats, package)
    requires base == NOTHING || Replaceable(formats, package, base)
    ensures base != PackageTree(package) && PackageTree(package) != NOTHING
    ensures base == NOTHING || Newer(formats, base, PackageTree(package))
  {
    IncomingIsThere(package);
    PackageVersion(formats, package);
  }

  lemma NotExact(formats: Formats, package: Package, base: Tree)
    requires ValidPackage(formats, package)
    requires base == NOTHING || Replaceable(formats, package, base)
    ensures !Exact(package, base)
  {
    BaseDiffers(formats, package, base);
  }

  lemma NothingShown(l: Ledger)
    requires l.incoming != NOTHING && l.base != l.incoming
    ensures Shows(l, [l.base], false, l.base)
  {
  }

  lemma StillDraft(formats: Formats, package: Package, l: Ledger, s: Slots, staging: Tree)
    requires Residue(formats, package, l, s) && s.journal == NOTHING
    requires PartOf(staging, s.staging) && Rooted(staging)
    ensures Residue(formats, package, l, s.(staging := staging))
  {
    ResidueStaging(formats, package, l, s, staging);
  }

  /** What one deployment shows in active. The new tree is taken back exactly if
      the second rename slipped and the tree did not come to stay after all. */
  ghost predicate Showed(formats: Formats, package: Package, l: Ledger, s: Slots, l': Ledger, s': Slots,
                         shown: seq<Tree>, slipped: bool)
  {
    && (TakenBack(package, shown) <==> slipped && End(shown) != PackageTree(package))
    && Between(formats, package, Holder(l, s), shown, Holder(l', s'))
    && shown[0] == s.active && End(shown) == s'.active
  }

  lemma NothingNewShown(formats: Formats, package: Package, l: Ledger, s: Slots, l': Ledger, s': Slots)
    requires Holder(l', s') == Holder(l, s)
    requires s'.active == s.active || (s.active == NOTHING && s'.active == l.base)
    ensures Showed(formats, package, l, s, l', s', [s.active, s'.active], false)
    ensures s == s' && l == l' ==> Showed(formats, package, l, s, l', s', [s.active], false)
    ensures !TakenBack(package, [s.active, s'.active])
  {
    hide PackageTree;
    IncomingIsThere(package);
  }

  lemma DeliveryShown(formats: Formats, package: Package, l: Ledger, s: Slots, s1: Slots, l': Ledger, s': Slots,
                      delivery: seq<Tree>, slipped: bool)
    requires Holder(Settle(l, s1), s1) == Holder(l, s) && s1.journal == NOTHING
    requires s1.active == s.active || (s.active == NOTHING && s1.active == l.base)
    requires Replaces(formats, package)
    requires var base, incoming := s1.active, PackageTree(package);
      && base != incoming && incoming != NOTHING && (base == NOTHING || Newer(formats, base, incoming))
      && Shows(Ledger(base, incoming), delivery, slipped, s'.active)
      && l' == Settle(Ledger(base, incoming), s') && l'.base in {base, incoming}
    ensures Showed(formats, package, l, s, l', s', [s.active, s1.active] + delivery, slipped)
  {
    hide PackageTree, Newer, Between, Replaces;
    var base, incoming := s1.active, PackageTree(package);
    var shown := [s.active, s1.active] + delivery;
    LaterRetreat([s.active, s1.active], delivery, base, incoming);
    assert shown[1] == base && shown[|shown| - 1] == delivery[|delivery| - 1] == s'.active && s'.active in delivery;
    assert incoming in shown <==> incoming in delivery;
    ReplacementShows(formats, package, shown, base, Holder(l', s'));
  }

  /** When a deployment succeeds that nothing disturbs, once it has the lock. */
  ghost predicate Succeeds(formats: Formats, package: Package, s: Slots) {
    && Recoverable(formats, package, s)
    && formats.rank(package.version).Some?
    && (Exact(package, Reconciled(formats, s).active)
        || (Deployable(formats, package) && Accepted(formats, package, Reconciled(formats, s).active)))
  }

  /** Reconciles, decides and replaces. Whatever interrupts it, the server stays
      safe and the committed version never goes back; once the replacement has
      begun, an interruption leaves a residue of this package. `shown` are the
      active trees, at first and after each rename; `slipped` is that of
      `Commit`. */
  method RunLocked(fs: Remote, paths: Paths, formats: Formats, package: Package, ghost l: Ledger)
    returns (r: Result<Outcome>, ghost after: Ledger, ghost begun: bool, ghost shown: seq<Tree>, ghost slipped: bool)
    requires fs.Valid() && formats.Valid() && ValidPackage(formats, package) && Journalable(formats, package)
    requires Ready(fs.entries, paths) && Safe(formats, l, SlotsOf(fs.entries, paths))
    modifies fs`entries, fs`reachable
    ensures fs.Valid() && Ready(fs.entries, paths)
    ensures Safe(formats, after, SlotsOf(fs.entries, paths))
    ensures Forward(formats, l.base, after.base)
    ensures after.base in {l.base, l.incoming, PackageTree(package)}
    ensures after.incoming in {l.incoming, PackageTree(package)}
    ensures begun || Residue(formats, package, l, SlotsOf(old(fs.entries), paths)) ==>
      Residue(formats, package, after, SlotsOf(fs.entries, paths))
    ensures
      var s, s' := SlotsOf(old(fs.entries), paths), SlotsOf(fs.entries, paths);
      if begun then after.base in {Holder(l, s), PackageTree(package)} else Holder(after, s') == Holder(l, s)
    ensures r.Ok? ==>
      var s' := SlotsOf(fs.entries, paths);
      s'.active == PackageTree(package) && s'.journal == NOTHING && s'.staging == NOTHING
    ensures r == Err(CleanupIncomplete) ==>
      var s' := SlotsOf(fs.entries, paths);
      && s'.active == (if begun then PackageTree(package)
                        else Reconciled(formats, SlotsOf(old(fs.entries), paths)).active)
      && s'.staging == NOTHING
    ensures r.Ok? ==> (r.value.changed <==> begun)
    ensures r.Ok? ==> Truthful(formats, package, Holder(l, SlotsOf(old(fs.entries), paths)), r.value)
    ensures Showed(formats, package, l, SlotsOf(old(fs.entries), paths), after, SlotsOf(fs.entries, paths), shown,
      slipped)
    ensures slipped ==> begun && r.Err?
    ensures fs.reliable && old(fs.reachable) ==>
      var s := SlotsOf(old(fs.entries), paths);
      && fs.reachable && !slipped
      && (r.Err? && begun ==> Cleaned(package, SlotsOf(fs.entries, paths)))
      && (r.Ok? <==> Succeeds(formats, package, s))
  {
    hide Showed, TakenBack, Cleaned, Safe, Forward, Rising, Fits, Older, Draft, Rooted, PackageTree, SlotsOf, Ready,
      Residue,
      Deployable,
      ValidPackage, Exact, Newer, VersionOf, Recoverable, Journalable;
    begun, slipped := false, false;
    ghost var s0 := SlotsOf(fs.entries, paths);
    var reconciled := Reconcile(fs, paths, formats, package, l);
    ghost var s1 := SlotsOf(fs.entries, paths);
    after, shown := Settle(l, s1), [s0.active, s1.active];
    NothingNewShown(formats, package, l, s0, after, s1);
    if reconciled.Err? {
      return Err(reconciled.error), after, begun, shown, slipped;
    }
    var plan := Decide(fs, paths, formats, package);
    match plan {
      case Refuse(error) =>
        return Err(error), after, begun, shown, slipped;
      case Keep =>
        ExactIsPackage(package, s1.active);
        IncomingIsThere(package);
        return Ok(Outcome("noop", false, None)), after, begun, shown, slipped;
      case Replace(operation, previous) =>
        begun := true;
        var delivered;
        ghost var delivery;
        delivered, delivery, slipped := Deliver(fs, paths, formats, package, operation, s1.active);
        ghost var s2 := SlotsOf(fs.entries, paths);
        after := Settle(Ledger(s1.active, PackageTree(package)), s2);
        shown := shown + delivery;
        AfterDelivery(formats, package, l, s0, s1, after, s2, delivery, slipped);
        if delivered.Err? {
          return Err(delivered.error), after, begun, shown, slipped;
        }
        var operation' := if operation == Update then "update" else "install";
        return Ok(Outcome(operation', true, previous)), after, begun, shown, slipped;
    }
  }

  /** What a delivery means for the whole deployment. */
  lemma AfterDelivery(formats: Formats, package: Package, l: Ledger, s: Slots, s1: Slots, l': Ledger, s': Slots,
                      delivery: seq<Tree>, slipped: bool)
    requires Replaces(formats, package)
    requires s1.journal == NOTHING && Forward(formats, l.base, s1.active)
    requires s1.active == NOTHING || Replaceable(formats, package, s1.active)
    requires Holder(Settle(l, s1), s1) == Holder(l, s)
    requires s1.active == s.active || (s.active == NOTHING && s1.active == l.base)
    requires Shows(Ledger(s1.active, PackageTree(package)), delivery, slipped, s'.active)
    requires l' == Settle(Ledger(s1.active, PackageTree(package)), s') && l'.base in {s1.active, PackageTree(package)}
    requires Residue(formats, package, l', s')
    ensures Safe(formats, l', s') && Forward(formats, l.base, l'.base)
    ensures s1.active == Holder(l, s) && !Exact(package, s1.active) && s1.active != PackageTree(package)
    ensures Showed(formats, package, l, s, l', s', [s.active, s1.active] + delivery, slipped)
  {
    hide TakenBack, Fits, Older, Exact, Draft, Rooted, PackageTree, Residue, ValidPackage, Newer, Replaceable,
      Forward, Safe,
      Shows, Showed;
    ResidueIsSafe(formats, package, l', s');
    DeliveredForward(formats, package, s1.active, l'.base);
    ForwardTransitive(formats, l.base, s1.active, l'.base);
    BaseDiffers(formats, package, s1.active);
    DeliveryShown(formats, package, l, s, s1, l', s', delivery, slipped);
    NotExact(formats, package, s1.active);
  }

  lemma ExactIsPackage(package: Package, t: Tree)
    requires Exact(package, t)
    ensures t == PackageTree(package)
  {
  }

  lemma DeliveredForward(formats: Formats, package: Package, base: Tree, after: Tree)
    requires ValidPackage(formats, package)
    requires base == NOTHING || Replaceable(formats, package, base)
    requires after in {base, PackageTree(package)}
    ensures Forward(formats, base, after)
  {
    PackageVersion(formats, package);
    IncomingIsThere(package);
  }

  // ---- recovery after an interruption ----

  /** A residue never makes `reconcile` refuse late. */
  lemma ResidueRefusesEarly(formats: Formats, package: Package, l: Ledger, s: Slots)
    requires Deployable(formats, package) && Residue(formats, package, l, s)
    ensures !RefusedLate(formats, package, s)
  {
    CopyFits(formats, package, CurrentPartial);
    if JournalAt(formats, s.journal).Written? && JournalAt(formats, s.journal).journal.operation == Update {
      ReplaceableFacts(formats, package, l.base);
    }
  }

  /** Any number of deployments of a package, each interrupted anywhere or not,
      and then one reconcile that is not: if any of them began to replace, it
      succeeds exactly when the server was not left stuck, and then journal and
      staging are gone and the active tree is the one in use before them all or
      the complete new one. When it refuses, it has changed nothing. */
  method RecoverFromInterruptions(fs: Remote, paths: Paths, formats: Formats, package: Package, runs: nat,
                                  ghost l: Ledger)
    returns (r: Result<()>, ghost interrupted: Slots, ghost begun: bool)
    requires fs.Valid() && formats.Valid() && Deployable(formats, package) && Journalable(formats, package)
    requires formats.rank(package.version).Some?
    requires Ready(fs.entries, paths) && Safe(formats, l, SlotsOf(fs.entries, paths))
    modifies fs
    ensures fs.Valid()
    ensures begun ==>
      var s, s' := SlotsOf(old(fs.entries), paths), SlotsOf(fs.entries, paths);
      && (r.Ok? <==> !Stuck(formats, interrupted, PackageTree(package)))
      && (r.Ok? ==>
            && s'.journal == NOTHING && s'.staging == NOTHING
            && s'.active in {Holder(l, s), PackageTree(package)})
      && (r.Err? ==> s' == interrupted)
  {
    hide Fits, Older, Draft, Rooted, PackageTree, SlotsOf, Ready, Deployable, Exact, Newer, VersionOf, Recoverable,
      Journalable, Stuck, Replaceable, Residue, RefusedLate, Showed, Safe, Settle, Holder, ValidPackage;
    DeployableIsValid(formats, package);
    ghost var after := l;
    ghost var inUse := Holder(l, SlotsOf(fs.entries, paths));
    begun := false;
    for k := 0 to runs
      invariant fs.Valid() && Ready(fs.entries, paths) && Safe(formats, after, SlotsOf(fs.entries, paths))
      invariant Interrupted(formats, package, inUse, begun, after, SlotsOf(fs.entries, paths))
    {
      var dependable: bool := *;
      fs.Connect(dependable);
      var outcome;
      ghost var before := after;
      ghost var began, shown, slipped;
      ghost var s := SlotsOf(fs.entries, paths);
      outcome, after, began, shown, slipped := RunLocked(fs, paths, formats, package, before);
      StillInterrupted(formats, package, inUse, begun, before, s, began, after, SlotsOf(fs.entries, paths));
      begun := begun || began;
    }
    interrupted := SlotsOf(fs.entries, paths);
    fs.Connect(true);
    if begun {
      ResidueVerdict(formats, package, after, interrupted);
      ResidueLedger(formats, package, after, interrupted);
      ResidueRefusesEarly(formats, package, after, interrupted);
    }
    r := Reconcile(fs, paths, formats, package, after);
    if begun {
      InUseInTheEnd(formats, package, inUse, after, interrupted, SlotsOf(fs.entries, paths));
    }
  }

  /** What interrupted deployments leave. */
  ghost predicate Interrupted(formats: Formats, package: Package, inUse: Tree, begun: bool, l: Ledger, s: Slots) {
    if begun
    then Residue(formats, package, l, s) && l.base in {inUse, PackageTree(package)}
    else Holder(l, s) == inUse
  }

  lemma StillInterrupted(formats: Formats, package: Package, inUse: Tree, begun: bool, l: Ledger, s: Slots,
                         began: bool, l': Ledger, s': Slots)
    requires Interrupted(formats, package, inUse, begun, l, s)
    requires began || Residue(formats, package, l, s) ==> Residue(formats, package, l', s')
    requires if began then l'.base in {Holder(l, s), PackageTree(package)} else Holder(l', s') == Holder(l, s)
    requires l'.base in {l.base, l.incoming, PackageTree(package)}
    ensures Interrupted(formats, package, inUse, begun || began, l', s')
  {
    hide PackageTree, Replaceable, Remnant, Draft, Rooted;
  }

  lemma InUseInTheEnd(formats: Formats, package: Package, inUse: Tree, l: Ledger, s: Slots, s': Slots)
    requires Interrupted(formats, package, inUse, true, l, s)
    requires Holder(Settle(l, s'), s') == Holder(l, s)
    ensures s'.journal == NOTHING ==> s'.active in {inUse, PackageTree(package)}
  {
    hide PackageTree, Replaceable, Remnant, Draft, Rooted;
  }

  lemma DeployableIsValid(formats: Formats, package: Package)
    requires Deployable(formats, package)
    ensures ValidPackage(formats, package)
  {
  }

  lemma ResidueLedger(formats: Formats, package: Package, l: Ledger, s: Slots)
    requires Residue(formats, package, l, s)
    ensures l.incoming == PackageTree(package)
  {
  }

  // ---- whole runs ----

  /** A directory is there and has the mode it should. */
  predicate DirectoryInOrder(e: Files, path: Path) {
    path in e && e[path] == Directory(DIRECTORY_MODE)
  }

  /** A deployment can begin: the configuration directory is there, and its two
      directories are in order or missing. */
  ghost predicate MayBegin(e: Files, paths: Paths) {
    && IsDirectory(e, paths.config)
    && (paths.Transaction() !in e || DirectoryInOrder(e, paths.Transaction()))
    && (paths.Components() !in e || DirectoryInOrder(e, paths.Components()))
  }

  lemma BeginningHasRoom(e: Files, e': Files, paths: Paths)
    requires IsDirectory(e, paths.config) && OnlyAt(e, e', paths.Transaction())
    ensures MayCreate(e, paths.Transaction()) <==> paths.Transaction() !in e
    ensures MayCreate(e', paths.Components()) <==> paths.Components() !in e
    ensures DirectoryInOrder(e', paths.Components()) <==> DirectoryInOrder(e, paths.Components())
  {
    HoldersDiffer(paths);
    assert Parent(paths.Transaction()) == paths.config && Parent(paths.Components()) == paths.config;
  }

  method EnsureDirectory(fs: Remote, path: Path) returns (r: Result<()>)
    requires fs.Valid()
    modifies fs`entries, fs`reachable
    ensures r.Err? ==> Ordinary(r.error) && (fs.reliable && old(fs.reachable) ==> r.error == UnsafeState)
    ensures fs.Valid() && OnlyAt(old(fs.entries), fs.entries, path)
    ensures fs.entries == old(fs.entries) || path !in old(fs.entries)
    ensures r.Ok? ==> DirectoryInOrder(fs.entries, path)
    ensures fs.reliable && old(fs.reachable) ==>
      fs.reachable && (r.Ok? <==> MayCreate(old(fs.entries), path) || DirectoryInOrder(old(fs.entries), path))
  {
    var node :- fs.Lstat(path);
    if node.None? {
      r := fs.Mkdir(path, DIRECTORY_MODE);
      return;
    }
    if node.value.kind == DirectoryNode && node.value.mode == DIRECTORY_MODE {
      return Ok(());
    }
    return Err(UnsafeState);
  }

  lemma HoldersApart(e: Files, e': Files, paths: Paths, path: Path)
    requires path == paths.Components() || path == paths.Transaction()
    requires OnlyAt(e, e', path)
    ensures SlotsOf(e', paths) == SlotsOf(e, paths)
  {
    HoldersOutside(paths, ActiveSlot);
    HoldersOutside(paths, StagingSlot);
    HoldersOutside(paths, BackupSlot);
    HoldersOutside(paths, JournalSlot);
    SameElsewhere(e, e', path, paths.Active());
    SameElsewhere(e, e', path, paths.Staging());
    SameElsewhere(e, e', path, paths.Backup());
    SameElsewhere(e, e', path, paths.Journal());
  }

  /** One deployment from the start; the lease lock around it is in `LeaseLock`. */
  method RunTransaction(fs: Remote, paths: Paths, formats: Formats, package: Package, ghost l: Ledger)
    returns (r: Result<Outcome>, ghost after: Ledger, ghost shown: seq<Tree>, ghost slipped: bool)
    requires fs.Valid() && formats.Valid() && Journalable(formats, package)
    requires Safe(formats, l, SlotsOf(fs.entries, paths))
    modifies fs`entries, fs`reachable
    ensures fs.Valid() && Safe(formats, after, SlotsOf(fs.entries, paths))
    ensures Forward(formats, l.base, after.base)
    ensures after.base in {l.base, l.incoming, PackageTree(package)}
    ensures after.incoming in {l.incoming, PackageTree(package)}
    ensures r.Ok? ==>
      var s' := SlotsOf(fs.entries, paths);
      s'.active == PackageTree(package) && s'.journal == NOTHING && s'.staging == NOTHING
    ensures r.Ok? ==> Truthful(formats, package, Holder(l, SlotsOf(old(fs.entries), paths)), r.value)
    ensures Showed(formats, package, l, SlotsOf(old(fs.entries), paths), after, SlotsOf(fs.entries, paths), shown,
      slipped)
    ensures slipped ==> r.Err?
    ensures fs.reliable && old(fs.reachable) ==>
      && fs.reachable
      && (r.Ok? <==>
            && ValidPackage(formats, package) && MayBegin(old(fs.entries), paths)
            && Succeeds(formats, package, SlotsOf(old(fs.entries), paths)))
      && (ValidPackage(formats, package) && !MayBegin(old(fs.entries), paths) ==> r == Err(UnsafeState))
    ensures !ValidPackage(formats, package) ==> r == Err(VerificationFailed) && fs.entries == old(fs.entries)
  {
    hide PackageTree, SlotsOf, Safe, ValidPackage, Newer, Journalable, Showed, Succeeds;
    ghost var s := SlotsOf(fs.entries, paths);
    after, shown, slipped := l, [s.active], false;
    NothingNewShown(formats, package, l, s, l, s);
    var valid := ValidateEmbedded(formats, package);
    if valid.Err? {
      return Err(valid.error), after, shown, slipped;
    }
    var node := fs.Lstat(paths.config);
    if node.Err? || node.value.None? || node.value.value.kind != DirectoryNode {
      return Err(UnsafeState), after, shown, slipped;
    }
    ghost var e0 := fs.entries;
    var ensured := EnsureDirectory(fs, paths.Transaction());
    HoldersApart(e0, fs.entries, paths, paths.Transaction());
    BeginningHasRoom(e0, fs.entries, paths);
    if ensured.Err? {
      return Err(ensured.error), after, shown, slipped;
    }
    ghost var e1 := fs.entries;
    ensured := EnsureDirectory(fs, paths.Components());
    HoldersApart(e1, fs.entries, paths, paths.Components());
    if ensured.Err? {
      return Err(ensured.error), after, shown, slipped;
    }
    HoldersDiffer(paths);
    ghost var begun: bool;
    r, after, begun, shown, slipped := RunLocked(fs, paths, formats, package, l);
  }

  lemma HoldersDiffer(paths: Paths)
    ensures paths.Components() != paths.Transaction()
  {
    assert paths.Components()[|paths.config|] != paths.Transaction()[|paths.config|];
  }

  /** Any number of deployments of any packages, one after the other, each of
      which may fail or crash anywhere. The server is safe at the end, so it is
      safe wherever a run stops. The committed tree only ever moves forward, and
      so does the tree in use. `runs` are the active trees that the deployments
      show, from the first to the last, and `slips` says of which the second rename
      reported an error although it landed; when the versions go back is the matter
      of `Shown.RisesExactly`. */
  method Campaign(fs: Remote, paths: Paths, formats: Formats, packages: seq<Package>, ghost l: Ledger)
    returns (ghost history: seq<Ledger>, ghost holders: seq<Tree>, ghost runs: seq<seq<Tree>>, ghost slips: seq<bool>)
    requires fs.Valid() && formats.Valid()
    requires forall i :: 0 <= i < |packages| ==> Journalable(formats, packages[i])
    requires Safe(formats, l, SlotsOf(fs.entries, paths))
    modifies fs
    ensures fs.Valid() && |history| == |packages| + 1 && history[0] == l
    ensures Safe(formats, history[|packages|], SlotsOf(fs.entries, paths))
    ensures forall i, j :: 0 <= i <= j <= |packages| ==> Forward(formats, history[i].base, history[j].base)
    ensures forall i :: 0 <= i <= |packages| ==>
      Known(l, packages[..i], history[i].base) && Known(l, packages[..i], history[i].incoming)
    ensures Follows(formats, packages, holders, runs)
    ensures |slips| == |packages| && forall i :: 0 <= i < |packages| ==>
      (TakenBack(packages[i], runs[i]) <==> slips[i] && End(runs[i]) != PackageTree(packages[i]))
    ensures forall i :: 0 <= i < |packages| ==> runs[i] != []
    ensures |packages| > 0 ==>
      && runs[0][0] == SlotsOf(old(fs.entries), paths).active
      && End(runs[|packages| - 1]) == SlotsOf(fs.entries, paths).active
    ensures forall i :: 0 < i < |packages| ==> runs[i][0] == End(runs[i - 1])
  {
    hide PackageTree, SlotsOf, Safe, Journalable, Forward, Holder, Between, Known, TakenBack, End, Truthful, MayBegin,
      Succeeds, ValidPackage;
    ghost var s := SlotsOf(fs.entries, paths);
    history, holders, runs, slips := [l], [Holder(l, s)], [], [];
    Reflexive(formats, l.base);
    KnownAtFirst(l, packages);
    for n := 0 to |packages|
      invariant fs.Valid() && |history| == n + 1 && history[0] == l
      invariant Safe(formats, history[n], SlotsOf(fs.entries, paths))
      invariant forall i, j :: 0 <= i <= j <= n ==> Forward(formats, history[i].base, history[j].base)
      invariant forall i :: 0 <= i <= n ==>
        Known(l, packages[..i], history[i].base) && Known(l, packages[..i], history[i].incoming)
      invariant |runs| == n && |holders| == n + 1 && holders[n] == Holder(history[n], SlotsOf(fs.entries, paths))
      invariant forall i :: 0 <= i < n ==> Between(formats, packages[i], holders[i], runs[i], holders[i + 1])
      invariant |slips| == n && forall i :: 0 <= i < n ==>
        (TakenBack(packages[i], runs[i]) <==> slips[i] && End(runs[i]) != PackageTree(packages[i]))
      invariant forall i :: 0 <= i < n ==> runs[i] != []
      invariant n == 0 ==> SlotsOf(fs.entries, paths) == s
      invariant n > 0 ==> runs[0][0] == s.active && End(runs[n - 1]) == SlotsOf(fs.entries, paths).active
      invariant forall i :: 0 < i < n ==> runs[i][0] == End(runs[i - 1])
    {
      var dependable: bool := *;
      fs.Connect(dependable);
      var outcome;
      ghost var after, more, slip;
      outcome, after, more, slip := RunTransaction(fs, paths, formats, packages[n], history[n]);
      NotEmpty(formats, packages[n], holders[n], more, Holder(after, SlotsOf(fs.entries, paths)));
      KnownNext(l, packages, n, history[n], after.base);
      KnownNext(l, packages, n, history[n], after.incoming);
      forall i | 0 <= i <= n
        ensures Forward(formats, history[i].base, after.base)
      {
        ForwardTransitive(formats, history[i].base, history[n].base, after.base);
      }
      Reflexive(formats, after.base);
      history, runs, slips := history + [after], runs + [more], slips + [slip];
      holders := holders + [Holder(after, SlotsOf(fs.entries, paths))];
    }
  }

  lemma Reflexive(formats: Formats, t: Tree)
    ensures Forward(formats, t, t)
  {
  }

  /** A tree the run started with, or the complete tree of one of its packages. */
  ghost predicate Known(l: Ledger, packages: seq<Package>, t: Tree) {
    t == l.base || t == l.incoming || exists i :: 0 <= i < |packages| && t == PackageTree(packages[i])
  }

  lemma KnownAtFirst(l: Ledger, packages: seq<Package>)
    ensures Known(l, packages[..0], l.base) && Known(l, packages[..0], l.incoming)
  {
  }

  lemma KnownNext(l: Ledger, packages: seq<Package>, n: nat, current: Ledger, t: Tree)
    requires n < |packages|
    requires Known(l, packages[..n], current.base) && Known(l, packages[..n], current.incoming)
    requires t in {current.base, current.incoming, PackageTree(packages[n])}
    ensures Known(l, packages[..n + 1], t)
  {
    hide PackageTree;
    assert packages[..n + 1] == packages[..n] + [packages[n]];
    if t == PackageTree(packages[n]) {
      assert packages[..n + 1][n] == packages[n];
    } else if i :| 0 <= i < n && t == PackageTree(packages[..n][i]) {
      assert packages[..n + 1][i] == packages[..n][i];
    }
  }

  /** A server that no deployer has touched is safe with what it has. */
  lemma UntouchedIsSafe(formats: Formats, s: Slots, incoming: Tree)
    requires s.journal == NOTHING
    ensures Safe(formats, Ledger(s.active, incoming), s)
  {
  }
}
