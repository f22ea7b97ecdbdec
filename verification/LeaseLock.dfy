/** The lease lock that deployers in different processes compete for, as a
    state machine: every filesystem request is one step, and any number of
    deployers take their steps in any order, fail, or crash. */
module LeaseLock {
  import opened Basics

  const STALE_AFTER: nat := 300

  /** What a lock or claim file holds: a lease, or bytes that are none. A token
      is the deployer's index, or a larger number for a lease from before. */
  datatype Content = Lease(token: nat, at: nat) | Garbage

  datatype Shared = Shared(lock: Option<Content>, claim: Option<Content>)

  /** What the deployer found: a stale claim, a stale lock, or neither file. */
  datatype Route = FromClaim | FromLock | FromNothing

  datatype Purpose = Enter | Work | Leave

  datatype Pc =
    | Start
    // reading both files
    | StatClaim | ReadClaim | StatLock | ReadLock
    // taking over a stale claim
    | MatchClaimStat | MatchClaimRead
    // turning a stale lock into a claim
    | Evict | EvictedStat | EvictedRead | EvictedGone
    // no file was there
    | StillNoClaim
    // creating the own lock, and confirming it
    | Create(route: Route) | RecheckStat | RecheckRead | ConfirmStat | ConfirmRead | DropClaim
    // verify_owner: the lock file by size, by content, then no claim
    | OwnStat(purpose: Purpose) | OwnRead(purpose: Purpose) | OwnClaim(purpose: Purpose)
    | Ready | Act | Release
    | Finished | Failed

  datatype Deployer = Deployer(
    pc: Pc,
    now: nat,
    claimSeen: Option<Content>,
    lockSeen: Option<Content>,
    created: bool,  // its lock file came into being
    strays: nat)    // mutations that landed while its bytes were not the lock

  datatype System = System(shared: Shared, deployers: seq<Deployer>)

  /** `Step` is the next request succeeding or refusing as the files say, at a
      local clock reading; `Fault` is a request that reports an error, whether
      or not it landed; `Torn` is one whose upload was cut short; `Choose` starts
      another mutation or the release; `Cancel` is the overall timeout. */
  datatype Event =
    | Step(who: nat, clock: nat)
    | Fault(who: nat, landed: bool)
    | Torn(who: nat)
    | Choose(who: nat, purpose: Purpose)
    | Cancel(who: nat)
    | Crash(who: nat)

  function Mine(who: nat, d: Deployer): Content {
    Lease(who, d.now)
  }

  predicate Owns(s: System, who: nat)
    requires who < |s.deployers|
  {
    s.shared.lock == Some(Mine(who, s.deployers[who]))
  }

  predicate Stale(content: Content, now: nat) {
    content.Lease? && now - content.at > STALE_AFTER
  }

  /** Readable for this deployer: a lease that is not from the future. */
  predicate Readable(content: Option<Content>, now: nat) {
    content.Some? && content.value.Lease? && content.value.at <= now
  }

  /** The steps of mutating under the lock. */
  predicate Working(pc: Pc) {
    pc in {OwnStat(Work), OwnRead(Work), OwnClaim(Work), Act, Ready}
  }

  /** Where an error leads: a failed acquisition or release ends, but failed work
      may be followed by more, each mutation behind a check of its own. */
  function AfterError(pc: Pc): Pc {
    if Working(pc) then Ready else if pc == Finished then Finished else Failed
  }

  function Goto(d: Deployer, pc: Pc): Deployer {
    d.(pc := pc)
  }

  function Check(d: Deployer, fine: bool, pc: Pc): Deployer {
    d.(pc := if fine then pc else AfterError(d.pc))
  }

  /** The request of a deployer that changes a file, if it is at one. */
  function Effect(files: Shared, who: nat, d: Deployer): (Shared, Deployer, bool) {
    match d.pc
    case Create(_) =>
      if files.lock.None?
      then (files.(lock := Some(Mine(who, d))), d.(created := true), true)
      else (files, d, false)
    case Evict =>
      if files.lock.Some? && files.claim.None?
      then (Shared(None, files.lock), d, true)
      else (files, d, false)
    case DropClaim => (files.(claim := None), d, files.claim.Some?)
    case Act => (files, Counted(files, who, d), true)
    case Release =>
      if files.lock.Some?
      then (files.(lock := None), Counted(files, who, d), true)
      else (files, d, false)
    case _ => (files, d, false)
  }

  function Counted(files: Shared, who: nat, d: Deployer): Deployer {
    if files.lock == Some(Mine(who, d)) then d else d.(strays := d.strays + 1)
  }

  /** What the two reads decided. */
  function Decide(d: Deployer): Pc {
    match (d.claimSeen, d.lockSeen)
    case (Some(_), Some(_)) => Failed
    case (Some(claim), None) => if Stale(claim, d.now) then MatchClaimStat else Failed
    case (None, Some(lock)) => if Stale(lock, d.now) then Evict else Failed
    case (None, None) => StillNoClaim
  }

  function Progress(files: Shared, who: nat, d: Deployer, clock: nat): (Shared, Deployer) {
    match d.pc
    case Start => (files, Goto(d, StatClaim).(now := clock))
    case StatClaim => (files, Goto(d.(claimSeen := None), if files.claim.Some? then ReadClaim else StatLock))
    case ReadClaim => (files, Check(d.(claimSeen := files.claim), Readable(files.claim, d.now), StatLock))
    case StatLock =>
      if files.lock.Some? then (files, Goto(d, ReadLock))
      else (files, Goto(d.(lockSeen := None), Decide(d.(lockSeen := None))))
    case ReadLock =>
      var seen := d.(lockSeen := files.lock);
      (files, Check(seen, Readable(files.lock, d.now), Decide(seen)))
    case MatchClaimStat => (files, Check(d, files.claim.Some?, MatchClaimRead))
    case MatchClaimRead => (files, Check(d, files.claim == d.claimSeen, Create(FromClaim)))
    case EvictedStat => (files, Check(d, files.claim.Some?, EvictedRead))
    case EvictedRead => (files, Check(d, files.claim == d.lockSeen, EvictedGone))
    case EvictedGone => (files, Check(d, files.lock.None?, Create(FromLock)))
    case StillNoClaim => (files, Check(d, files.claim.None?, Create(FromNothing)))
    case RecheckStat => (files, Check(d, files.claim.Some?, RecheckRead))
    case RecheckRead => (files, Check(d, files.claim == d.lockSeen, ConfirmStat))
    case ConfirmStat => (files, Check(d, files.lock.Some?, ConfirmRead))
    case ConfirmRead => (files, Check(d, files.lock == Some(Mine(who, d)), DropClaim))
    case OwnStat(purpose) => (files, Check(d, files.lock.Some?, OwnRead(purpose)))
    case OwnRead(purpose) => (files, Check(d, files.lock == Some(Mine(who, d)), OwnClaim(purpose)))
    case OwnClaim(purpose) => (files, Check(d, files.claim.None?, AfterOwner(purpose)))
    case Create(route) =>
      var (files', d', done) := Effect(files, who, d);
      (files', Check(d', done, AfterCreate(route)))
    case Evict =>
      var (files', d', done) := Effect(files, who, d);
      (files', Check(d', done, EvictedStat))
    case DropClaim =>
      var (files', d', done) := Effect(files, who, d);
      (files', Check(d', done, OwnStat(Enter)))
    case Act =>
      var (files', d', done) := Effect(files, who, d);
      (files', Check(d', done, Ready))
    case Release =>
      var (files', d', done) := Effect(files, who, d);
      (files', Check(d', done, Finished))
    case _ => (files, d)
  }

  function AfterCreate(route: Route): Pc {
    match route
    case FromClaim => ConfirmStat
    case FromLock => RecheckStat
    case FromNothing => OwnStat(Enter)
  }

  function AfterOwner(purpose: Purpose): Pc {
    match purpose
    case Enter => Ready
    case Work => Act
    case Leave => Release
  }

  function Move(files: Shared, d: Deployer, event: Event): (Shared, Deployer) {
    match event
    case Step(who, clock) => Progress(files, who, d, clock)
    case Fault(who, landed) =>
      var (files', d', _) := if landed then Effect(files, who, d) else (files, d, false);
      (files', Goto(d', AfterError(d.pc)))
    case Torn(_) =>
      (if d.pc.Create? && files.lock.None? then files.(lock := Some(Garbage)) else files, Goto(d, AfterError(d.pc)))
    case Choose(_, purpose) =>
      (files, if d.pc == Ready && purpose != Enter then Goto(d, OwnStat(purpose)) else d)
    case Cancel(_) =>
      (files, if Working(d.pc) then Goto(d, OwnStat(Leave)) else d)
    case Crash(_) => (files, Goto(d, Failed))
  }

  function Next(s: System, event: Event): System {
    if event.who < |s.deployers| then
      var (files, d) := Move(s.shared, s.deployers[event.who], event);
      System(files, s.deployers[event.who := d])
    else
      s
  }

  function Run(s: System, events: seq<Event>): System {
    if events == [] then s else Next(Run(s, events[..|events| - 1]), events[|events| - 1])
  }

  /** Before the first step: whatever files there are carry no deployer's token. */
  ghost predicate Initial(s: System) {
    && (forall who :: 0 <= who < |s.deployers| ==> s.deployers[who] == Deployer(Start, 0, None, None, false, 0))
    && NotOf(s.shared.lock, |s.deployers|) && NotOf(s.shared.claim, |s.deployers|)
  }

  predicate NotOf(content: Option<Content>, n: nat) {
    content.Some? && content.value.Lease? ==> content.value.token >= n
  }

  // ---- one creation each ----

  /** The steps before the own lock file is created. */
  predicate Before(pc: Pc) {
    pc in {Start, StatClaim, ReadClaim, StatLock, ReadLock, MatchClaimStat, MatchClaimRead,
           Evict, EvictedStat, EvictedRead, EvictedGone, StillNoClaim} || pc.Create?
  }

  /** The owner was checked, and nothing verified since. */
  predicate Trusting(pc: Pc) {
    pc.OwnClaim? || pc == Act || pc == Release
  }

  ghost predicate Carries(content: Option<Content>, who: nat) {
    content.Some? && content.value.Lease? && content.value.token == who
  }

  ghost predicate Orderly(files: Shared, who: nat, d: Deployer) {
    && (Before(d.pc) ==> !d.created)
    && (!d.created ==> !Carries(files.lock, who) && !Carries(files.claim, who) && d.strays == 0 && !Trusting(d.pc))
    && (Carries(files.lock, who) ==> files.lock == Some(Mine(who, d)))
    && d.strays <= 1
    && (d.strays == 1 ==> !Carries(files.lock, who) && !Trusting(d.pc))
  }

  ghost predicate Inv(s: System) {
    forall who :: 0 <= who < |s.deployers| ==> Orderly(s.shared, who, s.deployers[who])
  }

  lemma OwnMove(files: Shared, who: nat, d: Deployer, event: Event)
    requires Orderly(files, who, d) && event.who == who
    ensures Orderly(Move(files, d, event).0, who, Move(files, d, event).1)
  {
    hide Orderly, Move;
    if Before(d.pc) {
      OwnMoveBefore(files, who, d, event);
    } else if Trusting(d.pc) {
      OwnMoveTrusting(files, who, d, event);
    } else {
      OwnMoveAfter(files, who, d, event);
    }
  }

  lemma OwnMoveBefore(files: Shared, who: nat, d: Deployer, event: Event)
    requires Orderly(files, who, d) && event.who == who && Before(d.pc)
    ensures Orderly(Move(files, d, event).0, who, Move(files, d, event).1)
  {
  }

  lemma OwnMoveAfter(files: Shared, who: nat, d: Deployer, event: Event)
    requires Orderly(files, who, d) && event.who == who && !Before(d.pc) && !Trusting(d.pc)
    ensures Orderly(Move(files, d, event).0, who, Move(files, d, event).1)
  {
  }

  lemma OwnMoveTrusting(files: Shared, who: nat, d: Deployer, event: Event)
    requires Orderly(files, who, d) && event.who == who && Trusting(d.pc)
    ensures Orderly(Move(files, d, event).0, who, Move(files, d, event).1)
  {
  }

  lemma OthersMove(files: Shared, who: nat, d: Deployer, event: Event, other: nat, o: Deployer)
    requires Orderly(files, who, d) && event.who == who && other != who && Orderly(files, other, o)
    ensures Orderly(Move(files, d, event).0, other, o)
  {
  }

  lemma NextKeepsInv(s: System, event: Event)
    requires Inv(s)
    ensures Inv(Next(s, event))
  {
    hide Move, Orderly;
    var who := event.who;
    if who < |s.deployers| {
      OwnMove(s.shared, who, s.deployers[who], event);
      forall other | 0 <= other < |s.deployers| && other != who
        ensures Orderly(Next(s, event).shared, other, Next(s, event).deployers[other])
      {
        OthersMove(s.shared, who, s.deployers[who], event, other, s.deployers[other]);
      }
    }
  }

  lemma {:induction false} RunKeepsInv(s: System, events: seq<Event>)
    requires Initial(s)
    ensures Inv(Run(s, events)) && |Run(s, events).deployers| == |s.deployers|
  {
    hide Move, Orderly;
    if events == [] {
      InitialIsOrderly(s);
    } else {
      var front := events[..|events| - 1];
      RunKeepsInv(s, front);
      NextKeepsInv(Run(s, front), events[|events| - 1]);
    }
  }

  lemma InitialIsOrderly(s: System)
    requires Initial(s)
    ensures Inv(s)
  {
  }

  // ---- ownership ----

  /** Once a lock file has left the lock path, its deployer never owns again. */
  lemma LostStaysLost(s: System, event: Event, who: nat)
    requires Inv(s) && who < |s.deployers| && s.deployers[who].created && !Owns(s, who)
    ensures Next(s, event).deployers[who].created && !Owns(Next(s, event), who)
  {
  }

  lemma CreatedStays(s: System, event: Event, who: nat)
    requires Inv(s) && who < |s.deployers| && s.deployers[who].created
    ensures Next(s, event).deployers[who].created
  {
  }

  lemma {:induction false} CreatedFrom(s: System, events: seq<Event>, i: nat, who: nat)
    requires Initial(s) && who < |s.deployers| && i <= |events|
    requires |Run(s, events[..i]).deployers| == |s.deployers| && Run(s, events[..i]).deployers[who].created
    ensures |Run(s, events).deployers| == |s.deployers| && Run(s, events).deployers[who].created
    ensures !Owns(Run(s, events[..i]), who) ==> !Owns(Run(s, events), who)
    decreases |events|
  {
    if i == |events| {
      assert events[..i] == events;
    } else {
      var front := events[..|events| - 1];
      assert front[..i] == events[..i];
      CreatedFrom(s, front, i, who);
      RunKeepsInv(s, front);
      CreatedStays(Run(s, front), events[|events| - 1], who);
      if !Owns(Run(s, front), who) {
        LostStaysLost(Run(s, front), events[|events| - 1], who);
      }
    }
  }

  /** Each deployer owns the lock during one interval of the run, and no two
      own it at once: what it owned at one time and lost by a later one, it does
      not own at the end. */
  lemma OwnershipIsAnInterval(s: System, events: seq<Event>, i: nat, j: nat, who: nat)
    requires Initial(s) && who < |s.deployers| && i <= j <= |events|
    requires |Run(s, events[..i]).deployers| == |Run(s, events[..j]).deployers| == |Run(s, events).deployers| ==
      |s.deployers|
    requires Owns(Run(s, events[..i]), who) && !Owns(Run(s, events[..j]), who)
    ensures !Owns(Run(s, events), who)
  {
    RunKeepsInv(s, events[..i]);
    assert Run(s, events[..i]).deployers[who].created;
    assert events[..j][..i] == events[..i];
    CreatedFrom(s, events[..j], i, who);
    CreatedFrom(s, events, j, who);
  }

  lemma OwnersAreEqual(s: System, a: nat, b: nat)
    requires a < |s.deployers| && b < |s.deployers| && Owns(s, a) && Owns(s, b)
    ensures a == b
  {
  }

  /** Only an owner gets past the content check of `verify_owner`. */
  lemma PassingMeansOwning(s: System, event: Event, who: nat)
    requires who < |s.deployers| && !Trusting(s.deployers[who].pc) && Trusting(Next(s, event).deployers[who].pc)
    ensures Owns(s, who) && Owns(Next(s, event), who)
  {
  }

  /** Over every run and every interleaving, a deployer that lost the lock gets
      at most one more change through: the one it had already verified for. */
  lemma AtMostOneStray(s: System, events: seq<Event>, who: nat)
    requires Initial(s) && who < |s.deployers|
    ensures |Run(s, events).deployers| == |s.deployers|
    ensures Run(s, events).deployers[who].strays <= 1
    ensures Run(s, events).deployers[who].strays == 1 ==>
      !Owns(Run(s, events), who) && !Trusting(Run(s, events).deployers[who].pc)
  {
    RunKeepsInv(s, events);
  }

  // ---- without robbery ----

  /** A step that takes another deployer's lock away after that one verified. */
  ghost predicate Robs(s: System, event: Event, who: nat) {
    && who < |s.deployers| && event.who < |s.deployers| && event.who != who
    && Trusting(s.deployers[who].pc) && Owns(s, who) && !Owns(Next(s, event), who)
  }

  /** A robber is evicting a lease it took for stale, or was robbed itself. */
  lemma RobberEvictsOrWasRobbed(s: System, event: Event, who: nat)
    requires Robs(s, event, who)
    ensures s.deployers[event.who].pc in {Evict, Release} && !Owns(s, event.who)
  {
  }

  ghost predicate Backed(s: System, who: nat)
    requires who < |s.deployers|
  {
    s.deployers[who].strays == 0 && (Trusting(s.deployers[who].pc) ==> Owns(s, who))
  }

  lemma NextKeepsBacked(s: System, event: Event, who: nat)
    requires who < |s.deployers| && Backed(s, who) && !Robs(s, event, who)
    ensures Backed(Next(s, event), who)
  {
    if event.who == who {
      OwnStepKeepsBacked(s.shared, who, s.deployers[who], event);
    }
  }

  lemma OwnStepKeepsBacked(files: Shared, who: nat, d: Deployer, event: Event)
    requires event.who == who && d.strays == 0
    requires Trusting(d.pc) ==> files.lock == Some(Mine(who, d))
    ensures
      var (files', d') := Move(files, d, event);
      d'.strays == 0 && (Trusting(d'.pc) ==> files'.lock == Some(Mine(who, d')))
  {
  }

  /** Whatever is taken over elsewhere, all changes of a deployer that is never
      robbed land while it owns the lock. */
  lemma {:induction false} UnrobbedNeverStrays(s: System, events: seq<Event>, who: nat)
    requires Initial(s) && who < |s.deployers|
    requires forall i :: 0 <= i < |events| ==> !Robs(Run(s, events[..i]), events[i], who)
    ensures |Run(s, events).deployers| == |s.deployers| && Backed(Run(s, events), who)
  {
    hide Next, Robs, Backed;
    RunKeepsInv(s, events);
    if events == [] {
      InitialIsBacked(s, who);
    } else {
      var front := events[..|events| - 1];
      forall i | 0 <= i < |front|
        ensures !Robs(Run(s, front[..i]), front[i], who)
      {
        assert front[..i] == events[..i];
      }
      UnrobbedNeverStrays(s, front, who);
      assert events[..|front|] == front;
      NextKeepsBacked(Run(s, front), events[|events| - 1], who);
    }
  }

  lemma InitialIsBacked(s: System, who: nat)
    requires Initial(s) && who < |s.deployers|
    ensures Backed(s, who)
  {
  }

  /** A landing eviction of a lock whose deployer has verified. */
  ghost predicate EvictsTrusting(s: System, event: Event) {
    && event.who < |s.deployers| && s.deployers[event.who].pc == Evict
    && exists who: nat :: Robs(s, event, who)
  }

  /** And nobody is robbed at all unless such an eviction lands: the first
      robbery of a run is one. */
  lemma {:induction false} EvictionRobsFirst(s: System, events: seq<Event>)
    requires Initial(s)
    requires forall i :: 0 <= i < |events| ==> !EvictsTrusting(Run(s, events[..i]), events[i])
    ensures |Run(s, events).deployers| == |s.deployers|
    ensures forall who: nat :: who < |s.deployers| ==> Backed(Run(s, events), who)
  {
    hide Next, Robs, Backed;
    RunKeepsInv(s, events);
    if events == [] {
      forall who: nat | who < |s.deployers|
        ensures Backed(s, who)
      {
        InitialIsBacked(s, who);
      }
    } else {
      var front := events[..|events| - 1];
      forall i | 0 <= i < |front|
        ensures !EvictsTrusting(Run(s, front[..i]), front[i])
      {
        assert front[..i] == events[..i];
      }
      EvictionRobsFirst(s, front);
      assert events[..|front|] == front;
      var before, event := Run(s, front), events[|events| - 1];
      forall who: nat | who < |s.deployers|
        ensures Backed(Next(before, event), who)
      {
        if Robs(before, event, who) {
          OnlyEvictionRobs(before, event, who);
        } else {
          NextKeepsBacked(before, event, who);
        }
      }
    }
  }

  /** Where everyone is backed, a release is of the own lock. */
  lemma OnlyEvictionRobs(s: System, event: Event, who: nat)
    requires Robs(s, event, who) && forall other: nat :: other < |s.deployers| ==> Backed(s, other)
    ensures EvictsTrusting(s, event)
  {
    RobberEvictsOrWasRobbed(s, event, who);
    assert Backed(s, event.who);
  }

  /** Conversely such an eviction always leaves a deployer about to change
      something under a lock that is not its own. */
  lemma EvictionRobs(s: System, event: Event)
    requires EvictsTrusting(s, event)
    ensures exists who: nat :: who < |s.deployers| && !Backed(Next(s, event), who)
  {
    var who: nat :| Robs(s, event, who);
    assert Trusting(Next(s, event).deployers[who].pc);
    assert !Backed(Next(s, event), who);
  }

  // ---- mutual exclusion ----

  /** The steps between the owner check of a lock file's creator and its
      release. */
  predicate Inside(pc: Pc) {
    pc.OwnStat? || pc.OwnRead? || pc.OwnClaim? || pc in {Ready, Act, Release}
  }

  /** The steps from creating the lock to its release. */
  predicate Holding(pc: Pc) {
    pc in {RecheckStat, RecheckRead, ConfirmStat, ConfirmRead, DropClaim} || Inside(pc)
  }

  /** All changes so far landed under the own lock, and a deployer that takes
      itself for the holder is. */
  ghost predicate Held(s: System, who: nat)
    requires who < |s.deployers|
  {
    s.deployers[who].strays == 0 && (Holding(s.deployers[who].pc) ==> Owns(s, who))
  }

  ghost predicate AllHeld(s: System) {
    forall who: nat :: who < |s.deployers| ==> Held(s, who)
  }

  /** A landing eviction of the lock of a holder: what the stale lease is for
      only evicts the locks of deployers that are gone. */
  ghost predicate EvictsHolder(s: System, event: Event) {
    && event.who < |s.deployers| && s.deployers[event.who].pc == Evict
    && exists who: nat ::
         who < |s.deployers| && Holding(s.deployers[who].pc) && Owns(s, who) && !Owns(Next(s, event), who)
  }

  /** One step keeps exclusion exactly if it evicts no holder. */
  lemma NextKeepsHeld(s: System, event: Event)
    requires AllHeld(s)
    ensures AllHeld(Next(s, event)) <==> !EvictsHolder(s, event)
  {
    var s' := Next(s, event);
    if EvictsHolder(s, event) {
      var who: nat :| who < |s.deployers| && Holding(s.deployers[who].pc) && Owns(s, who) && !Owns(s', who);
      assert who != event.who;
      assert !Held(s', who);
    } else if event.who < |s.deployers| {
      assert Held(s, event.who);
      OwnStepKeepsHeld(s.shared, event.who, s.deployers[event.who], event);
      forall who: nat | who < |s.deployers| && who != event.who
        ensures Held(s', who)
      {
        assert Held(s, who);
        OthersKeepHeld(s, event, who);
      }
    }
  }

  lemma OwnStepKeepsHeld(files: Shared, who: nat, d: Deployer, event: Event)
    requires event.who == who && d.strays == 0
    requires Holding(d.pc) ==> files.lock == Some(Mine(who, d))
    ensures
      var (files', d') := Move(files, d, event);
      d'.strays == 0 && (Holding(d'.pc) ==> files'.lock == Some(Mine(who, d')))
  {
    hide Move, Before;
    if Before(d.pc) {
      BeforeKeepsHeld(files, who, d, event);
    } else if d.pc in {Release, DropClaim, Act, Ready} {
      WorkKeepsHeld(files, who, d, event);
    } else {
      ChecksKeepHeld(files, who, d, event);
    }
  }

  lemma BeforeKeepsHeld(files: Shared, who: nat, d: Deployer, event: Event)
    requires event.who == who && d.strays == 0 && Before(d.pc)
    ensures
      var (files', d') := Move(files, d, event);
      d'.strays == 0 && (Holding(d'.pc) ==> files'.lock == Some(Mine(who, d')))
  {
  }

  lemma WorkKeepsHeld(files: Shared, who: nat, d: Deployer, event: Event)
    requires event.who == who && d.strays == 0 && files.lock == Some(Mine(who, d))
    requires d.pc in {Release, DropClaim, Act, Ready}
    ensures
      var (files', d') := Move(files, d, event);
      d'.strays == 0 && (Holding(d'.pc) ==> files'.lock == Some(Mine(who, d')))
  {
  }

  lemma ChecksKeepHeld(files: Shared, who: nat, d: Deployer, event: Event)
    requires event.who == who && d.strays == 0 && !Before(d.pc) && d.pc !in {Release, DropClaim, Act, Ready}
    requires Holding(d.pc) ==> files.lock == Some(Mine(who, d))
    ensures
      var (files', d') := Move(files, d, event);
      d'.strays == 0 && (Holding(d'.pc) ==> files'.lock == Some(Mine(who, d')))
  {
  }

  lemma OthersKeepHeld(s: System, event: Event, who: nat)
    requires who < |s.deployers| && event.who < |s.deployers| && who != event.who
    requires Held(s, who) && Held(s, event.who) && !EvictsHolder(s, event)
    ensures Held(Next(s, event), who)
  {
  }

  lemma InitialIsHeld(s: System)
    requires Initial(s)
    ensures AllHeld(s)
  {
  }

  /** Mutual exclusion, exactly: from any files, with any takeovers, all changes
      land under the own lock and every holder owns it, at all times of a run, if
      and only if no holder's lock is ever evicted. */
  lemma {:induction false} MutualExclusion(s: System, events: seq<Event>)
    requires Initial(s)
    ensures (forall k :: 0 <= k <= |events| ==> AllHeld(Run(s, events[..k]))) <==>
      forall i :: 0 <= i < |events| ==> !EvictsHolder(Run(s, events[..i]), events[i])
  {
    hide AllHeld, EvictsHolder, Next, Run;
    if events == [] {
      InitialIsHeld(s);
      assert Run(s, events[..0]) == s by { NoEvents(s); }
    } else {
      var n := |events| - 1;
      var front := events[..n];
      MutualExclusion(s, front);
      assert forall k :: 0 <= k <= n ==> front[..k] == events[..k];
      assert forall k :: 0 <= k < n ==> front[k] == events[k];
      assert front[..n] == front && events[..n + 1] == events == front + [events[n]];
      RunOneMore(s, front, events[n]);
      if AllHeld(Run(s, front)) {
        NextKeepsHeld(Run(s, front), events[n]);
      }
    }
  }

  lemma NoEvents(s: System)
    ensures Run(s, []) == s
  {
  }

  lemma RunOneMore(s: System, events: seq<Event>, event: Event)
    ensures Run(s, events + [event]) == Next(Run(s, events), event)
  {
    assert (events + [event])[..|events|] == events;
  }

  /** There is one holder at most. */
  lemma OneInside(s: System, a: nat, b: nat)
    requires AllHeld(s) && a < |s.deployers| && b < |s.deployers|
    requires Holding(s.deployers[a].pc) && Holding(s.deployers[b].pc)
    ensures a == b
  {
    assert Held(s, a) && Held(s, b);
  }

  /** The steps that follow a lease having been judged stale. */
  predicate TakingOver(pc: Pc) {
    pc in {MatchClaimStat, MatchClaimRead, Evict, EvictedStat, EvictedRead, EvictedGone,
           RecheckStat, RecheckRead, ConfirmStat, ConfirmRead, DropClaim}
    || pc == Create(FromClaim) || pc == Create(FromLock)
  }

  ghost predicate NobodyTakesOver(s: System) {
    forall who :: 0 <= who < |s.deployers| ==> !TakingOver(s.deployers[who].pc)
  }

  /** In particular exclusion holds if no lease is ever judged stale. */
  lemma WithoutTakeovers(s: System, events: seq<Event>)
    requires Initial(s)
    requires forall i :: 0 <= i <= |events| ==> NobodyTakesOver(Run(s, events[..i]))
    ensures forall k :: 0 <= k <= |events| ==> AllHeld(Run(s, events[..k]))
  {
    hide Run, Next, AllHeld;
    MutualExclusion(s, events);
    forall i | 0 <= i < |events|
      ensures !EvictsHolder(Run(s, events[..i]), events[i])
    {
      assert NobodyTakesOver(Run(s, events[..i]));
    }
  }

  /** A request of the deployment itself, or the release, that takes effect. */
  predicate Mutates(s: System, event: Event) {
    && event.who < |s.deployers| && s.deployers[event.who].pc in {Act, Release}
    && (event.Step? || (event.Fault? && event.landed))
  }

  ghost predicate HoldsAt(s: System, events: seq<Event>, i: nat, who: nat)
    requires i <= |events|
  {
    who < |Run(s, events[..i]).deployers| && Holding(Run(s, events[..i]).deployers[who].pc)
  }

  /** Then deployments do not interleave: from the first to the last moment at
      which a deployer holds the lock, every change is its own. */
  lemma DeploymentsDoNotInterleave(s: System, events: seq<Event>, i: nat, j: nat, k: nat, who: nat)
    requires Initial(s) && i <= j <= k <= |events| && j < |events|
    requires forall n :: 0 <= n < |events| ==> !EvictsHolder(Run(s, events[..n]), events[n])
    requires HoldsAt(s, events, i, who) && HoldsAt(s, events, k, who)
    requires Mutates(Run(s, events[..j]), events[j])
    ensures who < |Run(s, events[..j]).deployers| && Owns(Run(s, events[..j]), who)
    ensures events[j].who == who
  {
    hide Run, Next;
    MutualExclusion(s, events);
    RunKeepsInv(s, events[..i]);
    RunKeepsInv(s, events[..j]);
    RunKeepsInv(s, events[..k]);
    assert AllHeld(Run(s, events[..i])) && AllHeld(Run(s, events[..j])) && AllHeld(Run(s, events[..k]));
    assert Held(Run(s, events[..i]), who) && Held(Run(s, events[..k]), who);
    assert events[..k][..i] == events[..i] && events[..k][..j] == events[..j];
    if !Owns(Run(s, events[..j]), who) {
      OwnershipIsAnInterval(s, events[..k], i, j, who);
    }
    assert Held(Run(s, events[..j]), events[j].who);
    OwnersAreEqual(Run(s, events[..j]), events[j].who, who);
  }

  // ---- when the lock can be acquired ----


  /** One deployer taking `n` steps at one clock reading while nobody else moves. */
  function Solo(clock: nat, files: Shared, who: nat, d: Deployer, n: nat): (Shared, Deployer)
    decreases n
  {
    if n == 0 then (files, d) else
      var (files', d') := Progress(files, who, d, clock);
      Solo(clock, files', who, d', n - 1)
  }

  lemma SoloStep(clock: nat, files: Shared, who: nat, d: Deployer, n: nat, files': Shared, d': Deployer)
    requires n > 0 && Progress(files, who, d, clock) == (files', d')
    ensures Solo(clock, files, who, d, n) == Solo(clock, files', who, d', n - 1)
    ensures Solo(clock, files', who, d', 0) == (files', d')
  {
  }

  lemma {:induction false} SoloGoesOn(clock: nat, files: Shared, who: nat, d: Deployer, m: nat, n: nat)
    ensures
      var (files', d') := Solo(clock, files, who, d, m);
      Solo(clock, files, who, d, m + n) == Solo(clock, files', who, d', n)
    decreases m
  {
    if m > 0 {
      var (files', d') := Progress(files, who, d, clock);
      SoloGoesOn(clock, files', who, d', m - 1, n);
    }
  }

  /** A lease from more than five minutes ago. */
  ghost predicate Outlived(content: Content, now: nat) {
    exists token, at: nat :: content == Lease(token, at) && at + 5 * 60 < now
  }

  /** Neither file is there, or exactly one is and it is an outlived lease. */
  ghost predicate Takeable(files: Shared, now: nat) {
    match (files.lock, files.claim)
    case (None, None) => true
    case (Some(lock), None) => Outlived(lock, now)
    case (None, Some(claim)) => Outlived(claim, now)
    case (Some(_), Some(_)) => false
  }

  /** Alone and undisturbed, a deployer acquires the lock exactly if it can be
      taken, and then leaves its lock and no claim. Refusing, it changes
      nothing. */
  lemma AcquiresExactly(clock: nat, files: Shared, who: nat, d: Deployer)
    requires d.pc == Start
    ensures Takeable(files, clock) <==> exists n: nat :: Solo(clock, files, who, d, n).1.pc == Ready
    ensures Takeable(files, clock) ==> exists n: nat ::
      && Solo(clock, files, who, d, n).1.pc == Ready
      && Solo(clock, files, who, d, n).0 == Shared(Some(Lease(who, clock)), None)
    ensures !Takeable(files, clock) ==> forall n: nat :: Solo(clock, files, who, d, n).0 == files
  {
    hide Solo;
    if Takeable(files, clock) {
      var n := Acquires(clock, files, who, d);
      assert Solo(clock, files, who, d, n).1.pc == Ready;
    } else {
      forall n: nat
        ensures Solo(clock, files, who, d, n).0 == files && Solo(clock, files, who, d, n).1.pc != Ready
      {
        NeverAcquires(clock, files, who, d, n);
      }
    }
  }

  lemma Acquires(clock: nat, files: Shared, who: nat, d: Deployer) returns (n: nat)
    requires d.pc == Start && Takeable(files, clock)
    ensures Solo(clock, files, who, d, n).1.pc == Ready
    ensures Solo(clock, files, who, d, n).0 == Shared(Some(Lease(who, clock)), None)
  {
    hide Solo;
    if files.claim.Some? {
      n := AcquiresFromClaim(clock, files.claim.value, who, d);
    } else if files.lock.Some? {
      n := AcquiresFromLock(clock, files.lock.value, who, d);
    } else {
      n := 8;
      var created := d.(pc := OwnStat(Enter), now := clock, claimSeen := None, lockSeen := None, created := true);
      FindsNothing(clock, who, d);
      PassesOwner(clock, who, created, Enter);
      SoloGoesOn(clock, files, who, d, 5, 3);
    }
  }

  lemma AcquiresFromClaim(clock: nat, claim: Content, who: nat, d: Deployer) returns (n: nat)
    requires d.pc == Start && Stale(claim, clock)
    ensures Solo(clock, Shared(None, Some(claim)), who, d, n).1.pc == Ready
    ensures Solo(clock, Shared(None, Some(claim)), who, d, n).0 == Shared(Some(Lease(who, clock)), None)
  {
    hide Solo;
    n := 6 + (4 + 3);
    var found := d.(pc := Create(FromClaim), now := clock, claimSeen := Some(claim), lockSeen := None);
    FindsClaim(clock, claim, who, d);
    ConfirmsClaim(clock, claim, who, found);
    PassesOwner(clock, who, found.(pc := OwnStat(Enter), created := true), Enter);
    SoloGoesOn(clock, Shared(None, Some(claim)), who, found, 4, 3);
    SoloGoesOn(clock, Shared(None, Some(claim)), who, d, 6, 4 + 3);
  }

  lemma AcquiresFromLock(clock: nat, lock: Content, who: nat, d: Deployer) returns (n: nat)
    requires d.pc == Start && Stale(lock, clock)
    ensures Solo(clock, Shared(Some(lock), None), who, d, n).1.pc == Ready
    ensures Solo(clock, Shared(Some(lock), None), who, d, n).0 == Shared(Some(Lease(who, clock)), None)
  {
    hide Solo;
    n := 5 + (4 + (5 + 3));
    var evicted := d.(pc := EvictedStat, now := clock, claimSeen := None, lockSeen := Some(lock));
    var created := evicted.(pc := RecheckStat, created := true);
    EvictsLock(clock, lock, who, d);
    CreatesAfterEviction(clock, lock, who, evicted);
    ConfirmsLock(clock, lock, who, created);
    PassesOwner(clock, who, created.(pc := OwnStat(Enter)), Enter);
    SoloGoesOn(clock, Shared(Some(Lease(who, clock)), Some(lock)), who, created, 5, 3);
    SoloGoesOn(clock, Shared(None, Some(lock)), who, evicted, 4, 5 + 3);
    SoloGoesOn(clock, Shared(Some(lock), None), who, d, 5, 4 + (5 + 3));
  }

  lemma FindsNothing(clock: nat, who: nat, d: Deployer)
    requires d.pc == Start
    ensures Solo(clock, Shared(None, None), who, d, 5) ==
      (Shared(Some(Lease(who, clock)), None),
       d.(pc := OwnStat(Enter), now := clock, claimSeen := None, lockSeen := None, created := true))
  {
    hide Solo;
    var none, own := Shared(None, None), Shared(Some(Lease(who, clock)), None);
    var d1 := d.(pc := StatClaim, now := clock);
    var d2 := d1.(pc := StatLock, claimSeen := None);
    var d3 := d2.(pc := StillNoClaim, lockSeen := None);
    var d4 := d3.(pc := Create(FromNothing));
    var d5 := d4.(pc := OwnStat(Enter), created := true);
    SoloStep(clock, none, who, d, 5, none, d1);
    SoloStep(clock, none, who, d1, 4, none, d2);
    SoloStep(clock, none, who, d2, 3, none, d3);
    SoloStep(clock, none, who, d3, 2, none, d4);
    SoloStep(clock, none, who, d4, 1, own, d5);
  }

  lemma FindsClaim(clock: nat, claim: Content, who: nat, d: Deployer)
    requires d.pc == Start && Stale(claim, clock)
    ensures Solo(clock, Shared(None, Some(claim)), who, d, 6) ==
      (Shared(None, Some(claim)),
       d.(pc := Create(FromClaim), now := clock, claimSeen := Some(claim), lockSeen := None))
  {
    hide Solo;
    var files := Shared(None, Some(claim));
    var d1 := d.(pc := StatClaim, now := clock);
    var d2 := d1.(pc := ReadClaim, claimSeen := None);
    var d3 := d2.(pc := StatLock, claimSeen := Some(claim));
    var d4 := d3.(pc := MatchClaimStat, lockSeen := None);
    var d5 := d4.(pc := MatchClaimRead);
    SoloStep(clock, files, who, d, 6, files, d1);
    SoloStep(clock, files, who, d1, 5, files, d2);
    SoloStep(clock, files, who, d2, 4, files, d3);
    SoloStep(clock, files, who, d3, 3, files, d4);
    SoloStep(clock, files, who, d4, 2, files, d5);
    SoloStep(clock, files, who, d5, 1, files, d5.(pc := Create(FromClaim)));
  }

  lemma ConfirmsClaim(clock: nat, claim: Content, who: nat, d: Deployer)
    requires d.pc == Create(FromClaim) && d.now == clock
    ensures Solo(clock, Shared(None, Some(claim)), who, d, 4) ==
      (Shared(Some(Lease(who, clock)), None), d.(pc := OwnStat(Enter), created := true))
  {
    hide Solo;
    var before, after := Shared(None, Some(claim)), Shared(Some(Lease(who, clock)), Some(claim));
    var d1 := d.(pc := ConfirmStat, created := true);
    SoloStep(clock, before, who, d, 4, after, d1);
    SoloConfirms(clock, claim, who, d1);
  }

  lemma EvictsLock(clock: nat, lock: Content, who: nat, d: Deployer)
    requires d.pc == Start && Stale(lock, clock)
    ensures Solo(clock, Shared(Some(lock), None), who, d, 5) ==
      (Shared(None, Some(lock)),
       d.(pc := EvictedStat, now := clock, claimSeen := None, lockSeen := Some(lock)))
  {
    hide Solo;
    var before, after := Shared(Some(lock), None), Shared(None, Some(lock));
    var d1 := d.(pc := StatClaim, now := clock);
    var d2 := d1.(pc := StatLock, claimSeen := None);
    var d3 := d2.(pc := ReadLock);
    var d4 := d3.(pc := Evict, lockSeen := Some(lock));
    SoloStep(clock, before, who, d, 5, before, d1);
    SoloStep(clock, before, who, d1, 4, before, d2);
    SoloStep(clock, before, who, d2, 3, before, d3);
    SoloStep(clock, before, who, d3, 2, before, d4);
    SoloStep(clock, before, who, d4, 1, after, d4.(pc := EvictedStat));
  }

  lemma CreatesAfterEviction(clock: nat, lock: Content, who: nat, d: Deployer)
    requires d.pc == EvictedStat && d.now == clock && d.lockSeen == Some(lock)
    ensures Solo(clock, Shared(None, Some(lock)), who, d, 4) ==
      (Shared(Some(Lease(who, clock)), Some(lock)), d.(pc := RecheckStat, created := true))
  {
    hide Solo;
    var before, after := Shared(None, Some(lock)), Shared(Some(Lease(who, clock)), Some(lock));
    SoloStep(clock, before, who, d, 4, before, d.(pc := EvictedRead));
    SoloStep(clock, before, who, d.(pc := EvictedRead), 3, before, d.(pc := EvictedGone));
    SoloStep(clock, before, who, d.(pc := EvictedGone), 2, before, d.(pc := Create(FromLock)));
    SoloStep(clock, before, who, d.(pc := Create(FromLock)), 1, after, d.(pc := RecheckStat, created := true));
  }

  lemma ConfirmsLock(clock: nat, lock: Content, who: nat, d: Deployer)
    requires d.pc == RecheckStat && d.now == clock && d.lockSeen == Some(lock)
    ensures Solo(clock, Shared(Some(Lease(who, clock)), Some(lock)), who, d, 5) ==
      (Shared(Some(Lease(who, clock)), None), d.(pc := OwnStat(Enter)))
  {
    hide Solo;
    var files := Shared(Some(Lease(who, clock)), Some(lock));
    SoloStep(clock, files, who, d, 5, files, d.(pc := RecheckRead));
    SoloStep(clock, files, who, d.(pc := RecheckRead), 4, files, d.(pc := ConfirmStat));
    SoloConfirms(clock, lock, who, d.(pc := ConfirmStat));
  }

  lemma SoloConfirms(clock: nat, claim: Content, who: nat, d: Deployer)
    requires d.pc == ConfirmStat && d.now == clock
    ensures Solo(clock, Shared(Some(Lease(who, clock)), Some(claim)), who, d, 3) ==
      (Shared(Some(Lease(who, clock)), None), d.(pc := OwnStat(Enter)))
  {
    hide Solo;
    var before, after := Shared(Some(Lease(who, clock)), Some(claim)), Shared(Some(Lease(who, clock)), None);
    SoloStep(clock, before, who, d, 3, before, d.(pc := ConfirmRead));
    SoloStep(clock, before, who, d.(pc := ConfirmRead), 2, before, d.(pc := DropClaim));
    SoloStep(clock, before, who, d.(pc := DropClaim), 1, after, d.(pc := OwnStat(Enter)));
  }

  lemma PassesOwner(clock: nat, who: nat, d: Deployer, purpose: Purpose)
    requires d.pc == OwnStat(purpose) && d.now == clock
    ensures Solo(clock, Shared(Some(Lease(who, clock)), None), who, d, 3) ==
      (Shared(Some(Lease(who, clock)), None), d.(pc := AfterOwner(purpose)))
  {
    hide Solo;
    var files := Shared(Some(Lease(who, clock)), None);
    SoloStep(clock, files, who, d, 3, files, d.(pc := OwnRead(purpose)));
    SoloStep(clock, files, who, d.(pc := OwnRead(purpose)), 2, files, d.(pc := OwnClaim(purpose)));
    SoloStep(clock, files, who, d.(pc := OwnClaim(purpose)), 1, files, d.(pc := AfterOwner(purpose)));
  }

  /** And it releases the lock again and leaves neither file, so that the next
      deployer can acquire it. */
  lemma ReleasesExactly(clock: nat, who: nat, d: Deployer)
    requires d.pc == OwnStat(Leave) && d.now == clock
    ensures
      var (files, d') := Solo(clock, Shared(Some(Lease(who, clock)), None), who, d, 4);
      files == Shared(None, None) && d' == d.(pc := Finished) && Takeable(files, clock)
  {
    hide Solo;
    var files := Shared(Some(Lease(who, clock)), None);
    PassesOwner(clock, who, d, Leave);
    SoloStep(clock, files, who, d.(pc := Release), 1, Shared(None, None), d.(pc := Finished));
    SoloGoesOn(clock, files, who, d, 3, 1);
  }

  /** Work that fails or times out does not keep the lock: the deployer can still
      release it, as long as it is its own. */
  lemma ReleasedAfterFailure(clock: nat, who: nat, d: Deployer)
    requires d.pc in {OwnStat(Work), OwnRead(Work), OwnClaim(Work), Act} && d.now == clock
    ensures
      var files := Shared(Some(Lease(who, clock)), None);
      var (files', failed) := Move(files, d, Fault(who, false));
      var (_, leaving) := Move(files', failed, Choose(who, Leave));
      var (_, timedOut) := Move(files, d, Cancel(who));
      && files' == files && timedOut == leaving
      && Solo(clock, files, who, leaving, 4) == (Shared(None, None), leaving.(pc := Finished))
  {
    hide Solo;
    ReleasesExactly(clock, who, d.(pc := OwnStat(Leave)));
  }

  /** A deployer that is still reading files it will refuse, or has. */
  predicate Refusing(clock: nat, files: Shared, d: Deployer) {
    match d.pc
    case Start => true
    case StatClaim => d.now == clock
    case ReadClaim => d.now == clock && files.claim.Some?
    case StatLock => d.now == clock && d.claimSeen == files.claim
    case ReadLock => d.now == clock && d.claimSeen == files.claim && files.lock.Some?
    case Failed => true
    case _ => false
  }

  lemma {:induction false} NeverAcquires(clock: nat, files: Shared, who: nat, d: Deployer, n: nat)
    requires !Takeable(files, clock) && Refusing(clock, files, d)
    ensures Solo(clock, files, who, d, n).0 == files && Refusing(clock, files, Solo(clock, files, who, d, n).1)
    decreases n
  {
    if n > 0 {
      var (files', d') := Progress(files, who, d, clock);
      NeverAcquires(clock, files', who, d', n - 1);
    }
  }

  /** The steps from which both files can still be cleared: from creating the
      lock to dropping the claim, and the release. */
  predicate Clearing(pc: Pc) {
    pc in {RecheckStat, RecheckRead, ConfirmStat, ConfirmRead, DropClaim, Release}
  }

  /** Both files are there, and nobody is about to clear them. */
  ghost predicate Blocked(s: System) {
    && s.shared.lock.Some? && s.shared.claim.Some?
    && forall who :: 0 <= who < |s.deployers| ==> !Clearing(s.deployers[who].pc)
  }

  /** Then whatever any number of deployers do, with faults and crashes, both
      files stay as they are for ever, and nobody acquires the lock any more. */
  lemma {:induction false} BlockedForEver(s: System, events: seq<Event>)
    requires Blocked(s)
    ensures Blocked(Run(s, events)) && Run(s, events).shared == s.shared
    ensures |Run(s, events).deployers| == |s.deployers|
    ensures forall who :: 0 <= who < |s.deployers| && (Before(s.deployers[who].pc) || s.deployers[who].pc == Failed) ==>
      Before(Run(s, events).deployers[who].pc) || Run(s, events).deployers[who].pc == Failed
  {
    hide Next, Before;
    if events != [] {
      var front := events[..|events| - 1];
      BlockedForEver(s, front);
      NextStaysBlocked(Run(s, front), events[|events| - 1]);
    }
  }

  lemma NextStaysBlocked(s: System, event: Event)
    requires Blocked(s)
    ensures Blocked(Next(s, event)) && Next(s, event).shared == s.shared
    ensures |Next(s, event).deployers| == |s.deployers|
    ensures forall who :: 0 <= who < |s.deployers| && (Before(s.deployers[who].pc) || s.deployers[who].pc == Failed) ==>
      Before(Next(s, event).deployers[who].pc) || Next(s, event).deployers[who].pc == Failed
  {
    hide Move, Before, Clearing;
    if event.who < |s.deployers| {
      MoveStaysBlocked(s.shared, s.deployers[event.who], event);
    }
  }

  lemma MoveStaysBlocked(files: Shared, d: Deployer, event: Event)
    requires files.lock.Some? && files.claim.Some? && !Clearing(d.pc)
    ensures Move(files, d, event).0 == files && !Clearing(Move(files, d, event).1.pc)
    ensures Before(d.pc) || d.pc == Failed ==>
      Before(Move(files, d, event).1.pc) || Move(files, d, event).1.pc == Failed
  {
  }

  /** The code can get there from a lock that can be taken: the first of any
      number of deployers evicts a stale lease, creates its lock and crashes. */
  lemma CrashBlocks(others: nat) returns (s: System, events: seq<Event>)
    ensures Initial(s) && |s.deployers| == others + 1 && Takeable(s.shared, 1000)
    ensures Blocked(Run(s, events)) && |Run(s, events).deployers| == others + 1
    ensures Run(s, events).deployers[1..] == s.deployers[1..]
  {
    var begin := Deployer(Start, 0, None, None, false, 0);
    s := System(Shared(Some(Lease(others + 7, 0)), None), seq(others + 1, _ => begin));
    assert Initial(s) && Run(s, []) == s;
    hide Run, Solo, Initial;
    EvictsAndCreates(others + 7);
    events := AloneIsARun(s, [], 0, 9);
    var crashed := events + [Crash(0)];
    assert crashed[..|events|] == events;
    assert Run(s, crashed) == Next(Run(s, events), Crash(0)) by { RunOneMore(s, events, Crash(0)); }
    events := crashed;
  }

  lemma EvictsAndCreates(token: nat)
    ensures Solo(1000, Shared(Some(Lease(token, 0)), None), 0, Deployer(Start, 0, None, None, false, 0), 9)
         == (Shared(Some(Lease(0, 1000)), Some(Lease(token, 0))),
           Deployer(RecheckStat, 1000, None, Some(Lease(token, 0)), true, 0))
  {
    hide Solo;
    var begin, lease := Deployer(Start, 0, None, None, false, 0), Lease(token, 0);
    EvictsLock(1000, lease, 0, begin);
    CreatesAfterEviction(1000, lease, 0, Deployer(EvictedStat, 1000, None, Some(lease), false, 0));
    SoloGoesOn(1000, Shared(Some(lease), None), 0, begin, 5, 4);
  }

  // ---- why the condition is needed ----

  function Alone(s: System, who: nat, n: nat): System
    requires who < |s.deployers|
  {
    var (files, d) := Solo(1000, s.shared, who, s.deployers[who], n);
    System(files, s.deployers[who := d])
  }

  lemma {:induction false} AloneIsARun(s: System, events: seq<Event>, who: nat, n: nat) returns (longer: seq<Event>)
    requires who < |Run(s, events).deployers|
    ensures Run(s, longer) == Alone(Run(s, events), who, n)
    decreases n
  {
    if n == 0 {
      longer := events;
    } else {
      var one := events + [Step(who, 1000)];
      assert one[..|events|] == events;
      longer := AloneIsARun(s, one, who, n - 1);
      var before, after := Run(s, events).deployers, Run(s, one).deployers;
      var last := Run(s, longer).deployers[who];
      assert after == before[who := after[who]];
      assert after[who := last] == before[who := last];
    }
  }

  lemma ChooseIsARun(s: System, events: seq<Event>, who: nat) returns (longer: seq<Event>)
    requires who < |Run(s, events).deployers| && Run(s, events).deployers[who].pc == Ready
    ensures
      var e := Run(s, events);
      Run(s, longer) == e.(deployers := e.deployers[who := Goto(e.deployers[who], OwnStat(Work))])
  {
    longer := events + [Choose(who, Work)];
    assert longer[..|events|] == events;
  }

  function Waiting(pc: Pc, created: bool, strays: nat): Deployer {
    Deployer(pc, 1000, None, Some(Lease(7, 0)), created, strays)
  }

  function ThirdAt(pc: Pc, created: bool): Deployer {
    Deployer(pc, 1000, Some(Lease(7, 0)), None, created, 0)
  }

  /** Three deployers find an abandoned lock: two the lock itself, the third the
      claim that the first makes of it. */
  lemma ThreeObservers() returns (s: System, events: seq<Event>)
    ensures Initial(s) && |s.deployers| == 3
    ensures Run(s, events) == System(Shared(None, Some(Lease(7, 0))),
      [Waiting(EvictedStat, false, 0), Waiting(Evict, false, 0), ThirdAt(Create(FromClaim), false)])
  {
    var begin := Deployer(Start, 0, None, None, false, 0);
    s := System(Shared(Some(Lease(7, 0)), None), [begin, begin, begin]);
    assert Initial(s) && Run(s, []) == s;
    hide Run, Solo, Initial;
    LooksAtLock();
    EvictsLock(1000, Lease(7, 0), 0, begin);
    FindsClaim(1000, Lease(7, 0), 2, begin);
    events := AloneIsARun(s, [], 1, 4);
    events := AloneIsARun(s, events, 0, 5);
    events := AloneIsARun(s, events, 2, 6);
  }

  /** The first completes its takeover and verifies for a mutation. */
  lemma FirstVerifies() returns (s: System, events: seq<Event>)
    ensures Initial(s) && |s.deployers| == 3
    ensures Run(s, events) == System(Shared(Some(Lease(0, 1000)), None),
      [Waiting(Act, true, 0), Waiting(Evict, false, 0), ThirdAt(Create(FromClaim), false)])
  {
    hide Run, Solo, Initial;
    s, events := ThreeObservers();
    CreatesAfterEviction(1000, Lease(7, 0), 0, Waiting(EvictedStat, false, 0));
    ConfirmsLock(1000, Lease(7, 0), 0, Waiting(RecheckStat, true, 0));
    PassesOwner(1000, 0, Waiting(OwnStat(Enter), true, 0), Enter);
    PassesOwner(1000, 0, Waiting(OwnStat(Work), true, 0), Work);
    events := AloneIsARun(s, events, 0, 4);
    events := AloneIsARun(s, events, 0, 5);
    events := AloneIsARun(s, events, 0, 3);
    events := ChooseIsARun(s, events, 0);
    events := AloneIsARun(s, events, 0, 3);
  }

  /** The second, acting on its old observation, moves the first one's lock
      away, and the third finishes its own takeover and verifies. */
  lemma ThirdVerifies() returns (s: System, events: seq<Event>)
    ensures Initial(s) && |s.deployers| == 3
    ensures Run(s, events) == System(Shared(Some(Lease(2, 1000)), None),
      [Waiting(Act, true, 0), Waiting(EvictedStat, false, 0), ThirdAt(Act, true)])
  {
    hide Run, Solo, Initial;
    s, events := FirstVerifies();
    SecondEvicts();
    ConfirmsClaim(1000, Lease(0, 1000), 2, ThirdAt(Create(FromClaim), false));
    PassesOwner(1000, 2, ThirdAt(OwnStat(Enter), true), Enter);
    PassesOwner(1000, 2, ThirdAt(OwnStat(Work), true), Work);
    events := AloneIsARun(s, events, 1, 1);
    events := AloneIsARun(s, events, 2, 4);
    events := AloneIsARun(s, events, 2, 3);
    events := ChooseIsARun(s, events, 2);
    events := AloneIsARun(s, events, 2, 3);
  }

  /** Then the first one's mutation lands: with stale leases about, exclusion
      fails by that one change. */
  lemma EvictedOwnerStillWrites() returns (s: System, events: seq<Event>)
    ensures Initial(s)
    ensures
      var end := Run(s, events);
      && |end.deployers| == 3
      && end.deployers[0].strays == 1 && !Owns(end, 0)
      && Owns(end, 2) && Trusting(end.deployers[2].pc)
  {
    hide Run, Solo, Initial;
    s, events := ThirdVerifies();
    FirstLands();
    events := AloneIsARun(s, events, 0, 1);
    assert Run(s, events) == System(Shared(Some(Lease(2, 1000)), None),
      [Waiting(Ready, true, 1), Waiting(EvictedStat, false, 0), ThirdAt(Act, true)]);
  }

  lemma LooksAtLock()
    ensures Solo(1000, Shared(Some(Lease(7, 0)), None), 1, Deployer(Start, 0, None, None, false, 0), 4)
         == (Shared(Some(Lease(7, 0)), None), Deployer(Evict, 1000, None, Some(Lease(7, 0)), false, 0))
  {
  }

  lemma SecondEvicts()
    ensures Solo(1000, Shared(Some(Lease(0, 1000)), None), 1,
      Deployer(Evict, 1000, None, Some(Lease(7, 0)), false, 0), 1)
         == (Shared(None, Some(Lease(0, 1000))), Deployer(EvictedStat, 1000, None, Some(Lease(7, 0)), false, 0))
  {
  }

  lemma FirstLands()
    ensures Solo(1000, Shared(Some(Lease(2, 1000)), None), 0,
      Deployer(Act, 1000, None, Some(Lease(7, 0)), true, 0), 1)
         == (Shared(Some(Lease(2, 1000)), None), Deployer(Ready, 1000, None, Some(Lease(7, 0)), true, 1))
  {
  }
}
