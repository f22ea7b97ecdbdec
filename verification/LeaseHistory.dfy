/** What a deployer that created a lock found on the way there, in every run of
    `LeaseLock`: the history of its requests against the state it relies on. */
module LeaseHistory {
  import opened Basics
  import opened LeaseLock

  /** The files that a request met, and how many steps of the run came first. */
  datatype Met = Met(at: nat, files: Shared)

  type Notes = map<Pc, Met>

  /** A request of the deployer that takes effect, as `Step` or behind an error. */
  predicate Lands(event: Event, who: nat) {
    event.who == who && (event.Step? || (event.Fault? && event.landed))
  }

  /** What the deployer's requests met, by the step it was at. */
  ghost function History(s: System, events: seq<Event>, who: nat): Notes {
    if events == [] then map[] else
      var n := |events| - 1;
      var before, notes := Run(s, events[..n]), History(s, events[..n], who);
      if Lands(events[n], who) && who < |before.deployers|
      then notes[before.deployers[who].pc := Met(n, before.shared)]
      else notes
  }

  lemma {:induction false} HistoryIsTrue(s: System, events: seq<Event>, who: nat, pc: Pc)
    requires pc in History(s, events, who)
    ensures
      var met := History(s, events, who)[pc];
      && met.at < |events| && Lands(events[met.at], who)
      && met.files == Run(s, events[..met.at]).shared
      && who < |Run(s, events[..met.at]).deployers| && Run(s, events[..met.at]).deployers[who].pc == pc
  {
    hide Run;
    var n := |events| - 1;
    var front := events[..n];
    var before := Run(s, front);
    if Lands(events[n], who) && who < |before.deployers| && before.deployers[who].pc == pc {
      assert History(s, events, who)[pc] == Met(n, before.shared);
    } else {
      HistoryIsTrue(s, front, who, pc);
      assert front[..History(s, events, who)[pc].at] == events[..History(s, events, who)[pc].at];
    }
  }

  // ---- what the requests met ----

  /** What a deployer read, and its clock. */
  datatype Sight = Sight(claim: Option<Content>, lock: Option<Content>, now: nat)

  function SightOf(d: Deployer): Sight {
    Sight(d.claimSeen, d.lockSeen, d.now)
  }

  ghost predicate SawClaim(saw: Sight, notes: Notes) {
    match saw.claim
    case None => StatClaim in notes && notes[StatClaim].files.claim.None?
    case Some(_) =>
      ReadClaim in notes && notes[ReadClaim].files.claim == saw.claim && Readable(saw.claim, saw.now)
  }

  ghost predicate SawLock(saw: Sight, notes: Notes) {
    match saw.lock
    case None => StatLock in notes && notes[StatLock].files.lock.None?
    case Some(_) => ReadLock in notes && notes[ReadLock].files.lock == saw.lock && Readable(saw.lock, saw.now)
  }

  /** The way that a deployer takes which found this. */
  function RouteOf(saw: Sight): Route {
    if saw.claim.Some? then FromClaim else if saw.lock.Some? then FromLock else FromNothing
  }

  /** It found neither file, or exactly one, a stale lease. */
  ghost predicate Found(saw: Sight, notes: Notes) {
    && SawClaim(saw, notes) && SawLock(saw, notes)
    && !(saw.claim.Some? && saw.lock.Some?)
    && (saw.claim.Some? ==> Outlived(saw.claim.value, saw.now))
    && (saw.lock.Some? ==> Outlived(saw.lock.value, saw.now))
  }

  /** Its eviction landed. */
  ghost predicate Evicted(notes: Notes) {
    Evict in notes && notes[Evict].files.lock.Some? && notes[Evict].files.claim.None?
  }

  ghost predicate CheckedEviction(saw: Sight, notes: Notes) {
    Evicted(notes) && EvictedRead in notes && notes[EvictedRead].files.claim == saw.lock
  }

  /** It looked again before creating its lock. */
  ghost predicate Prepared(saw: Sight, notes: Notes) {
    && Found(saw, notes)
    && match RouteOf(saw)
       case FromNothing => StillNoClaim in notes && notes[StillNoClaim].files.claim.None?
       case FromClaim => MatchClaimRead in notes && notes[MatchClaimRead].files.claim == saw.claim
       case FromLock =>
         CheckedEviction(saw, notes) && EvictedGone in notes && notes[EvictedGone].files.lock.None?
  }

  ghost predicate CreatedFairly(saw: Sight, notes: Notes) {
    && Prepared(saw, notes)
    && Create(RouteOf(saw)) in notes && notes[Create(RouteOf(saw))].files.lock.None?
  }

  /** After an eviction it also looked at the claim again. */
  ghost predicate Rechecked(saw: Sight, notes: Notes) {
    RouteOf(saw) == FromLock ==>
      RecheckStat in notes && notes[RecheckStat].files.claim.Some?
      && RecheckRead in notes && notes[RecheckRead].files.claim == saw.lock
  }

  /** It removed a claim only after it had found its own lock. */
  ghost predicate Confirmed(who: nat, saw: Sight, notes: Notes) {
    && Rechecked(saw, notes)
    && (RouteOf(saw) != FromNothing ==>
          ConfirmStat in notes && notes[ConfirmStat].files.lock.Some?
          && ConfirmRead in notes && notes[ConfirmRead].files.lock == Some(Lease(who, saw.now)))
  }

  ghost predicate Owned(who: nat, saw: Sight, notes: Notes) {
    OwnRead(Enter) in notes && notes[OwnRead(Enter)].files.lock == Some(Lease(who, saw.now))
  }

  /** And there was one to remove. */
  ghost predicate Dropped(saw: Sight, notes: Notes) {
    RouteOf(saw) != FromNothing ==> DropClaim in notes && notes[DropClaim].files.claim.Some?
  }

  /** And it entered owning the lock, with no claim about. */
  ghost predicate Entered(who: nat, saw: Sight, notes: Notes) {
    && Confirmed(who, saw, notes) && Dropped(saw, notes) && Owned(who, saw, notes)
    && OwnClaim(Enter) in notes && notes[OwnClaim(Enter)].files.claim.None?
  }

  /** It removed a lock in the end. */
  ghost predicate Released(notes: Notes) {
    Release in notes && notes[Release].files.lock.Some?
  }

  /** The steps that only a deployer takes that has acquired the lock. */
  predicate Within(pc: Pc) {
    pc in {Ready, Act, Release, Finished, OwnStat(Work), OwnRead(Work), OwnClaim(Work),
           OwnStat(Leave), OwnRead(Leave), OwnClaim(Leave)}
  }

  /** What is known at each step. */
  ghost predicate Tracks(who: nat, d: Deployer, notes: Notes) {
    if Before(d.pc) then !d.created && TracksBefore(d, notes)
    else
      && (d.pc != Failed ==> d.created)
      && (d.created ==> CreatedFairly(SightOf(d), notes))
      && TracksAfter(who, d, notes)
  }

  ghost predicate TracksBefore(d: Deployer, notes: Notes) {
    match d.pc
    case Start => true
    case StatClaim => true
    case ReadClaim => true
    case StatLock => SawClaim(SightOf(d), notes)
    case ReadLock => SawClaim(SightOf(d), notes)
    case Create(route) => route == RouteOf(SightOf(d)) && Prepared(SightOf(d), notes)
    case StillNoClaim => Found(SightOf(d), notes) && RouteOf(SightOf(d)) == FromNothing
    case MatchClaimStat => Found(SightOf(d), notes) && RouteOf(SightOf(d)) == FromClaim
    case MatchClaimRead => Found(SightOf(d), notes) && RouteOf(SightOf(d)) == FromClaim
    case Evict => Found(SightOf(d), notes) && RouteOf(SightOf(d)) == FromLock
    case EvictedGone =>
      Found(SightOf(d), notes) && RouteOf(SightOf(d)) == FromLock && CheckedEviction(SightOf(d), notes)
    case _ => Found(SightOf(d), notes) && RouteOf(SightOf(d)) == FromLock && Evicted(notes)
  }

  ghost predicate TracksAfter(who: nat, d: Deployer, notes: Notes) {
    match d.pc
    case RecheckStat => RouteOf(SightOf(d)) == FromLock
    case RecheckRead =>
      RouteOf(SightOf(d)) == FromLock && RecheckStat in notes && notes[RecheckStat].files.claim.Some?
    case ConfirmStat => Rechecked(SightOf(d), notes)
    case ConfirmRead => Rechecked(SightOf(d), notes) && ConfirmStat in notes && notes[ConfirmStat].files.lock.Some?
    case OwnStat(Enter) => Confirmed(who, SightOf(d), notes) && Dropped(SightOf(d), notes)
    case OwnRead(Enter) => Confirmed(who, SightOf(d), notes) && Dropped(SightOf(d), notes)
    case OwnClaim(Enter) =>
      Confirmed(who, SightOf(d), notes) && Dropped(SightOf(d), notes) && Owned(who, SightOf(d), notes)
    case DropClaim => Confirmed(who, SightOf(d), notes)
    case Failed => true
    case Finished => Entered(who, SightOf(d), notes) && Released(notes)
    case _ => Entered(who, SightOf(d), notes)
  }

  ghost function Noted(notes: Notes, d: Deployer, event: Event, met: Met): Notes {
    if Lands(event, event.who) then notes[d.pc := met] else notes
  }

  /** What is known at a step does not depend on what the request there meets. */
  lemma StillTracks(who: nat, d: Deployer, notes: Notes, met: Met)
    requires Tracks(who, d, notes)
    ensures Tracks(who, d, notes[d.pc := met])
  {
    hide Readable, Stale;
  }

  lemma OwnStepTracks(files: Shared, who: nat, d: Deployer, notes: Notes, event: Event, at: nat)
    requires event.who == who && Tracks(who, d, notes)
    ensures Tracks(who, Move(files, d, event).1, Noted(notes, d, event, Met(at, files)))
  {
    hide Move, Before, Tracks;
    var met := Met(at, files);
    StillTracks(who, d, notes, met);
    var notes' := Noted(notes, d, event, met);
    if !event.Step? {
      NoStepTracks(files, who, d, notes', event);
    } else if d.pc in {Start, StatClaim, ReadClaim} {
      LookTracks(files, who, d, notes', event);
    } else if d.pc in {StatLock, ReadLock} {
      DecideTracks(files, who, d, notes', event);
    } else if Before(d.pc) {
      PrepareTracks(files, who, d, notes', event);
    } else if Within(d.pc) {
      WithinTracks(files, who, d, notes', event);
    } else {
      ConfirmTracks(files, who, d, notes', event);
    }
  }

  ghost predicate Knows(notes: Notes, d: Deployer, files: Shared) {
    d.pc in notes && notes[d.pc].files == files
  }

  lemma NoStepTracks(files: Shared, who: nat, d: Deployer, notes: Notes, event: Event)
    requires event.who == who && Tracks(who, d, notes) && !event.Step?
    requires event.Fault? && event.landed ==> Knows(notes, d, files)
    ensures Tracks(who, Move(files, d, event).1, notes)
  {
    hide Found, Prepared, Confirmed, Owned, SawClaim, CheckedEviction, Evicted;
  }

  lemma LookTracks(files: Shared, who: nat, d: Deployer, notes: Notes, event: Event)
    requires event.who == who && Tracks(who, d, notes) && event.Step? && Knows(notes, d, files)
    requires d.pc in {Start, StatClaim, ReadClaim}
    ensures Tracks(who, Move(files, d, event).1, notes)
  {
    hide CreatedFairly, Prepared, Confirmed, Owned, Entered, Rechecked;
  }

  lemma DecideTracks(files: Shared, who: nat, d: Deployer, notes: Notes, event: Event)
    requires event.who == who && Tracks(who, d, notes) && event.Step? && Knows(notes, d, files)
    requires d.pc in {StatLock, ReadLock}
    ensures Tracks(who, Move(files, d, event).1, notes)
  {
    hide CreatedFairly, Prepared, Confirmed, Owned, Entered, Rechecked;
  }

  lemma PrepareTracks(files: Shared, who: nat, d: Deployer, notes: Notes, event: Event)
    requires event.who == who && Tracks(who, d, notes) && event.Step? && Knows(notes, d, files) && Before(d.pc)
    requires d.pc !in {Start, StatClaim, ReadClaim, StatLock, ReadLock}
    ensures Tracks(who, Move(files, d, event).1, notes)
  {
    hide SawClaim, SawLock, Stale, Owned;
  }

  lemma WithinTracks(files: Shared, who: nat, d: Deployer, notes: Notes, event: Event)
    requires event.who == who && Tracks(who, d, notes) && event.Step? && Knows(notes, d, files) && Within(d.pc)
    ensures Tracks(who, Move(files, d, event).1, notes)
  {
    hide Found, Prepared, Confirmed, Owned;
  }

  lemma ConfirmTracks(files: Shared, who: nat, d: Deployer, notes: Notes, event: Event)
    requires event.who == who && Tracks(who, d, notes) && event.Step? && Knows(notes, d, files)
    requires !Before(d.pc) && !Within(d.pc)
    ensures Tracks(who, Move(files, d, event).1, notes)
  {
    hide Prepared;
  }

  // ---- over whole runs ----

  lemma {:induction false} RunTracks(s: System, events: seq<Event>, who: nat)
    requires Initial(s) && who < |s.deployers|
    ensures |Run(s, events).deployers| == |s.deployers|
    ensures Tracks(who, Run(s, events).deployers[who], History(s, events, who))
  {
    hide Move, Tracks;
    RunKeepsInv(s, events);
    if events == [] {
      StartTracks(who, s.deployers[who], map[]);
    } else {
      var n := |events| - 1;
      RunTracks(s, events[..n], who);
      if events[n].who == who {
        var before := Run(s, events[..n]);
        OwnStepTracks(before.shared, who, before.deployers[who], History(s, events[..n], who), events[n], n);
      }
    }
  }

  lemma StartTracks(who: nat, d: Deployer, notes: Notes)
    requires d.pc == Start && !d.created
    ensures Tracks(who, d, notes)
  {
  }

  // ---- contents do not come back ----

  /** The deployer that a lease names has created its lock file already. */
  ghost predicate Spent(s: System, lease: Content) {
    lease.Lease? && (lease.token < |s.deployers| ==> s.deployers[lease.token].created)
  }

  lemma StaysSpent(s: System, event: Event, lease: Content)
    requires Inv(s) && Spent(s, lease)
    ensures Spent(Next(s, event), lease)
  {
    if lease.token < |s.deployers| {
      CreatedStays(s, event, lease.token);
    }
  }

  lemma WhatIsThereIsSpent(s: System, lease: Content)
    requires Inv(s) && lease.Lease? && (s.shared.lock == Some(lease) || s.shared.claim == Some(lease))
    ensures Spent(s, lease)
  {
    if lease.token < |s.deployers| {
      assert Orderly(s.shared, lease.token, s.deployers[lease.token]);
    }
  }

  ghost predicate Gone(s: System, lease: Content) {
    s.shared.lock != Some(lease) && s.shared.claim != Some(lease)
  }

  /** Nobody writes a lease twice. */
  lemma NoLockTwice(s: System, event: Event, lease: Content)
    requires Inv(s) && Spent(s, lease) && s.shared.lock != Some(lease)
    ensures Next(s, event).shared.lock != Some(lease)
    ensures Gone(s, lease) ==> Gone(Next(s, event), lease)
  {
    if event.who < |s.deployers| {
      assert Orderly(s.shared, event.who, s.deployers[event.who]);
    }
  }

  lemma {:induction false} StaysGone(s: System, events: seq<Event>, i: nat, lease: Content)
    requires Initial(s) && i <= |events| && Spent(Run(s, events[..i]), lease)
    requires Run(s, events[..i]).shared.lock != Some(lease)
    ensures Run(s, events).shared.lock != Some(lease) && Spent(Run(s, events), lease)
    ensures Gone(Run(s, events[..i]), lease) ==> Gone(Run(s, events), lease)
    decreases |events|
  {
    hide Next, Spent;
    if i == |events| {
      assert events[..i] == events;
    } else {
      var n := |events| - 1;
      assert events[..n][..i] == events[..i];
      StaysGone(s, events[..n], i, lease);
      RunKeepsInv(s, events[..n]);
      StaysSpent(Run(s, events[..n]), events[n], lease);
      NoLockTwice(Run(s, events[..n]), events[n], lease);
    }
  }

  // ---- the evicted lock is the one that was read ----

  ghost predicate Exactly(s: System, who: nat, notes: Notes)
    requires who < |s.deployers|
  {
    var d := s.deployers[who];
    && (d.lockSeen.Some? && (d.created || d.pc in {Evict, EvictedStat, EvictedRead, EvictedGone, Create(FromLock)}) ==>
          Spent(s, d.lockSeen.value))
    && (d.pc in {EvictedStat, EvictedRead} && d.lockSeen.Some? && Evict in notes ==>
          notes[Evict].files.lock == d.lockSeen || Gone(s, d.lockSeen.value))
    && (d.created || d.pc in {EvictedGone, Create(FromLock)} ==>
          RouteOf(SightOf(d)) == FromLock && Evict in notes ==> notes[Evict].files.lock == d.lockSeen)
  }

  lemma OwnStepExactly(s: System, who: nat, notes: Notes, event: Event, at: nat)
    requires who < |s.deployers| && event.who == who && Inv(s)
    requires Tracks(who, s.deployers[who], notes) && Exactly(s, who, notes)
    ensures Exactly(Next(s, event), who, Noted(notes, s.deployers[who], event, Met(at, s.shared)))
  {
    hide Inv, Spent, Orderly, Tracks, Exactly, Next, Noted;
    var d := s.deployers[who];
    var s', notes' := Next(s, event), Noted(notes, d, event, Met(at, s.shared));
    if d.lockSeen.Some? && Spent(s, d.lockSeen.value) {
      StaysSpent(s, event, d.lockSeen.value);
      if s.shared.lock != d.lockSeen {
        NoLockTwice(s, event, d.lockSeen.value);
      }
    }
    if d.pc == ReadLock && Readable(s.shared.lock, d.now) {
      WhatIsThereIsSpent(s, s.shared.lock.value);
      StaysSpent(s, event, s.shared.lock.value);
    }
    ExactlyByStep(s, who, notes, event, at);
  }

  lemma ExactlyByStep(s: System, who: nat, notes: Notes, event: Event, at: nat)
    requires who < |s.deployers| && event.who == who
    requires Tracks(who, s.deployers[who], notes) && Exactly(s, who, notes)
    requires var d := s.deployers[who];
      d.lockSeen.Some? && Spent(s, d.lockSeen.value) ==>
        && Spent(Next(s, event), d.lockSeen.value)
        && (Gone(s, d.lockSeen.value) ==> Gone(Next(s, event), d.lockSeen.value))
    requires var d := s.deployers[who];
      d.pc == ReadLock && Readable(s.shared.lock, d.now) ==> Spent(Next(s, event), s.shared.lock.value)
    ensures Exactly(Next(s, event), who, Noted(notes, s.deployers[who], event, Met(at, s.shared)))
  {
    hide Spent;
  }

  lemma OthersStepExactly(s: System, who: nat, notes: Notes, event: Event)
    requires who < |s.deployers| && event.who != who && Inv(s) && Exactly(s, who, notes)
    ensures Exactly(Next(s, event), who, notes)
  {
    hide Inv, Spent, Orderly, Move;
    var d := s.deployers[who];
    if d.lockSeen.Some? && Spent(s, d.lockSeen.value) {
      StaysSpent(s, event, d.lockSeen.value);
      if s.shared.lock != d.lockSeen {
        NoLockTwice(s, event, d.lockSeen.value);
      }
    }
  }

  lemma {:induction false} RunIsExact(s: System, events: seq<Event>, who: nat)
    requires Initial(s) && who < |s.deployers|
    ensures |Run(s, events).deployers| == |s.deployers|
    ensures Exactly(Run(s, events), who, History(s, events, who))
  {
    hide Next, Tracks, Exactly, Inv, Noted;
    RunKeepsInv(s, events);
    if events == [] {
      StartIsExact(s, who);
    } else {
      var n := |events| - 1;
      RunIsExact(s, events[..n], who);
      RunTracks(s, events[..n], who);
      RunKeepsInv(s, events[..n]);
      var before, notes := Run(s, events[..n]), History(s, events[..n], who);
      if events[n].who == who {
        OwnStepExactly(before, who, notes, events[n], n);
        NotedIsHistory(s, events, who);
      } else {
        OthersStepExactly(before, who, notes, events[n]);
      }
    }
  }

  lemma NotedIsHistory(s: System, events: seq<Event>, who: nat)
    requires events != [] && who < |Run(s, events[..|events| - 1]).deployers| && events[|events| - 1].who == who
    ensures
      var n := |events| - 1;
      var before := Run(s, events[..n]);
      History(s, events, who) ==
        Noted(History(s, events[..n], who), before.deployers[who], events[n], Met(n, before.shared))
  {
    hide Run;
  }

  lemma StartIsExact(s: System, who: nat)
    requires Initial(s) && who < |s.deployers|
    ensures Exactly(s, who, map[])
  {
  }

  // ---- results ----

  /** In every run, a deployer that created its lock file had read both files and
      found neither, or exactly one and that a stale lease; it had looked again;
      and if it evicted a lock, it took exactly the lease that it had read and
      found stale, whatever others did in between. */
  lemma TookOnlyWhatWasStale(s: System, events: seq<Event>, who: nat)
    requires Initial(s) && who < |s.deployers|
    ensures |Run(s, events).deployers| == |s.deployers|
    ensures
      var d, notes := Run(s, events).deployers[who], History(s, events, who);
      d.created ==>
        && CreatedFairly(SightOf(d), notes)
        && (RouteOf(SightOf(d)) == FromLock ==> notes[Evict].files.lock == d.lockSeen)
  {
    RunTracks(s, events, who);
    RunIsExact(s, events, who);
    hide Run, History, Found, Spent;
  }

  /** Whoever entered had checked, after creating its lock, that the lock was its
      own and that no claim was left but the one it had made. */
  lemma EnteredAfterAllChecks(s: System, events: seq<Event>, who: nat)
    requires Initial(s) && who < |s.deployers|
    ensures |Run(s, events).deployers| == |s.deployers|
    ensures
      var d, notes := Run(s, events).deployers[who], History(s, events, who);
      && (Within(d.pc) ==> CreatedFairly(SightOf(d), notes) && Entered(who, SightOf(d), notes))
      && (d.pc == Finished ==> Released(notes))
  {
    hide Run, History, Tracks, CreatedFairly, Entered, Released;
    RunTracks(s, events, who);
    if Within(Run(s, events).deployers[who].pc) {
      WithinTracked(who, Run(s, events).deployers[who], History(s, events, who));
    }
  }

  lemma WithinTracked(who: nat, d: Deployer, notes: Notes)
    requires Tracks(who, d, notes) && Within(d.pc)
    ensures d.created && CreatedFairly(SightOf(d), notes) && Entered(who, SightOf(d), notes)
    ensures d.pc == Finished ==> Released(notes)
  {
    hide CreatedFairly, Entered, Released, TracksBefore;
  }

  /** And a deployer that finished owns nothing any more. */
  lemma {:induction false} FinishedOwnsNothing(s: System, events: seq<Event>, who: nat)
    requires Initial(s) && who < |s.deployers|
    ensures |Run(s, events).deployers| == |s.deployers|
    ensures Run(s, events).deployers[who].pc == Finished ==> !Owns(Run(s, events), who)
  {
    hide Next, Orderly, Tracks;
    RunKeepsInv(s, events);
    if events != [] {
      var n := |events| - 1;
      var before := Run(s, events[..n]);
      FinishedOwnsNothing(s, events[..n], who);
      RunKeepsInv(s, events[..n]);
      WithinIsCreated(s, events[..n], who);
      if before.deployers[who].pc == Finished {
        LostStaysLost(before, events[n], who);
      } else if Run(s, events).deployers[who].pc == Finished {
        FinishingFreesTheLock(before, events[n], who);
      }
    }
  }

  lemma FinishingFreesTheLock(s: System, event: Event, who: nat)
    requires who < |s.deployers| && s.deployers[who].pc != Finished && Next(s, event).deployers[who].pc == Finished
    ensures Next(s, event).shared.lock.None?
  {
  }

  /** A claim that is found again was there all along. */
  lemma TheSameClaim(s: System, events: seq<Event>, i: nat, k: nat, lease: Content)
    requires Initial(s) && i <= k <= |events| && lease.Lease?
    requires Run(s, events[..i]).shared == Shared(None, Some(lease)) && Run(s, events).shared.claim == Some(lease)
    ensures Run(s, events[..k]).shared.claim == Some(lease)
  {
    hide Run, Spent;
    RunKeepsInv(s, events[..i]);
    WhatIsThereIsSpent(Run(s, events[..i]), lease);
    assert events[..k][..i] == events[..i];
    StaysGone(s, events[..k], i, lease);
    StaysGone(s, events, k, lease);
  }

  /** From its eviction to the moment when it looked at the claim again, nobody
      else took over the claim that a deployer had made. */
  lemma ClaimWasHeld(s: System, events: seq<Event>, who: nat, k: nat)
    requires Initial(s) && who < |s.deployers| && |Run(s, events).deployers| == |s.deployers|
    requires Within(Run(s, events).deployers[who].pc) && RouteOf(SightOf(Run(s, events).deployers[who])) == FromLock
    ensures
      var notes := History(s, events, who);
      && Evict in notes && RecheckRead in notes && notes[Evict].at < notes[RecheckRead].at < |events|
      && (notes[Evict].at < k <= notes[RecheckRead].at ==>
            Run(s, events[..k]).shared.claim == Run(s, events).deployers[who].lockSeen)
  {
    hide Run, History, Found, Tracks, Orderly;
    var d, notes := Run(s, events).deployers[who], History(s, events, who);
    EnteredAfterAllChecks(s, events, who);
    WithinIsCreated(s, events, who);
    TookOnlyWhatWasStale(s, events, who);
    HistoryIsTrue(s, events, who, Evict);
    HistoryIsTrue(s, events, who, RecheckRead);
    var e, r := notes[Evict].at, notes[RecheckRead].at;
    RunKeepsInv(s, events[..e]);
    RunKeepsInv(s, events[..r]);
    EvictedBeforeRechecked(s, events, who, e, r);
    AfterEviction(s, events, e, who);
    if e < k <= r {
      FoundIsLease(s, events, who);
      assert events[..r][..e + 1] == events[..e + 1] && events[..r][..k] == events[..k];
      TheSameClaim(s, events[..r], e + 1, k, d.lockSeen.value);
    }
  }

  lemma WithinIsCreated(s: System, events: seq<Event>, who: nat)
    requires Initial(s) && who < |s.deployers|
    ensures |Run(s, events).deployers| == |s.deployers|
    ensures Within(Run(s, events).deployers[who].pc) ==> Run(s, events).deployers[who].created
  {
    RunTracks(s, events, who);
    hide Run, History, CreatedFairly, TracksAfter, TracksBefore;
  }

  lemma FoundIsLease(s: System, events: seq<Event>, who: nat)
    requires Initial(s) && who < |s.deployers|
    ensures |Run(s, events).deployers| == |s.deployers|
    ensures var d := Run(s, events).deployers[who];
      d.created && d.lockSeen.Some? ==> d.lockSeen.value.Lease?
  {
    RunTracks(s, events, who);
    hide Run, History, TracksAfter, TracksBefore, SawClaim, SawLock;
  }

  lemma EvictedBeforeRechecked(s: System, events: seq<Event>, who: nat, e: nat, r: nat)
    requires Initial(s) && who < |s.deployers| && e < |events| && r < |events|
    requires |Run(s, events[..e]).deployers| == |Run(s, events[..r]).deployers| == |s.deployers|
    requires Run(s, events[..e]).deployers[who].pc == Evict && Run(s, events[..r]).deployers[who].pc == RecheckRead
    ensures e < r
  {
    RunTracks(s, events[..e], who);
    RunTracks(s, events[..r], who);
    hide Run, History, CreatedFairly, TracksAfter, TracksBefore;
    if r < e {
      assert events[..e][..r] == events[..r];
      CreatedFrom(s, events[..e], r, who);
    }
  }

  lemma AfterEviction(s: System, events: seq<Event>, e: nat, who: nat)
    requires e < |events| && who < |Run(s, events[..e]).deployers| && Run(s, events[..e]).deployers[who].pc == Evict
    requires Lands(events[e], who)
    requires Run(s, events[..e]).shared.lock.Some? && Run(s, events[..e]).shared.claim.None?
    ensures Run(s, events[..e + 1]).shared == Shared(None, Run(s, events[..e]).shared.lock)
  {
    hide Run;
    assert events[..e + 1] == events[..e] + [events[e]];
    RunOneMore(s, events[..e], events[e]);
  }
}
