/** Triggering an automation: one mutation at the end of two reads, under a
    timeout and a cancellation that may strike at any await. */
module Trigger {
  import opened Basics
  import opened EntityIds

  const NATIVE_LIMIT := 256 * 1024

  datatype Fault =
    | InvalidArguments
    | CapacityExhausted
    | InvalidResponse
    | ResponseTooLarge
    | RevisionConflict
    | ConfigNotFound
    | Timeout
    | MutationOutcomeUnknown
    | Upstream(code: nat)

  datatype Reply<+T> = Good(value: T) | Bad(fault: Fault)

  datatype Input = Input(valid: bool, key: string, expectedRevision: Bytes, skipConditions: bool)

  /** A stored automation: its own identifier, whether it is a native object,
      and its text. */
  datatype Config = Config(id: string, native: bool, text: Bytes)

  datatype State = State(entityId: string, configId: Option<string>)

  /** How the server answers, if it gets to answer; `connects` says whether the
      mutation reaches it at all. */
  datatype Upstream = Upstream(
    admitted: bool,
    config: Reply<Config>,
    states: Reply<seq<State>>,
    connects: bool,
    accepted: bool,
    revision: Bytes -> Bytes)

  /** Where the operation waits for the server. */
  datatype Await = ForConfig | ForStates | ForSending | ForAcceptance

  /** What strikes while it waits there, if anything. */
  datatype Strike = Never | TimesOut(at: Await) | IsCancelled(at: Await)

  datatype Answer = Triggered(entityId: string) | Cancelled | Failed(fault: Fault)

  /** A request that reached the wire. */
  datatype Post = Post(entityId: string, skipConditions: bool)

  // ----- Which entity the automation is

  predicate Prefixed(s: string) {
    "automation." <= s
  }

  predicate Matches(state: State, key: string) {
    Prefixed(state.entityId) && state.configId == Some(key)
  }

  function Matching(states: seq<State>, key: string): seq<State> {
    if states == [] then []
    else (if Matches(states[0], key) then [states[0]] else []) + Matching(states[1..], key)
  }

  /** The state of an automation with that identifier. */
  ghost predicate Belongs(state: State, key: string) {
    && state.configId.Some? && state.configId.value == key
    && exists name :: state.entityId == "automation." + name
  }

  lemma MatchesBelongs(state: State, key: string)
    ensures Matches(state, key) <==> Belongs(state, key)
  {
    if Prefixed(state.entityId) {
      assert state.entityId == "automation." + state.entityId[|"automation."|..];
    }
  }

  /** Exactly one state is one, at `i`. */
  ghost predicate OnlyMatch(states: seq<State>, key: string, i: nat) {
    i < |states| && forall k :: 0 <= k < |states| ==> (Belongs(states[k], key) <==> k == i)
  }

  lemma {:induction false} MatchingNothing(states: seq<State>, key: string)
    ensures Matching(states, key) == [] <==> forall k :: 0 <= k < |states| ==> !Belongs(states[k], key)
  {
    hide Belongs, Matches;
    if states != [] {
      var rest := states[1..];
      MatchingNothing(rest, key);
      MatchesBelongs(states[0], key);
      assert forall k :: 0 < k < |states| ==> states[k] == rest[k - 1];
      assert forall k :: 0 <= k < |rest| ==> rest[k] == states[k + 1];
    }
  }

  /** The list has one element exactly if one state matches, and then it is
      that one. */
  lemma {:induction false} MatchingCounts(states: seq<State>, key: string)
    ensures |Matching(states, key)| == 1 <==> exists i: nat :: OnlyMatch(states, key, i)
    ensures forall i: nat :: OnlyMatch(states, key, i) ==> Matching(states, key) == [states[i]]
  {
    hide Belongs, Matches;
    if states != [] {
      var rest := states[1..];
      MatchesBelongs(states[0], key);
      assert forall k :: 0 <= k < |rest| ==> rest[k] == states[k + 1];
      if Matches(states[0], key) {
        MatchingNothing(rest, key);
        SoleFirst(states, key);
      } else {
        MatchingCounts(rest, key);
        SoleLater(states, key);
      }
    }
  }

  lemma SoleFirst(states: seq<State>, key: string)
    requires states != [] && Belongs(states[0], key)
    ensures forall i: nat :: OnlyMatch(states, key, i) ==> i == 0
    ensures OnlyMatch(states, key, 0) <==> forall k :: 0 <= k < |states| - 1 ==> !Belongs(states[1..][k], key)
  {
    hide Belongs;
    assert forall k :: 0 < k < |states| ==> states[k] == states[1..][k - 1];
  }

  lemma SoleLater(states: seq<State>, key: string)
    requires states != [] && !Belongs(states[0], key)
    ensures forall i: nat :: OnlyMatch(states, key, i) ==> i > 0 && OnlyMatch(states[1..], key, i - 1)
    ensures forall i: nat :: OnlyMatch(states[1..], key, i) ==> OnlyMatch(states, key, i + 1)
  {
    hide Belongs;
    var rest := states[1..];
    assert forall k :: 0 <= k < |rest| ==> rest[k] == states[k + 1];
    assert forall k :: 0 < k < |states| ==> states[k] == rest[k - 1];
  }

  // ----- The operation

  /** The flag that outlives the operation, and what reached the wire. */
  class Session {
    var dispatched: bool
    ghost var posts: seq<Post>

    constructor ()
      ensures !dispatched && posts == []
    {
      dispatched, posts := false, [];
    }
  }

  datatype Progress = Done(answer: Reply<string>) | Struck

  predicate Hits(strike: Strike, at: Await) {
    !strike.Never? && strike.at == at
  }

  /** The checks between the two reads. */
  function CheckConfig(input: Input, upstream: Upstream): (r: Option<Fault>) {
    match upstream.config
    case Bad(fault) => Some(fault)
    case Good(config) =>
      if !config.native || config.id != input.key then Some(InvalidResponse)
      else if |config.text| > NATIVE_LIMIT then Some(ResponseTooLarge)
      else if upstream.revision(config.text) != input.expectedRevision then Some(RevisionConflict)
      else None
  }

  // ----- What the operation is to do

  /** The stored automation is the one asked for, as large as it may be and of the
      expected revision. */
  ghost predicate Current(input: Input, upstream: Upstream) {
    && upstream.config.Good?
    && var config := upstream.config.value;
       && config.native && config.id == input.key && |config.text| <= NATIVE_LIMIT
       && upstream.revision(config.text) == input.expectedRevision
  }

  /** `entity` is the only automation of that identifier. */
  ghost predicate Sole(input: Input, upstream: Upstream, entity: string) {
    && upstream.states.Good?
    && ValidEntityId(entity)
    && exists i: nat :: OnlyMatch(upstream.states.value, input.key, i) && upstream.states.value[i].entityId == entity
  }

  /** Everything that has to hold for the mutation to be sent. */
  ghost predicate Reaches(input: Input, upstream: Upstream) {
    Current(input, upstream) && exists entity :: Sole(input, upstream, entity)
  }

  /** The mutation reaches the server and is accepted. */
  predicate Acknowledges(upstream: Upstream) {
    upstream.connects && upstream.accepted
  }

  /** The strike comes before the mutation is under way. */
  predicate Early(strike: Strike) {
    Hits(strike, ForConfig) || Hits(strike, ForStates)
  }

  /** The strike comes before the mutation is on the wire. */
  predicate Unsent(strike: Strike) {
    Early(strike) || Hits(strike, ForSending)
  }

  /** The strike hits an await that the operation comes to. */
  ghost predicate Disturbed(input: Input, upstream: Upstream, strike: Strike) {
    match strike
    case Never => false
    case _ =>
      match strike.at
      case ForConfig => true
      case ForStates => Current(input, upstream)
      case _ => Reaches(input, upstream)
  }

  /** Which fault answers which failed check, in the order of the checks. */
  ghost predicate Explains(input: Input, upstream: Upstream, fault: Fault) {
    var config, states := upstream.config, upstream.states;
    if config.Bad? then
      fault == config.fault
    else if !Current(input, upstream) then
      if config.value.native && config.value.id == input.key
      then fault == if |config.value.text| > NATIVE_LIMIT then ResponseTooLarge else RevisionConflict
      else fault == InvalidResponse
    else if states.Bad? then
      fault == states.fault
    else if forall k :: 0 <= k < |states.value| ==> !Belongs(states.value[k], input.key) then
      fault == ConfigNotFound
    else if !Reaches(input, upstream) then
      fault == InvalidResponse
    else
      !Acknowledges(upstream) && fault == MutationOutcomeUnknown
  }

  lemma CheckedIsCurrent(input: Input, upstream: Upstream)
    ensures CheckConfig(input, upstream).None? <==> Current(input, upstream)
    ensures CheckConfig(input, upstream).Some? ==> Explains(input, upstream, CheckConfig(input, upstream).value)
  {
  }

  /** What the list of matching states says. */
  lemma MatchingIsSole(input: Input, upstream: Upstream)
    requires upstream.states.Good?
    ensures
      var matching := Matching(upstream.states.value, input.key);
      && (matching == [] <==>
            forall k :: 0 <= k < |upstream.states.value| ==> !Belongs(upstream.states.value[k], input.key))
      && (forall entity :: Sole(input, upstream, entity) <==>
            |matching| == 1 && ValidEntityId(entity) && matching[0].entityId == entity)
  {
    hide Belongs, ValidEntityId;
    var states := upstream.states.value;
    MatchingNothing(states, input.key);
    MatchingCounts(states, input.key);
    if |Matching(states, input.key)| == 1 {
      var i: nat :| OnlyMatch(states, input.key, i);
      OnlyOne(states, input.key, i);
    }
  }

  lemma OnlyOne(states: seq<State>, key: string, i: nat)
    requires OnlyMatch(states, key, i)
    ensures forall k: nat :: OnlyMatch(states, key, k) ==> k == i
  {
    hide Belongs;
    forall k: nat | OnlyMatch(states, key, k)
      ensures k == i
    {
      assert Belongs(states[k], key);
    }
  }

  /** The body under the timeout, until it is done or struck. */
  method Body(input: Input, upstream: Upstream, strike: Strike, session: Session) returns (p: Progress)
    requires !session.dispatched && session.posts == []
    modifies session
    ensures p == Struck <==> Disturbed(input, upstream, strike)
    ensures p.Done? && p.answer.Good? ==>
      Current(input, upstream) && Sole(input, upstream, p.answer.value) && Acknowledges(upstream)
    ensures p.Done? && p.answer.Bad? ==> Explains(input, upstream, p.answer.fault)
    ensures session.dispatched <==> Reaches(input, upstream) && !Early(strike)
    ensures session.posts != [] <==> session.dispatched && upstream.connects && !Unsent(strike)
    ensures session.posts != [] ==>
      exists entity :: Sole(input, upstream, entity) && session.posts == [Post(entity, input.skipConditions)]
  {
    hide ValidEntityId, Sole, Current, Explains;
    if Hits(strike, ForConfig) {
      return Struck;
    }
    CheckedIsCurrent(input, upstream);
    var wrong := CheckConfig(input, upstream);
    if wrong.Some? {
      return Done(Bad(wrong.value));
    }
    if Hits(strike, ForStates) {
      return Struck;
    }
    if upstream.states.Bad? {
      StatesExplain(input, upstream);
      return Done(Bad(upstream.states.fault));
    }
    MatchingIsSole(input, upstream);
    var matching := Matching(upstream.states.value, input.key);
    StatesExplain(input, upstream);
    if matching == [] {
      return Done(Bad(ConfigNotFound));
    }
    if |matching| > 1 || !ValidEntityId(matching[0].entityId) {
      return Done(Bad(InvalidResponse));
    }
    assert Sole(input, upstream, matching[0].entityId);
    session.dispatched := true;
    if Hits(strike, ForSending) {
      return Struck;
    }
    if upstream.connects {
      session.posts := session.posts + [Post(matching[0].entityId, input.skipConditions)];
    }
    if Hits(strike, ForAcceptance) {
      return Struck;
    }
    if !Acknowledges(upstream) {
      return Done(Bad(MutationOutcomeUnknown));
    }
    return Done(Good(matching[0].entityId));
  }

  lemma StatesExplain(input: Input, upstream: Upstream)
    requires Current(input, upstream)
    ensures upstream.states.Bad? ==> Explains(input, upstream, upstream.states.fault) && !Reaches(input, upstream)
    ensures upstream.states.Good? ==>
      var none := forall k :: 0 <= k < |upstream.states.value| ==> !Belongs(upstream.states.value[k], input.key);
      && (none ==> Explains(input, upstream, ConfigNotFound))
      && (!none && !Reaches(input, upstream) ==> Explains(input, upstream, InvalidResponse))
      && (Reaches(input, upstream) && !Acknowledges(upstream) ==> Explains(input, upstream, MutationOutcomeUnknown))
  {
  }

  /** The operation with its timeout and, around it, its cancellation. */
  method ExecuteTrigger(input: Input, upstream: Upstream, strike: Strike)
    returns (answer: Answer, session: Session)
    ensures answer.Triggered? <==>
      Started(input, upstream) && Reaches(input, upstream) && Acknowledges(upstream)
      && !Disturbed(input, upstream, strike)
    ensures answer.Triggered? ==>
      Sole(input, upstream, answer.entityId) && session.posts == [Post(answer.entityId, input.skipConditions)]
    ensures session.posts != [] <==>
      Started(input, upstream) && Reaches(input, upstream) && upstream.connects && !Unsent(strike)
    ensures session.posts != [] ==>
      exists entity :: Sole(input, upstream, entity) && session.posts == [Post(entity, input.skipConditions)]
    ensures session.posts != [] ==> answer.Triggered? || answer == Failed(MutationOutcomeUnknown)
    ensures answer.Cancelled? ==> session.posts == []
    ensures !input.valid ==> answer == Failed(Fault.InvalidArguments)
    ensures input.valid && !upstream.admitted ==> answer == Failed(Fault.CapacityExhausted)
    ensures Started(input, upstream) && Disturbed(input, upstream, strike) ==>
      answer == if !Early(strike) then Failed(MutationOutcomeUnknown)
                else if strike.IsCancelled? then Cancelled
                else Failed(Fault.Timeout)
    ensures Started(input, upstream) && !Disturbed(input, upstream, strike) && !answer.Triggered? ==>
      answer.Failed? && Explains(input, upstream, answer.fault)
    ensures fresh(session)
  {
    hide Sole, Current, Explains;
    session := new Session();
    if !input.valid {
      return Failed(Fault.InvalidArguments), session;
    }
    if !upstream.admitted {
      return Failed(Fault.CapacityExhausted), session;
    }
    var progress := Body(input, upstream, strike, session);
    SoleIsOne(input, upstream);
    match progress {
      case Struck =>
        if session.dispatched {
          return Failed(MutationOutcomeUnknown), session;
        }
        return if strike.IsCancelled? then Cancelled else Failed(Fault.Timeout), session;
      case Done(Good(entity)) =>
        return Triggered(entity), session;
      case Done(Bad(fault)) =>
        return Failed(fault), session;
    }
  }

  predicate Started(input: Input, upstream: Upstream) {
    input.valid && upstream.admitted
  }

  lemma SoleIsOne(input: Input, upstream: Upstream)
    ensures forall a, b :: Sole(input, upstream, a) && Sole(input, upstream, b) ==> a == b
    ensures Reaches(input, upstream) && Acknowledges(upstream) ==> forall fault :: !Explains(input, upstream, fault)
    ensures Reaches(input, upstream) && !Acknowledges(upstream) ==>
      forall fault :: Explains(input, upstream, fault) ==> fault == MutationOutcomeUnknown
  {
    if upstream.states.Good? {
      MatchingIsSole(input, upstream);
    }
  }
}
