/** Native authoring: read, check, read again, write; with honest answers. */
module Authoring {
  import opened Basics
  import opened TextEdits
  import opened Utf8

  datatype Kind = Scene | Automation | Blueprint

  datatype Target = Target(kind: Kind, key: Bytes)

  type Items = map<Target, Bytes>

  /** The foreign formats as functions: the text that shows a stored item, what
      storing a text under a target stores (if it is valid there), what a text
      means, and the revision of a text. */
  datatype Native = Native(
    show: (Kind, Bytes) -> Bytes,
    parse: (Target, Bytes) -> Option<Bytes>,
    meaning: (Kind, Bytes) -> Option<Bytes>,
    revision: Bytes -> Bytes)
  {
    /** Items show as text, valid texts mean something, and no two texts share
        a revision. */
    ghost predicate Valid() {
      && (forall kind, item :: WellFormed(show(kind, item)))
      && (forall target, text :: parse(target, text).Some? ==> meaning(target.kind, text).Some?)
      && (forall a, b :: revision(a) == revision(b) ==> a == b)
    }
  }

  datatype Fault =
    | ConfigNotFound
    | InvalidArguments
    | CapacityExhausted
    | Unauthorized
    | RequestRejected
    | ResponseTooLarge
    | OtherFault

  datatype Reply<+T> = Good(value: T) | Bad(fault: Fault)

  /** What happened, in its order: an item or its absence was seen, a read failed,
      someone else wrote, a mutation was sent. */
  datatype Event =
    | Saw(target: Target, item: Option<Bytes>)
    | Missed(target: Target, fault: Fault)
    | Foreign
    | Sent(before: Items, target: Target, value: Bytes)

  /** The errors by which the server, or the client before it, says that it did
      not do what was asked. */
  predicate Refusal(fault: Fault) {
    fault.InvalidArguments? || fault.CapacityExhausted? || fault.Unauthorized? || fault.RequestRejected?
  }

  function Looked(items: Items, target: Target): Option<Bytes> {
    if target in items then Some(items[target]) else None
  }

  /** What an undisturbed read answers. */
  function Readable(native: Native, items: Items, target: Target): Reply<Bytes> {
    if target !in items then
      Bad(if target.kind.Blueprint? then OtherFault else ConfigNotFound)
    else if |native.show(target.kind, items[target])| > ITEM_LIMIT then
      Bad(ResponseTooLarge)
    else
      Good(native.show(target.kind, items[target]))
  }

  // ----- The server

  /** The home automation server. Unless `calm`, any request may fail and other
      clients may write at any time. */
  class Store {
    const calm: bool
    var items: Items
    ghost var log: seq<Event>
    ghost var replies: seq<Reply<()>>

    constructor (initial: Items, isCalm: bool)
      ensures items == initial && calm == isCalm && log == [] && replies == []
    {
      items, calm, log, replies := initial, isCalm, [], [];
    }

    /** Time passes, and others may write. */
    method Meanwhile()
      modifies `items, `log
      ensures (log == old(log) && items == old(items)) || (!calm && log == old(log) + [Foreign])
    {
      var others: bool := *;
      if !calm && others {
        items := *;
        log := log + [Foreign];
      }
    }

    /** Reads one item as text. Only scenes and automations have an answer of
        their own for a missing one. */
    method Read(native: Native, target: Target) returns (r: Reply<Bytes>)
      requires native.Valid()
      modifies `log
      ensures r.Good? ==>
        && target in items && r.value == native.show(target.kind, items[target]) && |r.value| <= ITEM_LIMIT
        && log == old(log) + [Saw(target, Some(items[target]))]
      ensures r == Bad(ConfigNotFound) ==>
        target !in items && !target.kind.Blueprint? && log == old(log) + [Saw(target, None)]
      ensures r.Bad? && r.fault != ConfigNotFound ==> log == old(log) + [Missed(target, r.fault)]
      ensures calm ==> r == Readable(native, items, target)
    {
      var fails: bool := *;
      if !calm && fails {
        var fault: Fault := *;
        r := Bad(if fault == ConfigNotFound then OtherFault else fault);
      } else if target !in items {
        r := Bad(if target.kind.Blueprint? then OtherFault else ConfigNotFound);
      } else {
        var text := native.show(target.kind, items[target]);
        r := if |text| > ITEM_LIMIT then Bad(ResponseTooLarge) else Good(text);
      }
      log := log + [
        if r.Bad? && r.fault != ConfigNotFound then Missed(target, r.fault) else Saw(target, Looked(items, target))];
    }

    /** Whether the list of blueprints lacks one. */
    method BlueprintAbsence(target: Target) returns (r: Reply<bool>)
      modifies `log
      ensures r.Good? ==>
        && r.value == (target !in items)
        && log == old(log) + [Saw(target, Looked(items, target))]
      ensures r.Bad? ==> log == old(log) + [Missed(target, r.fault)] && !r.fault.ConfigNotFound?
      ensures calm ==> r.Good?
    {
      var fails: bool := *;
      if !calm && fails {
        var fault: Fault := *;
        r := Bad(if fault == ConfigNotFound then OtherFault else fault);
        log := log + [Missed(target, r.fault)];
        return;
      }
      log := log + [Saw(target, Looked(items, target))];
      return Good(target !in items);
    }

    /** Stores an item. A blueprint is only replaced with `allowOverride`; the
        other kinds always are. A request that is refused changes nothing; one
        that fails otherwise may or may not have been sent, and carried out, or
        may have left anything in the item's place. */
    method Write(target: Target, item: Bytes, allowOverride: bool) returns (r: Reply<()>)
      modifies this
      ensures r.Good? ==>
        && log == old(log) + [Sent(old(items), target, item)]
        && items == old(items)[target := item]
        && (target.kind.Blueprint? && !allowOverride ==> target !in old(items))
      ensures r.Bad? ==>
        && (log == old(log) || log == old(log) + [Sent(old(items), target, item)])
        && items - {target} == old(items) - {target}
        && (items == old(items) || log != old(log))
      ensures r.Bad? && Refusal(r.fault) ==> items == old(items)
      ensures calm ==> (r.Good? <==> !target.kind.Blueprint? || allowOverride || target !in old(items))
      ensures replies == old(replies) + [r]
    {
      var fails: bool := *;
      if !calm && fails {
        var sent, done: bool := *, *;
        if sent {
          log := log + [Sent(items, target, item)];
          if done {
            var left: Option<Bytes> := *;
            items := if left.Some? then items[target := left.value] else items - {target};
            r := Bad(OtherFault);
            replies := replies + [r];
            return;
          }
        }
        var fault: Fault := *;
        r := Bad(fault);
        replies := replies + [r];
        return;
      }
      log := log + [Sent(items, target, item)];
      if target.kind.Blueprint? && !allowOverride && target in items {
        r := Bad(RequestRejected);
      } else {
        items := items[target := item];
        r := Good(());
      }
      replies := replies + [r];
    }
  }

  // ----- Requests

  datatype Request =
    | Create(target: Target, text: Text)
    | Edit(target: Target, expectedRevision: Bytes, edits: seq<TextEdits.Edit>)

  datatype Answer =
    | Accepted
    | Cancelled
    | AlreadyExists
    | RevisionConflict
    | PreflightFailed(fault: Fault)
    | Rejected
    | OutcomeUnknown
    | Invalid

  /** The item that carries out the request when the server holds `held`. */
  ghost predicate Fulfils(native: Native, request: Request, held: Option<Bytes>, item: Bytes) {
    match request
    case Create(target, text) =>
      held == None && native.parse(target, text) == Some(item)
    case Edit(target, expected, edits) =>
      held.Some? && Revises(native, target, native.show(target.kind, held.value), expected, edits, item)
  }

  /** An edit takes the text with the expected revision, changes it as it says,
      in text and in meaning, and stores what the changed text parses to. */
  ghost predicate Revises(native: Native, target: Target, text: Bytes, expected: Bytes, edits: seq<TextEdits.Edit>,
                          item: Bytes)
  {
    && native.revision(text) == expected
    && |text| <= ITEM_LIMIT
    && native.meaning(target.kind, text).Some?
    && exists edited: Bytes ::
         && AllEdit(text, edits, edited) && edited != text
         && native.meaning(target.kind, edited) != native.meaning(target.kind, text)
         && native.parse(target, edited) == Some(item)
  }

  /** The item that a request would store when the text read is `observed`. */
  method Candidate(native: Native, request: Request, observed: Option<Bytes>) returns (r: Option<Bytes>)
    requires native.Valid()
    requires request.Create? <==> observed.None?
    requires observed.Some? ==> WellFormed(observed.value) && |observed.value| <= ITEM_LIMIT
    requires request.Edit? && observed.Some? ==> native.revision(observed.value) == request.expectedRevision
    ensures request.Create? ==> r == native.parse(request.target, request.text)
    ensures request.Edit? && r.Some? ==>
      Revises(native, request.target, observed.value, request.expectedRevision, request.edits, r.value)
    ensures request.Edit? && r.None? ==> forall item ::
      !Revises(native, request.target, observed.value, request.expectedRevision, request.edits, item)
  {
    match request {
      case Create(target, text) =>
        return native.parse(target, text);
      case Edit(target, expected, edits) =>
        var initial := observed.value;
        var edited := ApplyEdits(initial, edits);
        if edited == None {
          assert forall other: Bytes :: AllEdit(initial, edits, other) ==> other == initial;
          return None;
        }
        forall other: Bytes | AllEdit(initial, edits, other)
          ensures other == edited.value
        {
          AllEditIsUnique(initial, edits, other, edited.value);
        }
        var item := native.parse(target, edited.value);
        if item == None {
          return None;
        }
        var previous := native.meaning(target.kind, initial);
        if previous == None || native.meaning(target.kind, edited.value) == previous {
          return None;
        }
        return item;
    }
  }

  /** Reads what a request needs to know; for a new blueprint, absence alone. */
  method Preflight(store: Store, native: Native, target: Target, create: bool) returns (r: Reply<Bytes>)
    requires native.Valid()
    modifies store`log
    ensures r.Good? ==>
      && target in store.items
      && store.log == old(store.log) + [Saw(target, Some(store.items[target]))]
      && |r.value| <= ITEM_LIMIT
      && (!create ==> r.value == native.show(target.kind, store.items[target]))
    ensures r == Bad(ConfigNotFound) ==>
      target !in store.items && store.log == old(store.log) + [Saw(target, None)]
    ensures r.Bad? && r.fault != ConfigNotFound ==> store.log == old(store.log) + [Missed(target, r.fault)]
    ensures store.calm ==>
      if create && target.kind.Blueprint?
      then r == if target in store.items then Good([]) else Bad(ConfigNotFound)
      else r == Readable(native, store.items, target)
  {
    if create && target.kind.Blueprint? {
      var absent := store.BlueprintAbsence(target);
      if absent.Bad? {
        return Bad(absent.fault);
      }
      return if absent.value then Bad(ConfigNotFound) else Good([]);
    }
    r := store.Read(native, target);
  }

  // ----- Traces

  predicate IsSent(event: Event) {
    event.Sent?
  }

  /** Nothing was sent. */
  ghost predicate Untouched(trace: seq<Event>) {
    forall i :: 0 <= i < |trace| ==> !IsSent(trace[i])
  }

  /** One mutation was sent, last of all: after two reads that found the same
      item, one that the request is meant for, and it carries the item that
      fulfils the request. Others may have written in between. */
  ghost predicate SentLast(native: Native, request: Request, trace: seq<Event>) {
    && trace != []
    && Untouched(trace[..|trace| - 1])
    && var last := trace[|trace| - 1];
    && last.Sent? && last.target == request.target
    && exists i, j :: 0 <= i < j < |trace| - 1
         && trace[i].Saw? && trace[j].Saw?
         && trace[i].target == trace[j].target == request.target
         && Shown(native, trace[i]) == Shown(native, trace[j])
         && Fulfils(native, request, trace[j].item, last.value)
         && (forall k :: j < k < |trace| - 1 ==> trace[k] == Foreign)
         && (j == |trace| - 2 ==> trace[j].item == Held(last))
  }

  /** The text of what was seen. */
  function Shown(native: Native, event: Event): Option<Bytes>
    requires event.Saw?
  {
    if event.item.None? then None else Some(native.show(event.target.kind, event.item.value))
  }

  /** What a mutation replaced. */
  function Held(event: Event): Option<Bytes>
    requires event.Sent?
  {
    Looked(event.before, event.target)
  }

  // ----- What the answers mean

  /** What was seen is what the request expects to be there. */
  ghost predicate Expected(native: Native, request: Request, item: Option<Bytes>) {
    match request
    case Create(_, _) => item.None?
    case Edit(target, revision, _) => item.Some? && native.revision(native.show(target.kind, item.value)) == revision
  }

  ghost predicate SawTarget(request: Request, event: Event) {
    event.Saw? && event.target == request.target
  }

  /** Why a request ended before anything was sent; `trace` is what happened. */
  ghost predicate Refuses(native: Native, request: Request, answer: Answer, trace: seq<Event>) {
    && trace != []
    && var first, last := trace[0], trace[|trace| - 1];
    match answer
    case Cancelled => true
    case AlreadyExists => request.Create? && SawTarget(request, last) && last.item.Some?
    case RevisionConflict =>
      && request.Edit? && SawTarget(request, last) && !Expected(native, request, last.item)
      && (last.item.None? ==> |trace| > 1 && SawTarget(request, first) && Expected(native, request, first.item))
    case PreflightFailed(fault) =>
      || last == Missed(request.target, fault)
      || (fault == ConfigNotFound && request.Edit? && trace == [Saw(request.target, None)])
    case Invalid =>
      && |trace| == 1 && SawTarget(request, last) && Expected(native, request, last.item)
      && forall item :: !Fulfils(native, request, last.item, item)
    case _ => false
  }

  /** What the answer to a mutation says about how the server replied to it. */
  predicate Reports(answer: Answer, reply: Reply<()>) {
    match reply
    case Good(_) => answer.Accepted?
    case Bad(fault) =>
      if fault.InvalidArguments? || fault.CapacityExhausted? || fault.Unauthorized? || fault.RequestRejected?
      then answer.Rejected? else answer.OutcomeUnknown?
  }

  /** The answer, where nobody cancels, fails or interferes. */
  ghost predicate Settles(native: Native, request: Request, items: Items, answer: Answer) {
    var target, held := request.target, Looked(items, request.target);
    var tooLarge := held.Some? && |native.show(target.kind, held.value)| > ITEM_LIMIT
      && !(request.Create? && target.kind.Blueprint?);
    match answer
    case Accepted => Feasible(native, request, items)
    case AlreadyExists => request.Create? && held.Some? && !tooLarge
    case RevisionConflict => request.Edit? && held.Some? && !tooLarge && !Expected(native, request, held)
    case PreflightFailed(fault) =>
      || (fault == ResponseTooLarge && tooLarge)
      || (request.Edit? && held.None? && fault == if target.kind.Blueprint? then OtherFault else ConfigNotFound)
    case Invalid => Expected(native, request, held) && !tooLarge && !Feasible(native, request, items)
    case _ => false
  }

  /** So there is exactly one answer then. */
  lemma OneAnswer(native: Native, request: Request, items: Items)
    ensures exists answer :: Settles(native, request, items, answer)
    ensures forall a, b :: Settles(native, request, items, a) && Settles(native, request, items, b) ==> a == b
  {
    hide Revises;
    var target, held := request.target, Looked(items, request.target);
    if held.Some? && |native.show(target.kind, held.value)| > ITEM_LIMIT
       && !(request.Create? && target.kind.Blueprint?) {
      assert Settles(native, request, items, PreflightFailed(ResponseTooLarge));
    } else if request.Create? && held.Some? {
      assert Settles(native, request, items, AlreadyExists);
    } else if request.Edit? && held.None? {
      assert Settles(native, request, items,
        PreflightFailed(if target.kind.Blueprint? then OtherFault else ConfigNotFound));
    } else if !Expected(native, request, held) {
      assert Settles(native, request, items, RevisionConflict);
    } else {
      assert Settles(native, request, items, if Feasible(native, request, items) then Accepted else Invalid);
    }
    if Feasible(native, request, items) {
      FeasibleIsExpected(native, request, items);
      if held.Some? {
        FeasibleIsSmall(native, request, items);
      }
    }
  }

  lemma FeasibleIsExpected(native: Native, request: Request, items: Items)
    requires Feasible(native, request, items)
    ensures Expected(native, request, Looked(items, request.target))
  {
  }

  lemma FeasibleIsSmall(native: Native, request: Request, items: Items)
    requires Feasible(native, request, items) && request.target in items
    ensures request.Edit? && |native.show(request.target.kind, items[request.target])| <= ITEM_LIMIT
  {
  }

  // ----- The protocol

  /** What `Author` promises of its answer, the trace and the items after it. */
  ghost predicate Honest(native: Native, request: Request, answer: Answer, trace: seq<Event>, items: Items) {
    && (Untouched(trace) || SentLast(native, request, trace))
    && (answer.Accepted? ==> SentLast(native, request, trace))
    && (!answer.Accepted? && !answer.Rejected? && !answer.OutcomeUnknown? ==>
          Untouched(trace) && Refuses(native, request, answer, trace))
    && (SentLast(native, request, trace) ==>
          var sent := trace[|trace| - 1];
          && (answer.Accepted? ==> items == sent.before[sent.target := sent.value])
          && (answer.Rejected? ==> items == sent.before)
          && items - {sent.target} == sent.before - {sent.target}
          && (answer.Accepted? && request.Create? && request.target.kind.Blueprint? ==> Held(sent) == None))
  }

  /** Whether the request can be carried out on these items. */
  ghost predicate Feasible(native: Native, request: Request, items: Items) {
    exists item :: Fulfils(native, request, Looked(items, request.target), item)
  }

  /** What has been seen before a write. */
  datatype Observation = Observation(initial: Option<Bytes>, item: Bytes)

  /** The first half: read and check. */
  method Observe(store: Store, native: Native, request: Request, patient: bool)
    returns (answer: Answer, seen: Option<Observation>)
    requires native.Valid()
    modifies store`log
    ensures |store.log| == |old(store.log)| + 1 && old(store.log) < store.log
    ensures var event := store.log[|old(store.log)|];
      event == Saw(request.target, Looked(store.items, request.target)) || event.Missed?
    ensures seen.None? ==> Refuses(native, request, answer, store.log[|old(store.log)|..])
    ensures seen.Some? ==>
      && store.log == old(store.log) + [Saw(request.target, Looked(store.items, request.target))]
      && Observed(native, request, store.items, seen.value)
    ensures patient ==> !answer.Cancelled?
    ensures patient && store.calm ==>
      if Feasible(native, request, store.items) then seen.Some?
      else seen.None? && Settles(native, request, store.items, answer)
  {
    var target := request.target;
    var observed := Preflight(store, native, target, request.Create?);
    var cancelled: bool := *;
    if !patient && cancelled {
      return Cancelled, None;
    }
    var initial: Option<Bytes> := None;
    if request.Create? {
      if observed.Good? {
        return AlreadyExists, None;
      }
      if observed.fault != ConfigNotFound {
        return PreflightFailed(observed.fault), None;
      }
    } else {
      if observed.Bad? {
        return PreflightFailed(observed.fault), None;
      }
      if native.revision(observed.value) != request.expectedRevision {
        return RevisionConflict, None;
      }
      initial := Some(observed.value);
    }
    var item := Candidate(native, request, initial);
    if item == None {
      return Invalid, None;
    }
    assert Fulfils(native, request, Looked(store.items, target), item.value);
    return Accepted, Some(Observation(initial, item.value));
  }

  ghost predicate Observed(native: Native, request: Request, items: Items, seen: Observation) {
    var held := Looked(items, request.target);
    && Fulfils(native, request, held, seen.item)
    && (seen.initial.None? <==> request.Create?)
    && (seen.initial.None? ==> held.None?)
    && (seen.initial.Some? ==> held.Some? && seen.initial.value == native.show(request.target.kind, held.value))
  }

  /** Why the second read ends it; `event` is what it saw. */
  ghost predicate RefusesAgain(native: Native, request: Request, answer: Answer, event: Event) {
    match answer
    case Cancelled => true
    case AlreadyExists => request.Create? && SawTarget(request, event) && event.item.Some?
    case RevisionConflict => request.Edit? && SawTarget(request, event) && !Expected(native, request, event.item)
    case PreflightFailed(fault) => event == Missed(request.target, fault)
    case _ => false
  }

  /** The second read and its comparison with the first: no answer means that
      both agree. */
  method Reread(store: Store, native: Native, request: Request, seen: Observation, patient: bool)
    returns (answer: Option<Answer>)
    requires native.Valid()
    requires seen.initial.None? <==> request.Create?
    requires request.Edit? ==> native.revision(seen.initial.value) == request.expectedRevision
    modifies store`log
    ensures |store.log| == |old(store.log)| + 1 && old(store.log) < store.log
    ensures answer.Some? ==> RefusesAgain(native, request, answer.value, store.log[|old(store.log)|])
    ensures patient ==> answer != Some(Cancelled)
    ensures var event := store.log[|old(store.log)|];
      event == Saw(request.target, Looked(store.items, request.target)) || event.Missed?
    ensures answer.None? ==>
      && store.log == old(store.log) + [Saw(request.target, Looked(store.items, request.target))]
      && (request.Create? ==> request.target !in store.items)
      && (request.Edit? ==>
        request.target in store.items
        && native.show(request.target.kind, store.items[request.target]) == seen.initial.value)
    ensures patient && store.calm && Observed(native, request, store.items, seen) ==> answer.None?
  {
    var reread := Preflight(store, native, request.target, request.Create?);
    var cancelled: bool := *;
    if !patient && cancelled {
      return Some(Cancelled);
    }
    match reread {
      case Good(current) =>
        if seen.initial.None? {
          return Some(AlreadyExists);
        }
        if native.revision(seen.initial.value) != native.revision(current) {
          return Some(RevisionConflict);
        }
        return None;
      case Bad(ConfigNotFound) =>
        return if seen.initial.None? then None else Some(RevisionConflict);
      case Bad(fault) =>
        return Some(PreflightFailed(fault));
    }
  }

  /** The write. The cancellation is looked at first, so that a cancelled
      request may or may not have been sent. */
  method Dispatch(store: Store, request: Request, item: Bytes, patient: bool) returns (answer: Answer)
    modifies store
    ensures answer.Accepted? || answer.Rejected? || answer.OutcomeUnknown?
    ensures (store.log == old(store.log) && store.items == old(store.items))
      || store.log == old(store.log) + [Sent(old(store.items), request.target, item)]
    ensures store.items - {request.target} == old(store.items) - {request.target}
    ensures answer.Accepted? ==>
      && store.log != old(store.log) && store.items == old(store.items)[request.target := item]
      && (request.Create? && request.target.kind.Blueprint? ==> request.target !in old(store.items))
    ensures answer.Rejected? ==> store.items == old(store.items)
    ensures patient && store.calm && (request.Create? ==> request.target !in old(store.items)) ==> answer.Accepted?
    ensures patient || !answer.OutcomeUnknown? ==>
      exists reply :: store.replies == old(store.replies) + [reply] && Reports(answer, reply)
  {
    var early, late: bool := *, *;
    if !patient && early {
      return OutcomeUnknown;
    }
    var written := store.Write(request.target, item, !request.Create?);
    if !patient && late {
      return OutcomeUnknown;
    }
    match written {
      case Good(_) => return Accepted;
      case Bad(fault) => return if Refusal(fault) then Rejected else OutcomeUnknown;
    }
  }

  /** Two reads, the last event one of them, that found the same item, and what
      the request stores in its place; `items` is what the server holds. */
  ghost predicate Agreed(native: Native, request: Request, trace: seq<Event>, items: Items, value: Bytes) {
    && trace != [] && Untouched(trace)
    && var last := trace[|trace| - 1];
    && last == Saw(request.target, Looked(items, request.target))
    && Fulfils(native, request, last.item, value)
    && exists i :: 0 <= i < |trace| - 1 && trace[i].Saw?
         && trace[i].target == request.target && Shown(native, trace[i]) == Shown(native, last)
  }

  /** Everything before the write. */
  method ReadTwice(store: Store, native: Native, request: Request, patient: bool)
    returns (answer: Answer, value: Option<Bytes>)
    requires native.Valid()
    modifies store
    ensures old(store.log) <= store.log && store.replies == old(store.replies)
    ensures Untouched(store.log[|old(store.log)|..])
    ensures value.None? ==> Refuses(native, request, answer, store.log[|old(store.log)|..])
    ensures value.None? && patient ==> !answer.Cancelled?
    ensures value.Some? ==> Agreed(native, request, store.log[|old(store.log)|..], store.items, value.value)
    ensures store.calm ==> store.items == old(store.items)
    ensures patient && store.calm ==>
      if Feasible(native, request, store.items) then value.Some?
      else value.None? && Settles(native, request, store.items, answer)
  {
    hide Revises, Fulfils, Feasible, Settles, Refuses, Expected;
    ghost var start := store.log;
    var answer', seen := Observe(store, native, request, patient);
    if seen == None {
      return answer', None;
    }
    ghost var first, before := store.log[|start|], store.items;
    assert store.log == start + [first];
    store.Meanwhile();
    ObservedIsExpected(native, request, before, seen.value);
    var verdict := Reread(store, native, request, seen.value, patient);
    ghost var trace := store.log[|start|..];
    assert start + [first] <= store.log && trace[0] == first;
    if verdict.Some? {
      StillRefuses(native, request, verdict.value, trace);
      return verdict.value, None;
    }
    SameRequestSameItem(native, request, first, trace[|trace| - 1], seen.value.item);
    return Accepted, Some(seen.value.item);
  }

  lemma RefusalsDeny(native: Native, request: Request, answer: Answer, trace: seq<Event>)
    requires Refuses(native, request, answer, trace)
    ensures !answer.Accepted? && !answer.Rejected? && !answer.OutcomeUnknown?
  {
  }

  lemma ObservedIsExpected(native: Native, request: Request, items: Items, seen: Observation)
    requires Observed(native, request, items, seen)
    ensures Expected(native, request, Looked(items, request.target))
    ensures request.Edit? ==> seen.initial.Some? && native.revision(seen.initial.value) == request.expectedRevision
  {
  }

  lemma StillRefuses(native: Native, request: Request, answer: Answer, trace: seq<Event>)
    requires |trace| > 1 && SawTarget(request, trace[0]) && Expected(native, request, trace[0].item)
    requires RefusesAgain(native, request, answer, trace[|trace| - 1])
    ensures Refuses(native, request, answer, trace)
  {
  }

  lemma SameRequestSameItem(native: Native, request: Request, first: Event, second: Event, value: Bytes)
    requires first.Saw? && second.Saw? && first.target == second.target == request.target
    requires Shown(native, first) == Shown(native, second)
    requires Fulfils(native, request, first.item, value)
    ensures Fulfils(native, request, second.item, value)
  {
    hide Revises;
  }

  /** Carries out a request. `patient` means that nobody cancels it. */
  method Author(store: Store, native: Native, request: Request, patient: bool) returns (answer: Answer)
    requires native.Valid()
    modifies store
    ensures old(store.log) <= store.log
    ensures Honest(native, request, answer, store.log[|old(store.log)|..], store.items)
    ensures patient ==> !answer.Cancelled?
    ensures patient && store.calm ==>
      && Settles(native, request, old(store.items), answer)
      && (!answer.Accepted? ==> store.items == old(store.items))
    ensures answer.Accepted? || answer.Rejected? || (answer.OutcomeUnknown? && patient) ==>
      exists reply :: store.replies == old(store.replies) + [reply] && Reports(answer, reply)
    ensures !answer.Accepted? && !answer.Rejected? && !answer.OutcomeUnknown? ==> store.replies == old(store.replies)
  {
    hide Feasible, Honest, Agreed, SentLast, Refuses;
    ghost var start := store.log;
    var answer', value := ReadTwice(store, native, request, patient);
    ghost var readings := store.log[|start|..];
    if value == None {
      RefusalsDeny(native, request, answer', readings);
      NothingSent(native, request, answer', readings, store.items);
      return answer';
    }
    ghost var found := store.items;
    store.Meanwhile();
    ghost var meanwhile := store.log[|start|..];
    ghost var sent := Sent(store.items, request.target, value.value);
    assert store.log == start + meanwhile;
    answer := Dispatch(store, request, value.value, patient);
    ghost var trace := store.log[|start|..];
    assert trace == meanwhile || trace == meanwhile + [sent];
    if trace == meanwhile + [sent] {
      TwoReadsThenSent(native, request, readings, found, meanwhile, sent);
      SentAtTheEnd(native, request, answer, trace, store.items);
    } else {
      NothingSent(native, request, answer, trace, store.items);
    }
    assert Agreed(native, request, readings, found, value.value);
    CreatesWhereAbsent(native, request, readings, found, value.value);
  }

  lemma NothingSent(native: Native, request: Request, answer: Answer, trace: seq<Event>, items: Items)
    requires Untouched(trace) && !answer.Accepted?
    requires answer.Rejected? || answer.OutcomeUnknown? || Refuses(native, request, answer, trace)
    ensures Honest(native, request, answer, trace, items)
  {
    assert trace != [] ==> !IsSent(trace[|trace| - 1]);
  }

  lemma SentAtTheEnd(native: Native, request: Request, answer: Answer, trace: seq<Event>, items: Items)
    requires SentLast(native, request, trace)
    requires answer.Accepted? || answer.Rejected? || answer.OutcomeUnknown?
    requires var sent := trace[|trace| - 1];
      && items - {sent.target} == sent.before - {sent.target}
      && (answer.Accepted? ==> items == sent.before[sent.target := sent.value])
      && (answer.Rejected? ==> items == sent.before)
      && (answer.Accepted? && request.Create? && request.target.kind.Blueprint? ==> Held(sent) == None)
    ensures Honest(native, request, answer, trace, items)
  {
    hide Fulfils;
  }

  lemma TwoReadsThenSent(native: Native, request: Request, readings: seq<Event>, found: Items, meanwhile: seq<Event>,
                         sent: Event)
    requires sent.Sent? && sent.target == request.target
    requires Agreed(native, request, readings, found, sent.value)
    requires (meanwhile == readings && sent.before == found) || meanwhile == readings + [Foreign]
    ensures SentLast(native, request, meanwhile + [sent])
  {
    hide Fulfils;
    var trace := meanwhile + [sent];
    var j := |readings| - 1;
    var i :| 0 <= i < j && readings[i].Saw?
      && readings[i].target == request.target && Shown(native, readings[i]) == Shown(native, readings[j]);
    assert trace[..|trace| - 1] == meanwhile;
    assert forall k :: 0 <= k <= j ==> trace[k] == readings[k];
    assert trace[i].Saw? && trace[j].Saw?;
  }

  lemma CreatesWhereAbsent(native: Native, request: Request, readings: seq<Event>, found: Items, value: Bytes)
    requires Agreed(native, request, readings, found, value)
    ensures request.Create? ==> request.target !in found
  {
  }

  // ----- What follows

  /** No more than one mutation is sent, and none under an answer that denies
      it. */
  lemma AtMostOneMutation(native: Native, request: Request, answer: Answer, trace: seq<Event>, items: Items, i: nat,
                          j: nat)
    requires Honest(native, request, answer, trace, items)
    requires i < |trace| && j < |trace| && IsSent(trace[i]) && IsSent(trace[j])
    ensures i == j == |trace| - 1
    ensures answer.Accepted? || answer.Rejected? || answer.OutcomeUnknown?
  {
    hide Fulfils;
  }

  /** If nobody else wrote between the second read and the write, an accepted
      request is a compare-and-swap: what it replaced is what it was meant for,
      and nothing but its target changed. */
  lemma CompareAndSwap(native: Native, request: Request, trace: seq<Event>, items: Items)
    requires Honest(native, request, Accepted, trace, items)
    requires |trace| >= 2 && trace[|trace| - 2] != Foreign
    ensures var sent := trace[|trace| - 1];
      && sent.Sent? && sent.target == request.target
      && Fulfils(native, request, Held(sent), sent.value)
      && items == sent.before[request.target := sent.value]
  {
    hide Fulfils;
  }

  /** Accepted edits store the outcome of the edits on the text that has the
      expected revision, whoever else writes; a new blueprint replaces none. */
  lemma AcceptedMeansDone(native: Native, request: Request, trace: seq<Event>, items: Items)
    requires Honest(native, request, Accepted, trace, items)
    ensures request.target in items
    ensures request.Create? ==> native.parse(request.target, request.text) == Some(items[request.target])
    ensures request.Edit? ==> exists text: Bytes ::
      Revises(native, request.target, text, request.expectedRevision, request.edits, items[request.target])
    ensures request.Create? && request.target.kind.Blueprint? ==> Held(trace[|trace| - 1]) == None
  {
    hide Revises;
  }
}
