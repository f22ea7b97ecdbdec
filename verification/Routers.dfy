/** Router discovery: events of three phases folded into one map. */
module Routers {
  import opened Basics
  import opened TextOrder

  const MAX_THREAD_ITEMS := 100

  datatype Fault = InvalidResponse | ResponseTooLarge | RequestRejected | Upstream

  datatype Reply<+T> = Good(value: T) | Bad(fault: Fault)

  /** The object of an event: a key within its bounds, the event's type and its
      data, where the message has them. */
  datatype Event<D> = Event(key: Option<string>, kind: Option<string>, data: Option<D>)

  datatype Message<D> = Message(id: Option<nat>, kind: Option<string>, event: Option<Event<D>>,
    success: Option<bool>, hasResult: bool)

  predicate IsEvent<D>(message: Message<D>, id: nat) {
    message.id == Some(id) && message.kind == Some("event")
  }

  predicate IsResult<D>(message: Message<D>, id: nat) {
    message.id == Some(id) && message.kind == Some("result")
  }

  /** Turns the data of a key into a router, if they are those of one. */
  type Normalizer<!D, !R> = (string, D) -> Reply<R>

  // ----- What the events say

  /** The message is an event that discovers a router under the key. */
  predicate Discovers<D, R>(message: Message<D>, id: nat, normalize: Normalizer<D, R>, key: string) {
    && IsEvent(message, id)
    && message.event.Some?
    && var event := message.event.value;
    && event.key == Some(key) && event.kind == Some("router_discovered")
    && event.data.Some? && normalize(key, event.data.value).Good?
  }

  predicate Removes<D>(message: Message<D>, id: nat, key: string) {
    && IsEvent(message, id)
    && message.event.Some?
    && var event := message.event.value;
    && event.key == Some(key) && event.kind == Some("router_removed") && event.data.None?
  }

  predicate Proper<D, R>(message: Message<D>, id: nat, normalize: Normalizer<D, R>) {
    && message.event.Some? && message.event.value.key.Some?
    && var key := message.event.value.key.value;
    && (Discovers(message, id, normalize, key) || Removes(message, id, key))
  }

  /** What a message has to be for the request to fail over it. */
  ghost predicate Blames<D, R>(message: Message<D>, id: nat, normalize: Normalizer<D, R>, fault: Fault) {
    || (fault.InvalidResponse? && !Proper(message, id, normalize))
    || (fault.ResponseTooLarge? && Proper(message, id, normalize))
    || (fault.RequestRejected? && message.kind == Some("result") && message.success == Some(false))
    || (&& message.event.Some? && message.event.value.key.Some? && message.event.value.data.Some?
        && normalize(message.event.value.key.value, message.event.value.data.value) == Bad(fault))
  }

  predicate Mentions<D>(message: Message<D>, key: string) {
    message.event.Some? && message.event.value.key == Some(key)
  }

  /** Whatever came after `i`, nothing in it concerned the key. */
  predicate LastMention<D>(events: seq<Message<D>>, key: string, i: nat) {
    i < |events| && Mentions(events[i], key) && forall k :: i < k < |events| ==> !Mentions(events[k], key)
  }

  /** The map holds a key exactly when the last event about it discovered it,
      and then what that event said. */
  ghost predicate Reflects<D, R>(routers: map<string, R>, events: seq<Message<D>>, id: nat, normalize: Normalizer<D, R>)
  {
    && (forall key :: key in routers ==> exists i: nat :: LastMention(events, key, i))
    && (forall key, i: nat :: LastMention(events, key, i) ==>
          && (key in routers <==> Discovers(events[i], id, normalize, key))
          && (key in routers ==> normalize(key, events[i].event.value.data.value) == Good(routers[key])))
  }

  lemma ReflectsIsUnique<D, R>(a: map<string, R>, b: map<string, R>, events: seq<Message<D>>, id: nat,
                               normalize: Normalizer<D, R>)
    requires Reflects(a, events, id, normalize) && Reflects(b, events, id, normalize)
    ensures a == b
  {
    forall key
      ensures key in a <==> key in b
      ensures key in a ==> a[key] == b[key]
    {
      if key in a || key in b {
        var i: nat :| LastMention(events, key, i);
      }
    }
  }

  lemma NothingYet<D, R(!new)>(id: nat, normalize: Normalizer<D, R>)
    ensures Reflects(map[], [], id, normalize) && Fine([], id, normalize)
  {
    forall k, m | k == 0 && Reflects(m, [][..k], id, normalize)
      ensures |m| <= MAX_THREAD_ITEMS
    {
      ReflectsIsUnique(m, map[], [], id, normalize);
    }
  }

  /** Every event is proper and the map never gets too large on the way. */
  ghost predicate Fine<D, R(!new)>(events: seq<Message<D>>, id: nat, normalize: Normalizer<D, R>) {
    && (forall i :: 0 <= i < |events| ==> Proper(events[i], id, normalize))
    && (forall k, m :: 0 <= k <= |events| && Reflects(m, events[..k], id, normalize) ==> |m| <= MAX_THREAD_ITEMS)
  }

  lemma StillFine<D, R(!new)>(entries: map<string, R>, past: seq<Message<D>>, message: Message<D>, id: nat,
                              normalize: Normalizer<D, R>)
    requires Fine(past, id, normalize) && Proper(message, id, normalize)
    requires Reflects(entries, past + [message], id, normalize) && |entries| <= MAX_THREAD_ITEMS
    ensures Fine(past + [message], id, normalize)
  {
    hide Reflects, Proper;
    var more := past + [message];
    forall k, m | 0 <= k <= |more| && Reflects(m, more[..k], id, normalize)
      ensures |m| <= MAX_THREAD_ITEMS
    {
      if k == |more| {
        assert more[..k] == more;
        ReflectsIsUnique(m, entries, more, id, normalize);
      } else {
        assert more[..k] == past[..k];
      }
    }
  }

  /** An event of a fine sequence is applied. */
  lemma FineIsApplied<D, R(!new)>(all: seq<Message<D>>, entries: map<string, R>, past: seq<Message<D>>,
                                  message: Message<D>, id: nat, normalize: Normalizer<D, R>)
    requires Fine(all, id, normalize) && past + [message] <= all
    ensures Proper(message, id, normalize)
    ensures Reflects(entries, past + [message], id, normalize) ==> |entries| <= MAX_THREAD_ITEMS
  {
    hide Reflects, Proper;
    assert all[|past|] == (past + [message])[|past|] == message;
    assert all[..|past| + 1] == past + [message];
  }

  // ----- The fold

  /** The map that the discovery fills. */
  class Table<R> {
    var entries: map<string, R>

    constructor ()
      ensures entries == map[]
    {
      entries := map[];
    }

    /** Applies one event. */
    method Apply<D>(message: Message<D>, id: nat, normalize: Normalizer<D, R>, ghost past: seq<Message<D>>)
      returns (r: Reply<()>)
      requires Reflects(entries, past, id, normalize) && |entries| <= MAX_THREAD_ITEMS
      modifies this
      ensures r.Good? ==> Proper(message, id, normalize) && |entries| <= MAX_THREAD_ITEMS
      ensures r.Bad? && Proper(message, id, normalize) ==> r.fault.ResponseTooLarge? && |entries| > MAX_THREAD_ITEMS
      ensures Proper(message, id, normalize) ==> Reflects(entries, past + [message], id, normalize)
      ensures r.Bad? ==> Blames(message, id, normalize, r.fault)
    {
      hide Reflects;
      if !IsEvent(message, id) || message.event.None? {
        return Bad(InvalidResponse);
      }
      var event := message.event.value;
      if event.key.None? {
        return Bad(InvalidResponse);
      }
      var key := event.key.value;
      if event.kind == Some("router_discovered") {
        if event.data.None? {
          return Bad(InvalidResponse);
        }
        var router := normalize(key, event.data.value);
        if router.Bad? {
          return Bad(router.fault);
        }
        OneMoreEvent(entries, entries[key := router.value], past, message, id, normalize, key);
        OneMoreEntry(entries, key, router.value);
        entries := entries[key := router.value];
        if |entries| > MAX_THREAD_ITEMS {
          return Bad(ResponseTooLarge);
        }
        return Good(());
      } else if event.kind == Some("router_removed") && event.data.None? {
        OneMoreEvent(entries, entries - {key}, past, message, id, normalize, key);
        OneLessEntry(entries, key);
        entries := entries - {key};
        return Good(());
      }
      return Bad(InvalidResponse);
    }
  }

  lemma OneMoreEntry<R>(m: map<string, R>, key: string, value: R)
    ensures |m[key := value]| == |m| + if key in m then 0 else 1
  {
    assert m[key := value].Keys == m.Keys + {key};
    assert |m[key := value]| == |m[key := value].Keys|;
  }

  lemma OneLessEntry<R>(m: map<string, R>, key: string)
    ensures |m - {key}| <= |m|
  {
    assert (m - {key}).Keys <= m.Keys;
    SubsetCardinality((m - {key}).Keys, m.Keys);
    assert |m - {key}| == |(m - {key}).Keys|;
  }

  /** An event changes the entry of its key and no other. */
  lemma OneMoreEvent<D, R>(former: map<string, R>, entries: map<string, R>, past: seq<Message<D>>, message: Message<D>,
                           id: nat, normalize: Normalizer<D, R>, key: string)
    requires Reflects(former, past, id, normalize) && Mentions(message, key)
    requires entries - {key} == former - {key}
    requires key in entries <==> Discovers(message, id, normalize, key)
    requires key in entries ==> normalize(key, message.event.value.data.value) == Good(entries[key])
    ensures Reflects(entries, past + [message], id, normalize)
  {
    hide Discovers, Mentions;
    var more := past + [message];
    LastOfMore(past, message, key);
    assert LastMention(more, key, |past|);
    forall k | k != key
      ensures k in entries <==> k in former
      ensures k in entries ==> entries[k] == former[k]
    {
      assert k in entries <==> k in entries - {key};
      assert k in former <==> k in former - {key};
      assert k in entries ==> entries[k] == (entries - {key})[k];
    }
  }

  /** One more event about a key is the last about that key, and the last about
      any other key stays so. */
  lemma LastOfMore<D>(past: seq<Message<D>>, message: Message<D>, key: string)
    requires Mentions(message, key)
    ensures forall k, i: nat :: LastMention(past + [message], k, i) <==>
      (if k == key then i == |past| else LastMention(past, k, i))
  {
    var more := past + [message];
    assert more[|past|] == message;
    forall k, i: nat
      ensures LastMention(more, k, i) <==> (if k == key then i == |past| else LastMention(past, k, i))
    {
      if k == key {
        assert Mentions(more[|past|], key);
      } else {
        assert !Mentions(more[|past|], k);
        assert forall j :: 0 <= j < |past| ==> more[j] == past[j];
        if LastMention(more, k, i) {
          assert i < |past| && forall j :: i < j < |past| ==> !Mentions(more[j], k);
        }
      }
    }
  }

  // ----- The session

  /** A message that arrives, or the loss of the connection. */
  datatype Arrival<D> = Arrives(message: Message<D>) | Breaks(fault: Fault)

  predicate Confirms<D>(message: Message<D>, id: nat) {
    IsResult(message, id) && message.success == Some(true)
  }

  /** Where the second phase ends: `deadline` counts the messages in time. */
  function Until(deadline: nat, confirmed: nat, count: nat): (until: nat)
    requires confirmed < count
    ensures confirmed < until <= count
  {
    if deadline <= confirmed then confirmed + 1 else if deadline < count then deadline else count
  }

  /** The messages of a session: events until the subscription is confirmed,
      events until the deadline, and events until its end is confirmed. */
  ghost predicate Session<D>(inbox: seq<Arrival<D>>, id: nat, deadline: nat, events: seq<Message<D>>, confirmed: nat,
                             end: nat)
  {
    && confirmed < end < |inbox|
    && Until(deadline, confirmed, |inbox|) <= end
    && (forall i :: 0 <= i <= end ==> inbox[i].Arrives?)
    && Confirms(inbox[confirmed].message, id) && inbox[confirmed].message.hasResult
    && Confirms(inbox[end].message, id + 1)
    && events == Messages(inbox[..confirmed]) + Messages(inbox[confirmed + 1..end])
  }

  /** Why a session fails: the connection ends, breaks, or brings something that
      is to blame. */
  ghost predicate Explains<D, R>(inbox: seq<Arrival<D>>, id: nat, normalize: Normalizer<D, R>, fault: Fault) {
    fault.Upstream? || exists i :: 0 <= i < |inbox| && Fails(inbox[i], id, normalize, fault)
  }

  ghost predicate Fails<D, R>(arrival: Arrival<D>, id: nat, normalize: Normalizer<D, R>, fault: Fault) {
    match arrival
    case Breaks(cause) => fault == cause
    case Arrives(message) => Blames(message, id, normalize, fault)
  }

  /** The messages among the arrivals. */
  function Messages<D>(inbox: seq<Arrival<D>>): seq<Message<D>> {
    if inbox == [] then []
    else Messages(inbox[..|inbox| - 1]) + if inbox[|inbox| - 1].Arrives? then [inbox[|inbox| - 1].message] else []
  }

  lemma OneMoreMessage<D>(inbox: seq<Arrival<D>>, from: nat, i: nat)
    requires from <= i < |inbox| && inbox[i].Arrives?
    ensures Messages(inbox[from..i + 1]) == Messages(inbox[from..i]) + [inbox[i].message]
  {
    assert inbox[from..i + 1][..i - from] == inbox[from..i];
  }

  lemma NoMessages<D>(inbox: seq<Arrival<D>>, i: nat)
    requires i <= |inbox|
    ensures Messages(inbox[i..i]) == []
  {
  }

  lemma {:induction false} MessagesConcat<D>(inbox: seq<Arrival<D>>, a: nat, b: nat, c: nat)
    requires a <= b <= c <= |inbox|
    ensures Messages(inbox[a..c]) == Messages(inbox[a..b]) + Messages(inbox[b..c])
    decreases c
  {
    if b == c {
      assert Messages(inbox[b..c]) == [];
    } else {
      MessagesConcat(inbox, a, b, c - 1);
      assert inbox[a..c][..c - 1 - a] == inbox[a..c - 1];
      assert inbox[b..c][..c - 1 - b] == inbox[b..c - 1];
    }
  }

  /** What the loops apply next is the next of the messages they have to. */
  lemma NextOfAll<D>(inbox: seq<Arrival<D>>, past: seq<Message<D>>, all: seq<Message<D>>, from: nat, at: nat, end: nat)
    requires from <= at < end <= |inbox| && inbox[at].Arrives?
    requires past + Messages(inbox[from..end]) <= all
    ensures past + Messages(inbox[from..at]) + [inbox[at].message] <= all
  {
    MessagesConcat(inbox, from, at + 1, end);
    OneMoreMessage(inbox, from, at);
    var next := past + Messages(inbox[from..at]) + [inbox[at].message];
    assert past + Messages(inbox[from..end]) == next + Messages(inbox[at + 1..end]);
  }

  /** Reads one message that has to be an event. */
  method ApplyNext<D, R(!new)>(message: Message<D>, id: nat, normalize: Normalizer<D, R>, table: Table<R>,
                               ghost past: seq<Message<D>>, ghost all: seq<Message<D>>)
    returns (r: Reply<()>)
    requires Reflects(table.entries, past, id, normalize) && Fine(past, id, normalize)
    modifies table
    ensures r.Good? ==>
      && Reflects(table.entries, past + [message], id, normalize) && Fine(past + [message], id, normalize)
      && IsEvent(message, id)
    ensures Fine(all, id, normalize) && past + [message] <= all ==> r.Good?
    ensures r.Bad? ==> Blames(message, id, normalize, r.fault)
  {
    hide Reflects, Fine, Discovers, Removes;
    FineIsBounded(table.entries, past, id, normalize);
    r := table.Apply(message, id, normalize, past);
    if r.Good? {
      StillFine(table.entries, past, message, id, normalize);
      ProperIsEvent(message, id, normalize);
    } else if Fine(all, id, normalize) && past + [message] <= all {
      FineIsApplied(all, table.entries, past, message, id, normalize);
    }
  }

  lemma ProperIsEvent<D, R>(message: Message<D>, id: nat, normalize: Normalizer<D, R>)
    requires Proper(message, id, normalize)
    ensures IsEvent(message, id)
  {
  }

  /** The first phase: events until the subscription is confirmed. `all` and
      `confirmed` are what a whole session would bring. */
  method AwaitConfirmation<D, R(!new)>(inbox: seq<Arrival<D>>, id: nat, normalize: Normalizer<D, R>, table: Table<R>,
                                       ghost all: seq<Message<D>>, ghost confirmed: nat)
    returns (r: Reply<nat>)
    requires table.entries == map[]
    modifies table
    ensures r.Good? ==>
      && r.value < |inbox|
      && (forall i :: 0 <= i <= r.value ==> inbox[i].Arrives?)
      && Confirms(inbox[r.value].message, id) && inbox[r.value].message.hasResult
      && Reflects(table.entries, Messages(inbox[0..r.value]), id, normalize)
      && Fine(Messages(inbox[0..r.value]), id, normalize)
    ensures
      && Fine(all, id, normalize) && confirmed < |inbox| && [] + Messages(inbox[0..confirmed]) <= all
      && (forall i :: 0 <= i <= confirmed ==> inbox[i].Arrives?)
      && Confirms(inbox[confirmed].message, id) && inbox[confirmed].message.hasResult
      ==> r == Good(confirmed)
    ensures r.Bad? ==> Explains(inbox, id, normalize, r.fault)
  {
    hide Reflects, Fine, Messages;
    var at := 0;
    NoMessages(inbox, 0);
    NothingYet(id, normalize);
    while at < |inbox|
      invariant at <= |inbox|
      invariant forall i :: 0 <= i < at ==> inbox[i].Arrives? && IsEvent(inbox[i].message, id)
      invariant Reflects(table.entries, Messages(inbox[0..at]), id, normalize)
      invariant Fine(Messages(inbox[0..at]), id, normalize)
    {
      if inbox[at].Breaks? {
        return Bad(inbox[at].fault);
      }
      var response := inbox[at].message;
      OneMoreMessage(inbox, 0, at);
      if at < confirmed <= |inbox| && [] + Messages(inbox[0..confirmed]) <= all {
        NextOfAll(inbox, [], all, 0, at, confirmed);
        assert [] + Messages(inbox[0..at]) == Messages(inbox[0..at]);
        if Fine(all, id, normalize) {
          FineIsApplied(all, table.entries, Messages(inbox[0..at]), response, id, normalize);
          ProperIsEvent(response, id, normalize);
        }
      }
      if IsEvent(response, id) {
        var applied := ApplyNext(response, id, normalize, table, Messages(inbox[0..at]), all);
        if applied.Bad? {
          return Bad(applied.fault);
        }
        at := at + 1;
      } else if !IsResult(response, id) {
        return Bad(InvalidResponse);
      } else {
        match response.success {
          case Some(true) =>
            if !response.hasResult {
              return Bad(InvalidResponse);
            }
            return Good(at);
          case Some(false) => return Bad(RequestRejected);
          case None => return Bad(InvalidResponse);
        }
      }
    }
    return Bad(Upstream);
  }

  /** The second phase: nothing but events until the deadline. */
  method Collect<D, R(!new)>(inbox: seq<Arrival<D>>, id: nat, normalize: Normalizer<D, R>, table: Table<R>, from: nat,
                             until: nat, ghost past: seq<Message<D>>, ghost all: seq<Message<D>>)
    returns (r: Reply<()>)
    requires from <= until <= |inbox|
    requires Reflects(table.entries, past, id, normalize) && Fine(past, id, normalize)
    modifies table
    ensures r.Good? ==>
      && (forall i :: from <= i < until ==> inbox[i].Arrives?)
      && Reflects(table.entries, past + Messages(inbox[from..until]), id, normalize)
      && Fine(past + Messages(inbox[from..until]), id, normalize)
    ensures
      && Fine(all, id, normalize) && past + Messages(inbox[from..until]) <= all
      && (forall i :: from <= i < until ==> inbox[i].Arrives?)
      ==> r.Good?
    ensures r.Bad? ==> Explains(inbox, id, normalize, r.fault)
  {
    hide Reflects, Fine, Messages, IsEvent;
    NoMessages(inbox, from);
    assert past + Messages(inbox[from..from]) == past;
    for at := from to until
      invariant forall i :: from <= i < at ==> inbox[i].Arrives?
      invariant Reflects(table.entries, past + Messages(inbox[from..at]), id, normalize)
      invariant Fine(past + Messages(inbox[from..at]), id, normalize)
    {
      if inbox[at].Breaks? {
        return Bad(inbox[at].fault);
      }
      ghost var events := past + Messages(inbox[from..at]);
      OneMoreMessage(inbox, from, at);
      assert past + Messages(inbox[from..at + 1]) == events + [inbox[at].message];
      if past + Messages(inbox[from..until]) <= all {
        NextOfAll(inbox, past, all, from, at, until);
      }
      var applied := ApplyNext(inbox[at].message, id, normalize, table, events, all);
      if applied.Bad? {
        return Bad(applied.fault);
      }
    }
    return Good(());
  }

  /** The last phase: events until the end of the subscription is confirmed. */
  method AwaitEnd<D, R(!new)>(inbox: seq<Arrival<D>>, id: nat, normalize: Normalizer<D, R>, table: Table<R>, from: nat,
                              ghost past: seq<Message<D>>, ghost all: seq<Message<D>>, ghost end: nat)
    returns (r: Reply<nat>)
    requires from <= |inbox|
    requires Reflects(table.entries, past, id, normalize) && Fine(past, id, normalize)
    modifies table
    ensures r.Good? ==>
      && from <= r.value < |inbox|
      && (forall i :: from <= i <= r.value ==> inbox[i].Arrives?)
      && Confirms(inbox[r.value].message, id + 1)
      && Reflects(table.entries, past + Messages(inbox[from..r.value]), id, normalize)
      && Fine(past + Messages(inbox[from..r.value]), id, normalize)
    ensures
      && Fine(all, id, normalize) && from <= end < |inbox| && past + Messages(inbox[from..end]) <= all
      && (forall i :: from <= i <= end ==> inbox[i].Arrives?)
      && Confirms(inbox[end].message, id + 1)
      ==> r == Good(end)
    ensures r.Bad? ==> Explains(inbox, id, normalize, r.fault)
  {
    hide Reflects, Fine, Messages;
    var at := from;
    NoMessages(inbox, from);
    assert past + Messages(inbox[from..from]) == past;
    while at < |inbox|
      invariant from <= at <= |inbox|
      invariant forall i :: from <= i < at ==> inbox[i].Arrives? && IsEvent(inbox[i].message, id)
      invariant Reflects(table.entries, past + Messages(inbox[from..at]), id, normalize)
      invariant Fine(past + Messages(inbox[from..at]), id, normalize)
    {
      if inbox[at].Breaks? {
        return Bad(inbox[at].fault);
      }
      var response := inbox[at].message;
      ghost var events := past + Messages(inbox[from..at]);
      OneMoreMessage(inbox, from, at);
      assert past + Messages(inbox[from..at + 1]) == events + [response];
      if at < end <= |inbox| && past + Messages(inbox[from..end]) <= all {
        NextOfAll(inbox, past, all, from, at, end);
        if Fine(all, id, normalize) {
          FineIsApplied(all, table.entries, events, response, id, normalize);
          ProperIsEvent(response, id, normalize);
        }
      }
      if response.id == Some(id) {
        var applied := ApplyNext(response, id, normalize, table, events, all);
        if applied.Bad? {
          return Bad(applied.fault);
        }
        at := at + 1;
      } else if !IsResult(response, id + 1) {
        return Bad(InvalidResponse);
      } else {
        match response.success {
          case Some(true) => return Good(at);
          case Some(false) => return Bad(RequestRejected);
          case None => return Bad(InvalidResponse);
        }
      }
    }
    return Bad(Upstream);
  }

  /** A session with nothing wrong in it. */
  ghost predicate Succeeds<D, R(!new)>(inbox: seq<Arrival<D>>, id: nat, normalize: Normalizer<D, R>, deadline: nat,
                                       events: seq<Message<D>>, confirmed: nat, end: nat)
  {
    Session(inbox, id, deadline, events, confirmed, end) && Fine(events, id, normalize)
  }

  /** What such a session means for the three phases. */
  lemma Phases<D>(inbox: seq<Arrival<D>>, id: nat, deadline: nat, events: seq<Message<D>>, confirmed: nat, end: nat)
    requires Session(inbox, id, deadline, events, confirmed, end)
    ensures
      var until := Until(deadline, confirmed, |inbox|);
      var first := Messages(inbox[0..confirmed]);
      var second := first + Messages(inbox[confirmed + 1..until]);
      && [] + first <= events
      && second <= events
      && second + Messages(inbox[until..end]) == events
  {
    hide Messages, Confirms, IsEvent, IsResult;
    var until := Until(deadline, confirmed, |inbox|);
    var first, second := Messages(inbox[..confirmed]), Messages(inbox[confirmed + 1..until]);
    assert inbox[0..confirmed] == inbox[..confirmed];
    MessagesConcat(inbox, confirmed + 1, until, end);
    assert first + second + Messages(inbox[until..end]) == first + (second + Messages(inbox[until..end]));
  }

  /** A whole discovery: it succeeds exactly on a session with nothing wrong in
      it, and then lists the routers in the order of their keys. The connection
      may be closed to either request. */
  method ThreadRouters<D(!new), R(0, !new)>(inbox: seq<Arrival<D>>, id: nat, normalize: Normalizer<D, R>,
      deadline: nat, subscribes: bool, unsubscribes: bool)
    returns (r: Reply<seq<R>>, ghost events: seq<Message<D>>, ghost found: map<string, R>)
    ensures r.Good? <==>
      subscribes && unsubscribes && exists all, confirmed, end ::
        Succeeds(inbox, id, normalize, deadline, all, confirmed, end)
    ensures r.Good? ==>
      && (exists confirmed, end :: Succeeds(inbox, id, normalize, deadline, events, confirmed, end))
      && Reflects(found, events, id, normalize)
      && |found| <= MAX_THREAD_ITEMS
      && Listed(r.value, found)
    ensures r.Bad? ==> Explains(inbox, id, normalize, r.fault)
  {
    hide Reflects, Fine, Messages, Listed, Confirms;
    events, found := [], map[];
    ghost var all: seq<Message<D>>, c: nat, e: nat := [], 0, 0;
    ghost var hopeful := exists a, b, d :: Succeeds(inbox, id, normalize, deadline, a, b, d);
    if hopeful {
      all, c, e :| Succeeds(inbox, id, normalize, deadline, all, c, e);
      Phases(inbox, id, deadline, all, c, e);
    }
    if !subscribes {
      return Bad(Upstream), events, found;
    }
    var table := new Table<R>();
    var confirmed := AwaitConfirmation(inbox, id, normalize, table, all, c);
    if confirmed.Bad? {
      return Bad(confirmed.fault), events, found;
    }
    var from := confirmed.value + 1;
    var until := Until(deadline, confirmed.value, |inbox|);
    ghost var first := Messages(inbox[0..confirmed.value]);
    var collected := Collect(inbox, id, normalize, table, from, until, first, all);
    if collected.Bad? {
      return Bad(collected.fault), events, found;
    }
    if !unsubscribes {
      return Bad(Upstream), events, found;
    }
    ghost var second := first + Messages(inbox[from..until]);
    var end := AwaitEnd(inbox, id, normalize, table, until, second, all, e);
    if end.Bad? {
      return Bad(end.fault), events, found;
    }
    events, found := second + Messages(inbox[until..end.value]), table.entries;
    MessagesConcat(inbox, from, until, end.value);
    assert inbox[0..confirmed.value] == inbox[..confirmed.value];
    assert events == first + Messages(inbox[from..end.value]);
    assert Succeeds(inbox, id, normalize, deadline, events, confirmed.value, end.value);
    FineIsBounded(found, events, id, normalize);
    var routers := IntoValues(table.entries);
    return Good(routers), events, found;
  }

  lemma FineIsBounded<D, R(!new)>(entries: map<string, R>, events: seq<Message<D>>, id: nat,
                                  normalize: Normalizer<D, R>)
    requires Fine(events, id, normalize) && Reflects(entries, events, id, normalize)
    ensures |entries| <= MAX_THREAD_ITEMS
  {
    hide Reflects;
    assert events[..|events|] == events;
  }

  method IntoValues<R>(entries: map<string, R>) returns (routers: seq<R>)
    ensures Listed(routers, entries)
  {
    BeforeIsWeakOrder();
    var keys := OrderedBy(entries.Keys, Before);
    routers := seq(|keys|, i requires 0 <= i < |keys| && keys[i] in entries => entries[keys[i]]);
  }

  /** The values of the map in the order of its keys. */
  ghost predicate Listed<R>(routers: seq<R>, found: map<string, R>) {
    exists keys: seq<string> ::
      && InOrderBy(keys, Before)
      && (forall key :: key in keys <==> key in found)
      && |keys| == |routers|
      && forall i :: 0 <= i < |keys| ==> keys[i] in found && routers[i] == found[keys[i]]
  }
}
