/** Bounded history: groups of states cut to one total number of points. */
module History {
  import opened Basics
  import opened EntityIds

  const MAX_HISTORY_POINTS := 2000
  const MAX_STATE_BYTES := 256
  const MAX_OUTPUT_BYTES := 2 * 1024 * 1024

  /** A state as it arrives; after the first of a group the identifier may be
      left out. The time is a text that has to parse. */
  datatype RawState = RawState(entityId: Option<string>, state: Bytes, lastChanged: string)

  datatype Point = Point(state: Bytes, lastChanged: string)

  datatype EntityHistory = EntityHistory(entityId: string, states: seq<Point>)

  datatype Output = Output(history: seq<EntityHistory>, truncated: bool)

  function Min(a: nat, b: nat): nat {
    if a < b then a else b
  }

  // ----- What is valid

  ghost predicate ValidState(raw: RawState, time: string -> bool) {
    |raw.state| <= MAX_STATE_BYTES && time(raw.lastChanged)
  }

  function PointOf(raw: RawState): Point {
    Point(raw.state, raw.lastChanged)
  }

  function Points(group: seq<RawState>): (points: seq<Point>)
    ensures |points| == |group|
    ensures forall i :: 0 <= i < |group| ==> points[i] == PointOf(group[i])
  {
    seq(|group|, i requires 0 <= i < |group| => PointOf(group[i]))
  }

  /** The entity a group is about, as its first state says. */
  function Owner(group: seq<RawState>): Option<string> {
    if group == [] then None else group[0].entityId
  }

  ghost predicate ValidGroup(group: seq<RawState>, requested: seq<string>, time: string -> bool) {
    group != [] ==>
      && Owner(group).Some?
      && ValidEntityId(Owner(group).value)
      && Owner(group).value in requested
      && forall i :: 0 <= i < |group| ==>
           && (group[i].entityId.Some? ==> group[i].entityId == Owner(group))
           && ValidState(group[i], time)
  }

  /** All groups are valid and no two are about the same entity. */
  ghost predicate ValidGroups(groups: seq<seq<RawState>>, requested: seq<string>, time: string -> bool) {
    && (forall i :: 0 <= i < |groups| ==> ValidGroup(groups[i], requested, time))
    && (forall i, j :: 0 <= i < j < |groups| && groups[i] != [] && groups[j] != [] ==>
      Owner(groups[i]) != Owner(groups[j]))
  }

  // ----- What comes out

  function Total(groups: seq<seq<RawState>>): nat {
    if groups == [] then 0 else Total(groups[..|groups| - 1]) + |groups[|groups| - 1]|
  }

  /** The points of all groups, one after the other. */
  function AllPoints(groups: seq<seq<RawState>>): seq<Point> {
    if groups == [] then [] else AllPoints(groups[..|groups| - 1]) + Points(groups[|groups| - 1])
  }

  /** The points of the output, one after the other. */
  function Returned(history: seq<EntityHistory>): seq<Point> {
    if history == [] then [] else Returned(history[..|history| - 1]) + history[|history| - 1].states
  }

  /** Points keep to their entity: those of an entity are the beginning of its
      group, and as many as the cap leaves after the groups before. */
  ghost predicate Faithful(history: seq<EntityHistory>, groups: seq<seq<RawState>>, n: nat)
    requires n <= |groups|
  {
    forall h :: h in history ==> exists g :: 0 <= g < n && ComesFrom(h, groups, g)
  }

  ghost predicate ComesFrom(h: EntityHistory, groups: seq<seq<RawState>>, g: nat)
    requires g < |groups|
  {
    && Owner(groups[g]) == Some(h.entityId)
    && h.states != []
    && h.states == Points(groups[g])[..Min(|groups[g]|, Left(groups[..g]))]
  }

  /** The room that some groups leave under the cap. */
  function Left(groups: seq<seq<RawState>>): nat {
    MAX_HISTORY_POINTS - Min(Total(groups), MAX_HISTORY_POINTS)
  }

  /** The whole answer as a function of the groups. */
  function Histories(groups: seq<seq<RawState>>): seq<EntityHistory> {
    if groups == [] then []
    else
      var front, last := groups[..|groups| - 1], groups[|groups| - 1];
      var take := Min(|last|, Left(front));
      if Owner(last).None? || take == 0 then Histories(front)
      else Histories(front) + [EntityHistory(Owner(last).value, Points(last)[..take])]
  }

  function Summary(groups: seq<seq<RawState>>): Output {
    Output(Histories(groups), Total(groups) > MAX_HISTORY_POINTS)
  }

  lemma OneMoreHistory(groups: seq<seq<RawState>>, i: nat)
    requires i < |groups|
    ensures
      var take := Min(|groups[i]|, Left(groups[..i]));
      Histories(groups[..i + 1]) ==
        if Owner(groups[i]).None? || take == 0 then Histories(groups[..i])
        else Histories(groups[..i]) + [EntityHistory(Owner(groups[i]).value, Points(groups[i])[..take])]
  {
    assert groups[..i + 1][..i] == groups[..i];
  }

  ghost predicate DistinctEntities(history: seq<EntityHistory>) {
    forall i, j :: 0 <= i < j < |history| ==> history[i].entityId != history[j].entityId
  }

  lemma {:induction false} AllPointsCount(groups: seq<seq<RawState>>)
    ensures |AllPoints(groups)| == Total(groups)
  {
    if groups != [] {
      AllPointsCount(groups[..|groups| - 1]);
    }
  }

  lemma {:induction false} TotalGrows(groups: seq<seq<RawState>>, i: nat)
    requires i <= |groups|
    ensures Total(groups[..i]) <= Total(groups)
    decreases |groups|
  {
    if i < |groups| {
      TotalGrows(groups[..|groups| - 1], i);
      assert groups[..|groups| - 1][..i] == groups[..i];
    } else {
      assert groups[..i] == groups;
    }
  }

  /** The first points of all, up to the cap. */
  function Capped(groups: seq<seq<RawState>>): seq<Point> {
    var all := AllPoints(groups);
    all[..Min(|all|, MAX_HISTORY_POINTS)]
  }

  /** The entities that groups are about. */
  ghost function Owners(groups: seq<seq<RawState>>): set<string> {
    set g | 0 <= g < |groups| && Owner(groups[g]).Some? :: Owner(groups[g]).value
  }

  /** The cap applied group by group is the cap applied to everything. */
  lemma CutGroupWise(groups: seq<seq<RawState>>, i: nat)
    requires i < |groups|
    ensures var take := Min(Left(groups[..i]), |groups[i]|);
      && Capped(groups[..i + 1]) == Capped(groups[..i]) + Points(groups[i])[..take]
      && Left(groups[..i + 1]) == Left(groups[..i]) - take
  {
    assert groups[..i + 1][..i] == groups[..i];
    AllPointsCount(groups[..i]);
  }

  /** A group more is a group to be valid and about an entity of its own. */
  lemma OneMoreGroup(groups: seq<seq<RawState>>, i: nat, requested: seq<string>, time: string -> bool)
    requires i < |groups|
    ensures ValidGroups(groups[..i + 1], requested, time) <==>
      && ValidGroups(groups[..i], requested, time)
      && ValidGroup(groups[i], requested, time)
      && (Owner(groups[i]).Some? ==> Owner(groups[i]).value !in Owners(groups[..i]))
    ensures Owners(groups[..i + 1]) ==
      Owners(groups[..i]) + if Owner(groups[i]).Some? then {Owner(groups[i]).value} else {}
  {
    OneMoreValid(groups[..i], groups[i], requested, time);
    OneMoreOwner(groups[..i], groups[i]);
    assert groups[..i + 1] == groups[..i] + [groups[i]];
  }

  lemma OneMoreValid(less: seq<seq<RawState>>, group: seq<RawState>, requested: seq<string>, time: string -> bool)
    ensures ValidGroups(less + [group], requested, time) <==>
      && ValidGroups(less, requested, time)
      && ValidGroup(group, requested, time)
      && (Owner(group).Some? ==> Owner(group).value !in Owners(less))
  {
    hide ValidGroup;
    var more := less + [group];
    assert forall k :: 0 <= k < |less| ==> less[k] == more[k];
    assert more[|less|] == group;
    if Owner(group).Some? && Owner(group).value in Owners(less) {
      var g :| 0 <= g < |less| && Owner(less[g]).Some? && Owner(less[g]).value == Owner(group).value;
      assert Owner(more[g]) == Owner(more[|less|]) && more[g] != [];
    } else if ValidGroups(less, requested, time) && ValidGroup(group, requested, time) {
      forall j, k | 0 <= j < k < |more| && more[j] != [] && more[k] != []
        ensures Owner(more[j]) != Owner(more[k])
      {
        if k == |less| {
          HasOwner(less[j], requested, time);
          assert Owner(less[j]).value in Owners(less);
        }
      }
    }
  }

  lemma HasOwner(group: seq<RawState>, requested: seq<string>, time: string -> bool)
    requires ValidGroup(group, requested, time) && group != []
    ensures Owner(group).Some?
  {
  }

  lemma OneMoreOwner(less: seq<seq<RawState>>, group: seq<RawState>)
    ensures Owners(less + [group]) == Owners(less) + if Owner(group).Some? then {Owner(group).value} else {}
  {
    var more := less + [group];
    forall id
      ensures id in Owners(more) <==> id in Owners(less) || Owner(group) == Some(id)
    {
      if id in Owners(more) {
        var g :| 0 <= g < |more| && Owner(more[g]) == Some(id);
        assert g < |less| ==> Owner(less[g]) == Some(id);
      }
      if id in Owners(less) {
        var g :| 0 <= g < |less| && Owner(less[g]) == Some(id);
        assert Owner(more[g]) == Some(id);
      }
      if Owner(group) == Some(id) {
        assert Owner(more[|less|]) == Some(id);
      }
    }
  }

  lemma ValidPrefix(groups: seq<seq<RawState>>, n: nat, requested: seq<string>, time: string -> bool)
    requires n <= |groups| && ValidGroups(groups, requested, time)
    ensures ValidGroups(groups[..n], requested, time)
  {
    hide ValidGroup;
    var less := groups[..n];
    assert forall k :: 0 <= k < n ==> less[k] == groups[k];
  }

  lemma InvalidHence(groups: seq<seq<RawState>>, n: nat, requested: seq<string>, time: string -> bool)
    requires n <= |groups| && !ValidGroups(groups[..n], requested, time)
    ensures !ValidGroups(groups, requested, time)
  {
    hide ValidGroups;
    if ValidGroups(groups, requested, time) {
      ValidPrefix(groups, n, requested, time);
    }
  }

  lemma NothingYet(requested: seq<string>, time: string -> bool)
    ensures ValidGroups([], requested, time) && Owners([]) == {} && Capped([]) == [] == Returned([])
      && Histories([]) == [] && Left([]) == MAX_HISTORY_POINTS
    ensures forall groups: seq<seq<RawState>> :: Faithful([], groups, 0)
  {
  }

  lemma OneMoreReturned(history: seq<EntityHistory>, h: EntityHistory)
    ensures Returned(history + [h]) == Returned(history) + h.states
  {
    assert (history + [h])[..|history|] == history;
  }

  // ----- The loop

  /** The check of one group before its states are looked at. */
  method CheckGroup(group: seq<RawState>, requested: seq<string>, seen: set<string>) returns (ok: bool)
    requires group != []
    ensures ok <==>
      && Owner(group).Some? && ValidEntityId(Owner(group).value) && Owner(group).value in requested
        && Owner(group).value !in seen
      && forall i :: 0 <= i < |group| && group[i].entityId.Some? ==> group[i].entityId == Owner(group)
  {
    var entity := group[0].entityId;
    if entity.None? {
      return false;
    }
    if !ValidEntityId(entity.value) || entity.value !in requested || entity.value in seen {
      return false;
    }
    for i := 0 to |group|
      invariant forall k :: 0 <= k < i && group[k].entityId.Some? ==> group[k].entityId == entity
    {
      if group[i].entityId.Some? && group[i].entityId != entity {
        return false;
      }
    }
    return true;
  }

  /** The states of one group: all are checked, the first `take` are kept. */
  method TakeStates(group: seq<RawState>, time: string -> bool, take: nat) returns (r: Option<seq<Point>>)
    requires take <= |group|
    ensures r.Some? <==> forall i :: 0 <= i < |group| ==> ValidState(group[i], time)
    ensures r.Some? ==> r.value == Points(group)[..take]
  {
    var states := [];
    for i := 0 to |group|
      invariant forall k :: 0 <= k < i ==> ValidState(group[k], time)
      invariant states == Points(group)[..Min(i, take)]
    {
      if |group[i].state| > MAX_STATE_BYTES || !time(group[i].lastChanged) {
        return None;
      }
      if |states| < take {
        states := states + [PointOf(group[i])];
      }
    }
    return Some(states);
  }

  /** The answer to a history request; `size` is its length as JSON. */
  method GetHistory(groups: seq<seq<RawState>>, requested: seq<string>, time: string -> bool, size: Output -> nat)
    returns (r: Option<Output>)
    ensures r.Some? <==> ValidGroups(groups, requested, time) && size(Summary(groups)) <= MAX_OUTPUT_BYTES
    ensures r.Some? ==>
      && r.value == Summary(groups)
      && Returned(r.value.history) == Capped(groups)
      && (r.value.truncated <==> |AllPoints(groups)| > MAX_HISTORY_POINTS)
      && DistinctEntities(r.value.history)
      && (forall h :: h in r.value.history ==> h.entityId in requested)
      && Faithful(r.value.history, groups, |groups|)
  {
    hide ValidGroups, Returned, Capped, Histories, Faithful;
    AllPointsCount(groups);
    var output := Fold(groups, requested, time);
    if output == None || size(output.value) > MAX_OUTPUT_BYTES {
      return None;
    }
    return output;
  }

  method CountPoints(groups: seq<seq<RawState>>) returns (total: nat)
    ensures total == Total(groups)
  {
    total := 0;
    for i := 0 to |groups|
      invariant total == Total(groups[..i])
    {
      assert groups[..i + 1][..i] == groups[..i];
      total := total + |groups[i]|;
    }
    assert groups[..|groups|] == groups;
  }

  method Fold(groups: seq<seq<RawState>>, requested: seq<string>, time: string -> bool) returns (r: Option<Output>)
    ensures r.Some? <==> ValidGroups(groups, requested, time)
    ensures r.Some? ==>
      && r.value == Summary(groups)
      && Returned(r.value.history) == Capped(groups)
      && (r.value.truncated <==> |AllPoints(groups)| > MAX_HISTORY_POINTS)
      && DistinctEntities(r.value.history)
      && (forall h :: h in r.value.history ==> h.entityId in requested)
      && Faithful(r.value.history, groups, |groups|)
  {
    hide ValidGroups, Returned, Capped, Histories, Faithful, Total, AllPoints, Owners, ValidEntityId, ValidState;
    var total := CountPoints(groups);
    AllPointsCount(groups);
    var remaining := MAX_HISTORY_POINTS;
    var truncated := total > MAX_HISTORY_POINTS;
    var history: seq<EntityHistory> := [];
    var seen: set<string> := {};
    NothingYet(requested, time);
    for i := 0 to |groups|
      invariant ValidGroups(groups[..i], requested, time)
      invariant seen == Owners(groups[..i])
      invariant Returned(history) == Capped(groups[..i])
      invariant history == Histories(groups[..i])
      invariant remaining == Left(groups[..i])
      invariant DistinctEntities(history)
      invariant forall h :: h in history ==> h.entityId in seen && h.entityId in requested
      invariant Faithful(history, groups, i)
    {
      var group := groups[i];
      OneMoreGroup(groups, i, requested, time);
      CutGroupWise(groups, i);
      OneMoreHistory(groups, i);
      if group == [] {
        StillFaithful(history, groups, i);
        continue;
      }
      var ok := CheckGroup(group, requested, seen);
      if !ok {
        assert !ValidGroups(groups[..i + 1], requested, time) by {
          Sound(group, requested, time);
        }
        InvalidHence(groups, i + 1, requested, time);
        return None;
      }
      var entity := Owner(group).value;
      seen := seen + {entity};
      var take := Min(remaining, |group|);
      var states := TakeStates(group, time, take);
      Sound(group, requested, time);
      if states == None {
        InvalidHence(groups, i + 1, requested, time);
        return None;
      }
      remaining := remaining - take;
      if states.value != [] {
        var h := EntityHistory(entity, states.value);
        OneMoreReturned(history, h);
        OneMoreFaithful(history, groups, i, h);
        history := history + [h];
      } else {
        StillFaithful(history, groups, i);
      }
    }
    assert groups[..|groups|] == groups;
    return Some(Output(history, truncated));
  }

  /** What `CheckGroup` and `TakeStates` look at is what makes a group valid. */
  lemma Sound(group: seq<RawState>, requested: seq<string>, time: string -> bool)
    requires group != []
    ensures ValidGroup(group, requested, time) <==>
      && Owner(group).Some? && ValidEntityId(Owner(group).value) && Owner(group).value in requested
      && (forall i :: 0 <= i < |group| && group[i].entityId.Some? ==> group[i].entityId == Owner(group))
      && (forall i :: 0 <= i < |group| ==> ValidState(group[i], time))
  {
    hide ValidEntityId, ValidState;
  }

  lemma StillFaithful(history: seq<EntityHistory>, groups: seq<seq<RawState>>, i: nat)
    requires i < |groups| && Faithful(history, groups, i)
    ensures Faithful(history, groups, i + 1)
  {
    hide ComesFrom;
  }

  lemma OneMoreFaithful(history: seq<EntityHistory>, groups: seq<seq<RawState>>, i: nat, h: EntityHistory)
    requires i < |groups| && Faithful(history, groups, i) && ComesFrom(h, groups, i)
    ensures Faithful(history + [h], groups, i + 1)
  {
    hide ComesFrom;
  }
}
