/** Entities grouped by the device and the area they belong to. */
module DeviceGroups {
  import opened Basics
  import opened TextOrder

  datatype Entity = Entity(id: string, state: string)

  datatype Registered = Registered(deviceId: Option<string>, areaId: Option<string>)

  datatype Device = Device(areaId: Option<string>, name: Option<string>)

  datatype Group = Group(name: Option<string>, area: Option<string>, entities: seq<Entity>)

  datatype Key = OfDevice(deviceId: string, areaId: Option<string>) | Standalone(entityId: string)

  type Registry = map<string, Option<Registered>>

  /** The home: who is registered as what, the devices and the names of areas. */
  datatype Home = Home(registry: Registry, devices: map<string, Device>, areas: map<string, string>)
  {
    /** The entry of an entity; one that is listed without any counts as blank. */
    function Entry(id: string): Registered {
      if id in registry && registry[id].Some? then registry[id].value else Registered(None, None)
    }

    function DeviceOf(id: string): Option<Device> {
      var deviceId := Entry(id).deviceId;
      if deviceId.Some? && deviceId.value in devices then Some(devices[deviceId.value]) else None
    }

    /** The area of the entity itself, or else of its device. */
    function EffectiveArea(id: string): Option<string> {
      if Entry(id).areaId.Some? then Entry(id).areaId
      else if DeviceOf(id).Some? then DeviceOf(id).value.areaId
      else None
    }

    function KeyOf(id: string): Key {
      match Entry(id).deviceId
      case Some(deviceId) => OfDevice(deviceId, EffectiveArea(id))
      case None => Standalone(id)
    }

    function NameOf(id: string): Option<string> {
      if DeviceOf(id).Some? then DeviceOf(id).value.name else None
    }

    function AreaOf(id: string): Option<string> {
      var areaId := EffectiveArea(id);
      if areaId.Some? && areaId.value in areas then Some(areas[areaId.value]) else None
    }
  }

  // ----- What the groups are

  /** The entities of one group, in the order of the input. */
  function Members(entities: seq<Entity>, home: Home, key: Key): seq<Entity> {
    if entities == [] then []
    else
      var front, last := entities[..|entities| - 1], entities[|entities| - 1];
      Members(front, home, key) + if home.KeyOf(last.id) == key then [last] else []
  }

  /** The group of these members, named and placed after the first. */
  function GroupOf(members: seq<Entity>, home: Home): Group
    requires members != []
  {
    Group(home.NameOf(members[0].id), home.AreaOf(members[0].id), members)
  }

  ghost predicate Distinct(entities: seq<Entity>) {
    forall i, j :: 0 <= i < j < |entities| ==> entities[i].id != entities[j].id
  }

  function Ids(entities: seq<Entity>): set<string> {
    set i | 0 <= i < |entities| :: entities[i].id
  }

  /** The groups are those of the keys that have members: each once. */
  ghost predicate Groups(groups: seq<Group>, entities: seq<Entity>, home: Home) {
    && (forall key :: Members(entities, home, key) != [] ==> GroupOf(Members(entities, home, key), home) in groups)
    && (forall g :: g in groups ==> exists key ::
      Members(entities, home, key) != [] && g == GroupOf(Members(entities, home, key), home))
    && (forall i, j :: 0 <= i < j < |groups| ==> groups[i] != groups[j])
  }

  /** By area, then by name, then by the first entity. */
  ghost predicate Sorted(groups: seq<Group>) {
    forall i, j :: 0 <= i < j < |groups| ==> GroupBefore(groups[i], groups[j])
  }

  predicate OptionBefore(a: Option<string>, b: Option<string>) {
    b.Some? && (a.None? || Before(a.value, b.value))
  }

  function FirstId(g: Group): string {
    if g.entities == [] then "" else g.entities[0].id
  }

  predicate GroupBefore(a: Group, b: Group) {
    || OptionBefore(a.area, b.area)
    || (a.area == b.area && OptionBefore(a.name, b.name))
    || (a.area == b.area && a.name == b.name && Before(FirstId(a), FirstId(b)))
  }

  lemma OptionBeforeIsTotal(a: Option<string>, b: Option<string>)
    ensures OptionBefore(a, b) ==> !OptionBefore(b, a)
    ensures OptionBefore(a, b) || OptionBefore(b, a) || a == b
  {
    if a.Some? && b.Some? {
      BeforeIsTotal(a.value, b.value);
    }
  }

  lemma OptionBeforeIsTransitive(a: Option<string>, b: Option<string>, c: Option<string>)
    requires !OptionBefore(b, a) && !OptionBefore(c, b)
    ensures !OptionBefore(c, a)
  {
    if a.Some? && b.Some? && c.Some? {
      BeforeIsTransitive(a.value, b.value, c.value);
    }
  }

  lemma GroupBeforeIsTotal(a: Group, b: Group)
    ensures GroupBefore(a, b) ==> !GroupBefore(b, a)
    ensures GroupBefore(a, b) || GroupBefore(b, a) || (a.area == b.area && a.name == b.name && FirstId(a) == FirstId(b))
  {
    hide OptionBefore, Before;
    OptionBeforeIsTotal(a.area, b.area);
    OptionBeforeIsTotal(a.name, b.name);
    BeforeIsTotal(FirstId(a), FirstId(b));
    OptionBeforeIsTotal(a.area, a.area);
    OptionBeforeIsTotal(a.name, a.name);
  }

  lemma GroupBeforeIsTransitive(a: Group, b: Group, c: Group)
    requires !GroupBefore(b, a) && !GroupBefore(c, b)
    ensures !GroupBefore(c, a)
  {
    hide OptionBefore, Before;
    OptionBeforeIsTotal(a.area, b.area);
    OptionBeforeIsTotal(b.area, c.area);
    OptionBeforeIsTotal(a.area, c.area);
    OptionBeforeIsTotal(a.name, b.name);
    OptionBeforeIsTotal(b.name, c.name);
    OptionBeforeIsTotal(a.name, c.name);
    OptionBeforeIsTransitive(a.area, b.area, c.area);
    if a.area == b.area == c.area {
      OptionBeforeIsTransitive(a.name, b.name, c.name);
      if a.name == b.name == c.name {
        BeforeIsTransitive(FirstId(a), FirstId(b), FirstId(c));
      }
    }
  }

  lemma GroupBeforeIsWeakOrder()
    ensures WeakOrder(GroupBefore)
  {
    hide GroupBefore;
    forall a, b
      ensures GroupBefore(a, b) ==> !GroupBefore(b, a)
    {
      GroupBeforeIsTotal(a, b);
    }
    forall a, b, c | !GroupBefore(b, a) && !GroupBefore(c, b)
      ensures !GroupBefore(c, a)
    {
      GroupBeforeIsTransitive(a, b, c);
    }
  }

  // ----- Facts about members

  lemma {:induction false} MembersAre(entities: seq<Entity>, home: Home, key: Key)
    ensures forall e :: e in Members(entities, home, key) <==> e in entities && home.KeyOf(e.id) == key
  {
    if entities != [] {
      var front, last := entities[..|entities| - 1], entities[|entities| - 1];
      MembersAre(front, home, key);
      assert entities == front + [last];
    }
  }

  /** How often an entity occurs in its group: as often as in the input. */
  lemma {:induction false} MembersKeepCounts(entities: seq<Entity>, home: Home, key: Key)
    ensures forall e: Entity :: home.KeyOf(e.id) == key ==>
      multiset(Members(entities, home, key))[e] == multiset(entities)[e]
  {
    if entities != [] {
      var front, last := entities[..|entities| - 1], entities[|entities| - 1];
      MembersKeepCounts(front, home, key);
      assert entities == front + [last];
    }
  }

  /** Same group, same entity or same device and area. */
  lemma SameGroup(home: Home, a: string, b: string)
    ensures home.KeyOf(a) == home.KeyOf(b) <==>
      a == b || (home.Entry(a).deviceId.Some? && home.Entry(a).deviceId == home.Entry(b).deviceId
        && home.EffectiveArea(a) == home.EffectiveArea(b))
  {
  }

  /** An entity's own area goes before its device's: one that was moved is apart
      from the device's other entities, wherever the device is, and entities
      moved to one place stay together. */
  lemma OwnAreaDecides(home: Home, a: string, b: string)
    requires home.Entry(a).deviceId.Some? && home.Entry(a).deviceId == home.Entry(b).deviceId
    requires home.Entry(a).areaId.Some?
    ensures home.KeyOf(a) == home.KeyOf(b) <==>
      || home.Entry(b).areaId == home.Entry(a).areaId
      || (home.Entry(b).areaId.None? && home.DeviceOf(b).Some? && home.DeviceOf(b).value.areaId == home.Entry(a).areaId)
    ensures home.Entry(a).areaId.value in home.areas ==>
      home.AreaOf(a) == Some(home.areas[home.Entry(a).areaId.value])
  {
  }

  /** Without areas of their own, entities of one device are together and where
      the device is. */
  lemma DeviceAreaOtherwise(home: Home, a: string, b: string)
    requires home.Entry(a).deviceId.Some? && home.Entry(a).deviceId == home.Entry(b).deviceId
    requires home.Entry(a).areaId.None? && home.Entry(b).areaId.None?
    ensures home.KeyOf(a) == home.KeyOf(b) && home.AreaOf(a) == home.AreaOf(b)
    ensures home.AreaOf(a) ==
      if home.DeviceOf(a).Some? && home.DeviceOf(a).value.areaId.Some?
         && home.DeviceOf(a).value.areaId.value in home.areas
      then Some(home.areas[home.DeviceOf(a).value.areaId.value])
      else None
  {
  }

  /** A group's name and area do not depend on which member they are taken
      from. */
  lemma NameAndAreaAreShared(home: Home, a: string, b: string)
    requires home.KeyOf(a) == home.KeyOf(b)
    ensures home.NameOf(a) == home.NameOf(b) && home.AreaOf(a) == home.AreaOf(b)
  {
  }

  /** Every entity is in exactly one group, with the others of its device and
      area. */
  lemma Partition(groups: seq<Group>, entities: seq<Entity>, home: Home, e: Entity)
    requires Groups(groups, entities, home) && e in entities
    ensures exists i :: 0 <= i < |groups| && e in groups[i].entities
    ensures forall i, j ::
      0 <= i < |groups| && 0 <= j < |groups| && e in groups[i].entities && e in groups[j].entities ==> i == j
    ensures forall i, f :: 0 <= i < |groups| && e in groups[i].entities ==>
      (f in groups[i].entities <==> f in entities && home.KeyOf(f.id) == home.KeyOf(e.id))
  {
    var key := home.KeyOf(e.id);
    MembersAre(entities, home, key);
    var mine := GroupOf(Members(entities, home, key), home);
    assert mine in groups;
    forall i | 0 <= i < |groups| && e in groups[i].entities
      ensures groups[i] == mine
    {
      assert groups[i] in groups;
      var other :| Members(entities, home, other) != [] && groups[i] == GroupOf(Members(entities, home, other), home);
      MembersAre(entities, home, other);
    }
  }

  // ----- The grouping

  /** Takes each entity's entry out of the registry and puts the entity into
      its group. */
  method GroupDevices(entities: seq<Entity>, home: Home) returns (r: Option<seq<Group>>)
    ensures r.Some? <==> Distinct(entities) && home.registry.Keys == Ids(entities)
    ensures r.Some? ==> Groups(r.value, entities, home) && Sorted(r.value)
  {
    hide Members, Collected, Groups, Sorted;
    var rest := home.registry;
    var groups: map<Key, Group> := map[];
    assert Collected(groups, entities[..0], home) by {
      NothingCollected(home);
    }
    for i := 0 to |entities|
      invariant Distinct(entities[..i])
      invariant Ids(entities[..i]) <= home.registry.Keys
      invariant rest == home.registry - Ids(entities[..i])
      invariant Collected(groups, entities[..i], home)
    {
      var entity := entities[i];
      OneMoreEntity(entities, i, home);
      if entity.id !in rest {
        NoRoomFor(entities, i, home.registry);
        return None;
      }
      StillDistinct(entities, i);
      var registry := rest[entity.id];
      rest := rest - {entity.id};
      groups := Place(home, entities, i, registry, groups);
    }
    assert entities[..|entities|] == entities;
    if rest != map[] {
      var id :| id in rest.Keys;
      return None;
    }
    assert forall id :: id in home.registry && id !in Ids(entities) ==> id in rest;
    var sorted := Sort(entities, home, groups);
    return Some(sorted);
  }

  lemma NoRoomFor(entities: seq<Entity>, i: nat, registry: Registry)
    requires i < |entities|
    requires entities[i].id !in registry - Ids(entities[..i])
    ensures !Distinct(entities) || registry.Keys != Ids(entities)
  {
    var id := entities[i].id;
    if id in registry {
      var j :| 0 <= j < i && entities[..i][j].id == id;
      assert entities[j].id == id;
    } else {
      assert id in Ids(entities);
    }
  }

  lemma StillDistinct(entities: seq<Entity>, i: nat)
    requires i < |entities| && Distinct(entities[..i]) && entities[i].id !in Ids(entities[..i])
    ensures Distinct(entities[..i + 1])
  {
    var more := entities[..i + 1];
    forall j, k | 0 <= j < k < |more|
      ensures more[j].id != more[k].id
    {
      assert entities[..i][j] == more[j];
      assert k < i ==> entities[..i][k] == more[k];
      assert entities[..i][j].id in Ids(entities[..i]);
    }
  }

  /** One entity into its group. */
  method Place(home: Home, entities: seq<Entity>, i: nat, registry: Option<Registered>, groups: map<Key, Group>)
    returns (placed: map<Key, Group>)
    requires i < |entities| && entities[i].id in home.registry && registry == home.registry[entities[i].id]
    requires Collected(groups, entities[..i], home)
    ensures Collected(placed, entities[..i + 1], home)
  {
    hide Members, Collected;
    var entity := entities[i];
    var device :=
      if registry.Some? && registry.value.deviceId.Some? && registry.value.deviceId.value in home.devices
      then Some(home.devices[registry.value.deviceId.value]) else None;
    var areaId :=
      if registry.Some? && registry.value.areaId.Some? then registry.value.areaId
      else if device.Some? then device.value.areaId
      else None;
    var key :=
      if registry.Some? && registry.value.deviceId.Some? then OfDevice(registry.value.deviceId.value, areaId)
      else Standalone(entity.id);
    assert key == home.KeyOf(entity.id);
    var name := if device.Some? then device.value.name else None;
    var area := if areaId.Some? && areaId.value in home.areas then Some(home.areas[areaId.value]) else None;
    placed := if key in groups then groups else groups[key := Group(name, area, [])];
    placed := placed[key := placed[key].(entities := placed[key].entities + [entity])];
    OneMoreCollected(home, entities, i, groups, placed);
  }

  lemma OneMoreCollected(home: Home, entities: seq<Entity>, i: nat, groups: map<Key, Group>, placed: map<Key, Group>)
    requires i < |entities| && Collected(groups, entities[..i], home)
    requires var e := entities[i]; var key := home.KeyOf(e.id);
      var former := if key in groups then groups[key] else Group(home.NameOf(e.id), home.AreaOf(e.id), []);
      placed == groups[key := former.(entities := former.entities + [e])]
    ensures Collected(placed, entities[..i + 1], home)
  {
    hide Members;
    OneMoreEntity(entities, i, home);
  }

  lemma NothingCollected(home: Home)
    ensures Collected(map[], [], home)
  {
  }

  /** The groups so far. */
  ghost predicate Collected(groups: map<Key, Group>, entities: seq<Entity>, home: Home) {
    && (forall key :: key in groups <==> Members(entities, home, key) != [])
    && (forall key :: key in groups ==> groups[key] == GroupOf(Members(entities, home, key), home))
  }

  lemma OneMoreEntity(entities: seq<Entity>, i: nat, home: Home)
    requires i < |entities|
    ensures forall key ::
      (Members(entities[..i + 1], home, key) ==
        Members(entities[..i], home, key) + if home.KeyOf(entities[i].id) == key then [entities[i]] else [])
    ensures Ids(entities[..i + 1]) == Ids(entities[..i]) + {entities[i].id}
  {
    var more := entities[..i + 1];
    assert more[..|more| - 1] == entities[..i];
    forall id
      ensures id in Ids(more) <==> id in Ids(entities[..i]) + {entities[i].id}
    {
      if id in Ids(entities[..i]) {
        var k :| 0 <= k < i && entities[..i][k].id == id;
        assert more[k].id == id;
      }
      assert more[i] == entities[i];
      if id in Ids(more) {
        var k :| 0 <= k < |more| && more[k].id == id;
        assert k < i ==> entities[..i][k].id == id;
      }
    }
  }

  /** The groups in order. The first entities tell any two of them apart. */
  method Sort(entities: seq<Entity>, home: Home, groups: map<Key, Group>) returns (sorted: seq<Group>)
    requires Distinct(entities) && Collected(groups, entities, home)
    ensures Groups(sorted, entities, home) && Sorted(sorted)
  {
    GroupBeforeIsWeakOrder();
    sorted := OrderedBy(groups.Values, GroupBefore);
    forall i, j | 0 <= i < j < |sorted|
      ensures GroupBefore(sorted[i], sorted[j])
    {
      GroupBeforeIsTotal(sorted[i], sorted[j]);
      assert sorted[i] in groups.Values && sorted[j] in groups.Values;
      var a :| a in groups && groups[a] == sorted[i];
      var b :| b in groups && groups[b] == sorted[j];
      FirstsDiffer(entities, home, a, b);
    }
    forall key | Members(entities, home, key) != []
      ensures GroupOf(Members(entities, home, key), home) in sorted
    {
      assert groups[key] in groups.Values;
    }
  }

  lemma FirstsDiffer(entities: seq<Entity>, home: Home, a: Key, b: Key)
    requires Distinct(entities) && a != b
    requires Members(entities, home, a) != [] && Members(entities, home, b) != []
    ensures Members(entities, home, a)[0].id != Members(entities, home, b)[0].id
  {
    MembersAre(entities, home, a);
    MembersAre(entities, home, b);
    assert Members(entities, home, a)[0] in Members(entities, home, a);
    assert Members(entities, home, b)[0] in Members(entities, home, b);
  }
}
