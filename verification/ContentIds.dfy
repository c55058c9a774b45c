/**
 Content ids of map blocks on disk: renumbering on save, resolving by name on load
 (src/mapblock.cpp, src/nameidmapping.h).
 */
module ContentIds {
  import opened Basics
  import opened Counting

  datatype MapNode = MapNode(param0: u16, param1: u8, param2: u8)

  const NO_MAPPING: u16 := 0xFFFF
  const UNKNOWN_NAME: string := "unknown"

  // ---------------------------------------------------------------- registry

  // The node definitions: a name for each id in use, the ids by name, and where the search for a free id begins.
  datatype Registry = Registry(names: map<u16, string>, ids: map<string, u16>, next: u16)
  {
    // NodeDefManager::get: what is not registered reads as the unknown node.
    function Name(id: u16): string {
      if id in names then names[id] else UNKNOWN_NAME
    }

    // No aliases: the two maps are inverse to each other.
    predicate Valid() {
      && (forall n :: n in ids ==> ids[n] in names && names[ids[n]] == n)
      && (forall id :: id in names ==> names[id] != "" && names[id] in ids && ids[names[id]] == id)
      && UNKNOWN_NAME in ids
    }

    // allocateUnknownNodeId: the first free id from the next one on, if there is one. After the last id comes 0.
    function Allocate(name: string): (Registry, Option<u16>) {
      var id := FirstFree(names, next);
      if id == 0x1_0000 then (this, None) else (Registry(names[id := name], ids[name := id], (id + 1) % 0x1_0000), Some(id))
    }

    predicate Exhausted() {
      FirstFree(names, next) == 0x1_0000
    }

    // The global id of a name, allocating one where it has none.
    function Resolve(name: string): (Registry, Option<u16>) {
      if name in ids then (this, Some(ids[name])) else Allocate(name)
    }

    predicate Extends(before: Registry) {
      && (forall id :: id in before.names ==> id in names && names[id] == before.names[id])
      && (forall n :: n in before.ids ==> n in ids && ids[n] == before.ids[n])
      && (before.Exhausted() ==> this == before)
    }
  }

  function FirstFree(names: map<u16, string>, from: nat): (id: nat)
    requires from <= 0x1_0000
    ensures from <= id <= 0x1_0000 && (id < 0x1_0000 ==> id as u16 !in names)
    ensures forall i: u16 :: from <= i < id ==> i in names
    decreases 0x1_0000 - from
  {
    if from == 0x1_0000 || (from as u16) !in names then from else FirstFree(names, from + 1)
  }

  // The registry to begin with (NodeDefManager::clear).
  const INITIAL := Registry(
    map[125 := "unknown", 126 := "air", 127 := "ignore"], map["unknown" := 125, "air" := 126, "ignore" := 127], 0)

  lemma InitialIsValid()
    ensures INITIAL.Valid() && INITIAL.Resolve("stone").1 == Some(0)
  {
    assert FirstFree(INITIAL.names, 0) == 0;
  }

  /** Whatever is registered later, the three ids the registry begins with are never given away. */
  lemma ReservedIds(r: Registry, name: string)
    requires r.Valid() && r.Extends(INITIAL)
    ensures r.Name(125) == "unknown" && r.Name(126) == "air" && r.Name(127) == "ignore"
    ensures var id := r.Resolve(name).1;
      id.Some? ==> (id.value == 125 <==> name == "unknown") && (id.value == 126 <==> name == "air") && (id.value == 127 <==> name == "ignore")
  {
    hide Registry.Allocate;
    ReservedNotAllocated(r, name);
    assert r.Name(125) == INITIAL.names[125] && r.Name(126) == INITIAL.names[126] && r.Name(127) == INITIAL.names[127];
    assert INITIAL.ids["unknown"] == 125 && INITIAL.ids["air"] == 126 && INITIAL.ids["ignore"] == 127;
  }

  lemma ReservedNotAllocated(r: Registry, name: string)
    requires r.Valid() && r.Extends(INITIAL)
    ensures var id := r.Allocate(name).1; id.Some? ==> id.value != 125 && id.value != 126 && id.value != 127
  {
    hide Registry.Valid;
    assert 125 in r.names && 126 in r.names && 127 in r.names;
  }

  lemma ResolveMeaning(r: Registry, name: string)
    requires r.Valid() && name != ""
    ensures var (after, id) := r.Resolve(name);
      && after.Valid() && after.Extends(r)
      && (id.None? ==> after == r && name !in r.ids)
      && (id.Some? ==> name in after.ids && after.ids[name] == id.value && after.Name(id.value) == name && after.Resolve(name) == (after, id))
  {}

  /** allocateId: with 16-bit ids that wrap around. It must not search from 0 while every id is in use. */
  method AllocateId(r: Registry) returns (id: Option<u16>, next: u16)
    requires !(r.next == 0 && r.Exhausted())
    ensures forall name: string {:trigger r.Allocate(name)} :: r.Allocate(name).1 == id && r.Allocate(name).0.next == next
  {
    var i: u16 := r.next;
    while i >= r.next
      invariant if i >= r.next then FirstFree(r.names, i) == FirstFree(r.names, r.next) else r.Exhausted()
      decreases if i >= r.next then 0x1_0000 - i else 0
    {
      if i !in r.names {
        return Some(i), (i + 1) % 0x1_0000;
      }
      i := (i + 1) % 0x1_0000;
    }
    return None, r.next;
  }

  /** Otherwise it never ends: no id is free and no id is below the first. This is so once the last id was the last free one. */
  lemma NeverEnds(r: Registry, name: string, i: u16)
    ensures r.next == 0 && r.Exhausted() ==> i >= r.next && i in r.names
    ensures r.Exhausted() && r.next == 0 <==> r.next == 0 && |r.names| >= 0x1_0000
    ensures r.Allocate(name).1 == Some(0xFFFF) ==> r.Allocate(name).0.next == 0
  {
    if r.Exhausted() && r.next == 0 {
      FullSize(r.names);
    }
    if |r.names| >= 0x1_0000 {
      AllInUse(r.names);
    }
  }

  // A registry that has refused a name refuses it for good.
  lemma RefusedForGood(r: Registry, name: string, later: Registry)
    requires later.Extends(r) && r.Resolve(name).1.None?
    ensures name !in later.ids
  {}

  lemma ExtendsTrans(a: Registry, b: Registry, c: Registry)
    requires b.Extends(a) && c.Extends(b)
    ensures c.Extends(a)
  {}

  // ---------------------------------------------------------------- loading, node by node

  // The node with its global id, or as it is when its id has no name or the name gets no id.
  function Looked(nimap: map<u16, string>, r: Registry, node: MapNode): (Registry, MapNode) {
    if node.param0 !in nimap then (r, node)
    else
      var (after, id) := r.Resolve(nimap[node.param0]);
      (after, if id.None? then node else node.(param0 := id.value))
  }

  // Looking up every node, one after the other.
  function LookedAll(nimap: map<u16, string>, r: Registry, nodes: seq<MapNode>): (result: (Registry, seq<MapNode>))
    ensures |result.1| == |nodes|
  {
    if nodes == [] then (r, [])
    else
      var (before, done) := LookedAll(nimap, r, nodes[..|nodes| - 1]);
      var (after, node) := Looked(nimap, before, nodes[|nodes| - 1]);
      (after, done + [node])
  }

  predicate NamesNonEmpty(nimap: map<u16, string>) {
    forall id :: id in nimap ==> nimap[id] != ""
  }

  // The node has the id of its name, and its params.
  predicate Gets(nimap: map<u16, string>, r: Registry, before: MapNode, after: MapNode) {
    && after.param1 == before.param1 && after.param2 == before.param2
    && before.param0 in nimap && r.Name(after.param0) == nimap[before.param0]
  }

  // The node's name, if it has one, ends up registered.
  predicate Registered(nimap: map<u16, string>, r: Registry, node: MapNode) {
    node.param0 in nimap && nimap[node.param0] in r.ids
  }

  lemma LookedMeaning(nimap: map<u16, string>, r: Registry, node: MapNode, later: Registry)
    requires r.Valid() && NamesNonEmpty(nimap)
    ensures var (after, done) := Looked(nimap, r, node);
      && after.Valid() && after.Extends(r)
      && (later.Valid() && later.Extends(after) ==> (Gets(nimap, later, node, done) <==> Registered(nimap, later, node)))
  {
    if node.param0 in nimap {
      var name := nimap[node.param0];
      ResolveMeaning(r, name);
      hide Registry.Resolve;
      if later.Valid() && later.Extends(Looked(nimap, r, node).0) && r.Resolve(name).1.None? {
        RefusedForGood(r, name, later);
      }
    }
  }

  /** Loading: exactly the nodes whose names are registered in the end have the id of their name. */
  lemma {:induction false} LookedAllMeaning(nimap: map<u16, string>, r: Registry, nodes: seq<MapNode>, later: Registry)
    requires r.Valid() && NamesNonEmpty(nimap)
    ensures var (after, done) := LookedAll(nimap, r, nodes);
      && after.Valid() && after.Extends(r)
      && (later.Valid() && later.Extends(after) ==>
            forall i :: 0 <= i < |nodes| ==> (Gets(nimap, later, nodes[i], done[i]) <==> Registered(nimap, later, nodes[i])))
  {
    hide Registry.Valid, Registry.Extends, Looked, Gets, Registered, NamesNonEmpty;
    if nodes == [] {
      ExtendsSelf(r);
    } else {
      var k := |nodes| - 1;
      var (before, done) := LookedAll(nimap, r, nodes[..k]);
      LookedAllMeaning(nimap, r, nodes[..k], later);
      LookedMeaning(nimap, before, nodes[k], later);
      var after := Looked(nimap, before, nodes[k]).0;
      ExtendsTrans(r, before, after);
      if later.Extends(after) {
        ExtendsTrans(before, after, later);
      }
      assert forall i :: 0 <= i < k ==> nodes[..k][i] == nodes[i];
    }
  }

  lemma ExtendsSelf(r: Registry)
    ensures r.Extends(r)
  {}

  // ---------------------------------------------------------------- room for new names

  lemma {:induction false} ValuesBound<K, V>(m: map<K, V>)
    ensures |m.Values| <= |m|
    decreases |m|
  {
    if |m| == 0 {
      assert m == map[];
    } else {
      var k :| k in m;
      var rest := m - {k};
      assert rest.Keys == m.Keys - {k} && |rest| == |m| - 1;
      ValuesBound(rest);
      forall v | v in m.Values
        ensures v in rest.Values + {m[k]}
      {
        var q :| q in m && m[q] == v;
        if q != k {
          assert rest[q] == v;
        }
      }
      SubsetSize(m.Values, rest.Values + {m[k]});
    }
  }

  // All ids in use are as many as there are ids.
  lemma FullSize(names: map<u16, string>)
    requires FirstFree(names, 0) == 0x1_0000
    ensures |names| >= 0x1_0000
  {
    assert forall i: u16 :: i in names;
    hide FirstFree;
    IdsBelow(names.Keys, 0x1_0000);
  }

  lemma {:induction false} IdsBelow(ids: set<u16>, n: nat)
    requires n <= 0x1_0000 && forall i: u16 :: i < n ==> i in ids
    ensures |ids| >= n
  {
    if n == 0 {
    } else {
      var last: u16 := n - 1;
      IdsBelow(ids - {last}, n - 1);
    }
  }

  lemma {:induction false} FewIds(ids: set<u16>, n: nat)
    requires n <= 0x1_0000 && forall i :: i in ids ==> i < n
    ensures |ids| <= n
  {
    if n == 0 {
      assert ids == {};
    } else {
      var last: u16 := n - 1;
      FewIds(ids - {last}, n - 1);
      assert ids <= (ids - {last}) + {last};
      SubsetSize(ids, (ids - {last}) + {last});
    }
  }

  lemma AllInUse(names: map<u16, string>)
    requires |names| >= 0x1_0000
    ensures FirstFree(names, 0) == 0x1_0000
  {
    var free := FirstFree(names, 0);
    if free < 0x1_0000 {
      var id: u16 := free;
      assert |names.Keys + {id}| == |names| + 1;
      FewIds(names.Keys + {id}, 0x1_0000);
    }
  }

  // The ids a search for a free one comes across.
  ghost function Free(r: Registry): set<u16> {
    set id: u16 | r.next <= id < 0x1_0000 && id !in r.names
  }

  /** With an id left for every name of the mapping, every node whose id has a name ends up registered. */
  lemma {:induction false} RoomSuffices(nimap: map<u16, string>, r: Registry, nodes: seq<MapNode>)
    requires r.Valid() && NamesNonEmpty(nimap) && |nimap| <= |Free(r)|
    requires forall i :: 0 <= i < |nodes| ==> nodes[i].param0 in nimap
    ensures forall i :: 0 <= i < |nodes| ==> Registered(nimap, LookedAll(nimap, r, nodes).0, nodes[i])
  {
    if nodes == [] {
    } else {
      hide LookedAll, Looked, Registered, NamesNonEmpty, Registry.Valid, Registry.Extends, Registry.Resolve, Free;
      var k := |nodes| - 1;
      var before := LookedAll(nimap, r, nodes[..k]).0;
      RoomSuffices(nimap, r, nodes[..k]);
      LookedAllMeaning(nimap, r, nodes[..k], before);
      RoomForNode(nimap, r, before, nodes[..k], nodes[k]);
      LookedAllStep(nimap, r, nodes);
      forall i | 0 <= i < k ensures Registered(nimap, LookedAll(nimap, r, nodes).0, nodes[i]) {
        assert nodes[..k][i] == nodes[i];
        StaysRegistered(nimap, before, LookedAll(nimap, r, nodes).0, nodes[i]);
      }
    }
  }

  lemma LookedAllStep(nimap: map<u16, string>, r: Registry, nodes: seq<MapNode>)
    requires nodes != []
    ensures LookedAll(nimap, r, nodes).0 == Looked(nimap, LookedAll(nimap, r, nodes[..|nodes| - 1]).0, nodes[|nodes| - 1]).0
  {}

  lemma StaysRegistered(nimap: map<u16, string>, before: Registry, after: Registry, node: MapNode)
    requires after.Extends(before) && Registered(nimap, before, node)
    ensures Registered(nimap, after, node)
  {}

  lemma RoomForNode(nimap: map<u16, string>, r: Registry, before: Registry, nodes: seq<MapNode>, node: MapNode)
    requires r.Valid() && before.Valid() && |nimap| <= |Free(r)| && node.param0 in nimap && NamesNonEmpty(nimap)
    requires before == LookedAll(nimap, r, nodes).0
    ensures var after := Looked(nimap, before, node).0; after.Extends(before) && Registered(nimap, after, node)
  {
    hide Registry.Valid, LookedAll, Registry.Resolve, Free;
    LookedMeaning(nimap, before, node, before);
    ResolveMeaning(before, nimap[node.param0]);
    RoomForName(nimap, r, before, nodes, nimap[node.param0]);
  }

  // Every new name takes one of the free ids.
  lemma ResolveTakesOne(r: Registry, name: string)
    ensures var after := r.Resolve(name).0;
      && |Free(after)| >= |Free(r)| - (if name in r.ids then 0 else 1)
      && (Free(r) != {} || name in r.ids ==> r.Resolve(name).1.Some?) && (name in r.ids ==> after == r)
      && after.ids.Keys == (if r.Resolve(name).1.Some? then r.ids.Keys + {name} else r.ids.Keys)
  {
    if name !in r.ids {
      var id := FirstFree(r.names, r.next);
      if id < 0x1_0000 {
        var after := r.Resolve(name).0;
        var given: u16 := id;
        assert Free(r) <= Free(after) + {given};
        SubsetSize(Free(r), Free(after) + {given});
      }
    }
  }

  // As long as there is one for every name of the mapping that is not registered yet, it stays so.
  ghost predicate Roomy(nimap: map<u16, string>, r: Registry) {
    |nimap.Values - r.ids.Keys| <= |Free(r)|
  }

  lemma ResolveKeepsRoomy(nimap: map<u16, string>, r: Registry, name: string)
    requires Roomy(nimap, r) && name in nimap.Values
    ensures r.Resolve(name).1.Some? && Roomy(nimap, r.Resolve(name).0)
  {
    hide Free, Registry.Resolve;
    ResolveTakesOne(r, name);
    var after := r.Resolve(name).0;
    if name !in r.ids {
      var missing := nimap.Values - r.ids.Keys;
      assert name in missing && |missing - {name}| == |missing| - 1;
      assert Free(r) != {};
      assert nimap.Values - after.ids.Keys == missing - {name};
    }
  }

  lemma {:induction false} StaysRoomy(nimap: map<u16, string>, r: Registry, nodes: seq<MapNode>)
    requires Roomy(nimap, r)
    ensures Roomy(nimap, LookedAll(nimap, r, nodes).0)
  {
    hide Roomy, Registry.Resolve;
    if nodes == [] {
    } else {
      var k := |nodes| - 1;
      StaysRoomy(nimap, r, nodes[..k]);
      var node := nodes[k];
      if node.param0 in nimap {
        ResolveKeepsRoomy(nimap, LookedAll(nimap, r, nodes[..k]).0, nimap[node.param0]);
      }
    }
  }

  lemma RoomForName(nimap: map<u16, string>, r: Registry, before: Registry, nodes: seq<MapNode>, name: string)
    requires |nimap| <= |Free(r)| && name in nimap.Values && before == LookedAll(nimap, r, nodes).0
    ensures before.Resolve(name).1.Some?
  {
    hide Free, LookedAll, Registry.Resolve;
    ValuesBound(nimap);
    SubsetSize(nimap.Values - r.ids.Keys, nimap.Values);
    StaysRoomy(nimap, r, nodes);
    ResolveKeepsRoomy(nimap, before, name);
  }
}
