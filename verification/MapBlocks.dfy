/**
 Writing a map block's nodes to disk and reading them back (src/mapblock.cpp, src/mapnode.cpp): ids are
 renumbered and resolved in place, nodes are laid out in three planes.
 */
module MapBlocks {
  import opened Basics
  import opened ContentIds

  class NameIdMapping {
    var idToName: map<u16, string>
    var nameToId: map<string, u16>

    constructor ()
      ensures idToName == map[] && nameToId == map[]
    {
      idToName, nameToId := map[], map[];
    }

    method Set(id: u16, name: string)
      requires name != ""
      modifies this
      ensures idToName == old(idToName)[id := name] && nameToId == old(nameToId)[name := id]
    {
      idToName := idToName[id := name];
      nameToId := nameToId[name := id];
    }

    method GetName(id: u16) returns (found: bool, name: string)
      ensures found == (id in idToName) && (found ==> name == idToName[id])
    {
      found := id in idToName;
      name := if found then idToName[id] else "";
    }
  }

  // ---------------------------------------------------------------- saving

  // The nodes with ids 0, 1, ... in place of their own, and the name behind each new id.
  ghost predicate Renumbered(r: Registry, before: seq<MapNode>, after: seq<MapNode>, nimap: map<u16, string>) {
    && |after| == |before|
    && (forall i :: 0 <= i < |after| ==> after[i].param1 == before[i].param1 && after[i].param2 == before[i].param2)
    && (forall i :: 0 <= i < |after| ==> after[i].param0 in nimap && nimap[after[i].param0] == r.Name(before[i].param0))
    && (forall i, j :: 0 <= i < |after| && 0 <= j < |after| ==> (after[i].param0 == after[j].param0 <==> before[i].param0 == before[j].param0))
  }

  // The table of new ids while nodes are renumbered.
  ghost predicate Table(r: Registry, mapping: seq<u16>, nimap: map<u16, string>, count: nat) {
    && |mapping| == 0x1_0000
    && (forall id: u16 :: id in nimap <==> id < count)
    && (forall g :: 0 <= g < |mapping| && mapping[g] != NO_MAPPING ==> mapping[g] < count && mapping[g] in nimap && nimap[mapping[g]] == r.Name(g))
    && (forall g, h :: 0 <= g < |mapping| && 0 <= h < |mapping| && mapping[g] == mapping[h] != NO_MAPPING ==> g == h)
    && (forall id: u16 :: id in nimap ==> nimap[id] != "")
  }

  lemma TableGrows(r: Registry, mapping: seq<u16>, nimap: map<u16, string>, count: nat, g: u16)
    requires r.Valid() && Table(r, mapping, nimap, count) && mapping[g] == NO_MAPPING && count < 0xFFFF
    ensures Table(r, mapping[g := count], nimap[count as u16 := r.Name(g)], count + 1) && r.Name(g) != ""
  {}

  // The nodes before i stand for the old ones through the table.
  ghost predicate Mapped(mapping: seq<u16>, before: seq<MapNode>, after: seq<MapNode>, i: nat) {
    && |mapping| == 0x1_0000 && i <= |before| == |after|
    && (forall j :: 0 <= j < i ==> after[j] == before[j].(param0 := mapping[before[j].param0]) && mapping[before[j].param0] != NO_MAPPING)
    && (forall j :: i <= j < |after| ==> after[j] == before[j])
  }

  lemma MappedIsRenumbered(r: Registry, mapping: seq<u16>, nimap: map<u16, string>, count: nat, before: seq<MapNode>, after: seq<MapNode>)
    requires Table(r, mapping, nimap, count) && Mapped(mapping, before, after, |before|)
    ensures Renumbered(r, before, after, nimap) && NamesNonEmpty(nimap)
  {}

  /** getBlockNodeIdMapping, on at most 65534 nodes (a map block has 4096). */
  method GetBlockNodeIdMapping(nimap: NameIdMapping, nodes: array<MapNode>, r: Registry) returns (ghost count: nat)
    requires r.Valid() && nodes.Length < 0xFFFF && nimap.idToName == map[]
    modifies nimap, nodes
    ensures Renumbered(r, old(nodes[..]), nodes[..], nimap.idToName) && NamesNonEmpty(nimap.idToName)
    ensures count <= nodes.Length && forall id: u16 :: id in nimap.idToName <==> id < count
  {
    hide Table, Registry.Valid, Renumbered;
    var mapping := new u16[0x1_0000](_ => NO_MAPPING);
    var counter: nat := 0;
    ghost var before := nodes[..];
    TableStarts(r, mapping[..]);
    for i := 0 to nodes.Length
      invariant counter <= i && Table(r, mapping[..], nimap.idToName, counter)
      invariant Mapped(mapping[..], before, nodes[..], i)
    {
      var globalId := nodes[i].param0;
      var id: u16;
      ghost var table := mapping[..];
      if mapping[globalId] != NO_MAPPING {
        id := mapping[globalId];
      } else {
        TableGrows(r, mapping[..], nimap.idToName, counter, globalId);
        id := counter;
        counter := counter + 1;
        mapping[globalId] := id;
        assert mapping[..] == table[globalId := id];
        nimap.Set(id, r.Name(globalId));
      }
      ghost var was := nodes[..];
      nodes[i] := nodes[i].(param0 := id);
      assert nodes[..] == was[i := was[i].(param0 := id)];
    }
    MappedIsRenumbered(r, mapping[..], nimap.idToName, counter, before, nodes[..]);
    TableIds(r, mapping[..], nimap.idToName, counter);
    count := counter;
  }

  lemma TableStarts(r: Registry, mapping: seq<u16>)
    requires |mapping| == 0x1_0000 && forall g :: 0 <= g < |mapping| ==> mapping[g] == NO_MAPPING
    ensures Table(r, mapping, map[], 0)
  {}

  lemma TableIds(r: Registry, mapping: seq<u16>, nimap: map<u16, string>, count: nat)
    requires Table(r, mapping, nimap, count)
    ensures forall id: u16 :: id in nimap <==> id < count
  {}

  // ---------------------------------------------------------------- loading

  /** correctBlockNodeIds: remembering the last id gives what a lookup for every node gives. */
  method CorrectBlockNodeIds(nimap: NameIdMapping, nodes: array<MapNode>, r: Registry) returns (after: Registry)
    requires r.Valid() && NamesNonEmpty(nimap.idToName)
    modifies nodes
    ensures (after, nodes[..]) == LookedAll(nimap.idToName, r, old(nodes[..]))
  {
    hide Registry.Resolve, Registry.Valid, Registry.Extends;
    after := r;
    var previousExists := false;
    var previousLocal: u16, previousGlobal: u16 := 0, 0;
    ghost var before := nodes[..];
    assert nodes[..0] == [] && before[..0] == [];
    for i := 0 to nodes.Length
      invariant after.Valid() && (after, nodes[..i]) == LookedAll(nimap.idToName, r, before[..i])
      invariant forall j :: i <= j < nodes.Length ==> nodes[j] == before[j]
      invariant previousExists ==>
        previousLocal in nimap.idToName && after.Resolve(nimap.idToName[previousLocal]) == (after, Some(previousGlobal))
    {
      var localId := nodes[i].param0;
      LookedLast(nimap.idToName, r, before, i);
      ghost var done := nodes[..i];
      if previousExists && localId == previousLocal {
        nodes[i] := nodes[i].(param0 := previousGlobal);
      } else {
        var found, name := nimap.GetName(localId);
        if !found {
          previousExists := false;
        } else {
          ResolveMeaning(after, name);
          var (next, id) := after.Resolve(name);
          after := next;
          if id.None? {
            previousExists := false;
          } else {
            nodes[i] := nodes[i].(param0 := id.value);
            previousLocal, previousGlobal, previousExists := localId, id.value, true;
          }
        }
      }
      assert nodes[..i + 1] == done + [nodes[i]];
    }
    assert nodes[..nodes.Length] == nodes[..] && before[..nodes.Length] == before;
  }

  lemma LookedLast(nimap: map<u16, string>, r: Registry, nodes: seq<MapNode>, i: nat)
    requires i < |nodes|
    ensures var (before, done) := LookedAll(nimap, r, nodes[..i]);
      var (after, node) := Looked(nimap, before, nodes[i]);
      LookedAll(nimap, r, nodes[..i + 1]) == (after, done + [node])
  {
    assert nodes[..i + 1][..i] == nodes[..i];
  }

  // ---------------------------------------------------------------- layout

  const SER_FMT_VER_HIGHEST_READ := 29

  function HighByte(x: u16): u8 {
    x / 0x100
  }

  function LowByte(x: u16): u8 {
    x % 0x100
  }

  // Plane of 2-byte ids, high byte first, for the first k nodes.
  ghost predicate IdPlane(buf: seq<u8>, nodes: seq<MapNode>, k: nat) {
    && k <= |nodes| && 2 * k <= |buf|
    && forall i :: 0 <= i < k ==> buf[2 * i] == HighByte(nodes[i].param0) && buf[2 * i + 1] == LowByte(nodes[i].param0)
  }

  ghost predicate Param1Plane(buf: seq<u8>, start: nat, nodes: seq<MapNode>, k: nat) {
    k <= |nodes| && start + k <= |buf| && forall i :: 0 <= i < k ==> buf[start + i] == nodes[i].param1
  }

  ghost predicate Param2Plane(buf: seq<u8>, start: nat, nodes: seq<MapNode>, k: nat) {
    k <= |nodes| && start + k <= |buf| && forall i :: 0 <= i < k ==> buf[start + i] == nodes[i].param2
  }

  // Three planes: the ids, then all param1, then all param2.
  ghost predicate Layout(buf: seq<u8>, nodes: seq<MapNode>) {
    var n := |nodes|;
    |buf| == 4 * n && IdPlane(buf, nodes, n) && Param1Plane(buf, 2 * n, nodes, n) && Param2Plane(buf, 3 * n, nodes, n)
  }

  lemma IdBytes(x: u16, high: u8, low: u8)
    ensures x == (high as int) * 256 + low as int <==> high == HighByte(x) && low == LowByte(x)
  {}

  /** The ids stand in front, two bytes each with the high one first, then all param1, then all param2. */
  lemma LayoutMeaning(buf: seq<u8>, nodes: seq<MapNode>)
    ensures var n := |nodes|;
      Layout(buf, nodes) <==> |buf| == 4 * n && forall i :: 0 <= i < n ==>
        nodes[i].param0 as int == (buf[2 * i] as int) * 256 + buf[2 * i + 1] as int && nodes[i].param1 == buf[2 * n + i] && nodes[i].param2 == buf[3 * n + i]
  {
    hide HighByte, LowByte;
    if |buf| == 4 * |nodes| {
      forall i | 0 <= i < |nodes|
        ensures nodes[i].param0 as int == (buf[2 * i] as int) * 256 + buf[2 * i + 1] as int
          <==> buf[2 * i] == HighByte(nodes[i].param0) && buf[2 * i + 1] == LowByte(nodes[i].param0)
      {
        IdBytes(nodes[i].param0, buf[2 * i], buf[2 * i + 1]);
      }
    }
  }

  /** A buffer holds one sequence of nodes. */
  lemma LayoutIsUnique(buf: seq<u8>, a: seq<MapNode>, b: seq<MapNode>)
    requires Layout(buf, a) && Layout(buf, b)
    ensures a == b
  {
    LayoutMeaning(buf, a);
    LayoutMeaning(buf, b);
    assert forall i :: 0 <= i < |a| ==> a[i] == b[i];
  }

  // ---------------------------------------------------------------- writing

  method WriteIds(buf: array<u8>, nodes: array<MapNode>)
    requires 2 * nodes.Length <= buf.Length
    modifies buf
    ensures IdPlane(buf[..], nodes[..], nodes.Length)
  {
    hide HighByte, LowByte;
    var p := 0;
    for i := 0 to nodes.Length
      invariant p == 2 * i
      invariant forall j :: 0 <= j < i ==> buf[2 * j] == HighByte(nodes[j].param0) && buf[2 * j + 1] == LowByte(nodes[j].param0)
    {
      buf[p] := HighByte(nodes[i].param0);
      buf[p + 1] := LowByte(nodes[i].param0);
      p := p + 2;
    }
  }

  method WriteParam1(buf: array<u8>, start: nat, nodes: array<MapNode>)
    requires start + nodes.Length <= buf.Length
    modifies buf
    ensures Param1Plane(buf[..], start, nodes[..], nodes.Length) && buf[..start] == old(buf[..start])
  {
    var p := start;
    for i := 0 to nodes.Length
      invariant p == start + i && buf[..start] == old(buf[..start])
      invariant forall j :: 0 <= j < i ==> buf[start + j] == nodes[j].param1
    {
      buf[p] := nodes[i].param1;
      p := p + 1;
    }
  }

  method WriteParam2(buf: array<u8>, start: nat, nodes: array<MapNode>)
    requires start + nodes.Length <= buf.Length
    modifies buf
    ensures Param2Plane(buf[..], start, nodes[..], nodes.Length) && buf[..start] == old(buf[..start])
  {
    var p := start;
    for i := 0 to nodes.Length
      invariant p == start + i && buf[..start] == old(buf[..start])
      invariant forall j :: 0 <= j < i ==> buf[start + j] == nodes[j].param2
    {
      buf[p] := nodes[i].param2;
      p := p + 1;
    }
  }

  // What was written in front stays.
  lemma FrontStays(before: seq<u8>, after: seq<u8>, m: nat, nodes: seq<MapNode>)
    requires m <= |before| == |after| && before[..m] == after[..m]
    ensures 2 * |nodes| <= m && IdPlane(before, nodes, |nodes|) ==> IdPlane(after, nodes, |nodes|)
    ensures 3 * |nodes| <= m && Param1Plane(before, 2 * |nodes|, nodes, |nodes|) ==> Param1Plane(after, 2 * |nodes|, nodes, |nodes|)
  {
    hide HighByte, LowByte;
    assert forall i :: 0 <= i < m ==> after[i] == after[..m][i] == before[..m][i] == before[i];
  }

  /** serializeBulk. */
  method SerializeBulk(nodes: array<MapNode>) returns (buf: array<u8>)
    ensures fresh(buf) && Layout(buf[..], nodes[..])
  {
    hide IdPlane, Param1Plane, Param2Plane;
    var n := nodes.Length;
    buf := new u8[n * 4];
    WriteIds(buf, nodes);
    ghost var ids := buf[..];
    WriteParam1(buf, 2 * n, nodes);
    FrontStays(ids, buf[..], 2 * n, nodes[..]);
    ghost var front := buf[..];
    WriteParam2(buf, 3 * n, nodes);
    assert front[..2 * n] == front[..3 * n][..2 * n] == buf[..3 * n][..2 * n] == buf[..2 * n];
    FrontStays(front, buf[..], 3 * n, nodes[..]);
  }

  // ---------------------------------------------------------------- reading

  // A node of the old layout: one byte of id, and for ids above 0x7F the upper half of param2 as well.
  function OldNode(id: u8, param1: u8, param2: u8): MapNode {
    if id > 0x7F then MapNode(id * 0x10 + param2 / 0x10, param1, param2 % 0x10) else MapNode(id, param1, param2)
  }

  /** A large id takes twelve of the sixteen bits of the id byte and param2, and none of those numbers is a small id. */
  lemma OldNodeMeaning(id: u8, param1: u8, param2: u8)
    ensures var node := OldNode(id, param1, param2);
      && node.param1 == param1
      && (id < 128 ==> node.param0 == id && node.param2 == param2)
      && (id >= 128 ==> node.param0 * 16 + node.param2 == id * 256 + param2 && node.param2 < 16 && node.param0 >= 2048)
  {
    assert id >= 128 ==> param2 == param2 / 16 * 16 + param2 % 16;
  }

  ghost predicate OldLayout(buf: seq<u8>, nodes: seq<MapNode>) {
    var n := |nodes|;
    |buf| == 3 * n && forall i :: 0 <= i < n ==> nodes[i] == OldNode(buf[i], buf[n + i], buf[2 * n + i])
  }

  method ReadIds(buf: array<u8>, nodes: array<MapNode>)
    requires 2 * nodes.Length <= buf.Length
    modifies nodes
    ensures IdPlane(buf[..], nodes[..], nodes.Length)
  {
    hide HighByte, LowByte;
    for i := 0 to nodes.Length
      invariant forall j :: 0 <= j < i ==> buf[2 * j] == HighByte(nodes[j].param0) && buf[2 * j + 1] == LowByte(nodes[j].param0)
    {
      BytesOf(buf[2 * i], buf[2 * i + 1]);
      nodes[i] := nodes[i].(param0 := buf[2 * i] as int * 0x100 + buf[2 * i + 1] as int);
    }
  }

  method ReadOldIds(buf: array<u8>, nodes: array<MapNode>)
    requires nodes.Length <= buf.Length
    modifies nodes
    ensures forall j :: 0 <= j < nodes.Length ==> nodes[j].param0 == buf[j]
  {
    for i := 0 to nodes.Length
      invariant forall j :: 0 <= j < i ==> nodes[j].param0 == buf[j]
    {
      nodes[i] := nodes[i].(param0 := buf[i]);
    }
  }

  method ReadParam1(buf: array<u8>, start: nat, nodes: array<MapNode>)
    requires start + nodes.Length <= buf.Length
    modifies nodes
    ensures forall j :: 0 <= j < nodes.Length ==> nodes[j] == old(nodes[j]).(param1 := buf[start + j])
  {
    for i := 0 to nodes.Length
      invariant forall j :: 0 <= j < i ==> nodes[j] == old(nodes[j]).(param1 := buf[start + j])
      invariant forall j :: i <= j < nodes.Length ==> nodes[j] == old(nodes[j])
    {
      nodes[i] := nodes[i].(param1 := buf[start + i]);
    }
  }

  method ReadParam2(buf: array<u8>, start: nat, nodes: array<MapNode>)
    requires start + nodes.Length <= buf.Length
    modifies nodes
    ensures forall j :: 0 <= j < nodes.Length ==> nodes[j] == old(nodes[j]).(param2 := buf[start + j])
  {
    for i := 0 to nodes.Length
      invariant forall j :: 0 <= j < i ==> nodes[j] == old(nodes[j]).(param2 := buf[start + j])
      invariant forall j :: i <= j < nodes.Length ==> nodes[j] == old(nodes[j])
    {
      nodes[i] := nodes[i].(param2 := buf[start + i]);
    }
  }

  // The last plane of the old layout; large ids take over half a byte of it.
  method ReadOldParam2(buf: array<u8>, start: nat, nodes: array<MapNode>)
    requires start + nodes.Length <= buf.Length && forall j :: 0 <= j < nodes.Length ==> nodes[j].param0 < 0x100
    modifies nodes
    ensures forall j :: 0 <= j < nodes.Length ==> nodes[j] == OldNode(old(nodes[j]).param0, old(nodes[j]).param1, buf[start + j])
  {
    hide OldNode;
    for i := 0 to nodes.Length
      invariant forall j :: 0 <= j < i ==> nodes[j] == OldNode(old(nodes[j]).param0, old(nodes[j]).param1, buf[start + j])
      invariant forall j :: i <= j < nodes.Length ==> nodes[j] == old(nodes[j])
    {
      OldNodeParts(nodes[i].param0, nodes[i].param1, buf[start + i]);
      nodes[i] := nodes[i].(param2 := buf[start + i]);
      if nodes[i].param0 > 0x7F {
        nodes[i] := nodes[i].(param0 := nodes[i].param0 * 0x10 + nodes[i].param2 / 0x10);
        nodes[i] := nodes[i].(param2 := nodes[i].param2 % 0x10);
      }
    }
  }

  lemma OldNodeParts(id: u8, param1: u8, param2: u8)
    ensures id * 0x10 + param2 / 0x10 < 0x1000
    ensures OldNode(id, param1, param2) ==
      if id > 0x7F then MapNode(id * 0x10 + param2 / 0x10, param1, param2 % 0x10) else MapNode(id, param1, param2)
  {}

  /** deSerializeBulk: the nodes laid out in the buffer, in the layout of the content width; it throws for other widths. */
  method DeSerializeBulk(buf: array<u8>, version: nat, nodes: array<MapNode>, contentWidth: nat, paramsWidth: nat) returns (ok: bool)
    requires buf.Length == nodes.Length * (contentWidth + paramsWidth)
    modifies nodes
    ensures ok <==> 22 <= version <= 29 && (contentWidth == 1 || contentWidth == 2) && paramsWidth == 2
    ensures ok ==> if contentWidth == 1 then OldLayout(buf[..], nodes[..]) else Layout(buf[..], nodes[..])
    ensures !ok ==> nodes[..] == old(nodes[..])
  {
    hide HighByte, LowByte, OldNode;
    if version > SER_FMT_VER_HIGHEST_READ || version < 22 || (contentWidth != 1 && contentWidth != 2) || paramsWidth != 2 {
      return false;
    }
    var n := nodes.Length;
    if contentWidth == 1 {
      ReadOldIds(buf, nodes);
    } else {
      ReadIds(buf, nodes);
    }
    var start1 := contentWidth * n;
    ReadParam1(buf, start1, nodes);
    var start2 := (contentWidth + 1) * n;
    if contentWidth == 1 {
      ReadOldParam2(buf, start2, nodes);
    } else {
      ReadParam2(buf, start2, nodes);
    }
    ok := true;
  }

  lemma BytesOf(high: u8, low: u8)
    ensures var x := high as int * 0x100 + low as int; x < 0x1_0000 && HighByte(x) == high && LowByte(x) == low
  {}

  // ---------------------------------------------------------------- round trip

  /**
   A block saved under one registry and loaded under another, with room for its names there, has every
   node's name, param1 and param2.
   */
  lemma SavedBlockLoads(r1: Registry, r2: Registry, nodes: seq<MapNode>, saved: seq<MapNode>, nimap: map<u16, string>,
                        buf: seq<u8>, loaded: seq<MapNode>)
    requires r1.Valid() && r2.Valid() && |nimap| <= |Free(r2)|
    requires Renumbered(r1, nodes, saved, nimap) && NamesNonEmpty(nimap)
    requires Layout(buf, saved) && Layout(buf, loaded)
    ensures |loaded| == |nodes|
    ensures var (r, done) := LookedAll(nimap, r2, loaded);
      forall i :: 0 <= i < |nodes| ==>
        r.Name(done[i].param0) == r1.Name(nodes[i].param0) && done[i].param1 == nodes[i].param1 && done[i].param2 == nodes[i].param2
  {
    LayoutIsUnique(buf, saved, loaded);
    RoomSuffices(nimap, r2, loaded);
    LookedAllMeaning(nimap, r2, loaded, LookedAll(nimap, r2, loaded).0);
    ExtendsSelf(LookedAll(nimap, r2, loaded).0);
    hide LookedAll, Layout;
    var (r, done) := LookedAll(nimap, r2, loaded);
    assert forall i :: 0 <= i < |nodes| ==> Gets(nimap, r, loaded[i], done[i]);
  }
}
