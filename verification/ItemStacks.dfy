/**
 Stack arithmetic of src/inventory.cpp and src/inventory.h, and the two-pass, one-pass and backward
 walks over the slots of a list.
 */
module ItemStacks {
  import opened Basics
  import opened Items

  // Items are counted by name and metadata; wear belongs to the stack.
  datatype Kind = Kind(name: string, metadata: Metadata)

  function KindOf(s: ItemStack): Kind {
    Kind(s.name, s.metadata)
  }

  function FreeSpace(idef: ItemDefManager, s: ItemStack): u16 {
    var max := idef.Get(s.name).stackMax;
    if s.count >= max then 0 else max - s.count
  }

  function Removed(s: ItemStack, n: u16): ItemStack
    requires n <= s.count
  {
    if n == s.count then NO_ITEM else s.(count := s.count - n)
  }

  // ItemStack::addItem: the stack afterwards and what is left over.
  function Stacked(idef: ItemDefManager, s: ItemStack, item: ItemStack): (r: (ItemStack, ItemStack))
    ensures r.1.count <= item.count
  {
    if item.Empty() then (s, item)
    else if s.Empty() then (item, NO_ITEM)
    else if KindOf(s) != KindOf(item) then (s, item)
    else if item.count <= FreeSpace(idef, s) then (s.(count := s.count + item.count), NO_ITEM)
    else
      var free := FreeSpace(idef, s);
      (s.(count := s.count + free), Removed(item, free))
  }

  // ItemStack::itemFits: what would be left over.
  function LeftOver(idef: ItemDefManager, s: ItemStack, item: ItemStack): ItemStack {
    if item.Empty() then item
    else if s.Empty() then NO_ITEM
    else if KindOf(s) != KindOf(item) then item
    else if item.count <= FreeSpace(idef, s) then NO_ITEM
    else Removed(item, FreeSpace(idef, s))
  }

  // ItemStack::takeItem: the stack afterwards and what was taken.
  function Taken(s: ItemStack, n: nat): (r: (ItemStack, ItemStack)) {
    if n == 0 || s.count == 0 then (s, NO_ITEM)
    else if n >= s.count then (NO_ITEM, s)
    else (Removed(s, n), s.(count := n))
  }

  // How many items of a kind a stack holds.
  function Holds(s: ItemStack, kind: Kind): nat {
    if s.count > 0 && s.name == kind.name && s.metadata == kind.metadata then s.count else 0
  }

  // The test and the operation agree, nothing is lost, and only a full or foreign stack turns items away.
  lemma StackedMeaning(idef: ItemDefManager, s: ItemStack, item: ItemStack)
    ensures var (after, left) := Stacked(idef, s, item);
      && left == LeftOver(idef, s, item)
      && (forall kind :: Holds(after, kind) + Holds(left, kind) == Holds(s, kind) + Holds(item, kind))
      && (left == item <==> after == s)
      && (s.count > 0 && item.count > 0 && (s.name != item.name || s.metadata != item.metadata) ==> after == s && left == item)
      && (left.count > 0 ==>
          && left.name == item.name && left.metadata == item.metadata && left.wear == item.wear && s.count > 0
          && (s.name == item.name && s.metadata == item.metadata ==> FreeSpace(idef, after) == 0 && left.count == item.count - FreeSpace(idef, s)))
  {}

  lemma TakenMeaning(s: ItemStack, n: nat)
    ensures var (rest, got) := Taken(s, n);
      && (forall kind :: Holds(rest, kind) + Holds(got, kind) == Holds(s, kind))
      && got.count == (if n < s.count then n else s.count) && rest.count + got.count == s.count
      && (got.count > 0 ==> got == s.(count := got.count))
      && (got.count == 0 <==> rest == s)
      && (rest.count > 0 ==> rest == s.(count := rest.count))
  {}

  // ---------------------------------------------------------------- totals

  function Total(items: seq<ItemStack>, kind: Kind): nat {
    if items == [] then 0 else Total(items[..|items| - 1], kind) + Holds(items[|items| - 1], kind)
  }

  lemma {:induction false} TotalUpdate(items: seq<ItemStack>, i: nat, s: ItemStack, kind: Kind)
    requires i < |items|
    ensures Total(items[i := s], kind) == Total(items, kind) - Holds(items[i], kind) + Holds(s, kind)
  {
    var n := |items| - 1;
    if i == n {
      assert items[i := s][..n] == items[..n];
    } else {
      assert items[i := s][..n] == items[..n][i := s];
      TotalUpdate(items[..n], i, s, kind);
    }
  }

  // ---------------------------------------------------------------- adding to a list

  // One pass from slot i: over the empty slots only, or over the others only.
  function Pass(idef: ItemDefManager, items: seq<ItemStack>, item: ItemStack, i: nat, empties: bool): (r: (seq<ItemStack>, ItemStack))
    requires i <= |items|
    ensures |r.0| == |items| && r.1.count <= item.count
    decreases |items| - i
  {
    if i == |items| || item.Empty() then (items, item)
    else if items[i].Empty() != empties then Pass(idef, items, item, i + 1, empties)
    else
      var (slot, left) := Stacked(idef, items[i], item);
      Pass(idef, items[i := slot], left, i + 1, empties)
  }

  // InventoryList::addItem: first onto what is there, then into empty slots.
  function AddedTo(idef: ItemDefManager, items: seq<ItemStack>, item: ItemStack): (r: (seq<ItemStack>, ItemStack))
    ensures |r.0| == |items| && r.1.count <= item.count
  {
    var (after, left) := Pass(idef, items, item, 0, false);
    Pass(idef, after, left, 0, true)
  }

  lemma {:induction false} PassConserves(idef: ItemDefManager, items: seq<ItemStack>, item: ItemStack, i: nat, empties: bool, kind: Kind)
    requires i <= |items|
    ensures var (after, left) := Pass(idef, items, item, i, empties);
      && Total(after, kind) + Holds(left, kind) == Total(items, kind) + Holds(item, kind)
      && (!left.Empty() ==> KindOf(left) == KindOf(item) && left.wear == item.wear)
      && (if left == item then after == items else left.count < item.count)
    decreases |items| - i
  {
    if i == |items| || item.Empty() {
    } else if items[i].Empty() != empties {
      PassConserves(idef, items, item, i + 1, empties, kind);
    } else {
      var (slot, left) := Stacked(idef, items[i], item);
      StackedMeaning(idef, items[i], item);
      TotalUpdate(items, i, slot, kind);
      PassConserves(idef, items[i := slot], left, i + 1, empties, kind);
    }
  }

  /**
   Adding conserves every kind; what is left over is of the item's kind; the list is unchanged when
   nothing was added.
   */
  lemma AddedConserves(idef: ItemDefManager, items: seq<ItemStack>, item: ItemStack, kind: Kind)
    ensures var (after, left) := AddedTo(idef, items, item);
      && Total(after, kind) + Holds(left, kind) == Total(items, kind) + Holds(item, kind)
      && (!left.Empty() ==> KindOf(left) == KindOf(item) && left.wear == item.wear)
      && (if left == item then after == items else left.count < item.count)
  {
    var (mid, rest) := Pass(idef, items, item, 0, false);
    PassConserves(idef, items, item, 0, false, kind);
    PassConserves(idef, mid, rest, 0, true, kind);
  }

  // ---------------------------------------------------------------- how slots are filled

  // The definition's stack size, or that of unknown items.
  ghost function StackMax(idef: ItemDefManager, name: string): nat {
    var resolved := if name in idef.aliases then idef.aliases[name] else name;
    if resolved in idef.definitions then idef.definitions[resolved].stackMax else idef.unknown.stackMax
  }

  ghost predicate Occupied(s: ItemStack, kind: Kind) {
    s.count > 0 && s.name == kind.name && s.metadata == kind.metadata
  }

  ghost predicate Full(idef: ItemDefManager, s: ItemStack) {
    s.count >= StackMax(idef, s.name)
  }

  // A stack that grew, to its stack size at most; one that was larger before stays as it is.
  ghost predicate Grew(idef: ItemDefManager, before: ItemStack, after: ItemStack) {
    && after == before.(count := after.count) && before.count <= after.count
    && (after.count == before.count || after.count <= StackMax(idef, before.name))
  }

  // From slot i, stacks of the kind grew in order, each only when those before it are full; nothing else changed.
  ghost predicate GrewInOrder(idef: ItemDefManager, before: seq<ItemStack>, after: seq<ItemStack>, kind: Kind, i: nat) {
    && |after| == |before|
    && (forall k :: 0 <= k < |before| ==> if i <= k && Occupied(before[k], kind) then Grew(idef, before[k], after[k]) else after[k] == before[k])
    && (forall k, l :: i <= k < l < |before| && Occupied(before[k], kind) && Occupied(before[l], kind) && after[l] != before[l] ==>
          Full(idef, after[k]))
  }

  ghost predicate AllFull(idef: ItemDefManager, items: seq<ItemStack>, kind: Kind, i: nat) {
    forall k :: i <= k < |items| && Occupied(items[k], kind) ==> Full(idef, items[k])
  }

  lemma StackedGrows(idef: ItemDefManager, s: ItemStack, item: ItemStack)
    requires s.count > 0 && item.count > 0
    ensures var (after, left) := Stacked(idef, s, item);
      if Occupied(s, KindOf(item)) then Grew(idef, s, after) && (left.count > 0 ==> Full(idef, after) && KindOf(left) == KindOf(item))
      else after == s && left == item
  {}

  lemma {:induction false} FirstPassGrows(idef: ItemDefManager, items: seq<ItemStack>, item: ItemStack, i: nat)
    requires i <= |items|
    ensures var (after, left) := Pass(idef, items, item, i, false);
      GrewInOrder(idef, items, after, KindOf(item), i) && (left.count > 0 ==> AllFull(idef, after, KindOf(item), i))
    decreases |items| - i
  {
    hide Stacked, StackMax, Grew, Full, GrewInOrder, AllFull, Occupied;
    if i == |items| || item.Empty() {
      NothingGrew(idef, items, KindOf(item), i);
    } else if items[i].Empty() {
      FirstPassGrows(idef, items, item, i + 1);
      SkipsEmpty(idef, items, Pass(idef, items, item, i, false).0, KindOf(item), i);
    } else {
      var (slot, left) := Stacked(idef, items[i], item);
      StackedGrows(idef, items[i], item);
      if left.count > 0 {
        FirstPassGrows(idef, items[i := slot], left, i + 1);
        GrewBefore(idef, items, Pass(idef, items, item, i, false).0, KindOf(item), i, slot);
      } else {
        assert Pass(idef, items[i := slot], left, i + 1, false) == (items[i := slot], left);
        GrewLast(idef, items, KindOf(item), i, slot);
      }
    }
  }

  lemma NothingGrew(idef: ItemDefManager, items: seq<ItemStack>, kind: Kind, i: nat)
    ensures GrewInOrder(idef, items, items, kind, i) && (i >= |items| ==> AllFull(idef, items, kind, i))
  {
    hide StackMax;
  }

  lemma SkipsEmpty(idef: ItemDefManager, before: seq<ItemStack>, after: seq<ItemStack>, kind: Kind, i: nat)
    requires i < |before| && before[i].count == 0 && GrewInOrder(idef, before, after, kind, i + 1)
    ensures GrewInOrder(idef, before, after, kind, i) && (AllFull(idef, after, kind, i + 1) ==> AllFull(idef, after, kind, i))
  {
    hide StackMax, Grew;
  }

  lemma GrewLast(idef: ItemDefManager, before: seq<ItemStack>, kind: Kind, i: nat, slot: ItemStack)
    requires i < |before| && if Occupied(before[i], kind) then Grew(idef, before[i], slot) else slot == before[i]
    ensures GrewInOrder(idef, before, before[i := slot], kind, i)
  {
    hide StackMax;
  }

  // One slot, full if it is of the kind, and those behind it.
  lemma GrewBefore(idef: ItemDefManager, before: seq<ItemStack>, after: seq<ItemStack>, kind: Kind, i: nat, slot: ItemStack)
    requires i < |before| && GrewInOrder(idef, before[i := slot], after, kind, i + 1)
    requires if Occupied(before[i], kind) then Grew(idef, before[i], slot) && Full(idef, slot) else slot == before[i]
    ensures GrewInOrder(idef, before, after, kind, i)
    ensures AllFull(idef, after, kind, i + 1) ==> AllFull(idef, after, kind, i)
  {
    hide StackMax, Grew, Full;
    assert after[i] == slot;
  }

  ghost predicate FirstEmpty(items: seq<ItemStack>, i: nat, k: nat) {
    i <= k < |items| && items[k].count == 0 && forall l :: i <= l < k ==> items[l].count > 0
  }

  // The first empty slot takes all there is.
  ghost predicate PutInFirstEmpty(before: seq<ItemStack>, after: seq<ItemStack>, item: ItemStack, left: ItemStack, i: nat) {
    if item.count == 0 || (forall k :: i <= k < |before| ==> before[k].count > 0) then after == before && left == item
    else left.count == 0 && exists k :: i <= k < |before| && FirstEmpty(before, i, k) && after == before[k := item]
  }

  lemma {:induction false} SecondPassPuts(idef: ItemDefManager, items: seq<ItemStack>, item: ItemStack, i: nat)
    requires i <= |items|
    ensures var (after, left) := Pass(idef, items, item, i, true); PutInFirstEmpty(items, after, item, left, i)
    decreases |items| - i
  {
    if i == |items| || item.Empty() {
    } else if items[i].Empty() {
      assert Stacked(idef, items[i], item) == (item, NO_ITEM);
      assert Pass(idef, items[i := item], NO_ITEM, i + 1, true) == (items[i := item], NO_ITEM);
      assert FirstEmpty(items, i, i);
    } else {
      SecondPassPuts(idef, items, item, i + 1);
      var next := i + 1;
      if k: nat :| FirstEmpty(items, next, k) {
        assert FirstEmpty(items, i, k);
      }
    }
  }

  /**
   Adding fills stacks of the kind in order, each to its stack size; what then remains goes to the first empty slot as a
   whole, and only without one is anything left over.
   */
  ghost predicate FillsUp(idef: ItemDefManager, before: seq<ItemStack>, item: ItemStack, after: seq<ItemStack>, left: ItemStack) {
    exists mid: seq<ItemStack>, rest: ItemStack :: FillsBy(idef, before, item, mid, rest) && PutInFirstEmpty(mid, after, rest, left, 0)
  }

  // What the stacks of the kind become, and what is left for an empty slot.
  ghost predicate FillsBy(idef: ItemDefManager, before: seq<ItemStack>, item: ItemStack, mid: seq<ItemStack>, rest: ItemStack) {
    && GrewInOrder(idef, before, mid, KindOf(item), 0)
    && (rest.count > 0 ==> AllFull(idef, mid, KindOf(item), 0) && KindOf(rest) == KindOf(item) && rest.wear == item.wear)
  }

  lemma AddedFillsUp(idef: ItemDefManager, items: seq<ItemStack>, item: ItemStack)
    ensures FillsUp(idef, items, item, AddedTo(idef, items, item).0, AddedTo(idef, items, item).1)
  {
    var (mid, rest) := Pass(idef, items, item, 0, false);
    FirstPassGrows(idef, items, item, 0);
    PassConserves(idef, items, item, 0, false, KindOf(item));
    SecondPassPuts(idef, mid, rest, 0);
    assert FillsBy(idef, items, item, mid, rest);
  }

  /**
   No occupied slot grows beyond the larger of its count and its stack size; items are left over only when no slot is
   empty and every one of the kind is full; an empty slot is used only when every one of the kind is full.
   */
  lemma FillsUpMeaning(idef: ItemDefManager, before: seq<ItemStack>, item: ItemStack, after: seq<ItemStack>, left: ItemStack)
    requires FillsUp(idef, before, item, after, left)
    ensures |after| == |before|
    ensures forall k :: 0 <= k < |before| && before[k].count > 0 ==>
      && before[k].count <= after[k].count && (after[k].count > before[k].count ==> after[k].count <= StackMax(idef, before[k].name))
    ensures left.count > 0 ==> forall k :: 0 <= k < |before| ==> before[k].count > 0 && (Occupied(before[k], KindOf(item)) ==> Full(idef, after[k]))
    ensures (exists e :: 0 <= e < |before| && before[e].count == 0 && after[e].count > 0) ==>
      forall k :: 0 <= k < |before| && Occupied(before[k], KindOf(item)) ==> Full(idef, after[k])
  {
    hide StackMax;
    var mid: seq<ItemStack>, rest: ItemStack :| FillsBy(idef, before, item, mid, rest) && PutInFirstEmpty(mid, after, rest, left, 0);
    assert forall k :: 0 <= k < |before| && before[k].count > 0 ==> after[k] == mid[k];
    assert forall k :: 0 <= k < |before| && Occupied(before[k], KindOf(item)) ==> Occupied(mid[k], KindOf(item));
  }

  // ---------------------------------------------------------------- room

  predicate HasEmpty(items: seq<ItemStack>) {
    exists i :: 0 <= i < |items| && items[i].Empty()
  }

  // The free space of the occupied slots of a kind, from slot i.
  function Room(idef: ItemDefManager, items: seq<ItemStack>, kind: Kind, i: nat): nat
    requires i <= |items|
    decreases |items| - i
  {
    if i == |items| then 0
    else (if !items[i].Empty() && KindOf(items[i]) == kind then FreeSpace(idef, items[i]) else 0) + Room(idef, items, kind, i + 1)
  }

  lemma {:induction false} RoomBehind(idef: ItemDefManager, items: seq<ItemStack>, kind: Kind, i: nat, j: nat, s: ItemStack)
    requires i < j <= |items|
    ensures Room(idef, items[i := s], kind, j) == Room(idef, items, kind, j)
    decreases |items| - j
  {
    if j >= |items| {
    } else {
      RoomBehind(idef, items, kind, i, j + 1, s);
    }
  }

  function Excess(count: nat, room: nat): nat {
    if count <= room then 0 else count - room
  }

  // The first pass fills the occupied slots of the kind.
  lemma {:induction false} FirstPassFills(idef: ItemDefManager, items: seq<ItemStack>, item: ItemStack, i: nat)
    requires i <= |items|
    ensures Pass(idef, items, item, i, false).1.count == Excess(item.count, Room(idef, items, KindOf(item), i))
    ensures forall j :: 0 <= j < |items| ==> Pass(idef, items, item, i, false).0[j].Empty() == items[j].Empty()
    decreases |items| - i
  {
    if i == |items| || item.Empty() {
    } else if items[i].Empty() {
      FirstPassFills(idef, items, item, i + 1);
    } else {
      var (slot, left) := Stacked(idef, items[i], item);
      StackedMeaning(idef, items[i], item);
      RoomBehind(idef, items, KindOf(item), i, i + 1, slot);
      FirstPassFills(idef, items[i := slot], left, i + 1);
      assert !slot.Empty();
    }
  }

  // The second takes everything as soon as it finds an empty slot.
  lemma {:induction false} SecondPassFills(idef: ItemDefManager, items: seq<ItemStack>, item: ItemStack, i: nat)
    requires i <= |items|
    ensures Pass(idef, items, item, i, true).1.count == if HasEmpty(items[i..]) then 0 else item.count
    decreases |items| - i
  {
    if i >= |items| {
    } else {
      if item.Empty() {
      } else if items[i].Empty() {
        assert Stacked(idef, items[i], item) == (item, NO_ITEM);
        assert Pass(idef, items[i := item], NO_ITEM, i + 1, true).1 == NO_ITEM;
      } else {
        SecondPassFills(idef, items, item, i + 1);
      }
    }
  }

  /** What adding leaves over: nothing with an empty slot, otherwise what exceeds the room in stacks of the kind. */
  lemma AddedLeaves(idef: ItemDefManager, items: seq<ItemStack>, item: ItemStack)
    ensures AddedTo(idef, items, item).1.count == if HasEmpty(items) then 0 else Excess(item.count, Room(idef, items, KindOf(item), 0))
  {
    var (mid, rest) := Pass(idef, items, item, 0, false);
    FirstPassFills(idef, items, item, 0);
    SecondPassFills(idef, mid, rest, 0);
    assert mid[0..] == mid && items[0..] == items;
    if HasEmpty(items) {
      var j :| 0 <= j < |items| && items[j].Empty();
      assert mid[j].Empty();
    }
    if HasEmpty(mid) {
      var j :| 0 <= j < |mid| && mid[j].Empty();
      assert items[j].Empty();
    }
  }

  // InventoryList::roomForItem from slot i: one pass over all slots.
  predicate RoomFor(idef: ItemDefManager, items: seq<ItemStack>, item: ItemStack, i: nat)
    requires i <= |items|
    decreases |items| - i
  {
    if i == |items| then false
    else
      var left := LeftOver(idef, items[i], item);
      left.Empty() || RoomFor(idef, items, left, i + 1)
  }

  lemma {:induction false} RoomForMeaning(idef: ItemDefManager, items: seq<ItemStack>, item: ItemStack, i: nat)
    requires i <= |items| && !item.Empty()
    ensures RoomFor(idef, items, item, i) <==> HasEmpty(items[i..]) || item.count <= Room(idef, items, KindOf(item), i)
    decreases |items| - i
  {
    if i >= |items| {
    } else {
      var left := LeftOver(idef, items[i], item);
      StackedMeaning(idef, items[i], item);
      if !left.Empty() {
        RoomForMeaning(idef, items, left, i + 1);
      }
    }
  }

  /** The one-pass test is true exactly when the two-pass operation leaves nothing over. */
  lemma RoomForIsAddable(idef: ItemDefManager, items: seq<ItemStack>, item: ItemStack)
    requires !item.Empty()
    ensures RoomFor(idef, items, item, 0) <==> AddedTo(idef, items, item).1.Empty()
  {
    RoomForMeaning(idef, items, item, 0);
    AddedLeaves(idef, items, item);
    assert items[0..] == items;
  }

  // ---------------------------------------------------------------- removing from a list

  function OfName(s: ItemStack, name: string): nat {
    if s.name == name then s.count else 0
  }

  // The items of a name in the first i slots, whatever their metadata.
  function Named(items: seq<ItemStack>, name: string, i: nat): nat
    requires i <= |items|
  {
    if i == 0 then 0 else Named(items, name, i - 1) + OfName(items[i - 1], name)
  }

  lemma {:induction false} NamedUpdate(items: seq<ItemStack>, name: string, i: nat, k: nat, s: ItemStack)
    requires i <= |items| && k < |items|
    ensures Named(items[k := s], name, i)
      == if k < i then Named(items, name, i) - OfName(items[k], name) + OfName(s, name) else Named(items, name, i)
  {
    if i == 0 {
    } else {
      NamedUpdate(items, name, i - 1, k, s);
      NamedCovers(items, name, i - 1, k);
    }
  }

  lemma {:induction false} NamedCovers(items: seq<ItemStack>, name: string, i: nat, k: nat)
    requires i <= |items| && k < |items|
    ensures k < i ==> Named(items, name, i) >= OfName(items[k], name)
  {
    if k >= i {
    } else {
      NamedCovers(items, name, i - 1, k);
    }
  }

  // What a slot becomes when at most n items of a name are wanted, and what it gives.
  function TakenNamed(s: ItemStack, name: string, n: nat): (r: (ItemStack, ItemStack))
    ensures r.1.count <= n
  {
    if s.name == name then Taken(s, n) else (s, NO_ITEM)
  }

  // The stack, or a smaller one of a stack of that name.
  predicate Reduced(before: ItemStack, after: ItemStack, name: string) {
    after == before || (before.name == name && (after == NO_ITEM || (after.count < before.count && after == before.(count := after.count))))
  }

  lemma TakenNamedMeaning(s: ItemStack, name: string, n: nat)
    ensures var (slot, got) := TakenNamed(s, name, n);
      && Reduced(s, slot, name) && (got.count == 0 ==> slot == s)
      && OfName(slot, name) + got.count == OfName(s, name)
      && got.count == if n <= OfName(s, name) then n else OfName(s, name)
  {}

  // InventoryList::removeItem: from slot i - 1 down, at most n items.
  function RemovedFrom(items: seq<ItemStack>, name: string, n: nat, i: nat): (r: (seq<ItemStack>, nat))
    requires i <= |items|
    ensures |r.0| == |items| && r.1 <= n
    decreases i
  {
    if i == 0 || n == 0 then (items, 0)
    else
      var (slot, got) := TakenNamed(items[i - 1], name, n);
      var (after, more) := RemovedFrom(items[i - 1 := slot], name, n - got.count, i - 1);
      (after, got.count + more)
  }

  /** Removing takes the smaller of what is asked for and what is there, all of it of that name. */
  lemma {:induction false} RemovedCounts(items: seq<ItemStack>, name: string, n: nat, i: nat)
    requires i <= |items|
    ensures var (after, got) := RemovedFrom(items, name, n, i);
      && got == (if n <= Named(items, name, i) then n else Named(items, name, i))
      && Named(after, name, |items|) + got == Named(items, name, |items|)
    decreases i
  {
    hide TakenNamed, OfName, Reduced;
    if i == 0 || n == 0 {
    } else {
      var (slot, got) := TakenNamed(items[i - 1], name, n);
      TakenNamedMeaning(items[i - 1], name, n);
      NamedUpdate(items, name, i - 1, i - 1, slot);
      NamedUpdate(items, name, |items|, i - 1, slot);
      RemovedCounts(items[i - 1 := slot], name, n - got.count, i - 1);
    }
  }

  /** Every slot keeps its stack, or a smaller one if it is of that name; nothing changes if nothing was taken. */
  lemma {:induction false} RemovedSlots(items: seq<ItemStack>, name: string, n: nat, i: nat)
    requires i <= |items|
    ensures var (after, got) := RemovedFrom(items, name, n, i);
      && (forall k :: 0 <= k < |items| ==> if k < i then Reduced(items[k], after[k], name) else after[k] == items[k])
      && (got == 0 ==> after == items)
    decreases i
  {
    if i > 0 && n > 0 {
      var (slot, got) := TakenNamed(items[i - 1], name, n);
      TakenNamedMeaning(items[i - 1], name, n);
      hide TakenNamed;
      RemovedSlots(items[i - 1 := slot], name, n - got.count, i - 1);
    }
  }

  // InventoryList::containsItem, counting in the first i slots by name only or by kind.
  function MatchingCount(items: seq<ItemStack>, item: ItemStack, matchMeta: bool, i: nat): nat
    requires i <= |items|
  {
    if i == 0 then 0
    else
      var s := items[i - 1];
      MatchingCount(items, item, matchMeta, i - 1) + (if s.name == item.name && (!matchMeta || s.metadata == item.metadata) then s.count else 0)
  }

  lemma {:induction false} MatchingCountIsNamed(items: seq<ItemStack>, item: ItemStack, i: nat)
    requires i <= |items|
    ensures MatchingCount(items, item, false, i) == Named(items, item.name, i)
    ensures MatchingCount(items, item, true, i) == Total(items[..i], KindOf(item))
  {
    if i == 0 {
    } else {
      MatchingCountIsNamed(items, item, i - 1);
      assert items[..i][..i - 1] == items[..i - 1];
    }
  }

  /** A list contains an item, metadata aside, exactly when removing it gets the whole count. */
  lemma ContainsIsRemovable(items: seq<ItemStack>, item: ItemStack)
    ensures item.count <= MatchingCount(items, item, false, |items|) <==> RemovedFrom(items, item.name, item.count, |items|).1 == item.count
  {
    MatchingCountIsNamed(items, item, |items|);
    RemovedCounts(items, item.name, item.count, |items|);
  }
}
