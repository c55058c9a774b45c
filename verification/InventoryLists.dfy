/**
 A list of item stacks (class InventoryList of src/inventory.cpp): moving items between slots, within one
 list or between two, and the dirty flag.
 */
module InventoryLists {
  import opened Items
  import opened ItemStacks

  // ---------------------------------------------------------------- moving between two slots

  datatype Moved = Moved(source: ItemStack, target: ItemStack, moved: ItemStack, swapped: bool)

  // What is taken from a slot: everything when no number is given.
  function Wanted(s: ItemStack, count: nat): (ItemStack, ItemStack) {
    if count == 0 then (NO_ITEM, s) else Taken(s, count)
  }

  lemma WantedMeaning(s: ItemStack, count: nat)
    ensures var (rest, got) := Wanted(s, count);
      && rest.count + got.count == s.count && got.count == (if count == 0 || count > s.count then s.count else count)
      && (!got.Empty() ==> got == s.(count := got.count))
      && (!rest.Empty() ==> rest == s.(count := rest.count))
      && (forall kind :: Holds(rest, kind) + Holds(got, kind) == Holds(s, kind))
      && (got.Empty() <==> s.Empty())
  {
    TakenMeaning(s, count);
  }

  // A taken stack meets the target slot, which may not exist; what was not taken still stands in the source slot.
  function Placed(idef: ItemDefManager, rest: ItemStack, got: ItemStack, d: ItemStack, reachable: bool, swap: bool): Moved
    requires rest.count + got.count < 0x1_0000
  {
    var (slot, left) := if reachable then Stacked(idef, d, got) else (d, got);
    if left.Empty() then Moved(rest, slot, got, false)
    else
      var moved := Removed(got, left.count);
      var back := left.(count := left.count + rest.count);
      if moved.Empty() && swap then
        if reachable then Moved(d, back, back, true) else Moved(back, d, back, true)
      else Moved(back, slot, moved, false)
  }

  // InventoryList::moveItem between different slots.
  function MoveBetween(idef: ItemDefManager, s: ItemStack, d: ItemStack, reachable: bool, count: nat, swap: bool): Moved {
    WantedMeaning(s, count);
    Placed(idef, Wanted(s, count).0, Wanted(s, count).1, d, reachable, swap)
  }

  // How many items of a stack a slot takes.
  ghost function Capacity(idef: ItemDefManager, d: ItemStack, item: ItemStack): nat {
    if d.count == 0 then item.count
    else if d.name == item.name && d.metadata == item.metadata && d.count < StackMax(idef, d.name) then StackMax(idef, d.name) - d.count
    else 0
  }

  /** As many items as fit are moved; the stacks change places exactly when that is none. Every kind is conserved. */
  lemma MoveBetweenMeaning(idef: ItemDefManager, s: ItemStack, d: ItemStack, count: nat, swap: bool)
    ensures var (got, m) := (Wanted(s, count).1, MoveBetween(idef, s, d, true, count, swap));
      && (forall kind :: Holds(m.source, kind) + Holds(m.target, kind) == Holds(s, kind) + Holds(d, kind))
      && (m.swapped <==> swap && !got.Empty() && Capacity(idef, d, got) == 0)
      && (m.swapped ==> m.source == d && m.target == s && m.moved == s)
      && (!m.swapped ==>
          && m.moved.count == (if got.count < Capacity(idef, d, got) then got.count else Capacity(idef, d, got))
          && m.source.count + m.moved.count == s.count && m.target.count == d.count + m.moved.count)
  {
    hide Wanted, Stacked, Holds;
    var (rest, got) := Wanted(s, count);
    WantedMeaning(s, count);
    StackedMeaning(idef, d, got);
    StackedCapacity(idef, d, got);
    var m := MoveBetween(idef, s, d, true, count, swap);
    forall kind
      ensures Holds(m.source, kind) + Holds(m.target, kind) == Holds(s, kind) + Holds(d, kind)
    {
      var (slot, left) := Stacked(idef, d, got);
      if !left.Empty() {
        BackHolds(left, rest, s, kind);
      }
      HoldsNothing(left, kind);
    }
  }

  lemma HoldsNothing(s: ItemStack, kind: Kind)
    ensures s.Empty() ==> Holds(s, kind) == 0
  {}

  lemma BackHolds(left: ItemStack, rest: ItemStack, s: ItemStack, kind: Kind)
    requires !left.Empty() && KindOf(left) == KindOf(s) && left.count + rest.count <= s.count
    requires !rest.Empty() ==> KindOf(rest) == KindOf(s)
    ensures Holds(left.(count := left.count + rest.count), kind) == Holds(left, kind) + Holds(rest, kind)
  {}

  lemma StackedCapacity(idef: ItemDefManager, d: ItemStack, item: ItemStack)
    ensures var (slot, left) := Stacked(idef, d, item);
      && left.count == (if item.count <= Capacity(idef, d, item) then 0 else item.count - Capacity(idef, d, item))
      && slot.count + left.count == d.count + item.count
  {}

  // A target slot that does not exist changes nothing but a leftover name in an empty slot.
  lemma MoveNowhere(idef: ItemDefManager, s: ItemStack, d: ItemStack, count: nat, swap: bool)
    ensures var m := MoveBetween(idef, s, d, false, count, swap);
      m.target == d && (if s.Empty() then m.source.Empty() else m.source == s)
  {
    WantedMeaning(s, count);
  }

  // The target slot of a list, if it exists.
  function Target(items: seq<ItemStack>, j: nat): ItemStack {
    if j < |items| then items[j] else NO_ITEM
  }

  function Filled(items: seq<ItemStack>, j: nat, s: ItemStack): seq<ItemStack> {
    if j < |items| then items[j := s] else items
  }

  lemma MoveHolds(idef: ItemDefManager, s: ItemStack, d: ItemStack, reachable: bool, count: nat, swap: bool, kind: Kind)
    ensures var m := MoveBetween(idef, s, d, reachable, count, swap);
      if reachable then Holds(m.source, kind) + Holds(m.target, kind) == Holds(s, kind) + Holds(d, kind)
      else Holds(m.source, kind) == Holds(s, kind)
  {
    MoveBetweenMeaning(idef, s, d, count, swap);
    MoveNowhere(idef, s, d, count, swap);
  }

  // Moving between slots conserves every kind, within a list and across two.
  lemma MoveWithinConserves(idef: ItemDefManager, items: seq<ItemStack>, i: nat, j: nat, count: nat, swap: bool, kind: Kind)
    requires i < |items| && i != j
    ensures var m := MoveBetween(idef, items[i], Target(items, j), j < |items|, count, swap);
      Total(Filled(items[i := m.source], j, m.target), kind) == Total(items, kind)
  {
    var m := MoveBetween(idef, items[i], Target(items, j), j < |items|, count, swap);
    MoveHolds(idef, items[i], Target(items, j), j < |items|, count, swap, kind);
    hide Total, Holds, MoveBetween;
    TotalUpdate(items, i, m.source, kind);
    if j < |items| {
      TotalUpdate(items[i := m.source], j, m.target, kind);
    }
  }

  lemma MoveAcrossConserves(idef: ItemDefManager, source: seq<ItemStack>, dest: seq<ItemStack>, i: nat, j: nat, count: nat, swap: bool, kind: Kind)
    requires i < |source|
    ensures var m := MoveBetween(idef, source[i], Target(dest, j), j < |dest|, count, swap);
      Total(source[i := m.source], kind) + Total(Filled(dest, j, m.target), kind) == Total(source, kind) + Total(dest, kind)
  {
    var m := MoveBetween(idef, source[i], Target(dest, j), j < |dest|, count, swap);
    MoveHolds(idef, source[i], Target(dest, j), j < |dest|, count, swap, kind);
    hide Total, Holds, MoveBetween;
    TotalUpdate(source, i, m.source, kind);
    if j < |dest| {
      TotalUpdate(dest, j, m.target, kind);
    }
  }

  lemma ConservesMove(idef: ItemDefManager, source: seq<ItemStack>, dest: seq<ItemStack>, i: nat, j: nat, count: nat, swap: bool, same: bool)
    requires i < |source| && (same ==> source == dest && i != j)
    ensures var m := MoveBetween(idef, source[i], Target(dest, j), j < |dest|, count, swap);
      forall kind ::
        if same then Total(Filled(source[i := m.source], j, m.target), kind) == Total(source, kind)
        else Total(source[i := m.source], kind) + Total(Filled(dest, j, m.target), kind) == Total(source, kind) + Total(dest, kind)
  {
    hide MoveBetween, Total, Filled, Target;
    var m := MoveBetween(idef, source[i], Target(dest, j), j < |dest|, count, swap);
    forall kind
      ensures if same then Total(Filled(source[i := m.source], j, m.target), kind) == Total(source, kind)
        else Total(source[i := m.source], kind) + Total(Filled(dest, j, m.target), kind) == Total(source, kind) + Total(dest, kind)
    {
      if same {
        MoveWithinConserves(idef, source, i, j, count, swap, kind);
      } else {
        MoveAcrossConserves(idef, source, dest, i, j, count, swap, kind);
      }
    }
  }

  // ---------------------------------------------------------------- moving to any slot

  // A slot of the item's kind never loses by a pass, and gains no more than the item does.
  lemma {:induction false} PassSlot(idef: ItemDefManager, items: seq<ItemStack>, item: ItemStack, i: nat, empties: bool, k: nat)
    requires i <= |items| && k < |items| && !items[k].Empty() && KindOf(items[k]) == KindOf(item)
    ensures var (after, left) := Pass(idef, items, item, i, empties);
      after[k] == items[k].(count := after[k].count) && after[k].count >= items[k].count
      && after[k].count + left.count <= items[k].count + item.count
    decreases |items| - i
  {
    if i == |items| || item.Empty() {
    } else if items[i].Empty() != empties {
      PassSlot(idef, items, item, i + 1, empties, k);
    } else {
      var (slot, left) := Stacked(idef, items[i], item);
      StackedMeaning(idef, items[i], item);
      if left.Empty() {
        assert Pass(idef, items[i := slot], left, i + 1, empties) == (items[i := slot], left);
      } else {
        PassSlot(idef, items[i := slot], left, i + 1, empties, k);
      }
    }
  }

  lemma AddedSlot(idef: ItemDefManager, items: seq<ItemStack>, item: ItemStack, k: nat)
    requires k < |items| && !items[k].Empty() && KindOf(items[k]) == KindOf(item)
    ensures var (after, left) := AddedTo(idef, items, item);
      after[k] == items[k].(count := after[k].count) && after[k].count >= items[k].count
      && after[k].count + left.count <= items[k].count + item.count
  {
    var (mid, rest) := Pass(idef, items, item, 0, false);
    PassSlot(idef, items, item, 0, false, k);
    if rest.Empty() {
      assert Pass(idef, mid, rest, 0, true) == (mid, rest);
    } else {
      PassConserves(idef, items, item, 0, false, KindOf(item));
      PassSlot(idef, mid, rest, 0, true, k);
    }
  }

  // What of a moved stack does not find room goes back on top of the source slot.
  function PutBack(items: seq<ItemStack>, i: nat, left: ItemStack): seq<ItemStack>
    requires i < |items| && left.count + items[i].count < 0x1_0000
  {
    items[i := left.(count := left.count + items[i].count)]
  }

  lemma PutBackTotal(items: seq<ItemStack>, i: nat, left: ItemStack, kind: Kind)
    requires i < |items| && left.count + items[i].count < 0x1_0000 && !left.Empty()
    requires !items[i].Empty() ==> KindOf(items[i]) == KindOf(left)
    ensures Total(PutBack(items, i, left), kind) == Total(items, kind) + Holds(left, kind)
  {
    hide Total;
    TotalUpdate(items, i, left.(count := left.count + items[i].count), kind);
  }

  // Within one list: the leftover fits back on the source slot, which still holds the same kind.
  lemma RoomToPutBack(idef: ItemDefManager, items: seq<ItemStack>, i: nat, count: nat)
    requires i < |items|
    ensures var (rest, got) := Wanted(items[i], count);
      var (after, left) := AddedTo(idef, items[i := rest], got);
      !left.Empty() ==>
        && left.count + after[i].count <= items[i].count
        && KindOf(left) == KindOf(items[i]) && !after[i].Empty() && KindOf(after[i]) == KindOf(items[i])
  {
    var (rest, got) := Wanted(items[i], count);
    var (after, left) := AddedTo(idef, items[i := rest], got);
    WantedMeaning(items[i], count);
    if !left.Empty() {
      AddedLeaves(idef, items[i := rest], got);
      AddedConserves(idef, items[i := rest], got, KindOf(got));
      assert !HasEmpty(items[i := rest]);
      assert !items[i := rest][i].Empty();
      AddedSlot(idef, items[i := rest], got, i);
    }
  }

  // InventoryList::moveItemSomewhere with the list itself as destination.
  function MovedWithin(idef: ItemDefManager, items: seq<ItemStack>, i: nat, count: nat): (after: seq<ItemStack>)
    requires i < |items|
    ensures |after| == |items|
  {
    var (rest, got) := Wanted(items[i], count);
    if got.Empty() then items[i := rest]
    else
      RoomToPutBack(idef, items, i, count);
      var (after, left) := AddedTo(idef, items[i := rest], got);
      if left.Empty() then after else PutBack(after, i, left)
  }

  // The same with another list as destination.
  function MovedAcross(idef: ItemDefManager, source: seq<ItemStack>, dest: seq<ItemStack>, i: nat, count: nat): (r: (seq<ItemStack>, seq<ItemStack>))
    requires i < |source|
    ensures |r.0| == |source| && |r.1| == |dest|
  {
    var (rest, got) := Wanted(source[i], count);
    if got.Empty() then (source[i := rest], dest)
    else
      WantedMeaning(source[i], count);
      var (after, left) := AddedTo(idef, dest, got);
      if left.Empty() then (source[i := rest], after) else (PutBack(source[i := rest], i, left), after)
  }

  /**
   Moving to any slot of another list: what was asked for is added there, filling it up, and what found no room is back
   in the source slot.
   */
  lemma MovedAcrossFills(idef: ItemDefManager, source: seq<ItemStack>, dest: seq<ItemStack>, i: nat, count: nat)
    requires i < |source|
    ensures var (s, d) := MovedAcross(idef, source, dest, i, count);
      && (forall k :: 0 <= k < |source| && k != i ==> s[k] == source[k])
      && (source[i].count == 0 ==> d == dest)
      && (source[i].count > 0 ==>
          exists left: ItemStack ::
            var asked := if count == 0 || count > source[i].count then source[i].count else count;
            && left.count <= asked && FillsUp(idef, dest, source[i].(count := asked), d, left)
            && s[i].count == source[i].count - asked + left.count && (s[i].count > 0 ==> s[i] == source[i].(count := s[i].count)))
  {
    hide AddedTo, Wanted, FillsUp;
    WantedMeaning(source[i], count);
    var (rest, got) := Wanted(source[i], count);
    if !got.Empty() {
      AddedFillsUp(idef, dest, got);
      AddedConserves(idef, dest, got, KindOf(got));
    }
  }

  // With kept left in the source slot, the list was filled up to mid; what did not fit went back on top of that slot.
  ghost predicate FillsWithin(idef: ItemDefManager, items: seq<ItemStack>, i: nat, count: nat, after: seq<ItemStack>,
                              kept: ItemStack, mid: seq<ItemStack>, left: ItemStack)
    requires i < |items|
  {
    var asked := if count == 0 || count > items[i].count then items[i].count else count;
    && kept.count == items[i].count - asked && (kept.count > 0 ==> kept == items[i].(count := kept.count))
    && FillsUp(idef, items[i := kept], items[i].(count := asked), mid, left)
    && (left.count == 0 ==> after == mid)
    && (left.count > 0 ==>
          && |mid| == |items| && mid[i].count + left.count < 0x1_0000
          && after == mid[i := items[i].(count := mid[i].count + left.count)])
  }

  /** The same within one list, to which the source slot with what was not asked for belongs. */
  lemma MovedWithinFills(idef: ItemDefManager, items: seq<ItemStack>, i: nat, count: nat)
    requires i < |items| && items[i].count > 0
    ensures exists kept, mid, left :: FillsWithin(idef, items, i, count, MovedWithin(idef, items, i, count), kept, mid, left)
  {
    hide AddedTo, Wanted, FillsUp;
    WantedMeaning(items[i], count);
    RoomToPutBack(idef, items, i, count);
    var (rest, got) := Wanted(items[i], count);
    AddedFillsUp(idef, items[i := rest], got);
    AddedConserves(idef, items[i := rest], got, KindOf(got));
    var (mid, left) := AddedTo(idef, items[i := rest], got);
    assert FillsWithin(idef, items, i, count, MovedWithin(idef, items, i, count), rest, mid, left);
  }

  lemma MovedWithinConserves(idef: ItemDefManager, items: seq<ItemStack>, i: nat, count: nat, kind: Kind)
    requires i < |items|
    ensures Total(MovedWithin(idef, items, i, count), kind) == Total(items, kind)
  {
    hide AddedTo, Wanted, Holds, Total, PutBack;
    var (rest, got) := Wanted(items[i], count);
    WantedMeaning(items[i], count);
    TotalUpdate(items, i, rest, kind);
    HoldsNothing(got, kind);
    AddedConserves(idef, items[i := rest], got, kind);
    RoomToPutBack(idef, items, i, count);
    var (after, left) := AddedTo(idef, items[i := rest], got);
    HoldsNothing(left, kind);
    if !left.Empty() {
      PutBackTotal(after, i, left, kind);
    }
  }

  lemma WantedTotal(items: seq<ItemStack>, i: nat, count: nat, kind: Kind)
    requires i < |items|
    ensures var (rest, got) := Wanted(items[i], count);
      && Total(items[i := rest], kind) + Holds(got, kind) == Total(items, kind)
      && (got.Empty() ==> Holds(got, kind) == 0) && rest.count + got.count < 0x1_0000
      && (!rest.Empty() && !got.Empty() ==> KindOf(rest) == KindOf(got))
  {
    hide Wanted, Holds, Total;
    var (rest, got) := Wanted(items[i], count);
    WantedMeaning(items[i], count);
    TotalUpdate(items, i, rest, kind);
    HoldsNothing(got, kind);
  }

  lemma MovedAcrossIs(idef: ItemDefManager, source: seq<ItemStack>, dest: seq<ItemStack>, i: nat, count: nat)
    requires i < |source|
    ensures var (rest, got) := Wanted(source[i], count);
      var (after, left) := AddedTo(idef, dest, got);
      var (s, d) := MovedAcross(idef, source, dest, i, count);
      if got.Empty() then s == source[i := rest] && d == dest
      else d == after && (if left.Empty() then s == source[i := rest]
        else left.count + rest.count < 0x1_0000 && s == PutBack(source[i := rest], i, left))
  {
    hide AddedTo, Wanted;
    WantedMeaning(source[i], count);
  }

  lemma MovedAcrossConserves(idef: ItemDefManager, source: seq<ItemStack>, dest: seq<ItemStack>, i: nat, count: nat, kind: Kind)
    requires i < |source|
    ensures var (s, d) := MovedAcross(idef, source, dest, i, count);
      Total(s, kind) + Total(d, kind) == Total(source, kind) + Total(dest, kind)
  {
    hide AddedTo, Wanted, Holds, Total, PutBack, KindOf, MovedAcross;
    var (rest, got) := Wanted(source[i], count);
    WantedTotal(source, i, count, kind);
    MovedAcrossIs(idef, source, dest, i, count);
    var left := AddedTo(idef, dest, got).1;
    AddedConserves(idef, dest, got, kind);
    HoldsNothing(left, kind);
    if !got.Empty() && !left.Empty() {
      PutBackTotal(source[i := rest], i, left, kind);
    }
  }

  lemma Merged(idef: ItemDefManager, removed: ItemStack, got: ItemStack, name: string)
    requires !removed.Empty() ==> removed.name == name
    requires !got.Empty() ==> got.name == name
    ensures var (more, left) := Stacked(idef, removed, got);
      more.count + left.count == removed.count + got.count && (more.count + left.count > 0 ==> more.name == name)
      && (!removed.Empty() ==> more == removed.(count := more.count))
      && (removed.Empty() && !got.Empty() ==> more == got && left.Empty())
      && (got.Empty() ==> more == removed && left.Empty())
  {}

  // The last slot below i that holds an item of a name, -1 if none does.
  function LastOf(items: seq<ItemStack>, name: string, i: nat): (j: int)
    requires i <= |items|
    ensures -1 <= j < i
  {
    if i == 0 then -1
    else if items[i - 1].name == name && !items[i - 1].Empty() then i - 1
    else LastOf(items, name, i - 1)
  }

  // What removeItem has got when it has gone through the slots from i on.
  predicate Removing(before: seq<ItemStack>, item: ItemStack, items: seq<ItemStack>, removed: ItemStack, i: nat) {
    && i <= |items| == |before| && removed.count <= item.count
    && (forall j :: 0 <= j < i ==> items[j] == before[j])
    && (if removed.Empty()
        then item.count == 0 || LastOf(before, item.name, i) == LastOf(before, item.name, |before|)
        else
          var j := LastOf(before, item.name, |before|);
          j >= 0 && removed == before[j].(count := removed.count) && removed.name == item.name)
    && var (after, more) := RemovedFrom(items, item.name, item.count - removed.count, i);
       (after, removed.count + more) == RemovedFrom(before, item.name, item.count, |before|)
  }

  lemma RemovingStarts(items: seq<ItemStack>, item: ItemStack)
    ensures Removing(items, item, items, NO_ITEM, |items|)
  {
    hide RemovedFrom, LastOf;
  }

  lemma RemovingSkips(before: seq<ItemStack>, item: ItemStack, items: seq<ItemStack>, removed: ItemStack, i: nat)
    requires Removing(before, item, items, removed, i + 1) && i < |items| && items[i].name != item.name
    ensures Removing(before, item, items, removed, i)
  {
    hide RemovedFrom;
    RemovedUnfolds(items, item.name, item.count - removed.count, i);
  }

  lemma RemovingTakes(idef: ItemDefManager, before: seq<ItemStack>, item: ItemStack, items: seq<ItemStack>, removed: ItemStack, i: nat)
    requires Removing(before, item, items, removed, i + 1) && i < |items| && items[i].name == item.name
    ensures var (slot, got) := Taken(items[i], item.count - removed.count);
      var (more, left) := Stacked(idef, removed, got);
      && more.count + left.count <= item.count
      && Removing(before, item, items[i := slot], more.(count := more.count + left.count), i)
  {
    hide RemovedFrom, Stacked, Taken;
    var toRemove: nat := item.count - removed.count;
    RemovedUnfolds(items, item.name, toRemove, i);
    TakenMeaning(items[i], toRemove);
    Merged(idef, removed, Taken(items[i], toRemove).1, item.name);
  }

  lemma RemovingEnds(before: seq<ItemStack>, item: ItemStack, items: seq<ItemStack>, removed: ItemStack, i: nat)
    requires Removing(before, item, items, removed, i) && (i == 0 || removed.count == item.count)
    ensures (items, removed.count) == RemovedFrom(before, item.name, item.count, |before|)
    ensures !removed.Empty() ==>
      var j := LastOf(before, item.name, |before|);
      j >= 0 && removed == before[j].(count := removed.count) && removed.name == item.name
  {
    hide RemovedFrom, LastOf;
    RemovedEnds(items, item.name, item.count - removed.count, i);
  }

  lemma RemovedUnfolds(items: seq<ItemStack>, name: string, n: nat, i: nat)
    requires i < |items|
    ensures items[i].name == name ==>
      var (slot, got) := Taken(items[i], n);
      got.count <= n && RemovedFrom(items, name, n, i + 1).0 == RemovedFrom(items[i := slot], name, n - got.count, i).0
      && RemovedFrom(items, name, n, i + 1).1 == got.count + RemovedFrom(items[i := slot], name, n - got.count, i).1
    ensures items[i].name != name ==> RemovedFrom(items, name, n, i + 1) == RemovedFrom(items, name, n, i)
  {
    assert items[i := items[i]] == items;
  }

  lemma RemovedEnds(items: seq<ItemStack>, name: string, n: nat, i: nat)
    requires i <= |items| && (i == 0 || n == 0)
    ensures RemovedFrom(items, name, n, i) == (items, 0)
  {}

  // ---------------------------------------------------------------- the list

  datatype Content = Content(name: string, width: nat, items: seq<ItemStack>)

  class InventoryList {
    const idef: ItemDefManager
    var name: string
    var width: nat
    var items: seq<ItemStack>
    var dirty: bool
    var resizeLocks: nat

    function Shown(): Content
      reads this
    {
      Content(name, width, items)
    }

    constructor (name: string, size: nat, idef: ItemDefManager)
      ensures Shown() == Content(name, 0, seq(size, _ => NO_ITEM)) && dirty && this.idef == idef && resizeLocks == 0
    {
      this.name, this.idef, width, resizeLocks := name, idef, 0, 0;
      items := seq(size, _ => NO_ITEM);
      dirty := true;
    }

    method SetModified(value: bool)
      modifies this`dirty
      ensures dirty == value
    {
      dirty := value;
    }

    method ClearItems()
      modifies this`items, this`dirty
      ensures items == seq(|old(items)|, _ => NO_ITEM) && dirty
    {
      items := seq(|items|, _ => NO_ITEM);
      dirty := true;
    }

    // Shrinking a list that is in use throws.
    method SetSize(size: nat) returns (ok: bool)
      modifies this`items, this`dirty
      ensures ok <==> !(size < |old(items)| && resizeLocks != 0)
      ensures if ok && size != |old(items)| then dirty else dirty == old(dirty)
      ensures items == if !ok then old(items)
        else if size <= |old(items)| then old(items)[..size] else old(items) + seq(size - |old(items)|, _ => NO_ITEM)
    {
      ok := true;
      if size == |items| {
        assert items[..size] == items;
        return;
      }
      if size < |items| && resizeLocks != 0 {
        return false;
      }
      items := if size <= |items| then items[..size] else items + seq(size - |items|, _ => NO_ITEM);
      dirty := true;
    }

    method SetWidth(width: nat)
      modifies this`width, this`dirty
      ensures this.width == width && dirty
    {
      this.width := width;
      dirty := true;
    }

    method SetName(name: string)
      modifies this`name, this`dirty
      ensures this.name == name && dirty
    {
      this.name := name;
      dirty := true;
    }

    method ChangeItem(i: nat, item: ItemStack) returns (before: ItemStack)
      modifies this`items, this`dirty
      ensures if i < |old(items)| then items == old(items)[i := item] && before == old(items)[i] else items == old(items) && before == item
      ensures dirty == (old(dirty) || items != old(items))
    {
      if i >= |items| {
        return item;
      }
      before := items[i];
      if before != item {
        items := items[i := item];
        assert items[i] != old(items)[i];
        dirty := true;
      } else {
        assert items[i := item] == items;
      }
    }

    method DeleteItem(i: nat)
      requires i < |items|
      modifies this`items, this`dirty
      ensures items == old(items)[i := NO_ITEM] && dirty
    {
      items := items[i := NO_ITEM];
      dirty := true;
    }

    // addItem on one slot.
    method AddItemAt(i: nat, item: ItemStack) returns (left: ItemStack)
      modifies this`items, this`dirty
      ensures if i < |old(items)|
        then (items, left) == (old(items)[i := Stacked(idef, old(items)[i], item).0], Stacked(idef, old(items)[i], item).1)
        else items == old(items) && left == item
      ensures dirty == (old(dirty) || items != old(items))
    {
      if i >= |items| {
        return item;
      }
      StackedMeaning(idef, items[i], item);
      hide Stacked;
      left := Stacked(idef, items[i], item).1;
      items := items[i := Stacked(idef, items[i], item).0];
      if left != item {
        assert items[i] != old(items)[i];
        dirty := true;
      } else {
        assert items == old(items);
      }
    }

    /** addItem on the whole list. */
    method AddItem(item: ItemStack) returns (left: ItemStack)
      modifies this`items, this`dirty
      ensures (items, left) == AddedTo(idef, old(items), item)
      ensures FillsUp(idef, old(items), item, items, left)
      ensures old(dirty) ==> dirty
      ensures items != old(items) ==> dirty
    {
      AddedFillsUp(idef, items, item);
      left := item;
      if item.Empty() {
        return;
      }
      hide Stacked, FillsUp;
      for i := 0 to |items|
        invariant |items| == |old(items)| && !left.Empty()
        invariant Pass(idef, items, left, i, false) == Pass(idef, old(items), item, 0, false)
        invariant (old(dirty) ==> dirty) && (items != old(items) ==> dirty)
      {
        if !items[i].Empty() {
          left := AddItemAt(i, left);
          if left.Empty() {
            return;
          }
        }
      }
      ghost var (mid, rest) := (items, left);
      for i := 0 to |items|
        invariant |items| == |old(items)| && !left.Empty()
        invariant Pass(idef, items, left, i, true) == Pass(idef, mid, rest, 0, true)
        invariant (old(dirty) ==> dirty) && (items != old(items) ==> dirty)
      {
        if items[i].Empty() {
          left := AddItemAt(i, left);
          if left.Empty() {
            return;
          }
        }
      }
    }

    /** roomForItem. */
    method RoomForItem(item: ItemStack) returns (fits: bool)
      ensures fits == RoomFor(idef, items, item, 0)
      ensures !item.Empty() ==> (fits <==> AddedTo(idef, items, item).1.Empty())
    {
      if !item.Empty() {
        RoomForIsAddable(idef, items, item);
      }
      hide LeftOver, AddedTo;
      var left := item;
      for i := 0 to |items|
        invariant RoomFor(idef, items, item, 0) == RoomFor(idef, items, left, i)
      {
        left := LeftOver(idef, items[i], left);
        if left.Empty() {
          return true;
        }
      }
      fits := false;
    }

    /** containsItem. */
    method ContainsItem(item: ItemStack, matchMeta: bool) returns (contained: bool)
      ensures contained <==> item.count <= MatchingCount(items, item, matchMeta, |items|)
      ensures !matchMeta ==> (contained <==> RemovedFrom(items, item.name, item.count, |items|).1 == item.count)
    {
      ContainsIsRemovable(items, item);
      hide RemovedFrom;
      var count: nat := item.count;
      if count == 0 {
        return true;
      }
      var i: nat := |items|;
      while i != 0 && count != 0
        invariant i <= |items| && 0 < count <= item.count
        invariant MatchingCount(items, item, matchMeta, |items|) == MatchingCount(items, item, matchMeta, i) + (item.count - count)
        decreases i
      {
        i := i - 1;
        var s := items[i];
        if s.name == item.name && (!matchMeta || s.metadata == item.metadata) {
          if s.count >= count {
            return true;
          }
          count := count - s.count;
        }
      }
      contained := false;
    }

    /** removeItem: by name, from the last slot on. */
    method RemoveItem(item: ItemStack) returns (removed: ItemStack)
      modifies this`items, this`dirty
      ensures (items, removed.count) == RemovedFrom(old(items), item.name, item.count, |old(items)|)
      ensures !removed.Empty() ==>
        var j := LastOf(old(items), item.name, |old(items)|);
        j >= 0 && removed == old(items)[j].(count := removed.count) && removed.name == item.name
      ensures dirty == (old(dirty) || !removed.Empty())
    {
      hide RemovedFrom, Stacked, Taken, Removing, LastOf;
      removed := NO_ITEM;
      var i: nat := |items|;
      RemovingStarts(items, item);
      while i != 0
        invariant Removing(old(items), item, items, removed, i) && i <= |items| && removed.count <= item.count && dirty == old(dirty)
        decreases i
      {
        i := i - 1;
        if items[i].name == item.name {
          var toRemove: nat := item.count - removed.count;
          RemovingTakes(idef, old(items), item, items, removed, i);
          var (slot, got) := Taken(items[i], toRemove);
          items := items[i := slot];
          var (more, left) := Stacked(idef, removed, got);
          // The leftover counts too: an oversized stack is allowed here.
          removed := more.(count := more.count + left.count);
          if removed.count == item.count {
            break;
          }
        } else {
          RemovingSkips(old(items), item, items, removed, i);
        }
      }
      RemovingEnds(old(items), item, items, removed, i);
      if !removed.Empty() {
        dirty := true;
      }
    }

    method TakeItem(i: nat, count: nat) returns (taken: ItemStack)
      modifies this`items, this`dirty
      ensures if i < |old(items)|
        then (items, taken) == (old(items)[i := Taken(old(items)[i], count).0], Taken(old(items)[i], count).1)
        else items == old(items) && taken == NO_ITEM
      ensures dirty == (old(dirty) || items != old(items))
    {
      if i >= |items| {
        return NO_ITEM;
      }
      TakenMeaning(items[i], count);
      hide Taken;
      taken := Taken(items[i], count).1;
      items := items[i := Taken(items[i], count).0];
      if !taken.Empty() {
        assert items[i] != old(items)[i];
        dirty := true;
      } else {
        assert items == old(items);
      }
    }

    // What a list and a destination hold together; the destination may be the list itself.
    ghost function Together(dest: InventoryList, kind: Kind): nat
      reads this, dest
    {
      if dest == this then Total(items, kind) else Total(items, kind) + Total(dest.items, kind)
    }

    /** moveItemSomewhere. */
    method MoveItemSomewhere(i: nat, dest: InventoryList, count: nat)
      requires dest.idef == idef
      modifies this`items, this`dirty, dest`items, dest`dirty
      ensures i >= |old(items)| ==> items == old(items) && dest.items == old(dest.items)
      ensures i < |old(items)| && dest == this ==> items == MovedWithin(idef, old(items), i, count)
      ensures i < |old(items)| && dest != this ==> (items, dest.items) == MovedAcross(idef, old(items), old(dest.items), i, count)
      ensures forall kind :: Together(dest, kind) == old(Together(dest, kind))
      ensures (old(dirty) || items != old(items) ==> dirty) && (old(dest.dirty) || dest.items != old(dest.items) ==> dest.dirty)
    {
      hide AddedTo, Taken, FillsUp;
      if i < |items| {
        RoomToPutBack(idef, items, i, count);
        WantedMeaning(items[i], count);
        forall kind
          ensures Total(MovedWithin(idef, items, i, count), kind) == Total(items, kind)
        {
          MovedWithinConserves(idef, items, i, count, kind);
        }
        forall kind
          ensures Total(MovedAcross(idef, items, dest.items, i, count).0, kind) + Total(MovedAcross(idef, items, dest.items, i, count).1, kind)
            == Total(items, kind) + Total(dest.items, kind)
        {
          MovedAcrossConserves(idef, items, dest.items, i, count, kind);
        }
      }
      var item;
      if count == 0 {
        item := ChangeItem(i, NO_ITEM);
      } else {
        item := TakeItem(i, count);
      }
      if item.Empty() {
        return;
      }
      var left := dest.AddItem(item);
      if !left.Empty() {
        left := left.(count := left.count + items[i].count);
        var _ := ChangeItem(i, left);
      }
    }

    // The stacks of two slots change places; a target slot that does not exist changes nothing.
    method SwapItems(i: nat, dest: InventoryList, j: nat) returns (moved: ItemStack)
      requires i < |items| && !(dest == this && i == j)
      modifies this`items, this`dirty, dest`items, dest`dirty
      ensures moved == old(items)[i]
      ensures var d := if j < |old(dest.items)| then old(dest.items)[j] else moved;
        if dest == this then items == Filled(old(items)[i := d], j, moved)
        else items == old(items)[i := d] && dest.items == Filled(old(dest.items), j, moved)
      ensures (old(dirty) || items != old(items) ==> dirty) && (old(dest.dirty) || dest.items != old(dest.items) ==> dest.dirty)
    {
      moved := ChangeItem(i, NO_ITEM);
      var other := dest.ChangeItem(j, moved);
      var _ := ChangeItem(i, other);
    }

    // The leftover of a move: back to the source slot with it.
    method ReturnLeftover(i: nat, left: ItemStack)
      requires i < |items| && left.count + items[i].count < 0x1_0000
      modifies this`items, this`dirty
      ensures items == PutBack(old(items), i, left)
      ensures old(dirty) || items != old(items) ==> dirty
    {
      var back := left.(count := left.count + items[i].count);
      var _ := ChangeItem(i, back);
    }

    // The second half of moveItem: the taken stack goes to the target slot, its leftover back to the source slot;
    // the stacks are swapped if none of it could be moved.
    method PlaceItem(i: nat, dest: InventoryList, j: nat, taken: ItemStack, swap: bool) returns (moved: ItemStack, didSwap: bool)
      requires dest.idef == idef && i < |items| && !(dest == this && i == j) && items[i].count + taken.count < 0x1_0000
      modifies this`items, this`dirty, dest`items, dest`dirty
      ensures var m := Placed(idef, old(items)[i], taken, Target(old(dest.items), j), j < |old(dest.items)|, swap);
        && moved == m.moved && didSwap == m.swapped
        && (dest == this ==> items == Filled(old(items)[i := m.source], j, m.target))
        && (dest != this ==> items == old(items)[i := m.source] && dest.items == Filled(old(dest.items), j, m.target))
      ensures (old(dirty) || items != old(items) ==> dirty) && (old(dest.dirty) || dest.items != old(dest.items) ==> dest.dirty)
    {
      ghost var (d, rest) := (Target(dest.items, j), items[i]);
      StackedMeaning(idef, d, taken);
      StackedCapacity(idef, d, taken);
      hide Stacked, Removed, Holds, Capacity, FreeSpace;
      didSwap := false;
      moved := taken;
      var left := dest.AddItemAt(j, moved);
      if !left.Empty() {
        moved := Removed(moved, left.count);
        ReturnLeftover(i, left);
        if moved.Empty() && swap {
          didSwap := true;
          moved := SwapItems(i, dest, j);
        }
      }
    }

    /** moveItem. */
    method MoveItem(i: nat, dest: InventoryList, j: nat, count: nat, swap: bool) returns (moved: ItemStack, didSwap: bool)
      requires dest.idef == idef
      modifies this`items, this`dirty, dest`items, dest`dirty
      ensures (dest == this && i == j) || i >= |old(items)| ==>
        items == old(items) && dest.items == old(dest.items) && moved == NO_ITEM && !didSwap
      ensures !(dest == this && i == j) && i < |old(items)| ==>
        var m := MoveBetween(idef, old(items)[i], Target(old(dest.items), j), j < |old(dest.items)|, count, swap);
        && moved == m.moved && didSwap == m.swapped
        && (dest == this ==> items == Filled(old(items)[i := m.source], j, m.target))
        && (dest != this ==> items == old(items)[i := m.source] && dest.items == Filled(old(dest.items), j, m.target))
      ensures forall kind :: Together(dest, kind) == old(Together(dest, kind))
      ensures (old(dirty) || items != old(items) ==> dirty) && (old(dest.dirty) || dest.items != old(dest.items) ==> dest.dirty)
    {
      moved, didSwap := NO_ITEM, false;
      if this == dest && i == j {
        return;
      }
      if count == 0 {
        moved := ChangeItem(i, NO_ITEM);
      } else {
        moved := TakeItem(i, count);
      }
      if i >= |items| {
        // Nothing was taken, and adding nothing does nothing.
        return;
      }
      WantedMeaning(old(items)[i], count);
      hide Placed, Taken, Wanted, Filled, Target, Total, FillsUp;
      ConservesMove(idef, old(items), old(dest.items), i, j, count, swap, this == dest);
      moved, didSwap := PlaceItem(i, dest, j, moved, swap);
    }
  }
}
