/**
 The sending side of an inventory (class Inventory of src/inventory.cpp): its lists are objects that
 others change in place; what goes out depends on their dirty flags.
 */
module Inventories {
  import opened Basics
  import opened Items
  import opened ItemStacks
  import opened InventoryLists
  import opened InventorySync

  function StateOf(l: InventoryList): ListState
    reads l
  {
    ListState(l.Shown(), l.dirty)
  }

  function StatesOf(ls: seq<InventoryList>): (r: seq<ListState>)
    reads ls
    ensures |r| == |ls| && forall i :: 0 <= i < |ls| ==> r[i] == StateOf(ls[i])
  {
    if ls == [] then [] else [StateOf(ls[0])] + StatesOf(ls[1..])
  }

  predicate AllDifferent(ls: seq<InventoryList>) {
    forall i, j :: 0 <= i < j < |ls| ==> ls[i] != ls[j]
  }

  // Operations on the lists alone: none is dropped, and each is left as it was or marked.
  twostate predicate OnlyMarked(ls: seq<InventoryList>)
    reads ls
  {
    forall i :: 0 <= i < |ls| ==> ls[i].dirty || (!old(ls[i].dirty) && ls[i].Shown() == old(ls[i].Shown()))
  }

  /** Whatever is done to the lists through methods that mark what they change is a tracked change. */
  twostate lemma MarkedIsTracked(ls: seq<InventoryList>)
    requires OnlyMarked(ls)
    ensures TrackedChange(old(StatesOf(ls)), StatesOf(ls))
  {
    forall i | 0 <= i < |ls|
      ensures StatesOf(ls)[i].dirty || StatesOf(ls)[i] in old(StatesOf(ls))
    {
      if !ls[i].dirty {
        assert StatesOf(ls)[i] == old(StatesOf(ls))[i];
      }
    }
  }

  lemma MessageStep(ls: seq<ListState>, i: nat, incremental: bool, lines: seq<Line>)
    requires i < |ls| && lines + Message(ls[i..], incremental) == Message(ls, incremental)
    ensures (lines + Entry(ls[i], incremental)) + Message(ls[i + 1..], incremental) == Message(ls, incremental)
  {
    assert ls[i..][0] == ls[i] && ls[i..][1..] == ls[i + 1..];
    hide Entry;
    var tail := Message(ls[i + 1..], incremental);
    assert lines + (Entry(ls[i], incremental) + tail) == lines + Entry(ls[i], incremental) + tail;
  }

  predicate SameNames(before: seq<ListState>, after: seq<ListState>) {
    |before| == |after| && forall i :: 0 <= i < |after| ==> after[i].shown.name == before[i].shown.name
  }

  twostate lemma NamesKept(ls: seq<InventoryList>)
    requires forall i :: 0 <= i < |ls| ==> ls[i].name == old(ls[i].name)
    ensures SameNames(old(StatesOf(ls)), StatesOf(ls))
  {
    hide StatesOf;
  }

  // A tracked change of lists that keep their names.
  lemma TrackedStep(before: seq<ListState>, after: seq<ListState>, known: map<string, ListBody>)
    requires DistinctNames(before) && UpToDate(before, known) && TrackedChange(before, after) && SameNames(before, after)
    ensures Operation(before, after) && DistinctNames(after) && UpToDate(after, known)
  {
    hide UpToDate, TrackedChange;
    TrackedKeepsUpToDate(before, after, known);
  }

  // A new list of a new name.
  lemma TrackedAppend(before: seq<ListState>, s: ListState, known: map<string, ListBody>)
    requires DistinctNames(before) && UpToDate(before, known)
    requires s.dirty && forall i :: 0 <= i < |before| ==> before[i].shown.name != s.shown.name
    ensures var after := before + [s]; Operation(before, after) && DistinctNames(after) && UpToDate(after, known)
  {
    hide UpToDate;
    assert TrackedChange(before, before + [s]);
    TrackedKeepsUpToDate(before, before + [s], known);
  }

  lemma SameIsTracked(s: seq<ListState>)
    ensures TrackedChange(s, s) && (DistinctNames(s) ==> Operation(s, s))
  {}

  lemma StatesDrop(ls: seq<InventoryList>, i: nat)
    requires i < |ls|
    ensures StatesOf(ls[..i] + ls[i + 1..]) == StatesOf(ls)[..i] + StatesOf(ls)[i + 1..]
  {
    hide StatesOf;
    var rest := ls[..i] + ls[i + 1..];
    DroppedAt(ls, i);
  }

  lemma DroppedAt<T>(a: seq<T>, i: nat)
    requires i < |a|
    ensures var r := a[..i] + a[i + 1..];
      |r| == |a| - 1 && forall k :: 0 <= k < |r| ==> r[k] == a[if k < i then k else k + 1]
  {}

  lemma TrackedDrop(before: seq<ListState>, i: nat, known: map<string, ListBody>)
    requires i < |before| && DistinctNames(before) && UpToDate(before, known)
    ensures var after := before[..i] + before[i + 1..]; Operation(before, after) && DistinctNames(after) && UpToDate(after, known)
  {
    hide UpToDate;
    assert TrackedChange(before, before[..i] + before[i + 1..]);
    TrackedKeepsUpToDate(before, before[..i] + before[i + 1..], known);
  }

  method SerializeList(list: InventoryList) returns (lines: seq<Line>)
    ensures lines == ListLines(list.Shown())
  {
    lines := [Width(list.width)];
    for i := 0 to |list.items|
      invariant lines + (ItemLines(list.items[i..]) + [EndInventoryList]) == ListLines(list.Shown())
    {
      ghost var rest := ItemLines(list.items[i + 1..]) + [EndInventoryList];
      assert list.items[i..][0] == list.items[i] && list.items[i..][1..] == list.items[i + 1..];
      assert lines + ([ItemLine(list.items[i])] + rest) == lines + [ItemLine(list.items[i])] + rest;
      assert ItemLines(list.items[i..]) + [EndInventoryList] == [ItemLine(list.items[i])] + rest;
      if list.items[i].Empty() {
        lines := lines + [Empty];
      } else {
        lines := lines + [Item(list.items[i])];
      }
    }
    assert ItemLines(list.items[|list.items|..]) + [EndInventoryList] == [EndInventoryList];
    lines := lines + [EndInventoryList];
  }

  class Inventory {
    const idef: ItemDefManager
    var lists: seq<InventoryList>
    var dirty: bool
    ghost var known: map<string, ListBody>    // what the client was sent last

    ghost predicate Lists()
      reads this`lists
    {
      AllDifferent(lists) && forall i :: 0 <= i < |lists| ==> lists[i].idef == idef
    }

    // The names are distinct, and the client has every list that is not marked.
    ghost predicate Valid()
      reads this`lists, this`known, lists
    {
      Lists() && DistinctNames(States()) && UpToDate(States(), known)
    }

    function States(): seq<ListState>
      reads this`lists, lists
    {
      StatesOf(lists)
    }

    constructor (idef: ItemDefManager)
      ensures Valid() && lists == [] && dirty && this.idef == idef
    {
      this.idef, lists, dirty := idef, [], true;
      known := map[];
    }

    /** Changes made to the lists themselves, as long as they mark what they change and leave the names distinct. */
    twostate lemma ListsChanged()
      requires old(Valid()) && lists == old(lists) && known == old(known)
      requires OnlyMarked(lists) && DistinctNames(States())
      ensures Valid() && Operation(old(States()), States())
    {
      hide DistinctNames, UpToDate, StatesOf, TrackedChange;
      MarkedIsTracked(lists);
      TrackedKeepsUpToDate(old(States()), States(), known);
    }

    // The first list of a name, -1 if there is none.
    method GetListIndex(name: string) returns (index: int)
      ensures -1 <= index < |lists|
      ensures index >= 0 ==> lists[index].name == name && forall i :: 0 <= i < index ==> lists[i].name != name
      ensures index == -1 ==> forall i :: 0 <= i < |lists| ==> lists[i].name != name
    {
      for i := 0 to |lists|
        invariant forall j :: 0 <= j < i ==> lists[j].name != name
      {
        if lists[i].name == name {
          return i;
        }
      }
      index := -1;
    }

    // A list that exists is resized, which throws when it would shrink while in use, and emptied.
    method ResetList(index: nat, size: nat) returns (ok: bool)
      requires Lists() && index < |lists|
      modifies lists
      ensures TrackedChange(old(States()), States()) && SameNames(old(States()), States())
      ensures ok <==> !(size < |old(lists[index].items)| && old(lists[index].resizeLocks) != 0)
      ensures ok ==> lists[index].Shown() == old(lists[index].Shown()).(items := NoItems(size)) && lists[index].dirty
    {
      hide StatesOf, TrackedChange;
      ok := lists[index].SetSize(size);
      if ok {
        lists[index].ClearItems();
        assert lists[index].items == NoItems(size);
      }
      MarkedIsTracked(lists);
      NamesKept(lists);
    }

    // A new list is dirty from the start.
    method AppendList(name: string, size: nat)
      requires Lists()
      modifies this`lists
      ensures Lists() && |lists| == |old(lists)| + 1 && lists[..|old(lists)|] == old(lists) && fresh(lists[|old(lists)|])
      ensures States() == old(States()) + [ListState(Content(name, 0, NoItems(size)), true)]
    {
      hide StatesOf;
      var list := new InventoryList(name, size, idef);
      list.SetModified(true);
      assert list.items == NoItems(size);
      lists := lists + [list];
    }

    /** addList: the index of the emptied or new list, -1 for a new name with a space and where resizing throws. */
    method AddList(name: string, size: nat) returns (index: int)
      requires Valid()
      modifies this`lists, this`dirty, lists
      ensures Valid() && dirty && Operation(old(States()), States())
      ensures |old(lists)| <= |lists| && old(lists) == lists[..|old(lists)|] && -1 <= index < |lists|
      ensures index >= 0 ==> lists[index].name == name && lists[index].items == NoItems(size) && lists[index].dirty
      ensures lists == old(lists) || ((forall l :: l in old(lists) ==> l.name != name) && ' ' !in name && index == |old(lists)|)
    {
      hide StatesOf, TrackedChange, DistinctNames, UpToDate, AllDifferent;
      dirty := true;
      index := GetListIndex(name);
      if index != -1 {
        var ok := ResetList(index, size);
        TrackedStep(old(States()), States(), known);
        return if ok then index else -1;
      }
      if ' ' in name {
        SameIsTracked(States());
        return -1;
      }
      index := |lists|;
      AppendList(name, size);
      TrackedAppend(old(States()), ListState(Content(name, 0, NoItems(size)), true), known);
      assert States()[index] == StateOf(lists[index]);
    }

    /** deleteList: the index of the list that is gone, -1 if there was none; throws for a list that is in use. */
    method DeleteList(name: string) returns (index: int, thrown: bool)
      requires Valid()
      modifies this`lists, this`dirty
      ensures Valid() && Operation(old(States()), States())
      ensures -1 <= index < |old(lists)| && (thrown ==> index >= 0 && old(lists)[index].resizeLocks != 0)
      ensures if index == -1 then forall l :: l in old(lists) ==> l.name != name else old(lists)[index].name == name
      ensures lists == if index == -1 || thrown then old(lists) else old(lists)[..index] + old(lists)[index + 1..]
    {
      hide StatesOf, TrackedChange, DistinctNames, UpToDate;
      thrown := false;
      index := GetListIndex(name);
      SameIsTracked(States());
      if index == -1 {
        return;
      }
      if lists[index].resizeLocks != 0 {
        return index, true;
      }
      dirty := true;
      StatesDrop(lists, index);
      TrackedDrop(States(), index, known);
      lists := lists[..index] + lists[index + 1..];
    }

    /** addItem to a list by name: everything is left over when there is no such list. */
    method AddItem(listname: string, item: ItemStack) returns (left: ItemStack)
      requires Valid()
      modifies lists
      ensures Valid() && Operation(old(States()), States())
      ensures (forall i :: 0 <= i < |lists| ==> old(lists[i].name) != listname) ==> left == item && States() == old(States())
      ensures forall i :: 0 <= i < |lists| && lists[i].name == listname ==>
        (lists[i].items, left) == AddedTo(idef, old(lists[i].items), item)
    {
      hide AddedTo, StatesOf, TrackedChange, UpToDate;
      var index := GetListIndex(listname);
      if index == -1 {
        SameIsTracked(States());
        return item;
      }
      left := lists[index].AddItem(item);
      ListsChanged();
      assert forall i :: 0 <= i < |lists| && i != index ==> States()[i].shown.name != States()[index].shown.name;
    }

    // Clearing the flag clears it on every list.
    method SetModified(value: bool)
      requires Lists()
      modifies this`dirty, lists
      ensures Lists() && dirty == value
      ensures States() == if value then old(States()) else AllHandled(old(States()))
    {
      dirty := value;
      hide StatesOf;
      if value {
        assert States() == old(States());
      } else {
        for i := 0 to |lists|
          invariant dirty == value
          invariant forall j :: 0 <= j < |lists| ==> lists[j].Shown() == old(lists[j].Shown())
          invariant forall j :: 0 <= j < i ==> !lists[j].dirty
        {
          lists[i].SetModified(false);
        }
        forall i | 0 <= i < |lists|
          ensures States()[i] == AllHandled(old(States()))[i]
        {
          assert States()[i] == StateOf(lists[i]);
        }
        assert States() == AllHandled(old(States()));
      }
    }

    /** serialize. */
    method Serialize(incremental: bool) returns (lines: seq<Line>)
      ensures lines == Message(States(), incremental)
    {
      hide StatesOf, Message;
      lines := [];
      MessageEnds(States(), incremental);
      for i := 0 to |lists|
        invariant lines + Message(States()[i..], incremental) == Message(States(), incremental)
      {
        MessageStep(States(), i, incremental, lines);
        hide ListLines;
        ghost var before := lines;
        var list := lists[i];
        if !incremental || list.dirty {
          var body := SerializeList(list);
          lines := lines + ([List(list.name, |list.items|)] + body);
        } else {
          lines := lines + [KeepList(list.name)];
        }
        assert lines == before + Entry(StateOf(list), incremental);
      }
      lines := lines + [EndInventory];
    }

    /**
     Server::SendInventory: whatever was done to the inventory since the last message, the message makes the client's
     lists the inventory's, and nothing is marked any more.
     */
    method Send(incremental: bool) returns (lines: seq<Line>)
      requires Valid()
      modifies this`dirty, this`known, lists
      ensures Receive(old(known), {}, lines) == Some(Mapping(old(States())))
      ensures Valid() && !dirty && known == Mapping(old(States())) && States() == AllHandled(old(States()))
    {
      hide StatesOf, Message, Receive, Mapping, DistinctNames, UpToDate, AllHandled;
      if incremental {
        IncrementalExactly(States(), known);
      } else {
        FullSync(States(), known);
      }
      HandledUpToDate(States());
      lines := Serialize(incremental);
      known := Mapping(States());
      SetModified(false);
    }
  }

  lemma MessageEnds(ls: seq<ListState>, incremental: bool)
    ensures ls[0..] == ls && [] + Message(ls, incremental) == Message(ls, incremental)
    ensures Message(ls[|ls|..], incremental) == [EndInventory]
  {}
}
