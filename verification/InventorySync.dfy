/**
 Sending an inventory to a client (Inventory::serialize and deSerialize of src/inventory.cpp), whole or
 incrementally: a list whose dirty flag is clear is only named.
 */
module InventorySync {
  import opened Basics
  import opened Items
  import opened InventoryLists

  // A list as the sender sees it.
  datatype ListState = ListState(shown: Content, dirty: bool)

  // A list as the receiver keeps it under its name.
  datatype ListBody = ListBody(width: nat, items: seq<ItemStack>)

  datatype Line =
    | List(name: string, size: nat)
    | KeepList(name: string)
    | Width(width: nat)
    | Item(stack: ItemStack)
    | Empty
    | Keep
    | EndInventoryList
    | EndInventory

  // An empty stack is sent as nothing but empty.
  function Tidy(s: ItemStack): ItemStack {
    if s.Empty() then NO_ITEM else s
  }

  function TidyAll(items: seq<ItemStack>): (r: seq<ItemStack>)
    ensures |r| == |items| && forall i :: 0 <= i < |r| ==> r[i] == Tidy(items[i])
  {
    seq(|items|, i requires 0 <= i < |items| => Tidy(items[i]))
  }

  function BodyOf(c: Content): ListBody {
    ListBody(c.width, TidyAll(c.items))
  }

  // ---------------------------------------------------------------- sending

  function ItemLine(s: ItemStack): Line {
    if s.Empty() then Empty else Item(s)
  }

  function ItemLines(items: seq<ItemStack>): seq<Line> {
    if items == [] then [] else [ItemLine(items[0])] + ItemLines(items[1..])
  }

  // InventoryList::serialize.
  function ListLines(c: Content): seq<Line> {
    [Width(c.width)] + (ItemLines(c.items) + [EndInventoryList])
  }

  function Entry(l: ListState, incremental: bool): seq<Line> {
    if !incremental || l.dirty then [List(l.shown.name, |l.shown.items|)] + ListLines(l.shown) else [KeepList(l.shown.name)]
  }

  // Inventory::serialize.
  function Message(ls: seq<ListState>, incremental: bool): seq<Line> {
    if ls == [] then [EndInventory] else Entry(ls[0], incremental) + Message(ls[1..], incremental)
  }

  // ---------------------------------------------------------------- receiving

  function NoItems(n: nat): (r: seq<ItemStack>)
    ensures |r| == n
  {
    seq(n, _ => NO_ITEM)
  }

  function Resized(items: seq<ItemStack>, n: nat): (r: seq<ItemStack>)
    ensures |r| == n
  {
    if n <= |items| then items[..n] else items + NoItems(n - |items|)
  }

  // InventoryList::deSerialize: the list and the lines behind it, None where it throws.
  function ReadList(lines: seq<Line>, items: seq<ItemStack>, i: nat, width: nat): (r: Option<(ListBody, seq<Line>)>)
    ensures r.Some? ==> |r.value.1| < |lines| && |r.value.0.items| == |items|
    decreases |lines|
  {
    if lines == [] then None
    else
      match lines[0]
      case EndInventoryList => Some((ListBody(width, if i < |items| then items[..i] + NoItems(|items| - i) else items), lines[1..]))
      case Width(w) => ReadList(lines[1..], items, i, w)
      case Item(s) => if i >= |items| then None else ReadList(lines[1..], items[i := s], i + 1, width)
      case Empty => if i >= |items| then None else ReadList(lines[1..], items[i := NO_ITEM], i + 1, width)
      case Keep => ReadList(lines[1..], items, i + 1, width)
      case _ => ReadList(lines[1..], items, i, width)
  }

  // Inventory::deSerialize: lists that were not named are dropped at the end.
  function Receive(inv: map<string, ListBody>, named: set<string>, lines: seq<Line>): Option<map<string, ListBody>>
    decreases |lines|
  {
    if lines == [] then None
    else
      match lines[0]
      case EndInventory => Some(map n | n in inv && n in named :: inv[n])
      case List(n, size) =>
        var r := ReadList(lines[1..], if n in inv then Resized(inv[n].items, size) else NoItems(size), 0, 0);
        if r.None? then None else Receive(inv[n := r.value.0], named + {n}, r.value.1)
      case KeepList(n) => Receive(inv, if n in inv then named + {n} else named, lines[1..])
      case _ => Receive(inv, named, lines[1..])
  }

  // ---------------------------------------------------------------- one list

  lemma {:induction false} ReadsItems(items: seq<ItemStack>, base: seq<ItemStack>, i: nat, width: nat, tail: seq<Line>)
    requires i + |items| == |base|
    ensures ReadList(ItemLines(items) + ([EndInventoryList] + tail), base, i, width) == Some((ListBody(width, base[..i] + TidyAll(items)), tail))
    decreases |items|
  {
    var lines := ItemLines(items) + ([EndInventoryList] + tail);
    if items == [] {
      assert lines == [EndInventoryList] + tail && lines[1..] == tail;
      assert base[..i] == base && base + TidyAll(items) == base;
    } else {
      var rest := ItemLines(items[1..]) + ([EndInventoryList] + tail);
      assert lines == [ItemLine(items[0])] + rest && lines[1..] == rest;
      ReadsItems(items[1..], base[i := Tidy(items[0])], i + 1, width, tail);
      hide TidyAll;
      TidyOneMore(items, base, i);
    }
  }

  lemma TidyOneMore(items: seq<ItemStack>, base: seq<ItemStack>, i: nat)
    requires items != [] && i < |base|
    ensures base[i := Tidy(items[0])][..i + 1] + TidyAll(items[1..]) == base[..i] + TidyAll(items)
  {
    hide TidyAll, Tidy;
  }

  lemma ReadsList(c: Content, base: seq<ItemStack>, tail: seq<Line>)
    requires |base| == |c.items|
    ensures ReadList(ListLines(c) + tail, base, 0, 0) == Some((BodyOf(c), tail))
  {
    var lines := ListLines(c) + tail;
    assert lines[1..] == ItemLines(c.items) + ([EndInventoryList] + tail);
    ReadsItems(c.items, base, 0, c.width, tail);
    assert base[..0] + TidyAll(c.items) == TidyAll(c.items);
  }

  // ---------------------------------------------------------------- the whole inventory

  predicate DistinctNames(ls: seq<ListState>) {
    forall i, j :: 0 <= i < j < |ls| ==> ls[i].shown.name != ls[j].shown.name
  }

  // The name-to-list mapping of the sender.
  function Mapping(ls: seq<ListState>): map<string, ListBody> {
    if ls == [] then map[] else Mapping(ls[..|ls| - 1])[ls[|ls| - 1].shown.name := BodyOf(ls[|ls| - 1].shown)]
  }

  // The receiver has every list that is not marked dirty.
  ghost predicate UpToDate(ls: seq<ListState>, inv: map<string, ListBody>) {
    forall i :: 0 <= i < |ls| && !ls[i].dirty ==> ls[i].shown.name in inv && inv[ls[i].shown.name] == BodyOf(ls[i].shown)
  }

  lemma {:induction false} MappingHas(ls: seq<ListState>, i: nat)
    requires DistinctNames(ls) && i < |ls|
    ensures ls[i].shown.name in Mapping(ls) && Mapping(ls)[ls[i].shown.name] == BodyOf(ls[i].shown)
  {
    if i < |ls| - 1 {
      MappingHas(ls[..|ls| - 1], i);
    }
  }

  lemma {:induction false} MappingOnly(ls: seq<ListState>)
    ensures forall n :: n in Mapping(ls) ==> exists i :: 0 <= i < |ls| && ls[i].shown.name == n
  {
    if ls == [] {
    } else {
      var init := ls[..|ls| - 1];
      MappingOnly(init);
      forall n | n in Mapping(ls)
        ensures exists i :: 0 <= i < |ls| && ls[i].shown.name == n
      {
        if n != ls[|ls| - 1].shown.name {
          assert n in Mapping(init);
          var i :| 0 <= i < |init| && init[i].shown.name == n;
          assert ls[i].shown.name == n;
        }
      }
    }
  }

  // With the first k lists read: they are as sent, and the others are still as they were.
  ghost predicate ReadSoFar(ls: seq<ListState>, incremental: bool, k: nat, inv: map<string, ListBody>, named: set<string>) {
    && k <= |ls|
    && (forall i :: 0 <= i < k ==> ls[i].shown.name in named && ls[i].shown.name in inv && inv[ls[i].shown.name] == BodyOf(ls[i].shown))
    && (forall n :: n in named ==> exists i :: 0 <= i < k && ls[i].shown.name == n)
    && (forall i :: k <= i < |ls| && incremental && !ls[i].dirty ==>
        ls[i].shown.name in inv && inv[ls[i].shown.name] == BodyOf(ls[i].shown))
  }

  lemma ReadOne(ls: seq<ListState>, incremental: bool, k: nat, inv: map<string, ListBody>, named: set<string>)
    requires DistinctNames(ls) && ReadSoFar(ls, incremental, k, inv, named) && k < |ls|
    ensures var (n, body) := (ls[k].shown.name, BodyOf(ls[k].shown));
      && ReadSoFar(ls, incremental, k + 1, inv[n := body], named + {n})
      && (incremental && !ls[k].dirty ==> n in inv && inv[n := body] == inv)
  {
    hide BodyOf;
    var (n, body) := (ls[k].shown.name, BodyOf(ls[k].shown));
    forall m | m in named + {n}
      ensures exists i :: 0 <= i < k + 1 && ls[i].shown.name == m
    {
      if m in named {
        var i :| 0 <= i < k && ls[i].shown.name == m;
      } else {
        assert ls[k].shown.name == m;
      }
    }
  }

  lemma {:induction false} ReceivesFrom(ls: seq<ListState>, incremental: bool, k: nat, inv: map<string, ListBody>, named: set<string>)
    requires k <= |ls| && DistinctNames(ls) && ReadSoFar(ls, incremental, k, inv, named)
    ensures Receive(inv, named, Message(ls[k..], incremental)) == Some(Mapping(ls))
    decreases |ls| - k
  {
    hide ReadSoFar, Mapping, BodyOf, Entry;
    if k == |ls| {
      AllRead(ls, incremental, inv, named);
    } else {
      var l := ls[k];
      var tail := Message(ls[k + 1..], incremental);
      assert ls[k..][0] == l && ls[k..][1..] == ls[k + 1..];
      ReadOne(ls, incremental, k, inv, named);
      ReceivesFrom(ls, incremental, k + 1, inv[l.shown.name := BodyOf(l.shown)], named + {l.shown.name});
      ReceivesEntry(l, incremental, inv, named, tail);
    }
  }

  lemma AllRead(ls: seq<ListState>, incremental: bool, inv: map<string, ListBody>, named: set<string>)
    requires DistinctNames(ls) && ReadSoFar(ls, incremental, |ls|, inv, named)
    ensures (map n | n in inv && n in named :: inv[n]) == Mapping(ls)
  {
    hide Mapping, BodyOf;
    MappingOnly(ls);
    forall i | 0 <= i < |ls|
      ensures ls[i].shown.name in Mapping(ls) && Mapping(ls)[ls[i].shown.name] == BodyOf(ls[i].shown)
    {
      MappingHas(ls, i);
    }
  }

  lemma ReceiveList(inv: map<string, ListBody>, named: set<string>, n: string, size: nat, lines: seq<Line>, body: ListBody, tail: seq<Line>)
    requires ReadList(lines, if n in inv then Resized(inv[n].items, size) else NoItems(size), 0, 0) == Some((body, tail))
    ensures Receive(inv, named, [List(n, size)] + lines) == Receive(inv[n := body], named + {n}, tail)
  {
    hide ReadList;
    assert ([List(n, size)] + lines)[1..] == lines;
  }

  lemma ReceiveKeep(inv: map<string, ListBody>, named: set<string>, n: string, lines: seq<Line>)
    requires n in inv
    ensures Receive(inv, named, [KeepList(n)] + lines) == Receive(inv, named + {n}, lines)
  {
    assert ([KeepList(n)] + lines)[1..] == lines;
  }

  lemma ReceivesEntry(l: ListState, incremental: bool, inv: map<string, ListBody>, named: set<string>, tail: seq<Line>)
    requires incremental && !l.dirty ==> l.shown.name in inv && inv[l.shown.name := BodyOf(l.shown)] == inv
    ensures Receive(inv, named, Entry(l, incremental) + tail) == Receive(inv[l.shown.name := BodyOf(l.shown)], named + {l.shown.name}, tail)
  {
    hide Receive, ReadList, ListLines, BodyOf;
    var (n, size) := (l.shown.name, |l.shown.items|);
    if !incremental || l.dirty {
      assert Entry(l, incremental) + tail == [List(n, size)] + (ListLines(l.shown) + tail);
      var base := if n in inv then Resized(inv[n].items, size) else NoItems(size);
      ReadsList(l.shown, base, tail);
      ReceiveList(inv, named, n, size, ListLines(l.shown) + tail, BodyOf(l.shown), tail);
    } else {
      ReceiveKeep(inv, named, n, tail);
    }
  }

  /** A whole inventory is received as it was sent, whatever the receiver had before. */
  lemma FullSync(ls: seq<ListState>, inv: map<string, ListBody>)
    requires DistinctNames(ls)
    ensures Receive(inv, {}, Message(ls, false)) == Some(Mapping(ls))
  {
    assert ls[0..] == ls;
    ReceivesFrom(ls, false, 0, inv, {});
  }

  // What becomes of a list that is only named, and of the names that are not in the message.
  ghost predicate AsBefore(ls: seq<ListState>, k: nat, inv: map<string, ListBody>, named: set<string>, got: map<string, ListBody>)
    requires k <= |ls|
  {
    && (forall i :: k <= i < |ls| && !ls[i].dirty ==> SameAt(ls[i].shown.name, inv, got))
    && (forall n :: (forall i :: k <= i < |ls| ==> ls[i].shown.name != n) ==>
        if n in named then SameAt(n, inv, got) else n !in got)
  }

  predicate SameAt(n: string, inv: map<string, ListBody>, got: map<string, ListBody>) {
    (n in got <==> n in inv) && (n in got ==> got[n] == inv[n])
  }

  lemma AsBeforeMarked(ls: seq<ListState>, k: nat, inv: map<string, ListBody>, named: set<string>, body: ListBody, got: map<string, ListBody>)
    requires DistinctNames(ls) && k < |ls| && ls[k].dirty
    requires AsBefore(ls, k + 1, inv[ls[k].shown.name := body], named + {ls[k].shown.name}, got)
    ensures AsBefore(ls, k, inv, named, got)
  {
    var n := ls[k].shown.name;
    var inv1 := inv[n := body];
    forall i | k <= i < |ls| && !ls[i].dirty
      ensures SameAt(ls[i].shown.name, inv, got)
    {
      assert SameAt(ls[i].shown.name, inv1, got);
    }
    forall m | forall i :: k <= i < |ls| ==> ls[i].shown.name != m
      ensures if m in named then SameAt(m, inv, got) else m !in got
    {
      assert m != n;
    }
  }

  lemma AsBeforeNamed(ls: seq<ListState>, k: nat, inv: map<string, ListBody>, named: set<string>, got: map<string, ListBody>)
    requires DistinctNames(ls) && k < |ls| && !ls[k].dirty
    requires AsBefore(ls, k + 1, inv, if ls[k].shown.name in inv then named + {ls[k].shown.name} else named, got)
    ensures AsBefore(ls, k, inv, named, got)
  {
    var n := ls[k].shown.name;
    assert forall i :: k + 1 <= i < |ls| ==> ls[i].shown.name != n;
    assert SameAt(n, inv, got);
    forall m | forall i :: k <= i < |ls| ==> ls[i].shown.name != m
      ensures if m in named then SameAt(m, inv, got) else m !in got
    {
      assert m != n;
    }
  }

  lemma {:induction false} NamedKeeps(ls: seq<ListState>, k: nat, inv: map<string, ListBody>, named: set<string>)
    requires DistinctNames(ls) && k <= |ls|
    requires forall i :: k <= i < |ls| ==> ls[i].shown.name !in named
    ensures var r := Receive(inv, named, Message(ls[k..], true)); r.Some? && AsBefore(ls, k, inv, named, r.value)
    decreases |ls| - k
  {
    if k >= |ls| {
    } else {
      hide AsBefore, BodyOf;
      var (l, n) := (ls[k], ls[k].shown.name);
      assert ls[k..][0] == l && ls[k..][1..] == ls[k + 1..];
      var tail := Message(ls[k + 1..], true);
      if l.dirty {
        NamedKeeps(ls, k + 1, inv[n := BodyOf(l.shown)], named + {n});
        ReceivesEntry(l, true, inv, named, tail);
        hide Receive, Entry;
        AsBeforeMarked(ls, k, inv, named, BodyOf(l.shown), Receive(inv, named, Message(ls[k..], true)).value);
      } else {
        var lines := Entry(l, true) + tail;
        assert lines[0] == KeepList(n) && lines[1..] == tail;
        NamedKeeps(ls, k + 1, inv, if n in inv then named + {n} else named);
        AsBeforeNamed(ls, k, inv, named, Receive(inv, named, Message(ls[k..], true)).value);
      }
    }
  }

  /**
   With distinct names, an incremental message gives the receiver the sender's mapping exactly when the
   receiver has every list that is not marked: one unmarked change is enough to lose it.
   */
  lemma IncrementalExactly(ls: seq<ListState>, inv: map<string, ListBody>)
    requires DistinctNames(ls)
    ensures Receive(inv, {}, Message(ls, true)) == Some(Mapping(ls)) <==> UpToDate(ls, inv)
  {
    assert ls[0..] == ls;
    if UpToDate(ls, inv) {
      ReceivesFrom(ls, true, 0, inv, {});
    }
    NamedKeeps(ls, 0, inv, {});
    hide Receive, Message, BodyOf;
    if Receive(inv, {}, Message(ls, true)) == Some(Mapping(ls)) {
      forall i | 0 <= i < |ls| && !ls[i].dirty
        ensures ls[i].shown.name in inv && inv[ls[i].shown.name] == BodyOf(ls[i].shown)
      {
        MappingHas(ls, i);
        assert SameAt(ls[i].shown.name, inv, Mapping(ls));
      }
    }
  }

  // What list operations may do to a list: leave it alone, or mark it dirty.
  ghost predicate TrackedChange(before: seq<ListState>, after: seq<ListState>) {
    forall i :: 0 <= i < |after| ==> after[i].dirty || after[i] in before
  }

  // An operation on an inventory: a tracked change that leaves the names distinct.
  ghost predicate Operation(before: seq<ListState>, after: seq<ListState>) {
    TrackedChange(before, after) && DistinctNames(after)
  }

  ghost predicate OperationRun(run: seq<seq<ListState>>) {
    run != [] && DistinctNames(run[0]) && forall i :: 0 <= i < |run| - 1 ==> Operation(run[i], run[i + 1])
  }

  lemma TrackedKeepsUpToDate(before: seq<ListState>, after: seq<ListState>, inv: map<string, ListBody>)
    requires TrackedChange(before, after) && UpToDate(before, inv)
    ensures UpToDate(after, inv)
  {
    hide BodyOf;
    forall i | 0 <= i < |after| && !after[i].dirty
      ensures after[i].shown.name in inv && inv[after[i].shown.name] == BodyOf(after[i].shown)
    {
      var j :| 0 <= j < |before| && before[j] == after[i];
    }
  }

  lemma {:induction false} RunKeepsUpToDate(run: seq<seq<ListState>>, inv: map<string, ListBody>)
    requires OperationRun(run) && UpToDate(run[0], inv)
    ensures UpToDate(run[|run| - 1], inv) && DistinctNames(run[|run| - 1])
  {
    hide UpToDate, DistinctNames, TrackedChange;
    if |run| == 1 {
    } else {
      var init := run[..|run| - 1];
      RunKeepsUpToDate(init, inv);
      assert run[|run| - 2] == init[|init| - 1] && Operation(run[|run| - 2], run[|run| - 2 + 1]);
      TrackedKeepsUpToDate(run[|run| - 2], run[|run| - 1], inv);
    }
  }

  function AllHandled(ls: seq<ListState>): (r: seq<ListState>)
    ensures |r| == |ls| && forall i :: 0 <= i < |r| ==> r[i] == ls[i].(dirty := false)
  {
    seq(|ls|, i requires 0 <= i < |ls| => ls[i].(dirty := false))
  }

  lemma HandledUpToDate(ls: seq<ListState>)
    requires DistinctNames(ls)
    ensures UpToDate(AllHandled(ls), Mapping(ls)) && DistinctNames(AllHandled(ls))
  {
    forall i | 0 <= i < |ls|
      ensures ls[i].shown.name in Mapping(ls) && Mapping(ls)[ls[i].shown.name] == BodyOf(ls[i].shown)
    {
      MappingHas(ls, i);
    }
  }

  /**
   After any run of operations since the last message, an incremental message makes the receiver's
   mapping the sender's, and the two are up to date again once the flags are cleared.
   */
  lemma IncrementalSync(run: seq<seq<ListState>>, inv: map<string, ListBody>)
    requires OperationRun(run) && UpToDate(run[0], inv)
    ensures var ls := run[|run| - 1];
      Receive(inv, {}, Message(ls, true)) == Some(Mapping(ls)) && UpToDate(AllHandled(ls), Mapping(ls))
  {
    RunKeepsUpToDate(run, inv);
    var ls := run[|run| - 1];
    IncrementalExactly(ls, inv);
    HandledUpToDate(ls);
  }
}
