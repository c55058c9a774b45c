/**
 The kinds of crafting definition of src/craftdef.cpp: what each accepts, its priority, and the
 hash under which CCraftDefManager::initHashes files it.
 */
module CraftDefs {
  import opened BipartiteMatching
  import opened Items
  import opened NameLists
  import opened CraftRecipes
  import opened CraftGrid

  datatype CraftDefinition =
    | DefShaped(output: string, width: nat, recipe: seq<string>)
    | DefShapeless(output: string, recipe: seq<string>)
    | DefToolRepair(additionalWear: real)
    | DefCooking(output: string, item: string)
    | DefFuel(item: string)

  // itemName deserializes an item string and resolves aliases in its name; murmur is the string hash.
  datatype GameDef = GameDef(idef: ItemDefManager, itemName: string -> string, murmur: string -> nat)

  function ResolveNames(recipe: seq<string>, gd: GameDef): (r: seq<string>)
    ensures |r| == |recipe| && forall i :: 0 <= i < |r| ==> r[i] == gd.itemName(recipe[i])
  {
    seq(|recipe|, i requires 0 <= i < |recipe| => gd.itemName(recipe[i]))
  }

  predicate HasGroupItem(recipe: seq<string>) {
    exists i :: 0 <= i < |recipe| && IsGroupRecipeStr(recipe[i])
  }

  // ---------------------------------------------------------------- tool repair

  // The first two non-empty stacks, unless there is a third.
  function ToolPair(items: seq<ItemStack>, item1: ItemStack, item2: ItemStack): (bool, ItemStack, ItemStack) {
    if items == [] then (true, item1, item2)
    else if items[0].Empty() then ToolPair(items[1..], item1, item2)
    else if item1.Empty() then ToolPair(items[1..], items[0], item2)
    else if item2.Empty() then ToolPair(items[1..], item1, items[0])
    else (false, item1, item2)
  }

  function CraftToolRepair(item1: ItemStack, item2: ItemStack, additionalWear: real, idef: ItemDefManager): ItemStack {
    if item1.count != 1 || item2.count != 1 || item1.name != item2.name
      || !idef.Get(item1.name).isTool
      || ItemGroupGet(idef.Get(item1.name).groups, "disable_repair") == 1
    then NO_ITEM
    else
      var newUses := (65536 - item1.wear) + (65536 - item2.wear);
      var newWear := 65536 - newUses + (additionalWear * 65536.0 + 0.5).Floor;
      if newWear >= 65536 then NO_ITEM
      else item1.(wear := if newWear < 0 then 0 else newWear)
  }

  // The stacks that hold something, in order.
  function Filled(items: seq<ItemStack>): seq<ItemStack> {
    if items == [] then [] else (if items[0].count > 0 then [items[0]] else []) + Filled(items[1..])
  }

  lemma {:induction false} ToolPairIsFilled(items: seq<ItemStack>, item1: ItemStack, item2: ItemStack)
    requires item1.count == 0 ==> item2.count == 0
    ensures var f := (if item1.count > 0 then [item1] else []) + (if item2.count > 0 then [item2] else []) + Filled(items);
      ToolPair(items, item1, item2) == (|f| <= 2, if |f| > 0 then f[0] else item1, if |f| > 1 then f[1] else item2)
    decreases |items|
  {
    if items == [] {
    } else if items[0].Empty() {
      ToolPairIsFilled(items[1..], item1, item2);
    } else if item1.Empty() {
      ToolPairIsFilled(items[1..], items[0], item2);
    } else if item2.Empty() {
      ToolPairIsFilled(items[1..], item1, items[0]);
    }
  }

  // The whole number next to x, the upper one in the middle.
  ghost predicate IsRounded(n: int, x: real) {
    n as real - 0.5 <= x < n as real + 0.5
  }

  // Two single tools of one kind, not barred from repair, whose uses left exceed the wear added.
  ghost predicate CanRepair(a: ItemStack, b: ItemStack, extra: int, idef: ItemDefManager) {
    var def := idef.Get(a.name);
    && a.count == 1 && b.count == 1 && a.name == b.name && def.isTool
    && !("disable_repair" in def.groups && def.groups["disable_repair"] == 1)
    && (65536 - a.wear) + (65536 - b.wear) > extra
  }

  // A tool like a: with the uses left of both, less the wear added, but no more than a new one.
  ghost predicate IsRepaired(t: ItemStack, a: ItemStack, b: ItemStack, extra: int) {
    && t.name == a.name && t.count == 1 && t.metadata == a.metadata
    && var uses := (65536 - a.wear) + (65536 - b.wear) - extra;
    65536 - t.wear == if uses < 65536 then uses else 65536
  }

  lemma RepairMeaning(a: ItemStack, b: ItemStack, additionalWear: real, extra: int, idef: ItemDefManager)
    requires IsRounded(extra, additionalWear * 65536.0)
    ensures !CraftToolRepair(a, b, additionalWear, idef).Empty() <==> CanRepair(a, b, extra, idef)
    ensures CanRepair(a, b, extra, idef) ==> IsRepaired(CraftToolRepair(a, b, additionalWear, idef), a, b, extra)
  {
    assert (additionalWear * 65536.0 + 0.5).Floor == extra;
  }

  // ---------------------------------------------------------------- check

  // Cooking and fuel recipes want one item.
  predicate SingleItemFits(items: seq<ItemStack>, recName: string, idef: ItemDefManager) {
    var names := NonEmptyNames(items);
    |names| == 1 && Matches(names[0], recName, idef)
  }

  ghost predicate Check(def: CraftDefinition, input: CraftInput, gd: GameDef) {
    match def
    case DefShaped(_, width, recipe) =>
      && input.method_ == Normal && input.width > 0 && width > 0
      && ShapedMatches(Pad(ItemNames(input.items), input.width), input.width, Pad(ResolveNames(recipe, gd), width), width, gd.idef)
    case DefShapeless(_, recipe) =>
      && input.method_ == Normal
      && |Keep(ResolveNames(recipe, gd), IsGroupRecipeStr)| <= SHAPELESS_GROUPS_MAX
      && CanArrange(NonEmptyNames(input.items), ResolveNames(recipe, gd), gd.idef)
    case DefToolRepair(additionalWear) =>
      && input.method_ == Normal
      && var (two, item1, item2) := ToolPair(input.items, NO_ITEM, NO_ITEM);
      two && !CraftToolRepair(item1, item2, additionalWear, gd.idef).Empty()
    case DefCooking(_, item) =>
      input.method_ == Cooking && SingleItemFits(input.items, gd.itemName(item), gd.idef)
    case DefFuel(item) =>
      input.method_ == Fuel && SingleItemFits(input.items, gd.itemName(item), gd.idef)
  }

  method CheckDefinition(def: CraftDefinition, input: CraftInput, gd: GameDef) returns (ok: bool)
    ensures ok == Check(def, input, gd)
  {
    match def
    case DefShaped(_, width, recipe) =>
      ok := ShapedCheck(ResolveNames(recipe, gd), width, input, gd.idef);
    case DefShapeless(_, recipe) =>
      ok := ShapelessCheck(ResolveNames(recipe, gd), input, gd.idef);
    case DefToolRepair(additionalWear) =>
      if input.method_ != Normal {
        return false;
      }
      var item1, item2 := NO_ITEM, NO_ITEM;
      for i := 0 to |input.items|
        invariant ToolPair(input.items, NO_ITEM, NO_ITEM) == ToolPair(input.items[i..], item1, item2)
      {
        var item := input.items[i];
        if !item.Empty() {
          if item1.Empty() {
            item1 := item;
          } else if item2.Empty() {
            item2 := item;
          } else {
            return false;
          }
        }
      }
      ok := !CraftToolRepair(item1, item2, additionalWear, gd.idef).Empty();
    case DefCooking(_, item) =>
      ok := input.method_ == Cooking && SingleItemFits(input.items, gd.itemName(item), gd.idef);
    case DefFuel(item) =>
      ok := input.method_ == Fuel && SingleItemFits(input.items, gd.itemName(item), gd.idef);
  }

  /** Tool repair wants nothing but two tools in the grid that can be repaired. */
  lemma ToolRepairMeaning(additionalWear: real, extra: int, input: CraftInput, gd: GameDef)
    requires IsRounded(extra, additionalWear * 65536.0)
    ensures Check(DefToolRepair(additionalWear), input, gd) <==>
      && input.method_ == Normal
      && exists a, b :: Filled(input.items) == [a, b] && CanRepair(a, b, extra, gd.idef)
  {
    hide CraftToolRepair, CanRepair;
    ToolPairIsFilled(input.items, NO_ITEM, NO_ITEM);
    var f := Filled(input.items);
    var (two, item1, item2) := ToolPair(input.items, NO_ITEM, NO_ITEM);
    RepairMeaning(item1, item2, additionalWear, extra, gd.idef);
    if |f| == 2 {
      assert f == [item1, item2];
    } else {
      BlankIsNoTool(item1, item2, extra, gd.idef);
    }
  }

  lemma BlankIsNoTool(a: ItemStack, b: ItemStack, extra: int, idef: ItemDefManager)
    ensures a.count == 0 || b.count == 0 ==> !CanRepair(a, b, extra, idef)
  {}

  // Stack i is the only one with a name, and it fits the slot.
  ghost predicate OnlyOneFits(items: seq<ItemStack>, i: nat, slot: string, idef: ItemDefManager) {
    && i < |items| && items[i].name != "" && Matches(items[i].name, slot, idef)
    && forall j :: 0 <= j < |items| && j != i ==> items[j].name == ""
  }

  /** A furnace takes one item in its slot, for a fuel as for something to be cooked, and takes the two apart. */
  lemma FurnaceMeaning(output: string, item: string, input: CraftInput, gd: GameDef)
    ensures Check(DefCooking(output, item), input, gd) <==>
      input.method_ == Cooking && exists i :: OnlyOneFits(input.items, i, gd.itemName(item), gd.idef)
    ensures Check(DefFuel(item), input, gd) <==>
      input.method_ == Fuel && exists i :: OnlyOneFits(input.items, i, gd.itemName(item), gd.idef)
  {
    hide Matches;
    var slot := gd.itemName(item);
    if i: nat :| OnlyOneFits(input.items, i, slot, gd.idef) {
      NamesOfOne(input.items, i);
    }
    if |NonEmptyNames(input.items)| == 1 {
      var i := OneNamed(input.items);
      assert Matches(NonEmptyNames(input.items)[0], slot, gd.idef) ==> OnlyOneFits(input.items, i, slot, gd.idef);
    }
  }

  lemma {:induction false} NoNames(items: seq<ItemStack>)
    ensures NonEmptyNames(items) == [] <==> forall j :: 0 <= j < |items| ==> items[j].name == ""
  {
    if items == [] {
    } else {
      var front := items[..|items| - 1];
      NoNames(front);
      assert forall j :: 0 <= j < |front| ==> items[j] == front[j];
    }
  }

  lemma {:induction false} NamesOfOne(items: seq<ItemStack>, i: nat)
    requires i < |items| && items[i].name != ""
    requires forall j :: 0 <= j < |items| && j != i ==> items[j].name == ""
    ensures NonEmptyNames(items) == [items[i].name]
  {
    var front := items[..|items| - 1];
    if i == |items| - 1 {
      NoNames(front);
    } else {
      NamesOfOne(front, i);
    }
  }

  lemma {:induction false} OneNamed(items: seq<ItemStack>) returns (i: nat)
    requires |NonEmptyNames(items)| == 1
    ensures i < |items| && items[i].name == NonEmptyNames(items)[0] && items[i].name != ""
    ensures forall j :: 0 <= j < |items| && j != i ==> items[j].name == ""
  {
    var front := items[..|items| - 1];
    if items[|items| - 1].name != "" {
      i := |items| - 1;
      NoNames(front);
      assert forall j :: 0 <= j < |front| ==> items[j] == front[j];
    } else {
      i := OneNamed(front);
      assert forall j :: 0 <= j < |front| ==> items[j] == front[j];
    }
  }

  // ---------------------------------------------------------------- priority

  const PRIORITY_NO_RECIPE := 0
  const PRIORITY_TOOLREPAIR := 1
  const PRIORITY_SHAPELESS_AND_GROUPS := 2
  const PRIORITY_SHAPELESS := 3
  const PRIORITY_SHAPED_AND_GROUPS := 4
  const PRIORITY_SHAPED := 5

  // Set in the constructors, from the unresolved item strings. The fuel constructor looks at a
  // member that is still empty, so every fuel gets the exact-name priority.
  function Priority(def: CraftDefinition): nat {
    match def
    case DefShaped(_, _, recipe) => if HasGroupItem(recipe) then PRIORITY_SHAPED_AND_GROUPS else PRIORITY_SHAPED
    case DefShapeless(_, recipe) => if HasGroupItem(recipe) then PRIORITY_SHAPELESS_AND_GROUPS else PRIORITY_SHAPELESS
    case DefToolRepair(_) => PRIORITY_TOOLREPAIR
    case DefCooking(_, item) => if IsGroupRecipeStr(item) then PRIORITY_SHAPELESS_AND_GROUPS else PRIORITY_SHAPELESS
    case DefFuel(_) => PRIORITY_SHAPELESS
  }

  // ---------------------------------------------------------------- ranks, said on the recipes

  // Some slot is for a group.
  ghost predicate AsksForGroup(recipe: seq<string>) {
    exists s :: s in recipe && |s| >= 6 && s[..6] == "group:"
  }

  ghost predicate IsShaped(def: CraftDefinition, groups: bool) {
    def.DefShaped? && (groups <==> AsksForGroup(def.recipe))
  }

  // Shapeless recipes and cooking; a fuel counts as one without groups.
  ghost predicate IsFlat(def: CraftDefinition, groups: bool) {
    || (def.DefShapeless? && (groups <==> AsksForGroup(def.recipe)))
    || (def.DefCooking? && (groups <==> AsksForGroup([def.item])))
    || (def.DefFuel? && !groups)
  }

  // Shaped without groups, shaped with groups, flat without groups, flat with groups, tool repair.
  ghost predicate Outranks(a: CraftDefinition, b: CraftDefinition) {
    || (IsShaped(a, false) && !IsShaped(b, false))
    || (IsShaped(a, true) && !b.DefShaped?)
    || (IsFlat(a, false) && (IsFlat(b, true) || b.DefToolRepair?))
    || (IsFlat(a, true) && b.DefToolRepair?)
  }

  lemma GroupItemIs(recipe: seq<string>)
    ensures HasGroupItem(recipe) <==> AsksForGroup(recipe)
  {
    if i :| 0 <= i < |recipe| && IsGroupRecipeStr(recipe[i]) {
      assert recipe[i] in recipe && recipe[i][..6] == "group:";
    }
    if s :| s in recipe && |s| >= 6 && s[..6] == "group:" {
      var i :| 0 <= i < |recipe| && recipe[i] == s;
      assert IsGroupRecipeStr(recipe[i]);
    }
  }

  /** The priorities rank the recipes so. */
  lemma PriorityRanks(a: CraftDefinition, b: CraftDefinition)
    ensures Priority(a) > Priority(b) <==> Outranks(a, b)
  {
    hide HasGroupItem, AsksForGroup;
    RankOf(a);
    RankOf(b);
  }

  lemma RankOf(d: CraftDefinition)
    ensures match d
      case DefShaped(_, _, recipe) => HasGroupItem(recipe) <==> AsksForGroup(recipe)
      case DefShapeless(_, recipe) => HasGroupItem(recipe) <==> AsksForGroup(recipe)
      case DefCooking(_, item) => IsGroupRecipeStr(item) <==> AsksForGroup([item])
      case _ => true
  {
    match d
    case DefShaped(_, _, recipe) => GroupItemIs(recipe);
    case DefShapeless(_, recipe) => GroupItemIs(recipe);
    case DefCooking(_, item) => GroupItemIs([item]); assert [item][0] == item;
    case _ =>
  }

  // ---------------------------------------------------------------- hashes

  datatype HashType = ItemNamesHash | CountHash | Unhashed

  function JoinLines(names: seq<string>): string {
    JoinWith(Keep(names, IsNonEmpty), "\n")
  }

  function HashForGrid(t: HashType, names: seq<string>, gd: GameDef): nat {
    match t
    case ItemNamesHash => gd.murmur(JoinLines(names))
    case CountHash => |Keep(names, IsNonEmpty)|
    case Unhashed => 0
  }

  function HashTypeOf(def: CraftDefinition, gd: GameDef): HashType {
    match def
    case DefShaped(_, _, recipe) => if HasGroupItem(ResolveNames(recipe, gd)) then CountHash else ItemNamesHash
    case DefShapeless(_, recipe) => if HasGroupItem(ResolveNames(recipe, gd)) then CountHash else ItemNamesHash
    case DefToolRepair(_) => CountHash
    case DefCooking(_, item) => if IsGroupRecipeStr(gd.itemName(item)) then CountHash else ItemNamesHash
    case DefFuel(item) => if IsGroupRecipeStr(gd.itemName(item)) then CountHash else ItemNamesHash
  }

  function HashOf(def: CraftDefinition, gd: GameDef): nat {
    var t := HashTypeOf(def, gd);
    match def
    case DefShaped(_, _, recipe) => HashForGrid(t, Sort(ResolveNames(recipe, gd)), gd)
    case DefShapeless(_, recipe) => HashForGrid(t, Sort(ResolveNames(recipe, gd)), gd)
    case DefToolRepair(_) => 2
    case DefCooking(_, item) => if t == ItemNamesHash then gd.murmur(gd.itemName(item)) else 1
    case DefFuel(item) => if t == ItemNamesHash then gd.murmur(gd.itemName(item)) else 1
  }

  // ---------------------------------------------------------------- a match implies equal hashes

  ghost predicate WellFormedInput(input: CraftInput) {
    forall i :: 0 <= i < |input.items| ==> input.items[i].WellFormed()
  }

  lemma {:induction false} NonEmptyNamesAreKept(items: seq<ItemStack>)
    ensures NonEmptyNames(items) == Keep(ItemNames(items), IsNonEmpty)
    decreases |items|
  {
    if items == [] {
    } else {
      NonEmptyNamesAreKept(items[..|items| - 1]);
      KeepSnoc(ItemNames(items));
      assert ItemNames(items)[..|items| - 1] == ItemNames(items[..|items| - 1]);
    }
  }

  // Sorting first or dropping the blanks first comes to the same.
  lemma SameKeptSameSorted(a: seq<string>, b: seq<string>)
    requires multiset(Keep(a, IsNonEmpty)) == multiset(Keep(b, IsNonEmpty))
    ensures Keep(Sort(a), IsNonEmpty) == Keep(Sort(b), IsNonEmpty)
  {
    KeepContents(Sort(a), a, IsNonEmpty);
    KeepContents(Sort(b), b, IsNonEmpty);
    SortIsSorted(a);
    SortIsSorted(b);
    SortedKeep(Sort(a), IsNonEmpty);
    SortedKeep(Sort(b), IsNonEmpty);
    SortedUnique(Keep(Sort(a), IsNonEmpty), Keep(Sort(b), IsNonEmpty));
  }

  lemma KeptCount(a: seq<string>)
    ensures |Keep(Sort(a), IsNonEmpty)| == |Keep(a, IsNonEmpty)|
  {
    KeepContents(Sort(a), a, IsNonEmpty);
    assert |multiset(Keep(Sort(a), IsNonEmpty))| == |Keep(Sort(a), IsNonEmpty)|;
    assert |multiset(Keep(a, IsNonEmpty))| == |Keep(a, IsNonEmpty)|;
  }

  // Names that match a recipe's names one by one have the recipe's hash.
  lemma MatchInOrderHash(names: seq<string>, rec: seq<string>, gd: GameDef)
    requires MatchInOrder(Keep(names, IsNonEmpty), Keep(rec, IsNonEmpty), gd.idef)
    ensures var t := if HasGroupItem(rec) then CountHash else ItemNamesHash;
      HashForGrid(t, Sort(names), gd) == HashForGrid(t, Sort(rec), gd)
  {
    var a, b := Keep(names, IsNonEmpty), Keep(rec, IsNonEmpty);
    KeptCount(names);
    KeptCount(rec);
    if !HasGroupItem(rec) {
      forall k | 0 <= k < |a| ensures a[k] == b[k] {
        assert b[k] in b;
        PlainMatch(a[k], b[k], gd.idef);
      }
      assert a == b;
      SameKeptSameSorted(names, rec);
    }
  }

  // A full assignment can be read as a one-by-one match against a reordering of the names.
  lemma ArrangedHash(names: seq<string>, rec: seq<string>, gd: GameDef)
    requires CanArrange(Keep(names, IsNonEmpty), rec, gd.idef)
    ensures var t := if HasGroupItem(rec) then CountHash else ItemNamesHash;
      HashForGrid(t, Sort(names), gd) == HashForGrid(t, Sort(rec), gd)
  {
    var a := Keep(names, IsNonEmpty);
    var m :| Arranges(a, rec, gd.idef, m);
    forall j | 0 <= j < |rec| ensures rec[j] != "" {
      PermutationOnto(m, j);
      var i :| 0 <= i < |m| && m[i] == j;
      assert a[i] in a;
      BlankSlot(a[i], gd.idef);
    }
    KeepAll(rec);
    KeptCount(names);
    KeptCount(rec);
    if !HasGroupItem(rec) {
      forall i | 0 <= i < |a| ensures a[i] == rec[m[i]] {
        PlainMatch(a[i], rec[m[i]], gd.idef);
      }
      ReadThrough(rec, m, a);
      SameKeptSameSorted(names, rec);
    }
  }

  lemma {:induction false} KeepAll(s: seq<string>)
    requires forall j :: 0 <= j < |s| ==> s[j] != ""
    ensures Keep(s, IsNonEmpty) == s
  {
    if s == [] {
    } else {
      KeepAll(s[1..]);
    }
  }

  lemma SingleHash(names: seq<string>, recName: string, gd: GameDef)
    requires |Keep(names, IsNonEmpty)| == 1 && Matches(Keep(names, IsNonEmpty)[0], recName, gd.idef)
    ensures |Keep(Sort(names), IsNonEmpty)| == 1
    ensures !IsGroupRecipeStr(recName) ==> JoinLines(Sort(names)) == recName
  {
    var a := Keep(names, IsNonEmpty);
    KeptCount(names);
    if !IsGroupRecipeStr(recName) {
      PlainMatch(a[0], recName, gd.idef);
      assert a == [recName];
      assert a[0] in a;
      KeepAll([recName]);
      SameKeptSameSorted(names, [recName]);
      assert Sort([recName]) == [recName];
    }
  }

  // Two tools are two non-empty names.
  lemma {:induction false} ToolPairCount(items: seq<ItemStack>, item1: ItemStack, item2: ItemStack)
    requires forall i :: 0 <= i < |items| ==> items[i].WellFormed()
    requires item1.Empty() ==> item2.Empty()
    ensures var (two, t1, t2) := ToolPair(items, item1, item2);
      var taken := (if item1.Empty() then 0 else 1) + (if item2.Empty() then 0 else 1);
      two && !t1.Empty() && !t2.Empty() ==> |Keep(ItemNames(items), IsNonEmpty)| == 2 - taken
    decreases |items|
  {
    if items == [] {
    } else {
      assert ItemNames(items)[1..] == ItemNames(items[1..]);
      if items[0].Empty() {
        ToolPairCount(items[1..], item1, item2);
      } else if item1.Empty() {
        ToolPairCount(items[1..], items[0], item2);
      } else if item2.Empty() {
        ToolPairCount(items[1..], item1, items[0]);
      }
    }
  }

  // The input has the hash the definition is filed under.
  predicate FoundByHash(def: CraftDefinition, input: CraftInput, gd: GameDef) {
    HashForGrid(HashTypeOf(def, gd), Sort(ItemNames(input.items)), gd) == HashOf(def, gd)
  }

  // No slot of a shaped recipe may be left empty without making the recipe's bounding box smaller.
  ghost predicate HashIsExact(def: CraftDefinition, gd: GameDef) {
    def.DefShaped? && def.width > 0 ==> NoLooseSlot(Pad(ResolveNames(def.recipe, gd), def.width), def.width, gd.idef)
  }

  /** All inputs a definition accepts have the hash it is filed under, exactly if it has no loose slot. */
  lemma CheckImpliesHash(def: CraftDefinition, gd: GameDef)
    ensures HashIsExact(def, gd) <==>
      forall input :: WellFormedInput(input) && Check(def, input, gd) ==> FoundByHash(def, input, gd)
  {
    if HashIsExact(def, gd) {
      forall input | WellFormedInput(input) && Check(def, input, gd) ensures FoundByHash(def, input, gd) {
        AcceptedIsFound(def, input, gd);
      }
    } else {
      var rec := Pad(ResolveNames(def.recipe, gd), def.width);
      var i :| 0 <= i < |rec| && rec[i] != "" && Matches("", rec[i], gd.idef)
        && BoundsUpTo(rec[i := ""], def.width, |rec|) == BoundsUpTo(rec, def.width, |rec|);
      LooseSlotMissed(def, gd, i);
    }
  }

  lemma AcceptedIsFound(def: CraftDefinition, input: CraftInput, gd: GameDef)
    requires WellFormedInput(input) && Check(def, input, gd) && HashIsExact(def, gd)
    ensures FoundByHash(def, input, gd)
  {
    hide Matches, ShapedMatches, Arranges, NoLooseSlot, Pad, Sort, Keep, JoinLines;
    var names := ItemNames(input.items);
    NonEmptyNamesAreKept(input.items);
    match def
    case DefShaped(_, width, recipe) =>
      ShapedIsFound(names, input.width, ResolveNames(recipe, gd), width, gd);
    case DefShapeless(_, recipe) =>
      ArrangedHash(names, ResolveNames(recipe, gd), gd);
    case DefToolRepair(_) =>
      ToolPairCount(input.items, NO_ITEM, NO_ITEM);
      KeptCount(names);
    case DefCooking(_, item) =>
      SingleHash(names, gd.itemName(item), gd);
    case DefFuel(item) =>
      SingleHash(names, gd.itemName(item), gd);
  }

  lemma ShapedIsFound(names: seq<string>, iw: nat, rec: seq<string>, rw: nat, gd: GameDef)
    requires iw > 0 && rw > 0 && ShapedMatches(Pad(names, iw), iw, Pad(rec, rw), rw, gd.idef) && NoLooseSlot(Pad(rec, rw), rw, gd.idef)
    ensures var t := if HasGroupItem(rec) then CountHash else ItemNamesHash;
      HashForGrid(t, Sort(names), gd) == HashForGrid(t, Sort(rec), gd)
  {
    hide ShapedMatches, NoLooseSlot, Pad, HashForGrid, HasGroupItem;
    ShapedMatchesInOrder(Pad(names, iw), iw, Pad(rec, rw), rw, gd.idef);
    PadIsWhole(names, iw);
    PadIsWhole(rec, rw);
    MatchInOrderHash(names, rec, gd);
  }

  // The recipe itself with slot i left empty, as an input.
  function WithoutSlot(def: CraftDefinition, gd: GameDef, i: nat): (input: CraftInput)
    requires def.DefShaped? && def.width > 0
    ensures WellFormedInput(input)
  {
    var rec := Pad(ResolveNames(def.recipe, gd), def.width);
    CraftInput(Normal, def.width, seq(|rec|, j requires 0 <= j < |rec| =>
      if j == i || rec[j] == "" then NO_ITEM else ItemStack(rec[j], 1, 0, map[])))
  }

  lemma LooseSlotMissed(def: CraftDefinition, gd: GameDef, i: nat)
    requires def.DefShaped? && def.width > 0
    requires var rec := Pad(ResolveNames(def.recipe, gd), def.width);
      i < |rec| && rec[i] != "" && Matches("", rec[i], gd.idef)
      && BoundsUpTo(rec[i := ""], def.width, |rec|) == BoundsUpTo(rec, def.width, |rec|)
    ensures Check(def, WithoutSlot(def, gd, i), gd) && !FoundByHash(def, WithoutSlot(def, gd, i), gd)
  {
    hide BoundsUpTo, Sort, Keep, Matches, ShapedMatches;
    var w, names, input := def.width, ResolveNames(def.recipe, gd), WithoutSlot(def, gd, i);
    var rec := Pad(names, w);
    PadIsWhole(names, w);
    assert ItemNames(input.items) == rec[i := ""];
    assert Pad(rec[i := ""], w) == rec[i := ""];
    WithoutMatches(rec, w, gd.idef, i);
    KeepWithout(rec, i);
    KeptCount(rec[i := ""]);
    KeptCount(names);
    FilledByHand(rec[i], gd.idef);
    assert names[i] == rec[i] && IsGroupRecipeStr(names[i]);
  }

  lemma FilledByHand(slot: string, idef: ItemDefManager)
    requires slot != "" && Matches("", slot, idef)
    ensures IsGroupRecipeStr(slot)
  {}

  lemma WithoutMatches(rec: seq<string>, w: nat, idef: ItemDefManager, i: nat)
    requires w > 0 && i < |rec| && rec[i] != "" && Matches("", rec[i], idef)
    requires BoundsUpTo(rec[i := ""], w, |rec|) == BoundsUpTo(rec, w, |rec|)
    ensures ShapedMatches(rec[i := ""], w, rec, w, idef)
  {
    hide BoundsUpTo, Cell;
    var less, b := rec[i := ""], BoundsUpTo(rec, w, |rec|);
    BoundsAreTight(rec, w, |rec|);
    forall x, y | 0 <= x <= b.maxX - b.minX && 0 <= y <= b.maxY - b.minY
      ensures CellsMatch(less, w, b, rec, w, b, idef, x, y)
    {
      CellWithout(rec, w, i, b.minX + x, b.minY + y);
      CellAt(rec, w, i);
    }
  }

  lemma KeepWithout(s: seq<string>, i: nat)
    requires i < |s| && s[i] != ""
    ensures |Keep(s[i := ""], IsNonEmpty)| == |Keep(s, IsNonEmpty)| - 1
  {
    hide Keep;
    assert s == s[..i] + ([s[i]] + s[i + 1..]) && s[i := ""] == s[..i] + ([""] + s[i + 1..]);
    KeepAppend(s[..i], [s[i]] + s[i + 1..], IsNonEmpty);
    KeepAppend(s[..i], [""] + s[i + 1..], IsNonEmpty);
    KeepAppend([s[i]], s[i + 1..], IsNonEmpty);
    KeepAppend([""], s[i + 1..], IsNonEmpty);
    KeepOne(s[i]);
    KeepOne("");
  }

  /**
   A slot for a group the hand is in (builtin/game/register.lua puts it in not_in_creative_inventory) between two
   items is filled by an empty cell, and the recipe is then not found under the count of the input's items.
   */
  lemma EmptyCellMissed(gd: GameDef, output: string, g: string, left: string, right: string)
    requires gd.idef.IsKnown("") && ItemGroupGet(gd.idef.Get("").groups, g) != 0 && g != "" && ',' !in g
    requires left != "" && right != "" && forall s :: s in [left, "group:" + g, right] ==> gd.itemName(s) == s
    ensures var def := DefShaped(output, 3, [left, "group:" + g, right]);
      var input := CraftInput(Normal, 3, [ItemStack(left, 1, 0, map[]), NO_ITEM, ItemStack(right, 1, 0, map[])]);
      !HashIsExact(def, gd) && Check(def, input, gd) && !FoundByHash(def, input, gd)
  {
    hide BoundsUpTo, Matches, Check, FoundByHash;
    var recipe := [left, "group:" + g, right];
    var def := DefShaped(output, 3, recipe);
    assert ResolveNames(recipe, gd) == recipe;
    assert Pad(recipe, 3) == recipe;
    GroupSlotMeaning("", [g], gd.idef);
    assert JoinWith([g], ",") == g;
    RowOfThree(recipe);
    RowOfThree(recipe[1 := ""]);
    LooseSlotMissed(def, gd, 1);
    assert WithoutSlot(def, gd, 1).items == [ItemStack(left, 1, 0, map[]), NO_ITEM, ItemStack(right, 1, 0, map[])];
  }

  lemma RowOfThree(names: seq<string>)
    requires |names| == 3 && names[0] != "" && names[2] != ""
    ensures BoundsUpTo(names, 3, 3) == Bounds(0, 2, 0, 0)
  {
    assert BoundsUpTo(names, 3, 1) == Bounds(0, 0, 0, 0);
    assert BoundsUpTo(names, 3, 2).maxX <= 1 && BoundsUpTo(names, 3, 2).(maxX := 0) == Bounds(0, 0, 0, 0);
  }
}
