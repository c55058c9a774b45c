/**
 Which inputs a recipe accepts: name and group slots, and the shapeless check of
 src/craftdef.cpp with its sorted-merge prefilter in front of the bipartite matching.
 */
module CraftRecipes {
  import opened Basics
  import opened BipartiteMatching
  import opened Items
  import opened NameLists

  datatype CraftMethod = Normal | Cooking | Fuel

  datatype CraftInput = CraftInput(method_: CraftMethod, width: nat, items: seq<ItemStack>)

  const GROUP_PREFIX := "group:"

  predicate IsGroupRecipeStr(name: string) {
    GROUP_PREFIX <= name
  }

  predicate IsPlainName(name: string) {
    !IsGroupRecipeStr(name)
  }

  predicate IsNonEmpty(name: string) {
    name != ""
  }

  // ---------------------------------------------------------------- group lists

  // Where c next occurs in s from pos on, or |s|.
  function FindChar(s: string, c: char, pos: nat): (n: nat)
    requires pos <= |s|
    ensures pos <= n <= |s|
    ensures n < |s| ==> s[n] == c
    ensures forall i :: pos <= i < n ==> s[i] != c
    decreases |s| - pos
  {
    if pos == |s| || s[pos] == c then pos else FindChar(s, c, pos + 1)
  }

  // Strfnd::next(","): the piece at pos and the position after its separator.
  function NextPiece(s: string, pos: nat): (r: (string, nat))
    ensures pos < |s| ==> pos < r.1
  {
    if pos >= |s| then ("", pos)
    else
      var n := FindChar(s, ',', pos);
      (s[pos..n], n + 1)
  }

  // The pieces a Strfnd yields from pos until it is at its end; at least one.
  function Pieces(s: string, pos: nat): seq<string>
    decreases |s| - pos
  {
    var (piece, next) := NextPiece(s, pos);
    if next >= |s| then [piece] else [piece] + Pieces(s, next)
  }

  predicate HasAllGroups(groups: map<string, int>, wanted: seq<string>) {
    forall g :: g in wanted ==> ItemGroupGet(groups, g) != 0
  }

  // Does an item of this name fit a recipe slot of that name?
  predicate Matches(inp: string, rec: string, idef: ItemDefManager) {
    || inp == rec
    || (IsGroupRecipeStr(rec) && idef.IsKnown(inp)
        && HasAllGroups(idef.Get(inp).groups, Pieces(rec[|GROUP_PREFIX|..], 0)))
  }

  method InputItemMatchesRecipe(inp: string, rec: string, idef: ItemDefManager) returns (matches: bool)
    ensures matches == Matches(inp, rec, idef)
  {
    if inp == rec {
      return true;
    }
    if !IsGroupRecipeStr(rec) || !idef.IsKnown(inp) {
      return false;
    }
    var def := idef.Get(inp);
    var f := rec[|GROUP_PREFIX|..];
    var pos := 0;
    while true
      invariant HasAllGroups(def.groups, Pieces(f, 0)) == HasAllGroups(def.groups, Pieces(f, pos))
      decreases |f| - pos
    {
      var (checkGroup, next) := NextPiece(f, pos);
      var here := Pieces(f, pos);
      assert here[0] == checkGroup;
      if ItemGroupGet(def.groups, checkGroup) == 0 {
        return false;
      }
      if next >= |f| {
        return true;
      }
      assert here == [checkGroup] + Pieces(f, next);
      pos := next;
    }
  }

  function JoinWith(parts: seq<string>, sep: string): string {
    if parts == [] then ""
    else if |parts| == 1 then parts[0]
    else parts[0] + sep + JoinWith(parts[1..], sep)
  }

  ghost predicate GroupNames(gs: seq<string>) {
    forall g :: g in gs ==> g != "" && ',' !in g
  }

  // The piece at the end of prefix + piece + tail, when tail is empty or starts with a comma.
  lemma PieceAt(prefix: string, piece: string, tail: string)
    requires piece != "" && ',' !in piece && (tail == "" || tail[0] == ',')
    ensures NextPiece(prefix + piece + tail, |prefix|) == (piece, |prefix + piece| + 1)
  {
    var s, k := prefix + piece + tail, |prefix + piece|;
    assert forall i :: |prefix| <= i < k ==> s[i] == piece[i - |prefix|];
    assert tail != "" ==> s[k] == ',';
    var n := FindChar(s, ',', |prefix|);
    assert n == k;
    assert s[|prefix|..k] == piece;
  }

  lemma {:induction false} PiecesOfJoin(gs: seq<string>, prefix: string)
    requires gs != [] && GroupNames(gs)
    ensures Pieces(prefix + JoinWith(gs, ","), |prefix|) == gs
    decreases |gs|
  {
    hide NextPiece, FindChar;
    assert gs[0] in gs;
    if |gs| == 1 {
      assert prefix + gs[0] + "" == prefix + gs[0] == prefix + JoinWith(gs, ",");
      PieceAt(prefix, gs[0], "");
    } else {
      var tail := "," + JoinWith(gs[1..], ",");
      assert JoinWith(gs, ",") == gs[0] + tail;
      assert prefix + JoinWith(gs, ",") == prefix + gs[0] + tail;
      PieceAt(prefix, gs[0], tail);
      var prefix' := prefix + gs[0] + ",";
      assert prefix + gs[0] + tail == prefix' + JoinWith(gs[1..], ",");
      assert gs[1] in gs && gs[1..][0] == gs[1];
      forall g | g in gs[1..] ensures g in gs {}
      PiecesOfJoin(gs[1..], prefix');
    }
  }

  // What a group slot means: the item is known and is in every group listed.
  lemma GroupSlotMeaning(inp: string, gs: seq<string>, idef: ItemDefManager)
    requires gs != [] && GroupNames(gs) && inp != "group:" + JoinWith(gs, ",")
    ensures var name := if inp in idef.aliases then idef.aliases[inp] else inp;
      Matches(inp, "group:" + JoinWith(gs, ","), idef) <==>
        && name in idef.definitions
        && forall g :: g in gs ==> g in idef.definitions[name].groups && idef.definitions[name].groups[g] != 0
  {
    var rec := "group:" + JoinWith(gs, ",");
    assert rec[|GROUP_PREFIX|..] == "" + JoinWith(gs, ",");
    PiecesOfJoin(gs, "");
  }

  // ---------------------------------------------------------------- assignments of items to slots

  // m sends every item to a slot of its own that it fits, and leaves no slot over.
  ghost predicate Arranges(items: seq<string>, slots: seq<string>, idef: ItemDefManager, m: seq<nat>) {
    && |m| == |items| == |slots|
    && IsPermutation(m)
    && forall i :: 0 <= i < |items| ==> Matches(items[i], slots[m[i]], idef)
  }

  ghost predicate CanArrange(items: seq<string>, slots: seq<string>, idef: ItemDefManager) {
    exists m :: Arranges(items, slots, idef, m)
  }

  // The order of items and of slots is immaterial.
  lemma ArrangeReordered(items: seq<string>, slots: seq<string>, items': seq<string>, slots': seq<string>, idef: ItemDefManager)
    requires multiset(items) == multiset(items') && multiset(slots) == multiset(slots')
    requires CanArrange(items, slots, idef)
    ensures CanArrange(items', slots', idef)
  {
    var m :| Arranges(items, slots, idef, m);
    var f := Rearrange(items, items');
    var g := Rearrange(slots', slots);
    var m' := seq(|f|, i requires 0 <= i < |f| => g[m[f[i]]]);
    forall i, j | 0 <= i < j < |m'| ensures m'[i] != m'[j] {
      assert f[i] != f[j];
      assert m[f[i]] != m[f[j]];
    }
    assert Arranges(items', slots', idef, m');
  }

  // Plain slots are met by equally named items, so they can be dealt with first: an assignment
  // exists exactly when the plain slots are among the items and the rest can take the group slots.
  lemma PlainSlotsFirst(items: seq<string>, plain: seq<string>, group: seq<string>, rest: seq<string>, idef: ItemDefManager)
    requires forall x :: x in plain ==> IsPlainName(x)
    requires multiset(rest) == multiset(items) - multiset(plain)
    ensures CanArrange(items, plain + group, idef) <==>
            multiset(plain) <= multiset(items) && CanArrange(rest, group, idef)
  {
    if multiset(plain) <= multiset(items) && CanArrange(rest, group, idef) {
      PlainThenRest(plain, group, rest, idef);
      assert multiset(plain + rest) == multiset(items);
      ArrangeReordered(plain + rest, plain + group, items, plain + group, idef);
    }
    if CanArrange(items, plain + group, idef) {
      var q := RestOfArrangement(items, plain, group, idef);
      assert multiset(q) == multiset(items) - multiset(plain);
      ArrangeReordered(q, group, rest, group, idef);
    }
  }

  lemma PlainThenRest(plain: seq<string>, group: seq<string>, rest: seq<string>, idef: ItemDefManager)
    requires CanArrange(rest, group, idef)
    ensures CanArrange(plain + rest, plain + group, idef)
  {
    var m :| Arranges(rest, group, idef, m);
    var k := |plain|;
    var m' := seq(k + |rest|, i requires 0 <= i < k + |rest| => if i < k then i else k + m[i - k]);
    forall i, j | 0 <= i < j < |m'| ensures m'[i] != m'[j] {
      if k <= i {
        assert m[i - k] != m[j - k];
      }
    }
    assert Arranges(plain + rest, plain + group, idef, m');
  }

  lemma PlainMatch(inp: string, rec: string, idef: ItemDefManager)
    requires IsPlainName(rec) && Matches(inp, rec, idef)
    ensures inp == rec
  {}

  lemma RestOfArrangement(items: seq<string>, plain: seq<string>, group: seq<string>, idef: ItemDefManager) returns (q: seq<string>)
    requires forall x :: x in plain ==> IsPlainName(x)
    requires CanArrange(items, plain + group, idef)
    ensures multiset(items) == multiset(plain) + multiset(q)
    ensures CanArrange(q, group, idef)
  {
    hide Matches;
    var slots, k := plain + group, |plain|;
    var m :| Arranges(items, slots, idef, m);
    var inv := Inverse(m);
    var p := seq(|slots|, j requires 0 <= j < |slots| => items[inv[j]]);
    ReadThrough(items, inv, p);
    q := p[k..];
    forall j | 0 <= j < |slots| ensures Matches(p[j], slots[j], idef) {
      assert m[inv[j]] == j;
    }
    forall j | 0 <= j < k ensures p[j] == plain[j] {
      assert plain[j] in plain && slots[j] == plain[j];
      PlainMatch(p[j], plain[j], idef);
    }
    assert p == plain + q;
    TailArranges(plain, q, group, idef);
  }

  lemma TailArranges(plain: seq<string>, q: seq<string>, group: seq<string>, idef: ItemDefManager)
    requires |q| == |group| && forall j :: 0 <= j < |plain + group| ==> Matches((plain + q)[j], (plain + group)[j], idef)
    ensures CanArrange(q, group, idef)
  {
    hide Matches;
    var m := Inline(|q|);
    forall j | 0 <= j < |q| ensures Matches(q[j], group[m[j]], idef) {
      assert (plain + q)[|plain| + j] == q[j] && (plain + group)[|plain| + j] == group[j];
    }
    assert Arranges(q, group, idef, m);
  }

  ghost function Inline(n: nat): (m: seq<nat>)
    ensures |m| == n && IsPermutation(m) && forall i :: 0 <= i < n ==> m[i] == i
  {
    seq(n, i => i)
  }

  // ---------------------------------------------------------------- the shapeless check

  function NonEmptyNames(items: seq<ItemStack>): seq<string> {
    if items == [] then []
    else
      var rest := NonEmptyNames(items[..|items| - 1]);
      var name := items[|items| - 1].name;
      if name != "" then rest + [name] else rest
  }

  // Which slots each item satisfies.
  method SlotGraph(items: seq<string>, slots: seq<string>, idef: ItemDefManager) returns (g: Graph)
    requires |items| == |slots| <= SHAPELESS_GROUPS_MAX
    ensures IsGraph(g) && |g| == |items|
    ensures CanMatchAll(g) <==> CanArrange(items, slots, idef)
  {
    g := [];
    for i := 0 to |items|
      invariant |g| == i
      invariant forall u, k :: 0 <= u < i && 0 <= k < |g[u]| ==> g[u][k] < |items|
      invariant forall u, j :: 0 <= u < i && 0 <= j < |slots| ==> (j in g[u] <==> Matches(items[u], slots[j], idef))
    {
      var neighbours: seq<u16> := [];
      for j := 0 to |slots|
        invariant forall k :: 0 <= k < |neighbours| ==> neighbours[k] < j
        invariant forall v :: 0 <= v < j ==> (v in neighbours <==> Matches(items[i], slots[v], idef))
      {
        var matches := InputItemMatchesRecipe(items[i], slots[j], idef);
        if matches {
          neighbours := neighbours + [j];
        }
      }
      g := g + [neighbours];
    }
    if m :| PerfectMatching(g, m) {
      forall u | 0 <= u < |g| ensures m[u] < |g| && Matches(items[u], slots[m[u]], idef) {
        var k :| 0 <= k < |g[u]| && g[u][k] == m[u];
      }
      assert Arranges(items, slots, idef, m);
    }
    if m :| Arranges(items, slots, idef, m) {
      assert PerfectMatching(g, m);
    }
  }

  /**
   CraftDefinitionShapeless::check. Some assignment puts every non-empty item of a crafting grid
   into a slot of its own that it fits, and fills every slot; recipes beyond the group cap are
   refused. Sorting, splitting off the plain slots and merging lose no assignment.
   */
  method ShapelessCheck(recipeNames: seq<string>, input: CraftInput, idef: ItemDefManager) returns (ok: bool)
    ensures ok <==>
      && input.method_ == Normal
      && |Keep(recipeNames, IsGroupRecipeStr)| <= 30000
      && CanArrange(NonEmptyNames(input.items), recipeNames, idef)
  {
    if input.method_ != Normal {
      return false;
    }
    var inputFiltered: seq<string> := [];
    for i := 0 to |input.items|
      invariant inputFiltered == NonEmptyNames(input.items[..i])
    {
      var item := input.items[i];
      assert input.items[..i + 1][..i] == input.items[..i];
      if item.name != "" {
        inputFiltered := inputFiltered + [item.name];
      }
    }
    assert input.items[..|input.items|] == input.items;
    ghost var names := inputFiltered;

    if |inputFiltered| != |recipeNames| {
      return false;
    }
    inputFiltered := Sort(inputFiltered);
    var recipeCopy := Sort(recipeNames);
    SortIsSorted(names);
    SortIsSorted(recipeNames);

    var recipeOnlyGroup := Keep(recipeCopy, IsGroupRecipeStr);
    var recipeNoGroup := Keep(recipeCopy, IsPlainName);
    PartitionContents(recipeCopy, IsGroupRecipeStr, IsPlainName);
    SortedKeep(recipeCopy, IsPlainName);

    var inputForGroup := SetDifference(inputFiltered, recipeNoGroup);
    PrefilterIsExact(names, recipeNames, inputFiltered, recipeCopy, inputForGroup, idef);

    if |inputFiltered| - |inputForGroup| != |recipeNoGroup| {
      return false;
    }
    if |recipeOnlyGroup| > SHAPELESS_GROUPS_MAX {
      return false;
    }
    var bipGraph := SlotGraph(inputForGroup, recipeOnlyGroup, idef);
    ok := HopcroftKarpCanMatchAll(bipGraph);
  }

  lemma SortedKeep(s: seq<string>, p: string -> bool)
    requires Sorted(s)
    ensures Sorted(Keep(s, p))
  {
    if s != [] {
      LessIrreflexive(s[0]);
      KeepKeepsSorted(s[0], s, p);
    }
  }

  // The two kinds of slots are all slots.
  lemma PartSizes(slots: seq<string>, recipe: seq<string>)
    requires multiset(slots) == multiset(recipe)
    ensures var plain, group := Keep(slots, IsPlainName), Keep(slots, IsGroupRecipeStr);
      && |group| == |Keep(recipe, IsGroupRecipeStr)| && |plain| + |group| == |slots|
      && multiset(plain + group) == multiset(slots) && forall x :: x in plain ==> IsPlainName(x)
  {
    hide Keep;
    var plain, group := Keep(slots, IsPlainName), Keep(slots, IsGroupRecipeStr);
    PartitionContents(slots, IsGroupRecipeStr, IsPlainName);
    KeepContents(slots, recipe, IsGroupRecipeStr);
    SameSize(group, Keep(recipe, IsGroupRecipeStr));
    SameSize(plain + group, slots);
  }

  lemma SameSize<T>(a: seq<T>, b: seq<T>)
    requires multiset(a) == multiset(b)
    ensures |a| == |b|
  {
    assert |multiset(a)| == |a| && |multiset(b)| == |b|;
  }

  // The size test after the merge and the matching of what is left decide the whole recipe.
  lemma PrefilterIsExact(names: seq<string>, recipe: seq<string>, items: seq<string>, slots: seq<string>,
                         rest: seq<string>, idef: ItemDefManager)
    requires multiset(items) == multiset(names) && multiset(slots) == multiset(recipe)
    requires |items| == |slots| && Sorted(items) && Sorted(slots)
    requires rest == SetDifference(items, Keep(slots, IsPlainName))
    ensures var plain, group := Keep(slots, IsPlainName), Keep(slots, IsGroupRecipeStr);
      && |group| == |Keep(recipe, IsGroupRecipeStr)|
      && (CanArrange(names, recipe, idef) <==> |items| - |rest| == |plain| && CanArrange(rest, group, idef))
      && (|items| - |rest| == |plain| ==> |rest| == |group|)
  {
    hide Keep, CanArrange, SetDifference;
    var plain, group := Keep(slots, IsPlainName), Keep(slots, IsGroupRecipeStr);
    PartSizes(slots, recipe);
    SortedKeep(slots, IsPlainName);
    SetDifferenceContents(items, plain);
    PlainSlotsFirst(items, plain, group, rest, idef);
    DifferenceSize(items, plain, rest);
    if CanArrange(names, recipe, idef) {
      ArrangeReordered(names, recipe, items, plain + group, idef);
    }
    if CanArrange(items, plain + group, idef) {
      ArrangeReordered(items, plain + group, names, recipe, idef);
    }
  }

  lemma DifferenceSize(a: seq<string>, b: seq<string>, rest: seq<string>)
    requires multiset(rest) == multiset(a) - multiset(b)
    ensures |a| - |rest| == |b| <==> multiset(b) <= multiset(a)
  {
    var both := multiset(a) * multiset(b);
    assert |multiset(a)| == |a| && |multiset(b)| == |b| && |multiset(rest)| == |rest|;
    assert multiset(a) == multiset(rest) + both;
    assert multiset(b) == (multiset(b) - both) + both;
    if |a| - |rest| == |b| {
      assert |multiset(b) - both| == 0;
      assert multiset(b) - both == multiset{};
      assert multiset(b) == both;
    }
  }
}
