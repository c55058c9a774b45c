/**
 The recipe registry of src/craftdef.cpp (CCraftDefManager): recipes are registered into an
 unhashed layer, initHashes files them by hash, and getCraftResult walks the layers.
 */
module CraftDefManagers {
  import opened Basics
  import opened Counting
  import opened Items
  import opened NameLists
  import opened CraftRecipes
  import opened CraftGrid
  import opened CraftDefs

  // ---------------------------------------------------------------- which recipe should be selected

  function OutputItem(def: CraftDefinition, input: CraftInput, gd: GameDef): string {
    match def
    case DefShaped(output, _, _) => gd.itemName(output)
    case DefShapeless(output, _) => gd.itemName(output)
    case DefToolRepair(additionalWear) =>
      var (_, item1, item2) := ToolPair(input.items, NO_ITEM, NO_ITEM);
      CraftToolRepair(item1, item2, additionalWear, gd.idef).name
    case DefCooking(output, _) => gd.itemName(output)
    case DefFuel(_) => ""
  }

  // The recipe applies and what it makes exists.
  ghost predicate Candidate(def: CraftDefinition, input: CraftInput, gd: GameDef) {
    Check(def, input, gd) && gd.idef.IsKnown(OutputItem(def, input, gd))
  }

  // What a recipe makes goes by this name: the output it names, the first of two tools repaired, or nothing for a fuel.
  ghost predicate Makes(def: CraftDefinition, input: CraftInput, gd: GameDef, name: string) {
    match def
    case DefToolRepair(_) => exists a, b :: Filled(input.items) == [a, b] && a.name == name
    case DefFuel(_) => name == ""
    case _ => name == gd.itemName(def.output)
  }

  ghost predicate Defined(name: string, idef: ItemDefManager) {
    if name in idef.aliases then idef.aliases[name] in idef.definitions else name in idef.definitions
  }

  /** A recipe that applies is a candidate exactly if what it makes is defined, by its own name or as an alias. */
  lemma CandidateMakes(def: CraftDefinition, input: CraftInput, gd: GameDef)
    requires Check(def, input, gd)
    ensures Candidate(def, input, gd) <==> exists name :: Makes(def, input, gd, name) && Defined(name, gd.idef)
  {
    hide Check, Defined;
    var made := OutputItem(def, input, gd);
    assert Makes(def, input, gd, made) by {
      if def.DefToolRepair? {
        RepairedName(def.additionalWear, input, gd);
      }
    }
    KnownIsDefined(made, gd.idef);
  }

  lemma KnownIsDefined(name: string, idef: ItemDefManager)
    ensures idef.IsKnown(name) <==> Defined(name, idef)
  {}

  // A repaired tool keeps the name of the first one.
  lemma RepairedName(additionalWear: real, input: CraftInput, gd: GameDef)
    requires Check(DefToolRepair(additionalWear), input, gd)
    ensures exists a, b :: Filled(input.items) == [a, b] && a.name == OutputItem(DefToolRepair(additionalWear), input, gd)
  {
    ToolPairIsFilled(input.items, NO_ITEM, NO_ITEM);
    var f := Filled(input.items);
    var (two, a, b) := ToolPair(input.items, NO_ITEM, NO_ITEM);
    assert |f| == 2;
    assert f == [a, b];
  }

  // Recipe k is preferred to recipe j: higher priority, then the earlier layer, then the later registration.
  predicate Preferred(defs: seq<CraftDefinition>, layer: nat -> nat, k: nat, j: nat)
    requires k < |defs| && j < |defs|
  {
    || Priority(defs[k]) > Priority(defs[j])
    || (Priority(defs[k]) == Priority(defs[j]) && (layer(k) < layer(j) || (layer(k) == layer(j) && j <= k)))
  }

  // r is the preferred candidate among the recipes in s.
  ghost predicate BestAmong(defs: seq<CraftDefinition>, layer: nat -> nat, input: CraftInput, gd: GameDef,
                            s: set<nat>, r: Option<nat>) {
    match r
    case None => forall j :: j in s && j < |defs| ==> !Candidate(defs[j], input, gd)
    case Some(k) =>
      && k in s && k < |defs| && Candidate(defs[k], input, gd)
      && forall j :: j in s && j < |defs| && Candidate(defs[j], input, gd) ==> Preferred(defs, layer, k, j)
  }

  // All recipes.
  ghost function Everything(defs: seq<CraftDefinition>): set<nat> {
    Below(|defs|)
  }

  // The recipe an unhashed back-to-front scan selects: highest priority, latest registered.
  ghost predicate ScanSelects(defs: seq<CraftDefinition>, input: CraftInput, gd: GameDef, r: Option<nat>) {
    if InputEmpty(input) then r == None
    else BestAmong(defs, (k: nat) => 2, input, gd, Everything(defs), r)
  }

  predicate InputEmpty(input: CraftInput) {
    forall i :: 0 <= i < |input.items| ==> input.items[i].Empty()
  }

  // ---------------------------------------------------------------- hash buckets

  function LayerIndex(t: HashType): nat {
    match t
    case ItemNamesHash => 0
    case CountHash => 1
    case Unhashed => 2
  }

  function LayerType(i: nat): HashType
    requires i < 3
  {
    if i == 0 then ItemNamesHash else if i == 1 then CountHash else Unhashed
  }

  type Buckets = map<nat, seq<nat>>

  function Bucket(b: Buckets, hash: nat): seq<nat> {
    if hash in b then b[hash] else []
  }

  function PushBack(b: Buckets, hash: nat, id: nat): Buckets {
    b[hash := Bucket(b, hash) + [id]]
  }

  lemma BucketPush(b: Buckets, h: nat, id: nat, hash: nat)
    ensures Bucket(PushBack(b, h, id), hash) == Bucket(b, hash) + if hash == h then [id] else []
  {}

  predicate FiledUnder(def: CraftDefinition, gd: GameDef, layer: nat, hash: nat) {
    LayerIndex(HashTypeOf(def, gd)) == layer && HashOf(def, gd) == hash
  }

  // The first n recipes filed under this hash, in registration order.
  function FiledIds(defs: seq<CraftDefinition>, gd: GameDef, layer: nat, hash: nat, n: nat): seq<nat>
    requires n <= |defs|
  {
    if n == 0 then []
    else
      var rest := FiledIds(defs, gd, layer, hash, n - 1);
      if FiledUnder(defs[n - 1], gd, layer, hash) then rest + [n - 1] else rest
  }

  lemma FiledIdsStep(defs: seq<CraftDefinition>, gd: GameDef, layer: nat, hash: nat, n: nat)
    requires n < |defs|
    ensures FiledIds(defs, gd, layer, hash, n + 1)
      == FiledIds(defs, gd, layer, hash, n) + if FiledUnder(defs[n], gd, layer, hash) then [n] else []
  {}

  // Positions below n, increasing, of all recipes filed here.
  ghost predicate Lists(ids: seq<nat>, defs: seq<CraftDefinition>, gd: GameDef, layer: nat, hash: nat, n: nat)
    requires n <= |defs|
  {
    && (forall i :: 0 <= i < |ids| ==> ids[i] < n && FiledUnder(defs[ids[i]], gd, layer, hash))
    && (forall i, j :: 0 <= i < j < |ids| ==> ids[i] < ids[j])
    && (forall k :: 0 <= k < n && FiledUnder(defs[k], gd, layer, hash) ==> k in ids)
  }

  lemma ListsOneMore(ids: seq<nat>, defs: seq<CraftDefinition>, gd: GameDef, layer: nat, hash: nat, n: nat)
    requires n < |defs| && Lists(ids, defs, gd, layer, hash, n)
    ensures Lists(if FiledUnder(defs[n], gd, layer, hash) then ids + [n] else ids, defs, gd, layer, hash, n + 1)
  {
    hide FiledUnder;
    var next := ids + [n];
    forall k | 0 <= k < n + 1 && FiledUnder(defs[k], gd, layer, hash) && FiledUnder(defs[n], gd, layer, hash) ensures k in next {
      if k < n {
        assert k in ids;
      } else {
        assert next[|ids|] == k;
      }
    }
  }

  lemma {:induction false} FiledIdsContents(defs: seq<CraftDefinition>, gd: GameDef, layer: nat, hash: nat, n: nat)
    requires n <= |defs|
    ensures Lists(FiledIds(defs, gd, layer, hash, n), defs, gd, layer, hash, n)
  {
    hide FiledUnder, Lists;
    if n == 0 {
      assert Lists([], defs, gd, layer, hash, 0) by { NothingFiled(defs, gd, layer, hash); }
    } else {
      FiledIdsContents(defs, gd, layer, hash, n - 1);
      ListsOneMore(FiledIds(defs, gd, layer, hash, n - 1), defs, gd, layer, hash, n - 1);
      FiledIdsStep(defs, gd, layer, hash, n - 1);
    }
  }

  lemma NothingFiled(defs: seq<CraftDefinition>, gd: GameDef, layer: nat, hash: nat)
    ensures Lists([], defs, gd, layer, hash, 0)
  {}

  lemma {:induction false} FiledIdsPrefix(defs: seq<CraftDefinition>, def: CraftDefinition, gd: GameDef, layer: nat, hash: nat, n: nat)
    requires n <= |defs|
    ensures FiledIds(defs + [def], gd, layer, hash, n) == FiledIds(defs, gd, layer, hash, n)
  {
    hide FiledUnder;
    if n == 0 {
    } else {
      FiledIdsPrefix(defs, def, gd, layer, hash, n - 1);
    }
  }

  function Range(lo: nat, hi: nat): (r: seq<nat>)
    requires lo <= hi
    ensures |r| == hi - lo && forall i :: 0 <= i < |r| ==> r[i] == lo + i
  {
    seq(hi - lo, i => lo + i)
  }

  // The two hash layers hold the first n recipes.
  ghost predicate HashLayers(defs: seq<CraftDefinition>, gd: GameDef, layers: seq<Buckets>, n: nat) {
    && |layers| == 3 && n <= |defs|
    && forall layer, hash {:trigger Bucket(layers[layer], hash)} :: 0 <= layer < 2 && 0 <= hash ==>
         Bucket(layers[layer], hash) == FiledIds(defs, gd, layer, hash, n)
  }

  lemma FileOne(defs: seq<CraftDefinition>, gd: GameDef, layers: seq<Buckets>, n: nat)
    requires HashLayers(defs, gd, layers, n) && n < |defs| && HashTypeOf(defs[n], gd) != Unhashed
    ensures var t := LayerIndex(HashTypeOf(defs[n], gd));
      HashLayers(defs, gd, layers[t := PushBack(layers[t], HashOf(defs[n], gd), n)], n + 1)
  {
    hide HashTypeOf, HashOf, FiledIds, Bucket, PushBack;
    var t, h := LayerIndex(HashTypeOf(defs[n], gd)), HashOf(defs[n], gd);
    var after := layers[t := PushBack(layers[t], h, n)];
    forall layer, hash {:trigger Bucket(after[layer], hash)} | 0 <= layer < 2 && 0 <= hash
      ensures Bucket(after[layer], hash) == FiledIds(defs, gd, layer, hash, n + 1)
    {
      assert Bucket(layers[layer], hash) == FiledIds(defs, gd, layer, hash, n);
      FiledIdsStep(defs, gd, layer, hash, n);
      BucketPush(layers[t], h, n, hash);
    }
  }

  lemma NoUnhashedType(def: CraftDefinition, gd: GameDef)
    ensures HashTypeOf(def, gd) != Unhashed
  {}

  lemma LastLayerFree(defs: seq<CraftDefinition>, gd: GameDef, layers: seq<Buckets>, last: Buckets, n: nat)
    requires HashLayers(defs, gd, layers, n)
    ensures HashLayers(defs, gd, layers[2 := last], n)
  {
    var after := layers[2 := last];
    forall layer, hash {:trigger Bucket(after[layer], hash)} | 0 <= layer < 2 && 0 <= hash
      ensures Bucket(after[layer], hash) == FiledIds(defs, gd, layer, hash, n)
    {
      assert Bucket(layers[layer], hash) == FiledIds(defs, gd, layer, hash, n);
    }
  }

  // The first `hashed` recipes are filed by hash; the rest still wait in bucket 0 of the last layer.
  ghost predicate Filed(defs: seq<CraftDefinition>, gd: GameDef, layers: seq<Buckets>, hashed: nat) {
    && |layers| == 3 && hashed <= |defs|
    && HashLayers(defs, gd, layers, hashed)
    && Bucket(layers[2], 0) == Range(hashed, |defs|)
  }

  // The layer recipe k is found in.
  function LayerOf(defs: seq<CraftDefinition>, gd: GameDef, hashed: nat): nat -> nat {
    (k: nat) => if k < |defs| && k < hashed then LayerIndex(HashTypeOf(defs[k], gd)) else 2
  }

  // The recipes a lookup comes across: the waiting ones, and those filed under the input's hash.
  ghost function InReach(defs: seq<CraftDefinition>, gd: GameDef, hashed: nat, input: CraftInput): set<nat> {
    set k | k in Below(|defs|) && (k < hashed ==> FoundByHash(defs[k], input, gd))
  }

  function PriorityOf(defs: seq<CraftDefinition>, best: Option<nat>): nat {
    if best.Some? && best.value < |defs| then Priority(defs[best.value]) else PRIORITY_NO_RECIPE
  }

  // One step of a walk: a recipe displaces the best so far only with a strictly higher priority.
  lemma ConsiderRecipe(defs: seq<CraftDefinition>, layer: nat -> nat, input: CraftInput, gd: GameDef,
                 seen: set<nat>, best: Option<nat>, id: nat)
    requires id < |defs| && BestAmong(defs, layer, input, gd, seen, best)
    requires forall k :: k in seen ==> layer(k) < layer(id) || (layer(k) == layer(id) && id <= k)
    ensures best.Some? ==> best.value < |defs|
    ensures BestAmong(defs, layer, input, gd, seen + {id},
      if Priority(defs[id]) > PriorityOf(defs, best)
        && Check(defs[id], input, gd) && gd.idef.IsKnown(OutputItem(defs[id], input, gd)) then Some(id) else best)
  {
    hide Check, OutputItem;
  }

  // Recipes of one layer in registration order, behind all seen so far.
  ghost predicate ToWalk(defs: seq<CraftDefinition>, layer: nat -> nat, ids: seq<nat>, seen: set<nat>) {
    && (forall i :: 0 <= i < |ids| ==> ids[i] < |defs|)
    && (forall i, j :: 0 <= i < j < |ids| ==> ids[i] < ids[j] && layer(ids[i]) == layer(ids[j]))
    && (forall k, i :: k in seen && 0 <= i < |ids| ==> layer(k) < layer(ids[i]))
  }

  // The recipes in reach in the layers before t.
  ghost function SeenUpTo(defs: seq<CraftDefinition>, gd: GameDef, hashed: nat, input: CraftInput, t: nat): set<nat> {
    set k | k in InReach(defs, gd, hashed, input) && LayerOf(defs, gd, hashed)(k) < t
  }

  // ---------------------------------------------------------------- the manager

  class CraftDefManager {
    const gd: GameDef
    var defs: seq<CraftDefinition>       // every registered recipe; buckets hold positions in it
    var layers: seq<Buckets>
    ghost var hashed: nat

    ghost predicate Valid()
      reads this
    {
      Filed(defs, gd, layers, hashed)
    }

    constructor (gd: GameDef)
      ensures Valid() && this.gd == gd && defs == [] && hashed == 0
    {
      this.gd := gd;
      defs := [];
      layers := [map[], map[], map[]];
      hashed := 0;
    }

    method RegisterCraft(def: CraftDefinition)
      requires Valid()
      modifies this
      ensures Valid() && defs == old(defs) + [def] && hashed == old(hashed)
    {
      forall layer, hash | 0 <= layer < 2 && 0 <= hash
        ensures FiledIds(defs + [def], gd, layer, hash, hashed) == FiledIds(defs, gd, layer, hash, hashed)
      {
        FiledIdsPrefix(defs, def, gd, layer, hash, hashed);
      }
      layers := layers[2 := PushBack(layers[2], 0, |defs|)];
      defs := defs + [def];
    }

    // Moves every waiting recipe to the bucket of its hash.
    method InitHashes()
      requires Valid()
      modifies this
      ensures Valid() && defs == old(defs) && hashed == |defs|
    {
      hide HashLayers, HashTypeOf, HashOf, FiledIds;
      var unhashed := Bucket(layers[2], 0);
      for i := 0 to |unhashed|
        invariant defs == old(defs) && |layers| == 3 && old(hashed) + i <= |defs|
        invariant unhashed == Range(old(hashed), |defs|)
        invariant HashLayers(defs, gd, layers, old(hashed) + i)
      {
        var id := unhashed[i];
        NoUnhashedType(defs[id], gd);
        FileOne(defs, gd, layers, id);
        var t := LayerIndex(HashTypeOf(defs[id], gd));
        var hash := HashOf(defs[id], gd);
        layers := layers[t := PushBack(layers[t], hash, id)];
      }
      LastLayerFree(defs, gd, layers, layers[2][0 := []], |defs|);
      layers := layers[2 := layers[2][0 := []]];
      hashed := |defs|;
    }

    // Walks one bucket from back to front, keeping the best recipe so far.
    method WalkBucket(ids: seq<nat>, input: CraftInput, best0: Option<nat>, ghost seen0: set<nat>, ghost layer: nat -> nat)
      returns (best: Option<nat>, ghost seen: set<nat>)
      requires ToWalk(defs, layer, ids, seen0)
      requires BestAmong(defs, layer, input, gd, seen0, best0)
      ensures BestAmong(defs, layer, input, gd, seen, best)
      ensures seen == seen0 + set k | k in ids
    {
      hide Candidate, BestAmong;
      best, seen := best0, seen0;
      var i := |ids|;
      while i > 0
        invariant 0 <= i <= |ids|
        invariant BestAmong(defs, layer, input, gd, seen, best)
        invariant seen == seen0 + set k | k in ids[i..]
      {
        i := i - 1;
        ConsiderRecipe(defs, layer, input, gd, seen, best, ids[i]);
        seen := seen + {ids[i]};
        var def := defs[ids[i]];
        var priorityBest := PriorityOf(defs, best);
        if Priority(def) > priorityBest {
          var ok := CheckDefinition(def, input, gd);
          if ok && gd.idef.IsKnown(OutputItem(def, input, gd)) {
            best := Some(ids[i]);
          }
        }
      }
    }

    /**
     The recipe selected for an input, or None: the preferred one among the candidates in reach, and so among all
     if no recipe has a loose slot.
     */
    method GetCraftResult(input: CraftInput) returns (best: Option<nat>)
      requires Valid()
      ensures if InputEmpty(input) then best == None
        else BestAmong(defs, LayerOf(defs, gd, hashed), input, gd, InReach(defs, gd, hashed, input), best)
      ensures !InputEmpty(input) && WellFormedInput(input) && (forall k :: 0 <= k < |defs| ==> HashIsExact(defs[k], gd)) ==>
        BestAmong(defs, LayerOf(defs, gd, hashed), input, gd, Everything(defs), best)
      ensures best.Some? ==> OnTop(defs, input, gd, hashed, best.value)
      ensures ScanSelects(defs, input, gd, best) <==>
        InputEmpty(input) || forall k :: LastOfBest(defs, input, gd, k) ==> !PassedOver(defs, gd, hashed, input, k)
    {
      hide OnTop, LastOfBest, PassedOver, HashIsExact, FoundByHash, Candidate, BestAmong, HashForGrid, WellFormedInput, InReach, SeenUpTo, ToWalk, LayerOf;
      if InputEmpty(input) {
        return None;
      }
      var inputNames := Sort(ItemNames(input.items));
      best := None;
      ghost var seen: set<nat>, layer := {}, LayerOf(defs, gd, hashed);
      NothingSeen(defs, gd, hashed, input);
      for t := 0 to 3
        invariant BestAmong(defs, layer, input, gd, seen, best) && seen == SeenUpTo(defs, gd, hashed, input, t)
      {
        var hash := HashForGrid(LayerType(t), inputNames, gd);
        var ids := Bucket(layers[t], hash);
        ReadyToWalk(defs, gd, layers, hashed, t, input, hash);
        best, seen := WalkBucket(ids, input, best, seen, layer);
      }
      AllSeen(defs, gd, hashed, input);
      LookupIsScan(defs, gd, hashed, input, best);
      BestIsOnTop(defs, gd, hashed, input, best);
      if WellFormedInput(input) && forall k :: 0 <= k < |defs| ==> HashIsExact(defs[k], gd) {
        AllInReach(defs, gd, hashed, input, best);
      }
    }
  }

  lemma FiledWhereFound(def: CraftDefinition, gd: GameDef, t: nat, input: CraftInput)
    requires t < 2
    ensures FiledUnder(def, gd, t, HashForGrid(LayerType(t), Sort(ItemNames(input.items)), gd))
      <==> LayerIndex(HashTypeOf(def, gd)) == t && FoundByHash(def, input, gd)
  {
    hide HashTypeOf, HashOf, JoinLines, Keep, Sort;
    NoUnhashedType(def, gd);
  }

  // What the bucket looked up in layer t holds.
  lemma BucketContents(defs: seq<CraftDefinition>, gd: GameDef, layers: seq<Buckets>, hashed: nat, t: nat, input: CraftInput, hash: nat)
    requires Filed(defs, gd, layers, hashed) && t < 3 && hash == HashForGrid(LayerType(t), Sort(ItemNames(input.items)), gd)
    ensures var ids := Bucket(layers[t], hash);
      && (forall i :: 0 <= i < |ids| ==> ids[i] < |defs|)
      && (forall i, j :: 0 <= i < j < |ids| ==> ids[i] < ids[j])
      && (forall k: nat :: k in ids <==> k < |defs| && LayerOf(defs, gd, hashed)(k) == t && k in InReach(defs, gd, hashed, input))
  {
    hide HashTypeOf, HashOf, FiledIds, JoinLines, Keep, Sort, Bucket;
    var layer := LayerOf(defs, gd, hashed);
    var ids := Bucket(layers[t], hash);
    forall k: nat | k < hashed ensures layer(k) < 2 {
      NoUnhashedType(defs[k], gd);
    }
    if t < 2 {
      FiledIdsContents(defs, gd, t, hash, hashed);
      assert ids == FiledIds(defs, gd, t, hash, hashed);
      forall k: nat | k < hashed ensures FiledUnder(defs[k], gd, t, hash) <==> layer(k) == t && FoundByHash(defs[k], input, gd) {
        FiledWhereFound(defs[k], gd, t, input);
      }
      hide FiledUnder, FoundByHash;
      forall k: nat ensures k in ids <==> k < |defs| && layer(k) == t && k in InReach(defs, gd, hashed, input) {
        if k in ids {
          var i :| 0 <= i < |ids| && ids[i] == k;
          assert FiledUnder(defs[k], gd, t, hash);
        }
      }
    } else {
      assert ids == Range(hashed, |defs|);
      forall k: nat ensures k in ids <==> hashed <= k < |defs| {
        if hashed <= k < |defs| {
          assert ids[k - hashed] == k;
        }
      }
    }
  }

  lemma NothingSeen(defs: seq<CraftDefinition>, gd: GameDef, hashed: nat, input: CraftInput)
    ensures SeenUpTo(defs, gd, hashed, input, 0) == {} && BestAmong(defs, LayerOf(defs, gd, hashed), input, gd, {}, None)
  {}

  lemma AllSeen(defs: seq<CraftDefinition>, gd: GameDef, hashed: nat, input: CraftInput)
    ensures SeenUpTo(defs, gd, hashed, input, 3) == InReach(defs, gd, hashed, input)
  {}

  lemma ReadyToWalk(defs: seq<CraftDefinition>, gd: GameDef, layers: seq<Buckets>, hashed: nat, t: nat, input: CraftInput, hash: nat)
    requires Filed(defs, gd, layers, hashed) && t < 3 && hash == HashForGrid(LayerType(t), Sort(ItemNames(input.items)), gd)
    ensures var ids := Bucket(layers[t], hash);
      var seen := SeenUpTo(defs, gd, hashed, input, t);
      && ToWalk(defs, LayerOf(defs, gd, hashed), ids, seen)
      && SeenUpTo(defs, gd, hashed, input, t + 1) == seen + set k | k in ids
  {
    hide InReach, LayerOf, HashLayers, Bucket, HashForGrid;
    BucketContents(defs, gd, layers, hashed, t, input, hash);
    var ids := Bucket(layers[t], hash);
    BucketWalk(defs, gd, hashed, input, t, ids);
  }

  lemma BucketWalk(defs: seq<CraftDefinition>, gd: GameDef, hashed: nat, input: CraftInput, t: nat, ids: seq<nat>)
    requires forall i, j :: 0 <= i < j < |ids| ==> ids[i] < ids[j]
    requires forall k: nat :: k in ids <==> k < |defs| && LayerOf(defs, gd, hashed)(k) == t && k in InReach(defs, gd, hashed, input)
    ensures ToWalk(defs, LayerOf(defs, gd, hashed), ids, SeenUpTo(defs, gd, hashed, input, t))
    ensures SeenUpTo(defs, gd, hashed, input, t + 1) == SeenUpTo(defs, gd, hashed, input, t) + set k | k in ids
  {
    hide LayerOf;
    InReachBelow(defs, gd, hashed, input);
    hide InReach;
    forall i | 0 <= i < |ids| ensures ids[i] < |defs| && LayerOf(defs, gd, hashed)(ids[i]) == t {
      assert ids[i] in ids;
    }
  }

  lemma InReachBelow(defs: seq<CraftDefinition>, gd: GameDef, hashed: nat, input: CraftInput)
    ensures forall k :: k in InReach(defs, gd, hashed, input) ==> k < |defs|
  {}

  lemma AllInReach(defs: seq<CraftDefinition>, gd: GameDef, hashed: nat, input: CraftInput, best: Option<nat>)
    requires BestAmong(defs, LayerOf(defs, gd, hashed), input, gd, InReach(defs, gd, hashed, input), best)
    requires WellFormedInput(input) && forall k :: 0 <= k < |defs| ==> HashIsExact(defs[k], gd)
    ensures BestAmong(defs, LayerOf(defs, gd, hashed), input, gd, Everything(defs), best)
  {
    hide Check, HashIsExact, FoundByHash, OutputItem;
    forall k | 0 <= k < |defs| && Candidate(defs[k], input, gd) ensures k in InReach(defs, gd, hashed, input) {
      AcceptedIsFound(defs[k], input, gd);
    }
  }

  // ---------------------------------------------------------------- what the lookup ranks

  // Of two recipes neither of which outranks the other, k is looked at first: a filed one before a waiting one, one filed
  // by names before one filed by count, and among equals the one registered later.
  ghost predicate LookedAtFirst(defs: seq<CraftDefinition>, gd: GameDef, hashed: nat, k: nat, j: nat)
    requires k < |defs| && j < |defs|
  {
    if k < hashed && j < hashed && (HashTypeOf(defs[k], gd) == CountHash <==> HashTypeOf(defs[j], gd) == CountHash) then j <= k
    else if k < hashed && j < hashed then HashTypeOf(defs[j], gd) == CountHash
    else if k >= hashed && j >= hashed then j <= k
    else k < hashed
  }

  // No candidate the lookup comes across outranks k, and k is looked at before all that k does not outrank.
  ghost predicate OnTop(defs: seq<CraftDefinition>, input: CraftInput, gd: GameDef, hashed: nat, k: nat) {
    && k < |defs| && Candidate(defs[k], input, gd) && (k < hashed ==> FoundByHash(defs[k], input, gd))
    && forall j :: 0 <= j < |defs| && Candidate(defs[j], input, gd) && (j < hashed ==> FoundByHash(defs[j], input, gd)) ==>
         !Outranks(defs[j], defs[k]) && (Outranks(defs[k], defs[j]) || LookedAtFirst(defs, gd, hashed, k, j))
  }

  lemma BestIsOnTop(defs: seq<CraftDefinition>, gd: GameDef, hashed: nat, input: CraftInput, r: Option<nat>)
    requires BestAmong(defs, LayerOf(defs, gd, hashed), input, gd, InReach(defs, gd, hashed, input), r)
    ensures r.Some? ==> OnTop(defs, input, gd, hashed, r.value)
  {
    hide Candidate, Priority, HashTypeOf, FoundByHash, Outranks;
    if r.Some? {
      var k := r.value;
      NoUnhashedType(defs[k], gd);
      forall j | 0 <= j < |defs| && Candidate(defs[j], input, gd) && (j < hashed ==> FoundByHash(defs[j], input, gd))
        ensures !Outranks(defs[j], defs[k]) && (Outranks(defs[k], defs[j]) || LookedAtFirst(defs, gd, hashed, k, j))
      {
        assert j in InReach(defs, gd, hashed, input) && Preferred(defs, LayerOf(defs, gd, hashed), k, j);
        NoUnhashedType(defs[j], gd);
        PriorityRanks(defs[j], defs[k]);
        PriorityRanks(defs[k], defs[j]);
      }
    }
  }

  // ---------------------------------------------------------------- the lookup as it is against the scan

  // No candidate has a higher priority, and none of the same was registered later.
  ghost predicate LastOfBest(defs: seq<CraftDefinition>, input: CraftInput, gd: GameDef, k: nat) {
    && k < |defs| && Candidate(defs[k], input, gd)
    && forall j :: 0 <= j < |defs| && Candidate(defs[j], input, gd) ==>
         Priority(defs[j]) < Priority(defs[k]) || (Priority(defs[j]) == Priority(defs[k]) && j <= k)
  }

  // Recipe k is filed under another hash than the input's, or an earlier one of its priority is reached and looked at
  // first: a filed one where k still waits, or one filed by names where k is filed by count.
  ghost predicate PassedOver(defs: seq<CraftDefinition>, gd: GameDef, hashed: nat, input: CraftInput, k: nat)
    requires k < |defs|
  {
    || (k < hashed && !FoundByHash(defs[k], input, gd))
    || exists e :: 0 <= e < k && e < hashed && FoundByHash(defs[e], input, gd) && Candidate(defs[e], input, gd)
         && Priority(defs[e]) == Priority(defs[k])
         && (k >= hashed || (HashTypeOf(defs[k], gd) == CountHash && HashTypeOf(defs[e], gd) == ItemNamesHash))
  }

  /**
   The layered lookup, with whatever filed and whatever hashed to, selects what the plain scan selects exactly if the
   scan's choice is not passed over.
   */
  lemma LookupIsScan(defs: seq<CraftDefinition>, gd: GameDef, hashed: nat, input: CraftInput, r: Option<nat>)
    requires !InputEmpty(input) && BestAmong(defs, LayerOf(defs, gd, hashed), input, gd, InReach(defs, gd, hashed, input), r)
    ensures ScanSelects(defs, input, gd, r) <==> forall k :: LastOfBest(defs, input, gd, k) ==> !PassedOver(defs, gd, hashed, input, k)
  {
    hide Candidate, Priority, HashTypeOf, FoundByHash, PassedOver;
    if k: nat :| LastOfBest(defs, input, gd, k) {
      ScanIsLast(defs, input, gd, r, k);
      OnlyLast(defs, input, gd, k);
      ReachedUnlessPassed(defs, gd, hashed, input, r, k);
    } else {
      NoneIsLast(defs, input, gd);
    }
  }

  lemma ScanIsLast(defs: seq<CraftDefinition>, input: CraftInput, gd: GameDef, r: Option<nat>, k: nat)
    requires !InputEmpty(input) && LastOfBest(defs, input, gd, k)
    ensures ScanSelects(defs, input, gd, r) <==> r == Some(k)
  {
    hide Candidate, Priority;
    if r.Some? && ScanSelects(defs, input, gd, r) {
      assert Preferred(defs, (k: nat) => 2, r.value, k);
    }
  }

  lemma OnlyLast(defs: seq<CraftDefinition>, input: CraftInput, gd: GameDef, k: nat)
    requires LastOfBest(defs, input, gd, k)
    ensures forall j :: LastOfBest(defs, input, gd, j) ==> j == k
  {
    hide Candidate, Priority;
  }

  lemma ReachedUnlessPassed(defs: seq<CraftDefinition>, gd: GameDef, hashed: nat, input: CraftInput, r: Option<nat>, k: nat)
    requires LastOfBest(defs, input, gd, k)
    requires BestAmong(defs, LayerOf(defs, gd, hashed), input, gd, InReach(defs, gd, hashed, input), r)
    ensures r == Some(k) <==> !PassedOver(defs, gd, hashed, input, k)
  {
    hide Candidate, Priority, HashTypeOf, FoundByHash;
    var layer, reach := LayerOf(defs, gd, hashed), InReach(defs, gd, hashed, input);
    NoUnhashedType(defs[k], gd);
    if r == Some(k) {
      forall e | 0 <= e < k && e < hashed && FoundByHash(defs[e], input, gd) && Candidate(defs[e], input, gd)
          && Priority(defs[e]) == Priority(defs[k])
        ensures k < hashed && !(HashTypeOf(defs[k], gd) == CountHash && HashTypeOf(defs[e], gd) == ItemNamesHash)
      {
        NoUnhashedType(defs[e], gd);
        assert e in reach && Preferred(defs, layer, k, e);
      }
    } else if k in reach {
      var e := r.value;
      NoUnhashedType(defs[e], gd);
      assert Preferred(defs, layer, e, k);
    }
  }

  // Without a last candidate of highest priority there is no candidate.
  lemma NoneIsLast(defs: seq<CraftDefinition>, input: CraftInput, gd: GameDef)
    requires forall k :: !LastOfBest(defs, input, gd, k)
    ensures forall j :: 0 <= j < |defs| ==> !Candidate(defs[j], input, gd)
  {
    hide Candidate, Priority;
    if j :| 0 <= j < |defs| && Candidate(defs[j], input, gd) {
      var k := LastExists(defs, input, gd, j);
    }
  }

  lemma LastExists(defs: seq<CraftDefinition>, input: CraftInput, gd: GameDef, j: nat) returns (k: nat)
    requires j < |defs| && Candidate(defs[j], input, gd)
    ensures LastOfBest(defs, input, gd, k)
  {
    hide Candidate, Priority;
    k := j;
    var n := 0;
    while n < |defs|
      invariant k < |defs| && n <= |defs| && Candidate(defs[k], input, gd)
      invariant forall i :: 0 <= i < n && Candidate(defs[i], input, gd) ==>
        Priority(defs[i]) < Priority(defs[k]) || (Priority(defs[i]) == Priority(defs[k]) && i <= k)
    {
      if Candidate(defs[n], input, gd)
        && (Priority(defs[n]) > Priority(defs[k]) || (Priority(defs[n]) == Priority(defs[k]) && n > k)) {
        k := n;
      }
      n := n + 1;
    }
  }

  // ---------------------------------------------------------------- hashed lookup against the scan

  // Resolving aliases neither makes nor breaks a group slot.
  ghost predicate AliasesKeepGroups(def: CraftDefinition, gd: GameDef) {
    match def
    case DefShaped(_, _, recipe) => forall i :: 0 <= i < |recipe| ==> (IsGroupRecipeStr(recipe[i]) <==> IsGroupRecipeStr(gd.itemName(recipe[i])))
    case DefShapeless(_, recipe) => forall i :: 0 <= i < |recipe| ==> (IsGroupRecipeStr(recipe[i]) <==> IsGroupRecipeStr(gd.itemName(recipe[i])))
    case DefToolRepair(_) => true
    case DefCooking(_, item) => IsGroupRecipeStr(item) <==> IsGroupRecipeStr(gd.itemName(item))
    case DefFuel(_) => true
  }

  // Of two recipes other than fuels, equal priority means equal layer.
  lemma PriorityFixesLayer(a: CraftDefinition, b: CraftDefinition, gd: GameDef)
    requires !a.DefFuel? && !b.DefFuel? && AliasesKeepGroups(a, gd) && AliasesKeepGroups(b, gd)
    requires Priority(a) == Priority(b)
    ensures HashTypeOf(a, gd) == HashTypeOf(b, gd)
  {
  }

  // Before initHashes the lookup is the scan.
  lemma UnhashedLookupIsScan(defs: seq<CraftDefinition>, gd: GameDef, input: CraftInput, r: Option<nat>)
    requires !InputEmpty(input)
    ensures BestAmong(defs, LayerOf(defs, gd, 0), input, gd, Everything(defs), r) <==> ScanSelects(defs, input, gd, r)
  {
    var layer, flat := LayerOf(defs, gd, 0), (k: nat) => 2;
    forall k: nat, j: nat | k < |defs| && j < |defs| ensures Preferred(defs, layer, k, j) == Preferred(defs, flat, k, j) {}
  }

  // k is the last candidate of highest priority and filed by count; e is of its priority and filed by names.
  ghost predicate Shadows(defs: seq<CraftDefinition>, input: CraftInput, gd: GameDef, e: nat, k: nat) {
    && e < k < |defs| && Candidate(defs[k], input, gd) && Candidate(defs[e], input, gd)
    && Priority(defs[k]) == Priority(defs[e])
    && HashTypeOf(defs[k], gd) == CountHash && HashTypeOf(defs[e], gd) == ItemNamesHash
    && forall j :: 0 <= j < |defs| && Candidate(defs[j], input, gd) ==>
         Priority(defs[j]) < Priority(defs[k]) || (Priority(defs[j]) == Priority(defs[k]) && j <= k)
  }

  ghost predicate Shadowed(defs: seq<CraftDefinition>, input: CraftInput, gd: GameDef) {
    exists e: nat, k: nat :: Shadows(defs, input, gd, e, k)
  }

  /**
   Filing the recipes by hash changes which recipe an input gets exactly when one is shadowed, whatever
   recipes and aliases there are and whatever the hash function.
   */
  lemma HashedLookupIsScan(defs: seq<CraftDefinition>, gd: GameDef, input: CraftInput, r: Option<nat>)
    requires !InputEmpty(input)
    requires BestAmong(defs, LayerOf(defs, gd, |defs|), input, gd, Everything(defs), r)
    ensures ScanSelects(defs, input, gd, r) <==> !Shadowed(defs, input, gd)
  {
    hide Check, OutputItem, HashTypeOf, Candidate, Below;
    if r.Some? {
      var layer := LayerOf(defs, gd, |defs|);
      var last := LastBest(defs, gd, input, r.value);
      assert Preferred(defs, layer, r.value, last);
      assert ScanSelects(defs, input, gd, r) <==> r.value == last;
      NoUnhashedType(defs[r.value], gd);
      NoUnhashedType(defs[last], gd);
      if e: nat, k: nat :| Shadows(defs, input, gd, e, k) {
        assert k == last;
        assert Preferred(defs, layer, r.value, e);
      }
      if r.value != last {
        assert layer(r.value) < layer(last);
        assert Shadows(defs, input, gd, r.value, last);
      }
    }
  }

  // The last candidate of the priority of r, which none exceeds.
  lemma LastBest(defs: seq<CraftDefinition>, gd: GameDef, input: CraftInput, r: nat) returns (last: nat)
    requires BestAmong(defs, LayerOf(defs, gd, |defs|), input, gd, Everything(defs), Some(r))
    ensures r <= last && LastOfBest(defs, input, gd, last) && Priority(defs[last]) == Priority(defs[r])
  {
    hide Candidate, HashTypeOf, Priority;
    last := LastExists(defs, input, gd, r);
    assert Preferred(defs, LayerOf(defs, gd, |defs|), r, last);
  }

  // A fuel whose slot is an exact name.
  predicate ExactFuel(def: CraftDefinition, gd: GameDef) {
    def.DefFuel? && !IsGroupRecipeStr(gd.itemName(def.item))
  }

  // The latest registered fuel that applies has a group slot, and an exact-name fuel applies too.
  ghost predicate FuelShadowed(defs: seq<CraftDefinition>, input: CraftInput, gd: GameDef) {
    exists k, e :: 0 <= e < k < |defs|
      && Candidate(defs[k], input, gd) && defs[k].DefFuel? && !ExactFuel(defs[k], gd)
      && Candidate(defs[e], input, gd) && ExactFuel(defs[e], gd)
      && forall j :: k < j < |defs| ==> !Candidate(defs[j], input, gd)
  }

  /** As long as aliases neither make nor break group slots, only fuels are shadowed. */
  lemma OnlyFuelsAreShadowed(defs: seq<CraftDefinition>, gd: GameDef, input: CraftInput)
    requires forall k :: 0 <= k < |defs| ==> AliasesKeepGroups(defs[k], gd)
    ensures Shadowed(defs, input, gd) <==> FuelShadowed(defs, input, gd)
  {
    hide Candidate, AliasesKeepGroups;
    CandidateMethod(defs, gd, input);
    if e: nat, k: nat :| Shadows(defs, input, gd, e, k) {
      if !defs[k].DefFuel? {
        PriorityFixesLayer(defs[k], defs[e], gd);
      }
      assert FuelShadowed(defs, input, gd);
    }
    if FuelShadowed(defs, input, gd) {
      var k: nat, e: nat :| e < k < |defs|
        && Candidate(defs[k], input, gd) && defs[k].DefFuel? && !ExactFuel(defs[k], gd)
        && Candidate(defs[e], input, gd) && ExactFuel(defs[e], gd)
        && forall j :: k < j < |defs| ==> !Candidate(defs[j], input, gd);
      assert Shadows(defs, input, gd, e, k);
    }
  }

  // Only fuels apply to a fuel slot, and fuels apply nowhere else.
  lemma CandidateMethod(defs: seq<CraftDefinition>, gd: GameDef, input: CraftInput)
    ensures forall k :: 0 <= k < |defs| && Candidate(defs[k], input, gd) ==> (defs[k].DefFuel? <==> input.method_ == Fuel)
  {}

  // The two never disagree about whether something can be crafted.
  lemma SomethingCraftable(defs: seq<CraftDefinition>, gd: GameDef, input: CraftInput, a: Option<nat>, b: Option<nat>)
    requires !InputEmpty(input) && ScanSelects(defs, input, gd, a)
    requires BestAmong(defs, LayerOf(defs, gd, |defs|), input, gd, Everything(defs), b)
    ensures a.Some? <==> b.Some?
  {}

  /** A shadowed fuel: the group fuel registered last is passed over for the exact-name one. */
  lemma FuelShadowExample(gd: GameDef)
    requires gd.itemName("coal") == "coal" && gd.itemName("group:coal") == "group:coal"
    requires gd.idef.IsKnown("coal") && gd.idef.IsKnown("") && gd.idef.Get("coal").groups == map["coal" := 1]
    ensures var defs := [DefFuel("coal"), DefFuel("group:coal")];
      var input := CraftInput(Fuel, 1, [ItemStack("coal", 1, 0, map[])]);
      FuelShadowed(defs, input, gd) && ScanSelects(defs, input, gd, Some(1)) && !ScanSelects(defs, input, gd, Some(0))
  {
    hide Candidate, Below, ExactFuel;
    var defs := [DefFuel("coal"), DefFuel("group:coal")];
    var input := CraftInput(Fuel, 1, [ItemStack("coal", 1, 0, map[])]);
    CoalBurns(gd);
    assert !input.items[0].Empty();
    assert Preferred(defs, (k: nat) => 2, 1, 0) && !Preferred(defs, (k: nat) => 2, 0, 1);
  }

  lemma CoalBurns(gd: GameDef)
    requires gd.itemName("coal") == "coal" && gd.itemName("group:coal") == "group:coal"
    requires gd.idef.IsKnown("coal") && gd.idef.IsKnown("") && gd.idef.Get("coal").groups == map["coal" := 1]
    ensures var input := CraftInput(Fuel, 1, [ItemStack("coal", 1, 0, map[])]);
      && Candidate(DefFuel("coal"), input, gd) && Candidate(DefFuel("group:coal"), input, gd)
      && ExactFuel(DefFuel("coal"), gd) && !ExactFuel(DefFuel("group:coal"), gd)
  {
    CoalFits(gd.idef);
  }

  /** An alias can shadow a recipe that is no fuel: a plain name standing for a group. */
  lemma AliasShadowExample(gd: GameDef)
    requires gd.itemName("coal") == "coal" && gd.itemName("lump") == "group:coal" && gd.itemName("ash") == "ash"
    requires gd.idef.IsKnown("coal") && gd.idef.IsKnown("ash") && gd.idef.Get("coal").groups == map["coal" := 1]
    ensures var defs := [DefCooking("ash", "coal"), DefCooking("ash", "lump")];
      var input := CraftInput(Cooking, 1, [ItemStack("coal", 1, 0, map[])]);
      Shadowed(defs, input, gd) && !AliasesKeepGroups(defs[1], gd)
  {
    var defs := [DefCooking("ash", "coal"), DefCooking("ash", "lump")];
    var input := CraftInput(Cooking, 1, [ItemStack("coal", 1, 0, map[])]);
    CoalFits(gd.idef);
    assert Candidate(defs[0], input, gd) && Candidate(defs[1], input, gd);
    hide Candidate;
    assert !IsGroupRecipeStr("lump");
    assert Shadows(defs, input, gd, 0, 1);
  }

  lemma CoalFits(idef: ItemDefManager)
    requires idef.IsKnown("coal") && idef.Get("coal").groups == map["coal" := 1]
    ensures SingleItemFits([ItemStack("coal", 1, 0, map[])], "coal", idef)
    ensures SingleItemFits([ItemStack("coal", 1, 0, map[])], "group:coal", idef)
  {
    var items := [ItemStack("coal", 1, 0, map[])];
    assert items[..0] == [] && NonEmptyNames(items) == ["coal"];
    assert GroupNames(["coal"]);
    assert "group:coal" == GROUP_PREFIX + JoinWith(["coal"], ",");
    GroupSlotMeaning("coal", ["coal"], idef);
  }
}
