# Luanti core algorithms in Dafny

A model of self-contained algorithms of the Luanti voxel engine and proofs of what they are for. Each module
follows one component; loops, arrays, queues and objects that the program changes step by step are methods and
classes here, proved against functions and predicates whose meaning is then established by lemmas.
`dafny verify dfyconfig.toml` checks everything.

- **Crafting** (`BipartiteMatching`, `NameLists`, `Items`, `CraftRecipes`, `CraftGrid`, `CraftDefs`,
  `CraftDefManager`; `RowMajor` has the index arithmetic). A Hopcroft-Karp matching on `u16` arrays decides
  shapeless recipes; the sorted-merge prefilter in front of it is exact. Shaped recipes are translates. Recipes
  are ranked by what they ask for. The hash-layered lookup selects what a plain scan would, with three
  exceptions whose exact conditions are proved: the fuel constructor looks at a name that is still empty, so
  group fuels get the priority of exact ones; an alias of a group moves a recipe to another layer but not to
  another priority; and since the hand is in a group, an empty cell can fit a group slot, which the count hash
  does not foresee.
- **Path finding** (`VoxelWorld`, `PathGrid`, `CostSearch`, `HeuristicSearch`, `PathRequest`, `PathSlots`,
  `PathAnswers`). Both searches run over the graph of possible moves. The recursive relaxation leaves an optimal
  label on the target although it prunes, but the boolean it returns, and so the path request, can miss a target
  it found: it is right from all places a start reaches exactly when none of those next to the target has a jump
  or fall after the move to it; requests at the edge of a terrace show the failure. The heuristic search keeps
  grid nodes by slots; with a search distance of 2 or more each node has its own, and the search is exact about
  reachability. Below, indices on the upper faces share slots or have none: the exact condition under which it
  goes wrong is proved over every order of the open list, and requests show both failures. It does not re-open
  nodes, so no claim of least cost is made for it.
- **Noise** (`NoiseMath`, `NoiseLattice`, `NoiseMap`). Interpolation is pinned by its shape: bounds, symmetries
  and a flat start. Batch maps walk a lattice buffer in equal steps; each value equals the pointwise noise at
  its grid point exactly when the walk keeps up with the grid, and the closing step is done or would change
  nothing. The exact condition for the buffer to suffice is proved: it does for growing octaves, but not for
  lacunarity below 1 and not for 3D maps of one layer. Floats are exact reals, and the lattice hash is a
  parameter.
- **Plural forms** (`PluralForms`, `PluralSyntax`, `PluralParsing`). The parser reads every conditional
  expression of C over n and the operators it supports (sections 6.5.5 to 6.5.15 of ISO/IEC 9899:2011, without
  shifts, bitwise and unary operators other than the logical not) as the tree C gives it, for every spacing and
  parenthesization; the values agree wherever all parts are defined and constants are decimal (section 6.4.4.1:
  a leading zero makes a constant octal, which the program does not know). What the operators mean in C is
  stated without the evaluator.
- **Emerge queue** (`EmergeQueue`, `EmergeRuns`, `EmergeManager`). Each critical section is an atomic step; the
  results hold for every sequence of steps of any number of peers and threads; a request is refused exactly when
  what is pending says so.
- **Inventories** (`ItemStacks`, `InventoryLists`, `InventorySync`, `Inventory`). Stack arithmetic, moves
  between lists that may be the same list, and the incremental sync that rests on dirty flags: every operation
  keeps the invariant under which a message brings the receiver up to date. Adding items fills up the slots in
  order, none beyond the maximum of its definition.
- **Path names** (`PathNames`). The backward in-place normaliser against a forward stack, to the character.
- **Node timers** (`NodeTimers`). Three redundant fields as one map from positions to timers.
- **Map blocks** (`ContentIds`, `MapBlocks`, `MapSectors`). Renumbered content ids on disk, the bulk layout, and
  the eviction of loaded blocks behind two pointer caches, with and without a limit; without one a block that
  could not be saved can be lost, exactly when its whole sector is overdue.
- `Basics` and `Counting` have what several modules share.

## Model

| member | source | states |
|---|---|---|
| BipartiteMatching.HopcroftKarpCanMatchAll | src/craftdef.cpp:489-587 | The result is true exactly when the bipartite graph has a perfect matching; when it is false some set of items has fewer fitting slots than members. The phases end, and no distance reaches the infinity value for up to 30000 nodes. |
| BipartiteMatching.HallViolatorBlocks | src/craftdef.cpp:567-586 | A set of items with too few fitting slots rules a perfect matching out: the certificate behind a refusal. |
| BipartiteMatching.UnreachedIsHallViolator | src/craftdef.cpp:505-536 | When a breadth-first search does not reach nil, the items it reached are such a set. |
| BipartiteMatching.NilLayerIsShortest | src/craftdef.cpp:505-536 | The distance of nil is the length of a shortest augmenting path, and infinite exactly when there is none. |
| BipartiteMatching.ClosedLayers | src/craftdef.cpp:541-565 | If a phase closed all unmatched items without augmenting, every layer was closed, nil's included: a phase that reached nil cannot be fruitless. |
| BipartiteMatching.AugmentGrows | src/craftdef.cpp:541-565 | Swapping an augmenting path keeps pair_u and pair_v inverse along graph edges and matches exactly one item more. |
| BipartiteMatching.Matcher.DoBfs | src/craftdef.cpp:505-536 | The search leaves a layering by alternating distance and reports whether nil was reached. |
| BipartiteMatching.Matcher.DoDfs | src/craftdef.cpp:541-565 | Success leaves the pairs augmented from the given item; failure leaves them alone, closes the item, and closes only dead ends. |
| BipartiteMatching.AugmentPhase | src/craftdef.cpp:567-584 | A phase over a layering that reached nil matches at least one more item, keeps the matched ones, and counts exactly. |
| NameLists.SetDifferenceContents | src/craftdef.cpp:617-640 | The merge of two sorted lists leaves the multiset difference of their contents. |
| CraftRecipes.InputItemMatchesRecipe | src/craftdef.cpp:70-95 | The loop over the groups of a slot computes the slot's match. |
| CraftRecipes.PiecesOfJoin | src/util/strfnd.h:24-38 | Splitting a comma-joined list of group names gives the names back. |
| CraftRecipes.GroupSlotMeaning | src/craftdef.cpp:70-95 | A slot "group:a,b" takes exactly the items whose name, by way of the aliases, is defined with a value other than 0 in every listed group. |
| CraftRecipes.SlotGraph | src/craftdef.cpp:649-663 | The graph handed to the matching has a perfect matching exactly when the items can be dealt to the slots. |
| CraftRecipes.PlainSlotsFirst | src/craftdef.cpp:617-640 | Dealing equally named items to the plain slots first loses no assignment. |
| CraftRecipes.PrefilterIsExact | src/craftdef.cpp:605-648 | The size test after the merge, together with the group slots and what is left, decides the whole recipe. |
| CraftRecipes.ShapelessCheck | src/craftdef.cpp:589-664 | True exactly for a normal-method input whose non-empty items can be paired one to one with the slots they match, with at most 30000 group slots. |
| CraftGrid.CraftGetBounds | src/craftdef.cpp:144-175 | The walk over the list computes the bounds. |
| CraftGrid.BoundsAreTight | src/craftdef.cpp:144-175 | The bounds hold every non-empty name and each side touches one; without bounds there is none. |
| CraftGrid.ShapedCheck | src/craftdef.cpp:346-410 | True exactly when the padded matrices match box by box. |
| CraftGrid.ShapedIsTranslation | src/craftdef.cpp:346-410 | A shaped recipe accepts exactly the translates of it whose bounds are the moved bounds of the recipe; where every slot needs an item, exactly the translates. No assumption on the hand. |
| CraftGrid.PadMeaning | src/craftdef.cpp:354-379 | Padding adds less than a row, completes the last one, and leaves every name in its cell and the bounds as they are. |
| CraftGrid.PaddedIsTranslation | src/craftdef.cpp:344-412 | So the shaped check accepts exactly the inputs that are, as they are, a translate of the recipe with the same bounds. |
| CraftGrid.ShapedMatchesInOrder | src/craftdef.cpp:346-410 | A shaped match pairs the non-empty names of input and recipe in reading order, unless the recipe has a loose slot: one an empty cell fits, and without which the recipe has the same bounds. |
| CraftDefs.CheckDefinition | src/craftdef.cpp:756-859 | The check of every kind of recipe: two like tools that can be repaired, one item to cook, one to burn, and the two above. |
| CraftDefs.ToolRepairMeaning | src/craftdef.cpp:723-775 | Tool repair takes exactly two stacks in the grid: single tools of one kind that are not barred from repair, whose uses left exceed the wear added. |
| CraftDefs.RepairMeaning | src/craftdef.cpp:723-748 | A repaired tool has the uses left of both less the wear added, rounded to the nearest, but no more than a new one. |
| CraftDefs.FurnaceMeaning | src/craftdef.cpp:835-859 | Cooking and fuel recipes take exactly one named stack that fits the slot, each with its own method. |
| CraftDefs.PriorityRanks | src/craftdef.h:113-135 | One recipe has a higher priority than another exactly if it comes first in this order: shaped without a group slot, shaped with one, shapeless, cooked or burnt without one, shapeless or cooked with one, tool repair; every fuel counts as one without. |
| CraftDefs.CheckImpliesHash | src/craftdef.cpp:41-66 | Every input a recipe accepts has the hash the recipe is filed under, for every hash function, exactly when the recipe is not a shaped one with a loose slot. |
| CraftDefs.EmptyCellMissed | src/craftdef.cpp:41-66 | With the hand in a group, as the one registered is in not_in_creative_inventory, a row of an item, a slot for that group and an item accepts the input with an empty cell in the middle, and the input's count hash misses it. |
| CraftDefManagers.CraftDefManager.RegisterCraft | src/craftdef.cpp:1194-1203 | A new recipe waits in the unhashed layer; the filed ones stay filed. |
| CraftDefManagers.CraftDefManager.InitHashes | src/craftdef.cpp:1218-1233 | Every waiting recipe ends in the bucket of its hash, in registration order. |
| CraftDefManagers.CraftDefManager.GetCraftResult | src/craftdef.cpp:1036-1098 | The layered lookup returns the candidate of highest priority among those its hashes reach, ties going to the earlier layer and then to the later registration; all candidates are reached when no recipe has a loose slot. It returns what the plain back-to-front scan selects exactly when the scan's choice is not passed over. No candidate that the hashes reach outranks it, as said on the recipes and not by priorities. |
| CraftDefManagers.BestIsOnTop | src/craftdef.cpp:1036-1098 | Among the candidates reached none outranks the chosen one, and those it does not outrank are looked at later: waiting ones after filed ones, those filed by count after those filed by names, and earlier registrations after later ones. |
| CraftDefManagers.CandidateMakes | src/craftdef.cpp:1066-1090 | A recipe that applies can be chosen exactly if what it makes is defined, by its own name or as an alias; a repaired tool is named as the first of the two. |
| CraftDefManagers.LookupIsScan | src/craftdef.cpp:1036-1098 | For any recipes filed so far and any hash function: the lookup selects what the scan selects exactly when the scan's choice has the input's hash or waits unfiled, and no earlier one of its priority that the hash reaches lies in an earlier layer. |
| CraftDefManagers.UnhashedLookupIsScan | src/craftdef.cpp:1036-1098 | Before the hashes are set up the lookup is the back-to-front scan. |
| CraftDefManagers.PriorityFixesLayer | src/craftdef.h:113-135 | Recipes other than fuels of equal priority are in the same layer, if aliases turn no group slot into a plain one or back. |
| CraftDefManagers.HashedLookupIsScan | src/craftdef.cpp:1036-1098 | With all recipes filed, the best of all candidates is what the plain back-to-front scan selects exactly when no recipe is shadowed: no count-hashed recipe comes last among those of highest priority with a names-hashed one of that priority before it. Holds for all aliases. |
| CraftDefManagers.OnlyFuelsAreShadowed | src/craftdef.cpp:921-931 | If aliases turn no group slot into a plain one or back, a recipe is shadowed exactly when the last applicable fuel is a group fuel and an exact-name fuel applies too. |
| CraftDefManagers.FuelShadowExample | src/craftdef.cpp:921-931 | Two coal fuels for which the hashed lookup and the scan differ. |
| CraftDefManagers.AliasShadowExample | src/craftdef.cpp:1036-1098 | Two cooking recipes, one with an alias of a group, for which the two selections differ. |
| CraftDefManagers.SomethingCraftable | src/craftdef.cpp:1036-1098 | The two never disagree about whether anything can be crafted. |
| VoxelWorld.World.CostMeaning | src/pathfinder.cpp:814-946 | A move is possible exactly when it is level, a free fall within the drop limit, or a jump with head room; its change of height is determined, level moves cost 1, others 2. |
| VoxelWorld.World.StepEnds | src/pathfinder.cpp:814-946 | A move ends inside the limits, and where its end is loaded, at a place to stand. |
| VoxelWorld.World.CalcCost | src/pathfinder.cpp:814-946 | The two scanning loops compute the cost. |
| PathGrid.Area.ChainIsRoute | src/pathfinder.cpp:1191-1219 | Following the source directions back strictly lowers the cost and, turned round, is a route that costs no more than the label. |
| PathGrid.Area.TrailMoves | src/pathfinder.cpp:1191-1219 | Consecutive positions of a trail are moves, from the first to the last. |
| PathGrid.Area.SmallMeaning | src/pathfinder.cpp:643-647 | Grid nodes are kept in an array exactly if the length of the extent, cut off to a whole number, is at most 5. |
| PathGrid.Area.OwnSlot | src/pathfinder.cpp:555-588 | In a map every index has a slot of its own, in the array of a small area every valid index has. |
| PathGrid.Area.UpperFaces | src/pathfinder.cpp:569-572 | In the array an index on the upper x face has no slot, one on the upper y or z face that of a node in the next layer or row. |
| PathGrid.Area.BuildPath | src/pathfinder.cpp:1191-1219 | The path collected by way of the slots is the chain; it is complete exactly when the chain has fewer than 700 nodes, and otherwise its first 699. |
| CostSearch.Problem.SettledBoundsRoutes | src/pathfinder.cpp:993-1078 | With everything settled no route to the target costs less than its label, in spite of the early returns. |
| CostSearch.Problem.SettledIsOptimal | src/pathfinder.cpp:993-1078 | The target's label is the least cost of any route, and missing exactly when there is none. |
| CostSearch.Problem.BuiltPathIsCheapest | src/pathfinder.cpp:1191-1219 | Following the source directions from the target gives a cheapest route. |
| CostSearch.Pathfinder.UpdateAllCosts | src/pathfinder.cpp:993-1078 | Every call keeps labels, source directions and the target's best cost consistent, only improves labels, and leaves all nodes off the call stack settled; the recursion ends. |
| CostSearch.Pathfinder.UpdateFromStart | src/pathfinder.cpp:993-1078 | The whole search leaves an optimal label on the target. Its boolean is sound, and found means start and target are one or some reachable node that does not give up has a move to the target. If no last node of a cheapest route gives up after finding the target, or the one the target has its label from in the end does not, the boolean says exactly whether a route exists; from a node next to the target it says exactly whether that node does not give up. |
| PathAnswers.RightFromEverywhere | src/pathfinder.cpp:993-1078 | For any start: the boolean is right from every place the start can reach exactly when no such place one level move from the target has a jump or a fall in a later direction. Nothing is assumed about the rest of the world. |
| PathAnswers.EasternNeighbourMissed | src/pathfinder.cpp:593-801 | A path request at the edge of a terrace to the next node east, for any source, search distance of at least 2 and drop of at least 1: with the cost search the program returns no path, with the heuristic search it returns one. |
| HeuristicSearch.Pathfinder.UpdateCostHeuristic | src/pathfinder.cpp:1094-1188 | The outcome (found, exhausted, or past the end of the array) is that of a run with the open list emptied in some order. A destination found is reachable. Unless a way from the start misleads the search, it stays within its grid nodes and finds the destination exactly when the start is usable and the destination reachable; in the map of a large area nothing misleads it. |
| HeuristicSearch.Pathfinder.Expand | src/pathfinder.cpp:1137-1181 | The four directions are looked at as in the step function of the runs; what was written to slots and to the open flags of others is not touched again, and everything around is looked at. |
| HeuristicSearch.Problem.ExhaustedMeansUnreachable | src/pathfinder.cpp:1094-1188 | With the open list empty the destination is not reachable, unless the search was misled. |
| HeuristicSearch.Problem.ManhattanIsDistance | src/pathfinder.cpp:1081-1088 | The estimate is 0 exactly above or below the destination, changes by 1 with every move, and falls in some direction. |
| HeuristicSearch.Problem.RouteCostsManhattan | src/pathfinder.cpp:1081-1088 | No route costs less than the estimate. |
| HeuristicSearch.RightExactlyUnlessMisled | src/pathfinder.cpp:1094-1188 | From a usable start, all runs for all destinations, whatever the order of the open list, stay within the array and find the destination exactly when it is reachable, if and only if no way from the start leads past the end of the array, or looks first at another index with the slot of a reachable node. |
| HeuristicSearch.Problem.DisplacedIsMisled | src/pathfinder.cpp:1157-1181 | If in any run the slot of a reachable node went to another index, the area has a way on which that happens first, so the search can be misled. |
| HeuristicSearch.LargeIsNotMisled | src/pathfinder.cpp:643-647 | In a map nothing misleads the search. |
| HeuristicSearch.Problem.ChainIsExact | src/pathfinder.cpp:1094-1219 | The chain back by way of the slots from a usable position that was queued is a route that costs exactly its label. |
| VoxelWorld.World.WalkDownwards | src/pathfinder.cpp:1222-1257 | Down to the one resting place a free fall within the given distance reaches; the position unchanged when there is none. |
| PathRequest.SearchPath | src/pathfinder.cpp:705-745 | From a standing place: every path shown is a route, or the end of one beyond the waypoint cap; with the cost search it is a cheapest one. The heuristic search gives what some run gives, and unless it can be misled a path exactly when there is a route. |
| PathRequest.GetPath | src/pathfinder.cpp:593-801 | The whole request, with the area and its grid nodes made from it: both ends are moved down; a path found shows a route (with the cost search a cheapest one) between the two ends on the ground as its positions in the world, in order, between the source if that hovers and the destination if that does. The heuristic search finds one exactly when neither end asked for is in a walkable node, both ends on the ground are standing places, the start is usable and the destination reachable, unless it can be misled; in any case it does what some run does. It has no result exactly when an end has no slot (search distance 0 in a small area) or such a run leaves the array. With the cost search a path is found whenever the search's boolean is true, which CostSearch.Pathfinder.UpdateFromStart characterises. |
| PathRequest.PathIsWalk | src/pathfinder.cpp:748-785 | A path found ends at the destination asked for, and begins at the source asked for unless that stands already and the waypoint cap cut the beginning off. In between, each position follows from the one before by a move; a hovering end stands straight above its neighbour. |
| PathRequest.LimitsMeaning | src/pathfinder.cpp:616-634 | The search is limited to the box of the two ends, widened by the search distance on every side. |
| PathSlots.FarSearchIsExact | src/pathfinder.cpp:643-647 | With a search distance of 2 or more a request by heuristic search gives a path exactly when both ends are clear, the start is usable and there is a route. |
| PathSlots.InsideIsNotMisled | src/pathfinder.cpp:1157-1181 | Nothing misleads a search from whose reachable nodes no move ends on an upper face. |
| PathSlots.SharedSlotMissed | src/pathfinder.cpp:569-572 | A request with search distance 1, for any source, with a route: a place on the upper face takes the slot of the only step up, and no path is returned. |
| PathSlots.EastIsPastTheEnd | src/pathfinder.cpp:569-572 | With search distance 1, both ends in one plane across the x axis in a small area, and level ground east of the source, the search leaves the array at once. |
| NoiseMath.Noise2CellChoice | src/noise.cpp:235-250 | At cell boundaries the cell myfloor picks and the cell floor picks give the same noise. |
| NoiseMath.Noise3CellChoice | src/noise.cpp:253-278 | The same in three dimensions. |
| NoiseMath.NoisePerlin2D | src/noise.cpp:309-332 | The loop computes the scaled and shifted sum of octaves at a point. |
| NoiseMath.NoisePerlin3D | src/noise.cpp:335-359 | The same in three dimensions. |
| NoiseMath.PerlinOctaves2 | src/noise.cpp:309-332 | Without octaves noise is the offset; otherwise it is the gradient noise at the point in units of the spread, as its absolute value if the flag is set, plus the other octaves weakened by the persistence, times the scale, plus the offset. Both the eased and the defaults flag ease it. |
| NoiseMath.PerlinOctaves3 | src/noise.cpp:335-359 | The same in three dimensions, where only the eased flag does. |
| NoiseMath.OctavesNest2 | src/noise.cpp:309-332 | A sum of octaves is the noise of the first plus the persistence times the sum of one octave less at coordinates stretched by the lacunarity, with the next seed. |
| NoiseMath.OctavesNest3 | src/noise.cpp:335-359 | The same in three dimensions. |
| NoiseMath.EaseShape | src/noise.h:236-239 | The curve goes from 0 to 1 and is symmetric about the middle; eased it stays below 10 t^3, so it is flat to second order at both ends. |
| NoiseMath.EaseMonotone | src/noise.h:236-239 | The curve never falls between 0 and 1. |
| NoiseMath.Noise2Shape | src/noise.cpp:205-254 | At a lattice point noise is its value; elsewhere it lies between the least and the greatest value at the corners of the cell. Reflecting the lattice, or exchanging its axes, does the same to the noise. |
| NoiseMath.Noise3Shape | src/noise.cpp:218-304 | Lattice points, bounds and exchanged axes in three dimensions. |
| NoiseMath.Noise3IsNoise2 | src/noise.cpp:218-304 | Where the lattice does not depend on the third axis, noise in three dimensions is that in two; each axis can be brought there by the exchanges above. |
| NoiseLattice.WalkedPoint2 | src/noise.cpp:491-548 | The cell and offset a walk carries are those of the specification of the walk, which moves on by one cell at most. |
| NoiseLattice.WalkedPoint3 | src/noise.cpp:553-640 | The same in three dimensions. |
| NoiseLattice.WalkIsGradient2 | src/noise.cpp:491-548 | The walk gives the gradient noise at the coordinates of every grid point, for every lattice, exactly when it keeps up with the grid: on each axis the step is at most a cell, or there is one point, or the last point is still in the walk's cell. |
| NoiseLattice.WalkIsGradient3 | src/noise.cpp:553-640 | The same in three dimensions. |
| NoiseLattice.ReservedSuffice | src/noise.cpp:436-476 | The lattice points an octave uses along an axis, from any start, are less than those reserved for it whenever the sizing factor is at least the octave's frequency. |
| NoiseLattice.FactorCovers | src/noise.cpp:436-441 | With lacunarity of at least 1 the sizing factor covers the frequency of every octave. |
| NoiseLattice.EveryStartFits2 | src/noise.cpp:491-505 | Every octave of a 2D map fits a buffer from every start exactly when, for every octave, the product over the axes of ceil(s * frequency / spread) + 2 is at most its length: the bound is attained. |
| NoiseLattice.EveryStartFits3 | src/noise.cpp:553-575 | The same in three dimensions. |
| NoiseLattice.LayersDecide | src/noise.cpp:436-476 | With lacunarity of at least 1 the buffer the program reserves holds every 3D map exactly when the map has more than one layer. |
| NoiseLattice.FirstOctaveDecides | src/noise.cpp:436-476 | With lacunarity of at most 1 the first octave decides: every start fits exactly when (ceil(sx / spreadX) + 2) * (ceil(sy / spreadY) + 2) is at most the length, and no step exceeds a cell exactly when the spreads are at least 1. |
| NoiseLattice.SmallLacunarityOverflows | src/noise.cpp:436-476 | Accepted parameters with lacunarity below 1 for which a map of 80 by 1 points needs 246 lattice points and 172 are reserved. |
| NoiseLattice.OnePointFits | src/noise.cpp:436-476 | A one-layer 3D map that does fit: one point with spread 10. |
| NoiseMap.Noise.constructor | src/noise.cpp:362-476 | Parameters the size check accepts, with lacunarity 0 or negative too, give buffers of the reserved size. |
| NoiseMap.Noise.GradientMap2D | src/noise.cpp:491-548 | Every grid point gets what the walk computes, for any steps that are not negative, with every lattice access inside the buffer; where the walk keeps up, that is the gradient noise of its own coordinates. |
| NoiseMap.Noise.GradientMap3D | src/noise.cpp:553-640 | The same in three dimensions. |
| NoiseMap.Noise.OctaveFits2 | src/noise.cpp:436-476 | For a call that fits by the criterion above, each octave's lattice is within the buffer. |
| NoiseMap.Noise.OctaveFits3 | src/noise.cpp:436-476 | The same for a 3D map, of any number of layers. |
| NoiseMap.Noise.GrowingMapsFit | src/noise.cpp:436-476 | For every accepted parameters with lacunarity of at least 1 every 2D call fits, every 3D call of more than one layer too, and the walks keep up in every octave. |
| NoiseMap.Noise.UpdateResults | src/noise.cpp:719-745 | An octave is added at the common amplitude, or at each point's own, which then shrinks by the point's persistence. |
| NoiseMap.Noise.PerlinMap2D | src/noise.cpp:644-678 | For every call that fits, whatever the lacunarity that is not negative: every map value is the sum of what the octaves' walks compute, with the persistence of that point, closed by the scaling step. Where the walks keep up it is the sum of the octaves at its own coordinates, and without a persistence map the pointwise noise there when the parameters close exactly. The amplitudes are kept for later calls. |
| NoiseMap.Noise.PerlinMap3D | src/noise.cpp:681-716 | The same in three dimensions. |
| NoiseMap.Noise.AmplitudesAfter | src/noise.cpp:653-658 | After a 2D map with a persistence map on a new object, the amplitudes kept are enough for a 3D map exactly when the object has one layer; after a 3D map they are enough for all. |
| NoiseMap.MapIsPointwise2 | src/noise.cpp:669-675 | Without a persistence map all map values, over all lattices, starts and seeds, equal the pointwise noise exactly when the parameters close exactly: offset over 0.00001 or scale further than that from 1, or offset 0 with scale 1 or no octave. |
| NoiseMap.MapIsPointwise3 | src/noise.cpp:707-713 | The same in three dimensions. |
| NoiseMap.FinishCanDiffer | src/noise.cpp:669-675 | Parameters for which the scaling step is skipped and would have changed the value. |
| PluralForms.ParseLtr | src/gettext_plural_form.cpp:126-140 | The loop over operators computes the left-to-right reduction and ends on every string. |
| PluralSyntax.TreeValue | src/gettext_plural_form.cpp:36-92 | For expressions with decimal constants the evaluator has a value exactly when every part it evaluates has one, and then it is the value in C, whose operators are given apart from the evaluator. |
| PluralSyntax.ApplyIsResult | src/gettext_plural_form.cpp:36-92 | Each of the thirteen operators gives the only value C allows: quotient and remainder that belong together, sums, differences and products reduced modulo 2^64 into the range, 1 for what holds and 0 for what does not; it has none exactly for division by 0. |
| PluralForms.IncompleteMeaning | src/gettext_plural_form.cpp:7-92 | A form with a part missing has no plural forms and gives 0 for every number. |
| PluralSyntax.DigitsMeaning | src/gettext_plural_form.cpp:142-152 | Digits are zeros followed by the decimal numeral of their value. |
| PluralSyntax.NumeralValue | src/gettext_plural_form.cpp:142-152 | The decimal numeral of a number is read as that number. |
| PluralSyntax.DecimalReading | src/gettext_plural_form.cpp:142-152 | Reading digits in base 10 gives the C constant exactly for decimal constants and for 0 to 7 behind zeros. |
| PluralParsing.ReadNumberMeaning | src/gettext_plural_form.cpp:142-152 | A number may have white space and a sign in front and ends with its last digit; a negative one is taken modulo 2^64, one too large as the largest. |
| PluralParsing.NoNumber | src/gettext_plural_form.cpp:142-152 | Where no digit follows, the number is 0 and nothing is read. |
| PluralParsing.ReadsAs | src/gettext_plural_form.cpp:97-235 | At every level of the grammar, up to what may follow it, a text is read as its tree. |
| PluralParsing.ParseReadsC | src/gettext_plural_form.cpp:97-245 | Every expression that C grammar derives over n and the operators supported, with any spacing and any parentheses, is read completely and as its tree; the form has all plural forms asked for. |
| PluralParsing.ParsedValueIsC | src/gettext_plural_form.cpp:36-245 | With decimal constants the parsed form has the C value wherever all parts are defined, and no value elsewhere. |
| PluralParsing.OctalReadAsDecimal | src/gettext_plural_form.cpp:142-152 | The text 010 is 8 in C and the form gives 10. |
| PluralParsing.ReadingIsUnique | src/gettext_plural_form.cpp:97-245 | No text has two readings. |
| PluralParsing.EagerConjunction | src/gettext_plural_form.cpp:57-62 | An expression with a value in C for which the form divides by zero: && evaluates both sides. |
| EmergeQueue.Optimal | src/emerge.cpp:423-441 | The chosen thread has the shortest queue, the first of them on a tie. |
| EmergeQueue.EnqueueConsistent | src/emerge.cpp:274-301 | A request keeps every pending position in exactly one queue, once, and every peer counter exact. |
| EmergeQueue.FrontIsPending | src/emerge.cpp:400-420 | What a thread takes is pending and its peer's counter is not 0, so the assertion cannot fail. |
| EmergeQueue.PopConsistent | src/emerge.cpp:515-528 | Taking a position keeps both. |
| EmergeQueue.PendingOnce | src/emerge.cpp:274-301 | A position is pending exactly when it stands in a queue, and then at one place of one queue. |
| EmergeRuns.RunCarries | src/emerge.cpp:352-420 | In every interleaving a pending or delivered entry carries exactly the callbacks, the flags and the first peer of the requests accepted for its position since the position was last delivered. |
| EmergeRuns.NoCallbackLost | src/emerge.cpp:352-420 | In every interleaving each accepted callback is delivered once, in order, or is still pending. |
| EmergeRuns.CallbacksMeaning | src/emerge.cpp:388-397 | The callbacks delivered are those of the requests that have one, in order. |
| EmergeRuns.RunWithin | src/emerge.cpp:352-378 | Without forced requests the total, per-peer and no-peer bounds hold in every interleaving. |
| EmergeRuns.RunRefuses | src/emerge.cpp:352-397 | After any run a request is refused exactly if it is not forced and as many positions are pending as the total allows, or as its peer may have (to generate or from disk, by its flag), or it has no peer and twice the positions without one reach the total; then nothing changes. Otherwise its position is pending. |
| EmergeQueue.AdmitsUnlessTurnedAway | src/emerge.cpp:361-378 | The counters decide as the pending positions say. |
| EmergeManagers.EmergeManager.GetOptimalThread | src/emerge.cpp:423-441 | The loop finds that thread. |
| EmergeManagers.EmergeManager.PushBlockEmergeData | src/emerge.cpp:352-397 | The request is refused exactly if the pending positions say so; a known position merges callbacks and flags, a new one is counted, and either is pending afterwards. |
| EmergeManagers.EmergeManager.EnqueueBlockEmergeEx | src/emerge.cpp:274-301 | The critical section is the request step of the runs; it is refused exactly if the pending positions say so, and pending otherwise. |
| EmergeManagers.EmergeManager.PopBlockEmergeData | src/emerge.cpp:400-420 | The entry is returned and forgotten, its peer's counter lowered. |
| EmergeManagers.EmergeManager.PopBlockEmerge | src/emerge.cpp:515-528 | The critical section is the pop step of the runs. |
| EmergeManagers.EmergeManager.CancelPendingItems | src/emerge.cpp:480-495 | The loop delivers the thread's whole queue in order and leaves it empty. |
| ItemStacks.StackedMeaning | src/inventory.cpp:302-376 | Adding to a stack and the fitting test agree; nothing is lost; only a full or foreign stack turns items away. |
| ItemStacks.TakenMeaning | src/inventory.cpp:385-403 | Taking gives the smaller of what is asked for and what is there, and loses nothing. |
| ItemStacks.AddedConserves | src/inventory.cpp:601-638 | Adding to a list conserves the count of every name and metadata. |
| ItemStacks.AddedLeaves | src/inventory.cpp:601-638 | With an empty slot nothing is left over, otherwise what exceeds the room in stacks of the kind. |
| ItemStacks.AddedFillsUp | src/inventory.cpp:601-638 | The slots are filled up in order: first the occupied ones of the kind as far as their maximum goes, then the first empty one. |
| ItemStacks.FillsUpMeaning | src/inventory.h:76-88 | So an occupied slot never grows beyond the maximum of its definition, items are left over only when no slot is empty and those of the kind are full, and an empty slot is used only when those of the kind are full. |
| ItemStacks.RoomForIsAddable | src/inventory.cpp:664-675 | The one-pass test is true exactly when the two-pass operation leaves nothing over. |
| ItemStacks.RemovedCounts | src/inventory.cpp:696-714 | Removing takes the minimum of requested and present. |
| ItemStacks.RemovedSlots | src/inventory.cpp:696-714 | Every slot keeps its stack, or a smaller one if it is of that name. |
| ItemStacks.ContainsIsRemovable | src/inventory.cpp:677-714 | A list contains an item, metadata aside, exactly when removing it gets the whole count. |
| InventoryLists.MoveBetweenMeaning | src/inventory.cpp:750-792 | As many items as fit are moved; the stacks change places exactly when that is none and swapping is allowed; every kind is conserved. |
| InventoryLists.MoveNowhere | src/inventory.cpp:750-792 | A move to a slot that does not exist changes nothing. |
| InventoryLists.RoomToPutBack | src/inventory.cpp:727-748 | Moving within one list, the leftover goes back on the same kind without exceeding the count the slot had, so no count overflows. |
| InventoryLists.MovedWithinConserves | src/inventory.cpp:727-748 | Moving a stack anywhere within its own list conserves every kind. |
| InventoryLists.MovedAcrossConserves | src/inventory.cpp:727-748 | The same for another list. |
| InventoryLists.MovedWithinFills | src/inventory.cpp:727-748 | Moving somewhere in the same list fills it up with what was asked for, and puts the rest back. |
| InventoryLists.MovedAcrossFills | src/inventory.cpp:727-748 | Moving somewhere in another list fills that up with what was asked for; the rest stays. |
| InventoryLists.InventoryList.SetSize | src/inventory.cpp:439-450 | Items that still fit stay; shrinking a list in use fails; a change marks the list. |
| InventoryLists.InventoryList.ChangeItem | src/inventory.cpp:581-592 | The old stack comes back; the list is marked exactly when it changes. |
| InventoryLists.InventoryList.AddItemAt | src/inventory.cpp:640-649 | One slot takes what it can; the list is marked exactly when it changes. |
| InventoryLists.InventoryList.AddItem | src/inventory.cpp:601-638 | The two loops compute the two passes, which fill the slots up as said above, and mark every change. |
| InventoryLists.InventoryList.RoomForItem | src/inventory.cpp:664-675 | The loop computes the test, and so whether adding would leave nothing. |
| InventoryLists.InventoryList.ContainsItem | src/inventory.cpp:677-694 | True exactly when the matching stacks hold the count, and metadata aside when removing would get it. |
| InventoryLists.InventoryList.RemoveItem | src/inventory.cpp:696-714 | The backward loop removes as specified, also beyond a full stack, and marks the list when it got anything; metadata and wear of what comes back are those of the last stack of the name. |
| InventoryLists.InventoryList.TakeItem | src/inventory.cpp:716-725 | Takes from one slot, marking the list exactly when it changes. |
| InventoryLists.InventoryList.MoveItemSomewhere | src/inventory.cpp:727-748 | Moves a stack to any slots of another list or of the same one, conserving every kind and marking every change. |
| InventoryLists.InventoryList.MoveItem | src/inventory.cpp:750-792 | Moves between two slots of different lists or of one, conserving every kind and marking every change. |
| InventorySync.FullSync | src/inventory.cpp:866-952 | A whole message gives the receiver the sender's mapping from names to lists. |
| InventorySync.IncrementalSync | src/inventory.cpp:866-952 | After any run of operations (lists appended under new names, deleted or changed and marked) since the receiver was up to date, an incremental message gives it the sender's mapping, and both sides are up to date again. |
| InventorySync.IncrementalExactly | src/inventory.cpp:866-952 | With distinct names an incremental message works exactly when every unmarked list is what the receiver has. |
| InventorySync.RunKeepsUpToDate | src/inventory.h:282-283 | Every such run keeps names distinct, and the receiver has every unmarked list. |
| Inventories.MarkedIsTracked | src/inventory.h:348-368 | Whatever is done to lists by methods that mark what they change is a tracked change. |
| Inventories.SerializeList | src/inventory.cpp:464-484 | The loop writes the width and one line for each slot. |
| Inventories.Inventory.AddList | src/inventory.cpp:954-978 | An existing list is emptied and resized, otherwise a new one appended unless its name has a space; an operation of the runs, names stay distinct and a receiver up to date stays so. |
| Inventories.Inventory.DeleteList | src/inventory.cpp:988-1000 | The list of the name goes, unless it is in use; an operation of the runs, names stay distinct and a receiver up to date stays so. |
| Inventories.Inventory.AddItem | src/inventory.h:340-346 | The named list takes what it can; without one everything is left over; an operation of the runs, and a receiver up to date stays so. |
| Inventories.Inventory.SetModified | src/inventory.h:360-368 | Clearing the flag clears it on every list. |
| Inventories.Inventory.Serialize | src/inventory.cpp:866-879 | The loop writes marked lists whole and names the others. |
| Inventories.Inventory.Send | src/server.cpp:1531-1551 | Whole or incremental, the message takes the receiver from what it knew to the sender's lists, and clears all marks; only the class invariant is assumed. |
| PathNames.BackwardIsForward | src/filesys.cpp:775-826 | Resolving ".." from the end with a counter, delimiters included, gives the text a stack from the front gives; the counter is left over exactly when the stack would be popped empty. |
| PathNames.RemoveRelativePathComponents | src/filesys.cpp:775-826 | The result is, character for character, the text of the forward normalisation: the kept components with the delimiters that stood before them, one delimiter where components went between, none at the end; the in-place loop ends. |
| PathNames.NormalTextMeaning | src/filesys.cpp:775-826 | That text has exactly the components of the forward stack, a leading delimiter exactly when there was one and something is left, none at the end, and is empty when ".." finds nothing. |
| PathNames.NormalisedTwice | src/filesys.cpp:775-826 | Normalising a result changes nothing in it. |
| PathNames.PathRules | src/filesys.cpp:775-826 | The rules that determine the components: "." stands for nothing, ".." takes back the name before it, a path that begins with ".." has no result, and names stay. |
| PathNames.OnlyTrailingGoes | src/filesys.cpp:775-826 | A path without "." and ".." only loses the delimiters at its end, however many stand inside. |
| PathNames.GapsOfResult | src/filesys.cpp:775-826 | Behind the first, a component of the result has a single delimiter in front, or stands as it stood in the path. |
| NodeTimers.WithoutConsistent | src/nodetimer.h:62-79 | Removing keeps the multimap and the position index in bijection. |
| NodeTimers.WithConsistent | src/nodetimer.h:81-88 | Inserting does. |
| NodeTimers.NothingDueIsExact | src/nodetimer.cpp:113-119 | For every next trigger time the operations can leave, the early return is right at all times exactly when that time is the earliest trigger, or there is no timer. |
| NodeTimers.TimerAtMinusOneIsLate | src/nodetimer.h:81-88 | A timer inserted at -1 and then one at 5: the field is 5, and the first timer is not run when due. |
| NodeTimers.NodeTimerList.Get | src/nodetimer.h:52-60 | The timer of a position with its elapsed time, a default one where there is none. |
| NodeTimers.NodeTimerList.Remove | src/nodetimer.h:62-79 | The position has no timer afterwards, the others are as before; the next trigger time stays the earliest if it was. |
| NodeTimers.NodeTimerList.Insert | src/nodetimer.h:81-88 | The position shows the timer, the others are as before; the next trigger time stays the earliest unless the new trigger is -1. |
| NodeTimers.NodeTimerList.Set | src/nodetimer.h:90-93 | Replaces the timer of a position. |
| NodeTimers.NodeTimerList.Step | src/nodetimer.cpp:113-135 | All timers age; exactly those whose time is up are handed out, the longest overdue first, and gone. Where the next trigger time is later than the earliest trigger and not reached, nothing is handed out. |
| ContentIds.ResolveMeaning | src/mapblock.cpp:283-292 | Resolving a name gives its id, allocating one if need be, and then gives it again. |
| ContentIds.AllocateId | src/nodedef.cpp:1120-1137 | The loop over 16-bit ids that wrap around finds the first free id from the next one on, if there is one, and moves the next one behind it. |
| ContentIds.InitialIsValid | src/nodedef.cpp:993-1056 | The registry begins with consistent maps, and the first name registered gets id 0. |
| ContentIds.ReservedIds | src/nodedef.cpp:993-1056 | Whatever is registered later, ids 125 to 127 stay those of unknown, air and ignore, and are never given to another name. |
| ContentIds.NeverEnds | src/nodedef.cpp:1120-1137 | With every id in use and the next one 0, as it is once the last id was given, the loop has no end. |
| ContentIds.LookedAllMeaning | src/mapblock.cpp:254-298 | Loading gives a node the id of its name exactly when the name is registered in the end. |
| ContentIds.RoomSuffices | src/mapblock.cpp:283-292 | With as many free ids from the next one on as the mapping has names, all names end up registered. |
| MapBlocks.NameIdMapping.Set | src/nameidmapping.h:28-33 | Enters an id and a name in both maps. |
| MapBlocks.GetBlockNodeIdMapping | src/mapblock.cpp:213-247 | Nodes get ids 0, 1, ... one for each content, with the content's name behind each; params stay. |
| MapBlocks.CorrectBlockNodeIds | src/mapblock.cpp:252-312 | Remembering the previous id gives what a lookup for every node gives. |
| MapBlocks.SerializeBulk | src/mapnode.cpp:590-614 | The three loops lay the nodes out in three planes, for any number of nodes. |
| MapBlocks.DeSerializeBulk | src/mapnode.cpp:617-669 | With the versions and widths the program accepts, the nodes read are those laid out in the buffer, in the 2-byte layout or the older one of 1-byte ids with 4 bits of param2; otherwise it fails. |
| MapBlocks.LayoutIsUnique | src/mapnode.cpp:590-669 | A buffer holds one sequence of nodes, so reading gives back what was written. |
| MapBlocks.LayoutMeaning | src/mapnode.cpp:590-669 | The bytes are, in this order, two for every id with the high one first, one for every param1, one for every param2. |
| MapBlocks.OldNodeMeaning | src/mapnode.cpp:634-665 | In the old layout ids from 128 take twelve of the sixteen bits of the id byte and param2, and are 2048 at least. |
| MapBlocks.SavedBlockLoads | src/mapblock.cpp:213-312 | A block saved under one registry and loaded under another with room for its names has every node's name, param1 and param2. |
| MapSectors.MapSector.GetBlockBuffered | src/mapsector.cpp:31-48 | Looking a block up through the cache finds what the container holds. |
| MapSectors.MapSector.InsertBlock | src/mapsector.cpp:77-91 | A block goes in unless there is one at its height; the cache stays right. |
| MapSectors.MapSector.DetachBlock | src/mapsector.cpp:99-117 | The block is gone from container and cache. |
| MapSectors.Map.GetSectorNoGenerateNoLock | src/map.cpp:58-77 | Looking a sector up through the cache finds what the map holds. |
| MapSectors.Map.GetBlockNoCreateNoEx | src/map.cpp:84-92 | Through both caches, the block loaded at the position. |
| MapSectors.Map.DeleteSectors | src/map.cpp:423-434 | The listed sectors are gone from map and cache. |
| MapSectors.Map.AgeBlocks | src/map.cpp:337-348 | Every loaded block gets older and is queued once with its sector. |
| MapSectors.Map.EvictBlocks | src/map.cpp:351-382 | Blocks are visited oldest first while over the limit or the timeout; of the visited ones exactly the evictable are gone. |
| MapSectors.Map.TimerUpdate | src/map.cpp:337-398 | With a block limit: the visited blocks come oldest first, each over the timeout or over the limit, the rest within both; a visited block goes exactly when nobody holds it and it is clean or saved where saving is possible; no sector stays empty and both caches agree with what is left. |
| MapSectors.Map.TimerUpdateUnlimited | src/map.cpp:298-336 | Without a block limit: a block goes exactly when it is over the timeout and held by nobody and is clean, saved or not worth saving, or has only such overdue blocks in its sector; these sectors go, and both caches agree with what is left. |
| MapSectors.UnlimitedLosesUnsaved | src/map.cpp:298-336 | Without a limit no unsaved block is lost exactly when every overdue block that could not be saved shares its sector with one that is not overdue. |
| MapSectors.UnsavedBlockLost | src/map.cpp:309-336 | One overdue block that could not be saved, alone in its sector, is lost. |

## Left out

- Member names not listed in the table are the specifications the table's members use, and steps of their proofs.
- NoiseMap.Noise.PerlinMap2D: asks that the call fits the buffer and that lacunarity is not negative; otherwise the program writes past its buffer (the exact conditions are NoiseLattice.EveryStartFits2 and FirstOctaveDecides), or converts negative numbers of lattice points, which is undefined.
- NoiseMap.Noise.PerlinMap3D: asks the same; a map of one layer fits only in some cases (NoiseLattice.LayersDecide and OnePointFits). Both ask that amplitudes kept from an earlier call are enough (NoiseMap.Noise.AmplitudesAfter).
- NoiseMap.Noise.constructor: a spread of 0, and setSize, setSpreadFactor and setOctaves, which replace buffers, are not modelled.
- CostSearch.Pathfinder.UpdateFromStart: where the target has its final label from a node that gives up, some other reachable node next to the target does not give up, and the start is not next to the target, the boolean depends on whether a dearer route was found before, and only that it is sound is claimed.
- HeuristicSearch.Pathfinder.UpdateCostHeuristic: which of several equally good open positions is taken next is left open, as the queue compares estimates that are fixed when a position enters.
- PathRequest.GetPath: 16-bit wrap-around of coordinates is not modelled; past the end of the array there is no result, and a reference formed there but not read is not counted.
- VoxelWorld.World.CalcCost: costs are computed when asked for; the program caches them per node, which changes nothing while the map does not change.
- CraftDefManagers.CraftDefManager.GetCraftResult: that all candidates are reached is claimed for input whose stacks of count 0 have no name; decrementing the input, replacements and the listing of recipes by output are left out.
- CraftDefManagers.HashedLookupIsScan: compares two choices among all candidates; which candidates the hashes reach is stated by GetCraftResult. The string hash is an arbitrary function.
- PluralParsing.ParseReadsC: says nothing about texts that are no C expression, some of which are accepted (a missing number reads as 0); the header line and locale-dependent spaces are left out, and unsigned long has 64 bits.
- EmergeRuns.RunCarries: delivery to the thread is claimed, not that callbacks run, because positions beyond the world limit are dropped after they were taken; flags are sets of bits, and counters are unbounded (without forced requests the limits keep them far below 32 bits).
- EmergeManagers.EmergeManager.PopBlockEmerge: what a thread does with a block (memory, disk, generation, scripts) is left out.
- InventorySync.IncrementalSync: messages are sequences of parsed lines; item and string codecs are assumed to round-trip, list names have no spaces, and the receiver is a map from names to lists, so that it reuses list objects in place is not captured. A message with items for a list of size 0, which the program writes out of bounds, is refused. Assignment between lists does not mark the target and is not among the tracked changes.
- Inventories.Inventory.Send: the check of the protocol version, the update of the craft preview before and the packet around the message are left out.
- InventoryLists.InventoryList.MoveItem: wear is not conserved, as stacking keeps the wear of the stack that was there; callbacks, move, drop and craft actions are left out.
- PathNames.RemoveRelativePathComponents: only "/" is a delimiter.
- NodeTimers.NodeTimerList.Step: reading and writing timers is left out; times are exact reals.
- ContentIds.ResolveMeaning: the registry has no aliases; where the search for an id never ends (ContentIds.NeverEnds) the model's function gives no id, and the program does not return.
- MapBlocks.DeSerializeBulk: a stream shorter than the buffer is left out; the model's buffer is complete.
- MapSectors.Map.TimerUpdate: which saves succeed is a parameter; metrics and logging are left out. The sign of the limit, which chooses between TimerUpdate and TimerUpdateUnlimited, is the caller's choice of the two.
- Map generation, networking, scripting, rendering, settings and databases, and small parts such as mod channels or rotation tables, which would add only easy members.
