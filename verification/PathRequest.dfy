/**
 Pathfinder::getPath (src/pathfinder.cpp): move both ends down to the ground, run a search, follow the
 source directions back from the destination and turn the result round.
 */
module PathRequest {
  import opened Basics
  import opened VoxelWorld
  import opened PathGrid
  import CostSearch
  import HeuristicSearch

  datatype PathAlgorithm = Dijkstra | Plain

  // The route's nodes, all of them unless the waypoint cap cut off the beginning.
  ghost predicate ShowsRoute(area: Area, start: Pos, ks: seq<nat>, end: Pos, path: seq<Pos>) {
    && area.IsRoute(start, ks, end)
    && var trail := area.Trail(start, ks);
       path == if |trail| < 700 then trail
               else trail[|trail| - 699..]
  }

  ghost predicate IsCheapest(area: Area, start: Pos, ks: seq<nat>, end: Pos) {
    && area.IsRoute(start, ks, end)
    && forall js :: area.IsRoute(start, js, end) ==> area.RouteCost(start, ks) <= area.RouteCost(start, js)
  }

  lemma {:induction false} BackwardsLength<T>(s: seq<T>)
    ensures |Backwards(s)| == |s|
  {
    if s == [] {
    } else {
      BackwardsLength(s[1..]);
    }
  }

  lemma {:induction false} BackwardsPrefix<T>(s: seq<T>, n: nat)
    requires n <= |s|
    ensures |Backwards(s)| == |s| && Backwards(s[..n]) == Backwards(s)[|s| - n..]
  {
    BackwardsLength(s);
    if n == 0 {
    } else {
      BackwardsPrefix(s[1..], n - 1);
      assert s[..n][1..] == s[1..][..n - 1];
    }
  }

  // getPath ignores whether the path could be built completely.
  method Collect(area: Area, start: Pos, sourcedir: map<Slot, Pos>, end: Pos, ghost cost: map<Pos, nat>, ghost source: map<Pos, Pos>,
                 ghost ks: seq<nat>)
    returns (path: seq<Pos>)
    requires area.Linked(start, cost, source) && end in cost && (end == start || area.Usable(end))
    requires area.Kept(start, cost, source, sourcedir)
    requires area.IsRoute(start, ks, end) && area.Trail(start, ks) == Backwards(area.Chain(start, cost, source, end))
    ensures path != [] && ShowsRoute(area, start, ks, end, path)
  {
    hide Area.Linked, Area.Usable, Area.IsSurface, Area.Trail, Area.Chain, Area.Kept, Backwards;
    var ok, index := area.BuildPath(start, sourcedir, end, cost, source);
    ghost var chain := area.Chain(start, cost, source, end);
    BackwardsLength(chain);
    BackwardsPrefix(chain, |index|);
    EmptyBackwards<Pos>();
    path := [];
    for i := 0 to |index|
      invariant path == Backwards(index[..i])
    {
      path := [index[i]] + path;
      SnocBackwards(index[..i], index[i]);
      assert index[..i + 1] == index[..i] + [index[i]];
    }
    assert index[..|index|] == index;
  }

  lemma EmptyBackwards<T>()
    ensures Backwards<T>([]) == []
  {}

  lemma {:induction false} SnocBackwards<T>(s: seq<T>, x: T)
    ensures Backwards(s + [x]) == [x] + Backwards(s)
  {
    if s == [] {
      assert s + [x] == [x] && [x][1..] == [];
    } else {
      assert (s + [x])[1..] == s[1..] + [x];
      SnocBackwards(s[1..], x);
    }
  }

  // Some route, with the cost search a cheapest one.
  ghost predicate ShowsChosen(area: Area, start: Pos, end: Pos, path: seq<Pos>, algo: PathAlgorithm) {
    exists ks :: ShowsRoute(area, start, ks, end, path) && (algo == Dijkstra ==> IsCheapest(area, start, ks, end))
  }

  // The heuristic search came to this in some run. Without a path it has left the array of grid nodes.
  ghost predicate RunGives(area: Area, start: Pos, end: Pos, path: Option<seq<Pos>>) {
    exists picks: seq<nat> :: RunGave(area, start, end, picks, path)
  }

  ghost predicate RunGave(area: Area, start: Pos, end: Pos, picks: seq<nat>, path: Option<seq<Pos>>) {
    match HeuristicSearch.Problem(area, start, end).After(picks)
    case OutsideArray => path == None
    case Arrived(_) => path.Some? && path.value != []
    case Going(s) => path == Some([]) && s.queue == []
  }

  // Here the heuristic search cannot go wrong.
  ghost predicate Safe(area: Area, start: Pos) {
    !(area.Usable(start) && HeuristicSearch.Misled(area, start))
  }

  // What the search promises: a path found shows a route, and how much its absence tells.
  ghost predicate Searched(area: Area, start: Pos, end: Pos, algo: PathAlgorithm, path: Option<seq<Pos>>) {
    && (path.Some? && path.value != [] ==> ShowsChosen(area, start, end, path.value, algo))
    && match algo
       case Plain =>
         && RunGives(area, start, end, path)
         && (Safe(area, start) ==> path.Some? && (path.value != [] <==> area.Usable(start) && area.Reachable(start, end)))
       case Dijkstra => path.Some? && CostSearch.Problem(area, start, end).Answer(path.value != [])
  }

  method SearchCheapest(area: Area, start: Pos, end: Pos) returns (path: seq<Pos>)
    requires area.IsSurface(start) && (area.Small() ==> area.IsValidIndex(start) && area.IsValidIndex(end))
    ensures path != [] ==> ShowsChosen(area, start, end, path, Dijkstra)
    ensures CostSearch.Problem(area, start, end).Answer(path != [])
  {
    hide CostSearch.Problem.Answer, ShowsRoute, Area.Linked, Area.Usable, Area.IsSurface;
    path := [];
    var problem := CostSearch.Problem(area, start, end);
    var finder := new CostSearch.Pathfinder(problem);
    var found := finder.UpdateFromStart();
    if found {
      ghost var ks := problem.BuiltPathIsCheapest(finder.labels);
      area.BySlotIsKept(start, finder.labels.cost, finder.labels.source);
      path := Collect(area, start, area.BySlot(finder.labels.cost, finder.labels.source), end, finder.labels.cost, finder.labels.source, ks);
      assert IsCheapest(area, start, ks, end);
    }
  }

  method SearchHeuristic(area: Area, start: Pos, end: Pos) returns (path: Option<seq<Pos>>)
    requires area.IsSurface(start) && (area.Small() ==> area.IsValidIndex(start))
    ensures Searched(area, start, end, Plain, path)
  {
    hide ShowsRoute, Area.Linked, Area.Kept, Area.Usable, Area.IsSurface, HeuristicSearch.Misled, HeuristicSearch.Problem.After, HeuristicSearch.Problem.Searching, HeuristicSearch.Problem.Taken, Area.InStore, Area.Reachable;
    path := Some([]);
    var problem := HeuristicSearch.Problem(area, start, end);
    var finder := new HeuristicSearch.Pathfinder(problem);
    var outcome := finder.UpdateCostHeuristic();
    if outcome == HeuristicSearch.LeftArray {
      path := None;
    } else if outcome == HeuristicSearch.Found {
      DestinationTaken(problem, finder.s);
      ghost var ks := problem.ChainIsExact(finder.s, end);
      problem.SearchingIsLinked(finder.s);
      var index := Collect(area, start, finder.s.source, end, problem.CostOf(finder.s), problem.SourceOf(finder.s), ks);
      path := Some(index);
    }
    assert RunGave(area, start, end, finder.picks, path);
    StartInStore(area, start);
  }

  lemma DestinationTaken(problem: HeuristicSearch.Problem, s: HeuristicSearch.Search)
    requires problem.ArrivedAt(s)
    ensures problem.destination in s.history && problem.area.IsSurface(problem.start)
  {
    hide HeuristicSearch.Problem.Searching;
  }

  /**
   The middle part of getPath. With the heuristic search the result is empty only if there is no route, unless it
   was misled; with the cost search it can be empty although there is a route.
   */
  method SearchPath(area: Area, start: Pos, end: Pos, algo: PathAlgorithm) returns (path: Option<seq<Pos>>)
    requires area.IsSurface(start) && (area.Small() ==> area.IsValidIndex(start) && area.IsValidIndex(end))
    ensures Searched(area, start, end, algo, path)
  {
    hide CostSearch.Problem.Answer, ShowsChosen, Safe, RunGives;
    match algo
    case Dijkstra =>
      var index := SearchCheapest(area, start, end);
      path := Some(index);
    case Plain =>
      path := SearchHeuristic(area, start, end);
  }

  lemma StartInStore(area: Area, start: Pos)
    requires area.Small() ==> area.IsValidIndex(start)
    ensures area.InStore(start)
  {
    if area.Small() {
      area.ValidInStore(start);
    }
  }

  // ---------------------------------------------------------------- the whole request

  function Min(a: int, b: int): int {
    if a < b then a else b
  }

  function Max(a: int, b: int): int {
    if a > b then a else b
  }

  // The world within the search distance of both ends.
  function Limited(node: Pos -> Node, source: Pos, destination: Pos, distance: nat, maxJump: nat, maxDrop: nat): World {
    World(node,
      Pos(Min(source.x, destination.x) - distance, Min(source.y, destination.y) - distance, Min(source.z, destination.z) - distance),
      Pos(Max(source.x, destination.x) + distance, Max(source.y, destination.y) + distance, Max(source.z, destination.z) + distance),
      maxJump, maxDrop)
  }

  ghost predicate Between(a: int, q: int, b: int) {
    a <= q <= b || b <= q <= a
  }

  // c is no further than the distance from some point between a and b.
  ghost predicate Near(a: int, b: int, distance: nat, c: int) {
    exists q :: Between(a, q, b) && q - distance <= c <= q + distance
  }

  /** The search is limited to the box of the two ends, widened by the search distance on all sides. */
  lemma LimitsMeaning(node: Pos -> Node, s: Pos, d: Pos, distance: nat, maxJump: nat, maxDrop: nat, p: Pos)
    ensures Limited(node, s, d, distance, maxJump, maxDrop).Inside(p)
      <==> Near(s.x, d.x, distance, p.x) && Near(s.y, d.y, distance, p.y) && Near(s.z, d.z, distance, p.z)
  {
    NearMeans(s.x, d.x, distance, p.x);
    NearMeans(s.y, d.y, distance, p.y);
    NearMeans(s.z, d.z, distance, p.z);
  }

  lemma NearMeans(a: int, b: int, distance: nat, c: int)
    ensures Near(a, b, distance, c) <==> Min(a, b) - distance <= c <= Max(a, b) + distance
  {
    if Min(a, b) - distance <= c <= Max(a, b) + distance {
      var q := if c < Min(a, b) then Min(a, b) else if c > Max(a, b) then Max(a, b) else c;
      assert Between(a, q, b) && q - distance <= c <= q + distance;
    }
  }

  function RealPath(area: Area, path: seq<Pos>): (r: seq<Pos>)
    ensures |r| == |path| && forall i :: 0 <= i < |r| ==> r[i] == area.RealPos(path[i])
  {
    seq(|path|, i requires 0 <= i < |path| => area.RealPos(path[i]))
  }

  lemma ChosenEnds(area: Area, start: Pos, end: Pos, path: seq<Pos>, algo: PathAlgorithm)
    requires ShowsChosen(area, start, end, path, algo)
    ensures path != [] && path[|path| - 1] == end
  {
    hide IsCheapest, Area.Step, Area.Follow, Area.Trail;
    var ks :| ShowsRoute(area, start, ks, end, path) && (algo == Dijkstra ==> IsCheapest(area, start, ks, end));
    area.TrailMoves(start, ks);
  }

  // A request for a path: the world, the two ends, the search distance, and the agent's jumps and drops.
  datatype Request = Request(node: Pos -> Node, source: Pos, destination: Pos, distance: nat, maxJump: nat, maxDrop: nat,
                             algo: PathAlgorithm) {

    function Grid(): Area {
      Area(Limited(node, source, destination, distance, maxJump, maxDrop))
    }

    // The ends on the ground, as they are in the grid.
    ghost function Start(): Pos {
      Grid().world.Ground(source, maxDrop).Minus(Grid().world.minEdge)
    }

    ghost function End(): Pos {
      Grid().world.Ground(destination, maxJump).Minus(Grid().world.minEdge)
    }

    ghost predicate EndsFree() {
      node(source) != Walkable && node(destination) != Walkable
    }

    // On the ground both ends can be stood on.
    ghost predicate EndsStand() {
      Grid().IsSurface(Start()) && Grid().IsSurface(End())
    }

    // The array of grid nodes has no slot for one of the ends.
    ghost predicate Cramped() {
      distance == 0 && Grid().Small()
    }

    ghost predicate EndsClear() {
      EndsFree() && !Cramped() && EndsStand()
    }

    // The source hovers: the search starts on the ground below.
    ghost predicate Hovers() {
      Grid().RealPos(Start()) != source
    }

    ghost predicate EndHovers() {
      Grid().RealPos(End()) != destination
    }

    // The positions in the world of what is shown, in order, after the source if it hovers and before the destination if
    // it does.
    ghost predicate Around(path: seq<Pos>, shown: seq<Pos>) {
      var before, behind := if Hovers() then 1 else 0, if EndHovers() then 1 else 0;
      && |path| == before + |shown| + behind
      && (forall i :: 0 <= i < |shown| ==> path[before + i] == Grid().RealPos(shown[i]))
      && (Hovers() ==> path[0] == source) && (EndHovers() ==> path[|path| - 1] == destination)
    }

    // From the source asked for over a route between the ends on the ground to the destination asked for.
    ghost predicate Shows(path: seq<Pos>) {
      && path != [] && path[|path| - 1] == destination
      && exists shown :: ShowsChosen(Grid(), Start(), End(), shown, algo) && Around(path, shown)
    }

    /**
     What getPath promises, as far as it stays within its grid nodes. A path found shows a route, a cheapest one with
     the cost search. The heuristic search finds one exactly when both ends are clear and there is a route, unless it
     can be misled; in any case it does what some run does. The cost search tells as much as its boolean.
     */
    ghost predicate Serves(path: Option<seq<Pos>>) {
      && (path.Some? && path.value != [] ==> Shows(path.value))
      && if EndsFree() && Cramped() then path == None
         else if !EndsClear() then path == Some([])
         else match algo
           case Plain =>
             && RunGives(Grid(), Start(), End(), path)
             && (Safe(Grid(), Start()) ==> path.Some? && (path.value != [] <==> Grid().Usable(Start()) && Grid().Reachable(Start(), End())))
           case Dijkstra => path.Some? && CostSearch.Problem(Grid(), Start(), End()).Answer(path.value != [])
    }
  }

  lemma GroundStays(world: World, p: Pos, maxDown: nat)
    ensures var g := world.Ground(p, maxDown);
      g.x == p.x && g.z == p.z && g.y <= p.y && (g.y < p.y ==> g.y > world.minEdge.y)
  {}

  // Who stands already is on the ground.
  lemma OnTheGround(world: World, p: Pos, maxDown: nat)
    requires world.Standable(p) && p.y > world.minEdge.y
    ensures world.Ground(p, maxDown) == p
  {
    assert world.At(p, p.y) == Open && world.At(p, p.y - 1) == Walkable;
    assert world.Lands(p, maxDown, 0);
    forall k: nat | world.Lands(p, maxDown, k) ensures k == 0 {
      assert k > 0 ==> world.At(p, p.y - 1) == Open;
    }
  }

  // In an array the ends have slots exactly if the search distance is not 0, and then they are valid indices.
  lemma EndsHaveSlots(r: Request)
    ensures r.Cramped() ==> !r.Grid().InStore(r.Start()) || !r.Grid().InStore(r.End())
    ensures r.Grid().Small() && !r.Cramped() ==> r.Grid().IsValidIndex(r.Start()) && r.Grid().IsValidIndex(r.End())
    ensures !r.Cramped() ==> r.Grid().InStore(r.Start()) && r.Grid().InStore(r.End())
  {
    hide World.Ground, Area.Small, Area.InStore;
    var area := r.Grid();
    GroundStays(area.world, r.source, r.maxDrop);
    GroundStays(area.world, r.destination, r.maxJump);
    if r.Cramped() {
      if r.Start().x == area.Extent().x {
        area.UpperFaces(r.Start());
      } else {
        area.UpperFaces(r.End());
      }
    } else if area.Small() {
      area.ValidInStore(r.Start());
      area.ValidInStore(r.End());
    } else {
      LargeStoresAll(area, r.Start());
      LargeStoresAll(area, r.End());
    }
  }

  lemma LargeStoresAll(area: Area, p: Pos)
    requires !area.Small()
    ensures area.InStore(p)
  {}

  /** getPath; without a result it leaves the array of grid nodes, and what it then does is undefined. */
  method GetPath(r: Request) returns (path: Option<seq<Pos>>)
    ensures r.Serves(path)
  {
    hide World.Ground, Searched, Limited, Request.Serves, Area.IsSurface, Area.InStore, Area.Small, Area.IsValidIndex;
    var area := r.Grid();
    var source := area.world.WalkDownwards(r.source, r.maxDrop);
    var destination := area.world.WalkDownwards(r.destination, r.maxJump);
    if r.node(r.destination) == Walkable || r.node(r.source) == Walkable {
      Refused(r);
      return Some([]);
    }
    var start, end := source.Minus(area.world.minEdge), destination.Minus(area.world.minEdge);
    EndsHaveSlots(r);
    if !area.InStore(start) || !area.InStore(end) {
      Refused(r);
      return None;
    }
    if !area.IsSurface(start) || !area.IsSurface(end) {
      Refused(r);
      return Some([]);
    }
    var index := SearchPath(area, start, end, r.algo);
    if index == None {
      Served(r, index, [], source, destination);
      return None;
    }
    var full := [];
    if index.value != [] {
      if source != r.source {
        full := [r.source];
      }
      ghost var before := full;
      for i := 0 to |index.value|
        invariant full == before + RealPath(area, index.value)[..i]
      {
        full := full + [area.RealPos(index.value[i])];
      }
      if destination != r.destination {
        full := full + [r.destination];
      }
      IsAround(r, index.value, full, source, destination);
    }
    Served(r, index, full, source, destination);
    path := Some(full);
  }

  lemma IsAround(r: Request, index: seq<Pos>, full: seq<Pos>, s: Pos, d: Pos)
    requires s == r.Grid().world.Ground(r.source, r.maxDrop) && d == r.Grid().world.Ground(r.destination, r.maxJump)
    requires full == (if s != r.source then [r.source] else []) + RealPath(r.Grid(), index)[..|index|]
      + (if d != r.destination then [r.destination] else [])
    ensures r.Around(full, index)
  {
    hide World.Ground, Limited;
    assert r.Grid().RealPos(r.Start()) == s && r.Grid().RealPos(r.End()) == d;
    var before := if s != r.source then [r.source] else [];
    assert forall i :: 0 <= i < |index| ==> full[|before| + i] == RealPath(r.Grid(), index)[i];
  }

  lemma Refused(r: Request)
    ensures !r.EndsFree() || (!r.Cramped() && !r.EndsStand()) ==> r.Serves(Some([]))
    ensures r.EndsFree() && r.Cramped() ==> r.Serves(None)
  {
    hide Request.Shows, Request.Start, Request.End, Area.Reachable, World.Standable, Area.Small;
  }

  lemma Served(r: Request, index: Option<seq<Pos>>, full: seq<Pos>, s: Pos, d: Pos)
    requires s == r.Grid().world.Ground(r.source, r.maxDrop) && d == r.Grid().world.Ground(r.destination, r.maxJump)
    requires r.EndsClear() && Searched(r.Grid(), r.Start(), r.End(), r.algo, index)
    requires index.Some? ==> if index.value == [] then full == [] else r.Around(full, index.value)
    ensures r.Serves(if index.Some? then Some(full) else None)
  {
    hide World.Ground, CostSearch.Problem.Answer, ShowsChosen, Limited, Area.Reachable, Area.Usable, Area.IsSurface, Area.Small, Safe, RunGives;
    assert r.Grid().RealPos(r.Start()) == s && r.Grid().RealPos(r.End()) == d;
    if index.Some? {
      SameRunGives(r.Grid(), r.Start(), r.End(), index, Some(full));
      if index.value != [] {
        ChosenEnds(r.Grid(), r.Start(), r.End(), index.value, r.algo);
      }
    }
  }

  // One move of calcCost's kinds leads from a to b.
  ghost predicate IsMove(world: World, a: Pos, b: Pos) {
    exists k: nat, dy: int :: k < 4 && MoveBy(world, a, b, k, dy)
  }

  ghost predicate MoveBy(world: World, a: Pos, b: Pos, k: nat, dy: int)
    requires k < 4
  {
    world.CanStep(a, DIRECTIONS[k], dy) && b == a.Plus(DIRECTIONS[k]).Up(dy)
  }

  /**
   A path found is a walk: it begins at the source asked for, unless the source stands and the beginning was cut off, and
   ends at the destination asked for. A source that hovers comes first and falls straight down to where one can stand;
   from there every position is one move from the one before, to the place straight below the destination.
   */
  lemma PathIsWalk(r: Request, path: seq<Pos>)
    requires r.Serves(Some(path)) && path != []
    ensures path[|path| - 1] == r.destination
    ensures path[0] == r.source || (r.Grid().world.Ground(r.source, r.maxDrop) == r.source && |path| >= 699)
    ensures exists first: nat, last: nat :: first <= 1 && first <= last && |path| - 2 <= last < |path| && WalksBetween(r, path, first, last)
  {
    hide CostSearch.Problem.Answer, RunGives, Safe, Request.EndsClear, World.Ground, Limited, ShowsChosen, Area.Usable, Area.Reachable;
    var shown :| ShowsChosen(r.Grid(), r.Start(), r.End(), shown, r.algo) && r.Around(path, shown);
    ChosenWalks(r, shown);
    GroundStays(r.Grid().world, r.source, r.maxDrop);
    GroundStays(r.Grid().world, r.destination, r.maxJump);
    var first: nat := if r.Hovers() then 1 else 0;
    var last: nat := first + |shown| - 1;
    forall i | first <= i < last ensures IsMove(r.Grid().world, path[i], path[i + 1]) {
      assert path[i] == r.Grid().RealPos(shown[i - first]) && path[i + 1] == r.Grid().RealPos(shown[i - first + 1]);
    }
    assert WalksBetween(r, path, first, last);
  }

  // From the first to the last of these the path goes by moves; what is before or behind is straight above an end.
  ghost predicate WalksBetween(r: Request, path: seq<Pos>, first: nat, last: nat)
    requires first <= 1 && first <= last < |path|
  {
    && (forall i :: first <= i < last ==> IsMove(r.Grid().world, path[i], path[i + 1]))
    && (first == 1 ==> path[0] == r.source && (|path| < 700 ==> StraightBelow(path[1], r.source)))
    && (last < |path| - 1 ==> StraightBelow(path[last], r.destination))
  }

  ghost predicate StraightBelow(p: Pos, above: Pos) {
    p.x == above.x && p.z == above.z && p.y < above.y
  }

  lemma ChosenWalks(r: Request, shown: seq<Pos>)
    requires ShowsChosen(r.Grid(), r.Start(), r.End(), shown, r.algo)
    ensures shown != [] && shown[|shown| - 1] == r.End()
    ensures shown[0] == r.Start() || |shown| == 699
    ensures forall i :: 0 <= i < |shown| - 1 ==> IsMove(r.Grid().world, r.Grid().RealPos(shown[i]), r.Grid().RealPos(shown[i + 1]))
  {
    hide IsCheapest, World.Ground, Limited, Area.Step, Area.Follow, Area.Trail;
    var area := r.Grid();
    var ks :| ShowsRoute(area, r.Start(), ks, r.End(), shown) && (r.algo == Dijkstra ==> IsCheapest(area, r.Start(), ks, r.End()));
    area.TrailMoves(r.Start(), ks);
    var trail := area.Trail(r.Start(), ks);
    var cut := |trail| - |shown|;
    forall i | 0 <= i < |shown| - 1 ensures IsMove(area.world, area.RealPos(shown[i]), area.RealPos(shown[i + 1])) {
      assert shown[i] == trail[cut + i] && shown[i + 1] == trail[cut + i + 1];
      StepIsMove(area, trail[cut + i], ks[cut + i]);
    }
  }

  lemma StepIsMove(area: Area, p: Pos, k: nat)
    requires k < 4 && area.Step(p, k).Some?
    ensures IsMove(area.world, area.RealPos(p), area.RealPos(area.Step(p, k).value.0))
  {
    hide World.Cost, World.CanStep;
    var world, a := area.world, area.RealPos(p);
    world.StepEnds(a, DIRECTIONS[k]);
    var dy := world.Cost(a, DIRECTIONS[k]).yChange;
    world.CostMeaning(a, DIRECTIONS[k], dy);
    assert MoveBy(world, a, area.RealPos(area.Step(p, k).value.0), k, dy);
  }

  // What a run gives is a matter of whether there is a path.
  lemma SameRunGives(area: Area, start: Pos, end: Pos, path: Option<seq<Pos>>, other: Option<seq<Pos>>)
    requires path.Some? && other.Some? && (path.value == [] <==> other.value == [])
    ensures RunGives(area, start, end, path) ==> RunGives(area, start, end, other)
  {
    hide HeuristicSearch.Problem.After;
    if picks: seq<nat> :| RunGave(area, start, end, picks, path) {
      assert RunGave(area, start, end, picks, other);
    }
  }
}
