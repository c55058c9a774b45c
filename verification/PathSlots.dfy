/**
 When the heuristic search can be trusted (src/pathfinder.cpp): always from a search distance of 2 on, and for smaller
 ones unless two indices share a slot of the array of grid nodes on the way.
 */
module PathSlots {
  import opened Basics
  import opened VoxelWorld
  import opened PathGrid
  import opened HeuristicSearch
  import opened PathRequest

  lemma SquareGrows(a: int, b: int)
    requires 0 <= a <= b
    ensures a * a <= b * b
  {
    assert b * b - a * a == (b - a) * (b + a);
  }

  lemma FarIsLarge(r: Request)
    requires r.distance >= 2
    ensures !r.Grid().Small() && !r.Cramped()
  {
    var size := r.Grid().Extent();
    SquareGrows(4, size.x);
    SquareGrows(4, size.y);
    SquareGrows(4, size.z);
  }

  /**
   With a search distance of 2 or more, the heuristic search finds a path exactly when both ends are clear, the start
   is usable and there is a route.
   */
  lemma FarSearchIsExact(r: Request, path: Option<seq<Pos>>)
    requires r.distance >= 2 && r.algo == Plain && r.Serves(path)
    ensures path.Some?
    ensures path.value != [] <==> r.EndsClear() && r.Grid().Usable(r.Start()) && r.Grid().Reachable(r.Start(), r.End())
  {
    hide Area.Small, Area.Usable, Area.Reachable, Misled, Request.Shows, Request.EndsStand, Request.Start, Request.End, RunGives;
    FarIsLarge(r);
    LargeIsNotMisled(r.Grid(), r.Start());
  }

  /**
   Nor can it go wrong where every move from a reachable node ends at a valid index: an upper face is what misleads it.
   */
  lemma InsideIsNotMisled(area: Area, start: Pos)
    requires area.Usable(start)
    requires forall q, k :: k < 4 && area.Reachable(start, q) && area.Usable(q) && area.RawStep(q, k).Some? ==>
      area.IsValidIndex(area.RawStep(q, k).value.0)
    ensures !Misled(area, start)
  {
    hide Area.RawStep, LookedAt, Area.IsSurface, Area.SlotOf, Area.InStore, Area.IsValidIndex;
    forall ks: seq<nat>, k: nat, a | Leads(area, start, ks, k, a) ensures area.IsValidIndex(a) && area.InStore(a) {
      var q := area.Follow(start, ks).value.0;
      area.RouteEndsUsable(start, ks);
      assert area.IsRoute(start, ks, q);
      area.ValidInStore(a);
    }
    forall ks: seq<nat>, k: nat, a, o ensures !Displaces(area, start, ks, k, a, o) {
      if Displaces(area, start, ks, k, a, o) {
        area.OwnSlot(o, a);
      }
    }
  }

  // ---------------------------------------------------------------- requests that leave the array

  // Both ends stand in one plane across the x axis, and the source has level ground to the east.
  ghost predicate EastIsLevel(r: Request) {
    && r.distance == 1 && r.source != r.destination && r.source.x == r.destination.x && r.Grid().Small()
    && r.Grid().world.Standable(r.source) && r.Grid().world.Standable(r.destination)
    && r.Grid().world.Standable(r.source.Plus(Pos(1, 0, 0)))
  }

  /** The first place looked at is past the end of the array. */
  lemma EastIsPastTheEnd(r: Request, path: Option<seq<Pos>>)
    requires EastIsLevel(r)
    ensures r.EndsClear() && (r.(algo := Plain).Serves(path) ==> path == None)
  {
    hide World.Ground, RunGave, Area.Small, Area.InStore, Area.SlotOf, Area.Reachable, Safe, Request.Shows;
    var p := r.(algo := Plain);
    var area, start, end := r.Grid(), r.Start(), r.End();
    StandsAt(r);
    EastLeads(area, start);
    if p.Serves(path) {
      var picks: seq<nat> :| RunGave(area, start, end, picks, path);
      LeavesAtOnce(Problem(area, start, end), 0, picks);
      LeftMeansNone(area, start, end, picks, path);
    }
  }

  // Ends that stand already stay where they are.
  lemma StandsAt(r: Request)
    requires r.distance > 0 && r.Grid().world.Standable(r.source) && r.Grid().world.Standable(r.destination)
    ensures r.Grid().RealPos(r.Start()) == r.source && r.Grid().RealPos(r.End()) == r.destination
    ensures r.Grid().Usable(r.Start()) && r.Grid().Usable(r.End())
  {
    hide World.Ground;
    OnTheGround(r.Grid().world, r.source, r.maxDrop);
    OnTheGround(r.Grid().world, r.destination, r.maxJump);
  }

  lemma EastLeads(area: Area, start: Pos)
    requires area.Usable(start) && area.Small() && area.Extent().x == 2 && start.x == 1
    requires area.world.Standable(area.RealPos(start).Plus(Pos(1, 0, 0)))
    ensures area.RawStep(start, 0).Some? && !area.InStore(area.RawStep(start, 0).value.0)
  {
    hide Area.Small, Area.InStore, Area.SlotOf;
    var there := area.RealPos(start).Plus(DIRECTIONS[0]);
    assert there.Up(-1) == Pos(there.x, there.y - 1, there.z);
    area.UpperFaces(start.Plus(DIRECTIONS[0]));
  }

  // The search leaves the array when it looks round the start.
  lemma {:induction false} LeavesAtOnce(problem: Problem, k: nat, picks: seq<nat>)
    requires problem.area.Usable(problem.start) && problem.start != problem.destination && k < 4
    requires problem.area.RawStep(problem.start, k).Some? && !problem.area.InStore(problem.area.RawStep(problem.start, k).value.0)
    ensures problem.After(picks) == Going(problem.Started()) || problem.After(picks) == OutsideArray
  {
    hide Area.InStore, Area.SlotOf, Area.IsSurface, Area.RawStep, Problem.LookedRound;
    if picks == [] {
    } else {
      var n := |picks| - 1;
      LeavesAtOnce(problem, k, picks[..n]);
      if problem.After(picks[..n]).Going? && problem.CanVisit(problem.Started(), picks[n]) {
        problem.LooksOut(problem.Take(problem.Started(), 0), problem.start, k);
      }
    }
  }

  lemma LeftMeansNone(area: Area, start: Pos, end: Pos, picks: seq<nat>, path: Option<seq<Pos>>)
    requires RunGave(area, start, end, picks, path)
    requires var problem := Problem(area, start, end);
      problem.After(picks) == Going(problem.Started()) || problem.After(picks) == OutsideArray
    ensures path == None
  {}

  // ---------------------------------------------------------------- a request for which a route is missed

  // The ground around the source, in heights above it: the top of the walkable nodes.
  function Top(dx: int, dz: int): int {
    if (dx == 0 && 0 <= dz <= 1) || (dx == -1 && -2 <= dz <= 0) then -1
    else if dx == 0 && dz == -2 then 0
    else if dx == 0 && dz == -1 then 1
    else 10
  }

  // The destination stands two nodes above the source to the south; the way up is round the west.
  ghost predicate AroundTheCorner(r: Request) {
    && r.distance == 1 && r.maxJump == 1 && r.destination == r.source.Plus(Pos(0, 2, -1))
    && forall p: Pos {:trigger r.node(p)} ::
      r.node(p) == if p.y - r.source.y <= Top(p.x - r.source.x, p.z - r.source.z) then Walkable else Open
  }

  // In indices: the start, the places west of it, and the one to the north, which is outside.
  const NEAR: set<Pos> := {Pos(1, 1, 2), Pos(0, 1, 2), Pos(0, 1, 1), Pos(0, 1, 0), Pos(1, 1, 3)}
  const OUTSIDE := Pos(1, 1, 3)
  const STEP_UP := Pos(1, 2, 0)

  lemma CornerGrid(r: Request)
    requires AroundTheCorner(r)
    ensures r.Grid().world.minEdge == r.source.Plus(Pos(-1, -1, -2)) && r.Grid().world.maxEdge == r.source.Plus(Pos(1, 3, 1))
    ensures r.Grid().Extent() == Pos(2, 4, 3) && r.Grid().Small()
    ensures r.Grid().RealPos(r.Start()) == r.source && r.Grid().RealPos(r.End()) == r.destination
    ensures r.Start() == Pos(1, 1, 2) && r.End() == Pos(1, 3, 1)
    ensures r.EndsClear() && r.Grid().Usable(r.Start()) && r.Grid().Usable(r.End())
    ensures forall p: Pos {:trigger r.Grid().IsSurface(p)} :: r.Grid().IsSurface(p) <==> p.y - 2 == Top(p.x - 1, p.z - 2)
  {
    hide World.Ground;
    var source, destination := r.source, r.destination;
    assert r.Grid().world.Standable(source) && r.Grid().world.Standable(destination);
    StandsAt(r);
  }

  // A wall of two nodes or more is no way for a jump of one.
  lemma NoWayUp(world: World, pos: Pos, dir: Pos)
    requires dir.y == 0 && world.maxJump == 1 && var pos2 := pos.Plus(dir);
      world.At(pos2, pos2.y) == Walkable && world.At(pos2, pos2.y + 1) == Walkable
    ensures world.Cost(pos, dir) == NoWay
  {}

  lemma OneUp(world: World, pos: Pos, dir: Pos)
    requires dir.y == 0 && world.maxJump == 1 && world.Inside(pos.Plus(dir)) && pos.y + 1 <= world.maxEdge.y
    requires var pos2 := pos.Plus(dir); world.At(pos2, pos2.y) == Walkable && world.At(pos2, pos2.y + 1) == Open
    requires world.At(pos, pos.y) == Open && world.At(pos, pos.y + 1) == Open
    ensures world.Cost(pos, dir) == Way(2, 1)
  {
    assert world.Jump(pos, pos.Plus(dir), 1);
    world.CostMeaning(pos, dir, 1);
  }

  lemma Across(world: World, pos: Pos, dir: Pos)
    requires var pos2 := pos.Plus(dir);
      world.Inside(pos2) ==> world.At(pos2, pos2.y) == Open && world.At(pos2, pos2.y - 1) == Walkable
    ensures world.Cost(pos, dir) == if world.Inside(pos.Plus(dir)) then Way(1, 0) else NoWay
  {}

  // Where one stands at column x, z, in indices.
  function Stand(x: int, z: int): Pos { Pos(x, Top(x - 1, z - 2) + 2, z) }

  lemma CornerSurface(r: Request, p: Pos)
    requires AroundTheCorner(r)
    ensures r.Grid().world.minEdge == r.source.Plus(Pos(-1, -1, -2)) && r.Grid().world.maxEdge == r.source.Plus(Pos(1, 3, 1))
    ensures r.Grid().IsSurface(p) <==> p.y - 2 == Top(p.x - 1, p.z - 2)
  {
    hide Top, World.Ground, Area.IsSurface, Area.Small, Area.IsValidIndex, AroundTheCorner, Request.EndsClear, Request.Start, Request.End;
    CornerGrid(r);
  }

  lemma MoveOfCost(move: Option<(Pos, nat)>, cost: PathCost, p: Pos, d: Pos)
    requires move == if cost.NoWay? then None else Some((p.Plus(d.Up(cost.yChange)), cost.value))
    ensures cost == NoWay ==> move == None
    ensures cost == Way(1, 0) ==> move == Some((p.Plus(d), 1))
    ensures cost == Way(2, 1) ==> move == Some((p.Plus(d).Up(1), 2))
  {}

  // What the move from p costs: nothing leads out of the grid or up a wall.
  ghost predicate CornerPrice(p: Pos, q: Pos, cost: PathCost) {
    var up := Stand(q.x, q.z).y - p.y;
    && (q.x < 0 || q.z < 0 || up > 1 ==> cost == NoWay)
    && (q.x >= 0 && q.z >= 0 && up == 0 ==> cost == Way(1, 0))
    && (q.x >= 0 && q.z >= 0 && up == 1 ==> cost == Way(2, 1))
  }

  lemma CornerPriced(r: Request, p: Pos, k: nat)
    requires AroundTheCorner(r) && k < 4 && OnFloor(p)
    ensures r.Grid().IsSurface(p) && CornerPrice(p, p.Plus(DIRECTIONS[k]), r.Grid().world.Cost(r.Grid().RealPos(p), DIRECTIONS[k]))
  {
    hide Top, World.Cost, World.Ground, Area.IsSurface, AroundTheCorner, Request.Grid;
    CornerSurface(r, p);
    TopAtLeast(p.x - 1, p.z - 2);
    var pos := r.Grid().RealPos(p);
    assert pos.Minus(r.source) == Pos(p.x - 1, p.y - 1, p.z - 2);
    CornerCost(r, pos, k);
    PriceOfTop(p, p.Plus(DIRECTIONS[k]), pos.Plus(DIRECTIONS[k]).Minus(r.source), r.Grid().world.Cost(pos, DIRECTIONS[k]));
  }

  // Heights as seen from the source.
  lemma PriceOfTop(p: Pos, q: Pos, o: Pos, cost: PathCost)
    requires o == Pos(q.x - 1, q.y - 1, q.z - 2) && q.y == p.y
    requires var up := Top(o.x, o.z) + 1 - o.y;
      && (o.x < -1 || o.z < -2 || up > 1 ==> cost == NoWay)
      && (o.x >= -1 && o.z >= -2 && up == 0 ==> cost == Way(1, 0))
      && (o.x >= -1 && o.z >= -2 && up == 1 ==> cost == Way(2, 1))
    ensures CornerPrice(p, q, cost)
  {
    hide Top;
  }

  // Moves of up to one node up, and walls.
  lemma CornerMove(r: Request, p: Pos, k: nat)
    requires AroundTheCorner(r) && k < 4 && OnFloor(p)
    ensures var q := p.Plus(DIRECTIONS[k]);
      Stand(q.x, q.z).y >= p.y ==> r.Grid().RawStep(p, k) == Expected(p, q)
  {
    hide Stand, World.Cost, Area.IsSurface, Area.RawStep, AroundTheCorner, Request.Grid, OnFloor;
    CornerPriced(r, p, k);
    Problem(r.Grid(), p, p).RawStepIs(p, k);
    MoveOfCost(r.Grid().RawStep(p, k), r.Grid().world.Cost(r.Grid().RealPos(p), DIRECTIONS[k]), p, DIRECTIONS[k]);
  }

  lemma TopAtLeast(dx: int, dz: int)
    ensures Top(dx, dz) >= -1
  {}

  lemma CornerCost(r: Request, pos: Pos, k: nat)
    requires AroundTheCorner(r) && k < 4
    requires r.Grid().world.minEdge == r.source.Plus(Pos(-1, -1, -2)) && r.Grid().world.maxEdge == r.source.Plus(Pos(1, 3, 1))
    requires var o := pos.Minus(r.source); o.y == Top(o.x, o.z) + 1 && 0 <= o.y <= 2 && -1 <= o.x <= 0 && -2 <= o.z <= 0
    ensures var pos2 := pos.Plus(DIRECTIONS[k]);
      var q := pos2.Minus(r.source);
      var up := Top(q.x, q.z) + 1 - q.y;
      && ((q.x < -1 || q.z < -2 || up > 1) ==> r.Grid().world.Cost(pos, DIRECTIONS[k]) == NoWay)
      && (q.x >= -1 && q.z >= -2 && up == 0 ==> r.Grid().world.Cost(pos, DIRECTIONS[k]) == Way(1, 0))
      && (q.x >= -1 && q.z >= -2 && up == 1 ==> r.Grid().world.Cost(pos, DIRECTIONS[k]) == Way(2, 1))
  {
    hide Top, World.Cost;
    var world, pos2 := r.Grid().world, pos.Plus(DIRECTIONS[k]);
    var q := pos2.Minus(r.source);
    var up := Top(q.x, q.z) + 1 - q.y;
    assert q.x >= -1 && q.z >= -2 ==> world.Inside(pos2);
    assert forall h :: world.At(pos2, h) == r.node(Pos(pos2.x, h, pos2.z)) && world.At(pos, h) == r.node(Pos(pos.x, h, pos.z));
    if up > 1 {
      NoWayUp(world, pos, DIRECTIONS[k]);
    } else if up == 1 && world.Inside(pos2) {
      OneUp(world, pos, DIRECTIONS[k]);
    } else if up == 0 || !world.Inside(pos2) {
      Across(world, pos, DIRECTIONS[k]);
    }
  }

  // Which moves there are from the places near the source.
  ghost predicate CornerMoves(area: Area) {
    && Moves(area, Pos(1, 1, 2), None, Some((Pos(0, 1, 2), 1)), Some((OUTSIDE, 1)), None)
    && Moves(area, Pos(0, 1, 2), Some((Pos(1, 1, 2), 1)), None, None, Some((Pos(0, 1, 1), 1)))
    && Moves(area, Pos(0, 1, 1), None, None, Some((Pos(0, 1, 2), 1)), Some((Pos(0, 1, 0), 1)))
    && Moves(area, Pos(0, 1, 0), Some((STEP_UP, 2)), None, Some((Pos(0, 1, 1), 1)), None)
    && area.RawStep(STEP_UP, 2) == Some((Pos(1, 3, 1), 2))
  }

  ghost predicate Moves(area: Area, p: Pos, east: Option<(Pos, nat)>, west: Option<(Pos, nat)>, north: Option<(Pos, nat)>, south: Option<(Pos, nat)>) {
    area.RawStep(p, 0) == east && area.RawStep(p, 1) == west && area.RawStep(p, 2) == north && area.RawStep(p, 3) == south
  }

  // What direction k from p leads to, up to one node up.
  function Expected(p: Pos, q: Pos): Option<(Pos, nat)> {
    var up := Stand(q.x, q.z).y - p.y;
    if q.x < 0 || q.z < 0 || up > 1 then None
    else if up == 0 then Some((q, 1)) else Some((q.Up(1), 2))
  }

  function Beside(p: Pos, k: nat): (q: Pos)
    ensures k < 4 ==> q == p.Plus(DIRECTIONS[k])
  {
    if k == 0 then Pos(p.x + 1, p.y, p.z) else if k == 1 then Pos(p.x - 1, p.y, p.z)
    else if k == 2 then Pos(p.x, p.y, p.z + 1) else Pos(p.x, p.y, p.z - 1)
  }

  lemma MoveIs(r: Request, p: Pos, k: nat, q: Pos, move: Option<(Pos, nat)>)
    requires AroundTheCorner(r) && OnFloor(p) && k < 4 && q == Beside(p, k) && Onward(p, q, move)
    ensures r.Grid().RawStep(p, k) == move
  {
    hide AroundTheCorner, Area.RawStep, Top;
    CornerMove(r, p, k);
  }

  lemma CornerHasMoves(r: Request)
    requires AroundTheCorner(r)
    ensures CornerMoves(r.Grid())
  {
    hide AroundTheCorner, Area.RawStep, Moves, Onward, OnFloor, Expected, Higher;
    AtSource();
    AtWest();
    AtSouth();
    AtStep();
    FourMoves(r, Pos(1, 1, 2), None, Some((Pos(0, 1, 2), 1)), Some((OUTSIDE, 1)), None);
    FourMoves(r, Pos(0, 1, 2), Some((Pos(1, 1, 2), 1)), None, None, Some((Pos(0, 1, 1), 1)));
    FourMoves(r, Pos(0, 1, 1), None, None, Some((Pos(0, 1, 2), 1)), Some((Pos(0, 1, 0), 1)));
    FourMoves(r, Pos(0, 1, 0), Some((STEP_UP, 2)), None, Some((Pos(0, 1, 1), 1)), None);
    MoveIs(r, STEP_UP, 2, Pos(STEP_UP.x, STEP_UP.y, STEP_UP.z + 1), Some((Pos(1, 3, 1), 2)));
  }

  // The move from p towards q, as the heights say.
  ghost predicate Onward(p: Pos, q: Pos, move: Option<(Pos, nat)>) {
    Higher(p, q) && Expected(p, q) == move
  }

  ghost predicate Higher(p: Pos, q: Pos) {
    Stand(q.x, q.z).y >= p.y
  }

  ghost predicate OnFloor(p: Pos) {
    p == Stand(p.x, p.z) && p.y <= 3 && 0 <= p.x <= 1 && 0 <= p.z <= 2
  }

  lemma FourMoves(r: Request, p: Pos, east: Option<(Pos, nat)>, west: Option<(Pos, nat)>, north: Option<(Pos, nat)>, south: Option<(Pos, nat)>)
    requires AroundTheCorner(r) && OnFloor(p)
    requires Onward(p, Pos(p.x + 1, p.y, p.z), east) && Onward(p, Pos(p.x - 1, p.y, p.z), west)
    requires Onward(p, Pos(p.x, p.y, p.z + 1), north) && Onward(p, Pos(p.x, p.y, p.z - 1), south)
    ensures Moves(r.Grid(), p, east, west, north, south)
  {
    hide AroundTheCorner, Area.RawStep, Stand, Expected;
    MoveIs(r, p, 0, Pos(p.x + 1, p.y, p.z), east);
    MoveIs(r, p, 1, Pos(p.x - 1, p.y, p.z), west);
    MoveIs(r, p, 2, Pos(p.x, p.y, p.z + 1), north);
    MoveIs(r, p, 3, Pos(p.x, p.y, p.z - 1), south);
  }

  // Heights to stand at near the source, and on the walls around.
  lemma Stands()
    ensures Stand(1, 2) == Pos(1, 1, 2) && Stand(0, 2) == Pos(0, 1, 2) && Stand(0, 1) == Pos(0, 1, 1) && Stand(0, 0) == Pos(0, 1, 0)
    ensures Stand(1, 3) == OUTSIDE && Stand(1, 0) == STEP_UP && Stand(1, 1) == Pos(1, 3, 1)
    ensures Stand(2, 2).y == 12 && Stand(-1, 2).y == 12 && Stand(0, 3).y == 12 && Stand(-1, 1).y == 12 && Stand(-1, 0).y == 12 && Stand(0, -1).y == 12
  {}

  lemma AtSource()
    ensures OnFloor(Pos(1, 1, 2)) && Onward(Pos(1, 1, 2), Pos(2, 1, 2), None) && Onward(Pos(1, 1, 2), Pos(0, 1, 2), Some((Pos(0, 1, 2), 1)))
    ensures Onward(Pos(1, 1, 2), Pos(1, 1, 3), Some((OUTSIDE, 1))) && Onward(Pos(1, 1, 2), Pos(1, 1, 1), None)
  {
    hide Stand;
    Stands();
  }

  lemma AtWest()
    ensures OnFloor(Pos(0, 1, 2)) && Onward(Pos(0, 1, 2), Pos(1, 1, 2), Some((Pos(1, 1, 2), 1))) && Onward(Pos(0, 1, 2), Pos(-1, 1, 2), None)
    ensures Onward(Pos(0, 1, 2), Pos(0, 1, 3), None) && Onward(Pos(0, 1, 2), Pos(0, 1, 1), Some((Pos(0, 1, 1), 1)))
  {
    hide Stand;
    Stands();
  }

  lemma AtSouth()
    ensures OnFloor(Pos(0, 1, 1)) && Onward(Pos(0, 1, 1), Pos(1, 1, 1), None) && Onward(Pos(0, 1, 1), Pos(-1, 1, 1), None)
    ensures Onward(Pos(0, 1, 1), Pos(0, 1, 2), Some((Pos(0, 1, 2), 1))) && Onward(Pos(0, 1, 1), Pos(0, 1, 0), Some((Pos(0, 1, 0), 1)))
  {
    hide Stand;
    Stands();
  }

  lemma AtStep()
    ensures OnFloor(Pos(0, 1, 0)) && Onward(Pos(0, 1, 0), Pos(1, 1, 0), Some((STEP_UP, 2))) && Onward(Pos(0, 1, 0), Pos(-1, 1, 0), None)
    ensures Onward(Pos(0, 1, 0), Pos(0, 1, 1), Some((Pos(0, 1, 1), 1))) && Onward(Pos(0, 1, 0), Pos(0, 1, -1), None)
    ensures OnFloor(STEP_UP) && Onward(STEP_UP, Pos(STEP_UP.x, STEP_UP.y, STEP_UP.z + 1), Some((Pos(1, 3, 1), 2)))
  {
    hide Stand;
    Stands();
  }

  // ---------------------------------------------------------------- every run stays near

  ghost predicate StaysNear(s: Search) {
    forall p :: p in s.history ==> p in NEAR
  }

  // The area, the start and the destination of such a request.
  ghost predicate IsCorner(problem: Problem) {
    && CornerMoves(problem.area) && problem.area.Small() && problem.area.Extent() == Pos(2, 4, 3)
    && problem.start == Pos(1, 1, 2) && problem.area.Usable(problem.start) && problem.destination == Pos(1, 3, 1)
  }

  // The step up has the slot of the place outside, which is looked at first.
  lemma CornerSlots(problem: Problem)
    requires IsCorner(problem)
    ensures problem.area.SlotOf(STEP_UP) == problem.area.SlotOf(OUTSIDE) && problem.area.InStore(STEP_UP)
    ensures forall p :: p in NEAR ==> problem.area.InStore(p)
  {
    hide Area.RawStep;
    assert forall p :: problem.area.SlotOf(p) == InArray(p.x * 12 + p.y * 3 + p.z);
  }

  lemma LookStaysNear(problem: Problem, s: Search, p: Pos, k: nat)
    requires IsCorner(problem) && k < 4 && problem.Expanding(s, p, k) && StaysNear(s)
    ensures problem.area.SlotOf(p) in s.cost && problem.Looked(s, p, k).Some? && StaysNear(problem.Looked(s, p, k).value)
  {
    hide Area.RawStep, Area.SlotOf, Area.InStore, Area.Small, Area.IsSurface, Problem.Searching, Problem.Ways, Problem.WayIn;
    problem.ExpandingFacts(s, p, k);
    CornerSlots(problem);
    assert p in NEAR && p != OUTSIDE;
    if p == Pos(0, 1, 0) && k == 0 {
      OutsideWasFirst(problem, s, p);
    }
  }

  lemma OutsideWasFirst(problem: Problem, s: Search, p: Pos)
    requires IsCorner(problem) && problem.AllExplored(s, {p}) && p != problem.start && problem.Taken(s, problem.start)
    ensures problem.area.SlotOf(OUTSIDE) in problem.Slots(s.history)
  {
    hide Area.RawStep, Area.SlotOf, Area.Small, Area.IsSurface;
    assert problem.area.RawStep(problem.start, 2).Some?;
    assert problem.area.SlotOf(problem.area.RawStep(problem.start, 2).value.0) in Round(problem.area, problem.start, 4);
  }

  lemma {:induction false} RoundStaysNear(problem: Problem, s: Search, p: Pos, n: nat)
    requires IsCorner(problem) && n <= 4 && problem.Expanding(s, p, 0) && StaysNear(s)
    ensures problem.area.SlotOf(p) in s.cost && problem.LookedRound(s, p, n).Some? && StaysNear(problem.LookedRound(s, p, n).value)
  {
    hide IsCorner, Problem.Expanding, Problem.Looked, Area.SlotOf, StaysNear, Problem.Keeps, Problem.Searching, Problem.Ways, Problem.WayIn, Problem.Slots, Round, Area.Usable;
    problem.ExpandingFacts(s, p, 0);
    if n == 0 {
    } else {
      RoundStaysNear(problem, s, p, n - 1);
      problem.RoundKeeps(s, p, n - 1);
      LookStaysNear(problem, problem.LookedRound(s, p, n - 1).value, p, n - 1);
    }
  }

  lemma VisitStaysNear(problem: Problem, s: Search, i: nat)
    requires IsCorner(problem) && problem.Sound(s) && StaysNear(s) && i < |s.queue|
    ensures problem.CanVisit(s, i) && problem.Visit(s, i).Going? && StaysNear(problem.Visit(s, i).s)
  {
    hide Problem.Sound, Problem.Expanding, Problem.LookedRound, Problem.Take, Area.SlotOf, Area.IsSurface, CornerMoves;
    problem.VisitIsSound(s, i);
    problem.TakeKeepsStore(s, i);
    problem.QueuedBefore(s, i);
    if problem.area.Usable(s.queue[i]) {
      problem.ExpandingStarts(s, i);
      RoundStaysNear(problem, problem.Take(s, i), s.queue[i], 4);
    }
  }

  lemma {:induction false} RunStaysNear(problem: Problem, picks: seq<nat>)
    requires IsCorner(problem)
    ensures problem.After(picks).Going? && StaysNear(problem.After(picks).s)
  {
    hide Problem.Visit, Problem.Sound, Area.IsSurface, CornerMoves;
    problem.RunIsSound(picks);
    if picks == [] {
      problem.area.ValidInStore(problem.start);
    } else {
      var n := |picks| - 1;
      RunStaysNear(problem, picks[..n]);
      problem.RunIsSound(picks[..n]);
      if problem.CanVisit(problem.After(picks[..n]).s, picks[n]) {
        VisitStaysNear(problem, problem.After(picks[..n]).s, picks[n]);
      }
    }
  }

  /**
   The place to the north is outside, but takes the slot of the step up; so the step is never looked at, and the path
   over it is missed.
   */
  lemma SharedSlotMissed(r: Request, path: Option<seq<Pos>>)
    requires AroundTheCorner(r)
    ensures r.EndsClear() && r.Grid().Usable(r.Start()) && r.Grid().Reachable(r.Start(), r.End())
    ensures r.(algo := Plain).Serves(path) ==> path == Some([])
  {
    hide AroundTheCorner, World.Ground, RunGave, Area.SlotOf, Area.Reachable, Area.IsSurface, Safe, Request.Shows, CornerMoves;
    CornerGrid(r);
    CornerHasMoves(r);
    CornerPlaces(r);
    CornerIsReachable(Problem(r.Grid(), r.Start(), r.End()));
    if r.(algo := Plain).Serves(path) {
      var picks: seq<nat> :| RunGave(r.Grid(), r.Start(), r.End(), picks, path);
      RunStaysNear(Problem(r.Grid(), r.Start(), r.End()), picks);
      GoingMeansNoPath(r.Grid(), r.Start(), r.End(), picks, path);
    }
  }

  lemma GoingMeansNoPath(area: Area, start: Pos, end: Pos, picks: seq<nat>, path: Option<seq<Pos>>)
    requires RunGave(area, start, end, picks, path) && Problem(area, start, end).After(picks).Going?
    ensures path == Some([])
  {
    hide Problem.After;
  }

  // West, south twice, up to the east, up to the north.
  lemma CornerIsReachable(problem: Problem)
    requires IsCorner(problem) && CornersUsable(problem.area)
    ensures problem.area.Reachable(problem.start, problem.destination)
  {
    hide Area.RawStep, Area.Reachable, Area.Usable;
    var area := problem.area;
    StaysReachable(area, problem.start);
    problem.StepReaches(Pos(1, 1, 2), 1);
    problem.StepReaches(Pos(0, 1, 2), 3);
    problem.StepReaches(Pos(0, 1, 1), 3);
    problem.StepReaches(Pos(0, 1, 0), 0);
    problem.StepReaches(STEP_UP, 2);
  }

  lemma StaysReachable(area: Area, p: Pos)
    ensures area.Reachable(p, p)
  {
    assert area.IsRoute(p, [], p);
  }

  lemma CornerPlaces(r: Request)
    requires AroundTheCorner(r)
    ensures CornersUsable(r.Grid())
  {
    hide AroundTheCorner, Request.EndsClear, Request.Start, Request.End, Area.Small;
    CornerGrid(r);
  }

  ghost predicate CornersUsable(area: Area) {
    forall p :: p in {Pos(0, 1, 2), Pos(0, 1, 1), Pos(0, 1, 0), STEP_UP, Pos(1, 3, 1)} ==> area.Usable(p)
  }
}