/**
 When the boolean of Pathfinder::updateAllCosts (src/pathfinder.cpp), and with it a path request, can be trusted.
 */
module PathAnswers {
  import opened Basics
  import opened VoxelWorld
  import opened PathGrid
  import opened CostSearch
  import opened PathRequest
  import opened PathSlots
  import HeuristicSearch

  /**
   The cost search answers correctly from every node that can be come to from the start exactly when none of
   these nodes has a jump or a fall in a direction after a level move to the target.
   */
  lemma RightFromEverywhere(area: Area, start: Pos, target: Pos, answer: Pos -> bool)
    ensures (forall p :: area.Reachable(start, p) ==> Problem(area, p, target).Answer(answer(p))) ==>
      ((forall p :: area.Reachable(start, p) ==> (answer(p) <==> area.Reachable(p, target)))
        <==> Problem(area, start, target).Quiet())
  {
    hide Area.Reachable, Problem.Deaf, Problem.NextToTarget, Problem.Heard, Problem.CheapestHear;
    if p :| area.Reachable(start, p) && !Problem(area, p, target).Answer(answer(p)) {
      return;
    }
    if p :| area.Reachable(start, p) && Problem(area, start, target).Deaf(p) {
      SameDeaf(area, start, p, target, p);
      DeafNeighbour(area, p, target);
      assert !answer(p);
    } else {
      forall p | area.Reachable(start, p) ensures answer(p) <==> area.Reachable(p, target) {
        forall x | area.Reachable(p, x) ensures !Problem(area, p, target).Deaf(x) {
          area.ReachableJoin(start, p, x);
          SameDeaf(area, start, p, target, x);
        }
        Problem(area, p, target).QuietIsEnough(answer(p));
      }
    }
  }

  // Whether a node is deaf does not depend on where the search starts.
  lemma SameDeaf(area: Area, start: Pos, start': Pos, target: Pos, p: Pos)
    ensures Problem(area, start, target).Deaf(p) <==> Problem(area, start', target).Deaf(p)
  {
    hide Area.Step;
    var q, r := Problem(area, start, target), Problem(area, start', target);
    assert forall k: nat :: k < 4 ==> (q.Direct(p, NO_DIRECTION, k) <==> r.Direct(p, NO_DIRECTION, k));
    assert forall k: nat :: k < 4 ==> (q.Uneven(p, NO_DIRECTION, k) <==> r.Uneven(p, NO_DIRECTION, k));
  }

  lemma DeafNeighbour(area: Area, p: Pos, target: Pos)
    requires Problem(area, p, target).Deaf(p)
    ensures Problem(area, p, target).NextToTarget(p) && area.Reachable(p, target)
  {
    hide Area.Step;
    Problem(area, p, target).NextIsReachable(p);
  }

  // ---------------------------------------------------------------- a request that fails

  // The source stands at the edge of a terrace, one node above the ground to the west; the destination is the next
  // node to the east.
  ghost predicate AtTerraceEdge(r: Request) {
    && r.distance >= 2 && r.maxDrop >= 1 && r.destination == r.source.Plus(Pos(1, 0, 0))
    && forall p: Pos :: r.node(p) == if p.y < r.source.y - (if p.x < r.source.x then 1 else 0) then Walkable else Open
  }

  /**
   The cost search finds no path to the next node, because in the other direction it goes down; the heuristic
   search finds it.
   */
  lemma EasternNeighbourMissed(r: Request, path: Option<seq<Pos>>)
    requires AtTerraceEdge(r)
    ensures r.(algo := Dijkstra).Serves(path) ==> path == Some([])
    ensures r.(algo := Plain).Serves(path) ==> path.Some? && path.value != []
  {
    hide AtTerraceEdge, Area.Reachable, Area.Usable, Area.IsSurface, Area.Small, Problem.Answer, Request.Shows, World.Ground, RunGives, HeuristicSearch.Misled;
    TerraceIsClear(r);
    HeuristicSearch.LargeIsNotMisled(r.Grid(), r.Start());
    if path.Some? {
      EdgeIsDeaf(r, path.value != []);
    }
    EdgeIsDeaf(r, true);
  }

  lemma TerraceIsClear(r: Request)
    requires AtTerraceEdge(r)
    ensures r.EndsClear() && r.Grid().Usable(r.Start()) && !r.Grid().Small()
    ensures r.Grid().RealPos(r.Start()) == r.source && r.Grid().RealPos(r.End()) == r.destination
  {
    hide World.Ground;
    FarIsLarge(r);
    OnTheGround(r.Grid().world, r.source, r.maxDrop);
    OnTheGround(r.Grid().world, r.destination, r.maxJump);
  }

  lemma EdgeIsDeaf(r: Request, found: bool)
    requires AtTerraceEdge(r)
    ensures Problem(r.Grid(), r.Start(), r.End()).Answer(found) ==> !found
    ensures r.Grid().Reachable(r.Start(), r.End())
  {
    hide AtTerraceEdge, Area.Step, Area.Reachable, Problem.Heard, Problem.CheapestHear, World.Ground;
    EdgeOfTerrace(r);
    var problem := Problem(r.Grid(), r.Start(), r.End());
    assert problem.Direct(r.Start(), NO_DIRECTION, 0) && problem.Uneven(r.Start(), NO_DIRECTION, 1);
    problem.NextIsReachable(r.Start());
  }

  lemma EdgeOfTerrace(r: Request)
    requires AtTerraceEdge(r)
    ensures r.Grid().Step(r.Start(), 0) == Some((r.End(), 1)) && r.Start() != r.End()
    ensures r.Grid().Step(r.Start(), 1).Some? && r.Grid().Step(r.Start(), 1).value.1 == 2
  {
    hide World.Cost, World.Ground, World.CanStep;
    var world := r.Grid().world;
    TerraceIsClear(r);
    EdgeMoves(r);
    world.CostMeaning(r.source, DIRECTIONS[0], 0);
    world.CostMeaning(r.source, DIRECTIONS[1], -1);
  }

  lemma EdgeMoves(r: Request)
    requires AtTerraceEdge(r)
    ensures r.Grid().world.CanStep(r.source, DIRECTIONS[0], 0) && r.Grid().world.CanStep(r.source, DIRECTIONS[1], -1)
  {
    var world := r.Grid().world;
    assert world.Level(r.source.Plus(DIRECTIONS[0]), 0) && world.Fall(r.source.Plus(DIRECTIONS[1]), -1);
  }
}
