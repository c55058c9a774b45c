/**
 The search area of a path request, the moves through it, and Pathfinder::buildPath
 (src/pathfinder.cpp). Positions are indices relative to the area's lower corner.
 */
module PathGrid {
  import opened Basics
  import opened VoxelWorld
  import opened RowMajor

  // Where the grid node of an index is kept: in an array for small areas, in a map for others.
  datatype Slot = InArray(n: int) | InMap(i: Pos)

  const PATHFINDER_MAX_WAYPOINTS := 700

  datatype Area = Area(world: World) {

    function RealPos(i: Pos): Pos { world.minEdge.Plus(i) }

    function Extent(): Pos { world.maxEdge.Minus(world.minEdge) }

    // Strictly below the extent on every axis.
    predicate IsValidIndex(i: Pos) {
      var size := Extent();
      0 <= i.x < size.x && 0 <= i.y < size.y && 0 <= i.z < size.z
    }

    // ------------------------------------------------------------ where grid nodes are kept

    // The length of the extent, cut off to an integer, is at most 5.
    predicate Small() {
      var size := Extent();
      size.x * size.x + size.y * size.y + size.z * size.z < 36
    }

    // The whole number n is the length of the extent, cut off.
    ghost predicate CutLength(n: nat) {
      var size := Extent();
      n * n <= size.x * size.x + size.y * size.y + size.z * size.z < (n + 1) * (n + 1)
    }

    /** An array holds the grid nodes exactly if the length of the extent, cut off to a whole number, is at most 5. */
    lemma SmallMeaning(n: nat)
      requires CutLength(n)
      ensures Small() <==> n <= 5
    {
      MulMono(n, 5, n);
      MulMono(n, 5, 5);
      MulMono(6, n, 6);
      MulMono(6, n, n);
      MulMono(n + 1, 6, n + 1);
      MulMono(n + 1, 6, 6);
    }

    // ArrayGridNodeContainer::access does not ask whether the index is a valid one.
    function SlotOf(i: Pos): Slot {
      var size := Extent();
      if Small() then InArray(i.x * (size.y * size.z) + i.y * size.z + i.z) else InMap(i)
    }

    // The slot exists; past the end of the array the program's behaviour is undefined.
    predicate InStore(i: Pos) {
      var size := Extent();
      Small() ==> 0 <= SlotOf(i).n < size.x * (size.y * size.z)
    }

    // Valid indices have slots, and each its own.
    lemma ValidInStore(i: Pos)
      requires IsValidIndex(i)
      ensures InStore(i)
    {
      var size := Extent();
      IdxInside(i.z, i.y, size.z, size.y);
      IdxInside(Idx(i.z, i.y, size.z), i.x, size.y * size.z, size.x);
    }

    lemma OwnSlot(i: Pos, j: Pos)
      requires SlotOf(i) == SlotOf(j)
      requires !Small() || (IsValidIndex(i) && IsValidIndex(j))
      ensures i == j
    {
      if Small() {
        var size := Extent();
        IdxInside(i.z, i.y, size.z, size.y);
        IdxInside(j.z, j.y, size.z, size.y);
        IdxInside(Idx(i.z, i.y, size.z), i.x, size.y * size.z, size.x);
        IdxInside(Idx(j.z, j.y, size.z), j.x, size.y * size.z, size.x);
      }
    }

    /**
     What an index on an upper face gets in the array: on the x face nothing, on the others the slot of a node in
     the next row or layer.
     */
    lemma UpperFaces(i: Pos)
      requires Small() && 0 <= i.x <= Extent().x && 0 <= i.y <= Extent().y && 0 <= i.z <= Extent().z
      ensures i.x == Extent().x ==> !InStore(i)
      ensures i.y == Extent().y ==> SlotOf(i) == SlotOf(Pos(i.x + 1, 0, i.z))
      ensures i.z == Extent().z ==> SlotOf(i) == SlotOf(Pos(i.x, i.y + 1, 0))
    {
      var size := Extent();
      IdxSteps(i.z, i.y, size.z);
      IdxSteps(i.y, i.x, size.y * size.z);
      assert i.y * size.z >= 0;
      assert (i.x + 1) * (size.y * size.z) == i.x * (size.y * size.z) + size.y * size.z;
      assert (i.y + 1) * size.z == i.y * size.z + size.z;
    }

    // The grid node at i is on a surface.
    predicate IsSurface(i: Pos) {
      world.Standable(RealPos(i))
    }

    predicate Usable(i: Pos) {
      IsValidIndex(i) && IsSurface(i)
    }

    // Where direction k leads from the surface node i, and at what cost.
    function RawStep(i: Pos, k: nat): Option<(Pos, nat)>
      requires k < 4
    {
      if !IsSurface(i) then None
      else match world.Cost(RealPos(i), DIRECTIONS[k])
        case NoWay => None
        case Way(value, yChange) => Some((i.Plus(DIRECTIONS[k]).Up(yChange), value))
    }

    // The same, if it leads to a usable node of the area.
    function Step(i: Pos, k: nat): Option<(Pos, nat)>
      requires k < 4
    {
      var s := RawStep(i, k);
      if s.Some? && Usable(s.value.0) then s else None
    }

    lemma StepCost(i: Pos, k: nat)
      requires k < 4 && RawStep(i, k).Some?
      ensures 1 <= RawStep(i, k).value.1 <= 2
    {
      world.StepEnds(RealPos(i), DIRECTIONS[k]);
    }

    // Going back the way a level move came is a level move.
    lemma StepBack(i: Pos, k: nat)
      requires k < 4 && Step(i, k).Some? && IsSurface(i.Plus(DIRECTIONS[k]))
      ensures Step(i, k) == Some((i.Plus(DIRECTIONS[k]), 1))
    {
      var there := RealPos(i).Plus(DIRECTIONS[k]);
      assert there == RealPos(i.Plus(DIRECTIONS[k]));
      assert there.Up(-1) == Pos(there.x, there.y - 1, there.z);
    }

    // ------------------------------------------------------------ routes

    // Where a list of directions leads from i, and its total cost, if every move is possible.
    function Follow(i: Pos, ks: seq<nat>): Option<(Pos, nat)>
      requires forall j :: 0 <= j < |ks| ==> ks[j] < 4
      decreases |ks|
    {
      if ks == [] then Some((i, 0))
      else match Step(i, ks[0])
        case None => None
        case Some((next, cost)) =>
          match Follow(next, ks[1..])
          case None => None
          case Some((end, rest)) => Some((end, cost + rest))
    }

    // The positions passed on the way.
    function Trail(i: Pos, ks: seq<nat>): seq<Pos>
      requires forall j :: 0 <= j < |ks| ==> ks[j] < 4
      decreases |ks|
    {
      if ks == [] || Step(i, ks[0]).None? then [i] else [i] + Trail(Step(i, ks[0]).value.0, ks[1..])
    }

    lemma {:induction false} FollowSnoc(i: Pos, ks: seq<nat>, k: nat)
      requires (forall j :: 0 <= j < |ks| ==> ks[j] < 4) && k < 4
      requires Follow(i, ks).Some? && Step(Follow(i, ks).value.0, k).Some?
      ensures var (end, cost) := Follow(i, ks).value;
        var (next, more) := Step(end, k).value;
        && Follow(i, ks + [k]) == Some((next, cost + more))
        && Trail(i, ks + [k]) == Trail(i, ks) + [next]
      decreases |ks|
    {
      hide Step;
      if ks == [] {
        assert ks + [k] == [k] && [k][1..] == [];
      } else {
        assert (ks + [k])[1..] == ks[1..] + [k] && (ks + [k])[0] == ks[0];
        FollowSnoc(Step(i, ks[0]).value.0, ks[1..], k);
      }
    }

    // A route can be cut before its last move.
    lemma {:induction false} FollowInit(i: Pos, ks: seq<nat>, k: nat)
      requires (forall j :: 0 <= j < |ks| ==> ks[j] < 4) && k < 4 && Follow(i, ks + [k]).Some?
      ensures Follow(i, ks).Some? && Step(Follow(i, ks).value.0, k).Some?
      ensures Follow(i, ks + [k]).value.0 == Step(Follow(i, ks).value.0, k).value.0
      decreases |ks|
    {
      hide Step;
      if ks == [] {
        assert ks + [k] == [k] && [k][1..] == [];
      } else {
        assert (ks + [k])[1..] == ks[1..] + [k] && (ks + [k])[0] == ks[0];
        FollowInit(Step(i, ks[0]).value.0, ks[1..], k);
      }
    }

    lemma {:induction false} RouteEndsUsable(i: Pos, ks: seq<nat>)
      requires Usable(i) && (forall j :: 0 <= j < |ks| ==> ks[j] < 4) && Follow(i, ks).Some?
      ensures Usable(Follow(i, ks).value.0)
      decreases |ks|
    {
      hide Usable, RawStep;
      if ks == [] {
      } else {
        RouteEndsUsable(Step(i, ks[0]).value.0, ks[1..]);
      }
    }

    // A trail has every position of its route, each one move after the other.
    lemma {:induction false} TrailMoves(i: Pos, ks: seq<nat>)
      requires (forall j :: 0 <= j < |ks| ==> ks[j] < 4) && Follow(i, ks).Some?
      ensures var t := Trail(i, ks);
        && |t| == |ks| + 1 && t[0] == i && t[|ks|] == Follow(i, ks).value.0
        && forall j :: 0 <= j < |ks| ==> Step(t[j], ks[j]).Some? && Step(t[j], ks[j]).value.0 == t[j + 1]
      decreases |ks|
    {
      hide Step;
      if ks == [] {
      } else {
        var next := Step(i, ks[0]).value.0;
        TrailMoves(next, ks[1..]);
        var t, rest := Trail(i, ks), Trail(next, ks[1..]);
        assert t == [i] + rest;
        forall j | 0 <= j < |ks| ensures Step(t[j], ks[j]).Some? && Step(t[j], ks[j]).value.0 == t[j + 1] {
          if j > 0 {
            assert t[j] == rest[j - 1] && ks[j] == ks[1..][j - 1];
          }
        }
      }
    }

    ghost predicate IsRoute(start: Pos, ks: seq<nat>, end: Pos) {
      && (forall j :: 0 <= j < |ks| ==> ks[j] < 4)
      && Follow(start, ks).Some? && Follow(start, ks).value.0 == end
    }

    function RouteCost(start: Pos, ks: seq<nat>): nat
      requires (forall j :: 0 <= j < |ks| ==> ks[j] < 4) && Follow(start, ks).Some?
    {
      Follow(start, ks).value.1
    }

    ghost predicate Reachable(start: Pos, end: Pos) {
      exists ks :: IsRoute(start, ks, end)
    }

    lemma {:induction false} RoutesJoin(a: Pos, ks: seq<nat>, b: Pos, js: seq<nat>, c: Pos)
      requires IsRoute(a, ks, b) && IsRoute(b, js, c)
      ensures IsRoute(a, ks + js, c)
      decreases |ks|
    {
      hide Step;
      if ks == [] {
        assert ks + js == js;
      } else {
        assert (ks + js)[0] == ks[0] && (ks + js)[1..] == ks[1..] + js;
        RoutesJoin(Step(a, ks[0]).value.0, ks[1..], b, js, c);
      }
    }

    lemma ReachableJoin(a: Pos, b: Pos, c: Pos)
      requires Reachable(a, b) && Reachable(b, c)
      ensures Reachable(a, c)
    {
      hide IsRoute;
      var ks :| IsRoute(a, ks, b);
      var js :| IsRoute(b, js, c);
      RoutesJoin(a, ks, b, js, c);
    }

    // ------------------------------------------------------------ source directions

    // p was entered from a node of lower cost, which its source direction points back to.
    ghost predicate Entered(start: Pos, cost: map<Pos, nat>, source: map<Pos, Pos>, p: Pos) {
      && p in cost && p in source
      && var q := p.Plus(source[p]);
      && q in cost && (q == start || Usable(q))
      && exists k :: 0 <= k < 4 && RawStep(q, k).Some? && RawStep(q, k).value.0 == p
           && cost[q] + RawStep(q, k).value.1 <= cost[p]
    }

    ghost predicate Linked(start: Pos, cost: map<Pos, nat>, source: map<Pos, Pos>) {
      && start in cost && IsSurface(start)
      && forall p {:trigger Entered(start, cost, source, p)} :: p in cost && p != start ==> Entered(start, cost, source, p)
    }

    // The node p was entered from.
    lemma Parent(start: Pos, cost: map<Pos, nat>, source: map<Pos, Pos>, p: Pos) returns (q: Pos, k: nat)
      requires Linked(start, cost, source) && p in cost && p != start
      ensures p in source && q == p.Plus(source[p]) && q in cost && cost[q] < cost[p]
      ensures IsSurface(q) && (q == start || Usable(q))
      ensures k < 4 && RawStep(q, k).Some? && RawStep(q, k).value.0 == p
      ensures cost[q] + RawStep(q, k).value.1 <= cost[p]
    {
      assert Entered(start, cost, source, p);
      q := p.Plus(source[p]);
      k :| 0 <= k < 4 && RawStep(q, k).Some? && RawStep(q, k).value.0 == p
           && cost[q] + RawStep(q, k).value.1 <= cost[p];
      StepCost(q, k);
    }

    lemma ParentIsCheaper(start: Pos, cost: map<Pos, nat>, source: map<Pos, Pos>, p: Pos)
      requires Linked(start, cost, source) && p in cost && p != start
      ensures p in source && p.Plus(source[p]) in cost && cost[p.Plus(source[p])] < cost[p]
    {
      var _, _ := Parent(start, cost, source, p);
    }

    // Following the source directions from p back to the start.
    ghost function Chain(start: Pos, cost: map<Pos, nat>, source: map<Pos, Pos>, p: Pos): (c: seq<Pos>)
      requires Linked(start, cost, source) && p in cost
      ensures |c| > 0 && c[0] == p && c[|c| - 1] == start
      decreases cost[p]
    {
      if p == start then [p]
      else
        ParentIsCheaper(start, cost, source, p);
        [p] + Chain(start, cost, source, p.Plus(source[p]))
    }

    // The chain, turned round, is a route that costs no more than the label at its end.
    lemma {:induction false} ChainIsRoute(start: Pos, cost: map<Pos, nat>, source: map<Pos, Pos>, p: Pos) returns (ks: seq<nat>)
      requires Linked(start, cost, source) && p in cost && (p == start || Usable(p))
      ensures IsRoute(start, ks, p) && cost[start] + RouteCost(start, ks) <= cost[p]
      ensures Trail(start, ks) == Backwards(Chain(start, cost, source, p))
      decreases cost[p]
    {
      if p == start {
        ks := [];
      } else {
        var q, k := Parent(start, cost, source, p);
        var js := ChainIsRoute(start, cost, source, q);
        FollowSnoc(start, js, k);
        ks := js + [k];
      }
    }

    // The source directions as the grid nodes hold them: each labelled node's own, with the start's slot apart.
    ghost predicate Kept(start: Pos, cost: map<Pos, nat>, source: map<Pos, Pos>, sourcedir: map<Slot, Pos>) {
      forall p :: p in cost && p != start ==>
        p in source && SlotOf(p) in sourcedir && sourcedir[SlotOf(p)] == source[p] && SlotOf(p) != SlotOf(start)
    }

    // Where labelled nodes have slots of their own, the source directions by slot.
    function BySlot(cost: map<Pos, nat>, source: map<Pos, Pos>): map<Slot, Pos>
      requires forall p, q {:trigger SlotOf(p), SlotOf(q)} :: p in cost && q in cost && SlotOf(p) == SlotOf(q) ==> p == q
    {
      map p | p in cost && p in source :: SlotOf(p) := source[p]
    }

    lemma BySlotIsKept(start: Pos, cost: map<Pos, nat>, source: map<Pos, Pos>)
      requires Linked(start, cost, source) && (Small() ==> IsValidIndex(start))
      requires forall p :: p in cost && p != start ==> Usable(p)
      ensures forall p, q {:trigger SlotOf(p), SlotOf(q)} :: p in cost && q in cost && SlotOf(p) == SlotOf(q) ==> p == q
      ensures Kept(start, cost, source, BySlot(cost, source))
    {
      hide SlotOf, IsSurface;
      forall p, q {:trigger SlotOf(p), SlotOf(q)} | p in cost && q in cost && SlotOf(p) == SlotOf(q) ensures p == q {
        OwnSlot(p, q);
      }
      forall p | p in cost && p != start ensures p in source {
        assert Entered(start, cost, source, p);
      }
    }

    /** Pathfinder::buildPath: the chain from ipos, unless it has more nodes than the cap allows. */
    method BuildPath(start: Pos, sourcedir: map<Slot, Pos>, ipos0: Pos, ghost cost: map<Pos, nat>, ghost source: map<Pos, Pos>)
      returns (ok: bool, path: seq<Pos>)
      requires Linked(start, cost, source) && ipos0 in cost && (ipos0 == start || Usable(ipos0))
      requires Kept(start, cost, source, sourcedir)
      ensures ok <==> |Chain(start, cost, source, ipos0)| < 700
      ensures ok ==> path == Chain(start, cost, source, ipos0)
      ensures !ok ==> path == Chain(start, cost, source, ipos0)[..699]
    {
      hide Linked, Chain, Entered, Usable, IsSurface, IsValidIndex, SlotOf;
      ghost var chain := Chain(start, cost, source, ipos0);
      path := [];
      var ipos, waypoints := ipos0, 1;
      while true
        invariant |path| < |chain| && path == chain[..|path|] && ipos == chain[|path|]
        invariant waypoints == |path| + 1 <= PATHFINDER_MAX_WAYPOINTS
        decreases |chain| - |path|
      {
        waypoints := waypoints + 1;
        if waypoints > PATHFINDER_MAX_WAYPOINTS {
          return false, path;
        }
        ChainNode(start, cost, source, ipos0, |path|);
        if !IsSurface(ipos) {
          return false, path;
        }
        path := path + [ipos];
        if SlotOf(ipos) == SlotOf(start) {
          return true, path;
        }
        ipos := ipos.Plus(sourcedir[SlotOf(ipos)]);
      }
    }

    // The j-th node of a chain.
    lemma {:induction false} ChainNode(start: Pos, cost: map<Pos, nat>, source: map<Pos, Pos>, p: Pos, j: nat)
      requires Linked(start, cost, source) && p in cost && (p == start || Usable(p)) && j < |Chain(start, cost, source, p)|
      ensures var chain := Chain(start, cost, source, p);
        && IsSurface(chain[j]) && chain[j] in cost && (chain[j] == start <==> j == |chain| - 1)
        && (chain[j] != start ==> chain[j] in source && chain[j + 1] == chain[j].Plus(source[chain[j]]))
      decreases j
    {
      hide Linked, Chain, Entered, IsSurface, IsValidIndex;
      ChainSplits(start, cost, source, p);
      if p == start {
      } else {
        var q, k := Parent(start, cost, source, p);
        ChainSplits(start, cost, source, q);
        if j > 0 {
          ChainNode(start, cost, source, q, j - 1);
        }
      }
    }

    lemma ChainSplits(start: Pos, cost: map<Pos, nat>, source: map<Pos, Pos>, p: Pos)
      requires Linked(start, cost, source) && p in cost && (p == start || Usable(p))
      ensures IsSurface(p) && |Chain(start, cost, source, p)| > 0 && Chain(start, cost, source, p)[0] == p
      ensures p == start ==> Chain(start, cost, source, p) == [p]
      ensures p != start ==>
        && p in source && p.Plus(source[p]) in cost
        && Chain(start, cost, source, p) == [p] + Chain(start, cost, source, p.Plus(source[p]))
    {
      if p != start {
        var q, k := Parent(start, cost, source, p);
      }
    }
  }

  function Backwards<T>(s: seq<T>): seq<T> {
    if s == [] then [] else Backwards(s[1..]) + [s[0]]
  }
}
