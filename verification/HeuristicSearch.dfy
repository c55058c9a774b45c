/**
 Pathfinder::updateCostHeuristic of src/pathfinder.cpp. What it knows of a position is kept in the slot of its index,
 which in the array of a small area can be the slot of another one. The order in which the open list is emptied is
 left arbitrary: the comparison it uses is no ordering once unusable nodes are queued.
 */
module HeuristicSearch {
  import opened Basics
  import opened VoxelWorld
  import opened PathGrid

  datatype Search = Search(
    cost: map<Slot, nat>,       // totalcost
    estimate: map<Slot, nat>,   // estimated_cost
    source: map<Slot, Pos>,     // sourcedir
    open: set<Slot>,            // is_open
    closed: set<Slot>,          // is_closed
    queue: seq<Pos>,            // the open list
    history: seq<Pos>)          // every position ever queued, in order

  datatype State = Going(s: Search) | Arrived(s: Search) | OutsideArray

  // ---------------------------------------------------------------- which slots are looked at on the way

  // The slots looked at from p in the first n directions.
  ghost function Round(area: Area, p: Pos, n: nat): set<Slot>
    requires n <= 4
  {
    set d: nat | d < n && area.RawStep(p, d).Some? :: area.SlotOf(area.RawStep(p, d).value.0)
  }

  // Those looked at all round the nodes of a route, and in the first k directions at its end.
  ghost function LookedAt(area: Area, p: Pos, ks: seq<nat>, k: nat): set<Slot>
    requires k <= 4 && forall j :: 0 <= j < |ks| ==> ks[j] < 4
    decreases |ks|
  {
    if ks == [] || area.Step(p, ks[0]).None? then Round(area, p, k)
    else Round(area, p, 4) + LookedAt(area, area.Step(p, ks[0]).value.0, ks[1..], k)
  }

  // From the end of a route, direction k leads to a.
  ghost predicate Leads(area: Area, start: Pos, ks: seq<nat>, k: nat, a: Pos) {
    && k < 4 && (forall j :: 0 <= j < |ks| ==> ks[j] < 4) && area.Follow(start, ks).Some?
    && var q := area.Follow(start, ks).value.0;
    area.RawStep(q, k).Some? && area.RawStep(q, k).value.0 == a
  }

  // On this way the slot of a reachable node o is first looked at for another index a. From then on o counts as open.
  ghost predicate Displaces(area: Area, start: Pos, ks: seq<nat>, k: nat, a: Pos, o: Pos) {
    && Leads(area, start, ks, k, a) && o != a && area.SlotOf(o) == area.SlotOf(a)
    && area.Usable(o) && area.Reachable(start, o)
    && area.SlotOf(a) !in LookedAt(area, start, ks, k) && area.SlotOf(a) != area.SlotOf(start)
  }

  // Some way from the start leads past the end of the array, or takes the slot of a reachable node before it is looked at.
  ghost predicate Misled(area: Area, start: Pos) {
    || (exists ks: seq<nat>, k: nat, a :: Leads(area, start, ks, k, a) && !area.InStore(a))
    || (exists ks: seq<nat>, k: nat, a, o :: Displaces(area, start, ks, k, a, o))
  }

  datatype Problem = Problem(area: Area, start: Pos, destination: Pos) {

    function Manhattan(p: Pos): nat {
      var dx, dz := p.x - destination.x, p.z - destination.z;
      (if dx < 0 then -dx else dx) + (if dz < 0 then -dz else dz)
    }

    /**
     The heuristic is the distance on the grid of columns: 0 at the destination's column only, it changes by 1 with every
     step in a cardinal direction, and some direction lowers it.
     */
    lemma ManhattanIsDistance(p: Pos, dy: int)
      ensures Manhattan(p) == 0 <==> p.x == destination.x && p.z == destination.z
      ensures forall k: nat :: k < 4 ==> var q := p.Plus(DIRECTIONS[k]).Up(dy);
        Manhattan(q) == Manhattan(p) + 1 || Manhattan(q) == Manhattan(p) - 1
      ensures Manhattan(p) > 0 ==> exists k: nat :: k < 4 && Manhattan(p.Plus(DIRECTIONS[k])) == Manhattan(p) - 1
    {
      if p.x != destination.x {
        assert Manhattan(p.Plus(DIRECTIONS[if p.x < destination.x then 0 else 1])) == Manhattan(p) - 1;
      } else if p.z != destination.z {
        assert Manhattan(p.Plus(DIRECTIONS[if p.z < destination.z then 2 else 3])) == Manhattan(p) - 1;
      }
    }

    // So no route costs less.
    lemma {:induction false} RouteCostsManhattan(p: Pos, ks: seq<nat>)
      requires area.IsRoute(p, ks, destination)
      ensures Manhattan(p) <= area.RouteCost(p, ks)
      decreases |ks|
    {
      if ks == [] {
      } else {
        var next := area.Step(p, ks[0]).value.0;
        RouteCostsManhattan(next, ks[1..]);
        area.StepCost(p, ks[0]);
        ManhattanIsDistance(p, next.y - p.y);
        StepsAcross(p, ks[0]);
      }
    }

    lemma StepsAcross(p: Pos, k: nat)
      requires k < 4 && area.Step(p, k).Some?
      ensures var next := area.Step(p, k).value.0; next == p.Plus(DIRECTIONS[k]).Up(next.y - p.y)
    {}

    // ------------------------------------------------------------ the search, step by step

    function Started(): Search {
      var slot := area.SlotOf(start);
      Search(map[slot := 0], map[slot := Manhattan(destination)], map[], {}, {}, [start], [start])
    }

    // Position i of the open list is taken; it is closed if it lies inside the area.
    function Take(s: Search, i: nat): Search
      requires i < |s.queue|
    {
      var p, rest := s.queue[i], s.queue[..i] + s.queue[i + 1..];
      var slot := area.SlotOf(p);
      if area.IsValidIndex(p) then s.(queue := rest, closed := s.closed + {slot}, open := s.open - {slot})
      else s.(queue := rest)
    }

    function Push(s: Search, from: Pos, next: Pos, value: nat): Search
      requires area.SlotOf(from) in s.cost
    {
      var total, slot := s.cost[area.SlotOf(from)] + value, area.SlotOf(next);
      s.(cost := s.cost[slot := total], estimate := s.estimate[slot := total + Manhattan(next)],
         source := s.source[slot := from.Minus(next)], open := s.open + {slot},
         queue := s.queue + [next], history := s.history + [next])
    }

    // Looking from p in direction k; None if that is past the end of the array.
    function Looked(s: Search, p: Pos, k: nat): (r: Option<Search>)
      requires k < 4 && area.SlotOf(p) in s.cost
      ensures r.Some? ==> area.SlotOf(p) in r.value.cost
    {
      match area.RawStep(p, k)
      case None => Some(s)
      case Some((next, value)) =>
        if !area.InStore(next) then None
        else if area.SlotOf(next) in s.open + s.closed then Some(s)
        else Some(Push(s, p, next, value))
    }

    // In the first n directions.
    function LookedRound(s: Search, p: Pos, n: nat): (r: Option<Search>)
      requires n <= 4 && area.SlotOf(p) in s.cost
      ensures r.Some? ==> area.SlotOf(p) in r.value.cost
    {
      if n == 0 then Some(s)
      else match LookedRound(s, p, n - 1)
        case None => None
        case Some(t) => Looked(t, p, n - 1)
    }

    // One turn of the loop, for position i of the open list.
    function Visit(s: Search, i: nat): State
      requires i < |s.queue| && area.SlotOf(s.queue[i]) in s.cost
    {
      var p, t := s.queue[i], Take(s, i);
      if !area.Usable(p) then Going(t)
      else if p == destination then Arrived(t)
      else match LookedRound(t, p, 4)
        case None => OutsideArray
        case Some(u) => Going(u)
    }

    predicate CanVisit(s: Search, i: nat) {
      i < |s.queue| && area.SlotOf(s.queue[i]) in s.cost
    }

    // After these picks from the open list.
    function After(picks: seq<nat>): State {
      if picks == [] then (if area.InStore(start) then Going(Started()) else OutsideArray)
      else
        var n := |picks| - 1;
        var state := After(picks[..n]);
        if state.Going? && CanVisit(state.s, picks[n]) then Visit(state.s, picks[n]) else state
    }

    predicate Ended(state: State) {
      state.Going? ==> state.s.queue == []
    }

    // ------------------------------------------------------------ which slots are looked at on the way

    lemma RoundEmpty(p: Pos)
      ensures Round(area, p, 0) == {}
    {}

    lemma RoundGrows(p: Pos, k: nat)
      requires k < 4
      ensures Round(area, p, k + 1) == Round(area, p, k) + if area.RawStep(p, k).Some? then {area.SlotOf(area.RawStep(p, k).value.0)} else {}
    {
      hide Area.RawStep, Area.SlotOf;
    }

    lemma {:induction false} LookedAtEnd(p: Pos, ks: seq<nat>, k: nat)
      requires k <= 4 && (forall j :: 0 <= j < |ks| ==> ks[j] < 4) && area.Follow(p, ks).Some?
      ensures LookedAt(area, p, ks, k) == LookedAt(area, p, ks, 0) + Round(area, area.Follow(p, ks).value.0, k)
      decreases |ks|
    {
      hide Area.Step, Round;
      if ks == [] {
        RoundEmpty(p);
      } else {
        LookedAtEnd(area.Step(p, ks[0]).value.0, ks[1..], k);
      }
    }

    lemma {:induction false} LookedAtSnoc(p: Pos, ks: seq<nat>, j: nat)
      requires j < 4 && (forall j :: 0 <= j < |ks| ==> ks[j] < 4) && area.Follow(p, ks).Some?
      requires area.Step(area.Follow(p, ks).value.0, j).Some?
      ensures LookedAt(area, p, ks + [j], 0) == LookedAt(area, p, ks, 4)
      decreases |ks|
    {
      hide Area.Step, Round;
      if ks == [] {
        assert [] + [j] == [j] && [j][1..] == [];
        RoundEmpty(area.Step(p, j).value.0);
      } else {
        assert (ks + [j])[0] == ks[0] && (ks + [j])[1..] == ks[1..] + [j];
        LookedAtSnoc(area.Step(p, ks[0]).value.0, ks[1..], j);
      }
    }

    // ------------------------------------------------------------ what holds throughout

    // Every position a search can queue: the area, its upper faces included, and the start.
    ghost function Cells(): set<Pos> {
      var size := area.Extent();
      (set x, y, z | 0 <= x <= size.x && 0 <= y <= size.y && 0 <= z <= size.z :: Pos(x, y, z)) + {start}
    }

    lemma StepStaysInCells(p: Pos, k: nat)
      requires k < 4 && area.RawStep(p, k).Some?
      ensures area.RawStep(p, k).value.0 in Cells()
    {
      area.world.StepEnds(area.RealPos(p), DIRECTIONS[k]);
      var end := area.RealPos(p).Plus(DIRECTIONS[k]).Up(area.world.Cost(area.RealPos(p), DIRECTIONS[k]).yChange);
      assert end == area.RealPos(area.RawStep(p, k).value.0);
    }

    ghost predicate Distinct(q: seq<Pos>) {
      forall i, j :: 0 <= i < j < |q| ==> q[i] != q[j]
    }

    // No two positions share a slot.
    ghost predicate SlotsDiffer(h: seq<Pos>) {
      forall i, j :: 0 <= i < j < |h| ==> area.SlotOf(h[i]) != area.SlotOf(h[j])
    }

    ghost function Slots(h: seq<Pos>): set<Slot> {
      set p | p in h :: area.SlotOf(p)
    }

    // What the slots hold belongs to the positions queued, each with a slot of its own.
    ghost predicate Stored(s: Search) {
      && SlotsDiffer(s.history) && s.history != [] && s.history[0] == start
      && s.cost.Keys == Slots(s.history) && s.estimate.Keys == Slots(s.history) && s.source.Keys <= Slots(s.history)
      && (forall p :: p in s.history ==> p in Cells() && area.InStore(p))
      && s.cost[area.SlotOf(start)] == 0
    }

    // The open list holds positions that were queued and not taken yet.
    ghost predicate Listed(s: Search) {
      && Distinct(s.queue) && (forall p :: p in s.queue ==> p in s.history)
      && (start in s.queue ==> s.queue == [start] == s.history)
      && (start !in s.queue && !area.IsValidIndex(start) ==> s.queue == [] && s.history == [start])
    }

    // What the two flags say. A position outside the area stays open when it is taken.
    ghost predicate Flagged(s: Search) {
      && s.open + s.closed <= Slots(s.history)
      && (forall p :: p in s.queue && p != start ==> area.SlotOf(p) in s.open)
      && (forall p :: p in s.history && p !in s.queue ==>
            area.SlotOf(p) in (if area.IsValidIndex(p) then s.closed else s.open + {area.SlotOf(start)}))
    }

    ghost predicate Taken(s: Search, p: Pos) {
      p in s.history && p !in s.queue
    }

    // Where p has been entered from, with the cost adding up exactly.
    ghost predicate EnteredExactly(s: Search, p: Pos) {
      && var slot := area.SlotOf(p);
      && slot in s.cost && slot in s.source
      && var q := p.Plus(s.source[slot]);
      && Taken(s, q) && area.Usable(q) && area.SlotOf(q) in s.cost
      && exists k :: 0 <= k < 4 && area.RawStep(q, k).Some? && area.RawStep(q, k).value.0 == p
           && s.cost[area.SlotOf(q)] + area.RawStep(q, k).value.1 == s.cost[slot]
    }

    ghost predicate Searching(s: Search) {
      && Stored(s) && Listed(s) && Flagged(s)
      && forall p {:trigger EnteredExactly(s, p)} :: p in s.history && p != start ==> EnteredExactly(s, p)
    }

    // The i-th position queued was come to on this way, and what is looked at on the way was queued before.
    ghost predicate WayTo(s: Search, i: nat, ks: seq<nat>, k: nat) {
      && i < |s.history| && Leads(area, start, ks, k, s.history[i]) && LookedAt(area, start, ks, k) <= Slots(s.history[..i])
      && var q := area.Follow(start, ks).value.0;
      area.Usable(q) && Taken(s, q)
    }

    ghost predicate Ways(s: Search) {
      forall i: nat {:trigger HasWay(s, i)} :: 0 < i < |s.history| ==> HasWay(s, i)
    }

    ghost predicate HasWay(s: Search, i: nat) {
      exists ks: seq<nat>, k: nat :: WayTo(s, i, ks, k)
    }

    // Every usable node taken, `except` excluded, is explored all round, and none is the destination.
    ghost predicate AllExplored(s: Search, except: set<Pos>) {
      forall p {:trigger Taken(s, p)} :: Taken(s, p) && area.Usable(p) && p !in except ==> p != destination && Round(area, p, 4) <= Slots(s.history)
    }

    // What was written to slots and flags stays.
    ghost predicate Keeps(s: Search, t: Search) {
      && (forall slot :: slot in s.cost ==> slot in t.cost && t.cost[slot] == s.cost[slot])
      && (forall slot :: slot in s.estimate ==> slot in t.estimate && t.estimate[slot] == s.estimate[slot])
      && (forall slot :: slot in s.source ==> slot in t.source && t.source[slot] == s.source[slot])
      && s.history <= t.history && s.closed == t.closed
      && forall p :: Taken(s, p) <==> Taken(t, p)
    }

    // Between two turns of the loop.
    ghost predicate Sound(s: Search) {
      Searching(s) && Ways(s) && AllExplored(s, {})
    }

    lemma StartIsSound()
      requires area.InStore(start)
      ensures Sound(Started())
    {
      hide Area.SlotOf, Area.IsValidIndex, Area.Usable;
    }

    // ------------------------------------------------------------ taking a position from the open list

    lemma RestDistinct(q: seq<Pos>, i: nat)
      requires i < |q| && Distinct(q)
      ensures var r := q[..i] + q[i + 1..];
        Distinct(r) && |r| == |q| - 1 && forall p :: p in r <==> p in q && p != q[i]
    {
      var r := q[..i] + q[i + 1..];
      assert forall j :: 0 <= j < |r| ==> r[j] == q[if j < i then j else j + 1];
      forall p | p in q && p != q[i] ensures p in r {
        var j :| 0 <= j < |q| && q[j] == p;
        assert r[if j < i then j else j - 1] == p;
      }
    }

    lemma TakeFacts(s: Search, i: nat)
      requires i < |s.queue| && Listed(s)
      ensures var t := Take(s, i);
        && t.history == s.history && t.cost == s.cost && t.estimate == s.estimate && t.source == s.source
        && Listed(t) && s.queue[i] in s.queue && s.queue[i] in s.history
        && (forall p :: p in t.queue <==> p in s.queue && p != s.queue[i])
        && (forall p :: Taken(t, p) <==> Taken(s, p) || p == s.queue[i])
    {
      hide Area.IsValidIndex, Area.SlotOf;
      RestDistinct(s.queue, i);
      assert s.queue[i] in s.queue;
      hide Distinct;
      if start in s.queue {
        assert s.queue[i] == start && Take(s, i).queue == [];
      }
    }

    lemma SlotsAreOwn(h: seq<Pos>, p: Pos, q: Pos)
      requires SlotsDiffer(h) && p in h && q in h && area.SlotOf(p) == area.SlotOf(q)
      ensures p == q
    {
      hide Area.SlotOf;
    }

    lemma TakeKeepsFlagged(s: Search, i: nat)
      requires i < |s.queue| && Stored(s) && Listed(s) && Flagged(s)
      ensures Flagged(Take(s, i)) && area.SlotOf(s.queue[i]) in s.cost
    {
      hide Area.IsValidIndex, Area.SlotOf, Cells, Area.InStore, SlotsDiffer;
      var t := Take(s, i);
      TakeFacts(s, i);
      hide Listed;
      forall p | p in t.queue && p != start ensures area.SlotOf(p) in t.open {
        if area.SlotOf(p) == area.SlotOf(s.queue[i]) {
          SlotsAreOwn(s.history, p, s.queue[i]);
        }
      }
      forall p | p in t.history && p !in t.queue
        ensures area.SlotOf(p) in (if area.IsValidIndex(p) then t.closed else t.open + {area.SlotOf(start)})
      {
        if area.SlotOf(p) == area.SlotOf(s.queue[i]) {
          SlotsAreOwn(s.history, p, s.queue[i]);
        }
      }
    }

    // t knows as much of positions as s, and more are taken.
    ghost predicate TakesMore(s: Search, t: Search) {
      && t.history == s.history && t.cost == s.cost && t.estimate == s.estimate && t.source == s.source
      && forall p :: Taken(s, p) ==> Taken(t, p)
    }

    lemma TakingKeepsEntered(s: Search, t: Search, p: Pos)
      requires TakesMore(s, t) && EnteredExactly(s, p)
      ensures EnteredExactly(t, p)
    {
      hide Area.RawStep, Area.Usable, Area.SlotOf, Taken;
    }

    lemma TakingKeepsWays(s: Search, t: Search)
      requires TakesMore(s, t) && Ways(s)
      ensures Ways(t)
    {
      hide Area.Step, Area.RawStep, Area.Usable, Round, Taken;
      forall j: nat | 0 < j < |t.history| ensures HasWay(t, j) {
        assert HasWay(s, j);
        var ks: seq<nat>, k: nat :| WayTo(s, j, ks, k);
        assert WayTo(t, j, ks, k);
      }
    }

    lemma TakingKeepsStored(s: Search, t: Search)
      requires TakesMore(s, t) && Stored(s)
      ensures Stored(t)
    {
      hide Cells, Area.SlotOf, Area.InStore, SlotsDiffer, Slots;
    }

    lemma TakeKeepsSearching(s: Search, i: nat)
      requires i < |s.queue| && Searching(s) && Ways(s)
      ensures Searching(Take(s, i)) && Ways(Take(s, i))
    {
      TakeFacts(s, i);
      TakeKeepsFlagged(s, i);
      var t := Take(s, i);
      hide Take, Ways, Flagged, Listed, EnteredExactly, Taken, Stored;
      assert TakesMore(s, t);
      TakingKeepsStored(s, t);
      TakingKeepsWays(s, t);
      forall p {:trigger EnteredExactly(t, p)} | p in t.history && p != start ensures EnteredExactly(t, p) {
        assert EnteredExactly(s, p);
        TakingKeepsEntered(s, t, p);
      }
    }

    lemma TakeKeepsExplored(s: Search, i: nat)
      requires i < |s.queue| && Listed(s) && AllExplored(s, {})
      ensures AllExplored(Take(s, i), {s.queue[i]})
    {
      TakeFacts(s, i);
      hide Take, Listed, Taken, Area.Usable, Round, Slots;
    }

    // A position taken that is not usable needs no further attention.
    lemma TakeUnusable(s: Search, i: nat)
      requires i < |s.queue| && Sound(s) && !area.Usable(s.queue[i])
      ensures Sound(Take(s, i))
    {
      hide Take, Ways, Flagged, Stored, EnteredExactly, Taken, Area.Usable, Round, Listed, Slots;
      TakeKeepsSearching(s, i);
      TakeKeepsExplored(s, i);
    }

    // ------------------------------------------------------------ looking round a position

    // p is being looked round, and on the way to it everything was looked at.
    ghost predicate Expanding(s: Search, p: Pos, k: nat)
      requires k <= 4
    {
      && Searching(s) && Ways(s) && Taken(s, p) && area.Usable(p) && AllExplored(s, {p}) && p != destination
      && WayIn(s, p) && Round(area, p, k) <= Slots(s.history) && area.IsValidIndex(start) && start !in s.queue
    }

    ghost predicate WayIn(s: Search, p: Pos) {
      exists ks :: area.IsRoute(start, ks, p) && LookedAt(area, start, ks, 0) <= Slots(s.history)
    }

    lemma SlotsPrefix(h: seq<Pos>, i: nat)
      requires i <= |h|
      ensures Slots(h[..i]) <= Slots(h)
    {
      hide Area.SlotOf;
    }

    lemma WayGoesOn(s: Search, i: nat, ks: seq<nat>, k: nat)
      requires WayTo(s, i, ks, k) && area.Usable(s.history[i])
      requires Round(area, area.Follow(start, ks).value.0, 4) <= Slots(s.history)
      ensures WayIn(s, s.history[i])
    {
      hide Area.RawStep, Area.Usable, Slots, Round, Taken;
      var q := area.Follow(start, ks).value.0;
      assert area.Step(q, k) == area.RawStep(q, k);
      area.FollowSnoc(start, ks, k);
      LookedAtSnoc(start, ks, k);
      LookedAtEnd(start, ks, k);
      LookedAtEnd(start, ks, 4);
      SlotsPrefix(s.history, i);
      assert area.IsRoute(start, ks + [k], s.history[i]);
    }

    // A usable position about to be taken.
    lemma WayHere(s: Search, p: Pos)
      requires Ways(s) && AllExplored(s, {}) && p in s.history && s.history[0] == start && area.Usable(p)
      ensures WayIn(s, p)
    {
      hide Area.Step, Area.RawStep, Area.Usable, Round, Taken, Slots, WayIn;
      if p == start {
        StartsHere(s);
      } else {
        var i: nat :| i < |s.history| && s.history[i] == p;
        assert HasWay(s, i);
        var ks: seq<nat>, k: nat :| WayTo(s, i, ks, k);
        WayGoesOn(s, i, ks, k);
      }
    }

    lemma StartsHere(s: Search)
      ensures WayIn(s, start)
    {
      RoundEmpty(start);
      assert area.IsRoute(start, [], start) && LookedAt(area, start, [], 0) == {};
    }

    lemma ExpandingStarts(s: Search, i: nat)
      requires i < |s.queue| && Sound(s) && area.Usable(s.queue[i]) && s.queue[i] != destination
      ensures Expanding(Take(s, i), s.queue[i], 0)
    {
      var p, t := s.queue[i], Take(s, i);
      TakeFacts(s, i);
      TakeKeepsSearching(s, i);
      TakeKeepsExplored(s, i);
      hide Take, Ways, Flagged, EnteredExactly, Taken, Area.Usable, Round, Listed, Slots, AllExplored, LookedAt, Area.IsRoute, SlotsDiffer, Cells;
      WayHere(s, p);
      RoundEmpty(p);
      StartIsTaken(t, p);
    }

    lemma StartIsTaken(t: Search, p: Pos)
      requires Searching(t) && Taken(t, p) && area.Usable(p)
      ensures area.IsValidIndex(start) && start !in t.queue
    {
      hide EnteredExactly, Flagged, Cells, Area.SlotOf, Area.IsSurface, Distinct, SlotsDiffer;
    }

    // While positions are looked round, every slot of the history is flagged.
    lemma FlagsCover(s: Search)
      requires Searching(s) && area.IsValidIndex(start) && start !in s.queue
      ensures s.open + s.closed == Slots(s.history)
    {
      hide EnteredExactly, Cells, Area.SlotOf, Area.IsValidIndex, SlotsDiffer, Distinct;
      assert start in s.history;
      forall p | p in s.history ensures area.SlotOf(p) in s.open + s.closed {
        if p in s.queue {
          assert p != start;
        }
      }
    }

    // ------------------------------------------------------------ queueing a neighbour

    lemma PushKeepsStored(s: Search, from: Pos, next: Pos, value: nat)
      requires Stored(s) && from in s.history && area.SlotOf(next) !in Slots(s.history) && next in Cells() && area.InStore(next)
      ensures area.SlotOf(from) in s.cost && Stored(Push(s, from, next, value))
    {
      hide Area.SlotOf, Area.InStore, Cells, Slots, SlotsDiffer;
      SlotsHas(s.history, from);
      PushSlots(s, from, next, value);
      OneMoreDiffers(s.history, next);
      SlotsHas(s.history, start);
    }

    lemma SlotsHas(h: seq<Pos>, p: Pos)
      requires p in h
      ensures area.SlotOf(p) in Slots(h)
    {
      hide Area.SlotOf;
    }

    lemma OneMoreDiffers(h: seq<Pos>, p: Pos)
      requires SlotsDiffer(h) && area.SlotOf(p) !in Slots(h)
      ensures SlotsDiffer(h + [p])
    {
      hide Area.SlotOf;
    }

    lemma PushSlots(s: Search, from: Pos, next: Pos, value: nat)
      requires area.SlotOf(from) in s.cost
      ensures var t := Push(s, from, next, value);
        Slots(t.history) == Slots(s.history) + {area.SlotOf(next)} && t.history[..|s.history|] == s.history
    {
      hide Area.SlotOf;
    }

    lemma PushKeepsLists(s: Search, from: Pos, next: Pos, value: nat)
      requires Listed(s) && Flagged(s) && area.SlotOf(from) in s.cost && area.SlotOf(next) !in Slots(s.history)
      requires area.IsValidIndex(start) && start !in s.queue && start in s.history
      ensures var t := Push(s, from, next, value);
        Listed(t) && Flagged(t) && start !in t.queue && forall p :: Taken(s, p) <==> Taken(t, p)
    {
      hide Area.SlotOf, Area.IsValidIndex;
      PushSlots(s, from, next, value);
    }

    lemma PushIsKept(s: Search, from: Pos, next: Pos, value: nat)
      requires Stored(s) && area.SlotOf(from) in s.cost && area.SlotOf(next) !in Slots(s.history)
      requires forall p :: Taken(s, p) <==> Taken(Push(s, from, next, value), p)
      ensures Keeps(s, Push(s, from, next, value))
    {
      hide Area.SlotOf, Area.InStore, Cells, Taken, SlotsDiffer;
    }

    lemma KeepsEntered(s: Search, t: Search, p: Pos)
      requires Keeps(s, t) && EnteredExactly(s, p)
      ensures EnteredExactly(t, p)
    {
      hide Area.RawStep, Area.Usable, Area.SlotOf, Taken;
    }

    lemma PushedIsEntered(s: Search, from: Pos, k: nat)
      requires k < 4 && area.Usable(from) && area.RawStep(from, k).Some? && area.SlotOf(from) in s.cost
      requires var (next, value) := area.RawStep(from, k).value;
        area.SlotOf(next) != area.SlotOf(from) && Taken(Push(s, from, next, value), from)
      ensures var (next, value) := area.RawStep(from, k).value;
        EnteredExactly(Push(s, from, next, value), next)
    {
      hide Area.RawStep, Area.Usable, Area.SlotOf, Taken;
      var (next, value) := area.RawStep(from, k).value;
      var t := Push(s, from, next, value);
      assert next.Plus(from.Minus(next)) == from;
      assert t.cost[area.SlotOf(from)] + area.RawStep(from, k).value.1 == t.cost[area.SlotOf(next)];
    }

    lemma KeepsWay(s: Search, t: Search, i: nat)
      requires Keeps(s, t) && HasWay(s, i)
      ensures HasWay(t, i)
    {
      hide Area.Step, Area.RawStep, Area.Usable, Round, Taken, Slots;
      var ks: seq<nat>, k: nat :| WayTo(s, i, ks, k);
      assert t.history[..i] == s.history[..i] && t.history[i] == s.history[i];
      assert WayTo(t, i, ks, k);
    }

    lemma PushedHasWay(s: Search, p: Pos, k: nat)
      requires k < 4 && area.RawStep(p, k).Some? && area.SlotOf(p) in s.cost && WayIn(s, p)
      requires Round(area, p, k) <= Slots(s.history) && area.Usable(p)
      requires var (next, value) := area.RawStep(p, k).value; Taken(Push(s, p, next, value), p)
      ensures var (next, value) := area.RawStep(p, k).value; HasWay(Push(s, p, next, value), |s.history|)
    {
      hide Area.Step, Area.RawStep, Area.Usable, Round, Taken, Slots;
      var (next, value) := area.RawStep(p, k).value;
      var t := Push(s, p, next, value);
      var ks :| area.IsRoute(start, ks, p) && LookedAt(area, start, ks, 0) <= Slots(s.history);
      LookedAtEnd(start, ks, k);
      assert t.history[..|s.history|] == s.history;
      assert WayTo(t, |s.history|, ks, k);
    }

    lemma KeepsWayIn(s: Search, t: Search, p: Pos)
      requires Keeps(s, t) && WayIn(s, p)
      ensures WayIn(t, p) && Slots(s.history) <= Slots(t.history)
    {
      assert s.history == t.history[..|s.history|];
      SlotsPrefix(t.history, |s.history|);
      hide Area.Step, Area.RawStep, Round, Slots;
      var ks :| area.IsRoute(start, ks, p) && LookedAt(area, start, ks, 0) <= Slots(s.history);
    }

    lemma KeepsExplored(s: Search, t: Search, except: set<Pos>)
      requires Keeps(s, t) && AllExplored(s, except) && Slots(s.history) <= Slots(t.history)
      ensures AllExplored(t, except)
    {
      hide Area.Usable, Round, Taken, Slots;
    }

    lemma ExpandingFacts(s: Search, p: Pos, k: nat)
      requires k <= 4 && Expanding(s, p, k)
      ensures Searching(s) && Ways(s) && WayIn(s, p) && Round(area, p, k) <= Slots(s.history) && p in s.history && start in s.history
      ensures area.SlotOf(p) in Slots(s.history) && area.SlotOf(p) in s.cost && s.open + s.closed == Slots(s.history)
      ensures area.Usable(p) && area.IsValidIndex(start)
    {
      hide Area.SlotOf, Ways, Flagged, Listed, SlotsDiffer, Cells, EnteredExactly, AllExplored, WayIn, Round, Area.Usable;
      FlagsCover(s);
      SlotsHas(s.history, p);
    }

    // A neighbour whose slot is not flagged is queued.
    lemma PushKeepsSlots(s: Search, p: Pos, k: nat)
      requires k < 4 && Expanding(s, p, k) && area.RawStep(p, k).Some? && area.SlotOf(p) in s.cost
      requires var next := area.RawStep(p, k).value.0; area.InStore(next) && area.SlotOf(next) !in Slots(s.history)
      ensures var (next, value) := area.RawStep(p, k).value;
        var t := Push(s, p, next, value);
        && Stored(t) && Listed(t) && Flagged(t) && start !in t.queue && Keeps(s, t)
        && EnteredExactly(t, next) && HasWay(t, |s.history|)
    {
      hide Area.RawStep, Area.Usable, Area.SlotOf, Area.InStore, EnteredExactly, AllExplored, WayIn, HasWay, Round, Cells, SlotsDiffer, Flagged, Listed, Slots, Push;
      ExpandingFacts(s, p, k);
      var (next, value) := area.RawStep(p, k).value;
      StepStaysInCells(p, k);
      PushKeepsStored(s, p, next, value);
      PushKeepsLists(s, p, next, value);
      PushIsKept(s, p, next, value);
      PushedIsEntered(s, p, k);
      PushedHasWay(s, p, k);
    }

    lemma PushKeepsSearching(s: Search, t: Search, next: Pos)
      requires Searching(s) && Ways(s) && Keeps(s, t) && t.history == s.history + [next]
      requires Stored(t) && Listed(t) && Flagged(t) && EnteredExactly(t, next) && HasWay(t, |s.history|)
      ensures Searching(t) && Ways(t)
    {
      hide Stored, Flagged, Listed, EnteredExactly, Keeps, HasWay;
      forall q {:trigger EnteredExactly(t, q)} | q in t.history && q != start ensures EnteredExactly(t, q) {
        if q in s.history {
          assert EnteredExactly(s, q);
          KeepsEntered(s, t, q);
        }
      }
      forall i: nat | 0 < i < |t.history| ensures HasWay(t, i) {
        if i < |s.history| {
          assert HasWay(s, i);
          KeepsWay(s, t, i);
        }
      }
    }

    lemma LookPushes(s: Search, p: Pos, k: nat)
      requires k < 4 && Expanding(s, p, k) && area.RawStep(p, k).Some? && area.SlotOf(p) in s.cost
      requires var next := area.RawStep(p, k).value.0; area.InStore(next) && area.SlotOf(next) !in Slots(s.history)
      ensures var (next, value) := area.RawStep(p, k).value;
        var t := Push(s, p, next, value);
        Expanding(t, p, k + 1) && Keeps(s, t) && Slots(t.history) == Slots(s.history) + Round(area, p, k + 1)
    {
      hide Area.RawStep, Area.SlotOf, Area.InStore, Expanding, Keeps, Round, Slots, Stored, Listed, Flagged, EnteredExactly, HasWay, Searching, Ways;
      var (next, value) := area.RawStep(p, k).value;
      var t := Push(s, p, next, value);
      ExpandingFacts(s, p, k);
      PushKeepsSlots(s, p, k);
      PushKeepsSearching(s, t, next);
      PushSlots(s, p, next, value);
      RoundGrows(p, k);
      GoesOnExpanding(s, t, p, k);
    }

    lemma GoesOnExpanding(s: Search, t: Search, p: Pos, k: nat)
      requires k < 4 && Expanding(s, p, k) && Keeps(s, t) && Searching(t) && Ways(t) && start !in t.queue
      requires Round(area, p, k + 1) <= Slots(t.history)
      ensures Expanding(t, p, k + 1)
    {
      hide Area.Usable, Searching, Ways, AllExplored, WayIn, Round, Slots, Taken;
      KeepsWayIn(s, t, p);
      KeepsExplored(s, t, {p});
    }

    lemma LookSkips(s: Search, p: Pos, k: nat)
      requires k < 4 && Expanding(s, p, k)
      requires area.RawStep(p, k).Some? ==> area.SlotOf(area.RawStep(p, k).value.0) in Slots(s.history)
      ensures Expanding(s, p, k + 1) && Keeps(s, s) && Slots(s.history) == Slots(s.history) + Round(area, p, k + 1)
    {
      hide Area.RawStep, Area.Usable, Area.SlotOf, Searching, Ways, AllExplored, WayIn, Round, Slots;
      RoundGrows(p, k);
    }

    lemma LookKeeps(s: Search, p: Pos, k: nat)
      requires k < 4 && Expanding(s, p, k)
      ensures area.SlotOf(p) in s.cost
      ensures Looked(s, p, k).Some? ==>
        var t := Looked(s, p, k).value;
        Expanding(t, p, k + 1) && Keeps(s, t) && Slots(t.history) == Slots(s.history) + Round(area, p, k + 1)
    {
      hide Area.RawStep, Area.SlotOf, Area.InStore, Expanding, Keeps, Round, Slots, Push;
      ExpandingFacts(s, p, k);
      if Looked(s, p, k).Some? {
        if area.RawStep(p, k).Some? && area.SlotOf(area.RawStep(p, k).value.0) !in s.open + s.closed {
          LookPushes(s, p, k);
        } else {
          LookSkips(s, p, k);
        }
      }
    }

    lemma {:induction false} RoundKeeps(s: Search, p: Pos, n: nat)
      requires Expanding(s, p, 0) && n <= 4
      ensures area.SlotOf(p) in s.cost
      ensures LookedRound(s, p, n).Some? ==>
        var t := LookedRound(s, p, n).value;
        Expanding(t, p, n) && Keeps(s, t) && Slots(t.history) == Slots(s.history) + Round(area, p, n)
    {
      hide Expanding, Round, Looked, Slots, Keeps, Area.SlotOf;
      ExpandingFacts(s, p, 0);
      if n == 0 {
        RoundEmpty(p);
        KeepsItself(s);
      } else {
        RoundKeeps(s, p, n - 1);
        if LookedRound(s, p, n - 1).Some? {
          var t := LookedRound(s, p, n - 1).value;
          LookKeeps(t, p, n - 1);
          RoundGrows(p, n - 1);
          if Looked(t, p, n - 1).Some? {
            KeepsOn(s, t, Looked(t, p, n - 1).value);
          }
        }
      }
    }

    lemma KeepsItself(s: Search)
      ensures Keeps(s, s)
    {
      hide Taken;
    }

    lemma KeepsOn(s: Search, t: Search, u: Search)
      requires Keeps(s, t) && Keeps(t, u)
      ensures Keeps(s, u)
    {
      hide Taken;
    }

    lemma ExpandingEnds(s: Search, p: Pos)
      requires Expanding(s, p, 4)
      ensures Sound(s)
    {
      hide Searching, Ways, Taken, Area.Usable, Round, Slots, WayIn;
    }

    // ------------------------------------------------------------ every run

    lemma VisitIsSound(s: Search, i: nat)
      requires i < |s.queue| && Sound(s)
      ensures CanVisit(s, i) && (Visit(s, i).Going? ==> Sound(Visit(s, i).s))
    {
      var p := s.queue[i];
      TakeKeepsFlagged(s, i);
      if !area.Usable(p) {
        TakeUnusable(s, i);
      } else if p != destination {
        ExpandingStarts(s, i);
        RoundKeeps(Take(s, i), p, 4);
        if LookedRound(Take(s, i), p, 4).Some? {
          ExpandingEnds(LookedRound(Take(s, i), p, 4).value, p);
        }
      }
    }

    lemma {:induction false} RunIsSound(picks: seq<nat>)
      ensures After(picks).Going? ==> Sound(After(picks).s)
    {
      hide Sound, Visit;
      if picks == [] {
        if area.InStore(start) {
          StartIsSound();
        }
      } else {
        var n := |picks| - 1;
        RunIsSound(picks[..n]);
        var state := After(picks[..n]);
        if state.Going? && CanVisit(state.s, picks[n]) {
          VisitIsSound(state.s, picks[n]);
        }
      }
    }

    // ------------------------------------------------------------ the outcome

    lemma {:induction false} OutsideIsMisled(s: Search, p: Pos, n: nat)
      requires n <= 4 && Expanding(s, p, 0) && area.SlotOf(p) in s.cost && LookedRound(s, p, n).None?
      ensures Misled(area, start) && area.Usable(start)
    {
      hide Area.RawStep, Area.SlotOf, Area.InStore, Area.IsSurface, Expanding, Round, Slots, Keeps, Area.Step, LookedAt;
      if LookedRound(s, p, n - 1).None? {
        OutsideIsMisled(s, p, n - 1);
      } else {
        ExpandingFacts(s, p, 0);
        var ks :| area.IsRoute(start, ks, p) && LookedAt(area, start, ks, 0) <= Slots(s.history);
        assert Leads(area, start, ks, n - 1, area.RawStep(p, n - 1).value.0);
        RouteStarts(ks, p);
      }
    }

    // The slot of a reachable node holds what belongs to another position.
    ghost predicate Displaced(s: Search, a: Pos, o: Pos) {
      a in s.history && a != o && area.SlotOf(a) == area.SlotOf(o) && area.Usable(o) && area.Reachable(start, o)
    }

    lemma DisplacedIsMisled(s: Search, a: Pos, o: Pos)
      requires Searching(s) && Ways(s) && area.Usable(start) && Displaced(s, a, o)
      ensures Misled(area, start)
    {
      NotTheStart(s, a, o);
      hide Area.RawStep, Area.Step, Area.SlotOf, Area.InStore, Area.Usable, Round, EnteredExactly, Flagged, Listed, Cells, Area.Reachable, Taken;
      var i: nat :| i < |s.history| && s.history[i] == a;
      assert HasWay(s, i);
      var ks: seq<nat>, k: nat :| WayTo(s, i, ks, k);
      assert Displaces(area, start, ks, k, a, o);
    }

    lemma NotTheStart(s: Search, a: Pos, o: Pos)
      requires Stored(s) && area.Usable(start) && Displaced(s, a, o)
      ensures a != start && area.SlotOf(a) != area.SlotOf(start)
    {
      hide Area.SlotOf, Area.IsSurface, Area.Reachable, Cells, SlotsDiffer;
      if a == start {
        area.OwnSlot(o, start);
      } else if area.SlotOf(a) == area.SlotOf(start) {
        SlotsAreOwn(s.history, a, start);
      }
    }

    // With the open list empty, a route ends at a position queued, unless a node on it was displaced.
    lemma {:induction false} ExhaustedReaches(s: Search, p: Pos, ks: seq<nat>, end: Pos)
      requires Sound(s) && s.queue == [] && !Misled(area, start) && area.Usable(start)
      requires p in s.history && area.Usable(p) && area.Reachable(start, p) && area.IsRoute(p, ks, end)
      ensures end in s.history && area.Usable(end)
      decreases |ks|
    {
      hide Area.RawStep, Area.SlotOf, Area.Usable, Area.Reachable, Searching, Ways, Misled;
      if ks == [] {
      } else {
        var next := area.Step(p, ks[0]).value.0;
        NextIsLookedAt(s, p, ks[0]);
        StepReaches(p, ks[0]);
        var a :| a in s.history && area.SlotOf(a) == area.SlotOf(next);
        if a != next {
          DisplacedIsMisled(s, a, next);
        }
        ExhaustedReaches(s, next, ks[1..], end);
      }
    }

    lemma NextIsLookedAt(s: Search, p: Pos, k: nat)
      requires AllExplored(s, {}) && Taken(s, p) && area.Usable(p) && k < 4 && area.Step(p, k).Some?
      ensures area.SlotOf(area.Step(p, k).value.0) in Slots(s.history) && area.Usable(area.Step(p, k).value.0)
    {
      hide Area.RawStep, Area.SlotOf, Area.Usable;
      assert area.SlotOf(area.RawStep(p, k).value.0) in Round(area, p, 4);
    }

    lemma StepReaches(p: Pos, k: nat)
      requires area.Reachable(start, p) && k < 4 && area.Step(p, k).Some?
      ensures area.Reachable(start, area.Step(p, k).value.0)
    {
      hide Area.Step;
      var ks :| area.IsRoute(start, ks, p);
      area.FollowSnoc(start, ks, k);
      assert area.IsRoute(start, ks + [k], area.Step(p, k).value.0);
    }

    lemma ExhaustedMeansUnreachable(s: Search)
      requires Sound(s) && s.queue == [] && !Misled(area, start) && area.Usable(start)
      ensures !area.Reachable(start, destination)
    {
      hide Area.RawStep, Area.SlotOf, Area.Usable, Ways, Misled, Round, Slots, Listed, Flagged, EnteredExactly, Cells, SlotsDiffer, Area.InStore;
      assert start in s.history;
      assert area.IsRoute(start, [], start);
      DestinationNotTaken(s);
      if ks :| area.IsRoute(start, ks, destination) {
        ExhaustedReaches(s, start, ks, destination);
      }
    }

    lemma DestinationNotTaken(s: Search)
      requires AllExplored(s, {}) && s.queue == []
      ensures destination in s.history ==> !area.Usable(destination)
    {
      hide Area.Usable, Round, Slots;
      assert destination in s.history ==> Taken(s, destination);
    }

    // What is known when the destination is taken.
    ghost predicate ArrivedAt(s: Search) {
      && Searching(s) && Taken(s, destination) && area.Usable(destination)
      && area.Usable(start) && area.Reachable(start, destination)
    }

    lemma ArrivalIsReachable(s: Search, i: nat)
      requires i < |s.queue| && Sound(s) && s.queue[i] == destination && area.Usable(destination)
      ensures ArrivedAt(Take(s, i))
    {
      hide Take, Ways, EnteredExactly, Flagged, AllExplored, Taken, Area.IsSurface, Area.RawStep, Area.Step, Round, Cells, SlotsDiffer, Area.InStore, Area.SlotOf;
      TakeFacts(s, i);
      TakeKeepsSearching(s, i);
      WayHere(s, destination);
      StartIsTaken(Take(s, i), destination);
      var ks :| area.IsRoute(start, ks, destination) && LookedAt(area, start, ks, 0) <= Slots(s.history);
      RouteStarts(ks, destination);
    }

    lemma RouteStarts(ks: seq<nat>, p: Pos)
      requires area.IsRoute(start, ks, p) && area.Usable(p)
      ensures area.IsSurface(start)
    {
      hide Area.IsSurface;
      if ks == [] {
        assert start == p;
      } else {
        assert area.Step(start, ks[0]).Some? && area.RawStep(start, ks[0]).Some?;
      }
    }

    // Is the run right so far?
    ghost predicate Right(picks: seq<nat>) {
      match After(picks)
      case OutsideArray => false
      case Arrived(_) => area.Reachable(start, destination)
      case Going(s) => s.queue == [] ==> !area.Reachable(start, destination)
    }

    lemma {:induction false} RunEnds(picks: seq<nat>)
      ensures match After(picks)
        case OutsideArray => area.InStore(start) ==> Misled(area, start) && area.Usable(start)
        case Arrived(s) => ArrivedAt(s)
        case Going(s) => Sound(s) && (s.queue == [] && area.Usable(start) && !Misled(area, start) ==> !area.Reachable(start, destination))
    {
      hide Sound, Visit, ArrivedAt, Misled, Area.Reachable, Area.Usable;
      RunIsSound(picks);
      if picks != [] {
        var n := |picks| - 1;
        RunEnds(picks[..n]);
        RunIsSound(picks[..n]);
        var state := After(picks[..n]);
        if state.Going? && CanVisit(state.s, picks[n]) {
          VisitEnds(state.s, picks[n]);
        }
      }
      if After(picks).Going? && After(picks).s.queue == [] && area.Usable(start) && !Misled(area, start) {
        ExhaustedMeansUnreachable(After(picks).s);
      }
    }

    lemma VisitEnds(s: Search, i: nat)
      requires CanVisit(s, i) && Sound(s)
      ensures Visit(s, i).Arrived? ==> ArrivedAt(Visit(s, i).s)
      ensures Visit(s, i).OutsideArray? ==> Misled(area, start) && area.Usable(start)
    {
      hide Sound, ArrivedAt, Misled, Take, LookedRound, Expanding;
      var p := s.queue[i];
      if area.Usable(p) {
        if p == destination {
          ArrivalIsReachable(s, i);
        } else {
          ExpandingStarts(s, i);
          TakeKeepsStore(s, i);
          if LookedRound(Take(s, i), p, 4).None? {
            OutsideIsMisled(Take(s, i), p, 4);
          }
        }
      }
    }

    lemma BeforeFirst()
      ensures After([]) == if area.InStore(start) then Going(Started()) else OutsideArray
    {}

    lemma RawStepIs(p: Pos, k: nat)
      requires k < 4 && area.IsSurface(p)
      ensures var cost := area.world.Cost(area.RealPos(p), DIRECTIONS[k]);
        area.RawStep(p, k) == if cost.NoWay? then None else Some((p.Plus(DIRECTIONS[k].Up(cost.yChange)), cost.value))
    {
      hide World.Cost, Area.IsSurface;
    }

    lemma {:induction false} StaysOut(s: Search, p: Pos, m: nat, n: nat)
      requires m <= n <= 4 && area.SlotOf(p) in s.cost && LookedRound(s, p, m).None?
      ensures LookedRound(s, p, n).None?
      decreases n
    {
      hide Looked, Area.SlotOf;
      if m < n {
        StaysOut(s, p, m, n - 1);
      }
    }

    // ------------------------------------------------------------ the way back

    // The labels and source directions of the positions queued.
    ghost function CostOf(s: Search): map<Pos, nat> {
      map p | p in s.history && area.SlotOf(p) in s.cost :: s.cost[area.SlotOf(p)]
    }

    ghost function SourceOf(s: Search): map<Pos, Pos> {
      map p | p in s.history && area.SlotOf(p) in s.source :: s.source[area.SlotOf(p)]
    }

    lemma SearchingIsLinked(s: Search)
      requires Searching(s) && area.IsSurface(start)
      ensures area.Linked(start, CostOf(s), SourceOf(s)) && area.Kept(start, CostOf(s), SourceOf(s), s.source)
    {
      hide Area.RawStep, Area.IsSurface, Area.IsValidIndex, Area.SlotOf, Area.InStore, Cells, SlotsDiffer, Flagged, Listed;
      forall p {:trigger area.Entered(start, CostOf(s), SourceOf(s), p)} | p in CostOf(s) && p != start
        ensures area.Entered(start, CostOf(s), SourceOf(s), p)
      {
        assert EnteredExactly(s, p);
      }
      forall p | p in CostOf(s) && p != start ensures area.SlotOf(p) != area.SlotOf(start) && p in SourceOf(s) {
        assert EnteredExactly(s, p);
        if area.SlotOf(p) == area.SlotOf(start) {
          SlotsAreOwn(s.history, p, start);
        }
      }
    }

    // The node p was queued from.
    lemma ExactParent(s: Search, p: Pos) returns (q: Pos, k: nat)
      requires EnteredExactly(s, p)
      ensures area.SlotOf(p) in s.cost && area.SlotOf(p) in s.source && q == p.Plus(s.source[area.SlotOf(p)])
      ensures q in s.history && area.Usable(q) && area.SlotOf(q) in s.cost && s.cost[area.SlotOf(q)] < s.cost[area.SlotOf(p)]
      ensures k < 4 && area.RawStep(q, k).Some? && area.RawStep(q, k).value.0 == p
      ensures s.cost[area.SlotOf(q)] + area.RawStep(q, k).value.1 == s.cost[area.SlotOf(p)]
      ensures area.Usable(p) ==> area.Step(q, k) == area.RawStep(q, k)
    {
      hide Area.RawStep, Area.Usable, Area.SlotOf;
      q := p.Plus(s.source[area.SlotOf(p)]);
      k :| 0 <= k < 4 && area.RawStep(q, k).Some? && area.RawStep(q, k).value.0 == p
           && s.cost[area.SlotOf(q)] + area.RawStep(q, k).value.1 == s.cost[area.SlotOf(p)];
      area.StepCost(q, k);
    }

    lemma SearchingEntered(s: Search, p: Pos)
      requires Searching(s) && p in s.history
      ensures area.SlotOf(p) in s.cost && p in CostOf(s) && (p == start ==> s.cost[area.SlotOf(p)] == 0)
      ensures p != start ==> EnteredExactly(s, p) && p in SourceOf(s) && SourceOf(s)[p] == s.source[area.SlotOf(p)]
    {
      hide Listed, Flagged, SlotsDiffer, Area.InStore, Area.SlotOf, Area.RawStep, Area.Usable, Cells;
      SlotsHas(s.history, p);
      if p != start {
        assert EnteredExactly(s, p);
      }
    }

    // The chain back from a usable queued position is a route that costs exactly its label.
    lemma {:induction false} ChainIsExact(s: Search, p: Pos) returns (ks: seq<nat>)
      requires Searching(s) && p in s.history && area.Usable(p) && area.IsSurface(start)
      ensures area.Linked(start, CostOf(s), SourceOf(s)) && p in CostOf(s) && area.SlotOf(p) in s.cost
      ensures area.IsRoute(start, ks, p) && area.RouteCost(start, ks) == s.cost[area.SlotOf(p)]
      ensures area.Trail(start, ks) == Backwards(area.Chain(start, CostOf(s), SourceOf(s), p))
      decreases if area.SlotOf(p) in s.cost then s.cost[area.SlotOf(p)] else 0
    {
      hide Area.RawStep, Area.Step, Area.Linked, Area.Kept, Area.IsSurface, Area.IsValidIndex, Area.SlotOf, Searching, EnteredExactly, CostOf, SourceOf;
      SearchingIsLinked(s);
      SearchingEntered(s, p);
      if p == start {
        ks := [];
      } else {
        var q, k := ExactParent(s, p);
        SearchingEntered(s, q);
        var js := ChainIsExact(s, q);
        area.FollowSnoc(start, js, k);
        area.ChainSplits(start, CostOf(s), SourceOf(s), p);
        ks := js + [k];
      }
    }

    // ------------------------------------------------------------ when every run is right

    lemma {:induction false} RoundGoesOn(s: Search, p: Pos, m: nat, n: nat)
      requires m <= n <= 4 && area.SlotOf(p) in s.cost && LookedRound(s, p, n).Some?
      ensures LookedRound(s, p, m).Some? && LookedRound(s, p, m).value.history <= LookedRound(s, p, n).value.history
      decreases n
    {
      hide Area.RawStep, Area.SlotOf, Area.InStore;
      if m < n {
        RoundGoesOn(s, p, m, n - 1);
      }
    }

    lemma VisitGoesOn(s: Search, i: nat)
      requires CanVisit(s, i) && Visit(s, i).Going?
      ensures s.history <= Visit(s, i).s.history
    {
      hide LookedRound, Area.Usable, Area.SlotOf;
      var p, t := s.queue[i], Take(s, i);
      if area.Usable(p) && p != destination {
        RoundGoesOn(t, p, 0, 4);
        NothingLookedAt(t, p);
      }
    }

    lemma NothingLookedAt(s: Search, p: Pos)
      requires area.SlotOf(p) in s.cost
      ensures LookedRound(s, p, 0) == Some(s)
    {}

    // The run has left the array, or a reachable node is displaced.
    ghost predicate Bad(picks: seq<nat>) {
      match After(picks)
      case OutsideArray => true
      case Arrived(_) => false
      case Going(s) => exists a, o :: Displaced(s, a, o)
    }

    // The run has come to p, and has looked at no more than there is to see on the way.
    ghost predicate CameTo(picks: seq<nat>, p: Pos, seen: set<Slot>) {
      && After(picks).Going?
      && var s := After(picks).s;
      Sound(s) && p in s.history && Slots(s.history) == {area.SlotOf(start)} + seen
    }

    lemma OneMorePick(picks: seq<nat>, i: nat)
      requires After(picks).Going? && CanVisit(After(picks).s, i)
      ensures After(picks + [i]) == Visit(After(picks).s, i)
    {
      hide Visit;
      assert (picks + [i])[..|picks|] == picks;
    }

    lemma VisitLooksRound(s: Search, i: nat)
      requires i < |s.queue| && Sound(s) && area.Usable(s.queue[i]) && s.queue[i] != destination
      ensures CanVisit(s, i) && area.SlotOf(s.queue[i]) in Take(s, i).cost
      ensures match LookedRound(Take(s, i), s.queue[i], 4)
        case None => Visit(s, i) == OutsideArray
        case Some(u) =>
          && Visit(s, i) == Going(u) && Sound(u)
          && s.queue[i] in u.history && Slots(u.history) == Slots(s.history) + Round(area, s.queue[i], 4)
    {
      var p := s.queue[i];
      hide Sound, Expanding, LookedRound, Take, Round, Area.Usable, Area.SlotOf, Keeps, Slots;
      VisitIsSound(s, i);
      ExpandingStarts(s, i);
      TakeKeepsStore(s, i);
      RoundKeeps(Take(s, i), p, 4);
      if LookedRound(Take(s, i), p, 4).Some? {
        ExpandingFacts(LookedRound(Take(s, i), p, 4).value, p, 4);
      }
    }

    // Looking round p, for which i is picked: all goes well, or something is wrong.
    lemma LookRound(picks: seq<nat>, p: Pos, seen: set<Slot>, i: nat)
      requires CameTo(picks, p, seen) && i < |After(picks).s.queue| && After(picks).s.queue[i] == p
      requires area.Usable(p) && p != destination
      ensures var s := After(picks).s;
        && area.SlotOf(p) in Take(s, i).cost
        && match LookedRound(Take(s, i), p, 4)
           case None => After(picks + [i]) == OutsideArray
           case Some(u) => After(picks + [i]) == Going(u) && CameTo(picks + [i], p, seen + Round(area, p, 4))
    {
      hide After, Sound, Visit, LookedRound, Take, Round, Area.Usable, Area.SlotOf, Slots;
      VisitLooksRound(After(picks).s, i);
      OneMorePick(picks, i);
    }

    lemma TakeKeepsStore(s: Search, i: nat)
      requires i < |s.queue|
      ensures Take(s, i).cost == s.cost && Take(s, i).history == s.history
    {}

    // Having looked round p, the next node of a route is queued, or displaced.
    lemma StepOn(picks: seq<nat>, p: Pos, seen: set<Slot>, k: nat)
      requires CameTo(picks, p, seen) && Round(area, p, 4) <= seen && k < 4 && area.Step(p, k).Some? && area.Reachable(start, p)
      ensures Bad(picks) || CameTo(picks, area.Step(p, k).value.0, seen)
    {
      hide After, Sound, Area.RawStep, Area.SlotOf, Area.Reachable, Area.Usable;
      var s, next := After(picks).s, area.Step(p, k).value.0;
      assert area.SlotOf(area.RawStep(p, k).value.0) in Round(area, p, 4);
      StepReaches(p, k);
      var a :| a in s.history && area.SlotOf(a) == area.SlotOf(next);
      if a != next {
        assert Displaced(s, a, next);
      }
    }

    lemma BeforeAll()
      requires area.Usable(start)
      ensures CameTo([], start, LookedAt(area, start, [], 0))
    {
      hide Sound, Area.SlotOf, Area.IsSurface, Area.RawStep;
      area.ValidInStore(start);
      StartIsSound();
      RoundEmpty(start);
    }

    // One move further.
    lemma RunOn(picks: seq<nat>, ks: seq<nat>, k: nat) returns (more: seq<nat>)
      requires area.Usable(start) && !area.Usable(destination) && k < 4
      requires (forall j :: 0 <= j < |ks| ==> ks[j] < 4) && area.Follow(start, ks).Some?
      requires area.Step(area.Follow(start, ks).value.0, k).Some?
      requires CameTo(picks, area.Follow(start, ks).value.0, LookedAt(area, start, ks, 0))
      ensures Bad(more) || CameTo(more, area.Step(area.Follow(start, ks).value.0, k).value.0, LookedAt(area, start, ks + [k], 0))
    {
      var q, seen := area.Follow(start, ks).value.0, LookedAt(area, start, ks, 0);
      LookedAtSnoc(start, ks, k);
      LookedAtEnd(start, ks, 4);
      area.RouteEndsUsable(start, ks);
      assert area.IsRoute(start, ks, q);
      more := LookHere(picks, q, seen);
      if !Bad(more) {
        StepOn(more, q, seen + Round(area, q, 4), k);
      }
    }

    // p is looked round now, or was before.
    lemma LookHere(picks: seq<nat>, p: Pos, seen: set<Slot>) returns (more: seq<nat>)
      requires CameTo(picks, p, seen) && area.Usable(p) && p != destination
      ensures Bad(more) || CameTo(more, p, seen + Round(area, p, 4))
    {
      hide After, Area.Usable, Searching, Ways, Round, Slots;
      var s := After(picks).s;
      if p in s.queue {
        var i: nat :| i < |s.queue| && s.queue[i] == p;
        more := picks + [i];
        LookRound(picks, p, seen, i);
      } else {
        assert Taken(s, p);
        more := picks;
      }
    }

    lemma {:induction false} RunAlong(ks: seq<nat>) returns (picks: seq<nat>)
      requires area.Usable(start) && !area.Usable(destination)
      requires (forall j :: 0 <= j < |ks| ==> ks[j] < 4) && area.Follow(start, ks).Some?
      ensures Bad(picks) || CameTo(picks, area.Follow(start, ks).value.0, LookedAt(area, start, ks, 0))
      decreases |ks|
    {
      hide Area.RawStep, Area.Usable, Sound, Visit, Round, Slots, Bad, Area.SlotOf;
      if ks == [] {
        picks := [];
        BeforeAll();
      } else {
        var n := |ks| - 1;
        var init, k := ks[..n], ks[n];
        assert ks == init + [k];
        area.FollowInit(start, init, k);
        picks := RunAlong(init);
        if !Bad(picks) {
          picks := RunOn(picks, init, k);
        }
      }
    }

    // A way past the end of the array, or to a slot that is taken too early, gives a run that goes wrong.
    lemma MisledRun() returns (picks: seq<nat>)
      requires area.Usable(start) && !area.Usable(destination) && Misled(area, start)
      ensures Bad(picks)
    {
      hide Bad, Leads, Displaces, Area.InStore, Area.Usable;
      if ks: seq<nat>, k: nat, a :| Leads(area, start, ks, k, a) && !area.InStore(a) {
        picks := LeadsOut(ks, k, a);
      } else {
        var ks: seq<nat>, k: nat, a, o :| Displaces(area, start, ks, k, a, o);
        picks := LeadsToDisplaced(ks, k, a, o);
      }
    }

    lemma StoreIsBySlot(a: Pos, b: Pos)
      requires area.SlotOf(a) == area.SlotOf(b)
      ensures area.InStore(a) <==> area.InStore(b)
    {}

    lemma LeadsOut(ks: seq<nat>, k: nat, a: Pos) returns (picks: seq<nat>)
      requires area.Usable(start) && !area.Usable(destination) && Leads(area, start, ks, k, a) && !area.InStore(a)
      ensures Bad(picks)
    {
      hide Area.RawStep, Area.Usable, Sound, Area.SlotOf, Area.InStore, After, LookedAt, Slots, LookedRound, Take;
      picks := RunAlong(ks);
      if !Bad(picks) {
        var q := area.Follow(start, ks).value.0;
        area.RouteEndsUsable(start, ks);
        var s := After(picks).s;
        if q in s.queue {
          var i: nat :| i < |s.queue| && s.queue[i] == q;
          LookRound(picks, q, LookedAt(area, start, ks, 0), i);
          LooksOut(Take(s, i), q, k);
          picks := picks + [i];
        } else {
          NotPassedOver(s, q, k, a);
        }
      }
    }

    // A position looked round before has not been next to the end of the array.
    lemma NotPassedOver(s: Search, q: Pos, k: nat, a: Pos)
      requires Sound(s) && Taken(s, q) && area.Usable(q) && q != destination && k < 4
      requires area.RawStep(q, k).Some? && area.RawStep(q, k).value.0 == a
      ensures area.InStore(a) && area.SlotOf(a) in Slots(s.history)
    {
      hide Area.RawStep, Area.Usable, Area.SlotOf, Area.InStore, Ways, Listed, Flagged, EnteredExactly, Cells, SlotsDiffer;
      assert area.SlotOf(a) in Round(area, q, 4);
      var b :| b in s.history && area.SlotOf(b) == area.SlotOf(a);
      StoreIsBySlot(a, b);
    }

    lemma LooksOut(s: Search, p: Pos, k: nat)
      requires k < 4 && area.SlotOf(p) in s.cost && area.RawStep(p, k).Some? && !area.InStore(area.RawStep(p, k).value.0)
      ensures LookedRound(s, p, 4).None?
    {
      hide Area.RawStep, Area.SlotOf, Area.InStore, Push;
      if LookedRound(s, p, 4).Some? {
        RoundGoesOn(s, p, k + 1, 4);
        RoundGoesOn(s, p, k, 4);
      }
    }

    lemma LeadsToDisplaced(ks: seq<nat>, k: nat, a: Pos, o: Pos) returns (picks: seq<nat>)
      requires area.Usable(start) && !area.Usable(destination) && Displaces(area, start, ks, k, a, o)
      ensures Bad(picks)
    {
      hide Area.RawStep, Area.Usable, Area.Reachable, Sound, Area.SlotOf, Area.InStore, After, Slots, LookedRound, Take, Round;
      picks := RunAlong(ks);
      if !Bad(picks) {
        var q := area.Follow(start, ks).value.0;
        area.RouteEndsUsable(start, ks);
        LookedAtEnd(start, ks, k);
        var s := After(picks).s;
        if q in s.queue {
          var i: nat :| i < |s.queue| && s.queue[i] == q;
          LookRound(picks, q, LookedAt(area, start, ks, 0), i);
          if LookedRound(Take(s, i), q, 4).Some? {
            QueuesHere(s, i, k, a);
            assert Displaced(LookedRound(Take(s, i), q, 4).value, a, o);
          }
          picks := picks + [i];
        } else {
          NotPassedOver(s, q, k, a);
        }
      }
    }

    // A neighbour whose slot was not looked at before is queued.
    lemma QueuesHere(s: Search, i: nat, k: nat, a: Pos)
      requires i < |s.queue| && Sound(s) && area.Usable(s.queue[i]) && s.queue[i] != destination && k < 4
      requires area.RawStep(s.queue[i], k).Some? && area.RawStep(s.queue[i], k).value.0 == a
      requires area.SlotOf(a) !in Slots(s.history) + Round(area, s.queue[i], k)
      ensures area.SlotOf(s.queue[i]) in Take(s, i).cost
      ensures LookedRound(Take(s, i), s.queue[i], 4).Some? ==> a in LookedRound(Take(s, i), s.queue[i], 4).value.history
    {
      hide Area.RawStep, Area.Usable, Area.SlotOf, Area.InStore, Sound, Slots, Take, Round, Expanding, Keeps;
      var p, t := s.queue[i], Take(s, i);
      ExpandingStarts(s, i);
      TakeKeepsStore(s, i);
      RoundKeeps(t, p, k);
      if LookedRound(t, p, 4).Some? {
        RoundGoesOn(t, p, k + 1, 4);
        RoundGoesOn(t, p, k, 4);
        var u := LookedRound(t, p, k).value;
        ExpandingFacts(u, p, k);
        assert Looked(u, p, k) == LookedRound(t, p, k + 1);
        assert a in LookedRound(t, p, k + 1).value.history;
      }
    }

    // The same but for the estimates, which do not matter to what is looked at.
    ghost predicate Alike(s: Search, t: Search) {
      t == s.(estimate := t.estimate)
    }

    lemma LookedAlike(other: Problem, s: Search, t: Search, p: Pos, k: nat)
      requires other.area == area && Alike(s, t) && k < 4 && area.SlotOf(p) in s.cost
      ensures Looked(s, p, k).Some? <==> other.Looked(t, p, k).Some?
      ensures Looked(s, p, k).Some? ==> Alike(Looked(s, p, k).value, other.Looked(t, p, k).value)
    {
      hide Area.RawStep, Area.SlotOf, Area.InStore;
    }

    lemma {:induction false} RoundAlike(other: Problem, s: Search, t: Search, p: Pos, n: nat)
      requires other.area == area && Alike(s, t) && n <= 4 && area.SlotOf(p) in s.cost
      ensures LookedRound(s, p, n).Some? <==> other.LookedRound(t, p, n).Some?
      ensures LookedRound(s, p, n).Some? ==> Alike(LookedRound(s, p, n).value, other.LookedRound(t, p, n).value)
    {
      hide Area.SlotOf, Looked;
      if n == 0 {
      } else {
        RoundAlike(other, s, t, p, n - 1);
        if LookedRound(s, p, n - 1).Some? {
          LookedAlike(other, LookedRound(s, p, n - 1).value, other.LookedRound(t, p, n - 1).value, p, n - 1);
        }
      }
    }

    lemma VisitAlike(other: Problem, s: Search, t: Search, i: nat)
      requires other.area == area && Alike(s, t) && CanVisit(s, i)
      requires !area.Usable(destination) && s.queue[i] != other.destination && Visit(s, i).Going?
      ensures other.CanVisit(t, i) && other.Visit(t, i).Going? && Alike(Visit(s, i).s, other.Visit(t, i).s)
    {
      hide Area.Usable, Area.SlotOf, LookedRound;
      RoundAlike(other, Take(s, i), other.Take(t, i), s.queue[i], 4);
    }

    // A search for another destination goes the same way as long as it has not come to it.
    lemma {:induction false} SameRun(other: Problem, picks: seq<nat>)
      requires other.area == area && other.start == start && !area.Usable(destination)
      requires After(picks).Going? && other.destination !in After(picks).s.history
      ensures other.After(picks).Going? && Alike(After(picks).s, other.After(picks).s)
    {
      hide Visit, Area.Usable, Area.SlotOf, Area.InStore, Sound;
      if picks == [] {
      } else {
        var n := |picks| - 1;
        var state := After(picks[..n]);
        RunIsSound(picks[..n]);
        if CanVisit(state.s, picks[n]) {
          VisitGoesOn(state.s, picks[n]);
          SameRun(other, picks[..n]);
          QueuedBefore(state.s, picks[n]);
          VisitAlike(other, state.s, other.After(picks[..n]).s, picks[n]);
        } else {
          SameRun(other, picks[..n]);
        }
      }
    }

    lemma QueuedBefore(s: Search, i: nat)
      requires Sound(s) && i < |s.queue|
      ensures s.queue[i] in s.history
    {
      assert s.queue[i] in s.queue;
    }

    ghost function TakenFrom(s: Search): set<Pos> {
      set p | p in s.history && p !in s.queue
    }

    lemma VisitTaken(s: Search, i: nat)
      requires Sound(s) && i < |s.queue|
      ensures CanVisit(s, i)
      ensures Visit(s, i).Going? ==> forall q :: Taken(Visit(s, i).s, q) <==> Taken(s, q) || q == s.queue[i]
    {
      hide Sound, Take, LookedRound, Area.Usable, Area.SlotOf, Expanding, Round, Taken, Slots;
      VisitIsSound(s, i);
      TakeCells(s, i);
      TakeFacts(s, i);
      var p, t := s.queue[i], Take(s, i);
      if area.Usable(p) && p != destination {
        ExpandingStarts(s, i);
        RoundKeeps(t, p, 4);
      }
    }

    // Every turn takes one more position.
    lemma VisitTakes(s: Search, i: nat)
      requires Sound(s) && i < |s.queue|
      ensures CanVisit(s, i)
      ensures Visit(s, i).Going? ==> Cells() - TakenFrom(Visit(s, i).s) < Cells() - TakenFrom(s)
    {
      hide Sound, Cells, Visit, Area.SlotOf, Listed;
      VisitTaken(s, i);
      TakeCells(s, i);
      if Visit(s, i).Going? {
        TakenMore(s, Visit(s, i).s, s.queue[i]);
        assert s.queue[i] in Cells() - TakenFrom(s);
      }
    }

    lemma TakenMore(s: Search, t: Search, p: Pos)
      requires forall q :: Taken(t, q) <==> Taken(s, q) || q == p
      ensures TakenFrom(t) == TakenFrom(s) + {p}
    {
      assert forall q :: q in TakenFrom(t) <==> Taken(t, q);
    }

    lemma TakeCells(s: Search, i: nat)
      requires Sound(s) && i < |s.queue|
      ensures Listed(s) && s.queue[i] in Cells() && s.queue[i] in s.queue
    {
      hide EnteredExactly, Flagged, Ways, AllExplored, Cells, Area.SlotOf, Area.InStore, SlotsDiffer;
    }

    // Every run can be gone on with to its end.
    lemma FinishRun(picks: seq<nat>) returns (more: seq<nat>)
      requires After(picks).Going?
      ensures Ended(After(more))
      ensures !After(more).OutsideArray? ==> After(picks).s.history <= After(more).s.history
      decreases Cells() - TakenFrom(After(picks).s)
    {
      hide After, Visit, Sound, Cells, Area.SlotOf;
      var s := After(picks).s;
      if s.queue == [] {
        more := picks;
      } else {
        RunIsSound(picks);
        VisitTakes(s, 0);
        OneMorePick(picks, 0);
        if Visit(s, 0).Going? {
          VisitGoesOn(s, 0);
          more := FinishRun(picks + [0]);
        } else {
          more := picks + [0];
          ArrivedHistory(s, 0);
        }
      }
    }

    lemma ArrivedHistory(s: Search, i: nat)
      requires CanVisit(s, i)
      ensures Visit(s, i).Arrived? ==> Visit(s, i).s.history == s.history
    {
      hide LookedRound, Area.Usable, Area.SlotOf;
    }

    // A run for a displaced node misses it, or leaves the array.
    lemma DisplacedIsMissed(picks: seq<nat>, a: Pos) returns (more: seq<nat>)
      requires area.Usable(start) && After(picks).Going? && Displaced(After(picks).s, a, destination)
      ensures !Right(more)
    {
      hide After, Sound, Area.Usable, Area.Reachable, Area.SlotOf, EnteredExactly, Flagged, Listed, Cells, SlotsDiffer, Area.InStore;
      more := FinishRun(picks);
      RunEnds(more);
      match After(more)
      case Arrived(s) =>
        SlotsAreOwn(s.history, a, destination);
      case Going(_) =>
      case OutsideArray =>
    }

    lemma NotQueued(picks: seq<nat>, a: Pos, o: Pos)
      requires After(picks).Going? && Displaced(After(picks).s, a, o)
      ensures o !in After(picks).s.history
    {
      hide After, Ways, EnteredExactly, Flagged, Listed, Cells, Area.SlotOf, Area.InStore, Area.Usable, Area.Reachable, SlotsDiffer, AllExplored;
      RunIsSound(picks);
      var s := After(picks).s;
      if o in s.history {
        SlotsAreOwn(s.history, a, o);
      }
    }

    lemma DisplacedToo(other: Problem, s: Search, t: Search, a: Pos)
      requires other.area == area && other.start == start && Displaced(s, a, other.destination) && Alike(s, t)
      ensures other.Displaced(t, a, other.destination)
    {}
  }

  /**
   Whatever the destination, and in whatever order the open list is emptied, every run stays within the array and
   finds the destination exactly if it is reachable: this holds exactly if no way from the start leads past the end
   of the array or takes the slot of a reachable node before it is looked at.
   */
  lemma RightExactlyUnlessMisled(area: Area, start: Pos)
    requires area.Usable(start)
    ensures (forall d: Pos, picks: seq<nat> :: Problem(area, start, d).Right(picks)) <==> !Misled(area, start)
  {
    hide Problem.Right, Misled, Area.IsSurface;
    if Misled(area, start) {
      var d, picks := MissedSomewhere(area, start);
    } else {
      forall d: Pos, picks: seq<nat> ensures Problem(area, start, d).Right(picks) {
        NotMisledIsRight(area, start, d, picks);
      }
    }
  }

  lemma NotMisledIsRight(area: Area, start: Pos, d: Pos, picks: seq<nat>)
    requires area.Usable(start) && !Misled(area, start)
    ensures Problem(area, start, d).Right(picks)
  {
    hide Problem.After, Problem.Sound, Problem.Searching, Misled, Area.IsSurface, Area.Reachable, Area.InStore;
    area.ValidInStore(start);
    Problem(area, start, d).RunEnds(picks);
  }

  // In a map every index has a slot of its own.
  lemma LargeIsNotMisled(area: Area, start: Pos)
    requires !area.Small()
    ensures !Misled(area, start) && area.InStore(start)
  {
    hide LookedAt, Area.Reachable, Area.Usable, Area.RawStep;
    forall ks: seq<nat>, k: nat, a, o ensures !Displaces(area, start, ks, k, a, o) {
      if area.SlotOf(a) == area.SlotOf(o) {
        area.OwnSlot(a, o);
      }
    }
  }

  lemma MissedSomewhere(area: Area, start: Pos) returns (d: Pos, picks: seq<nat>)
    requires area.Usable(start) && Misled(area, start)
    ensures !Problem(area, start, d).Right(picks)
  {
    hide Problem.After, Misled, Area.IsSurface, Area.Reachable, Problem.Displaced;
    var nowhere := Problem(area, start, Pos(-1, -1, -1));
    picks := nowhere.MisledRun();
    if nowhere.After(picks).OutsideArray? {
      d := nowhere.destination;
    } else {
      var a, o :| nowhere.Displaced(nowhere.After(picks).s, a, o);
      d := o;
      var other := Problem(area, start, o);
      nowhere.NotQueued(picks, a, o);
      nowhere.SameRun(other, picks);
      nowhere.DisplacedToo(other, nowhere.After(picks).s, other.After(picks).s, a);
      picks := other.DisplacedIsMissed(picks, a);
    }
  }

  datatype Outcome = Found | Exhausted | LeftArray

  class Pathfinder {
    const problem: Problem
    var s: Search
    ghost var picks: seq<nat>    // which position of the open list each turn has taken

    constructor (problem: Problem)
      ensures this.problem == problem
    {
      this.problem := problem;
      s := Search(map[], map[], map[], {}, {}, [], []);
    }

    // The outcome is that of a run of the search.
    ghost predicate RunGave(outcome: Outcome)
      reads this
    {
      match problem.After(picks)
      case OutsideArray => outcome == LeftArray
      case Arrived(s) => outcome == Found && this.s == s
      case Going(s) => outcome == Exhausted && this.s == s && s.queue == []
    }

    /**
     The outcome is that of a run to its end, with the open list emptied in some order. A destination found is
     reachable. Unless the search can be misled, it stays within its store and finds the destination exactly if it is
     reachable; in the map of a large area it cannot be misled.
     */
    method UpdateCostHeuristic() returns (outcome: Outcome)
      modifies this
      ensures RunGave(outcome)
      ensures outcome == Found ==> problem.ArrivedAt(s)
      ensures problem.area.InStore(problem.start) && !(problem.area.Usable(problem.start) && Misled(problem.area, problem.start)) ==>
        outcome == if problem.area.Usable(problem.start) && problem.area.Reachable(problem.start, problem.destination) then Found else Exhausted
      ensures !problem.area.Small() ==> problem.area.InStore(problem.start) && !Misled(problem.area, problem.start)
    {
      hide Problem.After, Problem.Sound, Problem.Searching, Problem.Taken, Problem.Cells, Problem.LookedRound, Misled, Area.Reachable, Area.IsSurface, Area.IsValidIndex, Area.SlotOf, Area.InStore;
      if !problem.area.Small() {
        LargeIsNotMisled(problem.area, problem.start);
      }
      picks := [];
      problem.BeforeFirst();
      problem.RunEnds(picks);
      if !problem.area.InStore(problem.start) {
        return LeftArray;
      }
      s := problem.Started();
      while s.queue != []
        invariant problem.After(picks) == Going(s)
        decreases problem.Cells() - problem.TakenFrom(s)
      {
        var i: nat :| i < |s.queue|;
        var p := s.queue[i];
        problem.RunIsSound(picks);
        problem.VisitTakes(s, i);
        problem.OneMorePick(picks, i);
        picks := picks + [i];
        problem.RunEnds(picks);
        s := problem.Take(s, i);
        if !problem.area.IsValidIndex(p) {
          continue;
        }
        if !problem.area.IsSurface(p) {
          continue;
        }
        if p == problem.destination {
          return Found;
        }
        var within := Expand(p);
        if !within {
          return LeftArray;
        }
      }
      problem.RunEnds(picks);
      outcome := Exhausted;
    }

    // The four cardinal directions from the position just closed.
    method Expand(p: Pos) returns (within: bool)
      requires problem.area.SlotOf(p) in s.cost && problem.area.IsSurface(p)
      modifies this`s
      ensures within <==> problem.LookedRound(old(s), p, 4).Some?
      ensures within ==> s == problem.LookedRound(old(s), p, 4).value
      ensures within && problem.Expanding(old(s), p, 0) ==> problem.Sound(s) && problem.Keeps(old(s), s)
    {
      hide Problem.Expanding, Problem.Sound, Problem.Keeps, Area.RawStep, World.Cost, Area.SlotOf, Area.InStore, Area.IsSurface;
      for k := 0 to 4
        invariant problem.area.SlotOf(p) in s.cost && problem.LookedRound(old(s), p, k) == Some(s)
      {
        var cost := problem.area.world.CalcCost(problem.area.RealPos(p), DIRECTIONS[k]);
        problem.RawStepIs(p, k);
        if cost.Way? {
          var direction := DIRECTIONS[k].Up(cost.yChange);
          var neighbor := p.Plus(direction);
          if !problem.area.InStore(neighbor) {
            problem.StaysOut(old(s), p, k + 1, 4);
            return false;
          }
          var slot := problem.area.SlotOf(neighbor);
          if slot !in s.closed && slot !in s.open {
            s := problem.Push(s, p, neighbor, cost.value);
          }
        }
      }
      within := true;
      if problem.Expanding(old(s), p, 0) {
        problem.RoundKeeps(old(s), p, 4);
        problem.ExpandingEnds(s, p);
      }
    }
  }
}
