/**
 The ground a path runs over, and the cost of one step: GridNodeContainer::initNode and
 Pathfinder::calcCost of src/pathfinder.cpp.
 */
module VoxelWorld {

  datatype Pos = Pos(x: int, y: int, z: int) {
    function Plus(o: Pos): Pos { Pos(x + o.x, y + o.y, z + o.z) }
    function Minus(o: Pos): Pos { Pos(x - o.x, y - o.y, z - o.z) }
    function Up(dy: int): Pos { Pos(x, y + dy, z) }
  }

  // What a map lookup tells about a node. Unloaded nodes are not walkable.
  datatype Node = NotLoaded | Open | Walkable

  datatype PathCost = NoWay | Way(value: nat, yChange: int)

  // The four cardinal directions, in search order.
  const DIRECTIONS: seq<Pos> := [Pos(1, 0, 0), Pos(-1, 0, 0), Pos(0, 0, 1), Pos(0, 0, -1)]

  datatype World = World(node: Pos -> Node, minEdge: Pos, maxEdge: Pos, maxJump: nat, maxDrop: nat) {

    predicate Inside(p: Pos) {
      && minEdge.x <= p.x <= maxEdge.x && minEdge.y <= p.y <= maxEdge.y && minEdge.z <= p.z <= maxEdge.z
    }

    // A node to stand in: loaded, open, and right above a walkable one.
    predicate Standable(p: Pos) {
      node(p) == Open && node(p.Up(-1)) == Walkable
    }

    // The node in p's column at height y.
    function At(p: Pos, y: int): Node {
      node(Pos(p.x, y, p.z))
    }

    // Scanning p's column down from height y: the first height that is not open, looking no deeper
    // than the lower limit.
    function Floor(p: Pos, y: int): (f: int)
      ensures f <= y
      ensures f == y || f >= minEdge.y
      ensures forall h :: f < h <= y ==> At(p, h) == Open
      ensures At(p, f) != Open || f <= minEdge.y
      decreases y - minEdge.y
    {
      if At(p, y) == Open && y > minEdge.y then Floor(p, y - 1) else y
    }

    // Scanning p's column up from height y past walkable nodes, no higher than the upper limit and
    // only while the column over `from` stays free.
    function Ceiling(from: Pos, p: Pos, y: int): (c: int)
      ensures c >= y
      ensures c == y || c <= maxEdge.y
      ensures forall h :: y <= h < c ==> At(p, h) == Walkable
      ensures forall h :: y <= h < c ==> At(from, h) == Open
      ensures At(p, c) != Walkable || c >= maxEdge.y || At(from, c) != Open
      decreases maxEdge.y - y
    {
      if At(p, y) == Walkable && y < maxEdge.y && At(from, y) == Open then
        Ceiling(from, p, y + 1)
      else y
    }

    // The cost of moving from pos one node in a cardinal direction, jumping or dropping as needed.
    function Cost(pos: Pos, dir: Pos): PathCost {
      var pos2 := pos.Plus(dir);
      if !Inside(pos2) then NoWay
      else match At(pos2, pos2.y)
        case NotLoaded => NoWay
        case Open =>
          (match At(pos2, pos2.y - 1)
           case NotLoaded => NoWay
           case Walkable => Way(1, 0)
           case Open =>
             var f := Floor(pos2, pos2.y - 1);
             if f >= minEdge.y && At(pos2, f) == Walkable && pos2.y - f - 1 <= maxDrop
             then Way(2, f + 1 - pos2.y) else NoWay)
        case Walkable =>
          var c := Ceiling(pos, pos2, pos2.y);
          if At(pos, pos.y + (c - pos2.y)) == Open && c <= maxEdge.y && At(pos2, c) != Walkable && c - pos2.y <= maxJump
          then Way(2, c - pos2.y) else NoWay
    }

    // ------------------------------------------------------------ the same, said outright

    ghost predicate Level(pos2: Pos, dy: int) {
      dy == 0 && Standable(pos2)
    }

    // A free fall of -dy nodes onto walkable ground inside the limits.
    ghost predicate Fall(pos2: Pos, dy: int) {
      && dy < 0 && -dy <= maxDrop && pos2.y + dy - 1 >= minEdge.y
      && At(pos2, pos2.y + dy - 1) == Walkable
      && forall h :: pos2.y + dy <= h <= pos2.y ==> At(pos2, h) == Open
    }

    // A jump of dy nodes onto a stack of walkable nodes, with head room all the way.
    ghost predicate Jump(pos: Pos, pos2: Pos, dy: int) {
      && 0 < dy <= maxJump && pos2.y + dy <= maxEdge.y
      && (forall h :: pos2.y <= h < pos2.y + dy ==> At(pos2, h) == Walkable)
      && At(pos2, pos2.y + dy) != Walkable
      && forall h :: pos2.y <= h <= pos2.y + dy ==> At(pos, h) == Open
    }

    ghost predicate CanStep(pos: Pos, dir: Pos, dy: int) {
      var pos2 := pos.Plus(dir);
      Inside(pos2) && (Level(pos2, dy) || Fall(pos2, dy) || Jump(pos, pos2, dy))
    }

    // Falling k nodes from pos, not further than maxDown, onto walkable ground inside the limits.
    ghost predicate Lands(pos: Pos, maxDown: nat, k: nat) {
      && k <= maxDown && pos.y - k - 1 >= minEdge.y
      && At(pos, pos.y - k - 1) == Walkable
      && forall h :: pos.y - k <= h <= pos.y ==> At(pos, h) == Open
    }

    // Where that ends, or from itself if there is no ground in reach.
    ghost function Ground(from: Pos, maxDown: nat): Pos {
      if exists k: nat :: Lands(from, maxDown, k)
      then var k: nat :| Lands(from, maxDown, k); Pos(from.x, from.y - k, from.z)
      else from
    }

    /** walkDownwards: down to the ground if there is any in reach, otherwise the position as it is. */
    method WalkDownwards(pos: Pos, maxDown: nat) returns (r: Pos)
      ensures forall k: nat :: Lands(pos, maxDown, k) ==> r == Pos(pos.x, pos.y - k, pos.z)
      ensures (forall k: nat :: !Lands(pos, maxDown, k)) ==> r == pos
      ensures r == Ground(pos, maxDown)
    {
      r := pos;
      if maxDown == 0 {
        return;
      }
      var y := pos.y;
      var down := 0;
      while At(pos, y) == Open && y > minEdge.y && down <= maxDown
        invariant y == pos.y - down && 0 <= down <= maxDown + 1 && (down == 0 || y >= minEdge.y)
        invariant forall h :: y < h <= pos.y ==> At(pos, h) == Open
        decreases maxDown + 1 - down
      {
        y := y - 1;
        down := down + 1;
      }
      if y >= minEdge.y && At(pos, y) == Walkable {
        if down > 0 {
          r := Pos(pos.x, y + 1, pos.z);
          assert Lands(pos, maxDown, down - 1);
        }
      }
      forall k: nat | Lands(pos, maxDown, k)
        ensures y >= minEdge.y && down == k + 1 && At(pos, y) == Walkable
      {
        assert At(pos, pos.y - k - 1) == Walkable;
        assert y >= pos.y - k ==> At(pos, y) == Open;
      }
    }

    // calcCost finds a way exactly when the move is level, a fall or a jump within the limits;
    // the change of height is determined, and a level move costs 1, any other 2.
    lemma CostMeaning(pos: Pos, dir: Pos, dy: int)
      requires dir.y == 0
      ensures CanStep(pos, dir, dy) <==> Cost(pos, dir) == Way(if dy == 0 then 1 else 2, dy)
    {
      var pos2 := pos.Plus(dir);
      assert pos2.Up(-1) == Pos(pos2.x, pos2.y - 1, pos2.z);
    }

    // A move found ends inside the limits; if its end is loaded, it ends where one can stand.
    lemma StepEnds(pos: Pos, dir: Pos)
      requires dir.y == 0 && Cost(pos, dir).Way?
      ensures var end := pos.Plus(dir).Up(Cost(pos, dir).yChange);
        Inside(end) && (node(end) != NotLoaded ==> Standable(end))
      ensures Cost(pos, dir).value == if Cost(pos, dir).yChange == 0 then 1 else 2
    {
      var dy := Cost(pos, dir).yChange;
      CostMeaning(pos, dir, dy);
      assert CanStep(pos, dir, dy);
      var pos2 := pos.Plus(dir);
      var end := pos2.Up(dy);
      assert node(end) == At(pos2, pos2.y + dy) && node(end.Up(-1)) == At(pos2, pos2.y + dy - 1);
    }

    /** Pathfinder::calcCost, with its two scanning loops. */
    method CalcCost(pos: Pos, dir: Pos) returns (cost: PathCost)
      requires dir.y == 0
      ensures cost == Cost(pos, dir)
    {
      var pos2 := pos.Plus(dir);
      if !Inside(pos2) || node(pos2) == NotLoaded {
        return NoWay;
      }
      if node(pos2) != Walkable {
        var below := node(pos2.Up(-1));
        if below == NotLoaded {
          return NoWay;
        }
        if below == Walkable {
          return Way(1, 0);
        }
        var testpos := pos2.Up(-1);
        while node(testpos) == Open && testpos.y > minEdge.y
          invariant testpos == Pos(pos2.x, testpos.y, pos2.z) && testpos.y < pos2.y
          invariant Floor(pos2, testpos.y) == Floor(pos2, pos2.y - 1)
          decreases testpos.y - minEdge.y
        {
          testpos := testpos.Up(-1);
        }
        if testpos.y >= minEdge.y && node(testpos) == Walkable && pos2.y - testpos.y - 1 <= maxDrop {
          return Way(2, testpos.y - pos2.y + 1);
        }
        return NoWay;
      }
      var targetpos, jumppos := pos2, pos;
      var headbanger := false;
      while node(targetpos) == Walkable && targetpos.y < maxEdge.y
        invariant targetpos == Pos(pos2.x, targetpos.y, pos2.z) && targetpos.y >= pos2.y
        invariant jumppos == Pos(pos.x, targetpos.y, pos.z)
        invariant Ceiling(pos, pos2, targetpos.y) == Ceiling(pos, pos2, pos2.y)
        invariant !headbanger
        decreases maxEdge.y - targetpos.y
      {
        if node(jumppos) != Open {
          headbanger := true;
          break;
        }
        targetpos := targetpos.Up(1);
        jumppos := jumppos.Up(1);
      }
      if node(jumppos) != Open {
        headbanger := true;
      }
      if !headbanger && targetpos.y <= maxEdge.y && node(targetpos) != Walkable && targetpos.y - pos2.y <= maxJump {
        return Way(2, targetpos.y - pos2.y);
      }
      return NoWay;
    }
  }
}
