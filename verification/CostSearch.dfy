/**
 Pathfinder::updateAllCosts of src/pathfinder.cpp: depth-first relaxation with branch-and-bound
 pruning. It never steps straight back, and leaves a node as soon as one move from it would exceed
 the best known cost of the target; the target's label is optimal all the same.
 */
module CostSearch {
  import opened Basics
  import opened VoxelWorld
  import opened PathGrid

  // Labels, source directions and the best known cost of the target (-1 while there is none).
  datatype Labels = Labels(cost: map<Pos, nat>, source: map<Pos, Pos>, best: int)

  const NO_DIRECTION := Pos(0, 0, 0)

  datatype Problem = Problem(area: Area, start: Pos, target: Pos) {

    ghost predicate Consistent(l: Labels) {
      && area.Linked(start, l.cost, l.source)
      && (forall p :: p in l.cost ==> (p == start <==> l.cost[p] == 0))
      && (forall p :: p in l.cost && p != start ==> area.Usable(p))
      && l.best == (if target in l.cost then l.cost[target] else -1)
    }

    // The move is no improvement any more, or the target is known to be as cheap as anything
    // reached through p.
    ghost predicate EdgeSettled(l: Labels, p: Pos, k: nat)
      requires k < 4 && p in l.cost
    {
      area.Step(p, k).None?
      || (var (next, cost) := area.Step(p, k).value; next in l.cost && l.cost[next] <= l.cost[p] + cost)
      || 0 < l.best <= l.cost[p] + 1
    }

    ghost predicate Settled(l: Labels, p: Pos)
      requires p in l.cost
    {
      forall k {:trigger EdgeSettled(l, p, k)} :: 0 <= k < 4 ==> EdgeSettled(l, p, k)
    }

    // Every labelled node outside `stack` is settled, the target excepted.
    ghost predicate AllSettled(l: Labels, stack: set<Pos>) {
      forall p {:trigger Settled(l, p)} :: p in l.cost && p !in stack && p != target ==> Settled(l, p)
    }

    // From l to m labels only improved, and none at or below c changed.
    ghost predicate Improved(l: Labels, m: Labels, c: nat) {
      && (forall p :: p in l.cost ==> p in m.cost && m.cost[p] <= l.cost[p])
      && (forall p :: p in l.cost && l.cost[p] <= c ==> m.cost[p] == l.cost[p])
      && (l.best >= 0 ==> 0 <= m.best <= l.best)
    }

    lemma EdgeStaysSettled(l: Labels, m: Labels, p: Pos, k: nat, c: nat)
      requires k < 4 && p in l.cost && p in m.cost && Improved(l, m, c) && m.cost[p] == l.cost[p]
      requires Consistent(l) && Consistent(m) && start != target
      requires EdgeSettled(l, p, k)
      ensures EdgeSettled(m, p, k)
    {}

    // All positions a search can label.
    ghost function Cells(): set<Pos> {
      var size := area.world.maxEdge.Minus(area.world.minEdge);
      (set x, y, z | 0 <= x < size.x && 0 <= y < size.y && 0 <= z < size.z :: Pos(x, y, z)) + {start}
    }

    lemma UsableIsCell(p: Pos)
      requires area.Usable(p)
      ensures p in Cells()
    {}

    // ------------------------------------------------------------ entering a node

    // What updateAllCosts finds when it is called for p.
    ghost predicate Entering(l: Labels, p: Pos, srcdir: Pos, c: nat, stack: set<Pos>) {
      && p !in stack && p in Cells() && stack <= Cells()
      && (forall q :: q in stack ==> q in l.cost && l.cost[q] < c)
      && (p in l.cost ==> l.cost[p] > c)
      && if p == start then
           c == 0 && l == Labels(map[], map[], -1) && srcdir == Pos(0, 0, 0) && area.IsSurface(start) && stack == {}
         else
           && start != target && Consistent(l) && AllSettled(l, stack) && area.Usable(p)
           && var q := p.Plus(srcdir);
           && q in stack && q != target && (q == start || area.Usable(q))
           && exists k :: 0 <= k < 4 && area.RawStep(q, k).Some? && area.RawStep(q, k).value.0 == p
                && l.cost[q] + area.RawStep(q, k).value.1 == c
    }

    // The state right after p has been labelled.
    function Label(l: Labels, p: Pos, srcdir: Pos, c: nat): Labels {
      Labels(l.cost[p := c], l.source[p := srcdir], if p == target then c else l.best)
    }

    lemma LabelKeepsConsistent(l: Labels, p: Pos, srcdir: Pos, c: nat, stack: set<Pos>)
      requires Entering(l, p, srcdir, c, stack)
      ensures Consistent(Label(l, p, srcdir, c))
    {
      if p != start {
        LabelKeepsLinked(l, p, srcdir, c, stack);
        hide Cells, Area.Linked, Area.RawStep, Area.Entered;
        assert c > 0 by {
          assert l.cost[p.Plus(srcdir)] < c;
        }
      }
    }

    lemma NewNodeEntered(l: Labels, p: Pos, srcdir: Pos, c: nat, stack: set<Pos>)
      requires Entering(l, p, srcdir, c, stack) && p != start
      ensures area.Entered(start, l.cost[p := c], l.source[p := srcdir], p)
    {
      hide Area.Usable, Area.IsSurface, Area.RawStep, Cells, Consistent, AllSettled;
      var q, cost := p.Plus(srcdir), l.cost[p := c];
      var k :| 0 <= k < 4 && area.RawStep(q, k).Some? && area.RawStep(q, k).value.0 == p
              && l.cost[q] + area.RawStep(q, k).value.1 == c;
      assert q != p;
      assert cost[q] + area.RawStep(q, k).value.1 <= cost[p];
    }

    lemma LabelKeepsLinked(l: Labels, p: Pos, srcdir: Pos, c: nat, stack: set<Pos>)
      requires Entering(l, p, srcdir, c, stack) && p != start
      ensures area.Linked(start, l.cost[p := c], l.source[p := srcdir])
    {
      NewNodeEntered(l, p, srcdir, c, stack);
      assert Consistent(l);
      hide Area.Usable, Area.IsSurface, Area.RawStep, Cells, AllSettled, Area.Entered;
      var m := Labels(l.cost[p := c], l.source[p := srcdir], l.best);
      forall x {:trigger area.Entered(start, m.cost, m.source, x)} | x in m.cost && x != start
        ensures area.Entered(start, m.cost, m.source, x)
      {
        if x != p {
          assert area.Entered(start, l.cost, l.source, x);
          RelabelKeepsEntered(l, m, p, x);
        }
      }
    }

    lemma RelabelKeepsEntered(l: Labels, m: Labels, p: Pos, x: Pos)
      requires area.Linked(start, l.cost, l.source) && x in l.cost && x != start && x != p
      requires forall y :: y in l.source && y != p ==> y in m.source && m.source[y] == l.source[y]
      requires forall y :: y in l.cost && y != p ==> y in m.cost && m.cost[y] == l.cost[y]
      requires p in l.cost ==> p in m.cost && m.cost[p] <= l.cost[p]
      ensures area.Entered(start, m.cost, m.source, x)
    {
      hide Area.Usable, Area.IsSurface, Area.RawStep;
      var q, k := area.Parent(start, l.cost, l.source, x);
      assert m.cost[q] + area.RawStep(q, k).value.1 <= m.cost[x];
    }

    lemma LabelImproves(l: Labels, p: Pos, srcdir: Pos, c: nat, stack: set<Pos>)
      requires Entering(l, p, srcdir, c, stack)
      ensures Improved(l, Label(l, p, srcdir, c), c)
    {}

    lemma LabelKeepsSettled(l: Labels, p: Pos, srcdir: Pos, c: nat, stack: set<Pos>)
      requires Entering(l, p, srcdir, c, stack)
      ensures AllSettled(Label(l, p, srcdir, c), stack + {p})
    {
      var m := Label(l, p, srcdir, c);
      LabelKeepsConsistent(l, p, srcdir, c, stack);
      LabelImproves(l, p, srcdir, c, stack);
      if p != start {
        hide Entering, EdgeSettled, Consistent, Improved, Cells;
        forall x {:trigger Settled(m, x)} | x in m.cost && x !in stack + {p} && x != target
          ensures Settled(m, x)
        {
          assert Settled(l, x);
          forall k {:trigger EdgeSettled(m, x, k)} | 0 <= k < 4 ensures EdgeSettled(m, x, k) {
            assert EdgeSettled(l, x, k);
            EdgeStaysSettled(l, m, x, k, c);
          }
        }
      }
    }

    // ------------------------------------------------------------ leaving a node

    // During the direction loop at p: p is labelled c, the first n directions are settled.
    ghost predicate Looping(l0: Labels, l: Labels, p: Pos, c: nat, stack: set<Pos>, n: nat)
      requires n <= 4
    {
      && p != target && start != target && p in l.cost && l.cost[p] == c
      && Consistent(l) && Improved(l0, l, c)
      && AllSettled(l, stack + {p})
      && forall k {:trigger EdgeSettled(l, p, k)} :: 0 <= k < n ==> EdgeSettled(l, p, k)
    }

    ghost predicate Left(l0: Labels, l: Labels, p: Pos, c: nat, stack: set<Pos>) {
      p in l.cost && l.cost[p] == c && Consistent(l) && Improved(l0, l, c) && AllSettled(l, stack)
    }

    // All four directions settled: p itself is settled.
    lemma LoopEnds(l0: Labels, l: Labels, p: Pos, c: nat, stack: set<Pos>)
      requires Looping(l0, l, p, c, stack, 4)
      ensures Left(l0, l, p, c, stack)
    {
      hide EdgeSettled, Consistent, Improved;
      assert Settled(l, p);
      forall x {:trigger Settled(l, x)} | x in l.cost && x !in stack && x != target ensures Settled(l, x) {}
    }

    // Giving up on p because the target is known to be nearer settles every direction.
    lemma GivingUpSettles(l0: Labels, l: Labels, p: Pos, c: nat, stack: set<Pos>, n: nat, k: nat)
      requires n <= 4 && Looping(l0, l, p, c, stack, n)
      requires k < 4 && area.Step(p, k).Some? && 0 < l.best < c + area.Step(p, k).value.1
      ensures Looping(l0, l, p, c, stack, 4)
    {
      area.StepCost(p, k);
      forall j {:trigger EdgeSettled(l, p, j)} | 0 <= j < 4 ensures EdgeSettled(l, p, j) {}
    }

    lemma LoopStarts(l0: Labels, l: Labels, p: Pos, srcdir: Pos, c: nat, stack: set<Pos>)
      requires Entering(l0, p, srcdir, c, stack) && p != target && l == Label(l0, p, srcdir, c)
      requires Consistent(l) && Improved(l0, l, c) && AllSettled(l, stack + {p})
      ensures Looping(l0, l, p, c, stack, 0)
    {}

    lemma TargetLeft(l0: Labels, l: Labels, p: Pos, srcdir: Pos, c: nat, stack: set<Pos>)
      requires Entering(l0, p, srcdir, c, stack) && p == target && l == Label(l0, p, srcdir, c)
      requires Consistent(l) && Improved(l0, l, c) && AllSettled(l, stack + {p})
      ensures Left(l0, l, p, c, stack) && target in l.cost
    {}

    lemma SkipBackMove(l0: Labels, l: Labels, p: Pos, srcdir: Pos, c: nat, stack: set<Pos>, n: nat)
      requires Entering(l0, p, srcdir, c, stack) && n < 4 && Looping(l0, l, p, c, stack, n)
      requires DIRECTIONS[n] == srcdir
      ensures Looping(l0, l, p, c, stack, n + 1)
    {
      BackMoveSettled(l0, l, p, srcdir, c, stack, n);
    }

    lemma SkipNoWay(l0: Labels, l: Labels, p: Pos, c: nat, stack: set<Pos>, n: nat)
      requires n < 4 && Looping(l0, l, p, c, stack, n) && area.Step(p, n).None?
      ensures Looping(l0, l, p, c, stack, n + 1)
    {}

    lemma SkipNoGain(l0: Labels, l: Labels, p: Pos, c: nat, stack: set<Pos>, n: nat)
      requires n < 4 && Looping(l0, l, p, c, stack, n) && area.Step(p, n).Some?
      requires var (next, cost) := area.Step(p, n).value; next in l.cost && l.cost[next] <= c + cost
      ensures Looping(l0, l, p, c, stack, n + 1)
    {}

    lemma StackGrows(l0: Labels, p: Pos, srcdir: Pos, c: nat, stack: set<Pos>)
      requires Entering(l0, p, srcdir, c, stack)
      ensures Cells() - (stack + {p}) < Cells() - stack
    {
      assert p in Cells() - stack;
    }

    // The move straight back leads to the node p was entered from, which is cheaper.
    lemma BackMoveSettled(l0: Labels, l: Labels, p: Pos, srcdir: Pos, c: nat, stack: set<Pos>, k: nat)
      requires Entering(l0, p, srcdir, c, stack) && Improved(l0, l, c)
      requires k < 4 && DIRECTIONS[k] == srcdir && p in l.cost && l.cost[p] == c
      ensures EdgeSettled(l, p, k)
    {
      var q := p.Plus(srcdir);
      if area.Step(p, k).Some? {
        area.StepBack(p, k);
      }
    }

    // Coming back from a deeper call keeps what the loop has settled.
    lemma DeeperCallKeepsLoop(l0: Labels, l: Labels, m: Labels, p: Pos, c: nat, stack: set<Pos>, n: nat, next: Pos, d: nat)
      requires n < 4 && Looping(l0, l, p, c, stack, n) && c < d
      requires area.Step(p, n).Some? && area.Step(p, n).value.0 == next && c + area.Step(p, n).value.1 == d
      requires Left(l, m, next, d, stack + {p})
      ensures Looping(l0, m, p, c, stack, n + 1)
      ensures target in l.cost ==> target in m.cost
    {
      hide Consistent;
      assert m.cost[p] == c;
      forall k {:trigger EdgeSettled(m, p, k)} | 0 <= k < n + 1 ensures EdgeSettled(m, p, k) {
        if k < n {
          assert EdgeSettled(l, p, k);
          EdgeStaysSettled(l, m, p, k, d);
        }
      }
    }

    // The precondition of the deeper call.
    lemma EntersNext(l0: Labels, l: Labels, p: Pos, srcdir: Pos, c: nat, stack: set<Pos>, n: nat)
      requires Entering(l0, p, srcdir, c, stack) && n < 4 && Looping(l0, l, p, c, stack, n)
      requires area.Step(p, n).Some?
      requires var (next, cost) := area.Step(p, n).value; next in l.cost ==> l.cost[next] > c + cost
      ensures var (next, cost) := area.Step(p, n).value;
        Entering(l, next, p.Minus(next), c + cost, stack + {p})
    {
      var (next, cost) := area.Step(p, n).value;
      area.StepCost(p, n);
      UsableIsCell(next);
      assert next.Plus(p.Minus(next)) == p;
      assert next != start by { assert start in l.cost && l.cost[start] == 0; }
      assert area.RawStep(p, n).Some? && area.RawStep(p, n).value.0 == next;
    }

    // ------------------------------------------------------------ what the result tells

    // One level move leads from p to the target.
    ghost predicate Direct(p: Pos, srcdir: Pos, k: nat)
      requires k < 4
    {
      DIRECTIONS[k] != srcdir && area.Step(p, k) == Some((target, 1))
    }

    ghost predicate Uneven(p: Pos, srcdir: Pos, k: nat)
      requires k < 4
    {
      DIRECTIONS[k] != srcdir && area.Step(p, k).Some? && area.Step(p, k).value.1 == 2
    }

    // Among the first n directions the level move to the target comes before a jump or a fall.
    ghost predicate DeafBefore(p: Pos, srcdir: Pos, n: nat)
      requires n <= 4
    {
      exists i: nat, k: nat :: i < k < n && Direct(p, srcdir, i) && Uneven(p, srcdir, k)
    }

    // A node that finds the target next to it and then gives up, forgetting that it found it.
    ghost predicate Deaf(p: Pos) {
      p != target && DeafBefore(p, NO_DIRECTION, 4)
    }

    // No node the search can come to is deaf.
    ghost predicate Quiet() {
      forall q :: area.Reachable(start, q) ==> !Deaf(q)
    }

    // Direction k leads from p to the target, by a move of any kind.
    ghost predicate Leads(p: Pos, srcdir: Pos, k: nat)
      requires k < 4
    {
      DIRECTIONS[k] != srcdir && area.Step(p, k).Some? && area.Step(p, k).value.0 == target
    }

    // Some node the search can come to has a move to the target and is not deaf.
    ghost predicate Heard() {
      exists q, k: nat :: k < 4 && area.Reachable(start, q) && q != target && !Deaf(q) && Leads(q, NO_DIRECTION, k)
    }

    ghost predicate NextToTarget(p: Pos) {
      p != target && exists i: nat :: i < 4 && Direct(p, NO_DIRECTION, i)
    }

    // The target got a label, or a better one.
    ghost predicate Reached(l0: Labels, l: Labels) {
      target in l.cost && (target in l0.cost ==> l.cost[target] < l0.cost[target])
    }

    // The node from which the target was given its label is not deaf.
    ghost predicate Hears(l: Labels) {
      target in l.source && !Deaf(target.Plus(l.source[target]))
    }

    // The target's source direction changes only with its label.
    ghost predicate SameOrigin(l0: Labels, l: Labels) {
      !Reached(l0, l) && target in l0.source ==> target in l.source && l.source[target] == l0.source[target]
    }

    // During the direction loop at p, entered with labels l0.
    ghost predicate Telling(l0: Labels, l: Labels, p: Pos, srcdir: Pos, c: nat, found: bool, n: nat)
      requires n <= 4
    {
      && p != target
      && (found ==> Reached(l0, l))
      && (found ==> Heard() || exists i: nat :: i < n && Leads(p, srcdir, i))
      && (Reached(l0, l) ==> l.cost[target] > c)
      && (Reached(l0, l) && l.cost[target] == c + 1 ==>
            && found && (exists i: nat :: i < n && Direct(p, srcdir, i))
            && target in l.source && target.Plus(l.source[target]) == p)
      && (Reached(l0, l) && Hears(l) ==> found) && SameOrigin(l0, l)
      && (forall i: nat :: i < n && Direct(p, srcdir, i) ==> target in l.cost && l.cost[target] <= c + 1)
      && (DeafBefore(p, srcdir, n) ==> !found)
    }

    // What a call for p with cost c returns.
    ghost predicate Told(l0: Labels, l: Labels, p: Pos, srcdir: Pos, c: nat, found: bool) {
      && (found ==> Reached(l0, l))
      && (Reached(l0, l) ==> l.cost[target] >= c)
      && (Reached(l0, l) && Hears(l) ==> found) && SameOrigin(l0, l)
      && if p == target then found && l.cost[target] == c && target in l.source && l.source[target] == srcdir else
           && (Reached(l0, l) ==> l.cost[target] > c)
           && (found ==> Heard())
           && (DeafBefore(p, srcdir, 4) ==> !found)
           && (((target in l0.cost ==> l0.cost[target] > c + 1) && !DeafBefore(p, srcdir, 4)
                && exists i: nat :: i < 4 && Direct(p, srcdir, i)) ==> found)
    }

    lemma TellTarget(l0: Labels, p: Pos, srcdir: Pos, c: nat, stack: set<Pos>)
      requires Entering(l0, p, srcdir, c, stack) && p == target
      ensures Told(l0, Label(l0, p, srcdir, c), p, srcdir, c, true)
    {}

    lemma TellStarts(l0: Labels, p: Pos, srcdir: Pos, c: nat)
      requires p != target
      ensures Telling(l0, Label(l0, p, srcdir, c), p, srcdir, c, false, 0)
    {}

    // A direction not taken: back, no way, or no gain.
    lemma TellSkips(l0: Labels, l: Labels, p: Pos, srcdir: Pos, c: nat, stack: set<Pos>, found: bool, n: nat)
      requires n < 4 && Telling(l0, l, p, srcdir, c, found, n) && Looping(l0, l, p, c, stack, n)
      requires Uneven(p, srcdir, n) ==> !(0 < l.best < c + 2)
      requires Direct(p, srcdir, n) ==> target in l.cost && l.cost[target] <= c + 1
      ensures Telling(l0, l, p, srcdir, c, found, n + 1)
    {
      hide Looping, DeafBefore, Direct, Uneven, Reached, Heard, Leads;
      NotYetDeaf(l0, l, p, srcdir, c, stack, found, n);
    }

    // Past the level move to the target a jump or fall is not tried any more.
    lemma NotYetDeaf(l0: Labels, l: Labels, p: Pos, srcdir: Pos, c: nat, stack: set<Pos>, found: bool, n: nat)
      requires n < 4 && Telling(l0, l, p, srcdir, c, found, n) && Looping(l0, l, p, c, stack, n)
      requires Uneven(p, srcdir, n) ==> !(0 < l.best < c + 2)
      ensures DeafBefore(p, srcdir, n + 1) ==> DeafBefore(p, srcdir, n)
    {
      hide AllSettled, EdgeSettled, Improved, Direct, Uneven, Area.Linked, Reached, Heard, Leads;
      if i: nat :| i < n && Direct(p, srcdir, i) {
        assert 0 < l.best <= c + 1;
      }
    }

    // A direction taken.
    lemma TellDeeper(l0: Labels, l: Labels, m: Labels, p: Pos, srcdir: Pos, c: nat, stack: set<Pos>, found: bool, n: nat, deeper: bool)
      requires n < 4 && Telling(l0, l, p, srcdir, c, found, n) && Looping(l0, l, p, c, stack, n)
      requires area.Step(p, n).Some? && DIRECTIONS[n] != srcdir
      requires var (next, cost) := area.Step(p, n).value;
        && !(0 < l.best < c + cost)
        && Left(l, m, next, c + cost, stack + {p}) && Told(l, m, next, p.Minus(next), c + cost, deeper)
      ensures Telling(l0, m, p, srcdir, c, found || deeper, n + 1)
    {
      hide Looping, Left, Deaf, Area.Step, Heard, Quiet, Leads, Direct, Uneven;
      TargetOnlyImproves(l0, l, m, p, srcdir, c, stack, n);
      NotYetDeaf(l0, l, p, srcdir, c, stack, found, n);
      assert Reached(l0, m) <==> Reached(l0, l) || Reached(l, m);
      if Reached(l, m) && m.cost[target] == c + 1 {
        assert Direct(p, srcdir, n);
      }
      if deeper && area.Step(p, n).value.0 == target {
        assert Leads(p, srcdir, n);
      }
    }

    // What a deeper call changes that matters to the result, and what the direction taken is.
    lemma TargetOnlyImproves(l0: Labels, l: Labels, m: Labels, p: Pos, srcdir: Pos, c: nat, stack: set<Pos>, n: nat)
      requires n < 4 && Looping(l0, l, p, c, stack, n) && area.Step(p, n).Some? && DIRECTIONS[n] != srcdir
      requires var (next, cost) := area.Step(p, n).value; Left(l, m, next, c + cost, stack + {p})
      ensures target in l0.cost ==> target in l.cost && l.cost[target] <= l0.cost[target]
      ensures target in l.cost ==> target in l.source && target in m.cost && m.cost[target] <= l.cost[target]
      ensures var (next, cost) := area.Step(p, n).value;
        && cost >= 1 && (Uneven(p, srcdir, n) <==> cost == 2)
        && (Direct(p, srcdir, n) <==> next == target && cost == 1) && (Leads(p, srcdir, n) <==> next == target)
    {
      hide AllSettled, EdgeSettled, Area.Step, Area.RawStep, Area.Usable, Area.IsSurface;
      if target in l.cost {
        assert area.Entered(start, l.cost, l.source, target);
      }
      CostPositive(p, n);
    }

    // Leaving p because the target is known to be nearer.
    lemma TellGivesUp(l0: Labels, l: Labels, p: Pos, srcdir: Pos, c: nat, stack: set<Pos>, found: bool, n: nat)
      requires n < 4 && Telling(l0, l, p, srcdir, c, found, n) && Looping(l0, l, p, c, stack, n)
      requires area.Step(p, n).Some? && DIRECTIONS[n] != srcdir && 0 < l.best < c + area.Step(p, n).value.1
      ensures Told(l0, l, p, srcdir, c, false)
    {
      area.StepCost(p, n);
      LabelledIsReachable(l, p);
      assert target in l.cost && l.best == l.cost[target];
      hide AllSettled, EdgeSettled, Improved, Consistent, Looping, Area.Step, Area.Reachable, Heard;
      if Reached(l0, l) {
        var i: nat :| i < n && Direct(p, srcdir, i);
        assert Uneven(p, srcdir, n);
        assert DeafBefore(p, srcdir, 4);
        DeafAnyway(p, srcdir);
      }
    }

    lemma TellEnds(l0: Labels, l: Labels, p: Pos, srcdir: Pos, c: nat, stack: set<Pos>, found: bool)
      requires Entering(l0, p, srcdir, c, stack) && Looping(l0, l, p, c, stack, 4)
      requires Telling(l0, l, p, srcdir, c, found, 4)
      ensures Told(l0, l, p, srcdir, c, found)
    {
      hide Direct, Uneven, DeafBefore, Deaf, Entering, AllSettled, EdgeSettled, Improved, Area.Reachable, Area.Step;
      LabelledIsReachable(l, p);
      if found && !Heard() {
        if Deaf(p) {
          DeafOnEntry(l0, p, srcdir, c, stack);
        }
        var i: nat :| i < 4 && Leads(p, srcdir, i);
        NotBackToNowhere(p, srcdir, i);
      }
    }

    lemma LabelledIsReachable(l: Labels, p: Pos)
      requires Consistent(l) && p in l.cost
      ensures area.Reachable(start, p)
    {
      hide Area.Linked;
      var ks := area.ChainIsRoute(start, l.cost, l.source, p);
    }

    // No move goes nowhere, so nothing is skipped at the start of a search.
    lemma NotBackToNowhere(p: Pos, srcdir: Pos, k: nat)
      requires k < 4
      ensures Leads(p, srcdir, k) ==> Leads(p, NO_DIRECTION, k)
    {
      hide Area.Step;
    }

    lemma DeafAnyway(p: Pos, srcdir: Pos)
      requires p != target && DeafBefore(p, srcdir, 4)
      ensures Deaf(p)
    {
      hide Area.Step;
      var i: nat, k: nat :| i < k < 4 && Direct(p, srcdir, i) && Uneven(p, srcdir, k);
      assert Direct(p, NO_DIRECTION, i) && Uneven(p, NO_DIRECTION, k);
    }

    // The move back to where p was entered from is level and does not lead to the target.
    lemma DeafOnEntry(l: Labels, p: Pos, srcdir: Pos, c: nat, stack: set<Pos>)
      requires Entering(l, p, srcdir, c, stack) && Deaf(p)
      ensures DeafBefore(p, srcdir, 4)
    {
      hide Area.Step, AllSettled, Cells;
      var i: nat, k: nat :| i < k < 4 && Direct(p, NO_DIRECTION, i) && Uneven(p, NO_DIRECTION, k);
      if p != start {
        if DIRECTIONS[i] == srcdir {
          area.StepBack(p, i);
        }
        if DIRECTIONS[k] == srcdir {
          area.StepBack(p, k);
        }
      }
      assert Direct(p, srcdir, i) && Uneven(p, srcdir, k);
    }

    // A last node of a cheapest route: one move from it leads to the target, at the least cost of all.
    ghost predicate LastOnCheapest(q: Pos) {
      exists ks: seq<nat>, k: nat :: CheapestBy(q, ks, k)
    }

    ghost predicate CheapestBy(q: Pos, ks: seq<nat>, k: nat) {
      && k < 4 && area.IsRoute(start, ks, q) && area.Step(q, k).Some? && area.Step(q, k).value.0 == target
      && forall js :: area.IsRoute(start, js, target) ==> area.RouteCost(start, ks) + area.Step(q, k).value.1 <= area.RouteCost(start, js)
    }

    // No last node of a cheapest route is deaf.
    ghost predicate CheapestHear() {
      forall q :: LastOnCheapest(q) ==> !Deaf(q)
    }

    // What a search from a standing place returns.
    ghost predicate Answer(found: bool) {
      && (found ==> area.Reachable(start, target))
      && (found ==> start == target || Heard())
      && (CheapestHear() ==> (found <==> area.Reachable(start, target)))
      && (NextToTarget(start) ==> (found <==> !Deaf(start)))
    }

    // It is enough that no node the search can come to is deaf.
    lemma QuietIsEnough(found: bool)
      requires Answer(found) && Quiet()
      ensures found <==> area.Reachable(start, target)
    {
      hide Deaf, Area.Step;
      forall q | LastOnCheapest(q) ensures !Deaf(q) {
        var ks: seq<nat>, k: nat :| CheapestBy(q, ks, k);
        assert area.Reachable(start, q);
      }
    }

    // The node the target has its label from in the end is the last of a cheapest route.
    lemma OriginIsCheapest(l: Labels)
      requires Consistent(l) && TargetLabelOptimal(l) && target in l.cost && start != target
      ensures target in l.source && LastOnCheapest(target.Plus(l.source[target]))
    {
      hide Area.Step, Area.RawStep, Area.Usable, Area.IsSurface, Area.Reachable;
      var q, k := area.Parent(start, l.cost, l.source, target);
      OriginMove(l, q, k);
      var ks := area.ChainIsRoute(start, l.cost, l.source, q);
      assert CheapestBy(q, ks, k);
    }

    lemma OriginMove(l: Labels, q: Pos, k: nat)
      requires Consistent(l) && target in l.cost && start != target && k < 4 && area.RawStep(q, k).Some? && area.RawStep(q, k).value.0 == target
      ensures area.Step(q, k) == area.RawStep(q, k)
    {}

    lemma FirstCallAnswers(l: Labels, found: bool)
      requires Told(Labels(map[], map[], -1), l, start, NO_DIRECTION, 0, found)
      requires Consistent(l) && TargetLabelOptimal(l)
      ensures Answer(found)
    {
      hide Direct, DeafBefore, Area.Reachable, Heard, LastOnCheapest, Consistent;
      if target in l.cost && start != target {
        OriginIsCheapest(l);
      }
    }

    lemma NextIsReachable(p: Pos)
      requires NextToTarget(p)
      ensures area.Reachable(p, target)
    {
      var i: nat :| i < 4 && Direct(p, NO_DIRECTION, i);
      assert [i][1..] == [];
      assert area.Follow(target, []) == Some((target, 0));
      assert area.IsRoute(p, [i], target);
    }

    // ------------------------------------------------------------ optimality

    // With everything settled, no route from a labelled node beats the target's label.
    lemma {:induction false} SettledBoundsRoutes(l: Labels, p: Pos, ks: seq<nat>)
      requires Consistent(l) && AllSettled(l, {}) && p in l.cost
      requires area.IsRoute(p, ks, target)
      ensures target in l.cost && l.cost[target] <= l.cost[p] + area.RouteCost(p, ks)
      decreases |ks|
    {
      hide Area.Step, Area.Linked, Area.Usable;
      if p == target {
      } else {
        assert ks != [];
        assert Settled(l, p);
        assert EdgeSettled(l, p, ks[0]);
        var (next, cost) := area.Step(p, ks[0]).value;
        CostPositive(p, ks[0]);
        if next in l.cost && l.cost[next] <= l.cost[p] + cost {
          SettledBoundsRoutes(l, next, ks[1..]);
        }
      }
    }

    lemma CostPositive(p: Pos, k: nat)
      requires k < 4 && area.Step(p, k).Some?
      ensures area.Step(p, k).value.1 >= 1
    {
      area.StepCost(p, k);
    }

    // The label of the target is the least cost of any route, and missing if there is none.
    ghost predicate TargetLabelOptimal(l: Labels) {
      && (target in l.cost <==> area.Reachable(start, target))
      && (target in l.cost ==>
        && (exists ks :: area.IsRoute(start, ks, target) && area.RouteCost(start, ks) == l.cost[target])
        && (forall ks :: area.IsRoute(start, ks, target) ==> l.cost[target] <= area.RouteCost(start, ks)))
    }

    lemma SettledIsOptimal(l: Labels)
      requires Consistent(l) && AllSettled(l, {})
      ensures TargetLabelOptimal(l)
    {
      hide AllSettled;
      forall ks | area.IsRoute(start, ks, target)
        ensures target in l.cost && l.cost[target] <= area.RouteCost(start, ks)
      {
        SettledBoundsRoutes(l, start, ks);
      }
      if target in l.cost {
        var ks := area.ChainIsRoute(start, l.cost, l.source, target);
        assert area.RouteCost(start, ks) == l.cost[target];
      }
    }

    // Following the source directions back from the target gives a cheapest route.
    lemma BuiltPathIsCheapest(l: Labels) returns (ks: seq<nat>)
      requires Consistent(l) && TargetLabelOptimal(l) && target in l.cost
      ensures area.IsRoute(start, ks, target) && area.RouteCost(start, ks) == l.cost[target]
      ensures area.Trail(start, ks) == Backwards(area.Chain(start, l.cost, l.source, target))
      ensures forall js :: area.IsRoute(start, js, target) ==> area.RouteCost(start, ks) <= area.RouteCost(start, js)
    {
      ks := area.ChainIsRoute(start, l.cost, l.source, target);
    }
  }

  class Pathfinder {
    const problem: Problem
    var labels: Labels

    constructor (problem: Problem)
      ensures this.problem == problem && labels == Labels(map[], map[], -1)
    {
      this.problem := problem;
      labels := Labels(map[], map[], -1);
    }

    /** Pathfinder::updateAllCosts; `stack` holds the nodes whose direction loops are under way. */
    method UpdateAllCosts(ipos: Pos, srcdir: Pos, currentCost: nat, ghost stack: set<Pos>) returns (found: bool)
      requires problem.Entering(labels, ipos, srcdir, currentCost, stack)
      modifies this
      ensures problem.Left(old(labels), labels, ipos, currentCost, stack)
      ensures problem.Told(old(labels), labels, ipos, srcdir, currentCost, found)
      decreases problem.Cells() - stack
    {
      hide Problem.Consistent, Problem.Improved, Problem.AllSettled, Problem.EdgeSettled, Problem.Cells, Problem.Looping, Problem.Entering, Problem.Left, Problem.Telling, Problem.Told, Problem.DeafBefore, Area.Step;
      ghost var l0 := labels;
      problem.LabelKeepsConsistent(labels, ipos, srcdir, currentCost, stack);
      problem.LabelImproves(labels, ipos, srcdir, currentCost, stack);
      problem.LabelKeepsSettled(labels, ipos, srcdir, currentCost, stack);
      labels := problem.Label(labels, ipos, srcdir, currentCost);
      if ipos == problem.target {
        problem.TargetLeft(l0, labels, ipos, srcdir, currentCost, stack);
        problem.TellTarget(l0, ipos, srcdir, currentCost, stack);
        return true;
      }
      found := false;
      problem.LoopStarts(l0, labels, ipos, srcdir, currentCost, stack);
      problem.TellStarts(l0, ipos, srcdir, currentCost);
      for n := 0 to 4
        invariant problem.Looping(l0, labels, ipos, currentCost, stack, n)
        invariant problem.Telling(l0, labels, ipos, srcdir, currentCost, found, n)
      {
        if DIRECTIONS[n] == srcdir {
          problem.TellSkips(l0, labels, ipos, srcdir, currentCost, stack, found, n);
          problem.SkipBackMove(l0, labels, ipos, srcdir, currentCost, stack, n);
          continue;
        }
        var step := problem.area.Step(ipos, n);
        if step.None? {
          problem.TellSkips(l0, labels, ipos, srcdir, currentCost, stack, found, n);
          problem.SkipNoWay(l0, labels, ipos, currentCost, stack, n);
          continue;
        }
        var (next, cost) := step.value;
        var newCost := currentCost + cost;
        problem.CostPositive(ipos, n);
        if 0 < labels.best < newCost {
          problem.TellGivesUp(l0, labels, ipos, srcdir, currentCost, stack, found, n);
          problem.GivingUpSettles(l0, labels, ipos, currentCost, stack, n, n);
          problem.LoopEnds(l0, labels, ipos, currentCost, stack);
          return false;
        }
        if next !in labels.cost || labels.cost[next] > newCost {
          problem.EntersNext(l0, labels, ipos, srcdir, currentCost, stack, n);
          problem.StackGrows(l0, ipos, srcdir, currentCost, stack);
          ghost var l1 := labels;
          var deeper := UpdateAllCosts(next, ipos.Minus(next), newCost, stack + {ipos});
          problem.TellDeeper(l0, l1, labels, ipos, srcdir, currentCost, stack, found, n, deeper);
          problem.DeeperCallKeepsLoop(l0, l1, labels, ipos, currentCost, stack, n, next, newCost);
          if deeper {
            found := true;
          }
        } else {
          problem.TellSkips(l0, labels, ipos, srcdir, currentCost, stack, found, n);
          problem.SkipNoGain(l0, labels, ipos, currentCost, stack, n);
        }
      }
      problem.TellEnds(l0, labels, ipos, srcdir, currentCost, stack, found);
      problem.LoopEnds(l0, labels, ipos, currentCost, stack);
    }

    /**
     The search a path request starts. It ends with the target labelled by the least cost of any
     route, or unlabelled if there is no route. The result itself is less reliable: giving up on a
     node returns false whatever its earlier directions had found.
     */
    method UpdateFromStart() returns (found: bool)
      requires labels == Labels(map[], map[], -1) && problem.area.IsSurface(problem.start)
      modifies this
      ensures problem.Consistent(labels) && problem.TargetLabelOptimal(labels)
      ensures problem.Answer(found)
      ensures problem.target in labels.cost && problem.Hears(labels) ==> found
    {
      found := UpdateAllCosts(problem.start, NO_DIRECTION, 0, {});
      problem.SettledIsOptimal(labels);
      problem.FirstCallAnswers(labels, found);
    }
  }
}
