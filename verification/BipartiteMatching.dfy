/**
 The maximum-cardinality matching that decides group recipes: the Hopcroft-Karp search of
 src/craftdef.cpp (hopcroft_karp_can_match_all), over the same three u16 buffers, with the same
 dummy index `nil == graph_size` and the same sentinel `inf == UINT16_MAX`.
 */
module BipartiteMatching {
  import opened Basics
  import opened Counting

  const SHAPELESS_GROUPS_MAX := 30000

  // graph[u] lists the neighbours of left node u. Both sides have |graph| nodes.
  type Graph = seq<seq<u16>>

  predicate IsGraph(g: Graph) {
    && |g| <= SHAPELESS_GROUPS_MAX
    && forall u, k :: 0 <= u < |g| && 0 <= k < |g[u]| ==> g[u][k] < |g|
  }

  ghost predicate PerfectMatching(g: Graph, m: seq<nat>) {
    && |m| == |g|
    && (forall u :: 0 <= u < |g| ==> m[u] in g[u])
    && (forall u, w :: 0 <= u < w < |g| ==> m[u] != m[w])
  }

  ghost predicate CanMatchAll(g: Graph) {
    exists m :: PerfectMatching(g, m)
  }

  ghost function Neighbours(g: Graph, s: set<nat>): set<nat> {
    set u, v | u in s && u < |g| && v in g[u] :: v
  }

  // A set of left nodes with fewer neighbours than members.
  ghost predicate HallViolator(g: Graph, s: set<nat>) {
    && (forall u :: u in s ==> u < |g|)
    && |Neighbours(g, s)| < |s|
  }

  // ---------------------------------------------------------------- counting

  // The easy half of Hall's theorem.
  lemma HallViolatorBlocks(g: Graph, s: set<nat>)
    requires HallViolator(g, s)
    ensures !CanMatchAll(g)
  {
    if m :| PerfectMatching(g, m) {
      InjectionBound(m, s, Neighbours(g, s));
    }
  }

  // ---------------------------------------------------------------- matching states

  ghost predicate Shape(n: nat, p: seq<nat>) {
    |p| == n + 1 && forall x :: 0 <= x <= n ==> p[x] <= n
  }

  // Every matched left node sits on a graph edge and is pointed back at.
  ghost predicate LeftOk(g: Graph, pu: seq<nat>, pv: seq<nat>)
    requires Shape(|g|, pu) && Shape(|g|, pv)
  {
    forall u :: 0 <= u < |g| && pu[u] != |g| ==> pu[u] in g[u] && pv[pu[u]] == u
  }

  // Every matched right node other than `except` is pointed back at.
  ghost predicate RightOk(n: nat, pu: seq<nat>, pv: seq<nat>, except: int)
    requires Shape(n, pu) && Shape(n, pv)
  {
    forall v :: 0 <= v < n && v != except && pv[v] != n ==> pu[pv[v]] == v
  }

  // All a BFS needs to know about the pairs: whoever a right node points at is matched.
  ghost predicate PointsAtMatched(n: nat, pu: seq<nat>, pv: seq<nat>) {
    && Shape(n, pu) && Shape(n, pv)
    && forall v :: 0 <= v < n && pv[v] != n ==> pu[pv[v]] != n
  }

  // pair_u and pair_v are mutually inverse along graph edges.
  ghost predicate Matching(g: Graph, pu: seq<nat>, pv: seq<nat>) {
    && Shape(|g|, pu) && Shape(|g|, pv)
    && LeftOk(g, pu, pv) && RightOk(|g|, pu, pv, |g|)
  }

  ghost function Matched(n: nat, pu: seq<nat>): set<nat>
    requires |pu| == n + 1
  {
    set u: nat | 0 <= u < n && pu[u] != n
  }

  // ---------------------------------------------------------------- layers

  // x is reached from left node p: along an edge p-v and back along the matched edge of v.
  ghost predicate Steps(g: Graph, pv: seq<nat>, p: int, x: int)
    requires Shape(|g|, pv)
  {
    0 <= p < |g| && exists k :: 0 <= k < |g[p]| && g[p][k] < |g| && pv[g[p][k]] == x
  }

  // x is entered from the layer just before it.
  ghost predicate Entered(g: Graph, pv: seq<nat>, d: seq<nat>, x: int)
    requires Shape(|g|, pv) && |d| == |g| + 1 && 0 <= x <= |g|
  {
    exists p {:trigger Steps(g, pv, p, x)} :: Steps(g, pv, p, x) && d[p] + 1 == d[x]
  }

  // The layering a BFS leaves behind: the unmatched left nodes are layer 0, every later layer is
  // entered from the previous one, nothing before nil's layer steps past the next layer, and no
  // finite distance comes near the sentinel.
  ghost predicate Layered(g: Graph, pu: seq<nat>, pv: seq<nat>, d: seq<nat>)
    requires Shape(|g|, pu) && Shape(|g|, pv) && |d| == |g| + 1
  {
    && (forall u :: 0 <= u < |g| ==> (d[u] == 0 <==> pu[u] == |g|))
    && d[|g|] != 0
    && (forall x :: 0 <= x <= |g| && d[x] != UINT16_MAX ==> d[x] <= |g|)
    && (forall x {:trigger Entered(g, pv, d, x)} :: 0 <= x <= |g| && d[x] != UINT16_MAX && d[x] != 0 ==> Entered(g, pv, d, x))
    && (forall u, x {:trigger Steps(g, pv, u, x)} ::
          0 <= u < |g| && 0 <= x <= |g| && d[u] < d[|g|] && Steps(g, pv, u, x) ==> d[x] <= d[u] + 1)
  }

  // Between d and e only dead ends were closed: a node set to inf has no open successor left.
  ghost predicate OnlyDeadEndsClosed(g: Graph, pv: seq<nat>, d: seq<nat>, e: seq<nat>)
    requires Shape(|g|, pv) && |d| == |e| == |g| + 1
  {
    forall x :: 0 <= x <= |g| && e[x] != d[x] ==>
      && x < |g| && e[x] == UINT16_MAX
      && forall y :: 0 <= y <= |g| && Steps(g, pv, x, y) && d[y] == d[x] + 1 ==> e[y] == UINT16_MAX
  }

  // If a phase closed every layer-0 node without augmenting, it closed every layer, nil's included.
  lemma {:induction false} ClosedLayers(g: Graph, pu: seq<nat>, pv: seq<nat>, d: seq<nat>, e: seq<nat>, x: int)
    requires Shape(|g|, pu) && Shape(|g|, pv) && |d| == |e| == |g| + 1
    requires IsGraph(g) && Layered(g, pu, pv, d) && OnlyDeadEndsClosed(g, pv, d, e)
    requires forall u :: 0 <= u < |g| && pu[u] == |g| ==> e[u] == UINT16_MAX
    requires 0 <= x <= |g|
    ensures e[x] == UINT16_MAX
    decreases d[x]
  {
    if d[x] != UINT16_MAX && d[x] != 0 {
      assert Entered(g, pv, d, x);
      var p :| Steps(g, pv, p, x) && d[p] + 1 == d[x];
      ClosedLayers(g, pu, pv, d, e, p);
    }
  }

  // While nil is out of reach, every neighbour of a reached node is matched to a reached node.
  lemma ReachedPartner(g: Graph, pu: seq<nat>, pv: seq<nat>, d: seq<nat>, u: nat, v: nat)
    requires IsGraph(g) && Matching(g, pu, pv) && |d| == |g| + 1
    requires Layered(g, pu, pv, d) && d[|g|] == UINT16_MAX
    requires u < |g| && d[u] != UINT16_MAX && v in g[u]
    ensures v < |g| && pv[v] < |g| && d[pv[v]] != UINT16_MAX && pu[pv[v]] == v
  {
    var k :| 0 <= k < |g[u]| && g[u][k] == v;
    assert Steps(g, pv, u, pv[v]);
  }

  // When BFS cannot reach nil, the nodes it reached violate Hall's condition unless all are matched.
  lemma UnreachedIsHallViolator(g: Graph, pu: seq<nat>, pv: seq<nat>, d: seq<nat>, free: nat)
    returns (s: set<nat>)
    requires IsGraph(g) && Matching(g, pu, pv) && |d| == |g| + 1
    requires Layered(g, pu, pv, d) && d[|g|] == UINT16_MAX
    requires free < |g| && pu[free] == |g|
    ensures s == set u: nat | u < |g| && d[u] != UINT16_MAX
    ensures HallViolator(g, s)
  {
    hide Layered, LeftOk, RightOk;
    s := set u: nat | u < |g| && d[u] != UINT16_MAX;
    var t := Neighbours(g, s);
    FreeIsReached(g, pu, pv, d, free);
    forall v | v in t ensures v < |g| && pv[v] in s - {free} && pu[pv[v]] == v {
      var u :| u in s && u < |g| && v in g[u];
      ReachedPartner(g, pu, pv, d, u, v);
    }
    hide Neighbours, Matching, Shape;
    assert |s - {free}| == |s| - 1;
    InjectionBound(pv, t, s - {free});
  }

  lemma FreeIsReached(g: Graph, pu: seq<nat>, pv: seq<nat>, d: seq<nat>, free: nat)
    requires IsGraph(g) && Matching(g, pu, pv) && |d| == |g| + 1
    requires Layered(g, pu, pv, d) && free < |g| && pu[free] == |g|
    ensures d[free] == 0
  {}

  // An alternating walk over left nodes, from an unmatched one to `last`.
  ghost predicate AlternatingWalk(g: Graph, pu: seq<nat>, pv: seq<nat>, w: seq<nat>, last: nat)
    requires Shape(|g|, pu) && Shape(|g|, pv)
  {
    && w != [] && w[0] < |g| && pu[w[0]] == |g| && w[|w| - 1] == last
    && forall i {:trigger WalkStep(g, pv, w, i)} :: 0 <= i < |w| - 1 ==> WalkStep(g, pv, w, i)
  }

  ghost predicate WalkStep(g: Graph, pv: seq<nat>, w: seq<nat>, i: int)
    requires Shape(|g|, pv)
  {
    0 <= i < |w| - 1 && Steps(g, pv, w[i], w[i + 1])
  }

  lemma {:induction false} WalkStaysInLayers(g: Graph, pu: seq<nat>, pv: seq<nat>, d: seq<nat>, w: seq<nat>, last: nat, i: nat)
    requires Shape(|g|, pu) && Shape(|g|, pv) && |d| == |g| + 1 && Layered(g, pu, pv, d)
    requires last <= |g| && AlternatingWalk(g, pu, pv, w, last) && i < |w|
    ensures w[i] <= |g| && (d[w[i]] <= i || d[|g|] <= i)
  {
    if i == 0 {
    } else {
      WalkStaysInLayers(g, pu, pv, d, w, last, i - 1);
      assert WalkStep(g, pv, w, i - 1);
    }
  }

  lemma {:induction false} LayerHasWalk(g: Graph, pu: seq<nat>, pv: seq<nat>, d: seq<nat>, x: nat) returns (w: seq<nat>)
    requires Shape(|g|, pu) && Shape(|g|, pv) && |d| == |g| + 1 && Layered(g, pu, pv, d)
    requires IsGraph(g) && x <= |g| && d[x] != UINT16_MAX
    ensures AlternatingWalk(g, pu, pv, w, x) && |w| == d[x] + 1
    decreases d[x]
  {
    if d[x] == 0 {
      w := [x];
    } else {
      assert Entered(g, pv, d, x);
      var p :| Steps(g, pv, p, x) && d[p] + 1 == d[x];
      var v := LayerHasWalk(g, pu, pv, d, p);
      w := v + [x];
      forall i {:trigger WalkStep(g, pv, w, i)} | 0 <= i < |w| - 1 ensures WalkStep(g, pv, w, i) {
        assert i < |v| - 1 ==> WalkStep(g, pv, v, i);
      }
    }
  }

  // nil's layer is the length of a shortest augmenting path, and inf exactly when there is none.
  lemma NilLayerIsShortest(g: Graph, pu: seq<nat>, pv: seq<nat>, d: seq<nat>)
    requires Shape(|g|, pu) && Shape(|g|, pv) && |d| == |g| + 1 && Layered(g, pu, pv, d) && IsGraph(g)
    ensures forall w :: AlternatingWalk(g, pu, pv, w, |g|) ==> d[|g|] < |w|
    ensures d[|g|] != UINT16_MAX ==> exists w :: AlternatingWalk(g, pu, pv, w, |g|) && |w| == d[|g|] + 1
  {
    forall w | AlternatingWalk(g, pu, pv, w, |g|) ensures d[|g|] < |w| {
      WalkStaysInLayers(g, pu, pv, d, w, |g|, |w| - 1);
    }
    if d[|g|] != UINT16_MAX {
      var w := LayerHasWalk(g, pu, pv, d, |g|);
    }
  }

  // ---------------------------------------------------------------- the breadth-first queue

  // `order` lists every node queued so far, of which the first `h` have been taken out again.
  ghost predicate QueueOrder(n: nat, d: seq<nat>, order: seq<nat>, h: nat)
    requires |d| == n + 1
  {
    && h <= |order|
    && (forall i :: 0 <= i < |order| ==> order[i] <= n)
    && (forall i, j :: 0 <= i < j < |order| ==> order[i] != order[j])
    && (forall x :: 0 <= x <= n ==> (d[x] != UINT16_MAX <==> x in order))
    && (forall i :: 0 <= i < |order| ==> d[order[i]] <= i)
    && (forall i, j :: h <= i < j < |order| ==> d[order[i]] <= d[order[j]])
  }

  // Layer 0 holds the unmatched nodes and every later node was entered from the layer before.
  ghost predicate LayersEntered(g: Graph, pu: seq<nat>, pv: seq<nat>, d: seq<nat>)
    requires Shape(|g|, pu) && Shape(|g|, pv) && |d| == |g| + 1
  {
    && d[|g|] != 0
    && (forall x :: 0 <= x <= |g| ==> d[x] <= UINT16_MAX)
    && (forall u :: 0 <= u < |g| ==> (d[u] == 0 <==> pu[u] == |g|))
    && (forall x {:trigger Entered(g, pv, d, x)} :: 0 <= x <= |g| && d[x] != UINT16_MAX && d[x] != 0 ==> Entered(g, pv, d, x))
  }

  ghost predicate Queued(g: Graph, pu: seq<nat>, pv: seq<nat>, d: seq<nat>, order: seq<nat>, h: nat)
    requires Shape(|g|, pu) && Shape(|g|, pv) && |d| == |g| + 1
  {
    QueueOrder(|g|, d, order, h) && LayersEntered(g, pu, pv, d)
  }

  lemma QueueBound(n: nat, d: seq<nat>, order: seq<nat>, h: nat)
    requires |d| == n + 1 && QueueOrder(n, d, order, h)
    ensures |order| <= n + 1
    ensures n < |d| && d[n] == UINT16_MAX ==> |order| <= n
  {
    DistinctBound(order, n + 1);
    if d[n] == UINT16_MAX {
      assert n !in order;
      DistinctBound(order, n);
    }
  }

  // The first `upto` neighbours of u have been looked at.
  ghost predicate Expanded(g: Graph, pv: seq<nat>, d: seq<nat>, u: int, upto: int)
    requires IsGraph(g) && Shape(|g|, pv) && |d| == |g| + 1
    requires 0 <= u < |g| && upto <= |g[u]|
  {
    forall k :: 0 <= k < upto ==> d[pv[g[u][k]]] <= d[u] + 1
  }

  ghost predicate AllExpanded(g: Graph, pv: seq<nat>, d: seq<nat>, taken: seq<nat>)
    requires IsGraph(g) && Shape(|g|, pv) && |d| == |g| + 1
  {
    forall u {:trigger u in taken} :: 0 <= u < |g| && u in taken && d[u] < d[|g|] ==> Expanded(g, pv, d, u, |g[u]|)
  }

  // Between two dequeues: no node is more than one layer past the front of the queue.
  ghost predicate Searching(g: Graph, pu: seq<nat>, pv: seq<nat>, d: seq<nat>, order: seq<nat>, h: nat)
    requires IsGraph(g) && Shape(|g|, pu) && Shape(|g|, pv) && |d| == |g| + 1
  {
    && Queued(g, pu, pv, d, order, h)
    && (h < |order| ==> forall i :: 0 <= i < |order| ==> d[order[i]] <= d[order[h]] + 1)
    && AllExpanded(g, pv, d, order[..h])
  }

  // Inside the neighbour loop of u == order[h - 1], having looked at `upto` neighbours.
  ghost predicate Visiting(g: Graph, pu: seq<nat>, pv: seq<nat>, d: seq<nat>, order: seq<nat>, h: nat, u: nat, upto: nat)
    requires IsGraph(g) && Shape(|g|, pu) && Shape(|g|, pv) && |d| == |g| + 1
  {
    && Queued(g, pu, pv, d, order, h)
    && u < |g| && upto <= |g[u]| && 0 < h && u == order[h - 1]
    && (forall i :: 0 <= i < |order| ==> d[order[i]] <= d[u] + 1)
    && (forall i :: h <= i < |order| ==> d[u] <= d[order[i]])
    && AllExpanded(g, pv, d, order[..h - 1])
    && Expanded(g, pv, d, u, upto)
  }

  lemma PushKeepsOrder(n: nat, d: seq<nat>, order: seq<nat>, h: nat, u: nat, x: nat)
    requires |d| == n + 1 && QueueOrder(n, d, order, h) && n <= SHAPELESS_GROUPS_MAX
    requires x <= n && d[x] == UINT16_MAX && 0 < h && u == order[h - 1]
    requires forall j :: 0 <= j < |order| ==> d[order[j]] <= d[u] + 1
    ensures d[u] + 1 <= n && x !in order
    ensures QueueOrder(n, d[x := d[u] + 1], order + [x], h)
  {
    DistinctBound(order + [x], n + 1);
    var e, order' := d[x := d[u] + 1], order + [x];
    forall y | 0 <= y <= n ensures e[y] != UINT16_MAX <==> y in order' {
      assert y in order' <==> y in order || y == x;
    }
  }

  // The queue stays within one layer of u when u's next layer joins it.
  lemma PushKeepsSpread(n: nat, d: seq<nat>, order: seq<nat>, h: nat, u: nat, x: nat)
    requires |d| == n + 1 && u <= n && x <= n && u != x && x !in order && h <= |order|
    requires forall i :: 0 <= i < |order| ==> order[i] <= n && d[order[i]] <= d[u] + 1
    requires forall i :: h <= i < |order| ==> d[u] <= d[order[i]]
    ensures var e, order' := d[x := d[u] + 1], order + [x];
      && (forall i :: 0 <= i < |order'| ==> e[order'[i]] <= e[u] + 1)
      && (forall i :: h <= i < |order'| ==> e[u] <= e[order'[i]])
  {}

  lemma PushKeepsEntered(g: Graph, pu: seq<nat>, pv: seq<nat>, d: seq<nat>, u: nat, x: nat)
    requires Shape(|g|, pu) && Shape(|g|, pv) && |d| == |g| + 1
    requires LayersEntered(g, pu, pv, d)
    requires u < |g| && x <= |g| && u != x && Steps(g, pv, u, x) && d[u] < d[x] == UINT16_MAX
    requires x < |g| ==> pu[x] != |g|
    ensures LayersEntered(g, pu, pv, d[x := d[u] + 1])
  {
    var e := d[x := d[u] + 1];
    forall y {:trigger Entered(g, pv, e, y)} | 0 <= y <= |g| && e[y] != UINT16_MAX && e[y] != 0
      ensures Entered(g, pv, e, y)
    {
      if y == x {
        assert Steps(g, pv, u, x) && e[u] + 1 == e[x];
      } else {
        assert Entered(g, pv, d, y);
        var p :| Steps(g, pv, p, y) && d[p] + 1 == d[y];
        assert Steps(g, pv, p, y) && (p == x || e[p] + 1 == e[y]);
      }
    }
  }

  // Giving an unseen node a distance undoes no earlier expansion.
  lemma PushKeepsExpanded(g: Graph, pv: seq<nat>, d: seq<nat>, taken: seq<nat>, x: nat, far: nat)
    requires IsGraph(g) && Shape(|g|, pv) && |d| == |g| + 1
    requires x <= |g| && d[x] == UINT16_MAX && far <= |g|
    requires forall i :: 0 <= i < |taken| ==> taken[i] <= |g| && d[taken[i]] <= |g|
    requires AllExpanded(g, pv, d, taken)
    ensures AllExpanded(g, pv, d[x := far], taken)
  {
    var e := d[x := far];
    forall w {:trigger w in taken} | 0 <= w < |g| && w in taken && e[w] < e[|g|]
      ensures Expanded(g, pv, e, w, |g[w]|)
    {
      assert d[w] < d[|g|];
      assert Expanded(g, pv, d, w, |g[w]|);
    }
  }

  lemma VisitStep(g: Graph, pu: seq<nat>, pv: seq<nat>, d: seq<nat>, order: seq<nat>, h: nat, u: nat, i: nat)
    requires IsGraph(g) && PointsAtMatched(|g|, pu, pv) && |d| == |g| + 1
    requires Visiting(g, pu, pv, d, order, h, u, i) && i < |g[u]|
    requires d[pv[g[u][i]]] == UINT16_MAX
    ensures d[u] + 1 <= |g|
    ensures Visiting(g, pu, pv, d[pv[g[u][i]] := d[u] + 1], order + [pv[g[u][i]]], h, u, i + 1)
  {
    hide AllExpanded, LayersEntered;
    var x := pv[g[u][i]];
    assert x == |g| || pu[x] != |g|;
    assert Steps(g, pv, u, x);
    PushKeepsOrder(|g|, d, order, h, u, x);
    assert x != u;
    PushKeepsSpread(|g|, d, order, h, u, x);
    PushKeepsEntered(g, pu, pv, d, u, x);
    PushKeepsExpanded(g, pv, d, order[..h - 1], x, d[u] + 1);
    assert (order + [x])[..h - 1] == order[..h - 1];
  }

  lemma SkipStep(g: Graph, pu: seq<nat>, pv: seq<nat>, d: seq<nat>, order: seq<nat>, h: nat, u: nat, i: nat)
    requires IsGraph(g) && PointsAtMatched(|g|, pu, pv) && |d| == |g| + 1
    requires Visiting(g, pu, pv, d, order, h, u, i) && i < |g[u]|
    requires d[pv[g[u][i]]] != UINT16_MAX
    ensures Visiting(g, pu, pv, d, order, h, u, i + 1)
  {
    assert pv[g[u][i]] in order;
  }

  // Layer 0 alone.
  lemma StartSearching(g: Graph, pu: seq<nat>, pv: seq<nat>, d: seq<nat>, queue: seq<nat>)
    requires IsGraph(g) && PointsAtMatched(|g|, pu, pv) && |d| == |g| + 1
    requires forall x :: 0 <= x < |g| ==> d[x] == if pu[x] == |g| then 0 else UINT16_MAX
    requires d[|g|] == UINT16_MAX
    requires forall x :: 0 <= x < |g| ==> (pu[x] == |g| <==> x in queue)
    requires forall i :: 0 <= i < |queue| ==> queue[i] < |g|
    requires forall i, j :: 0 <= i < j < |queue| ==> queue[i] != queue[j]
    ensures Searching(g, pu, pv, d, queue, 0)
  {
    forall i | 0 <= i < |queue| ensures d[queue[i]] == 0 {
      assert queue[i] in queue;
    }
  }

  // Taking the front node u off the queue.
  lemma DequeueStep(g: Graph, pu: seq<nat>, pv: seq<nat>, d: seq<nat>, order: seq<nat>, h: nat)
    requires IsGraph(g) && PointsAtMatched(|g|, pu, pv) && |d| == |g| + 1
    requires h < |order| && Searching(g, pu, pv, d, order, h)
    ensures var u := order[h];
      if d[u] < d[|g|] then Visiting(g, pu, pv, d, order, h + 1, u, 0)
      else Searching(g, pu, pv, d, order, h + 1)
  {
    assert order[..h + 1] == order[..h] + [order[h]];
    assert order[..h + 1 - 1] == order[..h];
    forall w {:trigger w in order[..h + 1]} | w in order[..h + 1] && w != order[h] ensures w in order[..h] {}
  }

  lemma SearchingBound(g: Graph, pu: seq<nat>, pv: seq<nat>, d: seq<nat>, order: seq<nat>, h: nat)
    requires IsGraph(g) && PointsAtMatched(|g|, pu, pv) && |d| == |g| + 1
    requires Searching(g, pu, pv, d, order, h)
    ensures h <= |order| <= |g| + 1
    ensures h < |order| ==> order[h] <= |g|
  {
    QueueBound(|g|, d, order, h);
  }

  lemma VisitedStep(g: Graph, pu: seq<nat>, pv: seq<nat>, d: seq<nat>, order: seq<nat>, h: nat, u: nat)
    requires IsGraph(g) && PointsAtMatched(|g|, pu, pv) && |d| == |g| + 1 && u < |g|
    requires Visiting(g, pu, pv, d, order, h, u, |g[u]|)
    ensures Searching(g, pu, pv, d, order, h)
  {
    assert order[..h] == order[..h - 1] + [u];
    forall w {:trigger w in order[..h]} | w in order[..h] && w != u ensures w in order[..h - 1] {}
  }

  // An exhausted queue leaves a layering.
  lemma ExhaustedIsLayered(g: Graph, pu: seq<nat>, pv: seq<nat>, d: seq<nat>, order: seq<nat>)
    requires IsGraph(g) && Shape(|g|, pu) && Shape(|g|, pv) && |d| == |g| + 1
    requires forall x :: 0 <= x <= |g| ==> d[x] <= UINT16_MAX
    requires Searching(g, pu, pv, d, order, |order|)
    ensures Layered(g, pu, pv, d)
  {
    QueueBound(|g|, d, order, |order|);
    assert order[..|order|] == order;
    forall u, x {:trigger Steps(g, pv, u, x)} | 0 <= u < |g| && 0 <= x <= |g| && d[u] < d[|g|] && Steps(g, pv, u, x)
      ensures d[x] <= d[u] + 1
    {
      assert u in order;
    }
  }

  // ---------------------------------------------------------------- augmenting paths

  // Closed only dead ends, all of them in layers past u's.
  ghost predicate ClosedPast(g: Graph, pv: seq<nat>, d: seq<nat>, e: seq<nat>, u: nat)
    requires Shape(|g|, pv) && |d| == |e| == |g| + 1 && u <= |g|
  {
    && OnlyDeadEndsClosed(g, pv, d, e)
    && forall x :: 0 <= x <= |g| && e[x] != d[x] ==> d[x] > d[u]
  }

  // The edges of an alternating path from u have been swapped: u is matched anew, every other
  // node keeps its matchedness, and only nodes past u's layer were re-paired. If u was matched
  // before, its old partner still points at u; the caller is about to re-pair that partner.
  ghost predicate Augmented(g: Graph, pu0: seq<nat>, pv0: seq<nat>, d: seq<nat>, pu: seq<nat>, pv: seq<nat>, u: nat)
    requires Shape(|g|, pu0) && Shape(|g|, pv0) && |d| == |g| + 1
  {
    && Shape(|g|, pu) && Shape(|g|, pv) && u < |g|
    && LeftOk(g, pu, pv) && RightOk(|g|, pu, pv, pu0[u])
    && pu[u] != |g| && pu[u] != pu0[u]
    && (pu0[u] != |g| ==> pv[pu0[u]] == u)
    && (forall x :: 0 <= x < |g| && x != u ==> (pu[x] == |g| <==> pu0[x] == |g|))
    && (forall x :: 0 <= x < |g| && pu[x] != pu0[x] ==> d[x] >= d[u])
    && (forall v :: 0 <= v < |g| && pv[v] != pv0[v] ==> pv0[v] == |g| || d[pv0[v]] > d[u])
  }

  // The neighbour loop of a DFS at u after `upto` neighbours, none of which led anywhere.
  ghost predicate Scanned(g: Graph, pv: seq<nat>, d: seq<nat>, e: seq<nat>, u: nat, upto: nat)
    requires IsGraph(g) && Shape(|g|, pv) && |d| == |e| == |g| + 1
  {
    && u < |g| && upto <= |g[u]|
    && ClosedPast(g, pv, d, e, u)
    && forall k :: 0 <= k < upto && d[pv[g[u][k]]] == d[u] + 1 ==> e[pv[g[u][k]]] == UINT16_MAX
  }

  // A failed DFS from the next neighbour's partner only closes more dead ends.
  lemma ScanFailed(g: Graph, pv: seq<nat>, d: seq<nat>, e: seq<nat>, f: seq<nat>, u: nat, i: nat)
    requires IsGraph(g) && Shape(|g|, pv) && |d| == |e| == |f| == |g| + 1
    requires forall x :: 0 <= x <= |g| ==> d[x] <= UINT16_MAX
    requires Scanned(g, pv, d, e, u, i) && i < |g[u]|
    requires OnlyDeadEndsClosed(g, pv, e, f) && f[pv[g[u][i]]] == UINT16_MAX
    requires forall x :: 0 <= x <= |g| && f[x] != e[x] ==> e[x] > e[u]
    ensures Scanned(g, pv, d, f, u, i + 1)
  {
    ClosingComposes(g, pv, d, e, f);
  }

  // u is a dead end once every successor of u is closed.
  lemma CloseDeadEnd(g: Graph, pv: seq<nat>, d: seq<nat>, e: seq<nat>, u: nat)
    requires IsGraph(g) && Shape(|g|, pv) && |d| == |e| == |g| + 1 && u < |g|
    requires Scanned(g, pv, d, e, u, |g[u]|)
    ensures OnlyDeadEndsClosed(g, pv, d, e[u := UINT16_MAX])
  {}

  // Prefixing u-v to a swapped path from v's old partner gives a swapped path from u.
  lemma AugmentStep(g: Graph, pu0: seq<nat>, pv0: seq<nat>, d: seq<nat>, e: seq<nat>,
                    pu: seq<nat>, pv: seq<nat>, u: nat, v: nat)
    requires IsGraph(g) && Matching(g, pu0, pv0) && |d| == |e| == |g| + 1
    requires u < |g| && v < |g| && v in g[u] && e[u] == d[u] && e[pv0[v]] == e[u] + 1
    requires forall x :: 0 <= x <= |g| && e[x] != d[x] ==> d[x] > d[u]
    requires if pv0[v] == |g| then pu == pu0 && pv == pv0 else Augmented(g, pu0, pv0, e, pu, pv, pv0[v])
    ensures Augmented(g, pu0, pv0, d, pu[u := v], pv[v := u], u)
  {
    var b := pv0[v];
    assert b != u;
    assert pu[u] == pu0[u];
    assert pv[v] == b;
    assert v != pu0[u];
    forall x | 0 <= x < |g| && x != u && pu[x] == v ensures false {}
  }

  lemma AugmentGrows(g: Graph, pu0: seq<nat>, pv0: seq<nat>, d: seq<nat>, pu: seq<nat>, pv: seq<nat>, u: nat)
    requires Matching(g, pu0, pv0) && |d| == |g| + 1
    requires Augmented(g, pu0, pv0, d, pu, pv, u) && pu0[u] == |g|
    ensures Matching(g, pu, pv)
    ensures Matched(|g|, pu) == Matched(|g|, pu0) + {u}
  {}

  // Closing steps compose.
  lemma ClosingComposes(g: Graph, pv: seq<nat>, d: seq<nat>, e: seq<nat>, f: seq<nat>)
    requires Shape(|g|, pv) && |d| == |e| == |f| == |g| + 1
    requires OnlyDeadEndsClosed(g, pv, d, e) && OnlyDeadEndsClosed(g, pv, e, f)
    requires forall x :: 0 <= x <= |g| ==> d[x] <= UINT16_MAX
    ensures OnlyDeadEndsClosed(g, pv, d, f)
  {}

  // ---------------------------------------------------------------- the search

  class Matcher {
    const graph: Graph
    const nil: u16
    const pairU: array<u16>
    const pairV: array<u16>
    const dist: array<u16>

    ghost predicate Valid()
      reads this, pairU, pairV, dist
    {
      && IsGraph(graph) && nil == |graph|
      && pairU != pairV && pairU != dist && pairV != dist
      && pairU.Length == pairV.Length == dist.Length == nil + 1
      && Shape(nil, pairU[..]) && Shape(nil, pairV[..])
    }

    constructor (g: Graph)
      requires IsGraph(g)
      ensures graph == g && Valid() && Matching(g, pairU[..], pairV[..])
      ensures fresh(pairU) && fresh(pairV) && fresh(dist)
      ensures Matched(|g|, pairU[..]) == {}
    {
      graph := g;
      nil := |g|;
      pairU := new u16[|g| + 1](_ => |g|);
      pairV := new u16[|g| + 1](_ => |g|);
      dist := new u16[|g| + 1](_ => 0);
    }

    // The neighbour loop of one dequeued node u, which is order[h - 1].
    method VisitNeighbours(u: u16, queue0: seq<u16>, ghost order0: seq<u16>, ghost h: nat)
      returns (queue: seq<u16>, ghost order: seq<u16>)
      requires Valid() && PointsAtMatched(nil, pairU[..], pairV[..])
      requires Visiting(graph, pairU[..], pairV[..], dist[..], order0, h, u, 0)
      requires u < nil && h <= |order0| && queue0 == order0[h..]
      modifies dist
      ensures Valid() && order0 <= order && h <= |order| && queue == order[h..]
      ensures Visiting(graph, pairU[..], pairV[..], dist[..], order, h, u, |graph[u]|)
    {
      hide Visiting;
      queue, order := queue0, order0;
      for i := 0 to |graph[u]|
        invariant order0 <= order && h <= |order| && queue == order[h..]
        invariant Visiting(graph, pairU[..], pairV[..], dist[..], order, h, u, i)
      {
        var v := graph[u][i];
        var uBack := pairV[v];
        ghost var d := dist[..];
        if dist[uBack] == UINT16_MAX {
          VisitStep(graph, pairU[..], pairV[..], d, order, h, u, i);
          dist[uBack] := dist[u] + 1;
          assert dist[..] == d[uBack := d[u] + 1];
          queue := queue + [uBack];
          order := order + [uBack];
        } else {
          SkipStep(graph, pairU[..], pairV[..], d, order, h, u, i);
        }
      }
    }

    // Layer 0: the unmatched left nodes.
    method EnqueueUnmatched() returns (queue: seq<u16>)
      requires Valid() && PointsAtMatched(nil, pairU[..], pairV[..])
      modifies dist
      ensures Valid() && Searching(graph, pairU[..], pairV[..], dist[..], queue, 0)
    {
      queue := [];
      for u := 0 to nil
        invariant forall x :: 0 <= x < u ==> dist[x] == if pairU[x] == nil then 0 else UINT16_MAX
        invariant forall x :: 0 <= x < u ==> (pairU[x] == nil <==> x in queue)
        invariant forall i :: 0 <= i < |queue| ==> queue[i] < u
        invariant forall i, j :: 0 <= i < j < |queue| ==> queue[i] != queue[j]
      {
        if pairU[u] == nil {
          dist[u] := 0;
          queue := queue + [u];
        } else {
          dist[u] := UINT16_MAX;
        }
      }
      dist[nil] := UINT16_MAX;
      StartSearching(graph, pairU[..], pairV[..], dist[..], queue);
    }

    // Layers the left nodes by alternating distance from the unmatched ones, until nil is reached.
    method DoBfs() returns (reached: bool)
      requires Valid() && PointsAtMatched(nil, pairU[..], pairV[..])
      modifies dist
      ensures Valid() && Layered(graph, pairU[..], pairV[..], dist[..])
      ensures reached <==> dist[nil] != UINT16_MAX
    {
      hide Searching, Visiting, Layered;
      var queue := EnqueueUnmatched();
      ghost var order, h := queue, 0;
      while queue != []
        invariant 0 <= h <= |order| && queue == order[h..]
        invariant Searching(graph, pairU[..], pairV[..], dist[..], order, h)
        decreases nil + 1 - h
      {
        SearchingBound(graph, pairU[..], pairV[..], dist[..], order, h);
        var u := queue[0];
        DequeueStep(graph, pairU[..], pairV[..], dist[..], order, h);
        h := h + 1;
        queue := queue[1..];
        if dist[u] < dist[nil] {
          queue, order := VisitNeighbours(u, queue, order, h);
          VisitedStep(graph, pairU[..], pairV[..], dist[..], order, h, u);
        }
      }
      reached := dist[nil] != UINT16_MAX;
      ExhaustedIsLayered(graph, pairU[..], pairV[..], dist[..], order);
    }

    // Looks for an augmenting path from u along the layers and swaps its edges.
    method DoDfs(u: u16) returns (found: bool)
      requires Valid() && u <= nil && Matching(graph, pairU[..], pairV[..])
      modifies pairU, pairV, dist
      ensures Valid()
      ensures u == nil ==> found && pairU[..] == old(pairU[..]) && pairV[..] == old(pairV[..]) && dist[..] == old(dist[..])
      ensures forall x :: 0 <= x <= nil && dist[x] != old(dist[x]) ==> x == u || old(dist[x]) > old(dist[u])
      ensures found && u < nil ==> Augmented(graph, old(pairU[..]), old(pairV[..]), old(dist[..]), pairU[..], pairV[..], u)
      ensures !found ==> pairU[..] == old(pairU[..]) && pairV[..] == old(pairV[..])
      ensures !found ==> dist[u] == UINT16_MAX && OnlyDeadEndsClosed(graph, pairV[..], old(dist[..]), dist[..])
      decreases UINT16_MAX + 1 - dist[u]
    {
      if u == nil {
        return true;
      }
      hide Augmented, OnlyDeadEndsClosed, LeftOk, RightOk;
      ghost var pu0: seq<nat>, pv0: seq<nat>, d0: seq<nat> := pairU[..], pairV[..], dist[..];
      for i := 0 to |graph[u]|
        invariant pairU[..] == pu0 && pairV[..] == pv0
        invariant Scanned(graph, pv0, d0, dist[..], u, i)
      {
        var v := graph[u][i];
        var uBack := pairV[v];
        if dist[uBack] as int != dist[u] as int + 1 {
          continue;
        }
        ghost var d := dist[..];
        var ok := DoDfs(uBack);
        if ok {
          ghost var pu1, pv1 := pairU[..], pairV[..];
          AugmentStep(graph, pu0, pv0, d0, d, pu1, pv1, u, v);
          pairV[v] := u;
          pairU[u] := v;
          assert pairU[..] == pu1[u := v] && pairV[..] == pv1[v := u];
          return true;
        }
        ScanFailed(graph, pv0, d0, d, dist[..], u, i);
      }
      ghost var e := dist[..];
      CloseDeadEnd(graph, pv0, d0, e, u);
      dist[u] := UINT16_MAX;
      assert dist[..] == e[u := UINT16_MAX];
      found := false;
    }
  }

  lemma MatchedAll(n: nat, pu: seq<nat>)
    requires |pu| == n + 1 && |Matched(n, pu)| == n
    ensures forall u :: 0 <= u < n ==> pu[u] != n
  {
    if u :| 0 <= u < n && pu[u] == n {
      SubsetSize(Matched(n, pu), Below(n) - {u});
    }
  }

  lemma UnmatchedNode(n: nat, pu: seq<nat>) returns (free: nat)
    requires |pu| == n + 1 && |Matched(n, pu)| != n
    ensures free < n && pu[free] == n
  {
    assert Matched(n, pu) <= Below(n) && Matched(n, pu) != Below(n);
    free :| free in Below(n) && free !in Matched(n, pu);
  }

  // No augmentation so far: the pairs are as at the start, and the unmatched nodes below u are closed.
  ghost predicate Fruitless(g: Graph, pu0: seq<nat>, pv0: seq<nat>, d0: seq<nat>,
                            pu: seq<nat>, pv: seq<nat>, d: seq<nat>, u: nat)
    requires Shape(|g|, pv0) && |pu0| == |d0| == |d| == |g| + 1 && u <= |g|
  {
    && pu == pu0 && pv == pv0
    && OnlyDeadEndsClosed(g, pv0, d0, d)
    && forall x :: 0 <= x < u && pu0[x] == |g| ==> d[x] == UINT16_MAX
  }

  // The body of a phase's loop: try to match node u.
  method AugmentFrom(m: Matcher, u: u16, numMatched0: u16, ghost pu0: seq<nat>, ghost pv0: seq<nat>, ghost d0: seq<nat>)
    returns (numMatched: u16)
    requires m.Valid() && Matching(m.graph, m.pairU[..], m.pairV[..]) && u < m.nil
    requires numMatched0 == |Matched(m.nil, m.pairU[..])| <= m.nil
    requires Shape(m.nil, pv0) && |pu0| == |d0| == m.nil + 1
    requires forall x :: 0 <= x <= m.nil ==> d0[x] <= UINT16_MAX
    modifies m.pairU, m.pairV, m.dist
    ensures m.Valid() && Matching(m.graph, m.pairU[..], m.pairV[..])
    ensures numMatched0 <= numMatched == |Matched(m.nil, m.pairU[..])| <= m.nil
    ensures Matched(m.nil, old(m.pairU[..])) <= Matched(m.nil, m.pairU[..])
    ensures numMatched == numMatched0 && old(Fruitless(m.graph, pu0, pv0, d0, m.pairU[..], m.pairV[..], m.dist[..], u)) ==>
      Fruitless(m.graph, pu0, pv0, d0, m.pairU[..], m.pairV[..], m.dist[..], u + 1)
  {
    hide LeftOk, RightOk;
    numMatched := numMatched0;
    if m.pairU[u] == m.nil {
      ghost var pu, pv, d := m.pairU[..], m.pairV[..], m.dist[..];
      var found := m.DoDfs(u);
      if found {
        AugmentGrows(m.graph, pu, pv, d, m.pairU[..], m.pairV[..], u);
        SubsetSize(Matched(m.nil, m.pairU[..]), Below(m.nil));
        numMatched := numMatched + 1;
      } else if Fruitless(m.graph, pu0, pv0, d0, pu, pv, d, u) {
        ClosingComposes(m.graph, pv0, d0, d, m.dist[..]);
      }
    }
  }

  // One phase over a layering in which nil was reached: at least one unmatched node gets matched.
  method AugmentPhase(m: Matcher, numMatched0: u16) returns (numMatched: u16)
    requires m.Valid() && Matching(m.graph, m.pairU[..], m.pairV[..])
    requires Layered(m.graph, m.pairU[..], m.pairV[..], m.dist[..]) && m.dist[m.nil] != UINT16_MAX
    requires numMatched0 == |Matched(m.nil, m.pairU[..])| <= m.nil
    modifies m.pairU, m.pairV, m.dist
    ensures m.Valid() && Matching(m.graph, m.pairU[..], m.pairV[..])
    ensures numMatched0 < numMatched == |Matched(m.nil, m.pairU[..])| <= m.nil
    ensures Matched(m.nil, old(m.pairU[..])) <= Matched(m.nil, m.pairU[..])
  {
    numMatched := numMatched0;
    ghost var pu0: seq<nat>, pv0: seq<nat>, d0: seq<nat> := m.pairU[..], m.pairV[..], m.dist[..];
    for u := 0 to m.nil
      invariant m.Valid() && Matching(m.graph, m.pairU[..], m.pairV[..])
      invariant numMatched0 <= numMatched == |Matched(m.nil, m.pairU[..])| <= m.nil
      invariant Matched(m.nil, pu0) <= Matched(m.nil, m.pairU[..])
      invariant numMatched == numMatched0 ==> Fruitless(m.graph, pu0, pv0, d0, m.pairU[..], m.pairV[..], m.dist[..], u)
    {
      numMatched := AugmentFrom(m, u, numMatched, pu0, pv0, d0);
    }
    if numMatched == numMatched0 {
      ClosedLayers(m.graph, pu0, pv0, d0, m.dist[..], m.nil);
      assert false;
    }
  }

  /**
   Does some matching use every node? Each phase layers the graph and augments along the layers;
   the phases end when nil is out of reach. On failure the last BFS exhibits the reason: too few
   neighbours for the left nodes it reached.
   */
  method HopcroftKarpCanMatchAll(g: Graph) returns (all: bool)
    requires IsGraph(g)
    ensures all <==> CanMatchAll(g)
    ensures !all ==> exists s :: HallViolator(g, s)
  {
    var m := new Matcher(g);
    var nil: u16 := |g|;
    var numMatched: u16 := 0;
    while true
      invariant m.graph == g && m.Valid() && fresh(m.pairU) && fresh(m.pairV) && fresh(m.dist)
      invariant Matching(g, m.pairU[..], m.pairV[..])
      invariant numMatched <= nil && numMatched == |Matched(nil, m.pairU[..])|
      decreases nil - numMatched
    {
      var reached := m.DoBfs();
      if !reached {
        break;
      }
      numMatched := AugmentPhase(m, numMatched);
    }
    all := numMatched == nil;
    if all {
      ghost var pm: seq<nat> := m.pairU[..nil];
      MatchedAll(nil, m.pairU[..]);
      assert PerfectMatching(g, pm);
    } else {
      ghost var free := UnmatchedNode(nil, m.pairU[..]);
      ghost var s := UnreachedIsHallViolator(g, m.pairU[..], m.pairV[..], m.dist[..], free);
      HallViolatorBlocks(g, s);
    }
  }
}
