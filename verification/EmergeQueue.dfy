/**
 The queue of map blocks to emerge (src/emerge.cpp): one map of pending blocks, a counter per peer and
 a FIFO queue per emerge thread, all behind one mutex. A state and its atomic steps.
 */
module EmergeQueue {
  import opened Basics

  datatype Callback = Callback(callee: nat, param: nat)
  // The bits of a request's flags; a set of them stands for the word.
  datatype Flag = AllowGen | ForceQueue

  const PEER_ID_INEXISTENT: u16 := 0

  datatype Request = Request(pos: BlockPos, peer: u16, flags: set<Flag>, callback: Option<Callback>)

  datatype BlockEmergeData = BlockEmergeData(peer: u16, flags: set<Flag>, callbacks: seq<Callback>)

  datatype Limits = Limits(total: nat, diskonly: nat, generate: nat)

  predicate Forced(flags: set<Flag>) {
    ForceQueue in flags
  }

  predicate MayGenerate(flags: set<Flag>) {
    AllowGen in flags
  }

  function CallbackOf(r: Request): seq<Callback> {
    if r.callback.None? then [] else [r.callback.value]
  }

  // ---------------------------------------------------------------- shortest queue

  // Among the first n threads, the one with the shortest queue, the first of them on a tie.
  predicate ShortestAmong(queues: seq<seq<BlockPos>>, i: nat, n: nat) {
    && i < n <= |queues|
    && (forall j :: 0 <= j < n ==> |queues[i]| <= |queues[j]|)
    && (forall j :: 0 <= j < i ==> |queues[i]| != |queues[j]|)
  }

  predicate IsOptimal(queues: seq<seq<BlockPos>>, i: nat) {
    ShortestAmong(queues, i, |queues|)
  }

  function OptimalAmong(queues: seq<seq<BlockPos>>, n: nat): (i: nat)
    requires 0 < n <= |queues|
    ensures ShortestAmong(queues, i, n)
  {
    if n == 1 then 0
    else
      var before := OptimalAmong(queues, n - 1);
      if |queues[n - 1]| < |queues[before]| then n - 1 else before
  }

  function Optimal(queues: seq<seq<BlockPos>>): (i: nat)
    requires |queues| > 0
    ensures IsOptimal(queues, i)
  {
    OptimalAmong(queues, |queues|)
  }

  lemma OptimalIsUnique(queues: seq<seq<BlockPos>>, i: nat, j: nat)
    requires IsOptimal(queues, i) && IsOptimal(queues, j)
    ensures i == j
  {
    assert |queues[i]| <= |queues[j]| <= |queues[i]|;
  }

  // ---------------------------------------------------------------- steps

  // What leaves the lock: an accepted request, or an entry handed to a thread.
  datatype Entry = Accepted(request: Request) | Delivered(pos: BlockPos, data: BlockEmergeData)

  datatype State = State(
    limits: Limits,
    blocks: map<BlockPos, BlockEmergeData>,
    counts: map<u16, nat>,
    queues: seq<seq<BlockPos>>)
  {
    function Count(peer: u16): nat {
      if peer in counts then counts[peer] else 0
    }

    // The limits of pushBlockEmergeData.
    predicate Admits(peer: u16, flags: set<Flag>) {
      || Forced(flags)
      || (|blocks| < limits.total
          && (if peer != PEER_ID_INEXISTENT
              then Count(peer) < (if MayGenerate(flags) then limits.generate else limits.diskonly)
              else Count(peer) * 2 < limits.total))
    }

    // Reading a counter creates it.
    function Touched(peer: u16): State {
      this.(counts := counts[peer := Count(peer)])
    }

    // pushBlockEmergeData once the limits admit the request.
    function Recorded(r: Request): State {
      if r.pos in blocks then
        var d := blocks[r.pos];
        Touched(r.peer).(blocks := blocks[r.pos := d.(flags := d.flags + r.flags, callbacks := d.callbacks + CallbackOf(r))])
      else
        this.(blocks := blocks[r.pos := BlockEmergeData(r.peer, r.flags, CallbackOf(r))], counts := counts[r.peer := Count(r.peer) + 1])
    }

    // enqueueBlockEmergeEx.
    function Enqueued(r: Request): State
      requires |queues| > 0
    {
      if !Admits(r.peer, r.flags) then Touched(r.peer)
      else if r.pos in blocks then Recorded(r)
      else
        var i := Optimal(queues);
        Recorded(r).(queues := queues[i := queues[i] + [r.pos]])
    }

    // popBlockEmergeData on an entry that exists, whose peer's counter is not 0.
    function Forgotten(pos: BlockPos): State
      requires pos in blocks && Count(blocks[pos].peer) > 0
    {
      var peer := blocks[pos].peer;
      this.(blocks := blocks - {pos}, counts := counts[peer := counts[peer] - 1])
    }

    // popBlockEmerge by thread t.
    function Popped(t: nat): State
      requires t < |queues| && queues[t] != [] && queues[t][0] in blocks && Count(blocks[queues[t][0]].peer) > 0
    {
      Forgotten(queues[t][0]).(queues := queues[t := queues[t][1..]])
    }

    // What that pop hands to the thread.
    function Delivery(t: nat): Entry
      requires t < |queues| && queues[t] != [] && queues[t][0] in blocks
    {
      Delivered(queues[t][0], blocks[queues[t][0]])
    }

    function Requested(peer: u16): set<BlockPos> {
      set p | p in blocks && blocks[p].peer == peer
    }

    // Every pending block is in one thread's queue, once.
    ghost predicate QueuesMatch() {
      |queues| > 0 && Waiting(queues) == multiset(blocks.Keys)
    }

    // Every counter counts its peer's blocks.
    ghost predicate CountsMatch() {
      forall peer :: Count(peer) == |Requested(peer)|
    }

    ghost predicate Consistent() {
      QueuesMatch() && CountsMatch()
    }
  }

  // ---------------------------------------------------------------- who is turned away

  // The positions pending on behalf of a peer.
  ghost function PendingOf(blocks: map<BlockPos, BlockEmergeData>, peer: u16): set<BlockPos> {
    set p | p in blocks && blocks[p].peer == peer
  }

  // A request that is not forced is turned away when the whole queue is full; when its peer has as many positions
  // pending as it may, which depends on whether it asks for generation; and when those without a peer fill half the queue.
  ghost predicate TurnedAway(limits: Limits, blocks: map<BlockPos, BlockEmergeData>, r: Request) {
    && ForceQueue !in r.flags
    && (|| |blocks| >= limits.total
        || (r.peer != 0 && AllowGen in r.flags && |PendingOf(blocks, r.peer)| >= limits.generate)
        || (r.peer != 0 && AllowGen !in r.flags && |PendingOf(blocks, r.peer)| >= limits.diskonly)
        || (r.peer == 0 && 2 * |PendingOf(blocks, r.peer)| >= limits.total))
  }

  lemma AdmitsUnlessTurnedAway(s: State, r: Request)
    requires s.CountsMatch()
    ensures s.Admits(r.peer, r.flags) <==> !TurnedAway(s.limits, s.blocks, r)
  {
    assert s.Requested(r.peer) == PendingOf(s.blocks, r.peer);
  }

  // All that the threads' queues hold.
  ghost function Waiting(queues: seq<seq<BlockPos>>): multiset<BlockPos> {
    if queues == [] then multiset{} else Waiting(queues[..|queues| - 1]) + multiset(queues[|queues| - 1])
  }

  lemma {:induction false} WaitingUpdate(queues: seq<seq<BlockPos>>, t: nat, q: seq<BlockPos>)
    requires t < |queues|
    ensures multiset(queues[t]) <= Waiting(queues)
    ensures Waiting(queues[t := q]) == Waiting(queues) - multiset(queues[t]) + multiset(q)
  {
    var n := |queues| - 1;
    if t == n {
      assert queues[t := q][..n] == queues[..n];
    } else {
      assert queues[t := q][..n] == queues[..n][t := q];
      WaitingUpdate(queues[..n], t, q);
    }
  }

  lemma WaitingGains(queues: seq<seq<BlockPos>>, t: nat, pos: BlockPos)
    requires t < |queues|
    ensures Waiting(queues[t := queues[t] + [pos]]) == Waiting(queues) + multiset{pos}
  {
    WaitingUpdate(queues, t, queues[t] + [pos]);
  }

  lemma WaitingLoses(queues: seq<seq<BlockPos>>, t: nat)
    requires t < |queues| && queues[t] != []
    ensures queues[t][0] in Waiting(queues)
    ensures Waiting(queues[t := queues[t][1..]]) == Waiting(queues) - multiset{queues[t][0]}
  {
    WaitingUpdate(queues, t, queues[t][1..]);
    assert queues[t] == [queues[t][0]] + queues[t][1..];
  }

  // ---------------------------------------------------------------- consistency

  lemma RequestedGrows(s: State, r: Request)
    requires r.pos !in s.blocks
    ensures forall peer :: s.Recorded(r).Requested(peer) == if peer == r.peer then s.Requested(peer) + {r.pos} else s.Requested(peer)
  {}

  lemma RequestedSame(s: State, r: Request)
    requires r.pos in s.blocks
    ensures forall peer :: s.Recorded(r).Requested(peer) == s.Requested(peer)
  {}

  lemma RequestedShrinks(s: State, pos: BlockPos)
    requires pos in s.blocks && s.Count(s.blocks[pos].peer) > 0
    ensures forall peer :: s.Forgotten(pos).Requested(peer) == s.Requested(peer) - {pos}
    ensures forall peer :: pos in s.Requested(peer) <==> peer == s.blocks[pos].peer
  {}

  lemma {:induction false} RecordCounts(s: State, r: Request)
    requires s.CountsMatch()
    ensures s.Recorded(r).CountsMatch() && s.Touched(r.peer).CountsMatch()
  {
    forall peer
      ensures s.Touched(r.peer).Count(peer) == |s.Touched(r.peer).Requested(peer)|
    {
      assert s.Touched(r.peer).Requested(peer) == s.Requested(peer);
    }
    if r.pos in s.blocks {
      RequestedSame(s, r);
    } else {
      RequestedGrows(s, r);
    }
  }

  lemma CountsOfQueues(s: State, queues: seq<seq<BlockPos>>)
    requires s.CountsMatch()
    ensures s.(queues := queues).CountsMatch()
  {
    forall peer
      ensures s.(queues := queues).Count(peer) == |s.(queues := queues).Requested(peer)|
    {
      assert s.(queues := queues).Requested(peer) == s.Requested(peer);
    }
  }

  lemma EnqueueConsistent(s: State, r: Request)
    requires s.Consistent()
    ensures s.Enqueued(r).Consistent()
  {
    hide Waiting, Optimal, State.Admits, State.CountsMatch;
    RecordCounts(s, r);
    if s.Admits(r.peer, r.flags) && r.pos !in s.blocks {
      WaitingGains(s.queues, Optimal(s.queues), r.pos);
      var i := Optimal(s.queues);
      CountsOfQueues(s.Recorded(r), s.queues[i := s.queues[i] + [r.pos]]);
      assert s.Enqueued(r).blocks.Keys == s.blocks.Keys + {r.pos};
    } else {
      assert s.Enqueued(r).blocks.Keys == s.blocks.Keys;
    }
  }

  // The front of a queue is pending, and the counter of its peer is not 0: the assertion in popBlockEmergeData holds.
  lemma FrontIsPending(s: State, t: nat)
    requires s.Consistent() && t < |s.queues| && s.queues[t] != []
    ensures s.queues[t][0] in s.blocks && s.Count(s.blocks[s.queues[t][0]].peer) > 0
  {
    WaitingLoses(s.queues, t);
    var pos := s.queues[t][0];
    assert pos in multiset(s.blocks.Keys);
    assert pos in s.Requested(s.blocks[pos].peer);
  }

  lemma ForgetCounts(s: State, pos: BlockPos)
    requires s.CountsMatch() && pos in s.blocks && s.Count(s.blocks[pos].peer) > 0
    ensures s.Forgotten(pos).CountsMatch()
  {
    RequestedShrinks(s, pos);
  }

  lemma PopConsistent(s: State, t: nat)
    requires s.Consistent() && t < |s.queues| && s.queues[t] != []
    ensures s.queues[t][0] in s.blocks && s.Count(s.blocks[s.queues[t][0]].peer) > 0
    ensures s.Popped(t).Consistent()
  {
    hide Waiting, State.CountsMatch;
    FrontIsPending(s, t);
    var pos := s.queues[t][0];
    WaitingLoses(s.queues, t);
    ForgetCounts(s, pos);
    CountsOfQueues(s.Forgotten(pos), s.queues[t := s.queues[t][1..]]);
    assert s.blocks.Keys == s.Popped(t).blocks.Keys + {pos};
  }

  // A pending block stands in one place of one queue.
  lemma PendingOnce(s: State, pos: BlockPos)
    requires s.Consistent()
    ensures pos in s.blocks <==> exists t, i :: 0 <= t < |s.queues| && 0 <= i < |s.queues[t]| && s.queues[t][i] == pos
    ensures forall t, i, u, j |
      0 <= t < |s.queues| && 0 <= i < |s.queues[t]| && 0 <= u < |s.queues| && 0 <= j < |s.queues[u]| ::
      s.queues[t][i] == s.queues[u][j] ==> t == u && i == j
  {
    if pos in s.blocks {
      assert pos in Waiting(s.queues);
      var t := WaitingSomewhere(s.queues, pos);
      var i :| 0 <= i < |s.queues[t]| && s.queues[t][i] == pos;
    }
    forall t, i | 0 <= t < |s.queues| && 0 <= i < |s.queues[t]|
      ensures s.queues[t][i] in s.blocks
    {
      WaitingUpdate(s.queues, t, []);
      assert s.queues[t][i] in multiset(s.queues[t]);
      assert s.queues[t][i] in multiset(s.blocks.Keys);
    }
    forall t, i, u, j | 0 <= t < |s.queues| && 0 <= i < |s.queues[t]| && 0 <= u < |s.queues| && 0 <= j < |s.queues[u]|
      && s.queues[t][i] == s.queues[u][j]
      ensures t == u && i == j
    {
      WaitingOnce(s.queues, s.queues[t][i], t, i, u, j);
    }
  }

  lemma {:induction false} WaitingSomewhere(queues: seq<seq<BlockPos>>, pos: BlockPos) returns (t: nat)
    requires pos in Waiting(queues)
    ensures t < |queues| && pos in queues[t]
  {
    var n := |queues| - 1;
    if pos in queues[n] {
      t := n;
    } else {
      t := WaitingSomewhere(queues[..n], pos);
    }
  }

  lemma CountOfTwo(q: seq<BlockPos>, i: nat, j: nat)
    requires i < j < |q| && q[i] == q[j]
    ensures multiset(q)[q[i]] >= 2
  {
    assert q == q[..j] + [q[j]] + q[j + 1..];
    assert q[i] in q[..j];
  }

  lemma WaitingOnce(queues: seq<seq<BlockPos>>, pos: BlockPos, t: nat, i: nat, u: nat, j: nat)
    requires Waiting(queues)[pos] <= 1
    requires t < |queues| && i < |queues[t]| && queues[t][i] == pos
    requires u < |queues| && j < |queues[u]| && queues[u][j] == pos
    ensures t == u && i == j
  {
    assert pos in multiset(queues[t]) && pos in multiset(queues[u]);
    WaitingUpdate(queues, t, []);
    if t == u {
      if i < j {
        CountOfTwo(queues[t], i, j);
      } else if j < i {
        CountOfTwo(queues[t], j, i);
      }
    } else {
      WaitingUpdate(queues[t := []], u, []);
    }
  }
}
