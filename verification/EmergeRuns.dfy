/**
 Runs of the emerge queue (src/emerge.cpp): every interleaving of its critical sections.
 */
module EmergeRuns {
  import opened Basics
  import opened EmergeQueue

  // A critical section: a request, one pop by a thread, or a thread emptying its queue.
  datatype Step = Enqueue(request: Request) | PopBlock(thread: nat) | CancelPending(thread: nat)

  // cancelPendingItems: the thread pops until its queue is empty.
  ghost function Cancel(s: State, t: nat): (result: (State, seq<Entry>))
    requires s.Consistent() && t < |s.queues|
    ensures result.0.Consistent() && |result.0.queues| == |s.queues| && result.0.limits == s.limits && result.0.queues[t] == []
    decreases |s.queues[t]|
  {
    if s.queues[t] == [] then (s, [])
    else
      PopConsistent(s, t);
      var (last, log) := Cancel(s.Popped(t), t);
      (last, [s.Delivery(t)] + log)
  }

  // One step; a thread that does not exist does nothing.
  ghost function Next(s: State, step: Step): (result: (State, seq<Entry>))
    requires s.Consistent()
    ensures result.0.Consistent() && result.0.limits == s.limits
  {
    match step
    case Enqueue(r) =>
      EnqueueConsistent(s, r);
      (s.Enqueued(r), if s.Admits(r.peer, r.flags) then [Accepted(r)] else [])
    case PopBlock(t) =>
      if t < |s.queues| && s.queues[t] != [] then
        PopConsistent(s, t);
        (s.Popped(t), [s.Delivery(t)])
      else (s, [])
    case CancelPending(t) =>
      if t < |s.queues| then Cancel(s, t) else (s, [])
  }

  ghost function Run(s: State, steps: seq<Step>): (result: (State, seq<Entry>))
    requires s.Consistent()
    ensures result.0.Consistent() && result.0.limits == s.limits
  {
    if steps == [] then (s, [])
    else
      var (before, log) := Run(s, steps[..|steps| - 1]);
      var (after, more) := Next(before, steps[|steps| - 1]);
      (after, log + more)
  }

  function Start(limits: Limits, threads: nat): State {
    State(limits, map[], map[], seq(threads, _ => []))
  }

  lemma {:induction false} StartConsistent(limits: Limits, threads: nat)
    requires threads > 0
    ensures Start(limits, threads).Consistent()
  {
    StartWaiting(threads);
    var s := Start(limits, threads);
    forall peer
      ensures s.Count(peer) == |s.Requested(peer)|
    {
      assert s.Requested(peer) == {};
    }
  }

  lemma {:induction false} StartWaiting(threads: nat)
    ensures Waiting(seq(threads, _ => [])) == multiset{}
  {
    if threads == 0 {
    } else {
      var queues: seq<seq<BlockPos>> := seq(threads, _ => []);
      assert queues[..threads - 1] == seq(threads - 1, _ => []);
      StartWaiting(threads - 1);
    }
  }

  // ---------------------------------------------------------------- what an entry carries

  // The requests for a position accepted since it was last handed out.
  ghost function Since(log: seq<Entry>, pos: BlockPos): seq<Request> {
    if log == [] then [] else SinceThen(Since(log[..|log| - 1], pos), log[|log| - 1], pos)
  }

  // The same, one entry later.
  function SinceThen(before: seq<Request>, e: Entry, pos: BlockPos): seq<Request> {
    if e.Accepted? then (if e.request.pos == pos then before + [e.request] else before)
    else if e.pos == pos then []
    else before
  }

  function Callbacks(rs: seq<Request>): seq<Callback> {
    if rs == [] then [] else Callbacks(rs[..|rs| - 1]) + CallbackOf(rs[|rs| - 1])
  }

  function Flags(rs: seq<Request>): set<Flag> {
    if rs == [] then {} else Flags(rs[..|rs| - 1]) + rs[|rs| - 1].flags
  }

  // The first request's peer, all the callbacks in order, and every flag any of them set.
  function Summary(rs: seq<Request>): BlockEmergeData
    requires rs != []
  {
    BlockEmergeData(rs[0].peer, Flags(rs), Callbacks(rs))
  }

  ghost predicate Carries(s: State, log: seq<Entry>) {
    forall pos :: if pos in s.blocks then Since(log, pos) != [] && s.blocks[pos] == Summary(Since(log, pos)) else Since(log, pos) == []
  }

  // Entry i of the log, when a delivery, carries the requests accepted since the one before.
  ghost predicate DeliveredExactly(log: seq<Entry>, i: nat)
    requires i < |log|
  {
    log[i].Delivered? ==> Since(log[..i], log[i].pos) != [] && log[i].data == Summary(Since(log[..i], log[i].pos))
  }

  ghost predicate AllExact(log: seq<Entry>) {
    forall i :: 0 <= i < |log| ==> DeliveredExactly(log, i)
  }

  lemma SinceSnoc(log: seq<Entry>, e: Entry, pos: BlockPos)
    ensures Since(log + [e], pos) == SinceThen(Since(log, pos), e, pos)
  {
    assert (log + [e])[..|log + [e]| - 1] == log;
  }

  lemma SummarySnoc(rs: seq<Request>, r: Request)
    ensures rs != [] ==>
      Summary(rs + [r]) == Summary(rs).(flags := Summary(rs).flags + r.flags, callbacks := Summary(rs).callbacks + CallbackOf(r))
    ensures Summary([r]) == BlockEmergeData(r.peer, r.flags, CallbackOf(r))
  {
    assert (rs + [r])[..|rs + [r]| - 1] == rs;
    assert Flags([]) == {} && {} + r.flags == r.flags;
    assert [r][..|[r]| - 1] == [] && [] + CallbackOf(r) == CallbackOf(r);
    assert Flags([r]) == r.flags && Callbacks([r]) == CallbackOf(r);
  }

  lemma AllExactSnoc(log: seq<Entry>, e: Entry)
    requires AllExact(log)
    requires e.Delivered? ==> Since(log, e.pos) != [] && e.data == Summary(Since(log, e.pos))
    ensures AllExact(log + [e])
  {
    forall i | 0 <= i < |log + [e]|
      ensures DeliveredExactly(log + [e], i)
    {
      if i < |log| {
        assert (log + [e])[..i] == log[..i];
        assert DeliveredExactly(log, i);
      } else {
        assert (log + [e])[..i] == log;
      }
    }
  }

  lemma AcceptCarries(s: State, log: seq<Entry>, r: Request)
    requires s.Consistent() && Carries(s, log) && AllExact(log) && s.Admits(r.peer, r.flags)
    ensures Carries(s.Enqueued(r), log + [Accepted(r)]) && AllExact(log + [Accepted(r)])
  {
    assert |s.queues| > 0;
    hide Since, Summary, State.Consistent, State.Admits, Optimal, DeliveredExactly;
    AllExactSnoc(log, Accepted(r));
    assert [] + [r] == [r];
    var next := s.Enqueued(r);
    forall pos
      ensures var rs := Since(log + [Accepted(r)], pos);
        if pos in next.blocks then rs != [] && next.blocks[pos] == Summary(rs) else rs == []
    {
      SinceSnoc(log, Accepted(r), pos);
      SummarySnoc(Since(log, pos), r);
    }
  }

  lemma PopCarries(s: State, log: seq<Entry>, t: nat)
    requires s.Consistent() && Carries(s, log) && AllExact(log) && t < |s.queues| && s.queues[t] != []
    ensures s.queues[t][0] in s.blocks && s.Count(s.blocks[s.queues[t][0]].peer) > 0
    ensures Carries(s.Popped(t), log + [s.Delivery(t)]) && AllExact(log + [s.Delivery(t)])
  {
    FrontIsPending(s, t);
    hide Since, Summary, State.Consistent, DeliveredExactly;
    var e := s.Delivery(t);
    AllExactSnoc(log, e);
    forall pos
      ensures var rs := Since(log + [e], pos);
        if pos in s.Popped(t).blocks then rs != [] && s.Popped(t).blocks[pos] == Summary(rs) else rs == []
    {
      SinceSnoc(log, e, pos);
    }
  }

  lemma {:induction false} CancelCarries(s: State, log: seq<Entry>, t: nat)
    requires s.Consistent() && Carries(s, log) && AllExact(log) && t < |s.queues|
    ensures Carries(Cancel(s, t).0, log + Cancel(s, t).1) && AllExact(log + Cancel(s, t).1)
    decreases |s.queues[t]|
  {
    hide Carries, AllExact, State.Consistent, State.Popped;
    if s.queues[t] == [] {
      assert log + Cancel(s, t).1 == log;
    } else {
      PopConsistent(s, t);
      PopCarries(s, log, t);
      PoppedQueue(s, t);
      CancelCarries(s.Popped(t), log + [s.Delivery(t)], t);
      assert log + Cancel(s, t).1 == log + [s.Delivery(t)] + Cancel(s.Popped(t), t).1;
    }
  }

  lemma PoppedQueue(s: State, t: nat)
    requires t < |s.queues| && s.queues[t] != [] && s.queues[t][0] in s.blocks && s.Count(s.blocks[s.queues[t][0]].peer) > 0
    ensures |s.Popped(t).queues| == |s.queues| && |s.Popped(t).queues[t]| == |s.queues[t]| - 1
  {}

  /**
   In every run: a pending entry, and every entry handed to a thread, carries exactly the callbacks and
   the flags of the requests accepted for its position since the position was last handed out.
   */
  lemma {:induction false} RunCarries(limits: Limits, threads: nat, steps: seq<Step>)
    requires threads > 0
    ensures Start(limits, threads).Consistent()
    ensures var (s, log) := Run(Start(limits, threads), steps); Carries(s, log) && AllExact(log)
    decreases |steps|
  {
    StartConsistent(limits, threads);
    if steps == [] {
    } else {
      var init := steps[..|steps| - 1];
      RunCarries(limits, threads, init);
      var (s, log) := Run(Start(limits, threads), init);
      hide Carries, AllExact, State.Consistent, State.Admits, Start;
      match steps[|steps| - 1]
      case Enqueue(r) =>
        if s.Admits(r.peer, r.flags) {
          AcceptCarries(s, log, r);
        } else {
          assert log + [] == log;
        }
      case PopBlock(t) =>
        if t < |s.queues| && s.queues[t] != [] {
          PopCarries(s, log, t);
        } else {
          assert log + [] == log;
        }
      case CancelPending(t) =>
        if t < |s.queues| {
          CancelCarries(s, log, t);
        } else {
          assert log + [] == log;
        }
    }
  }

  // ---------------------------------------------------------------- no callback is lost

  // All accepted requests for a position.
  ghost function AcceptedFor(log: seq<Entry>, pos: BlockPos): seq<Request> {
    if log == [] then []
    else
      var e, before := log[|log| - 1], AcceptedFor(log[..|log| - 1], pos);
      if e.Accepted? && e.request.pos == pos then before + [e.request] else before
  }

  // All callbacks handed out for a position.
  ghost function DeliveredFor(log: seq<Entry>, pos: BlockPos): seq<Callback> {
    if log == [] then []
    else
      var e, before := log[|log| - 1], DeliveredFor(log[..|log| - 1], pos);
      if e.Delivered? && e.pos == pos then before + e.data.callbacks else before
  }

  lemma CallbacksSnoc(rs: seq<Request>, r: Request)
    ensures Callbacks(rs + [r]) == Callbacks(rs) + CallbackOf(r)
  {
    assert (rs + [r])[..|rs + [r]| - 1] == rs;
  }

  lemma LastDelivered(log: seq<Entry>, pos: BlockPos)
    requires log != [] && AllExact(log)
    ensures var (e, init) := (log[|log| - 1], log[..|log| - 1]);
      DeliveredFor(log, pos) == DeliveredFor(init, pos) + if e.Delivered? && e.pos == pos then e.data.callbacks else []
    ensures DeliveredExactly(log, |log| - 1)
  {
    hide DeliveredExactly;
  }

  lemma NothingSoFar(pos: BlockPos)
    ensures Callbacks(AcceptedFor([], pos)) == DeliveredFor([], pos) + Callbacks(Since([], pos))
  {}

  lemma {:induction false} DeliveredOrPending(log: seq<Entry>, pos: BlockPos)
    requires AllExact(log)
    ensures Callbacks(AcceptedFor(log, pos)) == DeliveredFor(log, pos) + Callbacks(Since(log, pos))
  {
    hide Callbacks, Since, AcceptedFor, DeliveredFor, AllExact, DeliveredExactly;
    if log == [] {
      NothingSoFar(pos);
    } else {
      var n := |log| - 1;
      var init := log[..n];
      AllExactInit(log);
      LastDelivered(log, pos);
      DeliveredOrPending(init, pos);
      var (all, since, e) := (AcceptedFor(init, pos), Since(init, pos), log[n]);
      if e.Accepted? && e.request.pos == pos {
        CallbacksSnoc(all, e.request);
        CallbacksSnoc(since, e.request);
        LastEntry(log, pos);
      } else {
        LastEntry(log, pos);
        assert DeliveredFor(init, pos) + Callbacks(since) + [] == DeliveredFor(init, pos) + Callbacks(since);
      }
    }
  }

  lemma AllExactInit(log: seq<Entry>)
    requires log != [] && AllExact(log)
    ensures AllExact(log[..|log| - 1])
  {
    var init := log[..|log| - 1];
    forall i | 0 <= i < |init|
      ensures DeliveredExactly(init, i)
    {
      assert init[..i] == log[..i] && DeliveredExactly(log, i);
    }
  }

  lemma LastEntry(log: seq<Entry>, pos: BlockPos)
    requires log != [] && DeliveredExactly(log, |log| - 1)
    ensures var (e, init) := (log[|log| - 1], log[..|log| - 1]);
      && Since(log, pos) == SinceThen(Since(init, pos), e, pos)
      && AcceptedFor(log, pos) == (if e.Accepted? && e.request.pos == pos then AcceptedFor(init, pos) + [e.request] else AcceptedFor(init, pos))
      && (e.Delivered? && e.pos == pos ==> e.data.callbacks == Callbacks(Since(init, pos)))
    ensures Callbacks([]) == []
  {
    hide Callbacks;
    assert Callbacks([]) == [] by { NoCallbacks(); }
  }

  lemma NoCallbacks()
    ensures Callbacks([]) == []
  {}

  /** In every run, each callback accepted for a position is handed out once, in order, or still pending. */
  lemma NoCallbackLost(limits: Limits, threads: nat, steps: seq<Step>, pos: BlockPos)
    requires threads > 0
    ensures Start(limits, threads).Consistent()
    ensures var (s, log) := Run(Start(limits, threads), steps);
      Callbacks(AcceptedFor(log, pos)) == DeliveredFor(log, pos) + (if pos in s.blocks then s.blocks[pos].callbacks else [])
  {
    RunCarries(limits, threads, steps);
    var (s, log) := Run(Start(limits, threads), steps);
    DeliveredOrPending(log, pos);
  }

  // The requests that bring a callback.
  function WithCallback(rs: seq<Request>): seq<Request> {
    if rs == [] then [] else if rs[0].callback == None then WithCallback(rs[1..]) else [rs[0]] + WithCallback(rs[1..])
  }

  lemma {:induction false} CallbacksCat(a: seq<Request>, b: seq<Request>)
    ensures Callbacks(a + b) == Callbacks(a) + Callbacks(b)
  {
    if b == [] {
      assert a + b == a;
    } else {
      var n := |b| - 1;
      CallbacksCat(a, b[..n]);
      assert (a + b)[..|a + b| - 1] == a + b[..n];
    }
  }

  /** The callbacks of requests are those they bring, one for each that brings one, in order. */
  lemma {:induction false} CallbacksMeaning(rs: seq<Request>)
    ensures |Callbacks(rs)| == |WithCallback(rs)|
    ensures forall i :: 0 <= i < |Callbacks(rs)| ==> WithCallback(rs)[i].callback == Some(Callbacks(rs)[i])
  {
    if rs == [] {
    } else {
      CallbacksMeaning(rs[1..]);
      CallbacksCat([rs[0]], rs[1..]);
      assert rs == [rs[0]] + rs[1..] && [rs[0]][..0] == [];
    }
  }

  /**
   At the end of every run, a request is refused exactly when it is turned away for the positions then pending; an
   accepted one is pending afterwards.
   */
  lemma RunRefuses(limits: Limits, threads: nat, steps: seq<Step>, r: Request)
    requires threads > 0
    ensures Start(limits, threads).Consistent()
    ensures var s := Run(Start(limits, threads), steps).0;
      var (after, log) := Next(s, Enqueue(r));
      if TurnedAway(limits, s.blocks, r) then log == [] && after.blocks == s.blocks && after.queues == s.queues
      else log == [Accepted(r)] && r.pos in after.blocks
  {
    StartConsistent(limits, threads);
    var s := Run(Start(limits, threads), steps).0;
    AdmitsUnlessTurnedAway(s, r);
  }

  // ---------------------------------------------------------------- limits

  predicate NeverForced(steps: seq<Step>) {
    forall i :: 0 <= i < |steps| && steps[i].Enqueue? ==> !Forced(steps[i].request.flags)
  }

  function Max(a: nat, b: nat): nat {
    if a < b then b else a
  }

  // The bounds: on all blocks, on each peer's, and half of all for blocks without a peer.
  predicate Within(s: State) {
    && |s.blocks| <= s.limits.total
    && s.Count(PEER_ID_INEXISTENT) * 2 <= s.limits.total + 1
    && forall peer :: peer != PEER_ID_INEXISTENT ==> s.Count(peer) <= Max(s.limits.diskonly, s.limits.generate)
  }

  lemma EnqueueWithin(s: State, r: Request)
    requires s.Consistent() && Within(s) && !Forced(r.flags)
    ensures Within(s.Enqueued(r))
  {
    assert |s.queues| > 0;
    hide State.Consistent, Optimal, Forced, MayGenerate;
    if s.Admits(r.peer, r.flags) && r.pos !in s.blocks {
      EnqueueAdds(s, r);
      hide State.Enqueued;
    } else {
      EnqueueKeeps(s, r);
      hide State.Enqueued, State.Admits;
    }
  }

  lemma EnqueueAdds(s: State, r: Request)
    requires |s.queues| > 0 && s.Admits(r.peer, r.flags) && r.pos !in s.blocks
    ensures s.Enqueued(r).limits == s.limits && |s.Enqueued(r).blocks| == |s.blocks| + 1
    ensures forall peer :: s.Enqueued(r).Count(peer) == if peer == r.peer then s.Count(peer) + 1 else s.Count(peer)
  {
    hide State.Admits, Optimal;
    var next := s.Enqueued(r);
    assert next.blocks.Keys == s.blocks.Keys + {r.pos};
  }

  lemma EnqueueKeeps(s: State, r: Request)
    requires |s.queues| > 0 && !(s.Admits(r.peer, r.flags) && r.pos !in s.blocks)
    ensures s.Enqueued(r).limits == s.limits && |s.Enqueued(r).blocks| == |s.blocks|
    ensures forall peer :: s.Enqueued(r).Count(peer) == s.Count(peer)
  {
    hide State.Admits, Optimal;
    var next := s.Enqueued(r);
    assert next.blocks.Keys == s.blocks.Keys;
  }

  lemma PopWithin(s: State, t: nat)
    requires s.Consistent() && Within(s) && t < |s.queues| && s.queues[t] != []
    ensures s.queues[t][0] in s.blocks && s.Count(s.blocks[s.queues[t][0]].peer) > 0
    ensures Within(s.Popped(t))
  {
    FrontIsPending(s, t);
    hide State.Consistent;
    var next := s.Popped(t);
    assert next.blocks.Keys == s.blocks.Keys - {s.queues[t][0]};
    assert forall peer :: next.Count(peer) <= s.Count(peer);
  }

  lemma {:induction false} CancelWithin(s: State, t: nat)
    requires s.Consistent() && Within(s) && t < |s.queues|
    ensures Within(Cancel(s, t).0)
    decreases |s.queues[t]|
  {
    if s.queues[t] == [] {
    } else {
      PopConsistent(s, t);
      PopWithin(s, t);
      hide Within, State.Consistent;
      CancelWithin(s.Popped(t), t);
    }
  }

  /** In every run without forced requests the three limits hold. */
  lemma {:induction false} RunWithin(limits: Limits, threads: nat, steps: seq<Step>)
    requires threads > 0 && NeverForced(steps)
    ensures Start(limits, threads).Consistent()
    ensures Within(Run(Start(limits, threads), steps).0)
    decreases |steps|
  {
    StartConsistent(limits, threads);
    if steps == [] {
    } else {
      var init := steps[..|steps| - 1];
      RunWithin(limits, threads, init);
      var s := Run(Start(limits, threads), init).0;
      assert steps[|steps| - 1].Enqueue? ==> !Forced(steps[|steps| - 1].request.flags);
      hide Within, State.Consistent, Start, Forced, NeverForced, State.Enqueued, State.Popped, Cancel;
      match steps[|steps| - 1]
      case Enqueue(r) => EnqueueWithin(s, r);
      case PopBlock(t) =>
        if t < |s.queues| && s.queues[t] != [] {
          PopWithin(s, t);
        }
      case CancelPending(t) =>
        if t < |s.queues| {
          CancelWithin(s, t);
        }
    }
  }
}
