/**
 The emerge manager of src/emerge.cpp with the queues of its threads. Every public method is one
 critical section.
 */
module EmergeManagers {
  import opened Basics
  import opened EmergeQueue
  import opened EmergeRuns

  class EmergeManager {
    const limits: Limits
    var blocksEnqueued: map<BlockPos, BlockEmergeData>
    var peerQueueCount: map<u16, nat>
    // The queue of each emerge thread.
    var blockQueues: seq<seq<BlockPos>>

    function Current(): State
      reads this
    {
      State(limits, blocksEnqueued, peerQueueCount, blockQueues)
    }

    constructor (limits: Limits, threads: nat)
      requires threads > 0
      ensures Current() == Start(limits, threads) && Current().Consistent()
    {
      this.limits := limits;
      blocksEnqueued, peerQueueCount := map[], map[];
      blockQueues := seq(threads, _ => []);
      new;
      StartConsistent(limits, threads);
    }

    method GetOptimalThread() returns (index: nat)
      requires |blockQueues| > 0
      ensures IsOptimal(blockQueues, index)
    {
      index := 0;
      var lowest := |blockQueues[0]|;
      for i := 1 to |blockQueues|
        invariant ShortestAmong(blockQueues, index, i) && lowest == |blockQueues[index]|
      {
        var items := |blockQueues[i]|;
        if items < lowest {
          index := i;
          lowest := items;
        }
      }
    }

    method PushBlockEmergeData(r: Request) returns (ok: bool, existed: bool)
      modifies this`blocksEnqueued, this`peerQueueCount
      ensures ok == old(Current().Admits(r.peer, r.flags))
      ensures old(Current().CountsMatch()) ==> (ok <==> !TurnedAway(limits, old(blocksEnqueued), r))
      ensures ok ==> r.pos in blocksEnqueued
      ensures ok ==> existed == (r.pos in old(blocksEnqueued)) && Current() == old(Current().Recorded(r))
      ensures !ok ==> Current() == old(Current().Touched(r.peer))
    {
      existed := false;
      // Looking the counter up creates it.
      if r.peer !in peerQueueCount {
        peerQueueCount := peerQueueCount[r.peer := 0];
      }
      var count := peerQueueCount[r.peer];
      assert peerQueueCount == old(peerQueueCount[r.peer := Current().Count(r.peer)]);
      if !Forced(r.flags) {
        if |blocksEnqueued| >= limits.total {
          return false, existed;
        }
        if r.peer != PEER_ID_INEXISTENT {
          var limit := if MayGenerate(r.flags) then limits.generate else limits.diskonly;
          if count >= limit {
            return false, existed;
          }
        } else {
          if count * 2 >= limits.total {
            return false, existed;
          }
        }
      }
      existed := r.pos in blocksEnqueued;
      var data := if existed then blocksEnqueued[r.pos] else BlockEmergeData(0, {}, []);
      assert data.callbacks + [] == data.callbacks && [] + CallbackOf(r) == CallbackOf(r);
      if r.callback.Some? {
        data := data.(callbacks := data.callbacks + [r.callback.value]);
      }
      if existed {
        data := data.(flags := data.flags + r.flags);
      } else {
        data := data.(flags := r.flags, peer := r.peer);
        peerQueueCount := peerQueueCount[r.peer := count + 1];
        assert peerQueueCount == old(peerQueueCount[r.peer := Current().Count(r.peer) + 1]);
      }
      blocksEnqueued := blocksEnqueued[r.pos := data];
      ok := true;
    }

    /** enqueueBlockEmergeEx. */
    method EnqueueBlockEmergeEx(r: Request) returns (ok: bool)
      requires Current().Consistent()
      modifies this`blocksEnqueued, this`peerQueueCount, this`blockQueues
      ensures ok <==> !TurnedAway(limits, old(blocksEnqueued), r)
      ensures ok ==> r.pos in blocksEnqueued
      ensures Current() == old(Current().Enqueued(r)) && Current().Consistent()
    {
      EnqueueConsistent(Current(), r);
      AdmitsUnlessTurnedAway(Current(), r);
      assert |blockQueues| > 0;
      hide State.Consistent, State.Admits, State.Recorded, TurnedAway;
      var existed;
      ok, existed := PushBlockEmergeData(r);
      if !ok || existed {
        return;
      }
      var thread := GetOptimalThread();
      OptimalIsUnique(blockQueues, thread, Optimal(blockQueues));
      blockQueues := blockQueues[thread := blockQueues[thread] + [r.pos]];
    }

    // The assertion that the counter is not 0 holds.
    method PopBlockEmergeData(pos: BlockPos) returns (found: bool, data: BlockEmergeData)
      requires Current().CountsMatch()
      modifies this`blocksEnqueued, this`peerQueueCount
      ensures found == (pos in old(blocksEnqueued))
      ensures !found ==> Current() == old(Current())
      ensures found ==> old(Current().Count(blocksEnqueued[pos].peer)) > 0
      ensures found ==> data == old(blocksEnqueued[pos]) && Current() == old(Current().Forgotten(pos))
    {
      data := BlockEmergeData(0, {}, []);
      if pos !in blocksEnqueued {
        return false, data;
      }
      data := blocksEnqueued[pos];
      assert pos in Current().Requested(data.peer);
      assert Current().Count(data.peer) == |Current().Requested(data.peer)|;
      if data.peer !in peerQueueCount {
        assert false;
        return false, data;
      }
      var count := peerQueueCount[data.peer];
      assert count != 0;
      peerQueueCount := peerQueueCount[data.peer := count - 1];
      blocksEnqueued := blocksEnqueued - {pos};
      found := true;
    }

    /** popBlockEmerge by thread t. */
    method PopBlockEmerge(t: nat) returns (ok: bool, pos: BlockPos, data: BlockEmergeData)
      requires Current().Consistent() && t < |blockQueues|
      modifies this`blocksEnqueued, this`peerQueueCount, this`blockQueues
      ensures ok == (old(blockQueues[t]) != [])
      ensures Current().Consistent() && (Current(), if ok then [Delivered(pos, data)] else []) == old(Next(Current(), PopBlock(t)))
    {
      pos, data := BlockPos(0, Height(0), 0), BlockEmergeData(0, {}, []);
      if blockQueues[t] == [] {
        return false, pos, data;
      }
      PopConsistent(Current(), t);
      pos := blockQueues[t][0];
      CountsOfQueues(Current(), blockQueues[t := blockQueues[t][1..]]);
      hide State.CountsMatch, Waiting;
      blockQueues := blockQueues[t := blockQueues[t][1..]];
      var found;
      found, data := PopBlockEmergeData(pos);
      ok := true;
    }

    /** cancelPendingItems by thread t: the entries whose callbacks are told of the cancellation. */
    method CancelPendingItems(t: nat) returns (cancelled: seq<Entry>)
      requires Current().Consistent() && t < |blockQueues|
      modifies this`blocksEnqueued, this`peerQueueCount, this`blockQueues
      ensures Current().Consistent() && t < |blockQueues| && blockQueues[t] == []
      ensures (Current(), cancelled) == old(Cancel(Current(), t))
    {
      cancelled := [];
      hide State.Consistent;
      assert [] + Cancel(Current(), t).1 == Cancel(Current(), t).1;
      while blockQueues[t] != []
        invariant Current().Consistent() && t < |blockQueues|
        invariant old(Cancel(Current(), t)) == (Cancel(Current(), t).0, cancelled + Cancel(Current(), t).1)
        decreases |blockQueues[t]|
      {
        ghost var s := Current();
        PopConsistent(s, t);
        PoppedQueue(s, t);
        CancelFirst(s, t);
        var ok, pos, data := PopBlockEmerge(t);
        assert cancelled + ([Delivered(pos, data)] + Cancel(Current(), t).1) == cancelled + [Delivered(pos, data)] + Cancel(Current(), t).1;
        cancelled := cancelled + [Delivered(pos, data)];
      }
      assert cancelled + [] == cancelled;
    }

    static lemma CancelFirst(s: State, t: nat)
      requires s.Consistent() && t < |s.queues| && s.queues[t] != []
      ensures s.queues[t][0] in s.blocks && s.Count(s.blocks[s.queues[t][0]].peer) > 0
      ensures s.Popped(t).Consistent() && Next(s, PopBlock(t)) == (s.Popped(t), [s.Delivery(t)])
      ensures t < |s.Popped(t).queues| && Cancel(s, t) == (Cancel(s.Popped(t), t).0, [s.Delivery(t)] + Cancel(s.Popped(t), t).1)
    {
      PopConsistent(s, t);
    }
  }
}
