/**
 The timers of the nodes of a map block (src/nodetimer.h and src/nodetimer.cpp): an ordered multimap by
 trigger time, an index into it by position, and the next trigger time.
 */
module NodeTimers {

  datatype NodePos = NodePos(x: int, y: int, z: int)

  datatype NodeTimer = NodeTimer(timeout: real, elapsed: real, position: NodePos)

  const NO_TIMER := NodeTimer(0.0, 0.0, NodePos(0, 0, 0))
  const NEVER := -1.0

  // An entry of the multimap; an iterator to it is the entry itself.
  datatype Entry = Entry(trigger: real, timer: NodeTimer)

  predicate Ordered(es: seq<Entry>) {
    forall i, j :: 0 <= i < j < |es| ==> es[i].trigger <= es[j].trigger
  }

  // No two entries for a position.
  predicate Distinct(es: seq<Entry>) {
    forall i, j :: 0 <= i < j < |es| ==> es[i].timer.position != es[j].timer.position
  }

  // The index has each entry under its position, and nothing else.
  predicate Indexed(es: seq<Entry>, index: map<NodePos, Entry>) {
    && (forall e :: e in es ==> e.timer.position in index && index[e.timer.position] == e)
    && (forall p :: p in index ==> index[p] in es && index[p].timer.position == p)
  }

  // The next trigger time, as m_next_trigger_time ought to be.
  function Earliest(es: seq<Entry>): real {
    if es == [] then NEVER else es[0].trigger
  }

  predicate NoneAtNever(es: seq<Entry>) {
    forall e :: e in es ==> e.trigger != NEVER
  }

  // The multimap and the index agree.
  predicate Consistent(es: seq<Entry>, index: map<NodePos, Entry>) {
    Ordered(es) && Distinct(es) && Indexed(es, index)
  }

  // What is always true of the next trigger time: it is -1 or the trigger time of some entry.
  predicate Tracked(es: seq<Entry>, next: real) {
    next == NEVER || exists e :: e in es && e.trigger == next
  }

  // What is true as long as no timer triggers at -1.
  predicate Punctual(es: seq<Entry>, next: real) {
    next == Earliest(es) && NoneAtNever(es)
  }

  // What step needs.
  predicate Sound(es: seq<Entry>, next: real) {
    es == [] || (next == es[0].trigger && next != NEVER)
  }

  // What a timer shows at a time.
  function View(e: Entry, time: real): NodeTimer {
    e.timer.(elapsed := e.timer.timeout - (e.trigger - time))
  }

  function Shows(index: map<NodePos, Entry>, time: real): map<NodePos, NodeTimer> {
    map p | p in index :: View(index[p], time)
  }

  lemma ShowsChanges(index: map<NodePos, Entry>, time: real, p: NodePos, e: Entry)
    ensures Shows(index - {p}, time) == Shows(index, time) - {p}
    ensures Shows(index[p := e], time) == Shows(index, time)[p := View(e, time)]
    ensures Shows(index, time).Keys == index.Keys
  {
    hide View;
  }

  lemma IndexFinds(es: seq<Entry>, index: map<NodePos, Entry>, p: NodePos)
    requires Consistent(es, index)
    ensures Ordered(es) && Distinct(es)
    ensures p in index ==> index[p] in es && index[p].timer.position == p
  {}

  // All timers dtime older.
  function Aged(m: map<NodePos, NodeTimer>, dtime: real): map<NodePos, NodeTimer> {
    map p | p in m :: m[p].(elapsed := m[p].elapsed + dtime)
  }

  function NotDue(m: map<NodePos, NodeTimer>): map<NodePos, NodeTimer> {
    map p | p in m && m[p].elapsed < m[p].timeout :: m[p]
  }

  // Exactly the timers whose time is up.
  ghost predicate AllDue(ts: seq<NodeTimer>, m: map<NodePos, NodeTimer>) {
    forall t :: t in ts <==> t.position in m && m[t.position] == t && t.elapsed >= t.timeout
  }

  // One timer for each position, the longest overdue first.
  predicate OverdueFirst(ts: seq<NodeTimer>) {
    forall i, j :: 0 <= i < j < |ts| ==>
      ts[i].position != ts[j].position && ts[i].elapsed - ts[i].timeout >= ts[j].elapsed - ts[j].timeout
  }

  lemma AgedShows(index: map<NodePos, Entry>, was: real, time: real)
    ensures Aged(Shows(index, was), time - was) == Shows(index, time)
  {}

  // ---------------------------------------------------------------- the multimap

  function Place(es: seq<Entry>, e: Entry): (k: nat)
    requires e in es
    ensures k < |es| && es[k] == e
  {
    if es[0] == e then 0 else Place(es[1..], e) + 1
  }

  function Without(es: seq<Entry>, k: nat): seq<Entry>
    requires k < |es|
  {
    es[..k] + es[k + 1..]
  }

  // emplace: behind every entry that is not later.
  function SlotFor(es: seq<Entry>, trigger: real): (k: nat)
    ensures k <= |es| && (forall i :: 0 <= i < k ==> es[i].trigger <= trigger) && (k < |es| ==> trigger < es[k].trigger)
  {
    if es == [] || trigger < es[0].trigger then 0
    else
      var k := SlotFor(es[1..], trigger);
      assert forall i :: 0 < i < |es| ==> es[i] == es[1..][i - 1];
      k + 1
  }

  function With(es: seq<Entry>, e: Entry): seq<Entry> {
    var k := SlotFor(es, e.trigger);
    es[..k] + [e] + es[k..]
  }

  lemma WithoutEntries(es: seq<Entry>, k: nat)
    requires Distinct(es) && k < |es|
    ensures forall e :: e in Without(es, k) <==> e in es && e.timer.position != es[k].timer.position
    ensures Distinct(Without(es, k))
  {
    var rest := Without(es, k);
    assert forall i :: 0 <= i < |rest| ==> rest[i] == if i < k then es[i] else es[i + 1];
    forall e | e in es && e.timer.position != es[k].timer.position
      ensures e in rest
    {
      var i :| 0 <= i < |es| && es[i] == e;
      assert rest[if i < k then i else i - 1] == e;
    }
  }

  lemma WithoutOrder(es: seq<Entry>, k: nat)
    requires Ordered(es) && k < |es|
    ensures Ordered(Without(es, k))
    ensures es[k].trigger != Earliest(es) ==> Earliest(Without(es, k)) == Earliest(es)
  {
    var rest := Without(es, k);
    assert forall i :: 0 <= i < |rest| ==> rest[i] == if i < k then es[i] else es[i + 1];
  }

  /** remove keeps the two maps in step. */
  lemma WithoutConsistent(es: seq<Entry>, index: map<NodePos, Entry>, k: nat)
    requires Consistent(es, index) && k < |es|
    ensures Consistent(Without(es, k), index - {es[k].timer.position})
    ensures forall e :: e in Without(es, k) <==> e in es && e != es[k]
  {
    hide Without, Ordered, Distinct;
    WithoutEntries(es, k);
    WithoutOrder(es, k);
  }

  lemma WithEntries(es: seq<Entry>, e: Entry)
    requires Distinct(es) && forall d :: d in es ==> d.timer.position != e.timer.position
    ensures forall d :: d in With(es, e) <==> d in es || d == e
    ensures Distinct(With(es, e))
  {
    var k := SlotFor(es, e.trigger);
    hide SlotFor;
    assert es == es[..k] + es[k..];
  }

  lemma WithOrder(es: seq<Entry>, e: Entry)
    requires Ordered(es)
    ensures Ordered(With(es, e))
    ensures Earliest(With(es, e)) == if es == [] || e.trigger < Earliest(es) then e.trigger else Earliest(es)
  {
    hide SlotFor;
  }

  /** insert keeps the two maps in step. */
  lemma WithConsistent(es: seq<Entry>, index: map<NodePos, Entry>, e: Entry)
    requires Consistent(es, index) && e.timer.position !in index
    ensures Consistent(With(es, e), index[e.timer.position := e])
    ensures forall d :: d in With(es, e) <==> d in es || d == e
  {
    forall d | d in es
      ensures d.timer.position != e.timer.position
    {
      assert d.timer.position in index;
    }
    hide With, Ordered, Distinct;
    WithEntries(es, e);
    WithOrder(es, e);
  }

  // ---------------------------------------------------------------- due timers

  // The entries that are due at a time: the front of an ordered multimap.
  function Due(es: seq<Entry>, time: real): (k: nat)
    requires Ordered(es)
    ensures k <= |es| && forall i :: 0 <= i < |es| ==> (i < k <==> es[i].trigger <= time)
  {
    if es == [] || es[0].trigger > time then 0
    else
      var k := Due(es[1..], time) + 1;
      assert forall i :: 0 < i < |es| ==> es[i] == es[1..][i - 1];
      k
  }

  function PositionsOf(es: seq<Entry>): set<NodePos> {
    set e | e in es :: e.timer.position
  }

  // The positions of the first k entries, and of no later one.
  lemma FrontPositions(es: seq<Entry>, k: nat, e: Entry)
    requires Distinct(es) && k <= |es| && e in es
    ensures e.timer.position in PositionsOf(es[..k]) <==> e in es[..k]
    ensures e in es[..k] <==> e !in es[k..]
  {
    var i :| 0 <= i < |es| && es[i] == e;
    assert forall j :: 0 <= j < |es| && j != i ==> es[j].timer.position != e.timer.position;
    if i < k {
      assert es[..k][i] == e;
      assert forall j :: 0 <= j < |es[k..]| ==> es[k..][j] == es[k + j];
    } else {
      assert es[k..][i - k] == e;
      assert forall j :: 0 <= j < k ==> es[..k][j] == es[j];
    }
  }

  lemma DropConsistent(es: seq<Entry>, index: map<NodePos, Entry>, k: nat)
    requires Consistent(es, index) && k <= |es|
    ensures Consistent(es[k..], index - PositionsOf(es[..k]))
  {
    var rest := es[k..];
    forall e | e in es
      ensures e.timer.position in PositionsOf(es[..k]) <==> e in es[..k]
      ensures e in es[..k] <==> e !in rest
    {
      FrontPositions(es, k, e);
    }
    hide PositionsOf;
    assert forall e :: e in rest ==> e in es;
  }

  // The early return of step: no timer, or none due yet.
  predicate NothingDue(next: real, time: real) {
    next == NEVER || time < next
  }

  /**
   The early return of step is right at all times exactly when the next trigger time is that of the earliest entry
   and not -1.
   */
  lemma NothingDueIsExact(es: seq<Entry>, next: real)
    requires Ordered(es) && Tracked(es, next)
    ensures (forall time :: NothingDue(next, time) <==> Due(es, time) == 0) <==> Sound(es, next)
  {
    if es == [] {
    } else if forall time :: NothingDue(next, time) <==> Due(es, time) == 0 {
      var first := es[0].trigger;
      assert !NothingDue(next, first);
    }
  }

  /**
   A timer that triggers at -1 is taken for no timer at all: once another is inserted at 5, that is the next trigger
   time, and at 0 the overdue one is not handed out. And when the next trigger time has been recomputed as -1, a
   timer inserted at 9 hides the one at 5, even after the timer at -1 is gone.
   */
  lemma TimerAtMinusOneIsLate(a: Entry, b: Entry)
    requires a.trigger == NEVER && b.trigger == 5.0
    ensures var next1 := NextAfterInsert(NEVER, a.trigger);
      var next2 := NextAfterInsert(next1, b.trigger);
      next2 == 5.0 && NothingDue(next2, 0.0) && Due(With(With([], a), b), 0.0) == 1
    ensures NextAfterInsert(Earliest([a, b]), 9.0) == 9.0 && Earliest([b]) == 5.0
  {
    assert With([], a) == [a] && With([a], b) == [a, b];
    assert [a, b][1..] == [b];
  }

  // insert's update of the next trigger time.
  function NextAfterInsert(next: real, trigger: real): real {
    if next == NEVER || trigger < next then trigger else next
  }

  class NodeTimerList {
    var timers: seq<Entry>
    var iterators: map<NodePos, Entry>
    var nextTriggerTime: real
    var time: real

    predicate Valid()
      reads this
    {
      Consistent(timers, iterators) && Tracked(timers, nextTriggerTime)
    }

    // No timer ever triggered at -1.
    predicate OnTime()
      reads this
    {
      Valid() && Punctual(timers, nextTriggerTime)
    }

    // The timers by position.
    function Timers(): map<NodePos, NodeTimer>
      reads this
    {
      Shows(iterators, time)
    }

    constructor ()
      ensures Valid() && OnTime() && Timers() == map[] && time == 0.0
    {
      timers, iterators, nextTriggerTime, time := [], map[], NEVER, 0.0;
    }

    method Get(p: NodePos) returns (t: NodeTimer)
      ensures t == if p in Timers() then Timers()[p] else NodeTimer(0.0, 0.0, NodePos(0, 0, 0))
    {
      if p !in iterators {
        return NO_TIMER;
      }
      t := iterators[p].timer;
      t := t.(elapsed := t.timeout - (iterators[p].trigger - time));
    }

    method Remove(p: NodePos)
      requires Valid()
      modifies this`timers, this`iterators, this`nextTriggerTime
      ensures Valid() && Timers() == old(Timers()) - {p}
      ensures old(OnTime()) ==> OnTime()
    {
      hide Consistent, Ordered, Distinct, Without, Shows, View, Tracked, Punctual;
      ShowsChanges(iterators, time, p, Entry(0.0, NO_TIMER));
      if p in iterators {
        IndexFinds(timers, iterators, p);
        var e := iterators[p];
        var k := Place(timers, e);
        WithoutConsistent(timers, iterators, k);
        WithoutOrder(timers, k);
        var removedTime := e.trigger;
        timers := Without(timers, k);
        iterators := iterators - {p};
        NextAfterRemove(old(timers), timers, k, nextTriggerTime);
        if removedTime == nextTriggerTime {
          nextTriggerTime := if timers == [] then NEVER else timers[0].trigger;
        }
      } else {
        assert Timers() - {p} == Timers();
      }
    }

    static lemma NextAfterRemove(es: seq<Entry>, rest: seq<Entry>, k: nat, next: real)
      requires k < |es| && rest == Without(es, k) && Tracked(es, next) && Ordered(es)
      requires forall e :: e in rest <==> e in es && e != es[k]
      ensures var after := if es[k].trigger == next then Earliest(rest) else next;
        Tracked(rest, after) && (Punctual(es, next) ==> Punctual(rest, after))
    {
      hide Without;
      WithoutOrder(es, k);
      if next != NEVER && es[k].trigger != next {
        var e :| e in es && e.trigger == next;
        assert e in rest;
      }
    }

    // There must be no timer at the position yet.
    method Insert(timer: NodeTimer)
      requires Valid() && timer.position !in Timers()
      modifies this`timers, this`iterators, this`nextTriggerTime
      ensures Valid() && Timers() == old(Timers())[timer.position := timer]
      ensures old(OnTime()) && time + (timer.timeout - timer.elapsed) != NEVER ==> OnTime()
    {
      hide Consistent, Ordered, Distinct, With, Shows, View, Tracked, Punctual;
      var e := Entry(time + (timer.timeout - timer.elapsed), timer);
      ViewFresh(time, timer);
      ShowsChanges(iterators, time, timer.position, e);
      WithConsistent(timers, iterators, e);
      InConsistent(timers, iterators);
      NextWithOneMore(timers, e, nextTriggerTime);
      timers := With(timers, e);
      iterators := iterators[timer.position := e];
      if nextTriggerTime == NEVER || e.trigger < nextTriggerTime {
        nextTriggerTime := e.trigger;
      }
    }

    static lemma NextWithOneMore(es: seq<Entry>, e: Entry, next: real)
      requires Ordered(es) && Tracked(es, next) && forall d :: d in With(es, e) <==> d in es || d == e
      ensures Tracked(With(es, e), NextAfterInsert(next, e.trigger))
      ensures Punctual(es, next) && e.trigger != NEVER ==> Punctual(With(es, e), NextAfterInsert(next, e.trigger))
    {
      hide With;
      WithOrder(es, e);
      var after := NextAfterInsert(next, e.trigger);
      if after == e.trigger {
        assert e in With(es, e);
      } else {
        var d :| d in es && d.trigger == next;
        assert d in With(es, e);
      }
    }

    static lemma ViewFresh(time: real, timer: NodeTimer)
      ensures View(Entry(time + (timer.timeout - timer.elapsed), timer), time) == timer
    {}

    static lemma InConsistent(es: seq<Entry>, index: map<NodePos, Entry>)
      requires Consistent(es, index)
      ensures Ordered(es) && Distinct(es)
    {}

    method Set(timer: NodeTimer)
      requires Valid()
      modifies this`timers, this`iterators, this`nextTriggerTime
      ensures Valid() && Timers() == old(Timers())[timer.position := timer]
      ensures old(OnTime()) && time + (timer.timeout - timer.elapsed) != NEVER ==> OnTime()
    {
      hide Consistent, Shows, Tracked, Punctual;
      Remove(timer.position);
      Insert(timer);
    }

    method Clear()
      modifies this`timers, this`iterators, this`nextTriggerTime
      ensures OnTime() && Timers() == map[]
    {
      timers, iterators, nextTriggerTime := [], map[], NEVER;
    }

    /**
     Every timer ages by dtime; those whose time is up are handed out, the longest overdue first, and are gone,
     unless the early return is taken, which is right if the next trigger time is.
     */
    method Step(dtime: real) returns (elapsed: seq<NodeTimer>)
      requires Valid()
      modifies this`timers, this`iterators, this`nextTriggerTime, this`time
      ensures Valid() && time == old(time) + dtime && (old(OnTime()) ==> OnTime())
      ensures old(Sound(timers, nextTriggerTime)) || !NothingDue(old(nextTriggerTime), time) ==>
        && AllDue(elapsed, Aged(old(Timers()), dtime)) && OverdueFirst(elapsed)
        && Timers() == NotDue(Aged(old(Timers()), dtime))
      ensures NothingDue(old(nextTriggerTime), time) ==> elapsed == [] && Timers() == Aged(old(Timers()), dtime)
    {
      hide Consistent, Ordered, Distinct, Shows, Aged, NotDue, AllDue, OverdueFirst, PositionsOf, NothingDue, Tracked, Punctual, Sound;
      elapsed := [];
      time := time + dtime;
      var due: nat := 0;
      ghost var before := iterators;
      InConsistent(timers, iterators);
      AgedShows(before, old(time), time);
      NoPositions();
      assert timers[..0] == [] && timers[0..] == timers && before - {} == before;
      if NothingDue(nextTriggerTime, time) {
        if Sound(timers, nextTriggerTime) {
          NothingDueIsExact(timers, nextTriggerTime);
          StepShows(timers, before, time, 0);
        }
        return;
      }
      ghost var total := Due(timers, time);
      while due < |timers| && timers[due].trigger <= time
        invariant due <= total && timers == old(timers) && time == old(time) + dtime
        invariant nextTriggerTime == old(nextTriggerTime)
        invariant elapsed == Views(timers[..due], time) && iterators == before - PositionsOf(timers[..due])
      {
        var t := timers[due].timer;
        t := t.(elapsed := t.timeout + (time - timers[due].trigger));
        elapsed := elapsed + [t];
        iterators := iterators - {t.position};
        assert timers[..due + 1] == timers[..due] + [timers[due]];
        ViewsLast(timers[..due], timers[due], time);
        due := due + 1;
      }
      assert due == total;
      StepShows(timers, before, time, due);
      DropConsistent(timers, before, due);
      NextAfterStep(timers, due);
      timers := timers[due..];
      nextTriggerTime := if timers == [] then NEVER else timers[0].trigger;
    }

    static lemma NextAfterStep(es: seq<Entry>, k: nat)
      requires k <= |es|
      ensures Tracked(es[k..], Earliest(es[k..]))
      ensures NoneAtNever(es) ==> Punctual(es[k..], Earliest(es[k..]))
      ensures forall next :: Punctual(es, next) ==> NoneAtNever(es)
    {
      assert forall e :: e in es[k..] ==> e in es;
    }

    static lemma NoPositions()
      ensures PositionsOf([]) == {}
    {}

    static function Views(es: seq<Entry>, time: real): (r: seq<NodeTimer>)
      ensures |r| == |es| && forall i :: 0 <= i < |r| ==> r[i] == View(es[i], time)
    {
      seq(|es|, i requires 0 <= i < |es| => View(es[i], time))
    }

    static lemma ViewsLast(es: seq<Entry>, e: Entry, time: real)
      ensures Views(es + [e], time) == Views(es, time) + [View(e, time)]
      ensures PositionsOf(es + [e]) == PositionsOf(es) + {e.timer.position}
    {}

    // What is due in the multimap is what the position map says is due.
    static lemma StepShows(es: seq<Entry>, index: map<NodePos, Entry>, time: real, k: nat)
      requires Consistent(es, index) && Ordered(es) && k == Due(es, time)
      ensures AllDue(Views(es[..k], time), Shows(index, time)) && OverdueFirst(Views(es[..k], time))
      ensures Shows(index - PositionsOf(es[..k]), time) == NotDue(Shows(index, time))
    {
      forall p | p in index
        ensures p in PositionsOf(es[..k]) <==> index[p] in es[..k]
        ensures index[p] in es[..k] <==> index[p].trigger <= time
      {
        FrontPositions(es, k, index[p]);
      }
      hide PositionsOf;
      ViewsAllDue(es, index, time, k);
    }

    static lemma ViewsAllDue(es: seq<Entry>, index: map<NodePos, Entry>, time: real, k: nat)
      requires Indexed(es, index) && k <= |es|
      requires forall p :: p in index ==> (index[p] in es[..k] <==> index[p].trigger <= time)
      ensures AllDue(Views(es[..k], time), Shows(index, time))
    {
      var (vs, now) := (Views(es[..k], time), Shows(index, time));
      forall t
        ensures t in vs <==> t.position in now && now[t.position] == t && t.elapsed >= t.timeout
      {
        if t in vs {
          var i :| 0 <= i < |vs| && vs[i] == t;
          assert es[i] in es && es[..k][i] == es[i];
        }
        if t.position in now && now[t.position] == t && t.elapsed >= t.timeout {
          var e := index[t.position];
          var i :| 0 <= i < k && es[..k][i] == e;
          assert vs[i] == t;
        }
      }
    }

  }
}
