/** The executor that runs periodic workers: a priority queue of worker objects, and the loop that runs the worker
    at its top while that worker is due. */
module TimeWheelExecutors {
  import opened Sequences
  import opened Workers
  import opened BinaryHeap
  import opened TimeWheel

  ghost function Times(q: seq<Worker>): (ks: seq<int>)
    reads q
    ensures |ks| == |q|
  {
    seq(|q|, i requires 0 <= i < |q| reads q => Nanos(q[i].wake))
  }

  ghost predicate AllNormal(q: seq<Worker>)
    reads q
  {
    forall i | 0 <= i < |q| :: Normal(q[i].wake)
  }

  lemma CompareTimes(q: seq<Worker>, i: nat, j: nat)
    requires AllNormal(q) && i < |q| && j < |q|
    ensures Earlier(q[i].wake, q[j].wake) <==> Times(q)[i] < Times(q)[j]
  {
    EarlierIsLess(q[i].wake, q[j].wake);
  }

  class TimeWheelExecutor {
    var queue: seq<Worker>
    const clock: Clock

    ghost predicate Valid()
      reads this, queue
    {
      Distinct(queue) && AllNormal(queue) && Heap(Times(queue)) && clock.Monotonic()
    }

    constructor (clock: Clock)
      requires clock.Monotonic()
      ensures Valid() && queue == [] && this.clock == clock
    {
      queue := [];
      this.clock := clock;
    }

    // ---------- the priority queue ----------

    method Exchange(i: nat, j: nat)
      requires AllNormal(queue) && i < |queue| && j < |queue|
      modifies `queue
      ensures AllNormal(queue) && |queue| == |old(queue)|
      ensures Times(queue) == Swap(Times(old(queue)), i, j) && multiset(queue) == multiset(old(queue))
    {
      SwapKeeps(queue, i, j);
      queue := queue[i := queue[j]][j := queue[i]];
    }

    /** A worker that is too late for the top goes down. */
    method SiftDown()
      requires queue != [] && AllNormal(queue) && HeapButDown(Times(queue), 0)
      modifies `queue
      ensures AllNormal(queue) && Heap(Times(queue)) && multiset(queue) == multiset(old(queue))
    {
      hide AllNormal; hide HeapButDown; hide Heap; hide Times; hide Earlier; hide Swap;
      var i: nat := 0;
      while 2 * i + 1 < |queue|
        invariant i < |queue|
        invariant AllNormal(queue) && HeapButDown(Times(queue), i) && multiset(queue) == multiset(old(queue))
        decreases |queue| - i
      {
        var child: nat := 2 * i + 1;
        if child + 1 < |queue| && Earlier(queue[child + 1].wake, queue[child].wake) {
          child := child + 1;
        }
        SmallerChild(queue, i, child);
        CompareTimes(queue, child, i);
        if !Earlier(queue[child].wake, queue[i].wake) {
          DownDone(Times(queue), i);
          return;
        }
        SwapDown(Times(queue), i, child);
        Exchange(i, child);
        i := child;
      }
      DownDone(Times(queue), i);
    }

    /** A worker that is too early for the bottom goes up. */
    method SiftUp()
      requires queue != [] && AllNormal(queue) && HeapButUp(Times(queue), |queue| - 1)
      modifies `queue
      ensures AllNormal(queue) && Heap(Times(queue)) && multiset(queue) == multiset(old(queue))
    {
      hide AllNormal; hide HeapButUp; hide Heap; hide Times; hide Earlier; hide Swap;
      var i: nat := |queue| - 1;
      while i > 0
        invariant i < |queue|
        invariant AllNormal(queue) && HeapButUp(Times(queue), i) && multiset(queue) == multiset(old(queue))
      {
        var p: nat := (i - 1) / 2;
        CompareTimes(queue, i, p);
        if !Earlier(queue[i].wake, queue[p].wake) {
          UpDone(Times(queue), i);
          return;
        }
        SwapUp(Times(queue), i);
        Exchange(p, i);
        i := p;
      }
      UpDone(Times(queue), i);
    }

    /** Removes the worker at the top; its time may have changed since it got there. */
    method Pop()
      requires queue != [] && AllNormal(queue) && HeapButDown(Times(queue), 0)
      modifies `queue
      ensures AllNormal(queue) && Heap(Times(queue)) && multiset(queue) == multiset(old(queue)[1..])
    {
      LastToTop(queue);
      if |queue| == 1 {
        queue := [];
      } else {
        queue := [queue[|queue| - 1]] + queue[1..|queue| - 1];
        SiftDown();
      }
    }

    method Push(w: Worker)
      requires AllNormal(queue) && Heap(Times(queue)) && Normal(w.wake)
      modifies `queue
      ensures AllNormal(queue) && Heap(Times(queue)) && multiset(queue) == multiset(old(queue) + [w])
    {
      assert Times(queue + [w])[..|queue|] == Times(queue);
      queue := queue + [w];
      SiftUp();
    }

    method AddWorker(w: Worker)
      requires Valid() && Normal(w.wake) && w !in queue
      modifies `queue
      ensures Valid() && multiset(queue) == multiset(old(queue) + [w])
    {
      Push(w);
      DistinctConcat(old(queue), [w]);
      SameDistinct(old(queue) + [w], queue);
    }

    // ---------- the loop ----------

    ghost function View(now: Timespec): Wheel
      reads this, queue
    {
      Wheel(Wakes(queue), Nanos(now))
    }

    /** The worker at the top gets its next time, and may be out of place then. */
    method UpdateTop(now: Timespec)
      requires Valid() && queue != [] && clock.Reached(now)
      modifies queue[0], clock
      ensures AllNormal(queue) && HeapButDown(Times(queue), 0) && clock.Reached(now)
      ensures Wakes(queue) ==
              old(Wakes(queue))[queue[0] := NextWake(old(Wakes(queue))[queue[0]], queue[0].period, Nanos(now),
                                                     Nanos(clock.reading(old(clock.count))))]
    {
      hide Heap; hide HeapButDown; hide Nanos; hide NextWake; hide Normal; hide Clock.Monotonic;
      ghost var times := Times(queue);
      assert Normal(queue[0].wake);
      queue[0].UpdateWorkerTime(now, clock);
      RootMayChange(times, Times(queue));
    }

    /** The worker at the top finds its new place. */
    method Requeue()
      requires queue != [] && Distinct(queue) && AllNormal(queue) && HeapButDown(Times(queue), 0)
      modifies `queue
      ensures Distinct(queue) && AllNormal(queue) && Heap(Times(queue)) && multiset(queue) == multiset(old(queue))
      ensures Wakes(queue) == Wakes(old(queue))
    {
      hide Heap; hide HeapButDown; hide Normal; hide Wakes; hide Times; hide Distinct;
      var worker := queue[0];
      assert Normal(worker.wake);
      hide AllNormal;
      assert queue == [worker] + queue[1..];
      Pop();
      Push(worker);
      SameDistinct(old(queue), queue);
      SameWakes(old(queue), queue);
    }

    /** One turn of the loop in which the worker at the top is due. */
    method RunTop(now: Timespec) returns (worker: Worker)
      requires Valid() && queue != [] && clock.Reached(now) && queue[0].IsExpired(now)
      modifies `queue, queue[0], clock
      ensures Valid() && clock.Reached(now) && multiset(queue) == multiset(old(queue)) && worker == old(queue[0])
      ensures Enabled(old(View(now)), Ran(worker, Nanos(clock.reading(old(clock.count)))))
      ensures View(now) == Apply(old(View(now)), Ran(worker, Nanos(clock.reading(old(clock.count)))))
    {
      hide Heap; hide HeapButDown; hide Enabled; hide AllNormal; hide Nanos; hide NextWake; hide Worker.IsExpired;
      hide Wakes; hide Times; hide Distinct; hide Clock.Monotonic; hide Clock.Reached;
      worker := queue[0];
      TopIsEnabled(queue, now, clock);
      UpdateTop(now);
      Requeue();
    }

    /** The worker at the top starts again exactly one period after a reading of the clock, and may be out of place
        then. */
    method ResetTop() returns (worker: Worker)
      requires Valid() && queue != []
      modifies queue[0], clock
      ensures AllNormal(queue) && HeapButDown(Times(queue), 0) && old(clock.count) < clock.count && worker == queue[0]
      ensures Normal(worker.wake)
      ensures FromReading(clock, old(clock.count), clock.count, worker)
    {
      hide Heap; hide HeapButDown; hide Nanos; hide Normal;
      worker := queue[0];
      ghost var times := Times(queue);
      worker.ResetWakeTime(clock);
      var now := clock.Now();
      worker.UpdateWorkerTime(now, clock);
      RootMayChange(times, Times(queue));
    }

    method PushAll(workers: seq<Worker>)
      requires queue == [] && AllNormal(workers)
      modifies `queue
      ensures AllNormal(queue) && Heap(Times(queue)) && multiset(queue) == multiset(workers)
    {
      for i := 0 to |workers|
        invariant AllNormal(queue) && Heap(Times(queue)) && multiset(queue) == multiset(workers[..i])
        invariant AllNormal(workers)
      {
        Push(workers[i]);
        assert workers[..i + 1] == workers[..i] + [workers[i]];
      }
      assert workers[..|workers|] == workers;
    }

    /** Every worker starts again exactly one period after a reading of the clock. */
    method ResetWorkerTime()
      requires Valid()
      modifies `queue, queue, clock
      ensures Valid() && multiset(queue) == multiset(old(queue))
      ensures old(clock.count) <= clock.count
      ensures forall w | w in queue :: FromReading(clock, old(clock.count), clock.count, w)
    {
      hide Heap; hide HeapButDown; hide Nanos; hide Normal; hide Times; hide Distinct; hide AllNormal;
      hide Clock.Monotonic; hide AllFrom; hide FromReading;
      var workers: seq<Worker> := [];
      ghost var was, first := queue, clock.count;
      assert workers + queue == was;
      NoneNormal(clock, first);
      while queue != []
        invariant Valid() && AllNormal(workers) && AllFrom(clock, first, clock.count, workers) && first <= clock.count
        invariant multiset(workers + queue) == multiset(was) && Distinct(workers + queue)
        decreases |queue|
      {
        ghost var done, all, rest := workers, workers + queue, queue[1..];
        TopIsIn(workers, queue, was);
        ghost var last := clock.count;
        var worker := ResetTop();
        workers := workers + [worker];
        AppendNormal(clock, first, last, clock.count, done, worker);
        Pop();
        assert all == workers + rest;
        MovedAlong(all, workers, rest, queue);
      }
      assert workers + queue == workers;
      PushAll(workers);
      SameDistinct(workers, queue);
      SameReadings(clock, first, clock.count, workers, queue);
    }

    /** Runs until shutdown is noticed, after `turns` turns.  What happens is a run of the dispatching from the
        state after the reset. */
    method Loop(turns: nat) returns (now: Timespec, ghost start: Wheel, ghost events: seq<Event>)
      requires Valid()
      modifies `queue, queue, clock
      ensures Valid() && multiset(queue) == multiset(old(queue))
      ensures forall w | w in start.wake ::
                exists i: nat :: old(clock.count) <= i && start.wake[w] == Nanos(clock.reading(i)) + w.period
      ensures queue != [] ==> start.wake.Keys == (set w | w in old(queue)) && |events| == turns
      ensures queue != [] ==> Legal(start, events) && After(start, events) == View(now)
    {
      hide Heap; hide AllNormal; hide Times; hide Distinct; hide Nanos; hide Enabled; hide Legal; hide After;
      hide Apply; hide Clock.Monotonic; hide Clock.Reached; hide Worker.IsExpired; hide Wakes;
      now, start, events := Timespec(0, 0), Wheel(map[], 0), [];
      if queue == [] {
        return;
      }
      ghost var was := queue;
      ResetWorkerTime();
      SameMembers(was, queue);
      now := clock.Now();
      start := View(now);
      WakesOf(queue);
      NothingYet(start);
      for turn := 0 to turns
        invariant Valid() && queue != [] && clock.Reached(now) && multiset(queue) == multiset(was)
        invariant |events| == turn && Legal(start, events) && After(start, events) == View(now)
      {
        SameMembers(was, queue);
        var worker := queue[0];
        assert worker in was;
        if worker.IsExpired(now) {
          ghost var reading := Nanos(clock.reading(clock.count));
          var ran := RunTop(now);
          LegalLast(start, events, Ran(ran, reading));
          events := events + [Ran(ran, reading)];
        } else {
          MaySleep(queue, now, clock);
          now := clock.Now();
          LegalLast(start, events, Slept(Nanos(now)));
          events := events + [Slept(Nanos(now))];
        }
      }
    }
  }

  ghost function Wakes(q: seq<Worker>): map<Worker, int>
    reads q
  {
    map w | w in q :: Nanos(w.wake)
  }

  lemma SameWakes(a: seq<Worker>, b: seq<Worker>)
    requires multiset(a) == multiset(b)
    ensures Wakes(a) == Wakes(b)
  {
    SameMembers(a, b);
  }

  lemma TopIsEnabled(q: seq<Worker>, now: Timespec, clock: Clock)
    requires q != [] && Heap(Times(q)) && AllNormal(q) && clock.Reached(now) && q[0].IsExpired(now)
    ensures Enabled(Wheel(Wakes(q), Nanos(now)), Ran(q[0], Nanos(clock.reading(clock.count))))
  {
    TopIsEarliest(q);
    EarlierIsLess(now, q[0].wake);
  }

  lemma TopIsIn(done: seq<Worker>, q: seq<Worker>, was: seq<Worker>)
    requires q != [] && multiset(done + q) == multiset(was) && Distinct(done + q)
    ensures q[0] in was && q[0] !in done && q[0] !in q[1..]
  {
    SameMembers(done + q, was);
    assert (done + q)[|done|] == q[0] && done + q == done + [q[0]] + q[1..];
    assert forall i | 0 <= i < |done| :: (done + q)[i] == done[i];
    forall i | 0 <= i < |q[1..]| ensures q[1..][i] != q[0] {
      assert (done + q)[|done| + 1 + i] == q[1..][i];
    }
  }

  lemma MovedAlong(all: seq<Worker>, done: seq<Worker>, rest: seq<Worker>, q: seq<Worker>)
    requires Distinct(all) && all == done + rest && multiset(q) == multiset(rest)
    ensures multiset(done + q) == multiset(all) && Distinct(done + q) && Distinct(q)
  {
    SameDistinct(all, done + q);
    assert forall i | 0 <= i < |q| :: (done + q)[|done| + i] == q[i];
  }

  /** The worker is due exactly one period after one of these readings of the clock. */
  ghost predicate FromReading(clock: Clock, first: nat, end: nat, w: Worker)
    reads w
  {
    exists i: nat | first <= i < end :: Nanos(w.wake) == Nanos(clock.reading(i)) + w.period
  }

  ghost predicate AllFrom(clock: Clock, first: nat, end: nat, q: seq<Worker>)
    reads q
  {
    forall i | 0 <= i < |q| :: FromReading(clock, first, end, q[i])
  }

  lemma NoneNormal(clock: Clock, first: nat)
    ensures AllNormal([]) && AllFrom(clock, first, first, [])
  {
  }

  lemma LaterReading(clock: Clock, first: nat, from: nat, end: nat, later: nat, w: Worker)
    requires FromReading(clock, from, end, w) && first <= from && end <= later
    ensures FromReading(clock, first, later, w)
  {
  }

  lemma AppendNormal(clock: Clock, first: nat, from: nat, end: nat, q: seq<Worker>, w: Worker)
    requires AllNormal(q) && Normal(w.wake) && first <= from <= end
    requires AllFrom(clock, first, from, q) && FromReading(clock, from, end, w)
    ensures AllNormal(q + [w]) && AllFrom(clock, first, end, q + [w])
  {
    hide FromReading;
    LaterReading(clock, first, from, end, end, w);
    forall i | 0 <= i < |q| ensures FromReading(clock, first, end, q[i]) {
      LaterReading(clock, first, first, from, end, q[i]);
    }
  }

  lemma SameReadings(clock: Clock, first: nat, end: nat, a: seq<Worker>, b: seq<Worker>)
    requires multiset(a) == multiset(b) && AllFrom(clock, first, end, a)
    ensures forall w | w in b :: FromReading(clock, first, end, w)
  {
    hide FromReading;
    SameMembers(a, b);
  }

  lemma NothingYet(s: Wheel)
    ensures Legal(s, []) && After(s, []) == s
  {
  }

  lemma WakesOf(q: seq<Worker>)
    ensures Wakes(q).Keys == (set w | w in q) && forall w | w in q :: Wakes(q)[w] == Nanos(w.wake)
  {
  }

  /** When the worker at the top is not due, none is. */
  lemma MaySleep(q: seq<Worker>, now: Timespec, clock: Clock)
    requires q != [] && Heap(Times(q)) && AllNormal(q) && clock.Reached(now) && !q[0].IsExpired(now)
    ensures var s, e := Wheel(Wakes(q), Nanos(now)), Slept(Nanos(clock.reading(clock.count)));
            Enabled(s, e) && Apply(s, e) == Wheel(Wakes(q), e.until)
  {
    TopIsEarliest(q);
    EarlierIsLess(now, q[0].wake);
  }

  lemma TopIsEarliest(q: seq<Worker>)
    requires q != [] && Heap(Times(q))
    ensures forall w | w in q :: Nanos(q[0].wake) <= Nanos(w.wake)
  {
    forall w | w in q ensures Nanos(q[0].wake) <= Nanos(w.wake) {
      var i :| 0 <= i < |q| && q[i] == w;
      RootIsLeast(Times(q), i);
    }
  }

  lemma SmallerChild(q: seq<Worker>, i: nat, child: nat)
    requires AllNormal(q) && 2 * i + 1 < |q|
    requires child == if 2 * i + 2 < |q| && Earlier(q[2 * i + 2].wake, q[2 * i + 1].wake) then 2 * i + 2 else 2 * i + 1
    ensures forall c | 0 < c < |q| && Parent(c) == i :: Times(q)[child] <= Times(q)[c]
  {
    if 2 * i + 2 < |q| {
      CompareTimes(q, 2 * i + 2, 2 * i + 1);
    }
    forall c | 0 < c < |q| && Parent(c) == i ensures Times(q)[child] <= Times(q)[c] {
      assert c == 2 * i + 1 || c == 2 * i + 2;
    }
  }

  lemma LastToTop(q: seq<Worker>)
    requires q != [] && AllNormal(q) && HeapButDown(Times(q), 0)
    ensures |q| > 1 ==>
              var t := [q[|q| - 1]] + q[1..|q| - 1];
              AllNormal(t) && HeapButDown(Times(t), 0) && multiset(t) == multiset(q[1..])
  {
    if |q| > 1 {
      var t := [q[|q| - 1]] + q[1..|q| - 1];
      assert q[1..] == q[1..|q| - 1] + [q[|q| - 1]];
      assert forall c | 0 < c < |t| :: Times(t)[c] == Times(q)[c];
    }
  }

  lemma SameMembers(a: seq<Worker>, b: seq<Worker>)
    requires multiset(a) == multiset(b)
    ensures forall w :: w in a <==> w in b
    ensures |a| == |b|
  {
    assert forall w :: w in a <==> w in multiset(a);
    assert forall w :: w in b <==> w in multiset(b);
    assert |a| == |multiset(a)| == |b|;
  }

  lemma SameDistinct(a: seq<Worker>, b: seq<Worker>)
    requires multiset(a) == multiset(b) && Distinct(a)
    ensures Distinct(b)
  {
    SameMembers(a, b);
    assert (set w | w in a) == set w | w in b;
    DistinctBySize(a);
    DistinctBySize(b);
  }
}
