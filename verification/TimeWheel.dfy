/** The dispatching of periodic workers, one step per turn of the loop, and what every run of it satisfies. */
module TimeWheel {
  import opened Workers

  /** The wake-up time of every worker in the queue, and the time the loop last read from the clock. */
  datatype Wheel = Wheel(wake: map<Worker, int>, now: int)

  datatype Event =
    | Ran(worker: Worker, clock: int)   // with the clock reading that a late worker starts again from
    | Slept(until: int)                 // and read the clock again

  ghost predicate Earliest(s: Wheel, w: Worker) {
    w in s.wake && forall v | v in s.wake :: s.wake[w] <= s.wake[v]
  }

  ghost predicate Enabled(s: Wheel, e: Event) {
    match e
    case Ran(w, clock) => Earliest(s, w) && s.wake[w] <= s.now <= clock
    case Slept(until) => s.now <= until && forall v | v in s.wake :: s.now < s.wake[v]
  }

  ghost function Apply(s: Wheel, e: Event): Wheel
    requires Enabled(s, e)
  {
    match e
    case Ran(w, clock) => s.(wake := s.wake[w := NextWake(s.wake[w], w.period, s.now, clock)])
    case Slept(until) => s.(now := until)
  }

  ghost predicate Legal(s: Wheel, es: seq<Event>)
    decreases |es|
  {
    es == [] || (Enabled(s, es[0]) && Legal(Apply(s, es[0]), es[1..]))
  }

  ghost function After(s: Wheel, es: seq<Event>): Wheel
    requires Legal(s, es)
    decreases |es|
  {
    if es == [] then s else After(Apply(s, es[0]), es[1..])
  }

  lemma {:induction false} LegalLast(s: Wheel, es: seq<Event>, e: Event)
    requires Legal(s, es) && Enabled(After(s, es), e)
    ensures Legal(s, es + [e]) && After(s, es + [e]) == Apply(After(s, es), e)
    decreases |es|
  {
    if es == [] {
      assert es + [e] == [e] && [e][1..] == [];
    } else {
      assert (es + [e])[1..] == es[1..] + [e];
      LegalLast(Apply(s, es[0]), es[1..], e);
    }
  }

  /** How often a worker has run. */
  ghost function Runs(es: seq<Event>, w: Worker): nat
    decreases |es|
  {
    if es == [] then 0 else (if es[0].Ran? && es[0].worker == w then 1 else 0) + Runs(es[1..], w)
  }

  // ---------- between two sleeps ----------

  ghost predicate Burst(es: seq<Event>) {
    forall i | 0 <= i < |es| :: es[i].Ran?
  }

  /** How often a worker runs before the loop sleeps: not at all if it is not due, a second time only if its
      next time is this very moment. */
  ghost function DueRuns(wake: int, period: nat, now: int): nat {
    if wake > now then 0 else if wake + period == now then 2 else 1
  }

  lemma RunIsDue(s: Wheel, e: Event, w: Worker)
    requires Enabled(s, e) && e.Ran? && w in s.wake && w.period > 0
    ensures DueRuns(s.wake[w], w.period, s.now) ==
            (if e.worker == w then 1 else 0) + DueRuns(Apply(s, e).wake[w], w.period, s.now)
  {
  }

  /** The runs that were due are those done and those still due. */
  lemma {:induction false} BurstCounts(s: Wheel, es: seq<Event>, w: Worker)
    requires Legal(s, es) && Burst(es) && w in s.wake && w.period > 0
    ensures w in After(s, es).wake && After(s, es).now == s.now
    ensures Runs(es, w) + DueRuns(After(s, es).wake[w], w.period, s.now) == DueRuns(s.wake[w], w.period, s.now)
    decreases |es|
  {
    if es != [] {
      RunIsDue(s, es[0], w);
      BurstCounts(Apply(s, es[0]), es[1..], w);
    }
  }

  /** A worker with a positive period runs at most twice for one reading of the clock, whatever the others do;
      when the loop comes to sleep it has run exactly as often as it was due. */
  lemma AtMostTwice(s: Wheel, es: seq<Event>, w: Worker)
    requires Legal(s, es) && Burst(es) && w in s.wake && w.period > 0
    ensures Runs(es, w) <= DueRuns(s.wake[w], w.period, s.now) <= 2
    ensures (exists until :: Enabled(After(s, es), Slept(until))) ==> Runs(es, w) == DueRuns(s.wake[w], w.period, s.now)
  {
    BurstCounts(s, es, w);
  }

  ghost function TotalDue(s: Wheel, ws: set<Worker>): nat
    requires ws <= s.wake.Keys
  {
    if ws == {} then 0
    else
      var w :| w in ws;
      DueRuns(s.wake[w], w.period, s.now) + TotalDue(s, ws - {w})
  }

  lemma {:induction false} TotalOfOne(s: Wheel, ws: set<Worker>, w: Worker)
    requires w in ws && ws <= s.wake.Keys
    ensures TotalDue(s, ws) == DueRuns(s.wake[w], w.period, s.now) + TotalDue(s, ws - {w})
    decreases ws
  {
    var v :| v in ws && TotalDue(s, ws) == DueRuns(s.wake[v], v.period, s.now) + TotalDue(s, ws - {v});
    if v != w {
      TotalOfOne(s, ws - {v}, w);
      TotalOfOne(s, ws - {w}, v);
      assert ws - {v} - {w} == ws - {w} - {v};
    }
  }

  lemma {:induction false} TotalSame(s: Wheel, t: Wheel, ws: set<Worker>)
    requires ws <= s.wake.Keys && ws <= t.wake.Keys && s.now == t.now && forall w | w in ws :: s.wake[w] == t.wake[w]
    ensures TotalDue(s, ws) == TotalDue(t, ws)
    decreases ws
  {
    if ws != {} {
      var w :| w in ws;
      TotalOfOne(s, ws, w);
      TotalOfOne(t, ws, w);
      TotalSame(s, t, ws - {w});
    }
  }

  lemma {:induction false} TotalAtMostTwice(s: Wheel, ws: set<Worker>)
    requires ws <= s.wake.Keys
    ensures TotalDue(s, ws) <= 2 * |ws|
    decreases ws
  {
    if ws != {} {
      var w :| w in ws;
      TotalOfOne(s, ws, w);
      TotalAtMostTwice(s, ws - {w});
    }
  }

  /** Every worker that is due has a positive period. */
  ghost predicate DuePositive(s: Wheel) {
    forall v | v in s.wake && s.wake[v] <= s.now :: v.period > 0
  }

  /** One run less is due. */
  lemma RunCounts(s: Wheel, e: Event)
    requires Enabled(s, e) && e.Ran? && e.worker.period > 0
    ensures Apply(s, e).wake.Keys == s.wake.Keys
    ensures TotalDue(Apply(s, e), s.wake.Keys) + 1 == TotalDue(s, s.wake.Keys)
  {
    var w, s' := e.worker, Apply(s, e);
    assert s'.wake.Keys == s.wake.Keys;
    TotalOfOne(s, s.wake.Keys, w);
    TotalOfOne(s', s.wake.Keys, w);
    TotalSame(s, s', s.wake.Keys - {w});
    RunIsDue(s, e, w);
  }

  /** The loop gets to sleep: if all workers that are due have positive periods, there are at most two runs per
      worker before it does, and exactly as many as are due. */
  lemma {:induction false} BurstsEnd(s: Wheel, es: seq<Event>)
    requires Legal(s, es) && Burst(es) && DuePositive(s)
    ensures |es| + TotalDue(After(s, es), After(s, es).wake.Keys) == TotalDue(s, s.wake.Keys) <= 2 * |s.wake|
    decreases |es|
  {
    TotalAtMostTwice(s, s.wake.Keys);
    if es != [] {
      RunCounts(s, es[0]);
      BurstsEnd(Apply(s, es[0]), es[1..]);
    }
  }

  lemma {:induction false} SomebodyIsEarliest(s: Wheel, ws: set<Worker>) returns (w: Worker)
    requires ws != {} && ws <= s.wake.Keys
    ensures w in ws && forall v | v in ws :: s.wake[w] <= s.wake[v]
    decreases ws
  {
    var one :| one in ws;
    assert forall v | v in ws :: v == one || v in ws - {one};
    w := one;
    if ws - {one} != {} {
      var u := SomebodyIsEarliest(s, ws - {one});
      w := if s.wake[u] < s.wake[one] then u else one;
    }
  }

  lemma LegalFirst(s: Wheel, e: Event, es: seq<Event>)
    requires Enabled(s, e) && Legal(Apply(s, e), es)
    ensures Legal(s, [e] + es) && After(s, [e] + es) == After(Apply(s, e), es)
  {
    assert ([e] + es)[1..] == es;
  }

  ghost predicate ReachesSleep(s: Wheel, es: seq<Event>) {
    Legal(s, es) && Burst(es) && Enabled(After(s, es), Slept(s.now))
  }

  /** Running whoever is earliest leads to a sleep. */
  lemma {:induction false} SleepIsReached(s: Wheel) returns (es: seq<Event>)
    requires DuePositive(s)
    ensures ReachesSleep(s, es)
    decreases TotalDue(s, s.wake.Keys)
  {
    es := [];
    if v :| v in s.wake && s.wake[v] <= s.now {
      var w := SomebodyIsEarliest(s, s.wake.Keys);
      var e := Ran(w, s.now);
      RunCounts(s, e);
      es := SleepIsReached(Apply(s, e));
      LegalFirst(s, e, es);
      es := [e] + es;
    }
  }

  /** A worker with period zero that is due stays due, so the loop cannot sleep from then on. */
  lemma {:induction false} NeverSleeps(s: Wheel, w: Worker, es: seq<Event>)
    requires w in s.wake && s.wake[w] <= s.now && w.period == 0 && Legal(s, es)
    ensures Burst(es) && w in After(s, es).wake && After(s, es).wake[w] <= s.now == After(s, es).now
    decreases |es|
  {
    if es != [] {
      NeverSleeps(Apply(s, es[0]), w, es[1..]);
      assert forall i | 0 < i < |es| :: es[i] == es[1..][i - 1];
    }
  }

  /** It keeps the loop running for any number of turns, wherever in the queue it is. */
  lemma {:induction false} ZeroPeriodSpins(s: Wheel, w: Worker, n: nat) returns (es: seq<Event>)
    requires w in s.wake && s.wake[w] <= s.now && w.period == 0
    ensures Legal(s, es) && Burst(es) && |es| == n
    decreases n
  {
    es := [];
    if n > 0 {
      var first := SomebodyIsEarliest(s, s.wake.Keys);
      var e := Ran(first, s.now);
      es := ZeroPeriodSpins(Apply(s, e), w, n - 1);
      LegalFirst(s, e, es);
      es := [e] + es;
    }
  }

  /** Exactly when the turns before the next sleep are bounded, by two per worker (if they are not, by nothing, as
      `ZeroPeriodSpins` says), and exactly when a sleep is possible at all. */
  lemma LoopSleepsExactly(s: Wheel)
    ensures (forall es | Legal(s, es) && Burst(es) :: |es| <= 2 * |s.wake|) <==> DuePositive(s)
    ensures (exists es :: ReachesSleep(s, es)) <==> DuePositive(s)
  {
    if DuePositive(s) {
      forall es | Legal(s, es) && Burst(es) ensures |es| <= 2 * |s.wake| {
        BurstsEnd(s, es);
      }
      var es := SleepIsReached(s);
    } else {
      var w :| w in s.wake && s.wake[w] <= s.now && w.period == 0;
      var long := ZeroPeriodSpins(s, w, 2 * |s.wake| + 1);
      forall es | Legal(s, es) ensures !ReachesSleep(s, es) {
        NeverSleeps(s, w, es);
      }
    }
  }

  // ---------- earliest first ----------

  /** The time for which the run was due. */
  ghost function DueTime(s: Wheel, es: seq<Event>, i: nat): int
    requires Legal(s, es) && i < |es| && es[i].Ran?
    decreases |es|
  {
    if i == 0 then s.wake[es[0].worker] else DueTime(Apply(s, es[0]), es[1..], i - 1)
  }

  lemma {:induction false} DueNoEarlier(s: Wheel, es: seq<Event>, bound: int, i: nat)
    requires Legal(s, es) && i < |es| && es[i].Ran? && forall v | v in s.wake :: bound <= s.wake[v]
    ensures bound <= DueTime(s, es, i)
    decreases |es|
  {
    if i > 0 {
      DueNoEarlier(Apply(s, es[0]), es[1..], bound, i - 1);
    }
  }

  /** Runs happen in the order of the times for which they were due, over the whole life of the loop. */
  lemma {:induction false} EarliestFirst(s: Wheel, es: seq<Event>, i: nat, j: nat)
    requires Legal(s, es) && i <= j < |es| && es[i].Ran? && es[j].Ran?
    ensures DueTime(s, es, i) <= DueTime(s, es, j)
    decreases |es|
  {
    if i == 0 {
      DueNoEarlier(s, es, s.wake[es[0].worker], j);
    } else {
      EarliestFirst(Apply(s, es[0]), es[1..], i - 1, j - 1);
    }
  }

  // ---------- on time ----------

  /** Whenever the worker runs, its next time has not passed yet. */
  ghost predicate NeverLate(s: Wheel, es: seq<Event>, w: Worker)
    requires Legal(s, es)
    decreases |es|
  {
    es == [] || ((es[0].Ran? && es[0].worker == w ==> s.now <= s.wake[w] + w.period)
                 && NeverLate(Apply(s, es[0]), es[1..], w))
  }

  function Periods(n: nat, period: nat): nat {
    n * period
  }

  lemma OnePeriodMore(n: nat, period: nat)
    ensures Periods(0, period) == 0 && Periods(n + 1, period) == period + Periods(n, period)
  {
    assert (n + 1) * period == n * period + period;
  }

  lemma {:induction false} PaceOfRun(s: Wheel, es: seq<Event>, w: Worker)
    requires Legal(s, es) && w in s.wake && NeverLate(s, es, w)
    ensures w in After(s, es).wake && After(s, es).wake[w] == s.wake[w] + Periods(Runs(es, w), w.period)
    decreases |es|
  {
    hide Periods;
    OnePeriodMore(Runs(if es == [] then [] else es[1..], w), w.period);
    if es != [] {
      PaceOfRun(Apply(s, es[0]), es[1..], w);
    }
  }

  /** A worker that is never late keeps its pace exactly, whatever the others do. */
  lemma KeepsPace(s: Wheel, es: seq<Event>, w: Worker)
    requires Legal(s, es) && w in s.wake && NeverLate(s, es, w)
    ensures w in After(s, es).wake && After(s, es).wake[w] == s.wake[w] + Runs(es, w) * w.period
  {
    PaceOfRun(s, es, w);
  }

  /** A worker whose next time has passed as well starts again from the clock, and keeps its pace from there. */
  lemma StartsAgain(s: Wheel, clock: int, es: seq<Event>, w: Worker)
    requires Enabled(s, Ran(w, clock)) && w.period > 0 && s.wake[w] + w.period < s.now
    requires Legal(Apply(s, Ran(w, clock)), es) && NeverLate(Apply(s, Ran(w, clock)), es, w)
    ensures var s' := After(Apply(s, Ran(w, clock)), es);
            w in s'.wake && s'.wake[w] == clock + (1 + Runs(es, w)) * w.period
  {
    KeepsPace(Apply(s, Ran(w, clock)), es, w);
    OnePeriodMore(Runs(es, w), w.period);
    assert (1 + Runs(es, w)) * w.period == Periods(Runs(es, w) + 1, w.period);
  }

  // ---------- not too often ----------

  /** Every run puts the next one off by a period at least. */
  lemma {:induction false} WakeAdvances(s: Wheel, es: seq<Event>, w: Worker)
    requires Legal(s, es) && w in s.wake
    ensures w in After(s, es).wake && s.now <= After(s, es).now
    ensures s.wake[w] + Runs(es, w) * w.period <= After(s, es).wake[w]
    ensures Runs(es, w) > 0 ==> s.wake[w] + (Runs(es, w) - 1) * w.period <= After(s, es).now
    decreases |es|
  {
    if es != [] {
      var s' := Apply(s, es[0]);
      WakeAdvances(s', es[1..], w);
      if es[0].Ran? && es[0].worker == w {
        assert s.wake[w] + w.period <= s'.wake[w];
        var n := Runs(es[1..], w);
        assert (n + 1) * w.period == n * w.period + w.period;
        if n > 0 {
          assert n * w.period == (n - 1) * w.period + w.period;
        }
      }
    }
  }
}
