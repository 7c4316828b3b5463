/** What one call of a condition variable comes to, from its start in any reachable state to its end: whom `Notify`
    resumes, when `Wait` returns, and how many steps they take. */
module ConditionVariableCalls {
  import opened Wrappers
  import opened Sequences
  import opened Chains
  import opened FifoLock
  import opened ConditionVariableProtocol

  /** How often the coroutine is resumed by `Notify` during the run. */
  function Wakeups(s: State, es: seq<Event>, t: Tid): nat
    requires ValidRun(s, es)
    decreases |es|
  {
    if es == [] then 0 else (if Wakes(s, es[0], t) then 1 else 0) + Wakeups(Next(s, es[0]), es[1..], t)
  }

  // ---------- Wait without a condition ----------

  /** Within `Wait(lock)`, before or after being resumed. */
  predicate InWait(p: Pc, woken: bool) {
    if woken then p == Locking(Plain) || p == Queued(Plain)
    else p == PushLoad(Plain) || p == PushCas(Plain) || p == Releasing(Plain) || p == Parked(Plain)
  }

  lemma WaitGoesOn(s: State, v: View, t: Tid, e: Event, woken: bool)
    requires Inv(s, v) && ConditionVariableProtocol.Enabled(s, e) && t in s.pc && InWait(s.pc[t], woken)
    ensures t in Next(s, e).pc
    ensures InWait(Next(s, e).pc[t], woken || Wakes(s, e, t)) || (woken && Next(s, e).pc[t].Critical?)
    ensures Wakes(s, e, t) ==> !woken
  {
    hide Inv; hide Released;
    if e.t != t {
      OthersTouch(s, v, t, e);
    } else if e.Step? && s.pc[t].Releasing? {
      OwnerIs(s, v, t);
      HandsOver(s, v, t, Parked(Plain));
    }
  }

  lemma {:induction false} WaitRun(s: State, v: View, es: seq<Event>, t: Tid, woken: bool)
    requires Inv(s, v) && ValidRun(s, es) && AwayUntilEnd(s, es, t)
    requires t in s.pc && (InWait(s.pc[t], woken) || (woken && s.pc[t].Critical?))
    ensures t in End(s, es).pc
    ensures var s', n := End(s, es), Wakeups(s, es, t);
            && n <= 1 && (woken ==> n == 0)
            && (InWait(s'.pc[t], woken || n == 1)
                || ((woken || n == 1) && s'.pc[t].Critical? && s'.lock.owner == Some(t)))
    decreases |es|
  {
    hide Inv; hide Next; hide ConditionVariableProtocol.Enabled; hide NextView; hide InWait; hide Wakes;
    if es != [] {
      StepKeeps(s, v, es[0]);
      WaitGoesOn(s, v, t, es[0], woken);
      WaitRun(Next(s, es[0]), NextView(s, v, es[0]), es[1..], t, woken || Wakes(s, es[0], t));
    } else if s.pc[t].Critical? {
      OwnerIs(s, v, t);
    }
  }

  /** `Wait(lock)` returns only after its coroutine has been resumed, exactly once, and has the mutex again. */
  lemma WaitReturnsWoken(s: State, before: seq<Event>, t: Tid, es: seq<Event>)
    requires Initial(s) && ValidRun(s, before)
    requires ConditionVariableProtocol.Enabled(End(s, before), CallWait(t))
    requires var called := Next(End(s, before), CallWait(t)); ValidRun(called, es) && AwayUntilEnd(called, es, t)
    ensures var called := Next(End(s, before), CallWait(t));
            var s' := End(called, es);
            && Wakeups(called, es, t) <= 1
            && t in s'.pc && (s'.pc[t].Critical? ==> s'.lock.owner == Some(t) && Wakeups(called, es, t) == 1)
  {
    hide Inv;
    InitialInv(s);
    var v := RunKeeps(s, NOBODY, before);
    var s1, e := End(s, before), CallWait(t);
    StepKeeps(s1, v, e);
    WaitRun(Next(s1, e), NextView(s1, v, e), es, t, false);
    assert forall w :: !InWait(Critical(true), w) && !InWait(Critical(false), w);
  }

  // ---------- Notify ----------

  /** While `t` notifies the waiters `all0`, newest first, of whom it resumes all or one. */
  ghost predicate Notifying(v: View, p: Pc, all: bool, all0: seq<Tid>) {
    match p
    case NotifyLoad(a, _) => a == all && v == View(all0, [])
    case NotifyCas(a, _, _) => a == all && v == View(all0, [])
    case NotifyCut(_, _) => !all && all0 != [] && v == View(all0[1..], all0[..1])
    case NotifyWalk(a, _, _) =>
      a == all && all0 != [] && if all then Rest(v, all0) else v == View(all0[1..], all0[..1])
    case NotifyStep(a, _, _) => a == all && all0 != [] && if all then Rest(v, all0) else v == View(all0[1..], [])
    case Critical(_) => v == Notified(all, all0)
    case _ => false
  }

  ghost predicate Rest(v: View, all0: seq<Tid>) {
    v.stack == [] && |v.walk| <= |all0| && v.walk == all0[|all0| - |v.walk|..]
  }

  function Notified(all: bool, all0: seq<Tid>): View {
    View(if all || all0 == [] then [] else all0[1..], [])
  }

  lemma LooksForWaiters(s: State, v: View, t: Tid, e: Event, all: bool, all0: seq<Tid>)
    requires Inv(s, v) && ConditionVariableProtocol.Enabled(s, e) && e.t == t && Notifying(v, s.pc[t], all, all0)
    requires s.pc[t].NotifyLoad? || s.pc[t].NotifyCas?
    ensures t in Next(s, e).pc && Notifying(NextView(s, v, e), Next(s, e).pc[t], all, all0)
  {
    hide PlacesAgree; hide WakeupsPending; hide Distinct;
    assert s.head.None? <==> v.stack == [];
    assert all0[|all0| - |all0|..] == all0;
  }

  lemma WakesOneMore(s: State, v: View, t: Tid, all: bool, all0: seq<Tid>)
    requires Inv(s, v) && t in s.pc && Notifying(v, s.pc[t], all, all0) && s.pc[t].NotifyWalk?
    ensures t in Next(s, Step(t)).pc && Notifying(NextView(s, v, Step(t)), Next(s, Step(t)).pc[t], all, all0)
  {
    hide Inv;
    Resumes(s, v, t);
    assert !all ==> all0[..1][1..] == [];
    assert all ==> v.walk[1..] == all0[|all0| - |v.walk[1..]|..];
  }

  lemma CutsOffOne(s: State, v: View, t: Tid, all: bool, all0: seq<Tid>)
    requires t in s.pc && Notifying(v, s.pc[t], all, all0) && s.pc[t].NotifyCut?
    ensures t in Next(s, Step(t)).pc && Notifying(NextView(s, v, Step(t)), Next(s, Step(t)).pc[t], all, all0)
  {
  }

  lemma LinkMeaning(s: State, v: View, t: Tid)
    requires Inv(s, v) && t in s.pc && s.pc[t].NotifyStep?
    ensures LinkOf(s, s.pc[t].curr).None? <==> v.walk == []
    ensures s.pc[t].all ==> v.stack == []
  {
    hide PlacesAgree; hide WakeupsPending; hide Distinct;
    OwnerIs(s, v, t);
  }

  lemma GoesOnNotifying(s: State, v: View, t: Tid, all: bool, all0: seq<Tid>)
    requires Inv(s, v) && t in s.pc && Notifying(v, s.pc[t], all, all0) && s.pc[t].NotifyStep?
    ensures t in Next(s, Step(t)).pc && Notifying(NextView(s, v, Step(t)), Next(s, Step(t)).pc[t], all, all0)
  {
    hide Inv; hide LinkOf;
    LinkMeaning(s, v, t);
  }

  lemma OwnNotifyStep(s: State, v: View, t: Tid, e: Event, all: bool, all0: seq<Tid>)
    requires Inv(s, v) && ConditionVariableProtocol.Enabled(s, e) && e.t == t && Notifying(v, s.pc[t], all, all0)
    requires !s.pc[t].Critical?
    ensures t in Next(s, e).pc && Notifying(NextView(s, v, e), Next(s, e).pc[t], all, all0)
  {
    hide Inv; hide Next; hide NextView;
    if s.pc[t].NotifyLoad? || s.pc[t].NotifyCas? {
      LooksForWaiters(s, v, t, e, all, all0);
    } else if s.pc[t].NotifyWalk? {
      WakesOneMore(s, v, t, all, all0);
    } else if s.pc[t].NotifyCut? {
      CutsOffOne(s, v, t, all, all0);
    } else {
      GoesOnNotifying(s, v, t, all, all0);
    }
  }

  /** Only the owner of the mutex changes the chains. */
  lemma ViewStays(s: State, v: View, t: Tid, e: Event)
    requires Inv(s, v) && ConditionVariableProtocol.Enabled(s, e) && e.t != t && s.lock.owner == Some(t)
    ensures Next(s, e).lock.owner == Some(t) && NextView(s, v, e) == v
    ensures Next(s, e).head == s.head && Next(s, e).begun == s.begun && Next(s, e).resumed == s.resumed
    ensures forall u :: !Wakes(s, e, u)
  {
    assert !Holds(s.pc[e.t]);
  }

  lemma OwnViewStays(s: State, v: View, t: Tid, e: Event)
    requires Inv(s, v) && ConditionVariableProtocol.Enabled(s, e) && e.t == t && t in s.pc
    requires s.pc[t].NotifyLoad? || s.pc[t].NotifyCas? || s.pc[t].NotifyCut? || s.pc[t].NotifyWalk?
             || s.pc[t].NotifyStep?
    ensures Next(s, e).lock.owner == s.lock.owner && Next(s, e).begun == s.begun
  {
  }

  lemma {:induction false} NotifyRun(s: State, v: View, es: seq<Event>, t: Tid, all: bool, all0: seq<Tid>)
    returns (v': View)
    requires Inv(s, v) && ValidRun(s, es) && AwayUntilEnd(s, es, t)
    requires t in s.pc && s.lock.owner == Some(t) && Notifying(v, s.pc[t], all, all0)
    ensures Inv(End(s, es), v') && t in End(s, es).pc && Notifying(v', End(s, es).pc[t], all, all0)
    ensures End(s, es).begun == s.begun && End(s, es).lock.owner == Some(t)
    decreases |es|
  {
    hide Inv; hide Next; hide ConditionVariableProtocol.Enabled; hide NextView;
    v' := v;
    if es != [] {
      var e := es[0];
      StepKeeps(s, v, e);
      if e.t == t {
        OwnNotifyStep(s, v, t, e, all, all0);
        OwnViewStays(s, v, t, e);
      } else {
        ViewStays(s, v, t, e);
        OthersTouch(s, v, t, e);
      }
      v' := NotifyRun(Next(s, e), NextView(s, v, e), es[1..], t, all, all0);
    }
  }

  lemma WaitingIsChained(s: State, v: View)
    requires Inv(s, v)
    ensures WaitingSet(s) == set u | u in v.walk + v.stack
    ensures Distinct(v.walk + v.stack) && |WaitingSet(s)| == |v.walk| + |v.stack|
    ensures s.head == if v.stack == [] then None else Some(v.stack[0])
  {
    WaitersAreChained(s, v);
    SizeOfDistinct(v.walk + v.stack, WaitingSet(s));
  }

  /** From its call to its return, `NotifyAll` resumes everybody who waits, and `NotifyOne` the one at the head of the
      chain, if anybody waits; the others go on waiting. */
  lemma NotifyWakes(s: State, before: seq<Event>, t: Tid, all: bool, es: seq<Event>)
    requires Initial(s) && ValidRun(s, before)
    requires ConditionVariableProtocol.Enabled(End(s, before), CallNotify(t, all))
    requires var called := Next(End(s, before), CallNotify(t, all));
             ValidRun(called, es) && AwayUntilEnd(called, es, t) && t in End(called, es).pc
             && End(called, es).pc[t].Critical?
    ensures var s0 := End(s, before);
            var s' := End(Next(s0, CallNotify(t, all)), es);
            && (s0.head.None? <==> WaitingSet(s0) == {})
            && (s0.head.Some? ==> s0.head.value in WaitingSet(s0))
            && WaitingSet(s') == (if all || s0.head.None? then {} else WaitingSet(s0) - {s0.head.value})
            && s'.begun == s0.begun && s'.resumed == s0.resumed + |WaitingSet(s0)| - |WaitingSet(s')|
  {
    hide Inv; hide WaitingSet; hide Distinct;
    InitialInv(s);
    var v := RunKeeps(s, NOBODY, before);
    var s0, e := End(s, before), CallNotify(t, all);
    var s1 := Next(s0, e);
    StepKeeps(s0, v, e);
    NobodyWalks(s0, v, t);
    hide Next;
    var v' := NotifyRun(s1, v, es, t, all, v.stack);
    WaitsAreConserved(s, before);
    AfterNotify(s0, v, End(s1, es), v', all);
  }

  lemma AfterNotify(s0: State, v: View, s: State, v': View, all: bool)
    requires Inv(s0, v) && v.walk == [] && Inv(s, v') && v' == Notified(all, v.stack) && s.begun == s0.begun
    ensures s0.head.None? <==> WaitingSet(s0) == {}
    ensures s0.head.Some? ==> s0.head.value in WaitingSet(s0)
    ensures WaitingSet(s) == if all || s0.head.None? then {} else WaitingSet(s0) - {s0.head.value}
    ensures s.resumed == s0.resumed + |WaitingSet(s0)| - |WaitingSet(s)|
  {
    hide Inv; hide WaitingSet; hide Distinct;
    Conserved(s0, v);
    Conserved(s, v');
    WaitingIsChained(s0, v);
    WaitingIsChained(s, v');
    assert v.walk + v.stack == v.stack && v'.walk + v'.stack == v'.stack;
    if v.stack != [] {
      HeadTaken(v.stack);
    }
  }

  lemma HeadTaken(q: seq<Tid>)
    requires Distinct(q) && q != []
    ensures q[0] in q && (set u | u in q[1..]) == (set u | u in q) - {q[0]}
  {
    hide Distinct;
    assert q == [q[0]] + q[1..];
    DistinctTail(q[0], q[1..]);
  }

  lemma Conserved(s: State, v: View)
    requires Inv(s, v)
    ensures s.begun == s.resumed + |v.stack| + |v.walk|
  {
  }

  // ---------- how many steps a call takes ----------

  /** An event in which the coroutine goes on with a call that it is in. */
  predicate OwnStep(e: Event, t: Tid) {
    e == Step(t) || e == SpuriousFailure(t)
  }

  function OwnSteps(es: seq<Event>, t: Tid): nat {
    if es == [] then 0 else (if OwnStep(es[0], t) then 1 else 0) + OwnSteps(es[1..], t)
  }

  function Spurious(es: seq<Event>, t: Tid): nat {
    if es == [] then 0 else (if es[0] == SpuriousFailure(t) then 1 else 0) + Spurious(es[1..], t)
  }

  /** How many steps are left until the coroutine is suspended or back in its critical section. */
  function Left(p: Pc, v: View): nat {
    match p
    case Locking(_) => 6
    case Queued(_) => 5
    case Testing(_) => 4
    case PushLoad(_) => 3
    case PushCas(_) => 2
    case Releasing(_) => 1
    case NotifyLoad(_, _) => 2 * |v.stack| + 3
    case NotifyCas(_, _, _) => 2 * |v.stack| + 2
    case NotifyCut(_, _) => 2 * |v.walk| + 1
    case NotifyWalk(_, _, _) => 2 * |v.walk|
    case NotifyStep(_, _, _) => 2 * |v.walk| + 1
    case _ => 0
  }

  /** What was read is still there: nobody else changes the chain while the mutex is held. */
  predicate UpToDate(s: State) {
    forall t | t in s.pc ::
      && (s.pc[t].PushCas? ==> s.head == LinkOf(s, t))
      && (s.pc[t].NotifyCas? ==> s.head == Some(s.pc[t].seen))
  }

  lemma UpToDateKeeps(s: State, v: View, e: Event)
    requires Inv(s, v) && ConditionVariableProtocol.Enabled(s, e) && UpToDate(s)
    ensures UpToDate(Next(s, e))
  {
    hide Inv; hide Released; hide Wakes;
    var s' := Next(s, e);
    forall t | t in s'.pc && (s'.pc[t].PushCas? || s'.pc[t].NotifyCas?)
      ensures s'.pc[t].PushCas? ==> s'.head == LinkOf(s', t)
      ensures s'.pc[t].NotifyCas? ==> s'.head == Some(s'.pc[t].seen)
    {
      SamePlaces(s, v, e, t);
      if e.t != t {
        OthersTouch(s, v, t, e);
        OwnerIs(s, v, t);
        ViewStays(s, v, t, e);
        LinkStays(s, v, t, e);
      } else {
        OwnUpToDate(s, v, e);
      }
    }
  }

  lemma SamePlaces(s: State, v: View, e: Event, t: Tid)
    requires Inv(s, v) && ConditionVariableProtocol.Enabled(s, e) && t in Next(s, e).pc
    ensures t in s.pc
  {
    hide Inv;
    StepKeeps(s, v, e);
    PlacesStay(s, v, e);
  }

  lemma HandoverPlaces(s: State, v: View, o: Tid, p: Pc)
    requires Inv(s, v) && o in s.pc
    ensures Released(s, o, p).pc.Keys == s.pc.Keys
  {
    hide Distinct; hide Chain; hide WakeupsPending;
    if s.lock.queue != [] {
      ElementIn(s.lock.queue, 0);
    }
  }

  lemma PlacesStay(s: State, v: View, e: Event)
    requires Inv(s, v) && ConditionVariableProtocol.Enabled(s, e)
    ensures Next(s, e).pc.Keys == s.pc.Keys
  {
    hide Inv; hide Released;
    if e.Step? && s.pc[e.t].NotifyWalk? {
      Resumes(s, v, e.t);
    } else if e.Step? && s.pc[e.t].Releasing? {
      HandoverPlaces(s, v, e.t, Parked(s.pc[e.t].goal));
    } else if e.CallUnlock? {
      HandoverPlaces(s, v, e.t, Idle);
    }
  }

  lemma LinkStays(s: State, v: View, t: Tid, e: Event)
    requires Inv(s, v) && ConditionVariableProtocol.Enabled(s, e) && e.t != t && s.lock.owner == Some(t)
    ensures LinkOf(Next(s, e), t) == LinkOf(s, t)
  {
    assert !Holds(s.pc[e.t]);
  }

  lemma OwnUpToDate(s: State, v: View, e: Event)
    requires Inv(s, v) && ConditionVariableProtocol.Enabled(s, e) && UpToDate(s) && e.t in Next(s, e).pc
    ensures var s' := Next(s, e);
            && (s'.pc[e.t].PushCas? ==> s'.head == LinkOf(s', e.t))
            && (s'.pc[e.t].NotifyCas? ==> s'.head == Some(s'.pc[e.t].seen))
  {
    hide Inv;
    if e.Step? && s.pc[e.t].Releasing? {
      OwnerIs(s, v, e.t);
      HandsOver(s, v, e.t, Parked(s.pc[e.t].goal));
    } else if e.CallUnlock? {
      OwnerIs(s, v, e.t);
      HandsOver(s, v, e.t, Idle);
    }
  }

  lemma NotifyStepLeaves(s: State, v: View, t: Tid, e: Event)
    requires Inv(s, v) && ConditionVariableProtocol.Enabled(s, e) && UpToDate(s) && OwnStep(e, t)
    requires s.pc[t].NotifyLoad? || s.pc[t].NotifyCas? || s.pc[t].NotifyCut? || s.pc[t].NotifyStep?
    ensures t in Next(s, e).pc
    ensures Left(Next(s, e).pc[t], NextView(s, v, e)) + (if e.Step? then 1 else 0) <= Left(s.pc[t], v)
  {
    hide PlacesAgree; hide WakeupsPending; hide Distinct;
    OwnerIs(s, v, t);
  }

  /** So every step but a spurious failure brings the coroutine nearer to the end of its call, and no
      compare-and-swap fails for another reason. */
  lemma OwnStepLeaves(s: State, v: View, t: Tid, e: Event)
    requires Inv(s, v) && ConditionVariableProtocol.Enabled(s, e) && UpToDate(s) && OwnStep(e, t)
    ensures t in Next(s, e).pc
    ensures Left(Next(s, e).pc[t], NextView(s, v, e)) + (if e.Step? then 1 else 0) <= Left(s.pc[t], v)
  {
    hide Inv; hide Released;
    if s.pc[t].Releasing? {
      OwnerIs(s, v, t);
      HandsOver(s, v, t, Parked(s.pc[t].goal));
    } else if s.pc[t].NotifyWalk? {
      Resumes(s, v, t);
    } else if s.pc[t].NotifyLoad? || s.pc[t].NotifyCas? || s.pc[t].NotifyCut? || s.pc[t].NotifyStep? {
      hide Next; hide NextView; hide UpToDate;
      NotifyStepLeaves(s, v, t, e);
    }
  }

  lemma OthersLeave(s: State, v: View, t: Tid, e: Event)
    requires Inv(s, v) && ConditionVariableProtocol.Enabled(s, e) && e.t != t && t in s.pc
    ensures t in Next(s, e).pc
    ensures Left(Next(s, e).pc[t], NextView(s, v, e)) <= Left(s.pc[t], v) + if Wakes(s, e, t) then 6 else 0
  {
    hide Inv; hide Wakes;
    OthersTouch(s, v, t, e);
    if Holds(s.pc[t]) {
      OwnerIs(s, v, t);
      ViewStays(s, v, t, e);
    }
  }

  lemma {:induction false} StepsAreBounded(s: State, v: View, es: seq<Event>, t: Tid)
    requires Inv(s, v) && UpToDate(s) && ValidRun(s, es) && t in s.pc
    requires forall i | 0 <= i < |es| :: es[i].t == t ==> OwnStep(es[i], t)
    ensures OwnSteps(es, t) <= Left(s.pc[t], v) + 6 * Wakeups(s, es, t) + Spurious(es, t)
    decreases |es|
  {
    hide Inv; hide Next; hide ConditionVariableProtocol.Enabled; hide NextView; hide Wakes; hide Left; hide UpToDate;
    if es != [] {
      var e := es[0];
      StepKeeps(s, v, e);
      UpToDateKeeps(s, v, e);
      assert forall i | 0 < i < |es| :: es[i] == es[1..][i - 1];
      if e.t == t {
        OwnStepLeaves(s, v, t, e);
      } else {
        OthersLeave(s, v, t, e);
      }
      StepsAreBounded(Next(s, e), NextView(s, v, e), es[1..], t);
    }
  }

  lemma {:induction false} RunUpToDate(s: State, v: View, es: seq<Event>)
    requires Inv(s, v) && UpToDate(s) && ValidRun(s, es)
    ensures UpToDate(End(s, es))
    decreases |es|
  {
    hide Inv; hide Next; hide ConditionVariableProtocol.Enabled; hide NextView; hide UpToDate;
    if es != [] {
      StepKeeps(s, v, es[0]);
      UpToDateKeeps(s, v, es[0]);
      RunUpToDate(Next(s, es[0]), NextView(s, v, es[0]), es[1..]);
    }
  }

  /** From any reachable state on, without further calls of its own, a coroutine takes at most six steps and two for
      each waiter, six more each time it is resumed, and one for each spurious failure. */
  lemma EveryCallEnds(s: State, before: seq<Event>, t: Tid, es: seq<Event>)
    requires Initial(s) && ValidRun(s, before) && ValidRun(End(s, before), es) && t in End(s, before).pc
    requires forall i | 0 <= i < |es| :: es[i].t == t ==> OwnStep(es[i], t)
    ensures var s1 := End(s, before);
            OwnSteps(es, t) <= 6 + 2 * |WaitingSet(s1)| + 6 * Wakeups(s1, es, t) + Spurious(es, t)
  {
    hide Inv; hide UpToDate;
    InitialInv(s);
    var v := RunKeeps(s, NOBODY, before);
    assert UpToDate(s) by { UpToDateAtFirst(s); }
    RunUpToDate(s, NOBODY, before);
    StepsAreBounded(End(s, before), v, es, t);
    WaitingIsChained(End(s, before), v);
  }

  lemma UpToDateAtFirst(s: State)
    requires Initial(s)
    ensures UpToDate(s)
  {
  }
}
