/** `v2::Mutex` gets on: waiters always have an owner who can move or is in its critical section, and each call takes
    a bounded number of its own steps, whatever the others do. */
module MutexProgress {
  import opened Wrappers
  import opened Sequences
  import opened Chains
  import opened FifoLock
  import opened MutexProtocol

  /** While somebody waits there is an owner, and it is in its critical section or has a next step in `Unlock`. */
  lemma SomebodyMoves(s: State, es: seq<Event>)
    requires Initial(s) && ValidRun(s, es) && Waiters(End(s, es)) != {}
    ensures var s' := End(s, es);
            exists o :: o in s'.pc && Owns(s'.pc[o]) && (s'.pc[o].Inside? || MutexProtocol.Enabled(s', Step(o)))
  {
    MutualExclusion(s, es);
    var s' := End(s, es);
    var o :| o in s'.pc && Owns(s'.pc[o]);
    assert s'.pc[o].Inside? || MutexProtocol.Enabled(s', Step(o));
  }

  // ---------- how long an Unlock takes ----------

  predicate InUnlock(p: Pc) {
    Owns(p) && !p.Inside?
  }

  /** An event in which the coroutine goes on with a call that it is in. */
  predicate OwnStep(e: Event, t: Tid) {
    e == Step(t) || e == SpuriousFailure(t)
  }

  function OwnSteps(es: seq<Event>, t: Tid): nat {
    if es == [] then 0 else (if OwnStep(es[0], t) then 1 else 0) + OwnSteps(es[1..], t)
  }

  /** How often others change `state_`. */
  function Writes(s: State, es: seq<Event>, t: Tid): nat
    requires ValidRun(s, es)
    decreases |es|
  {
    if es == [] then 0
    else (if es[0].t != t && Next(s, es[0]).word != s.word then 1 else 0) + Writes(Next(s, es[0]), es[1..], t)
  }

  function Spurious(es: seq<Event>, t: Tid): nat {
    if es == [] then 0 else (if es[0] == SpuriousFailure(t) then 1 else 0) + Spurious(es[1..], t)
  }

  /** How many steps are left, if nobody else writes `state_`; a compare-and-swap that will fail costs two.  `todo`
      waiters are still to be reversed, and there are n coroutines. */
  function Left(n: nat, p: Pc, todo: nat, w: Word): nat {
    match p
    case UnlockEntry => n + 6
    case UnlockLoad => n + 5
    case UnlockCas => if w.Locked? then n + 4 else n + 6
    case UnlockSwap => n + 3
    case UnlockReverse(_, _) => todo + 2
    case UnlockPop(_) => 2
    case UnlockResume(_) => 1
    case _ => 0
  }

  lemma {:induction false} KeysBound(q: seq<Tid>, pc: map<Tid, Pc>)
    requires Distinct(q) && forall t | t in q :: t in pc
    ensures |q| <= |pc|
  {
    var w := set t | t in q;
    SizeOfDistinct(q, w);
    SubsetSize(w, pc.Keys);
  }

  lemma {:induction false} SubsetSize(a: set<Tid>, b: set<Tid>)
    requires a <= b
    ensures |a| <= |b|
  {
    if a != {} {
      var x :| x in a;
      SubsetSize(a - {x}, b - {x});
    }
  }

  lemma QueueParts(v: View)
    requires v.hand == [] && v.todo == [] && v.ready == []
    ensures Queue(v) == Reverse(v.stack)
  {
  }

  /** No more than all coroutines are on the stack that `Unlock` takes. */
  lemma StackBound(s: State, v: View, t: Tid)
    requires Inv(s, v) && t in s.pc && s.pc[t].UnlockSwap?
    ensures s.word.Queued? && |v.stack| <= |s.pc|
  {
    hide Distinct; hide Queue; hide Chain;
    SwapKeepsInv(s, v, t);
    HandIsEmpty(s, v, t);
    QueueParts(v);
    KeysBound(Queue(v), s.pc);
  }

  lemma HandIsEmpty(s: State, v: View, t: Tid)
    requires Inv(s, v) && t in s.pc && s.pc[t].UnlockSwap?
    ensures v.hand == []
  {
    hide Distinct; hide Queue; hide Chain;
    assert v.owner == Some(t);
  }

  /** A turn of the reversal ends with the node that ends the chain. */
  lemma TurnLeaves(s: State, v: View, t: Tid)
    requires Inv(s, v) && t in s.pc && s.pc[t].UnlockReverse?
    ensures v.todo != [] && (NextOf(s, t).pc[t].UnlockReverse? || NextOf(s, t).pc[t].UnlockPop?)
    ensures NextOf(s, t).pc[t].UnlockReverse? ==> |v.todo| > 1
    ensures |NextView(s, v, Step(t)).todo| == |v.todo| - 1
  {
    hide Distinct; hide Queue;
    assert v.owner == Some(t);
    assert v.todo[0] == s.pc[t].curr && LinkOf(s, s.pc[t].curr) == s.next[v.todo[0]];
    assert Chain(s.next, s.next[v.todo[0]], v.todo[1..]);
    assert |v.todo| == 1 ==> v.todo[1..] == [];
  }

  lemma PlainStepLeaves(s: State, v: View, t: Tid, e: Event)
    requires MutexProtocol.Enabled(s, e) && OwnStep(e, t)
    requires s.pc[t].UnlockEntry? || s.pc[t].UnlockLoad? || s.pc[t].UnlockCas? || s.pc[t].UnlockPop?
    ensures t in Next(s, e).pc && (InUnlock(Next(s, e).pc[t]) || Next(s, e).pc[t].Outside?)
    ensures Left(|s.pc|, Next(s, e).pc[t], |NextView(s, v, e).todo|, Next(s, e).word) + 1
            <= Left(|s.pc|, s.pc[t], |v.todo|, s.word) + if e.SpuriousFailure? then 2 else 0
  {
  }

  lemma SwapLeaves(s: State, v: View, t: Tid)
    requires Inv(s, v) && t in s.pc && s.pc[t].UnlockSwap?
    ensures Next(s, Step(t)).pc[t].UnlockReverse? && |NextView(s, v, Step(t)).todo| <= |s.pc|
  {
    hide Inv;
    StackBound(s, v, t);
  }

  lemma ResumeLeaves(s: State, v: View, t: Tid)
    requires Inv(s, v) && t in s.pc && s.pc[t].UnlockResume?
    ensures Next(s, Step(t)).pc[t].Outside?
  {
    hide Inv;
    TouchedWaits(s, v, t);
  }

  /** Every step of an `Unlock` brings it nearer to its end, but for a spurious failure, which costs two. */
  lemma OwnStepLeaves(s: State, v: View, t: Tid, e: Event)
    requires Inv(s, v) && MutexProtocol.Enabled(s, e) && OwnStep(e, t) && InUnlock(s.pc[t])
    ensures t in Next(s, e).pc && (InUnlock(Next(s, e).pc[t]) || Next(s, e).pc[t].Outside?)
    ensures Left(|s.pc|, Next(s, e).pc[t], |NextView(s, v, e).todo|, Next(s, e).word) + 1
            <= Left(|s.pc|, s.pc[t], |v.todo|, s.word) + if e.SpuriousFailure? then 2 else 0
  {
    hide Inv; hide NextView;
    if s.pc[t].UnlockReverse? {
      TurnLeaves(s, v, t);
    } else if s.pc[t].UnlockSwap? {
      SwapLeaves(s, v, t);
    } else if s.pc[t].UnlockResume? {
      ResumeLeaves(s, v, t);
    } else {
      PlainStepLeaves(s, v, t, e);
    }
  }

  /** Others do not touch a coroutine that is in `Unlock`, nor one that is outside. */
  lemma OthersLeave(s: State, v: View, t: Tid, e: Event)
    requires Inv(s, v) && MutexProtocol.Enabled(s, e) && e.t != t
    requires t in s.pc && (InUnlock(s.pc[t]) || s.pc[t].Outside?)
    ensures t in Next(s, e).pc && Next(s, e).pc[t] == s.pc[t]
    ensures InUnlock(s.pc[t]) ==> NextView(s, v, e).todo == v.todo
  {
    hide Distinct; hide Queue; hide Chain; hide HolderAgrees;
    assert InUnlock(s.pc[t]) ==> v.owner == Some(t) && !Owns(s.pc[e.t]);
    if e.Step? && Touched(s.pc[e.t]).Some? {
      TouchedWaits(s, v, e.t);
    }
  }

  /** Without further calls of its own, a coroutine that is in `Unlock` makes at most six steps more than there are
      coroutines, and two for each time that somebody else changes `state_` or a compare-and-swap fails for no
      reason. */
  lemma {:induction false} UnlockIsBounded(s: State, v: View, es: seq<Event>, t: Tid)
    requires Inv(s, v) && ValidRun(s, es) && t in s.pc && (InUnlock(s.pc[t]) || s.pc[t].Outside?)
    requires forall i | 0 <= i < |es| :: es[i].t == t ==> OwnStep(es[i], t)
    ensures OwnSteps(es, t) <= Left(|s.pc|, s.pc[t], |v.todo|, s.word) + 2 * (Writes(s, es, t) + Spurious(es, t))
    ensures t in End(s, es).pc && (InUnlock(End(s, es).pc[t]) || End(s, es).pc[t].Outside?)
    decreases |es|
  {
    hide Inv; hide Next; hide NextView; hide MutexProtocol.Enabled; hide Left; hide InUnlock;
    if es != [] {
      var e, s', v' := es[0], Next(s, es[0]), NextView(s, v, es[0]);
      StepSimulates(s, v, e);
      SameSize(s, v, e);
      assert forall i | 0 < i < |es| :: es[i] == es[1..][i - 1];
      if e.t == t {
        OutsideRests(s, e, t);
        OwnStepLeaves(s, v, t, e);
      } else {
        OthersLeave(s, v, t, e);
        OthersCost(|s.pc|, s.pc[t], |v.todo|, |v'.todo|, s.word, s'.word);
      }
      UnlockIsBounded(s', v', es[1..], t);
    }
  }

  lemma OutsideRests(s: State, e: Event, t: Tid)
    requires MutexProtocol.Enabled(s, e) && OwnStep(e, t)
    ensures t in s.pc && !s.pc[t].Outside?
  {
  }

  lemma OthersCost(n: nat, p: Pc, a: nat, b: nat, w: Word, w': Word)
    requires p.Outside? || a == b
    ensures Left(n, p, b, w') <= Left(n, p, a, w) + if w == w' then 0 else 2
  {
  }

  lemma SameSize(s: State, v: View, e: Event)
    requires Inv(s, v) && MutexProtocol.Enabled(s, e) && Inv(Next(s, e), NextView(s, v, e))
    ensures |Next(s, e).pc| == |s.pc|
  {
    hide Distinct; hide Queue; hide Chain; hide HolderAgrees; hide PointersAgree; hide PlacesAgree;
    KeysStay(s, v, e);
    assert |Next(s, e).pc| == |Next(s, e).pc.Keys| && |s.pc| == |s.pc.Keys|;
  }

  lemma KeysStay(s: State, v: View, e: Event)
    requires Inv(s, v) && MutexProtocol.Enabled(s, e)
    ensures Next(s, e).pc.Keys == s.pc.Keys
  {
    hide Distinct; hide Queue; hide Chain; hide HolderAgrees; hide PointersAgree;
    if e.Step? && Touched(s.pc[e.t]).Some? {
      TouchedWaits(s, v, e.t);
    }
  }

  /** The same for a whole `Unlock`, from its call in any reachable state. */
  lemma EveryUnlockEnds(s: State, before: seq<Event>, t: Tid, es: seq<Event>)
    requires Initial(s) && ValidRun(s, before) && MutexProtocol.Enabled(End(s, before), CallUnlock(t))
    requires ValidRun(Next(End(s, before), CallUnlock(t)), es)
    requires forall i | 0 <= i < |es| :: es[i].t == t ==> OwnStep(es[i], t)
    ensures var called := Next(End(s, before), CallUnlock(t));
            OwnSteps(es, t) <= |s.pc| + 6 + 2 * (Writes(called, es, t) + Spurious(es, t))
    ensures var s' := End(Next(End(s, before), CallUnlock(t)), es);
            t in s'.pc && (s'.pc[t].Outside? || MutexProtocol.Enabled(s', Step(t)))
  {
    hide Inv; hide Next; hide NextView; hide MutexProtocol.Ops; hide Queue; hide MutexProtocol.Enabled;
    InitialInv(s);
    RunSimulates(s, NOBODY, before);
    RunSize(s, NOBODY, before);
    UnlockFrom(End(s, before), EndView(s, NOBODY, before), t, es);
  }

  lemma UnlockFrom(s: State, v: View, t: Tid, es: seq<Event>)
    requires Inv(s, v) && MutexProtocol.Enabled(s, CallUnlock(t)) && ValidRun(Next(s, CallUnlock(t)), es)
    requires forall i | 0 <= i < |es| :: es[i].t == t ==> OwnStep(es[i], t)
    ensures var called := Next(s, CallUnlock(t));
            && OwnSteps(es, t) <= |s.pc| + 6 + 2 * (Writes(called, es, t) + Spurious(es, t))
            && t in End(called, es).pc
            && (End(called, es).pc[t].Outside? || MutexProtocol.Enabled(End(called, es), Step(t)))
  {
    hide Inv; hide NextView;
    StepSimulates(s, v, CallUnlock(t));
    SameSize(s, v, CallUnlock(t));
    UnlockIsBounded(Next(s, CallUnlock(t)), NextView(s, v, CallUnlock(t)), es, t);
  }

  lemma {:induction false} RunSize(s: State, v: View, es: seq<Event>)
    requires Inv(s, v) && ValidRun(s, es)
    ensures |End(s, es).pc| == |s.pc|
    decreases |es|
  {
    hide Inv; hide Next; hide NextView; hide MutexProtocol.Enabled;
    if es != [] {
      StepSimulates(s, v, es[0]);
      SameSize(s, v, es[0]);
      RunSize(Next(s, es[0]), NextView(s, v, es[0]), es[1..]);
    }
  }

  // ---------- how long a Lock takes ----------

  predicate InLock(p: Pc) {
    p.ReadyCas? || p.LockLoad? || p.LockCasFree? || p.LockLink? || p.LockCasPush?
  }

  /** In a call of `Lock`, or come to the end of it. */
  predicate Locks(p: Pc) {
    InLock(p) || p.Waiting? || p.Inside?
  }

  /** How many steps are left, if nobody else writes `state_`; a compare-and-swap that will fail costs three. */
  function LockLeft(p: Pc, w: Word): nat {
    match p
    case ReadyCas => 4
    case LockLoad => 3
    case LockCasFree => if w.Free? then 1 else 4
    case LockLink(seen) => if w == WordOf(seen) then 2 else 5
    case LockCasPush(seen) => if w == WordOf(seen) then 1 else 4
    case _ => 0
  }

  lemma OwnLockStep(s: State, t: Tid, e: Event)
    requires MutexProtocol.Enabled(s, e) && OwnStep(e, t) && Locks(s.pc[t])
    ensures t in Next(s, e).pc && Locks(Next(s, e).pc[t])
    ensures LockLeft(Next(s, e).pc[t], Next(s, e).word) + 1 <=
            LockLeft(s.pc[t], s.word) + if e.SpuriousFailure? then 3 else 0
  {
  }

  lemma OthersLetLock(s: State, v: View, t: Tid, e: Event)
    requires Inv(s, v) && MutexProtocol.Enabled(s, e) && e.t != t && t in s.pc && Locks(s.pc[t])
    ensures t in Next(s, e).pc && Locks(Next(s, e).pc[t])
    ensures LockLeft(Next(s, e).pc[t], Next(s, e).word) <=
            LockLeft(s.pc[t], s.word) + if Next(s, e).word != s.word then 3 else 0
  {
    hide Inv;
    if e.Step? && s.pc[e.t].UnlockResume? {
      TouchedWaits(s, v, e.t);
    }
  }

  /** Without further calls of its own, a coroutine in `Lock` comes to wait or to be inside, and to nowhere else, in
      at most four steps, and three more each time somebody else changes `state_` or a compare-and-swap fails for
      no reason. */
  lemma {:induction false} LockIsBounded(s: State, v: View, es: seq<Event>, t: Tid)
    requires Inv(s, v) && ValidRun(s, es) && t in s.pc && Locks(s.pc[t])
    requires forall i | 0 <= i < |es| :: es[i].t == t ==> OwnStep(es[i], t)
    ensures t in End(s, es).pc && Locks(End(s, es).pc[t])
    ensures OwnSteps(es, t) <= LockLeft(s.pc[t], s.word) + 3 * (Writes(s, es, t) + Spurious(es, t))
    decreases |es|
  {
    hide Inv; hide Next; hide NextView; hide MutexProtocol.Enabled; hide LockLeft; hide Locks;
    if es != [] {
      var e := es[0];
      StepSimulates(s, v, e);
      assert forall i | 0 < i < |es| :: es[i] == es[1..][i - 1];
      if e.t == t {
        OwnLockStep(s, t, e);
      } else {
        OthersLetLock(s, v, t, e);
      }
      LockIsBounded(Next(s, e), NextView(s, v, e), es[1..], t);
    }
  }

  /** The same for a whole `Lock`, from its call in any reachable state: it ends with the coroutine inside or waiting,
      or has a next step. */
  lemma EveryLockEnds(s: State, before: seq<Event>, t: Tid, es: seq<Event>)
    requires Initial(s) && ValidRun(s, before) && MutexProtocol.Enabled(End(s, before), CallLock(t))
    requires ValidRun(Next(End(s, before), CallLock(t)), es)
    requires forall i | 0 <= i < |es| :: es[i].t == t ==> OwnStep(es[i], t)
    ensures var called := Next(End(s, before), CallLock(t));
            var s' := End(called, es);
            && OwnSteps(es, t) <= 4 + 3 * (Writes(called, es, t) + Spurious(es, t))
            && t in s'.pc && (s'.pc[t].Inside? || s'.pc[t].Waiting? || MutexProtocol.Enabled(s', Step(t)))
  {
    hide Inv; hide NextView; hide MutexProtocol.Ops; hide Queue;
    InitialInv(s);
    RunSimulates(s, NOBODY, before);
    var s1, v1 := End(s, before), EndView(s, NOBODY, before);
    StepSimulates(s1, v1, CallLock(t));
    LockIsBounded(Next(s1, CallLock(t)), NextView(s1, v1, CallLock(t)), es, t);
  }

  /** What was read is still so. */
  predicate OnItsWay(s: State, t: Tid, free: bool) {
    && t in s.pc
    && match s.pc[t]
       case ReadyCas => s.word.Free? == free
       case LockLoad => s.word.Free? == free
       case LockCasFree => s.word.Free? && free
       case LockLink(seen) => s.word == WordOf(seen) && !free
       case LockCasPush(seen) => s.word == WordOf(seen) && !free
       case Inside => free
       case Waiting => !free
       case _ => false
  }

  lemma {:induction false} AloneOnItsWay(s: State, es: seq<Event>, t: Tid, free: bool)
    requires ValidRun(s, es) && OnItsWay(s, t, free) && forall i | 0 <= i < |es| :: es[i] == Step(t)
    ensures OnItsWay(End(s, es), t, free) && |es| <= LockLeft(s.pc[t], s.word)
    decreases |es|
  {
    if es != [] {
      assert forall i | 0 < i < |es| :: es[i] == es[1..][i - 1];
      OwnLockStep(s, t, es[0]);
      AloneOnItsWay(Next(s, es[0]), es[1..], t, free);
    }
  }

  /** Left alone, with `state_` yet to be read, `Lock` takes the mutex within four steps if nobody owns it, and
      queues up if somebody does. */
  lemma LockAlone(s: State, before: seq<Event>, t: Tid, es: seq<Event>)
    requires Initial(s) && ValidRun(s, before)
    requires var s1 := End(s, before); t in s1.pc && (s1.pc[t].ReadyCas? || s1.pc[t].LockLoad?)
    requires ValidRun(End(s, before), es) && forall i | 0 <= i < |es| :: es[i] == Step(t)
    ensures |es| <= 4
    ensures !MutexProtocol.Enabled(End(End(s, before), es), Step(t)) ==>
              var s1, s' := End(s, before), End(End(s, before), es);
              t in s'.pc && s'.pc[t] == if exists o :: o in s1.pc && Owns(s1.pc[o]) then Waiting else Inside
  {
    MutualExclusion(s, before);
    var s1 := End(s, before);
    AloneOnItsWay(s1, es, t, s1.word.Free?);
  }

  // ---------- TryLock ----------

  lemma {:induction false} TryWaits(s: State, v: View, es: seq<Event>, t: Tid)
    requires Inv(s, v) && ValidRun(s, es) && t in s.pc && s.pc[t].TryCas?
    requires forall i | 0 <= i < |es| :: es[i].t != t
    ensures t in End(s, es).pc && End(s, es).pc[t].TryCas?
    decreases |es|
  {
    hide Inv; hide NextView; hide MutexProtocol.Enabled;
    if es != [] {
      StepSimulates(s, v, es[0]);
      OthersLetTry(s, v, t, es[0]);
      assert forall i | 0 < i < |es| :: es[i] == es[1..][i - 1];
      TryWaits(Next(s, es[0]), NextView(s, v, es[0]), es[1..], t);
    }
  }

  lemma OthersLetTry(s: State, v: View, t: Tid, e: Event)
    requires Inv(s, v) && MutexProtocol.Enabled(s, e) && e.t != t && t in s.pc && s.pc[t].TryCas?
    ensures t in Next(s, e).pc && Next(s, e).pc[t].TryCas?
  {
    hide Inv;
    if e.Step? && s.pc[e.t].UnlockResume? {
      TouchedWaits(s, v, e.t);
    }
  }

  /** After its call `TryLock` takes one step, which takes the mutex exactly if nobody owns it at that moment, and
      changes nothing otherwise. */
  lemma TryLockExactly(s: State, before: seq<Event>, t: Tid, es: seq<Event>)
    requires Initial(s) && ValidRun(s, before) && MutexProtocol.Enabled(End(s, before), CallTryLock(t))
    requires ValidRun(Next(End(s, before), CallTryLock(t)), es) && forall i | 0 <= i < |es| :: es[i].t != t
    ensures var s2 := End(Next(End(s, before), CallTryLock(t)), es);
            && MutexProtocol.Enabled(s2, Step(t))
            && if exists o :: o in s2.pc && Owns(s2.pc[o]) then Next(s2, Step(t)) == s2.(pc := s2.pc[t := Outside])
               else t in Next(s2, Step(t)).pc && Next(s2, Step(t)).pc[t].Inside?
  {
    hide Inv; hide NextView; hide MutexProtocol.Ops; hide Queue;
    InitialInv(s);
    RunSimulates(s, NOBODY, before);
    var s1, v1 := End(s, before), EndView(s, NOBODY, before);
    StepSimulates(s1, v1, CallTryLock(t));
    TryFrom(Next(s1, CallTryLock(t)), NextView(s1, v1, CallTryLock(t)), es, t);
  }

  lemma TryFrom(s: State, v: View, es: seq<Event>, t: Tid)
    requires Inv(s, v) && ValidRun(s, es) && t in s.pc && s.pc[t].TryCas?
    requires forall i | 0 <= i < |es| :: es[i].t != t
    ensures var s2 := End(s, es);
            && MutexProtocol.Enabled(s2, Step(t))
            && if exists o :: o in s2.pc && Owns(s2.pc[o]) then Next(s2, Step(t)) == s2.(pc := s2.pc[t := Outside])
               else t in Next(s2, Step(t)).pc && Next(s2, Step(t)).pc[t].Inside?
  {
    hide Inv; hide NextView; hide MutexProtocol.Ops; hide Queue; hide Owns;
    TryWaits(s, v, es, t);
    RunSimulates(s, v, es);
    OwnersAndWord(End(s, es), EndView(s, v, es));
  }

  lemma OwnersAndWord(s: State, v: View)
    requires Inv(s, v)
    ensures s.word.Free? <==> !exists o :: o in s.pc && Owns(s.pc[o])
  {
    assert v.owner.Some? ==> Owns(s.pc[v.owner.value]);
  }
}
