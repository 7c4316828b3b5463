/** `ConditionVariable` on top of the mutex, under any interleaving of any number of coroutines.

    The mutex is its specification, `FifoLock`; `MutexProtocol.StepSimulates` is what justifies that.  Waiters
    and notifiers hold the mutex, as `Wait` demands of its callers, and a coroutine that makes the condition
    true calls `NotifyAll` before it gives the mutex up. */
module ConditionVariableProtocol {
  import opened Wrappers
  import opened Sequences
  import opened Chains
  import opened FifoLock

  /** What a coroutine does once it has the mutex: enter its critical section, return from `Wait(lock)`, or
      test its condition again inside `Wait(lock, func)`. */
  datatype Goal = Enter | Plain | Looping

  datatype Pc =
    | Idle
    | Locking(goal: Goal)
    | Queued(goal: Goal)                            // suspended in the mutex
    | Critical(dirty: bool)                         // dirty: made the condition true, did not notify yet
    | Testing(dirty: bool)                          // Wait(lock, func)
    | PushLoad(goal: Goal)                          // Awaiter::await_suspend
    | PushCas(goal: Goal)
    | Releasing(goal: Goal)
    | Parked(goal: Goal)                            // suspended in the condition variable
    | NotifyLoad(all: bool, dirty: bool)            // Notify
    | NotifyCas(all: bool, dirty: bool, seen: Tid)
    | NotifyCut(dirty: bool, seen: Tid)
    | NotifyWalk(all: bool, dirty: bool, curr: Tid)
    | NotifyStep(all: bool, dirty: bool, curr: Tid)

  datatype State = State(
    lock: Lock,
    head: Option<Tid>,                              // awaiter_
    next: map<Tid, Option<Tid>>,                    // next_ of every awaiter
    ready: bool,                                    // the condition
    pc: map<Tid, Pc>,
    begun: nat,
    resumed: nat)

  datatype Event =
    | CallLock(t: Tid)
    | CallUnlock(t: Tid)
    | SetReady(t: Tid, value: bool)
    | CallWait(t: Tid)
    | CallWaitFor(t: Tid)
    | CallNotify(t: Tid, all: bool)
    | Step(t: Tid)
    | SpuriousFailure(t: Tid)

  predicate Holds(p: Pc) {
    !p.Idle? && !p.Locking? && !p.Queued? && !p.Parked?
  }

  predicate Enabled(s: State, e: Event) {
    && e.t in s.pc
    && match e
       case CallLock(t) => s.pc[t].Idle?
       case CallUnlock(t) => s.pc[t] == Critical(false)
       case SetReady(t, _) => s.pc[t].Critical?
       case CallWait(t) => s.pc[t] == Critical(false)
       case CallWaitFor(t) => s.pc[t].Critical?
       case CallNotify(t, _) => s.pc[t].Critical?
       case Step(t) => !s.pc[t].Idle? && !s.pc[t].Queued? && !s.pc[t].Critical? && !s.pc[t].Parked?
       case SpuriousFailure(t) => s.pc[t].PushCas? || s.pc[t].NotifyCas?
  }

  function Arrive(goal: Goal): Pc {
    if goal.Looping? then Testing(false) else Critical(false)
  }

  function GoalOf(p: Pc): Goal {
    match p
    case Locking(goal) => goal
    case Queued(goal) => goal
    case PushLoad(goal) => goal
    case PushCas(goal) => goal
    case Releasing(goal) => goal
    case Parked(goal) => goal
    case _ => Enter
  }

  /** The places after the owner `t` has released the mutex and moved to `p`. */
  function Released(s: State, t: Tid, p: Pc): State
    requires t in s.pc
  {
    if s.lock.owner != Some(t) then s
    else if s.lock.queue == [] then s.(lock := Apply(s.lock, Release(t)), pc := s.pc[t := p])
    else
      var w := s.lock.queue[0];
      s.(lock := Apply(s.lock, Release(t)),
         pc := s.pc[t := p][w := Arrive(if w in s.pc then GoalOf(s.pc[w]) else Enter)])
  }

  function LinkOf(s: State, t: Tid): Option<Tid> {
    if t in s.next then s.next[t] else None
  }

  /** `Notify` has read `head` (again): it returns if there is nobody, else it tries to take him. */
  function NotifySees(s: State, all: bool, dirty: bool): Pc {
    if s.head.Some? then NotifyCas(all, dirty, s.head.value) else Critical(dirty && !all)
  }

  function Next(s: State, e: Event): State
    requires Enabled(s, e)
  {
    match e
    case CallLock(t) => s.(pc := s.pc[t := Locking(Enter)])
    case CallUnlock(t) => Released(s, t, Idle)
    case SetReady(t, value) => s.(ready := value, pc := s.pc[t := Critical(s.pc[t].dirty || value)])
    case CallWait(t) => s.(pc := s.pc[t := PushLoad(Plain)])
    case CallWaitFor(t) => s.(pc := s.pc[t := Testing(s.pc[t].dirty)])
    case CallNotify(t, all) => s.(pc := s.pc[t := NotifyLoad(all, s.pc[t].dirty)])
    case Step(t) => NextOf(s, t)
    case SpuriousFailure(t) =>
      if s.pc[t].PushCas? then s.(next := s.next[t := s.head])
      else s.(pc := s.pc[t := NotifySees(s, s.pc[t].all, s.pc[t].dirty)])
  }

  function NextOf(s: State, t: Tid): State
    requires t in s.pc
  {
    match s.pc[t]
    case Locking(goal) =>
      if s.lock.owner.None? then s.(lock := s.lock.(owner := Some(t)), pc := s.pc[t := Arrive(goal)])
      else s.(lock := s.lock.(queue := s.lock.queue + [t]), pc := s.pc[t := Queued(goal)])
    case Testing(dirty) =>
      s.(pc := s.pc[t := if s.ready then Critical(dirty) else PushLoad(Looping)])
    case PushLoad(goal) =>
      s.(next := s.next[t := s.head], pc := s.pc[t := PushCas(goal)])
    case PushCas(goal) =>
      if s.head == LinkOf(s, t) then s.(head := Some(t), begun := s.begun + 1, pc := s.pc[t := Releasing(goal)])
      else s.(next := s.next[t := s.head])
    case Releasing(goal) => Released(s, t, Parked(goal))
    case NotifyLoad(all, dirty) => s.(pc := s.pc[t := NotifySees(s, all, dirty)])
    case NotifyCas(all, dirty, seen) =>
      if s.head != Some(seen) then s.(pc := s.pc[t := NotifySees(s, all, dirty)])
      else if all then s.(head := None, pc := s.pc[t := NotifyWalk(all, dirty, seen)])
      else s.(head := LinkOf(s, seen), pc := s.pc[t := NotifyCut(dirty, seen)])
    case NotifyCut(dirty, seen) =>
      s.(next := s.next[seen := None], pc := s.pc[t := NotifyWalk(false, dirty, seen)])
    case NotifyWalk(all, dirty, curr) =>
      var goal := if curr in s.pc then GoalOf(s.pc[curr]) else Enter;
      s.(resumed := s.resumed + 1, pc := s.pc[curr := Locking(goal)][t := NotifyStep(all, dirty, curr)])
    case NotifyStep(all, dirty, curr) =>
      s.(pc := s.pc[t := if LinkOf(s, curr).Some? then NotifyWalk(all, dirty, LinkOf(s, curr).value)
                         else Critical(dirty && !all)])
    case _ => s
  }

  // ---------- the invariant ----------

  /** The chain from `awaiter_`, newest first, and the waiters that the running `Notify` took off it but has
      not resumed yet. */
  datatype View = View(stack: seq<Tid>, walk: seq<Tid>)

  /** Suspended in the condition variable, or about to be. */
  predicate Waits(p: Pc) {
    p.Releasing? || p.Parked?
  }

  ghost predicate PlacesAgree(pc: map<Tid, Pc>, lock: Lock, waiting: seq<Tid>) {
    && (forall t | t in pc :: Holds(pc[t]) <==> lock.owner == Some(t))
    && (forall t | t in pc :: pc[t].Queued? <==> t in lock.queue)
    && (forall t | t in pc :: Waits(pc[t]) <==> t in waiting)
    && (forall t | t in lock.queue :: t in pc)
    && (forall t | t in waiting :: t in pc)
    && (lock.owner.Some? ==> lock.owner.value in pc)
  }

  ghost predicate WalkAgrees(next: map<Tid, Option<Tid>>, v: View, p: Pc) {
    match p
    case NotifyCut(_, seen) => v.walk == [seen]
    case NotifyWalk(all, _, curr) => v.walk != [] && Chain(next, Some(curr), v.walk) && (all ==> v.stack == [])
    case NotifyStep(all, _, curr) => curr in next && Chain(next, next[curr], v.walk) && (all ==> v.stack == [])
    case _ => v.walk == []
  }

  ghost predicate ChainsAgree(s: State, v: View) {
    && Chain(s.next, s.head, v.stack)
    && (s.lock.owner.None? ==> v.walk == [])
    && (s.lock.owner.Some? && s.lock.owner.value in s.pc ==> WalkAgrees(s.next, v, s.pc[s.lock.owner.value]))
  }

  predicate Dirty(p: Pc) {
    match p
    case Critical(dirty) => dirty
    case Testing(dirty) => dirty
    case NotifyLoad(_, dirty) => dirty
    case NotifyCas(_, dirty, _) => dirty
    case NotifyCut(dirty, _) => dirty
    case NotifyWalk(_, dirty, _) => dirty
    case NotifyStep(_, dirty, _) => dirty
    case _ => false
  }

  /** If the condition holds while somebody is on the stack waiting for it, the owner is still to notify. */
  ghost predicate WakeupsPending(ready: bool, pc: map<Tid, Pc>, owner: Option<Tid>, stack: seq<Tid>) {
    && (forall t | t in stack && t in pc && ready && GoalOf(pc[t]).Looping? ::
          owner.Some? && owner.value in pc && Dirty(pc[owner.value]))
    && (forall t | t in pc && (pc[t].PushLoad? || pc[t].PushCas? || pc[t].Releasing?) && pc[t].goal.Looping? :: !ready)
  }

  ghost predicate Inv(s: State, v: View) {
    && s.next.Keys == s.pc.Keys
    && WellFormed(s.lock)
    && Distinct(v.walk + v.stack)
    && PlacesAgree(s.pc, s.lock, v.walk + v.stack)
    && ChainsAgree(s, v)
    && WakeupsPending(s.ready, s.pc, s.lock.owner, v.stack)
    && s.begun == s.resumed + |v.stack| + |v.walk|
  }

  function NextView(s: State, v: View, e: Event): View
    requires Enabled(s, e)
  {
    if !e.Step? then v
    else match s.pc[e.t]
      case PushCas(_) => if s.head == LinkOf(s, e.t) then v.(stack := [e.t] + v.stack) else v
      case NotifyCas(all, _, seen) =>
        if s.head != Some(seen) || v.stack == [] then v
        else if all then View([], v.stack)
        else View(v.stack[1..], v.stack[..1])
      case NotifyWalk(_, _, _) => if v.walk == [] then v else v.(walk := v.walk[1..])
      case _ => v
  }

  // ---------- each kind of step keeps the invariant ----------

  lemma LockCalled(s: State, v: View, t: Tid)
    requires Inv(s, v) && t in s.pc && s.pc[t].Idle?
    ensures Inv(s.(pc := s.pc[t := Locking(Enter)]), v)
  {
  }

  lemma Acquires(s: State, v: View, t: Tid)
    requires Inv(s, v) && t in s.pc && s.pc[t].Locking? && s.lock.owner.None?
    ensures Inv(s.(lock := s.lock.(owner := Some(t)), pc := s.pc[t := Arrive(s.pc[t].goal)]), v)
  {
  }

  lemma QueuesUp(s: State, v: View, t: Tid)
    requires Inv(s, v) && t in s.pc && s.pc[t].Locking? && s.lock.owner.Some?
    ensures FifoLock.Enabled(s.lock, Enqueue(t))
    ensures Inv(s.(lock := s.lock.(queue := s.lock.queue + [t]), pc := s.pc[t := Queued(s.pc[t].goal)]), v)
  {
    ApplyKeepsWellFormed(s.lock, Enqueue(t));
  }

  lemma ConditionChanges(s: State, v: View, t: Tid, value: bool)
    requires Inv(s, v) && t in s.pc && s.pc[t].Critical?
    ensures Inv(s.(ready := value, pc := s.pc[t := Critical(s.pc[t].dirty || value)]), v)
  {
  }

  /** The waiter writes its own link, which is in no chain yet. */
  lemma LinkStored(s: State, v: View, t: Tid)
    requires Inv(s, v) && t in s.pc && (s.pc[t].PushLoad? || s.pc[t].PushCas?)
    ensures Inv(s.(next := s.next[t := s.head], pc := s.pc[t := PushCas(s.pc[t].goal)]), v)
  {
    ChainFrame(s.next, s.head, v.stack, t, s.head);
  }

  lemma PushedPlaces(pc: map<Tid, Pc>, lock: Lock, stack: seq<Tid>, t: Tid)
    requires PlacesAgree(pc, lock, stack) && Distinct(stack) && t in pc && pc[t].PushCas?
    ensures PlacesAgree(pc[t := Releasing(pc[t].goal)], lock, [t] + stack)
    ensures Distinct([t] + stack) && lock.owner == Some(t)
  {
  }

  lemma PushedWakeups(ready: bool, pc: map<Tid, Pc>, lock: Lock, stack: seq<Tid>, t: Tid)
    requires PlacesAgree(pc, lock, stack) && t in pc && pc[t].PushCas?
    requires WakeupsPending(ready, pc, lock.owner, stack)
    ensures WakeupsPending(ready, pc[t := Releasing(pc[t].goal)], lock.owner, [t] + stack)
  {
  }

  lemma NobodyWalks(s: State, v: View, t: Tid)
    requires Inv(s, v) && t in s.pc && Holds(s.pc[t])
    requires !s.pc[t].NotifyCut? && !s.pc[t].NotifyWalk? && !s.pc[t].NotifyStep?
    ensures s.lock.owner == Some(t) && v.walk == [] && v.walk + v.stack == v.stack
  {
  }

  lemma OwnerIs(s: State, v: View, t: Tid)
    requires Inv(s, v) && t in s.pc && Holds(s.pc[t])
    ensures s.lock.owner == Some(t)
  {
  }

  lemma InWaiting(s: State, v: View, c: Tid)
    requires Inv(s, v) && c in v.walk
    ensures c in s.pc
  {
    assert c in v.walk + v.stack;
  }

  lemma OwnerMovesPlaces(pc: map<Tid, Pc>, lock: Lock, waiting: seq<Tid>, t: Tid, p: Pc)
    requires PlacesAgree(pc, lock, waiting) && t in pc && Holds(pc[t]) && Holds(p) && !Waits(pc[t]) && !Waits(p)
    ensures PlacesAgree(pc[t := p], lock, waiting)
  {
  }

  lemma TakenWakeups(ready: bool, pc: map<Tid, Pc>, owner: Option<Tid>, stack: seq<Tid>, t: Tid, p: Pc)
    requires WakeupsPending(ready, pc, owner, stack) && stack != [] && owner == Some(t) && t in pc
    requires Dirty(pc[t]) == Dirty(p) && GoalOf(p) == Enter && !p.PushLoad? && !p.PushCas? && !p.Releasing?
    ensures WakeupsPending(ready, pc[t := p], owner, stack[1..])
  {
  }

  lemma PushedChain(next: map<Tid, Option<Tid>>, head: Option<Tid>, stack: seq<Tid>, t: Tid)
    requires Chain(next, head, stack) && t in next && next[t] == head
    ensures Chain(next, Some(t), [t] + stack)
  {
    assert ([t] + stack)[1..] == stack;
  }

  lemma Pushed(s: State, v: View, t: Tid)
    requires Inv(s, v) && t in s.pc && s.pc[t].PushCas? && s.head == s.next[t]
    ensures Inv(s.(head := Some(t), begun := s.begun + 1, pc := s.pc[t := Releasing(s.pc[t].goal)]),
              v.(stack := [t] + v.stack))
  {
    hide PlacesAgree; hide WakeupsPending; hide Distinct; hide Chain;
    NobodyWalks(s, v, t);
    PushedChain(s.next, s.head, v.stack, t);
    PushedPlaces(s.pc, s.lock, v.stack, t);
    PushedWakeups(s.ready, s.pc, s.lock, v.stack, t);
    assert v.walk + ([t] + v.stack) == [t] + v.stack;
  }

  lemma HandedPlaces(pc: map<Tid, Pc>, w: Tid, rest: seq<Tid>, waiting: seq<Tid>, t: Tid, p: Pc)
    requires PlacesAgree(pc, Lock(Some(t), [w] + rest), waiting) && w !in rest
    requires !Holds(p) && !p.Queued? && Waits(p) == Waits(pc[t])
    ensures w in pc && w != t && pc[w].Queued?
    ensures PlacesAgree(pc[t := p][w := Arrive(GoalOf(pc[w]))], Lock(Some(w), rest), waiting)
  {
    assert w in [w] + rest && forall x | x in rest :: x in [w] + rest;
    assert forall x | x in [w] + rest :: x == w || x in rest;
  }

  lemma ReleasedPlaces(pc: map<Tid, Pc>, lock: Lock, waiting: seq<Tid>, t: Tid, p: Pc)
    requires PlacesAgree(pc, lock, waiting) && WellFormed(lock) && lock.owner == Some(t)
    requires !Holds(p) && !p.Queued? && Waits(p) == Waits(pc[t])
    ensures lock.queue == [] ==> PlacesAgree(pc[t := p], UNLOCKED, waiting)
    ensures lock.queue != [] ==>
              var w := lock.queue[0];
              w in pc && w != t && pc[w].Queued?
              && PlacesAgree(pc[t := p][w := Arrive(GoalOf(pc[w]))], Lock(Some(w), lock.queue[1..]), waiting)
  {
    hide Distinct;
    if lock.queue != [] {
      assert lock == Lock(Some(t), [lock.queue[0]] + lock.queue[1..]);
      DistinctTail(lock.queue[0], lock.queue[1..]);
      HandedPlaces(pc, lock.queue[0], lock.queue[1..], waiting, t, p);
    }
  }

  lemma ReleasedWakeups(ready: bool, pc: map<Tid, Pc>, lock: Lock, stack: seq<Tid>, t: Tid, p: Pc)
    requires PlacesAgree(pc, lock, stack) && t in pc && lock.owner == Some(t) && !Dirty(pc[t])
    requires WakeupsPending(ready, pc, lock.owner, stack)
    requires p == Idle || (pc[t].Releasing? && p == Parked(pc[t].goal))
    ensures WakeupsPending(ready, pc[t := p], None, stack)
    ensures lock.queue != [] ==>
              var w := lock.queue[0];
              w in pc && WakeupsPending(ready, pc[t := p][w := Arrive(GoalOf(pc[w]))], Some(w), stack)
  {
    assert lock.queue != [] ==> pc[lock.queue[0]].Queued?;
  }

  lemma Releases(s: State, v: View, t: Tid, p: Pc)
    requires Inv(s, v) && t in s.pc
    requires (s.pc[t] == Critical(false) && p == Idle) || (s.pc[t].Releasing? && p == Parked(s.pc[t].goal))
    ensures FifoLock.Enabled(s.lock, Release(t))
    ensures Inv(Released(s, t, p), v)
  {
    hide Distinct; hide Chain; hide PlacesAgree; hide WakeupsPending;
    NobodyWalks(s, v, t);
    ReleasedPlaces(s.pc, s.lock, v.stack, t, p);
    ReleasedWakeups(s.ready, s.pc, s.lock, v.stack, t, p);
    ApplyKeepsWellFormed(s.lock, Release(t));
  }

  lemma TakesAll(s: State, v: View, t: Tid)
    requires Inv(s, v) && t in s.pc && s.pc[t].NotifyCas? && s.pc[t].all && s.head == Some(s.pc[t].seen)
    ensures v.stack != []
    ensures Inv(s.(head := None, pc := s.pc[t := NotifyWalk(true, s.pc[t].dirty, s.pc[t].seen)]), View([], v.stack))
  {
    hide Distinct; hide PlacesAgree;
    NobodyWalks(s, v, t);
    OwnerMovesPlaces(s.pc, s.lock, v.stack, t, NotifyWalk(true, s.pc[t].dirty, s.pc[t].seen));
    assert v.stack + [] == v.stack;
  }

  lemma TakesOne(s: State, v: View, t: Tid)
    requires Inv(s, v) && t in s.pc && s.pc[t].NotifyCas? && !s.pc[t].all && s.head == Some(s.pc[t].seen)
    ensures v.stack != [] && s.pc[t].seen in s.next
    ensures Inv(s.(head := s.next[s.pc[t].seen], pc := s.pc[t := NotifyCut(s.pc[t].dirty, s.pc[t].seen)]),
                View(v.stack[1..], v.stack[..1]))
  {
    hide Distinct; hide PlacesAgree; hide WakeupsPending;
    NobodyWalks(s, v, t);
    OwnerMovesPlaces(s.pc, s.lock, v.stack, t, NotifyCut(s.pc[t].dirty, s.pc[t].seen));
    TakenWakeups(s.ready, s.pc, s.lock.owner, v.stack, t, NotifyCut(s.pc[t].dirty, s.pc[t].seen));
    assert v.stack[..1] + v.stack[1..] == v.stack;
  }

  lemma CutsOff(s: State, v: View, t: Tid)
    requires Inv(s, v) && t in s.pc && s.pc[t].NotifyCut?
    ensures Inv(s.(next := s.next[s.pc[t].seen := None],
                   pc := s.pc[t := NotifyWalk(false, s.pc[t].dirty, s.pc[t].seen)]), v)
  {
    hide PlacesAgree; hide Distinct;
    OwnerIs(s, v, t);
    var NotifyCut(dirty, c) := s.pc[t];
    DistinctTail(c, v.stack);
    InWaiting(s, v, c);
    ChainFrame(s.next, s.head, v.stack, c, None);
    OwnerMovesPlaces(s.pc, s.lock, v.walk + v.stack, t, NotifyWalk(false, dirty, c));
    var s' := s.(next := s.next[c := None], pc := s.pc[t := NotifyWalk(false, dirty, c)]);
    assert Chain(s'.next, Some(c), v.walk) by { assert v.walk[1..] == []; }
    assert ChainsAgree(s', v);
  }

  lemma ResumedPlaces(pc: map<Tid, Pc>, lock: Lock, waiting: seq<Tid>, t: Tid, c: Tid, p: Pc)
    requires PlacesAgree(pc, lock, [c] + waiting) && c !in waiting && lock.owner == Some(t)
    requires !Waits(pc[t]) && Holds(p) && !Waits(p) && !p.Queued?
    ensures c in pc && c != t && pc[c].Parked?
    ensures PlacesAgree(pc[c := Locking(GoalOf(pc[c]))][t := p], lock, waiting)
  {
    assert c in [c] + waiting;
    assert forall x | x != c :: x in waiting <==> x in [c] + waiting;
  }

  lemma ResumedWakeups(ready: bool, pc: map<Tid, Pc>, stack: seq<Tid>, t: Tid, c: Tid, p: Pc)
    requires WakeupsPending(ready, pc, Some(t), stack) && t in pc && pc[t].NotifyWalk? && c in pc && c != t
    requires p.NotifyStep? && p.dirty == pc[t].dirty && c !in stack
    ensures WakeupsPending(ready, pc[c := Locking(GoalOf(pc[c]))][t := p], Some(t), stack)
  {
  }

  lemma Resumes(s: State, v: View, t: Tid)
    requires Inv(s, v) && t in s.pc && s.pc[t].NotifyWalk?
    ensures v.walk != [] && v.walk[0] == s.pc[t].curr && s.pc[t].curr in s.pc && s.pc[s.pc[t].curr].Parked?
    ensures Inv(s.(resumed := s.resumed + 1,
                   pc := s.pc[s.pc[t].curr := Locking(GoalOf(s.pc[s.pc[t].curr]))]
                             [t := NotifyStep(s.pc[t].all, s.pc[t].dirty, s.pc[t].curr)]),
                v.(walk := v.walk[1..]))
  {
    hide PlacesAgree; hide Distinct;
    OwnerIs(s, v, t);
    var NotifyWalk(all, dirty, c) := s.pc[t];
    var rest := v.walk[1..] + v.stack;
    assert v.walk + v.stack == [c] + rest;
    DistinctTail(c, rest);
    ResumedPlaces(s.pc, s.lock, rest, t, c, NotifyStep(all, dirty, c));
    ResumedWakeups(s.ready, s.pc, v.stack, t, c, NotifyStep(all, dirty, c));
  }

  // ---------- every step, every run ----------

  ghost predicate Keeps(s: State, v: View, e: Event)
    requires Enabled(s, e)
  {
    Inv(Next(s, e), NextView(s, v, e))
  }

  lemma CallKeeps(s: State, v: View, e: Event)
    requires Inv(s, v) && Enabled(s, e) && !e.Step?
    ensures Keeps(s, v, e)
  {
    hide Inv;
    match e
    case CallLock(t) => LockCalled(s, v, t);
    case CallUnlock(t) => Releases(s, v, t, Idle);
    case SetReady(t, value) => ConditionChanges(s, v, t, value);
    case CallWait(t) => UserMoves(s, v, t, PushLoad(Plain));
    case CallWaitFor(t) => UserMoves(s, v, t, Testing(s.pc[t].dirty));
    case CallNotify(t, all) => UserMoves(s, v, t, NotifyLoad(all, s.pc[t].dirty));
    case SpuriousFailure(t) =>
      if s.pc[t].PushCas? {
        assert s.pc[t := s.pc[t]] == s.pc;
        LinkStored(s, v, t);
      } else {
        NotifyLooks(s, v, t, s.pc[t].all, s.pc[t].dirty);
      }
  }

  lemma UserMoves(s: State, v: View, t: Tid, p: Pc)
    requires Inv(s, v) && t in s.pc && s.pc[t].Critical?
    requires p == Testing(s.pc[t].dirty)
             || (p.NotifyLoad? && p.dirty == s.pc[t].dirty)
             || (p == PushLoad(Plain) && !s.pc[t].dirty)
    ensures Inv(s.(pc := s.pc[t := p]), v)
  {
    hide Distinct; hide Chain; hide PlacesAgree;
    NobodyWalks(s, v, t);
    OwnerMovesPlaces(s.pc, s.lock, v.stack, t, p);
  }

  lemma HeadMeaning(s: State, v: View)
    requires Inv(s, v)
    ensures s.head.None? <==> v.stack == []
  {
  }

  /** `Notify` reads `head`; with an empty stack it is done, and `NotifyAll` has then notified everybody. */
  lemma NotifyLooks(s: State, v: View, t: Tid, all: bool, dirty: bool)
    requires Inv(s, v) && t in s.pc
    requires s.pc[t] == NotifyLoad(all, dirty) || (s.pc[t].NotifyCas? && s.pc[t].all == all && s.pc[t].dirty == dirty)
    ensures Inv(s.(pc := s.pc[t := NotifySees(s, all, dirty)]), v)
  {
    hide Distinct; hide PlacesAgree; hide Chain;
    NobodyWalks(s, v, t);
    HeadMeaning(s, v);
    OwnerMovesPlaces(s.pc, s.lock, v.stack, t, NotifySees(s, all, dirty));
  }

  lemma Tests(s: State, v: View, t: Tid)
    requires Inv(s, v) && t in s.pc && s.pc[t].Testing?
    ensures Inv(s.(pc := s.pc[t := if s.ready then Critical(s.pc[t].dirty) else PushLoad(Looping)]), v)
  {
    hide Distinct; hide Chain; hide PlacesAgree;
    NobodyWalks(s, v, t);
    OwnerMovesPlaces(s.pc, s.lock, v.stack, t, if s.ready then Critical(s.pc[t].dirty) else PushLoad(Looping));
  }

  lemma WalksOn(s: State, v: View, t: Tid, p: Pc)
    requires Inv(s, v) && t in s.pc && s.pc[t].NotifyStep?
    requires p == if LinkOf(s, s.pc[t].curr).Some?
                  then NotifyWalk(s.pc[t].all, s.pc[t].dirty, LinkOf(s, s.pc[t].curr).value)
                  else Critical(s.pc[t].dirty && !s.pc[t].all)
    ensures Inv(s.(pc := s.pc[t := p]), v)
  {
    hide Distinct; hide PlacesAgree;
    OwnerIs(s, v, t);
    OwnerMovesPlaces(s.pc, s.lock, v.walk + v.stack, t, p);
  }

  lemma OwnStepKeeps(s: State, v: View, e: Event)
    requires Inv(s, v) && Enabled(s, e) && e.Step?
    ensures Keeps(s, v, e)
  {
    hide Inv;
    var t := e.t;
    match s.pc[t]
    case Locking(goal) => if s.lock.owner.None? { Acquires(s, v, t); } else { QueuesUp(s, v, t); }
    case Testing(_) => Tests(s, v, t);
    case PushLoad(_) => LinkStored(s, v, t);
    case PushCas(_) =>
      KeysAgree(s, v);
      assert s.pc[t := s.pc[t]] == s.pc;
      if s.head == s.next[t] { Pushed(s, v, t); } else { LinkStored(s, v, t); }
    case Releasing(goal) => Releases(s, v, t, Parked(goal));
    case NotifyLoad(all, dirty) => NotifyLooks(s, v, t, all, dirty);
    case NotifyCas(all, dirty, seen) =>
      if s.head != Some(seen) { NotifyLooks(s, v, t, all, dirty); }
      else if all { TakesAll(s, v, t); }
      else { TakesOne(s, v, t); }
    case NotifyCut(_, _) => CutsOff(s, v, t);
    case NotifyWalk(_, _, _) => Resumes(s, v, t);
    case NotifyStep(_, _, _) => WalksOn(s, v, t, NextOf(s, t).pc[t]);
  }

  /** Every call, step and spurious failure of every coroutine keeps the invariant. */
  lemma StepKeeps(s: State, v: View, e: Event)
    requires Inv(s, v) && Enabled(s, e)
    ensures Inv(Next(s, e), NextView(s, v, e))
  {
    hide Inv;
    if e.Step? {
      OwnStepKeeps(s, v, e);
    } else {
      CallKeeps(s, v, e);
    }
  }

  lemma KeysAgree(s: State, v: View)
    requires Inv(s, v)
    ensures s.next.Keys == s.pc.Keys
  {
  }

  ghost predicate Initial(s: State) {
    && s.next.Keys == s.pc.Keys
    && s.lock == UNLOCKED
    && s.head == None
    && s.begun == s.resumed == 0
    && forall t | t in s.pc :: s.pc[t] == Idle
  }

  predicate ValidRun(s: State, es: seq<Event>)
    decreases |es|
  {
    es == [] || (Enabled(s, es[0]) && ValidRun(Next(s, es[0]), es[1..]))
  }

  function End(s: State, es: seq<Event>): State
    requires ValidRun(s, es)
    decreases |es|
  {
    if es == [] then s else End(Next(s, es[0]), es[1..])
  }

  lemma {:induction false} RunKeeps(s: State, v: View, es: seq<Event>) returns (v': View)
    requires Inv(s, v) && ValidRun(s, es)
    ensures Inv(End(s, es), v')
    decreases |es|
  {
    hide Inv; hide Next; hide Enabled; hide NextView;
    v' := v;
    if es != [] {
      StepKeeps(s, v, es[0]);
      v' := RunKeeps(Next(s, es[0]), NextView(s, v, es[0]), es[1..]);
    }
  }

  function WaitingSet(s: State): set<Tid> {
    set t | t in s.pc && Waits(s.pc[t])
  }

  /** Still to wake somebody before the mutex can be given up. */
  predicate OwesWakeup(p: Pc) {
    Dirty(p) || p.NotifyCut? || p.NotifyWalk? || p.NotifyStep?
  }

  const NOBODY := View([], [])

  lemma InitialInv(s: State)
    requires Initial(s)
    ensures Inv(s, NOBODY)
  {
  }

  /** No lost wakeup: while somebody is suspended in `Wait(lock, func)` although the condition holds, the
      mutex is not free, and its owner is resuming waiters or has not yet called the `NotifyAll` it owes. */
  lemma NoLostWakeup(s: State, es: seq<Event>, t: Tid)
    requires Initial(s) && ValidRun(s, es)
    requires t in End(s, es).pc && End(s, es).pc[t] == Parked(Looping) && End(s, es).ready
    ensures exists o :: o in End(s, es).pc && End(s, es).lock.owner == Some(o) && OwesWakeup(End(s, es).pc[o])
  {
    InitialInv(s);
    var v' := RunKeeps(s, NOBODY, es);
    var s' := End(s, es);
    assert t in v'.walk + v'.stack;
    assert s'.lock.owner.Some? && s'.lock.owner.value in s'.pc && OwesWakeup(s'.pc[s'.lock.owner.value]);
  }

  // ---------- what a call of Wait(lock, func) comes to ----------

  /** A step of `Notify` in which this coroutine is resumed. */
  predicate Wakes(s: State, e: Event, t: Tid) {
    e.Step? && e.t in s.pc && s.pc[e.t].NotifyWalk? && s.pc[e.t].curr == t
  }

  lemma HandoverTouches(s: State, v: View, o: Tid, p: Pc, t: Tid)
    requires Inv(s, v) && t in s.pc && o in s.pc && o != t && s.lock.owner == Some(o)
    ensures t in Released(s, o, p).pc
    ensures var p' := Released(s, o, p).pc[t];
            p' == s.pc[t] || (s.pc[t].Queued? && p' == Arrive(s.pc[t].goal))
  {
    if s.lock.queue != [] {
      ElementIn(s.lock.queue, 0);
    }
  }

  /** Others let a coroutine be, but for giving it the mutex it has queued for, or resuming it. */
  lemma OthersTouch(s: State, v: View, t: Tid, e: Event)
    requires Inv(s, v) && Enabled(s, e) && e.t != t && t in s.pc
    ensures t in Next(s, e).pc
    ensures var p, p' := s.pc[t], Next(s, e).pc[t];
            if Wakes(s, e, t) then p.Parked? && p' == Locking(p.goal)
            else p' == p || (p.Queued? && p' == Arrive(p.goal))
  {
    hide Inv; hide Released;
    if e.CallUnlock? || (e.Step? && s.pc[e.t].Releasing?) {
      OwnerIs(s, v, e.t);
      HandoverTouches(s, v, e.t, if e.CallUnlock? then Idle else Parked(s.pc[e.t].goal), t);
    } else if e.Step? && s.pc[e.t].NotifyWalk? {
      Resumes(s, v, e.t);
    }
  }

  /** Within `Wait(lock, func)`. */
  predicate InWaitFor(p: Pc) {
    p.Testing?
    || ((p.PushLoad? || p.PushCas? || p.Releasing? || p.Parked? || p.Locking? || p.Queued?) && p.goal.Looping?)
  }

  lemma WaitForGoesOn(s: State, v: View, t: Tid, e: Event)
    requires Inv(s, v) && Enabled(s, e) && t in s.pc && InWaitFor(s.pc[t])
    ensures t in Next(s, e).pc
    ensures InWaitFor(Next(s, e).pc[t]) || (Next(s, e).pc[t].Critical? && Next(s, e).ready)
  {
    hide Inv;
    if e.t != t {
      OthersTouch(s, v, t, e);
    } else if e.Step? && s.pc[t].Releasing? {
      OwnerIs(s, v, t);
      HandsOver(s, v, t, Parked(Looping));
    }
  }

  lemma HandsOver(s: State, v: View, t: Tid, p: Pc)
    requires Inv(s, v) && t in s.pc && s.lock.owner == Some(t) && !s.pc[t].Queued?
    ensures t in Released(s, t, p).pc && Released(s, t, p).pc[t] == p
  {
    if s.lock.queue != [] {
      ElementIn(s.lock.queue, 0);
    }
  }

  /** Not in its critical section, in any state of the run but the last. */
  predicate AwayUntilEnd(s: State, es: seq<Event>, t: Tid)
    requires ValidRun(s, es)
    decreases |es|
  {
    es == [] || (t in s.pc && !s.pc[t].Critical? && AwayUntilEnd(Next(s, es[0]), es[1..], t))
  }

  lemma {:induction false} WaitForRun(s: State, v: View, es: seq<Event>, t: Tid)
    requires Inv(s, v) && ValidRun(s, es) && AwayUntilEnd(s, es, t)
    requires t in s.pc && (InWaitFor(s.pc[t]) || (s.pc[t].Critical? && s.ready))
    ensures t in End(s, es).pc
    ensures var s' := End(s, es); InWaitFor(s'.pc[t]) || (s'.lock.owner == Some(t) && s'.pc[t].Critical? && s'.ready)
    decreases |es|
  {
    hide Inv; hide Next; hide Enabled; hide NextView; hide InWaitFor;
    if es != [] {
      StepKeeps(s, v, es[0]);
      WaitForGoesOn(s, v, t, es[0]);
      WaitForRun(Next(s, es[0]), NextView(s, v, es[0]), es[1..], t);
    } else if s.pc[t].Critical? {
      OwnerIs(s, v, t);
    }
  }

  /** `Wait(lock, func)` returns only to a coroutine that holds the mutex while the condition is true, however often
      it was suspended and resumed in between. */
  lemma WaitReturnsOnTrue(s: State, before: seq<Event>, t: Tid, es: seq<Event>)
    requires Initial(s) && ValidRun(s, before) && Enabled(End(s, before), CallWaitFor(t))
    requires var called := Next(End(s, before), CallWaitFor(t)); ValidRun(called, es) && AwayUntilEnd(called, es, t)
    ensures var s' := End(Next(End(s, before), CallWaitFor(t)), es);
            t in s'.pc && (s'.pc[t].Critical? ==> s'.lock.owner == Some(t) && s'.ready)
  {
    hide Inv;
    InitialInv(s);
    var v := RunKeeps(s, NOBODY, before);
    var s1, e := End(s, before), CallWaitFor(t);
    StepKeeps(s1, v, e);
    WaitForRun(Next(s1, e), NextView(s1, v, e), es, t);
    assert !InWaitFor(Critical(true)) && !InWaitFor(Critical(false));
  }

  /** Waits begun are waiters resumed plus waiters still suspended (or about to be). */
  lemma WaitsAreConserved(s: State, es: seq<Event>)
    requires Initial(s) && ValidRun(s, es)
    ensures End(s, es).begun == End(s, es).resumed + |WaitingSet(End(s, es))|
  {
    InitialInv(s);
    var v' := RunKeeps(s, NOBODY, es);
    WaitersAreChained(End(s, es), v');
    SizeOfDistinct(v'.walk + v'.stack, WaitingSet(End(s, es)));
  }

  lemma WaitersAreChained(s: State, v: View)
    requires Inv(s, v)
    ensures forall t :: t in v.walk + v.stack <==> t in WaitingSet(s)
  {
  }
}
