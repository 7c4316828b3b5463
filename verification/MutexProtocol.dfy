/** `v2::Mutex` under any interleaving of any number of coroutines: one step per atomic access to `state_`
    or per write to `awaiter_` / `next_`.  Each step is shown to be a step of `FifoLock`. */
module MutexProtocol {
  import opened Wrappers
  import opened Sequences
  import opened Chains
  import opened FifoLock

  /** The values of `state_`: the address of the mutex itself, the null pointer, or a queued awaiter.
      A coroutine has one awaiter, so a coroutine's id names its awaiter. */
  datatype Word = Free | Locked | Queued(top: Tid)

  datatype Pc =
    | Outside
    | TryCas                                  // TryLock
    | ReadyCas                                // Awaiter::await_ready
    | LockLoad                                // LockAndSuspend
    | LockCasFree
    | LockLink(seen: Option<Tid>)
    | LockCasPush(seen: Option<Tid>)
    | Waiting
    | Inside
    | UnlockEntry                             // Unlock
    | UnlockLoad
    | UnlockCas
    | UnlockSwap
    | UnlockReverse(done: Option<Tid>, curr: Tid)
    | UnlockPop(head: Tid)
    | UnlockResume(waiter: Tid)

  /** The mutex, the `next_` field of every awaiter, and the place each coroutine has reached. */
  datatype State = State(
    word: Word,
    fifo: Option<Tid>,
    next: map<Tid, Option<Tid>>,
    pc: map<Tid, Pc>)

  /** What moves: a coroutine starts a call, performs its next step, or sees its weak CAS fail spuriously. */
  datatype Event =
    | CallTryLock(t: Tid)
    | CallLock(t: Tid)
    | CallUnlock(t: Tid)
    | Step(t: Tid)
    | SpuriousFailure(t: Tid)

  predicate Enabled(s: State, e: Event) {
    && e.t in s.pc
    && match e
       case CallTryLock(t) => s.pc[t].Outside?
       case CallLock(t) => s.pc[t].Outside?
       case CallUnlock(t) => s.pc[t].Inside?
       case Step(t) => !s.pc[t].Outside? && !s.pc[t].Inside? && !s.pc[t].Waiting?
       case SpuriousFailure(t) => s.pc[t].LockCasFree? || s.pc[t].LockCasPush? || s.pc[t].UnlockCas?
  }

  function Head(w: Word): Option<Tid> {
    if w.Queued? then Some(w.top) else None
  }

  function WordOf(p: Option<Tid>): Word {
    if p.Some? then Queued(p.value) else Locked
  }

  function Next(s: State, e: Event): State
    requires Enabled(s, e)
  {
    match e
    case CallTryLock(t) => s.(pc := s.pc[t := TryCas])
    case CallLock(t) => s.(pc := s.pc[t := ReadyCas])
    case CallUnlock(t) => s.(pc := s.pc[t := UnlockEntry])
    case SpuriousFailure(t) => s.(pc := s.pc[t := if s.pc[t].UnlockCas? then UnlockLoad else LockLoad])
    case Step(t) => NextOf(s, t)
  }

  function LinkOf(s: State, t: Tid): Option<Tid> {
    if t in s.next then s.next[t] else None
  }

  /** The reversal loop goes on with the node that `c` linked to, or ends. */
  function AfterTurn(link: Option<Tid>, c: Tid): Pc {
    if link.Some? then UnlockReverse(Some(c), link.value) else UnlockPop(c)
  }

  function NextOf(s: State, t: Tid): State
    requires t in s.pc
  {
    match s.pc[t]
    case TryCas =>
      if s.word.Free? then s.(word := Locked, pc := s.pc[t := Inside]) else s.(pc := s.pc[t := Outside])
    case ReadyCas =>
      if s.word.Free? then s.(word := Locked, pc := s.pc[t := Inside]) else s.(pc := s.pc[t := LockLoad])
    case LockLoad =>
      s.(pc := s.pc[t := if s.word.Free? then LockCasFree else LockLink(Head(s.word))])
    case LockCasFree =>
      if s.word.Free? then s.(word := Locked, pc := s.pc[t := Inside]) else s.(pc := s.pc[t := LockLoad])
    case LockLink(seen) =>
      s.(next := s.next[t := seen], pc := s.pc[t := LockCasPush(seen)])
    case LockCasPush(seen) =>
      if s.word == WordOf(seen) then s.(word := Queued(t), pc := s.pc[t := Waiting])
      else s.(pc := s.pc[t := LockLoad])
    case UnlockEntry =>
      if s.fifo.Some? then s.(fifo := LinkOf(s, s.fifo.value), pc := s.pc[t := UnlockResume(s.fifo.value)])
      else s.(pc := s.pc[t := UnlockLoad])
    case UnlockLoad =>
      s.(pc := s.pc[t := if s.word.Locked? then UnlockCas else UnlockSwap])
    case UnlockCas =>
      if s.word.Locked? then s.(word := Free, pc := s.pc[t := Outside]) else s.(pc := s.pc[t := UnlockLoad])
    case UnlockSwap =>
      if s.word.Queued? then
        s.(word := Locked, fifo := Some(s.word.top), pc := s.pc[t := UnlockReverse(None, s.word.top)])
      else s
    case UnlockReverse(done, curr) =>
      s.(next := s.next[curr := done], pc := s.pc[t := AfterTurn(LinkOf(s, curr), curr)])
    case UnlockPop(head) =>
      s.(fifo := LinkOf(s, head), pc := s.pc[t := UnlockResume(head)])
    case UnlockResume(waiter) =>
      s.(pc := s.pc[t := Outside][waiter := Inside])
    case _ => s
  }

  // ---------- the invariant ----------

  /** What the pointers stand for: the owner, the waiter that `Unlock` has taken out of the chain but not
      resumed yet, the part of a taken stack that is still to be reversed, the chain that is already in
      first-in-first-out order, and the chain from `state_` (newest first). */
  datatype View = View(owner: Option<Tid>, hand: seq<Tid>, todo: seq<Tid>, ready: seq<Tid>, stack: seq<Tid>)

  /** The waiters in the order in which they will be served. */
  function Queue(v: View): seq<Tid> {
    v.hand + (Reverse(v.todo) + (v.ready + Reverse(v.stack)))
  }

  function Abstract(v: View): Lock {
    Lock(v.owner, Queue(v))
  }

  predicate Owns(p: Pc) {
    p.Inside? || p.UnlockEntry? || p.UnlockLoad? || p.UnlockCas? || p.UnlockSwap? || p.UnlockReverse?
    || p.UnlockPop? || p.UnlockResume?
  }

  /** What the owner's place in `Unlock` says about the chains that only the owner touches. */
  ghost predicate HolderAgrees(next: map<Tid, Option<Tid>>, fifo: Option<Tid>, v: View, p: Pc) {
    && (!p.UnlockReverse? ==> v.todo == [])
    && (!p.UnlockResume? ==> v.hand == [])
    && match p
       case UnlockReverse(done, curr) =>
         v.todo != [] && Chain(next, done, v.ready) && Chain(next, Some(curr), v.todo)
       case UnlockPop(head) => v.ready != [] && Chain(next, Some(head), v.ready)
       case UnlockResume(waiter) => v.hand == [waiter] && Chain(next, fifo, v.ready)
       case UnlockSwap => v.ready == [] && fifo.None? && v.stack != []
       case UnlockLoad => v.ready == [] && fifo.None?
       case UnlockCas => v.ready == [] && fifo.None?
       case _ => Chain(next, fifo, v.ready)
  }

  ghost predicate PointersAgree(s: State, v: View) {
    && (s.word.Free? <==> v.owner.None?)
    && Chain(s.next, Head(s.word), v.stack)
    && (v.owner.None? ==> v.hand == v.todo == v.ready == [] && s.fifo.None?)
    && (v.owner.Some? ==> v.owner.value in s.pc && HolderAgrees(s.next, s.fifo, v, s.pc[v.owner.value]))
  }

  ghost predicate PlacesAgree(pc: map<Tid, Pc>, owner: Option<Tid>, queue: seq<Tid>) {
    && (forall t | t in pc :: Owns(pc[t]) <==> owner == Some(t))
    && (forall t | t in pc :: pc[t].Waiting? <==> t in queue)
    && (forall t | t in queue :: t in pc)
  }

  ghost predicate Inv(s: State, v: View) {
    && s.next.Keys == s.pc.Keys
    && PointersAgree(s, v)
    && Distinct(Queue(v))
    && PlacesAgree(s.pc, v.owner, Queue(v))
    && (forall t | t in s.pc && s.pc[t].LockCasPush? :: s.next[t] == s.pc[t].seen)
  }

  // ---------- the simulation ----------

  /** The step of the abstract lock that a step of the protocol takes. */
  function OpOf(s: State, e: Event): Op
    requires Enabled(s, e)
  {
    if !e.Step? then Skip
    else match s.pc[e.t]
      case TryCas => if s.word.Free? then Acquire(e.t) else Skip
      case ReadyCas => if s.word.Free? then Acquire(e.t) else Skip
      case LockCasFree => if s.word.Free? then Acquire(e.t) else Skip
      case LockCasPush(seen) => if s.word == WordOf(seen) then Enqueue(e.t) else Skip
      case UnlockCas => if s.word.Locked? then Release(e.t) else Skip
      case UnlockResume(_) => Release(e.t)
      case _ => Skip
  }

  function NextView(s: State, v: View, e: Event): View
    requires Enabled(s, e)
  {
    if !e.Step? then v
    else match s.pc[e.t]
      case LockCasPush(seen) => if s.word == WordOf(seen) then v.(stack := [e.t] + v.stack) else v
      case UnlockEntry => if s.fifo.Some? && v.ready != [] then v.(hand := v.ready[..1], ready := v.ready[1..]) else v
      case UnlockSwap => v.(todo := v.stack, stack := [])
      case UnlockReverse(_, curr) =>
        if v.todo != [] then v.(ready := [curr] + v.ready, todo := v.todo[1..]) else v
      case UnlockPop(_) => if v.ready != [] then v.(hand := v.ready[..1], ready := v.ready[1..]) else v
      case UnlockResume(waiter) => v.(owner := Some(waiter), hand := [])
      case _ =>
        if OpOf(s, e).Acquire? then v.(owner := Some(e.t))
        else if OpOf(s, e).Release? then v.(owner := None)
        else v
  }

  // ---------- what the queue looks like after each change of the chains ----------

  lemma InReverse(s: seq<Tid>, t: Tid)
    requires t in s
    ensures t in Reverse(s)
  {
    var i :| 0 <= i < |s| && s[i] == t;
    assert Reverse(s)[|s| - 1 - i] == t;
  }

  lemma InQueue(v: View, t: Tid)
    requires t in v.todo || t in v.ready || t in v.stack
    ensures t in Queue(v)
  {
    if t in v.todo { InReverse(v.todo, t); }
    if t in v.stack { InReverse(v.stack, t); }
  }

  lemma PushQueue(v: View, t: Tid)
    ensures Queue(v.(stack := [t] + v.stack)) == Queue(v) + [t]
  {
    assert ([t] + v.stack)[1..] == v.stack;
  }

  lemma TakeQueue(v: View)
    requires v.hand == v.todo == [] && v.ready != []
    ensures Queue(v.(hand := v.ready[..1], ready := v.ready[1..])) == Queue(v)
  {
    assert v.ready == v.ready[..1] + v.ready[1..];
  }

  lemma SwapQueue(v: View)
    requires v.todo == v.ready == []
    ensures Queue(v.(todo := v.stack, stack := [])) == Queue(v)
  {
  }

  lemma ReverseQueue(v: View)
    requires v.todo != []
    ensures Queue(v.(ready := [v.todo[0]] + v.ready, todo := v.todo[1..])) == Queue(v)
  {
    var c, a := v.todo[0], Reverse(v.todo[1..]);
    assert Reverse(v.todo) == a + [c];
    assert (a + [c]) + (v.ready + Reverse(v.stack)) == a + (([c] + v.ready) + Reverse(v.stack));
  }

  lemma DistinctMiddle(a: seq<Tid>, c: Tid, b: seq<Tid>)
    requires Distinct(a + ([c] + b))
    ensures c !in a && c !in b
  {
    var q := a + ([c] + b);
    assert q[|a|] == c;
    assert forall i | 0 <= i < |a| :: q[i] == a[i];
    assert forall i | 0 <= i < |b| :: q[|a| + 1 + i] == b[i];
  }

  lemma TopOccursOnce(v: View)
    requires Distinct(Queue(v)) && v.todo != [] && v.hand == []
    ensures v.todo[0] !in v.todo[1..] && v.todo[0] !in v.ready && v.todo[0] !in v.stack
  {
    var c, a, b := v.todo[0], Reverse(v.todo[1..]), v.ready + Reverse(v.stack);
    assert Queue(v) == a + ([c] + b);
    DistinctMiddle(a, c, b);
    if c in v.todo[1..] { InReverse(v.todo[1..], c); }
    if c in v.stack { InReverse(v.stack, c); }
  }

  // ---------- each kind of step keeps the invariant ----------

  lemma MoveKeepsPlaces(pc: map<Tid, Pc>, owner: Option<Tid>, q: seq<Tid>, t: Tid, p: Pc)
    requires PlacesAgree(pc, owner, q) && t in pc
    requires Owns(p) == Owns(pc[t]) && !p.Waiting? && !pc[t].Waiting?
    ensures PlacesAgree(pc[t := p], owner, q)
  {
  }

  /** A step that only moves one coroutine, between places that neither own the lock nor wait for it or
      within `Unlock`, keeps the invariant if the new place agrees with the chains. */
  lemma MoveKeepsInv(s: State, v: View, t: Tid, p: Pc)
    requires Inv(s, v) && t in s.pc
    requires Owns(p) == Owns(s.pc[t]) && !p.Waiting? && !s.pc[t].Waiting?
    requires p.LockCasPush? ==> s.next[t] == p.seen
    requires Owns(p) ==> HolderAgrees(s.next, s.fifo, v, p)
    ensures Inv(s.(pc := s.pc[t := p]), v)
  {
    hide Distinct; hide Queue;
    MoveKeepsPlaces(s.pc, v.owner, Queue(v), t, p);
    assert PointersAgree(s.(pc := s.pc[t := p]), v);
  }

  /** The moves inside `Unlock` that touch no shared variable. */
  lemma UnlockMoveKeepsInv(s: State, v: View, t: Tid, p: Pc)
    requires Inv(s, v) && t in s.pc
    requires match p
             case UnlockEntry => s.pc[t].Inside?
             case UnlockLoad => s.pc[t].UnlockCas? || (s.pc[t].UnlockEntry? && s.fifo.None?)
             case UnlockCas => s.pc[t].UnlockLoad?
             case UnlockSwap => s.pc[t].UnlockLoad? && !s.word.Locked?
             case _ => false
    ensures Inv(s.(pc := s.pc[t := p]), v)
  {
    MoveKeepsInv(s, v, t, p);
  }

  lemma AcquireKeepsInv(s: State, v: View, t: Tid)
    requires Inv(s, v) && t in s.pc && s.word.Free? && !Owns(s.pc[t]) && !s.pc[t].Waiting?
    ensures v.owner.None? && Queue(v.(owner := Some(t))) == Queue(v)
    ensures Inv(s.(word := Locked, pc := s.pc[t := Inside]), v.(owner := Some(t)))
  {
    assert PlacesAgree(s.pc[t := Inside], Some(t), Queue(v));
  }

  /** A coroutine that is not queued writes its own `next_`: no chain is disturbed. */
  lemma StoreKeepsPointers(s: State, v: View, t: Tid, x: Option<Tid>)
    requires PointersAgree(s, v) && t !in Queue(v)
    ensures PointersAgree(s.(next := s.next[t := x]), v)
  {
    assert t !in v.todo && t !in v.ready && t !in v.stack by {
      if t in v.todo || t in v.ready || t in v.stack { InQueue(v, t); }
    }
    ChainFrame(s.next, Head(s.word), v.stack, t, x);
    if v.owner.Some? {
      var p := s.pc[v.owner.value];
      if p.UnlockReverse? {
        ChainFrame(s.next, p.done, v.ready, t, x);
        ChainFrame(s.next, Some(p.curr), v.todo, t, x);
      } else if p.UnlockPop? {
        ChainFrame(s.next, Some(p.head), v.ready, t, x);
      } else if Chain(s.next, s.fifo, v.ready) {
        ChainFrame(s.next, s.fifo, v.ready, t, x);
      }
    }
  }

  lemma LinkKeepsInv(s: State, v: View, t: Tid)
    requires Inv(s, v) && t in s.pc && s.pc[t].LockLink?
    ensures Inv(s.(next := s.next[t := s.pc[t].seen], pc := s.pc[t := LockCasPush(s.pc[t].seen)]), v)
  {
    var seen := s.pc[t].seen;
    var s1 := s.(next := s.next[t := seen]);
    StoreKeepsPointers(s, v, t, seen);
    assert Inv(s1, v);
    MoveKeepsInv(s1, v, t, LockCasPush(seen));
  }

  lemma PushKeepsPlaces(pc: map<Tid, Pc>, owner: Option<Tid>, q: seq<Tid>, t: Tid)
    requires PlacesAgree(pc, owner, q) && t in pc && pc[t].LockCasPush?
    ensures PlacesAgree(pc[t := Waiting], owner, q + [t])
  {
  }

  lemma PushKeepsDistinct(q: seq<Tid>, t: Tid)
    requires Distinct(q) && t !in q
    ensures Distinct(q + [t])
  {
  }

  lemma PushKeepsInv(s: State, v: View, t: Tid)
    requires Inv(s, v) && t in s.pc && s.pc[t].LockCasPush? && s.word == WordOf(s.pc[t].seen)
    ensures Inv(s.(word := Queued(t), pc := s.pc[t := Waiting]), v.(stack := [t] + v.stack))
    ensures v.owner.Some? && v.owner.value != t && t !in Queue(v)
  {
    hide Distinct; hide Queue;
    PushQueue(v, t);
    PushKeepsPlaces(s.pc, v.owner, Queue(v), t);
    PushKeepsDistinct(Queue(v), t);
    assert PointersAgree(s.(word := Queued(t), pc := s.pc[t := Waiting]), v.(stack := [t] + v.stack)) by {
      assert ([t] + v.stack)[1..] == v.stack;
    }
  }

  lemma FreeKeepsInv(s: State, v: View, t: Tid)
    requires Inv(s, v) && t in s.pc && s.pc[t].UnlockCas? && s.word.Locked?
    ensures v.owner == Some(t) && Queue(v) == []
    ensures Inv(s.(word := Free, pc := s.pc[t := Outside]), v.(owner := None))
  {
    assert v.stack == [];
  }

  lemma TakeKeepsPointers(s: State, v: View, t: Tid, h: Tid)
    requires PointersAgree(s, v) && v.owner == Some(t)
    requires (s.pc[t].UnlockEntry? && s.fifo == Some(h)) || s.pc[t] == UnlockPop(h)
    ensures h in s.next && v.ready != []
    ensures PointersAgree(s.(fifo := s.next[h], pc := s.pc[t := UnlockResume(h)]),
                          v.(hand := v.ready[..1], ready := v.ready[1..]))
  {
    assert v.ready[0] == h;
  }

  /** `awaiter_` moves on to the second waiter and the first one is taken in hand. */
  lemma TakeKeepsInv(s: State, v: View, t: Tid, h: Tid)
    requires Inv(s, v) && t in s.pc
    requires (s.pc[t].UnlockEntry? && s.fifo == Some(h)) || s.pc[t] == UnlockPop(h)
    ensures h in s.next && v.ready != [] && v.hand == v.todo == []
    ensures Inv(s.(fifo := s.next[h], pc := s.pc[t := UnlockResume(h)]),
              v.(hand := v.ready[..1], ready := v.ready[1..]))
  {
    TakeKeepsPointers(s, v, t, h);
    TakeQueue(v);
    MoveKeepsPlaces(s.pc, v.owner, Queue(v), t, UnlockResume(h));
  }

  lemma SwapKeepsInv(s: State, v: View, t: Tid)
    requires Inv(s, v) && t in s.pc && s.pc[t].UnlockSwap?
    ensures s.word.Queued? && v.todo == v.ready == []
    ensures Inv(s.(word := Locked, fifo := Some(s.word.top), pc := s.pc[t := UnlockReverse(None, s.word.top)]),
                v.(todo := v.stack, stack := []))
  {
    hide Distinct;
    SwapQueue(v);
  }

  lemma ResumeKeepsPlaces(pc: map<Tid, Pc>, q: seq<Tid>, t: Tid, w: Tid)
    requires PlacesAgree(pc, Some(t), [w] + q) && Distinct([w] + q) && t in pc && Owns(pc[t])
    ensures PlacesAgree(pc[t := Outside][w := Inside], Some(w), q)
    ensures w in pc && w != t
  {
    DistinctTail(w, q);
    assert w in [w] + q;
    assert forall x | x != w :: x in q <==> x in [w] + q;
  }

  lemma ResumeKeepsInv(s: State, v: View, t: Tid, w: Tid)
    requires Inv(s, v) && t in s.pc && s.pc[t] == UnlockResume(w)
    ensures v.owner == Some(t) && Queue(v) == [w] + Queue(v.(owner := Some(w), hand := []))
    ensures Inv(s.(pc := s.pc[t := Outside][w := Inside]), v.(owner := Some(w), hand := []))
  {
    hide Chain; hide Distinct;
    var v' := v.(owner := Some(w), hand := []);
    assert Queue(v) == [w] + Queue(v');
    DistinctTail(w, Queue(v'));
    ResumeKeepsPlaces(s.pc, Queue(v'), t, w);
    assert PointersAgree(s.(pc := s.pc[t := Outside][w := Inside]), v');
  }

  lemma ReverseKeepsPointers(s: State, v: View, t: Tid, done: Option<Tid>, c: Tid)
    requires PointersAgree(s, v) && v.owner == Some(t) && s.pc[t] == UnlockReverse(done, c)
    requires Distinct(Queue(v))
    ensures v.todo != [] && v.todo[0] == c && c in s.next
    ensures PointersAgree(s.(next := s.next[c := done], pc := s.pc[t := AfterTurn(s.next[c], c)]),
                          v.(ready := [c] + v.ready, todo := v.todo[1..]))
  {
    TopOccursOnce(v);
    ChainFrame(s.next, s.next[c], v.todo[1..], c, done);
    ChainFrame(s.next, done, v.ready, c, done);
    ChainFrame(s.next, Head(s.word), v.stack, c, done);
    assert ([c] + v.ready)[1..] == v.ready;
  }

  /** One turn of the reversal loop moves the top of the old stack to the front of the new chain. */
  lemma ReverseKeepsInv(s: State, v: View, t: Tid, done: Option<Tid>, c: Tid)
    requires Inv(s, v) && t in s.pc && s.pc[t] == UnlockReverse(done, c)
    ensures v.todo != [] && v.todo[0] == c && c in s.next
    ensures Inv(s.(next := s.next[c := done], pc := s.pc[t := AfterTurn(s.next[c], c)]),
                v.(ready := [c] + v.ready, todo := v.todo[1..]))
  {
    hide Chain; hide Distinct;
    ReverseKeepsPointers(s, v, t, done, c);
    ReverseQueue(v);
    assert c in Queue(v) by { InQueue(v, c); }
    MoveKeepsPlaces(s.pc, v.owner, Queue(v), t, AfterTurn(s.next[c], c));
  }

  // ---------- the simulation ----------

  ghost predicate Simulates(s: State, v: View, e: Event)
    requires Inv(s, v) && Enabled(s, e)
  {
    && Inv(Next(s, e), NextView(s, v, e))
    && FifoLock.Enabled(Abstract(v), OpOf(s, e))
    && Abstract(NextView(s, v, e)) == Apply(Abstract(v), OpOf(s, e))
  }

  lemma CallSimulates(s: State, v: View, e: Event)
    requires Inv(s, v) && Enabled(s, e) && !e.Step?
    ensures Simulates(s, v, e)
  {
    hide HolderAgrees; hide Distinct; hide Inv; hide Queue;
    match e
    case CallTryLock(t) => MoveKeepsInv(s, v, t, TryCas);
    case CallLock(t) => MoveKeepsInv(s, v, t, ReadyCas);
    case CallUnlock(t) => UnlockMoveKeepsInv(s, v, t, UnlockEntry);
    case SpuriousFailure(t) => 
      if s.pc[t].UnlockCas? { UnlockMoveKeepsInv(s, v, t, UnlockLoad); } else { MoveKeepsInv(s, v, t, LockLoad); }
  }

  lemma LockStepSimulates(s: State, v: View, e: Event)
    requires Inv(s, v) && Enabled(s, e) && e.Step? && !Owns(s.pc[e.t])
    ensures Simulates(s, v, e)
  {
    hide PointersAgree; hide Distinct; hide Queue;
    var t := e.t;
    match s.pc[t]
    case TryCas => if s.word.Free? { AcquireKeepsInv(s, v, t); } else { MoveKeepsInv(s, v, t, Outside); }
    case ReadyCas => if s.word.Free? { AcquireKeepsInv(s, v, t); } else { MoveKeepsInv(s, v, t, LockLoad); }
    case LockLoad => MoveKeepsInv(s, v, t, if s.word.Free? then LockCasFree else LockLink(Head(s.word)));
    case LockCasFree => if s.word.Free? { AcquireKeepsInv(s, v, t); } else { MoveKeepsInv(s, v, t, LockLoad); }
    case LockLink(seen) => LinkKeepsInv(s, v, t);
    case LockCasPush(seen) =>
      if s.word == WordOf(seen) { PushKeepsInv(s, v, t); PushQueue(v, t); } else { MoveKeepsInv(s, v, t, LockLoad); }
  }

  lemma UnlockMoveSimulates(s: State, v: View, e: Event)
    requires Inv(s, v) && Enabled(s, e) && e.Step?
    requires s.pc[e.t].UnlockEntry? || s.pc[e.t].UnlockLoad? || s.pc[e.t].UnlockCas?
    ensures Simulates(s, v, e)
  {
    hide HolderAgrees; hide Chain; hide Distinct;
    var t := e.t;
    if s.pc[t].UnlockLoad? {
      UnlockMoveKeepsInv(s, v, t, if s.word.Locked? then UnlockCas else UnlockSwap);
    } else if s.pc[t].UnlockCas? {
      if s.word.Locked? { FreeKeepsInv(s, v, t); } else { UnlockMoveKeepsInv(s, v, t, UnlockLoad); }
    } else if s.fifo.Some? {
      TakeKeepsInv(s, v, t, s.fifo.value);
      TakeQueue(v);
    } else {
      UnlockMoveKeepsInv(s, v, t, UnlockLoad);
    }
  }

  lemma HandoffSimulates(s: State, v: View, e: Event)
    requires Inv(s, v) && Enabled(s, e) && e.Step?
    requires s.pc[e.t].UnlockSwap? || s.pc[e.t].UnlockReverse? || s.pc[e.t].UnlockPop? || s.pc[e.t].UnlockResume?
    ensures Simulates(s, v, e)
  {
    hide HolderAgrees; hide Distinct; hide PointersAgree; hide PlacesAgree; hide Queue;
    var t := e.t;
    if s.pc[t].UnlockSwap? {
      SwapKeepsInv(s, v, t);
      SwapQueue(v);
    } else if s.pc[t].UnlockReverse? {
      ReverseKeepsInv(s, v, t, s.pc[t].done, s.pc[t].curr);
      ReverseQueue(v);
    } else if s.pc[t].UnlockPop? {
      TakeKeepsInv(s, v, t, s.pc[t].head);
      TakeQueue(v);
    } else {
      ResumeKeepsInv(s, v, t, s.pc[t].waiter);
    }
  }

  /** Every atomic step keeps the invariant and is the step `OpOf` of the abstract lock. */
  lemma StepSimulates(s: State, v: View, e: Event)
    requires Inv(s, v) && Enabled(s, e)
    ensures Inv(Next(s, e), NextView(s, v, e))
    ensures FifoLock.Enabled(Abstract(v), OpOf(s, e))
    ensures Abstract(NextView(s, v, e)) == Apply(Abstract(v), OpOf(s, e))
  {
    if !e.Step? {
      CallSimulates(s, v, e);
    } else if s.pc[e.t].UnlockEntry? || s.pc[e.t].UnlockLoad? || s.pc[e.t].UnlockCas? {
      UnlockMoveSimulates(s, v, e);
    } else if Owns(s.pc[e.t]) {
      HandoffSimulates(s, v, e);
    } else {
      LockStepSimulates(s, v, e);
    }
  }

  // ---------- runs ----------

  ghost predicate Initial(s: State) {
    && s.word == Free
    && s.fifo == None
    && s.next.Keys == s.pc.Keys
    && forall t | t in s.pc :: s.pc[t] == Outside
  }

  predicate ValidRun(s: State, es: seq<Event>)
    decreases |es|
  {
    es == [] || (Enabled(s, es[0]) && ValidRun(Next(s, es[0]), es[1..]))
  }

  function End(s: State, es: seq<Event>): State
    requires ValidRun(s, es)
    decreases |es|
  {
    if es == [] then s else End(Next(s, es[0]), es[1..])
  }

  function EndView(s: State, v: View, es: seq<Event>): View
    requires ValidRun(s, es)
    decreases |es|
  {
    if es == [] then v else EndView(Next(s, es[0]), NextView(s, v, es[0]), es[1..])
  }

  function Ops(s: State, es: seq<Event>): seq<Op>
    requires ValidRun(s, es)
    decreases |es|
  {
    if es == [] then [] else [OpOf(s, es[0])] + Ops(Next(s, es[0]), es[1..])
  }

  /** The coroutines whose push CAS succeeded, in order. */
  function Pushed(s: State, es: seq<Event>): seq<Tid>
    requires ValidRun(s, es)
    decreases |es|
  {
    if es == [] then []
    else (if OpOf(s, es[0]).Enqueue? then [es[0].t] else []) + Pushed(Next(s, es[0]), es[1..])
  }

  /** The coroutines whose continuation `Unlock` resumed, in order. */
  function Resumed(s: State, es: seq<Event>): seq<Tid>
    requires ValidRun(s, es)
    decreases |es|
  {
    if es == [] then []
    else (if es[0].Step? && s.pc[es[0].t].UnlockResume? then [s.pc[es[0].t].waiter] else [])
         + Resumed(Next(s, es[0]), es[1..])
  }

  function Waiters(s: State): set<Tid> {
    set t | t in s.pc && s.pc[t].Waiting?
  }

  lemma ReleaseResumes(s: State, v: View, e: Event)
    requires Inv(s, v) && Enabled(s, e)
    ensures OpOf(s, e).Enqueue? ==> OpOf(s, e).t == e.t
    ensures OpOf(s, e).Release? && Queue(v) != [] <==> e.Step? && s.pc[e.t].UnlockResume?
    ensures OpOf(s, e).Release? && Queue(v) != [] ==> s.pc[e.t].waiter == Queue(v)[0]
  {
    hide HolderAgrees; hide Chain; hide Distinct; hide Owns;
    if e.Step? && s.pc[e.t].UnlockCas? && s.word.Locked? { FreeKeepsInv(s, v, e.t); }
    if e.Step? && s.pc[e.t].UnlockResume? { ResumeKeepsInv(s, v, e.t, s.pc[e.t].waiter); }
  }

  /** A whole run of the protocol is a run of the abstract lock with the same pushes and resumptions. */
  lemma {:induction false} RunSimulates(s: State, v: View, es: seq<Event>)
    requires Inv(s, v) && ValidRun(s, es)
    ensures Inv(End(s, es), EndView(s, v, es))
    ensures Legal(Abstract(v), Ops(s, es))
    ensures After(Abstract(v), Ops(s, es)) == Abstract(EndView(s, v, es))
    ensures Enqueued(Ops(s, es)) == Pushed(s, es)
    ensures Granted(Abstract(v), Ops(s, es)) == Resumed(s, es)
    decreases |es|
  {
    hide Inv; hide NextView; hide Next; hide Enabled; hide OpOf; hide FifoLock.Enabled; hide Apply; hide Queue;
    if es != [] {
      StepSimulates(s, v, es[0]);
      ReleaseResumes(s, v, es[0]);
      RunSimulates(Next(s, es[0]), NextView(s, v, es[0]), es[1..]);
    }
  }

  const NOBODY := View(None, [], [], [], [])

  lemma InitialInv(s: State)
    requires Initial(s)
    ensures Inv(s, NOBODY) && Abstract(NOBODY) == UNLOCKED
  {
  }

  /** At most one coroutine is between acquiring and releasing, also across a handoff; `state_` is the
      unlocked value exactly when there is none, and then nobody waits and both chains are empty. */
  lemma MutualExclusion(s: State, es: seq<Event>)
    requires Initial(s) && ValidRun(s, es)
    ensures var s' := End(s, es);
            && (forall t, u | t in s'.pc && u in s'.pc && Owns(s'.pc[t]) && Owns(s'.pc[u]) :: t == u)
            && (s'.word.Free? <==> forall t | t in s'.pc :: !Owns(s'.pc[t]))
            && (s'.word.Free? ==> s'.fifo.None? && Waiters(s') == {})
  {
    InitialInv(s);
    RunSimulates(s, NOBODY, es);
    var s', v' := End(s, es), EndView(s, NOBODY, es);
    ApplyKeepsWellFormed(UNLOCKED, Skip);
    GrantsFollowArrivals(UNLOCKED, Ops(s, es));
    assert WellFormed(Abstract(v'));
  }

  /** No waiter is lost, none is resumed twice, none overtakes: the resumptions so far followed by the
      coroutines that still wait, each once, are exactly the pushes so far. */
  lemma ResumedInPushOrder(s: State, es: seq<Event>) returns (rest: seq<Tid>)
    requires Initial(s) && ValidRun(s, es)
    ensures Resumed(s, es) + rest == Pushed(s, es)
    ensures Distinct(rest)
    ensures forall t :: t in rest <==> t in Waiters(End(s, es))
  {
    InitialInv(s);
    RunSimulates(s, NOBODY, es);
    GrantsFollowArrivals(UNLOCKED, Ops(s, es));
    rest := Queue(EndView(s, NOBODY, es));
  }

  /** The waiter at place k of the queue is still there until k releases have happened; the next one is its own. */
  lemma PlaceAfterRun(s: State, v: View, es: seq<Event>, t: Tid, k: nat, last: Event)
    requires Inv(s, v) && ValidRun(s, es) && Enabled(End(s, es), last)
    requires WellFormed(Abstract(v)) && k < |Queue(v)| && Queue(v)[k] == t
    ensures Releases(Ops(s, es)) <= k ==> t in Waiters(End(s, es))
    ensures Releases(Ops(s, es)) == k && OpOf(End(s, es), last).Release? ==>
              t in End(s, es).pc && Next(End(s, es), last).pc[t].Inside?
  {
    hide PointersAgree; hide NextView; hide Next; hide Distinct; hide Queue;
    RunSimulates(s, v, es);
    var s2, v2 := End(s, es), EndView(s, v, es);
    if Releases(Ops(s, es)) <= k {
      PlaceInQueue(Abstract(v), Ops(s, es), t, k);
      assert t in Queue(v2);
    }
    if Releases(Ops(s, es)) == k && OpOf(s2, last).Release? {
      assert Queue(v2)[0] == t;
      ReleaseResumes(s2, v2, last);
      ResumedIsInside(s2, last);
    }
  }

  lemma ResumedIsInside(s: State, e: Event)
    requires Enabled(s, e) && e.Step? && s.pc[e.t].UnlockResume?
    ensures s.pc[e.t].waiter in Next(s, e).pc && Next(s, e).pc[s.pc[e.t].waiter].Inside?
  {
  }

  /** A coroutine that queues up behind k waiters stays suspended through the next k completed `Unlock`s,
      and the (k+1)-th one gives it the lock, whatever anybody else does in between. */
  lemma ServedAtItsTurn(s0: State, before: seq<Event>, t: Tid, es: seq<Event>, last: Event)
    requires Initial(s0) && ValidRun(s0, before)
    requires Enabled(End(s0, before), Step(t)) && OpOf(End(s0, before), Step(t)).Enqueue?
    requires ValidRun(Next(End(s0, before), Step(t)), es)
    requires Enabled(End(Next(End(s0, before), Step(t)), es), last)
    ensures var s := End(s0, before);
            var s1 := Next(s, Step(t));
            var s2 := End(s1, es);
            && (Releases(Ops(s1, es)) <= |Waiters(s)| ==> t in Waiters(s2))
            && (Releases(Ops(s1, es)) == |Waiters(s)| && OpOf(s2, last).Release? ==>
                  t in s2.pc && Next(s2, last).pc[t].Inside?)
  {
    hide Next; hide NextView; hide PointersAgree; hide Queue;
    InitialInv(s0);
    RunSimulates(s0, NOBODY, before);
    GrantsFollowArrivals(UNLOCKED, Ops(s0, before));
    var s, v := End(s0, before), EndView(s0, NOBODY, before);
    SizeOfDistinct(Queue(v), Waiters(s));
    StepSimulates(s, v, Step(t));
    ReleaseResumes(s, v, Step(t));
    ApplyKeepsWellFormed(Abstract(v), OpOf(s, Step(t)));
    var v1 := NextView(s, v, Step(t));
    assert Queue(v1) == Queue(v) + [t];
    PlaceAfterRun(Next(s, Step(t)), v1, es, t, |Queue(v)|, last);
  }

  /** The awaiter that `Unlock` is about to touch. */
  function Touched(p: Pc): Option<Tid> {
    match p
    case UnlockReverse(_, curr) => Some(curr)
    case UnlockPop(head) => Some(head)
    case UnlockResume(waiter) => Some(waiter)
    case _ => None
  }

  lemma TouchedWaits(s: State, v: View, t: Tid)
    requires Inv(s, v) && t in s.pc && Touched(s.pc[t]).Some?
    ensures Touched(s.pc[t]).value in Waiters(s)
  {
    hide Distinct; hide Queue;
    assert v.owner == Some(t);
    match s.pc[t]
    case UnlockReverse(_, curr) =>
      assert v.todo[0] == curr;
      InQueue(v, curr);
    case UnlockPop(head) =>
      assert v.ready[0] == head;
      InQueue(v, head);
    case UnlockResume(waiter) =>
      InHand(v, waiter);
  }

  lemma InHand(v: View, t: Tid)
    requires t in v.hand
    ensures t in Queue(v)
  {
  }

  /** The assertions inside `Unlock` hold whenever they are reached: the mutex is not free, and the exchange
      returns a queued awaiter.  The awaiters that `Unlock` follows and resumes belong to suspended coroutines. */
  lemma AssertionsHold(s: State, es: seq<Event>, t: Tid)
    requires Initial(s) && ValidRun(s, es) && t in End(s, es).pc
    ensures End(s, es).pc[t].UnlockLoad? ==> !End(s, es).word.Free?
    ensures End(s, es).pc[t].UnlockSwap? ==> End(s, es).word.Queued?
    ensures Touched(End(s, es).pc[t]).Some? ==> Touched(End(s, es).pc[t]).value in Waiters(End(s, es))
  {
    InitialInv(s);
    RunSimulates(s, NOBODY, es);
    var s', v' := End(s, es), EndView(s, NOBODY, es);
    if Touched(s'.pc[t]).Some? {
      TouchedWaits(s', v', t);
    }
    assert Owns(s'.pc[t]) ==> v'.owner == Some(t);
  }
}
