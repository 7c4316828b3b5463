/** `v2::Mutex` on real objects: `state_` holds the mutex itself, null or an `Awaiter`, and the two waiter
    chains run through the `next_` fields that `Unlock` reverses in place.

    Between two accesses to shared memory other coroutines may act: `OthersQueue` stands for whatever they
    can do while the mutex stays locked, `OthersAct` for whatever they can do otherwise. */
module MutexHeap {
  import opened Sequences
  import opened AwaiterChain

  /** The first k nodes of `taken` link backwards, the others still forwards; `next` and `curr` are where
      the two parts begin. */
  ghost predicate HalfReversed(taken: seq<Awaiter>, k: nat, next: Awaiter?, curr: Awaiter?)
    requires k <= |taken|
    reads taken
  {
    && (curr == if k < |taken| then taken[k] else null)
    && (next == if k > 0 then taken[k - 1] else null)
    && (forall i {:trigger taken[i].next_} | 0 <= i < k :: taken[i].next_ == if i > 0 then taken[i - 1] else null)
    && (forall i {:trigger taken[i].next_} | k <= i < |taken| ::
        taken[i].next_ == if i + 1 < |taken| then taken[i + 1] else null)
  }

  lemma NotYetReversed(head: Awaiter, taken: seq<Awaiter>)
    requires Linked(head, taken) && taken != []
    ensures HalfReversed(taken, 0, null, head) && head == taken[0]
  {
  }

  lemma AllReversed(taken: seq<Awaiter>, r: seq<Awaiter>, next: Awaiter?, curr: Awaiter?)
    requires HalfReversed(taken, |taken|, next, curr) && taken != []
    requires |r| == |taken| && forall i | 0 <= i < |r| :: r[i] == taken[|taken| - 1 - i]
    ensures next != null && Linked(next, r)
  {
    var n := |taken|;
    assert r[n - 1] == taken[0] && taken[0].next_ == null;
    forall i | 0 <= i < n - 1 ensures r[i].next_ == r[i + 1] {
      var j := n - 1 - i;
      assert r[i] == taken[j] && r[i + 1] == taken[j - 1];
      assert taken[j].next_ == taken[j - 1];
    }
  }

  datatype Outcome = Acquired | Suspended | Retry

  class Mutex {
    var state_: object?
    var awaiter_: Awaiter?

    /** The chain from `state_`, newest first, and the chain from `awaiter_`, oldest first. */
    ghost var stack: seq<Awaiter>
    ghost var ready: seq<Awaiter>

    ghost predicate Valid()
      reads this, stack, ready
    {
      && SharedValid()
      && Distinct(ready) && (forall a | a in ready :: a !in stack)
      && Linked(awaiter_, ready)
      && (state_ == this ==> ready == [])
    }

    /** The part of the state that others rely on while the owner is busy with `awaiter_`. */
    ghost predicate SharedValid()
      reads this`state_, this`stack, stack
    {
      && Distinct(stack)
      && if state_ == this || state_ == null then stack == []
         else stack != [] && state_ == stack[0] && Linked(stack[0], stack)
    }

    ghost predicate IsLocked()
      reads this
    {
      state_ != this
    }

    /** The waiters in the order in which they will be served. */
    ghost function Queue(): seq<Awaiter>
      reads this
    {
      ready + Reverse(stack)
    }

    ghost function Nodes(): set<Awaiter>
      reads this
    {
      (set a | a in ready) + (set a | a in stack)
    }

    lemma NodesAreQueued()
      ensures Nodes() == set a | a in Queue()
    {
      assert forall i | 0 <= i < |stack| :: stack[i] == Reverse(stack)[|stack| - 1 - i];
    }

    constructor ()
      ensures Valid() && !IsLocked() && Queue() == []
    {
      awaiter_ := null;
      stack, ready := [], [];
      new;
      state_ := this;
    }

    method TryLock() returns (ok: bool)
      requires Valid()
      modifies this`state_
      ensures Valid() && IsLocked() && Queue() == old(Queue())
      ensures ok <==> !old(IsLocked())
    {
      ok := state_ == this;
      if ok {
        state_ := null;
      }
    }

    /** One successful compare-and-swap of an awaiter that already links to the present `state_`. */
    method Push(a: Awaiter)
      requires SharedValid() && IsLocked()
      requires a !in stack
      requires a.next_ == if stack == [] then null else stack[0]
      modifies this`state_, this`stack
      ensures SharedValid() && IsLocked() && stack == [a] + old(stack)
    {
      state_ := a;
      stack := [a] + stack;
    }

    /** Another coroutine runs `LockAndSuspend` to the end while the mutex is locked. */
    method OtherQueues() returns (a: Awaiter)
      requires SharedValid() && IsLocked()
      modifies this`state_, this`stack
      ensures SharedValid() && IsLocked()
      ensures stack == [a] + old(stack) && fresh(a)
    {
      a := new Awaiter();
      if state_ != null {
        a.next_ := state_ as Awaiter;
      }
      Push(a);
    }

    /** While the mutex is locked, all that the others can achieve is to queue up, any number of them. */
    method OthersQueue() returns (ghost late: seq<Awaiter>)
      requires SharedValid() && IsLocked()
      modifies this`state_, this`stack
      ensures SharedValid() && IsLocked()
      ensures stack == late + old(stack) && fresh(late)
    {
      late := [];
      var n: nat := *;
      hide Distinct; hide Linked;
      while n > 0
        invariant SharedValid() && IsLocked()
        invariant stack == late + old(stack) && fresh(late)
      {
        ghost var before := stack;
        var a := OtherQueues();
        assert [a] + (late + old(stack)) == ([a] + late) + old(stack);
        late := [a] + late;
        n := n - 1;
      }
    }

    /** `awaiter_` becomes the rest of a first-in-first-out chain whose first waiter is about to be resumed. */
    method PopFirst(first: Awaiter, ghost chain: seq<Awaiter>)
      requires SharedValid() && IsLocked()
      requires Linked(first, chain) && Distinct(chain) && forall a | a in chain :: a !in stack
      modifies this`awaiter_, this`ready
      ensures Valid() && chain == [first] + ready
    {
      hide Distinct; hide Linked;
      LinkedTail(first, chain);
      assert chain == [first] + chain[1..];
      DistinctTail(first, chain[1..]);
      awaiter_ := first.next_;
      ready := chain[1..];
    }

    /** One turn of the reversal loop: the k-th node of the old stack is linked to the node before it. */
    method TurnLink(curr: Awaiter, next: Awaiter?, ghost taken: seq<Awaiter>, ghost k: nat) returns (nextCurr: Awaiter?)
      requires SharedValid() && Distinct(taken) && forall a | a in taken :: a !in stack
      requires k < |taken| && curr == taken[k] && HalfReversed(taken, k, next, curr)
      modifies curr`next_
      ensures SharedValid() && HalfReversed(taken, k + 1, curr, nextCurr)
      ensures if k + 1 < |taken| then nextCurr == taken[k + 1] else nextCurr == null
    {
      assert curr in taken;
      assert forall i | 0 <= i < |stack| :: stack[i] != curr by {
        assert forall i | 0 <= i < |stack| :: stack[i] in stack;
      }
      assert forall i | 0 <= i < |taken| && i != k :: taken[i] != curr;
      assert taken[k].next_ == if k + 1 < |taken| then taken[k + 1] else null;
      nextCurr := curr.next_;
      curr.next_ := next;
    }

    /** Turns the chain `taken`, newest first, into a first-in-first-out chain, while others queue up. */
    method ReverseInPlace(head: Awaiter, ghost taken: seq<Awaiter>) returns (first: Awaiter, ghost late: seq<Awaiter>)
      requires SharedValid() && IsLocked()
      requires taken != [] && Linked(head, taken) && Distinct(taken) && forall a | a in taken :: a !in stack
      modifies this`state_, this`stack, taken
      ensures SharedValid() && IsLocked()
      ensures stack == late + old(stack) && fresh(late)
      ensures Linked(first, Reverse(taken)) && forall a | a in taken :: a !in stack
    {
      var next: Awaiter? := null;
      var curr: Awaiter? := head;
      ghost var k := 0;
      late := [];
      hide Distinct; hide Linked; hide HalfReversed;
      NotYetReversed(head, taken);
      while curr != null
        invariant 0 <= k <= |taken|
        invariant SharedValid() && IsLocked()
        invariant stack == late + old(stack) && fresh(late)
        invariant forall a | a in taken :: a !in stack
        invariant HalfReversed(taken, k, next, curr)
        invariant curr != null ==> k < |taken| && curr == taken[k]
        invariant curr == null ==> k == |taken|
        decreases |taken| - k
      {
        ghost var more := OthersQueue();
        assert more + (late + old(stack)) == (more + late) + old(stack);
        late := more + late;
        var nextCurr := TurnLink(curr, next, taken, k);
        next := curr;
        curr := nextCurr;
        k := k + 1;
      }
      AllReversed(taken, Reverse(taken), next, curr);
      first := next;
    }
  
    /** `state_.exchange(nullptr)` while somebody is queued. */
    method TakeStack() returns (head: Awaiter, ghost taken: seq<Awaiter>)
      requires SharedValid() && IsLocked() && state_ != null
      modifies this`state_, this`stack
      ensures SharedValid() && IsLocked() && stack == []
      ensures taken == old(stack) && taken != [] && Linked(head, taken) && Distinct(taken)
    {
      head := state_ as Awaiter;
      taken := stack;
      state_ := null;
      stack := [];
    }

    /** The racing part of `Unlock`: either the mutex becomes free, or the owner takes the whole stack.
        `spurious` bounds how often the weak compare-and-swap fails for no reason. */
    method UnlockOrTake(spurious: nat) returns (head: Awaiter?, ghost taken: seq<Awaiter>, ghost late: seq<Awaiter>)
      requires SharedValid() && IsLocked()
      modifies this`state_, this`stack
      ensures SharedValid() && stack == []
      ensures taken == late + old(stack) && fresh(late)
      ensures head == null ==> !IsLocked() && taken == []
      ensures head != null ==> IsLocked() && taken != [] && Linked(head, taken) && Distinct(taken)
    {
      hide Distinct; hide Linked;
      var failures := spurious;
      late := [];
      while true
        invariant SharedValid() && IsLocked()
        invariant stack == late + old(stack) && fresh(late)
        decreases failures, if state_ == null then 1 else 0
      {
        var oldValue := state_;
        ghost var more := OthersQueue();
        assert more + (late + old(stack)) == (more + late) + old(stack);
        late := more + late;
        if oldValue != null {
          head, taken := TakeStack();
          return;
        }
        var fails: bool := *;
        if state_ == null {
          if !fails || failures == 0 {
            taken := [];
            state_ := this;
            return null, taken, late;
          }
          failures := failures - 1;
        }
      }
    }

    /** `Unlock` when the first-in-first-out chain is empty. */
    method UnlockRacing(spurious: nat) returns (woken: Awaiter?, ghost arrivals: seq<Awaiter>)
      requires Valid() && IsLocked() && awaiter_ == null
      modifies this, stack
      ensures Valid() && fresh(arrivals)
      ensures woken == null ==> !IsLocked() && Queue() == [] && old(Queue()) + arrivals == []
      ensures woken != null ==> IsLocked() && [woken] + Queue() == old(Queue()) + arrivals
    {
      hide Distinct; hide Linked; hide SharedValid;
      ReadyIsNotEmpty();
      arrivals := [];
      ghost var taken, late, later;
      var head;
      head, taken, late := UnlockOrTake(spurious);
      if head == null {
        woken := null;
        return;
      }
      awaiter_ := head;
      woken, later := ReverseInPlace(head, taken);
      ReverseKeeps(taken);
      PopFirst(woken, Reverse(taken));
      assert stack == later by { assert later + [] == later; }
      arrivals := Reverse(late) + Reverse(later);
      ReverseConcat(late, old(stack));
      ReverseKeeps(late);
      ReverseKeeps(later);
      assert [woken] + Queue() == Reverse(taken) + Reverse(later);
      assert old(Queue()) == Reverse(old(stack));
    }

    /** Hands the mutex to the oldest waiter, which the caller then resumes, or frees it if nobody waits.
        `arrivals` are the coroutines that queued up while `Unlock` ran, in order. */
    method Unlock(spurious: nat) returns (woken: Awaiter?, ghost arrivals: seq<Awaiter>)
      requires Valid() && IsLocked()
      modifies this, stack, ready
      ensures Valid() && fresh(arrivals)
      ensures woken == null ==> !IsLocked() && Queue() == [] && old(Queue()) + arrivals == []
      ensures woken != null ==> IsLocked() && [woken] + Queue() == old(Queue()) + arrivals
    {
      if awaiter_ != null {
        woken := awaiter_;
        arrivals := [];
        ReadyIsNotEmpty();
        PopFirst(awaiter_, ready);
        assert [woken] + Queue() == old(Queue());
      } else {
        woken, arrivals := UnlockRacing(spurious);
      }
    }

    /** Whatever the other coroutines can do while the caller is inside `LockAndSuspend`. */
    method OthersAct(ghost mine: Awaiter)
      requires Valid() && mine !in Nodes()
      modifies this, Nodes()
      ensures Valid() && mine !in Nodes() && fresh(Nodes() - old(Nodes()))
    {
      var n: nat := *;
      while n > 0
        invariant Valid() && mine !in Nodes() && fresh(Nodes() - old(Nodes()))
        decreases n
      {
        hide Valid;
        OneActs(mine);
        n := n - 1;
      }
    }

    method OneActs(ghost mine: Awaiter)
      requires Valid() && mine !in Nodes()
      modifies this, Nodes()
      ensures Valid() && mine !in Nodes() && fresh(Nodes() - old(Nodes()))
    {
      var queues: bool := *;
      NodesAreQueued();
      if state_ == this {
        var ok := TryLock();
      } else if queues {
        var a := OtherQueues();
        assert Nodes() == old(Nodes()) + {a};
      } else {
        var a, late := Unlock(0);
        NodesAreQueued();
        hide Valid; hide Queue; hide Nodes;
        assert forall x | x in Queue() :: x in old(Queue()) || x in late by {
          assert a != null ==> forall x | x in Queue() :: x in [a] + Queue();
        }
      }
    }

    /** `state_.compare_exchange_weak(seen, a)`, which may fail for no reason if `mayFail`. */
    method CasPush(a: Awaiter, seen: Awaiter?, mayFail: bool) returns (ok: bool)
      requires Valid() && a !in Nodes() && a.next_ == seen
      modifies this`state_, this`stack
      ensures Valid()
      ensures ok ==> old(state_) == seen && IsLocked() && stack == [a] + old(stack) && Queue() == old(Queue()) + [a]
      ensures !ok ==> unchanged(this) && (old(state_) != seen || mayFail)
    {
      var fails: bool := *;
      ok := state_ == seen && !(fails && mayFail);
      if ok {
        Push(a);
        assert ([a] + old(stack))[1..] == old(stack);
      }
    }

    /** One round of the loop in `LockAndSuspend`; only a round with `mayFail` meets rivals or fails. */
    method LockRound(awaiter: Awaiter, mayFail: bool) returns (outcome: Outcome)
      requires Valid() && awaiter !in Nodes()
      modifies this, Nodes(), awaiter
      ensures Valid()
      ensures outcome == Acquired ==> IsLocked() && Queue() == []
      ensures outcome == Suspended ==>
                IsLocked() && stack != [] && stack[0] == awaiter && awaiter !in ready + stack[1..]
      ensures outcome == Retry ==> mayFail && awaiter !in Nodes() && fresh(Nodes() - old(Nodes()))
      ensures !mayFail ==> (outcome == Suspended <==> old(IsLocked()))
      ensures !mayFail ==> Queue() == old(Queue()) + if outcome == Suspended then [awaiter] else []
    {
      outcome := Retry;
      var oldState: object? := state_;
      if mayFail {
        OthersAct(awaiter);
      }
      if oldState == this {
        var fails: bool := *;
        if state_ == oldState && !(fails && mayFail) {
          state_ := null;
          outcome := Acquired;
        }
      } else {
        var seen: Awaiter? := null;
        if oldState != null {
          seen := oldState as Awaiter;
        }
        SetNext(awaiter, seen);
        var pushed := CasPush(awaiter, seen, mayFail);
        if pushed {
          outcome := Suspended;
        }
      }
    }

    /** Suspends the caller behind all present waiters, unless the mutex turns out to be free.
        `rivals` bounds how many rounds of the loop fail, because of others or for no reason. */
    method LockAndSuspend(awaiter: Awaiter, rivals: nat) returns (suspended: bool)
      requires Valid() && awaiter !in Nodes()
      modifies this, Nodes(), awaiter
      ensures Valid() && IsLocked()
      ensures if suspended then stack != [] && stack[0] == awaiter && awaiter !in ready + stack[1..] else Queue() == []
      ensures rivals == 0 ==> suspended == old(IsLocked())
      ensures rivals == 0 ==> Queue() == old(Queue()) + if suspended then [awaiter] else []
    {
      hide Valid;
      var failures := rivals;
      while true
        invariant Valid() && awaiter !in Nodes() && fresh(Nodes() - old(Nodes()))
        invariant rivals == 0 ==> state_ == old(state_) && ready == old(ready) && stack == old(stack)
        decreases failures
      {
        var outcome := LockRound(awaiter, failures > 0);
        if outcome != Retry {
          return outcome == Suspended;
        }
        failures := failures - 1;
      }
    }

    /** A coroutine writes the link of its own awaiter, which is in no chain yet. */
    method SetNext(a: Awaiter, next: Awaiter?)
      requires Valid() && a !in Nodes()
      modifies a`next_
      ensures Valid() && a.next_ == next
    {
      assert forall i | 0 <= i < |stack| :: stack[i] in stack;
      assert forall i | 0 <= i < |ready| :: ready[i] in ready;
      a.next_ := next;
    }

    lemma ReadyIsNotEmpty()
      requires Valid()
      ensures awaiter_ == null <==> ready == []
      ensures awaiter_ != null ==> Linked(awaiter_, ready) && awaiter_ == ready[0]
    {
    }
  }
}
