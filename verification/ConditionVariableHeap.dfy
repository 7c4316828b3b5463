/** `ConditionVariable` on real objects, for callers that hold the mutex: nobody else can then touch the
    chain from `awaiter_`, and a resumed waiter blocks on the mutex before its awaiter can be reused. */
module ConditionVariableHeap {
  import opened Sequences
  import opened AwaiterChain

  class ConditionVariable {
    var awaiter_: Awaiter?

    /** The chain from `awaiter_`, newest first. */
    ghost var stack: seq<Awaiter>

    ghost predicate Valid()
      reads this, stack
    {
      Distinct(stack) && Linked(awaiter_, stack)
    }

    constructor ()
      ensures Valid() && stack == []
    {
      awaiter_ := null;
      stack := [];
    }

    /** `Awaiter::await_suspend`; `spurious` bounds how often the weak compare-and-swap fails for no reason. */
    method AwaitSuspend(a: Awaiter, spurious: nat)
      requires Valid() && a !in stack
      modifies this, a
      ensures Valid() && stack == [a] + old(stack)
    {
      assert forall i | 0 <= i < |stack| :: stack[i] in stack;
      a.next_ := awaiter_;
      var failures := spurious;
      while failures > 0
        invariant Valid() && stack == old(stack) && awaiter_ == old(awaiter_) && a.next_ == awaiter_
      {
        a.next_ := awaiter_;
        failures := failures - 1;
      }
      awaiter_ := a;
      stack := [a] + stack;
    }

    /** Resumes the most recent waiter, or all of them, newest first; `resumed` lists the resumptions. */
    method Notify(all: bool, spurious: nat) returns (resumed: seq<Awaiter>)
      requires Valid()
      modifies this, stack
      ensures Valid()
      ensures resumed + stack == old(stack)
      ensures |resumed| == if all then |old(stack)| else if old(stack) == [] then 0 else 1
    {
      resumed := [];
      var head := awaiter_;
      var failures := spurious;
      while failures > 0 && head != null
        invariant head == awaiter_
      {
        head := awaiter_;
        failures := failures - 1;
      }
      if head == null {
        return;
      }
      ghost var taken := if all then stack else stack[..1];
      awaiter_ := if all then null else head.next_;
      stack := if all then [] else stack[1..];
      if !all {
        head.next_ := null;
      }
      var curr: Awaiter? := head;
      while curr != null
        invariant |resumed| <= |taken| && resumed == taken[..|resumed|]
        invariant Valid() && Linked(curr, taken[|resumed|..])
        decreases |taken| - |resumed|
      {
        resumed := resumed + [curr];
        curr := curr.next_;
      }
    }
  }
}
