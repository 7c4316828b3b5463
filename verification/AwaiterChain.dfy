/** The awaiters that `v2::Mutex` and `ConditionVariable` chain together, as real objects. */
module AwaiterChain {

  class Awaiter {
    var next_: Awaiter?

    constructor ()
      ensures next_ == null
    {
      next_ := null;
    }
  }

  /** Following `next_` from `p` visits exactly `s` and ends in null. */
  ghost predicate Linked(p: Awaiter?, s: seq<Awaiter>)
    reads s
  {
    if s == [] then p == null
    else p == s[0] && s[|s| - 1].next_ == null && forall i | 0 <= i < |s| - 1 :: s[i].next_ == s[i + 1]
  }

  lemma LinkedTail(p: Awaiter?, s: seq<Awaiter>)
    requires Linked(p, s) && p != null
    ensures s != [] && p == s[0] && Linked(s[0].next_, s[1..])
  {
  }
}
