/** Linked chains of awaiters, as a map from each coroutine to the one its `next_` names. */
module Chains {
  import opened Wrappers

  /** A coroutine has one awaiter, so a coroutine's id also names its awaiter. */
  type Tid = nat

  /** Following `next_` from `p` visits exactly `s`, ending in a null pointer. */
  ghost predicate Chain(next: map<Tid, Option<Tid>>, p: Option<Tid>, s: seq<Tid>)
    decreases |s|
  {
    if s == [] then p.None?
    else p == Some(s[0]) && s[0] in next && Chain(next, next[s[0]], s[1..])
  }

  lemma {:induction false} ChainFrame(next: map<Tid, Option<Tid>>, p: Option<Tid>, s: seq<Tid>, t: Tid, x: Option<Tid>)
    requires Chain(next, p, s) && t !in s
    ensures Chain(next[t := x], p, s)
    decreases |s|
  {
    if s != [] {
      ChainFrame(next, next[s[0]], s[1..], t, x);
    }
  }
}
