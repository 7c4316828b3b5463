/** The specification that `v2::Mutex` is proved against: a lock with one owner and a first-in-first-out
    queue of waiters.  Releasing a lock that has waiters hands it straight to the first of them. */
module FifoLock {
  import opened Wrappers
  import opened Sequences
  import opened Chains

  datatype Lock = Lock(owner: Option<Tid>, queue: seq<Tid>)

  const UNLOCKED := Lock(None, [])

  datatype Op =
    | Skip
    | Acquire(t: Tid)
    | Enqueue(t: Tid)
    | Release(t: Tid)

  ghost predicate WellFormed(l: Lock) {
    && Distinct(l.queue)
    && (l.owner.None? ==> l.queue == [])
    && (l.owner.Some? ==> l.owner.value !in l.queue)
  }

  predicate Enabled(l: Lock, op: Op) {
    match op
    case Skip => true
    case Acquire(t) => l.owner.None?
    case Enqueue(t) => l.owner.Some? && l.owner.value != t && t !in l.queue
    case Release(t) => l.owner == Some(t)
  }

  function Apply(l: Lock, op: Op): Lock
    requires Enabled(l, op)
  {
    match op
    case Skip => l
    case Acquire(t) => l.(owner := Some(t))
    case Enqueue(t) => l.(queue := l.queue + [t])
    case Release(t) => if l.queue == [] then UNLOCKED else Lock(Some(l.queue[0]), l.queue[1..])
  }

  lemma ApplyKeepsWellFormed(l: Lock, op: Op)
    requires WellFormed(l) && Enabled(l, op)
    ensures WellFormed(Apply(l, op))
  {
  }

  // ---------- runs ----------

  /** Every operation of `ops` is enabled when its turn comes. */
  predicate Legal(l: Lock, ops: seq<Op>)
    decreases |ops|
  {
    ops == [] || (Enabled(l, ops[0]) && Legal(Apply(l, ops[0]), ops[1..]))
  }

  function After(l: Lock, ops: seq<Op>): Lock
    requires Legal(l, ops)
    decreases |ops|
  {
    if ops == [] then l else After(Apply(l, ops[0]), ops[1..])
  }

  function Releases(ops: seq<Op>): nat {
    if ops == [] then 0 else (if ops[0].Release? then 1 else 0) + Releases(ops[1..])
  }

  /** The threads that queued up during the run, in order. */
  function Enqueued(ops: seq<Op>): seq<Tid> {
    if ops == [] then [] else (if ops[0].Enqueue? then [ops[0].t] else []) + Enqueued(ops[1..])
  }

  /** The threads that received the lock from a releasing owner, in order. */
  function Granted(l: Lock, ops: seq<Op>): seq<Tid>
    requires Legal(l, ops)
    decreases |ops|
  {
    if ops == [] then []
    else (if ops[0].Release? && l.queue != [] then [l.queue[0]] else [])
         + Granted(Apply(l, ops[0]), ops[1..])
  }

  /** Nobody is lost, nobody is granted twice and nobody overtakes: at every point of every run the
      grants so far followed by the present queue are the old queue followed by the arrivals. */
  lemma {:induction false} GrantsFollowArrivals(l: Lock, ops: seq<Op>)
    requires WellFormed(l) && Legal(l, ops)
    ensures Granted(l, ops) + After(l, ops).queue == l.queue + Enqueued(ops)
    ensures WellFormed(After(l, ops))
    decreases |ops|
  {
    if ops != [] {
      ApplyKeepsWellFormed(l, ops[0]);
      var l' := Apply(l, ops[0]);
      GrantsFollowArrivals(l', ops[1..]);
      var granted := if ops[0].Release? && l.queue != [] then [l.queue[0]] else [];
      var arrived := if ops[0].Enqueue? then [ops[0].t] else [];
      Assoc(granted, Granted(l', ops[1..]), After(l', ops[1..]).queue);
      assert granted + l'.queue == l.queue + arrived;
      Assoc(granted, l'.queue, Enqueued(ops[1..]));
      Assoc(l.queue, arrived, Enqueued(ops[1..]));
    }
  }

  /** A waiter with `k` others ahead of it moves up by one place at each release, and no sooner. */
  lemma {:induction false} PlaceInQueue(l: Lock, ops: seq<Op>, t: Tid, k: nat)
    requires WellFormed(l) && Legal(l, ops)
    requires k < |l.queue| && l.queue[k] == t
    requires Releases(ops) <= k
    ensures k - Releases(ops) < |After(l, ops).queue|
    ensures After(l, ops).queue[k - Releases(ops)] == t
    ensures After(l, ops).owner != Some(t)
    decreases |ops|
  {
    if ops != [] {
      ApplyKeepsWellFormed(l, ops[0]);
      PlaceInQueue(Apply(l, ops[0]), ops[1..], t, if ops[0].Release? then k - 1 else k);
    }
  }

  lemma {:induction false} AfterConcat(l: Lock, a: seq<Op>, b: seq<Op>)
    requires Legal(l, a + b)
    ensures Legal(l, a) && Legal(After(l, a), b)
    ensures After(l, a + b) == After(After(l, a), b)
    ensures Releases(a + b) == Releases(a) + Releases(b)
    decreases |a|
  {
    if a == [] {
      assert a + b == b;
    } else {
      assert (a + b)[1..] == a[1..] + b;
      AfterConcat(Apply(l, a[0]), a[1..], b);
    }
  }

  /** Exactly the (k+1)-th release grants the lock to a waiter with `k` others ahead of it. */
  lemma {:induction false} GrantedAtItsTurn(l: Lock, ops: seq<Op>, last: Op, t: Tid, k: nat)
    requires WellFormed(l) && Legal(l, ops + [last])
    requires k < |l.queue| && l.queue[k] == t
    requires Releases(ops) == k && last.Release?
    ensures After(l, ops + [last]).owner == Some(t)
  {
    AfterConcat(l, ops, [last]);
    PlaceInQueue(l, ops, t, k);
    assert After(After(l, ops), [last]) == Apply(After(l, ops), last);
  }
}
