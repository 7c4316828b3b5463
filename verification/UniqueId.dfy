/** `GenerateUniqueID`: every thread takes blocks of ids from a shared 16-bit counter and numbers within a block on
    its own. */
module UniqueId {
  import opened Sequences
  import opened Chains

  /** The number of values of a `uint16_t`. */
  const WIDTH := 0x1_0000

  /** The thread-local variables; `ready` between taking a block and giving out its first id. */
  datatype Local = Local(count: nat, id: nat, ready: bool)

  datatype State = State(next: nat, locals: map<Tid, Local>)

  datatype Event =
    | Take(t: Tid)   // ++next_thread_id
    | Give(t: Tid)   // the id is made up and the count goes on

  const START := State(0, map[])

  function LocalOf(s: State, t: Tid): Local {
    if t in s.locals then s.locals[t] else Local(0, 0, false)
  }

  predicate NeedsBlock(l: Local) {
    !l.ready && (l.id == 0 || l.count == WIDTH - 1)
  }

  predicate Enabled(s: State, e: Event) {
    NeedsBlock(LocalOf(s, e.t)) == e.Take?
  }

  function Apply(s: State, e: Event): State {
    var l := LocalOf(s, e.t);
    match e
    case Take(t) =>
      var next := (s.next + 1) % WIDTH;
      State(next, s.locals[t := Local(0, next, true)])
    case Give(t) => s.(locals := s.locals[t := Local((l.count + 1) % WIDTH, l.id, false)])
  }

  /** The process in the high half, then the thread id, then the count; as the fields do not overlap, or-ing
      them together is adding them. */
  function Pack(pid: nat, id: nat, count: nat): nat {
    (pid * WIDTH * WIDTH + id * WIDTH) + count
  }

  predicate Legal(s: State, es: seq<Event>)
    decreases |es|
  {
    es == [] || (Enabled(s, es[0]) && Legal(Apply(s, es[0]), es[1..]))
  }

  function After(s: State, es: seq<Event>): State
    decreases |es|
  {
    if es == [] then s else After(Apply(s, es[0]), es[1..])
  }

  /** The ids that a run gives out, to all threads together. */
  function Ids(s: State, es: seq<Event>, pid: nat): seq<nat>
    decreases |es|
  {
    if es == [] then []
    else
      var l := LocalOf(s, es[0].t);
      (if es[0].Give? then [Pack(pid, l.id, l.count)] else []) + Ids(Apply(s, es[0]), es[1..], pid)
  }

  function Takes(es: seq<Event>): nat {
    if es == [] then 0 else (if es[0].Take? then 1 else 0) + Takes(es[1..])
  }

  lemma RunOfOne(s: State, e: Event, pid: nat)
    ensures Legal(s, [e]) <==> Enabled(s, e)
    ensures After(s, [e]) == Apply(s, e)
    ensures Ids(s, [e], pid) == if e.Give? then [Pack(pid, LocalOf(s, e.t).id, LocalOf(s, e.t).count)] else []
  {
    assert [e][1..] == [];
  }

  lemma RunOfTwo(s: State, d: Event, e: Event, pid: nat)
    ensures Legal(s, [d, e]) <==> Enabled(s, d) && Legal(Apply(s, d), [e])
    ensures After(s, [d, e]) == After(Apply(s, d), [e])
    ensures d.Take? ==> Ids(s, [d, e], pid) == Ids(Apply(s, d), [e], pid)
  {
    assert [d, e][1..] == [e];
  }

  // ---------- the call itself ----------

  class SharedCounter {
    var next: nat

    constructor ()
      ensures next == 0
    {
      next := 0;
    }

    /** The atomic increment. */
    method Increment() returns (id: nat)
      modifies this
      ensures id == next == (old(next) + 1) % WIDTH
    {
      next := (next + 1) % WIDTH;
      id := next;
    }
  }

  class ThreadLocals {
    var count: nat
    var id: nat

    constructor ()
      ensures count == 0 && id == 0
    {
      count, id := 0, 0;
    }

    ghost function View(): Local
      reads this
    {
      Local(count, id, false)
    }

    /** One call is the steps of its thread, whatever the other locals are. */
    method GenerateUniqueID(shared: SharedCounter, pid: nat, ghost t: Tid, ghost s: State) returns (uid: nat)
      requires s.next == shared.next && LocalOf(s, t) == View()
      modifies this, shared
      ensures var es := if NeedsBlock(old(View())) then [Take(t), Give(t)] else [Give(t)];
              && Legal(s, es) && Ids(s, es, pid) == [uid]
              && After(s, es).next == shared.next && LocalOf(After(s, es), t) == View()
    {
      if id == 0 || count == 0xFFFF {
        id := shared.Increment();
        count := 0;
        RunOfTwo(s, Take(t), Give(t), pid);
        RunOfOne(Apply(s, Take(t)), Give(t), pid);
      } else {
        RunOfOne(s, Give(t), pid);
      }
      uid := Pack(pid, id, count);
      count := (count + 1) % WIDTH;
    }
  }

  // ---------- which blocks the ids come from ----------

  /** How many blocks were taken, which one each thread works on, and the places of all ids given out. */
  datatype Books = Books(taken: nat, held: map<Tid, nat>, given: seq<(nat, nat)>)

  const NO_BOOKS := Books(0, map[], [])

  function IdOfBlock(block: nat): nat {
    (block + 1) % WIDTH
  }

  ghost function Enter(s: State, b: Books, e: Event): Books {
    match e
    case Take(t) => Books(b.taken + 1, b.held[t := b.taken], b.given)
    case Give(t) => if t in b.held then b.(given := b.given + [(b.held[t], LocalOf(s, t).count)]) else b
  }

  ghost predicate Inv(s: State, b: Books) {
    && s.next == b.taken % WIDTH
    && (forall t | t in b.held :: b.held[t] < b.taken)
    && (forall t, u | t in b.held && u in b.held && t != u :: b.held[t] != b.held[u])
    && (forall t :: LocalOf(s, t).id == if t in b.held then IdOfBlock(b.held[t]) else 0)
    && (forall t | t !in b.held :: !LocalOf(s, t).ready)
    && (forall t :: LocalOf(s, t).count < WIDTH && (LocalOf(s, t).ready ==> LocalOf(s, t).count == 0))
  }

  /** The places given out are places of taken blocks, in the block that a thread works on those before its
      count; no place twice. */
  ghost predicate Placed(s: State, b: Books) {
    && (forall i | 0 <= i < |b.given| :: b.given[i].0 < b.taken && b.given[i].1 < WIDTH)
    && (forall i, t | 0 <= i < |b.given| && t in b.held && b.held[t] == b.given[i].0 ::
        b.given[i].1 < LocalOf(s, t).count)
    && Distinct(b.given)
  }

  /** Every block has given its first id, or is about to. */
  ghost predicate Opened(s: State, b: Books) {
    forall k | 0 <= k < b.taken :: (k, 0) in b.given || exists t :: t in b.held && b.held[t] == k && LocalOf(s, t).ready
  }

  lemma BlockId(block: nat)
    ensures IdOfBlock(block) == (block + 1) % WIDTH
  {
  }

  lemma NextModulo(n: nat)
    ensures (n % WIDTH + 1) % WIDTH == (n + 1) % WIDTH
  {
  }

  lemma TakeInv(s: State, b: Books, t: Tid)
    requires Inv(s, b) && Enabled(s, Take(t))
    ensures Inv(Apply(s, Take(t)), Enter(s, b, Take(t)))
  {
    hide IdOfBlock;
    NextModulo(b.taken);
    BlockId(b.taken);
    assert forall u | u != t :: LocalOf(Apply(s, Take(t)), u) == LocalOf(s, u);
  }

  lemma GiveInv(s: State, b: Books, t: Tid)
    requires Inv(s, b) && Enabled(s, Give(t))
    ensures Inv(Apply(s, Give(t)), Enter(s, b, Give(t)))
  {
    hide IdOfBlock;
    assert forall u | u != t :: LocalOf(Apply(s, Give(t)), u) == LocalOf(s, u);
  }

  lemma StepInv(s: State, b: Books, e: Event)
    requires Inv(s, b) && Enabled(s, e)
    ensures Inv(Apply(s, e), Enter(s, b, e))
  {
    hide Inv;
    if e.Take? {
      TakeInv(s, b, e.t);
    } else {
      GiveInv(s, b, e.t);
    }
  }

  lemma TakePlaced(s: State, b: Books, t: Tid)
    requires Inv(s, b) && Placed(s, b) && Enabled(s, Take(t))
    ensures Placed(Apply(s, Take(t)), Enter(s, b, Take(t)))
  {
    hide Inv; hide Distinct;
    assert forall u | u != t :: LocalOf(Apply(s, Take(t)), u) == LocalOf(s, u);
  }

  lemma GivePlaced(s: State, b: Books, t: Tid)
    requires Inv(s, b) && Placed(s, b) && Enabled(s, Give(t))
    ensures Placed(Apply(s, Give(t)), Enter(s, b, Give(t)))
  {
    hide Distinct;
    assert t in b.held;
    var place := (b.held[t], LocalOf(s, t).count);
    assert place !in b.given;
    OneIsDistinct(place);
    DistinctConcat(b.given, [place]);
    assert forall u | u != t :: LocalOf(Apply(s, Give(t)), u) == LocalOf(s, u);
    assert LocalOf(Apply(s, Give(t)), t).count == LocalOf(s, t).count + 1;
  }

  lemma StepPlaced(s: State, b: Books, e: Event)
    requires Inv(s, b) && Placed(s, b) && Enabled(s, e)
    ensures Placed(Apply(s, e), Enter(s, b, e))
  {
    hide Inv; hide Placed;
    if e.Take? {
      TakePlaced(s, b, e.t);
    } else {
      GivePlaced(s, b, e.t);
    }
  }

  lemma StepOpened(s: State, b: Books, e: Event)
    requires Inv(s, b) && Opened(s, b) && Enabled(s, e)
    ensures Opened(Apply(s, e), Enter(s, b, e))
  {
    var s', b' := Apply(s, e), Enter(s, b, e);
    forall k | 0 <= k < b'.taken
      ensures (k, 0) in b'.given || exists t :: t in b'.held && b'.held[t] == k && LocalOf(s', t).ready
    {
      if k == b.taken {
        assert b'.held[e.t] == k && LocalOf(s', e.t).ready;
      } else if (k, 0) in b.given {
        assert (k, 0) in b'.given;
      } else {
        var t :| t in b.held && b.held[t] == k && LocalOf(s, t).ready;
        if t == e.t {
          assert b'.given[|b.given|] == (k, 0);
        } else {
          assert b'.held[t] == k && LocalOf(s', t) == LocalOf(s, t);
        }
      }
    }
  }

  ghost function Entered(s: State, b: Books, es: seq<Event>): Books
    decreases |es|
  {
    if es == [] then b else Entered(Apply(s, es[0]), Enter(s, b, es[0]), es[1..])
  }

  ghost function IdsAt(places: seq<(nat, nat)>, pid: nat): (ids: seq<nat>)
    ensures |ids| == |places|
  {
    seq(|places|, i requires 0 <= i < |places| => Pack(pid, IdOfBlock(places[i].0), places[i].1))
  }

  lemma {:induction false} RunBooks(s: State, b: Books, es: seq<Event>, pid: nat)
    requires Inv(s, b) && Placed(s, b) && Opened(s, b) && Legal(s, es)
    ensures var s', b' := After(s, es), Entered(s, b, es);
            && Inv(s', b') && Placed(s', b') && Opened(s', b')
            && b'.taken == b.taken + Takes(es)
            && IdsAt(b'.given, pid) == IdsAt(b.given, pid) + Ids(s, es, pid)
    decreases |es|
  {
    hide Inv; hide Placed; hide Opened; hide Pack; hide Apply;
    if es != [] {
      var e, s', b' := es[0], Apply(s, es[0]), Enter(s, b, es[0]);
      StepInv(s, b, e);
      StepPlaced(s, b, e);
      StepOpened(s, b, e);
      GivenNext(s, b, e, pid);
      RunBooks(s', b', es[1..], pid);
      if e.Give? {
        var l := LocalOf(s, e.t);
        Assoc(IdsAt(b.given, pid), [Pack(pid, l.id, l.count)], Ids(s', es[1..], pid));
      } else {
        assert [] + Ids(s', es[1..], pid) == Ids(s', es[1..], pid);
      }
    }
  }

  lemma GivenNext(s: State, b: Books, e: Event, pid: nat)
    requires Inv(s, b) && Enabled(s, e)
    ensures IdsAt(Enter(s, b, e).given, pid) ==
            if e.Give? then IdsAt(b.given, pid) + [Pack(pid, LocalOf(s, e.t).id, LocalOf(s, e.t).count)]
            else IdsAt(b.given, pid)
  {
    hide Pack;
  }

  lemma PackInjective(pid: nat, i: nat, c: nat, j: nat, d: nat)
    requires c < WIDTH && d < WIDTH
    ensures Pack(pid, i, c) == Pack(pid, j, d) <==> i == j && c == d
  {
  }

  lemma PackOrders(pid: nat, i: nat, c: nat)
    requires i < WIDTH && c < WIDTH
    ensures pid * (WIDTH * WIDTH) <= Pack(pid, i, c) < (pid + 1) * (WIDTH * WIDTH)
  {
    assert pid * WIDTH * WIDTH == pid * (WIDTH * WIDTH);
    assert (pid + 1) * (WIDTH * WIDTH) == pid * (WIDTH * WIDTH) + WIDTH * WIDTH;
  }

  /** Ids of different processes differ, whatever thread and count. */
  lemma ProcessInjective(pid: nat, i: nat, c: nat, qid: nat, j: nat, d: nat)
    requires i < WIDTH && c < WIDTH && j < WIDTH && d < WIDTH && pid != qid
    ensures Pack(pid, i, c) != Pack(qid, j, d)
  {
    hide Pack;
    PackOrders(pid, i, c);
    PackOrders(qid, j, d);
    if pid < qid {
      assert (pid + 1) * (WIDTH * WIDTH) <= qid * (WIDTH * WIDTH);
    } else {
      assert (qid + 1) * (WIDTH * WIDTH) <= pid * (WIDTH * WIDTH);
    }
  }

  lemma BlockInjective(a: nat, b: nat)
    requires a < WIDTH && b < WIDTH
    ensures IdOfBlock(a) == IdOfBlock(b) <==> a == b
  {
  }

  /** As long as the 16-bit counter has not gone round, all ids of all threads differ, in every interleaving. */
  lemma IdsAreDistinct(es: seq<Event>, pid: nat)
    requires Legal(START, es) && Takes(es) <= WIDTH
    ensures Distinct(Ids(START, es, pid))
  {
    hide Pack; hide IdOfBlock;
    RunBooks(START, NO_BOOKS, es, pid);
    var b := Entered(START, NO_BOOKS, es);
    var ids := IdsAt(b.given, pid);
    assert [] + Ids(START, es, pid) == Ids(START, es, pid);
    forall i, j | 0 <= i < j < |ids| ensures ids[i] != ids[j] {
      assert b.given[i] != b.given[j];
      PackInjective(pid, IdOfBlock(b.given[i].0), b.given[i].1, IdOfBlock(b.given[j].0), b.given[j].1);
      BlockInjective(b.given[i].0, b.given[j].0);
    }
  }

  lemma GivenIds(es: seq<Event>, pid: nat)
    requires Legal(START, es)
    ensures var given := Entered(START, NO_BOOKS, es).given;
            Ids(START, es, pid) == IdsAt(given, pid) && forall i | 0 <= i < |given| :: given[i].1 < WIDTH
  {
    hide Pack; hide Inv; hide Opened; hide Distinct;
    AtFirst();
    RunBooks(START, NO_BOOKS, es, pid);
    assert [] + Ids(START, es, pid) == Ids(START, es, pid);
  }

  lemma AtFirst()
    ensures Inv(START, NO_BOOKS) && Placed(START, NO_BOOKS) && Opened(START, NO_BOOKS)
  {
  }

  /** No id of one process is an id of another, however many blocks either of them takes. */
  lemma ProcessesDiffer(es: seq<Event>, pid: nat, fs: seq<Event>, qid: nat, x: nat)
    requires Legal(START, es) && Legal(START, fs) && pid != qid && x in Ids(START, es, pid)
    ensures x !in Ids(START, fs, qid)
  {
    hide Pack; hide IdOfBlock; hide Entered; hide Ids; hide Legal;
    GivenIds(es, pid);
    GivenIds(fs, qid);
    var a, b := Entered(START, NO_BOOKS, es).given, Entered(START, NO_BOOKS, fs).given;
    var i :| 0 <= i < |a| && IdsAt(a, pid)[i] == x;
    forall j | 0 <= j < |b| ensures IdsAt(b, qid)[j] != x {
      BlockId(a[i].0);
      BlockId(b[j].0);
      ProcessInjective(pid, IdOfBlock(a[i].0), a[i].1, qid, IdOfBlock(b[j].0), b[j].1);
    }
  }

  /** Within a block a thread's ids are consecutive; the process is the high half of each. */
  lemma ConsecutiveIds(es: seq<Event>, t: Tid, pid: nat)
    requires Legal(START, es) && Legal(After(START, es), [Give(t), Give(t)])
    ensures var ids := Ids(After(START, es), [Give(t), Give(t)], pid);
            && |ids| == 2 && ids[1] == ids[0] + 1
            && pid * (WIDTH * WIDTH) <= ids[0] < (pid + 1) * (WIDTH * WIDTH)
  {
    hide Pack;
    AtFirst();
    RunBooks(START, NO_BOOKS, es, pid);
    TwoGives(After(START, es), Entered(START, NO_BOOKS, es), t, pid);
  }

  lemma TwoGives(s: State, b: Books, t: Tid, pid: nat)
    requires Inv(s, b) && Legal(s, [Give(t), Give(t)])
    ensures var ids := Ids(s, [Give(t), Give(t)], pid);
            && |ids| == 2 && ids[1] == ids[0] + 1
            && pid * (WIDTH * WIDTH) <= ids[0] < (pid + 1) * (WIDTH * WIDTH)
  {
    hide Pack;
    var l, s' := LocalOf(s, t), Apply(s, Give(t));
    if t in b.held { BlockId(b.held[t]); }
    assert [Give(t), Give(t)][1..] == [Give(t)];
    RunOfOne(s', Give(t), pid);
    PackOrders(pid, l.id, l.count);
    PackNext(pid, l.id, l.count);
    assert Ids(s, [Give(t), Give(t)], pid) == [Pack(pid, l.id, l.count)] + Ids(s', [Give(t)], pid);
  }

  lemma PackNext(pid: nat, i: nat, c: nat)
    ensures Pack(pid, i, c + 1) == Pack(pid, i, c) + 1
  {
  }

  // ---------- no block is given up early ----------

  function Gives(es: seq<Event>, t: Tid): nat {
    if es == [] then 0 else (if es[0] == Give(t) then 1 else 0) + Gives(es[1..], t)
  }

  function TakesOf(es: seq<Event>, t: Tid): nat {
    if es == [] then 0 else (if es[0] == Take(t) then 1 else 0) + TakesOf(es[1..], t)
  }

  /** A thread has used up its earlier blocks, all but the last place, and its present one as far as its count. */
  ghost predicate UsedUp(l: Local, takes: nat, gives: nat) {
    if takes == 0 then l == Local(0, 0, false) && gives == 0
    else
      && l.id != 0 && l.count < WIDTH && (l.ready <==> l.count == 0)
      && gives == (takes - 1) * (WIDTH - 1) + l.count
  }

  lemma StepUsesUp(s: State, e: Event, t: Tid, takes: nat, gives: nat)
    requires Enabled(s, e) && UsedUp(LocalOf(s, t), takes, gives) && (e.Take? ==> s.next + 1 < WIDTH)
    ensures UsedUp(LocalOf(Apply(s, e), t), takes + (if e == Take(t) then 1 else 0),
                   gives + if e == Give(t) then 1 else 0)
  {
    if e == Take(t) && takes > 0 {
      assert takes * (WIDTH - 1) == (takes - 1) * (WIDTH - 1) + (WIDTH - 1);
    }
  }

  lemma {:induction false} RunUsesUp(s: State, es: seq<Event>, t: Tid, takes: nat, gives: nat)
    requires Legal(s, es) && UsedUp(LocalOf(s, t), takes, gives) && s.next + Takes(es) < WIDTH
    ensures UsedUp(LocalOf(After(s, es), t), takes + TakesOf(es, t), gives + Gives(es, t))
    decreases |es|
  {
    hide UsedUp;
    if es != [] {
      var e := es[0];
      StepUsesUp(s, e, t, takes, gives);
      var taken, given := if e == Take(t) then 1 else 0, if e == Give(t) then 1 else 0;
      RunUsesUp(Apply(s, e), es[1..], t, takes + taken, gives + given);
    }
  }

  /** Ids are not wasted: with fewer than 65536 blocks in all, a thread takes a further one only when it has given out
      65535 ids of each before. */
  lemma BlocksAreUsedUp(es: seq<Event>, t: Tid)
    requires Legal(START, es) && Takes(es) < WIDTH
    ensures TakesOf(es, t) == 0 ==> Gives(es, t) == 0
    ensures TakesOf(es, t) > 0 ==>
              && (TakesOf(es, t) - 1) * (WIDTH - 1) <= Gives(es, t) <= TakesOf(es, t) * (WIDTH - 1)
              && (Gives(es, t) == (TakesOf(es, t) - 1) * (WIDTH - 1) ==> LocalOf(After(START, es), t).ready)
  {
    RunUsesUp(START, es, t, 0, 0);
    var n := TakesOf(es, t);
    assert n * (WIDTH - 1) == (n - 1) * (WIDTH - 1) + (WIDTH - 1);
  }

  /** No call is between taking a block and giving out an id. */
  ghost predicate Quiet(s: State) {
    forall t :: !LocalOf(s, t).ready
  }

  /** One block more and an id comes back: the first of the first block. */
  lemma IdsComeBack(es: seq<Event>, pid: nat)
    requires Legal(START, es) && Takes(es) > WIDTH && Quiet(After(START, es))
    ensures !Distinct(Ids(START, es, pid))
  {
    hide Pack; hide IdOfBlock; hide Legal; hide After; hide Ids; hide Takes; hide Entered;
    BothGiven(es);
    GivenIds(es, pid);
    var given := Entered(START, NO_BOOKS, es).given;
    var i :| 0 <= i < |given| && given[i] == (0, 0);
    var j :| 0 <= j < |given| && given[j] == (WIDTH, 0);
    RoundAgain();
    var ids := IdsAt(given, pid);
    assert ids[i] == ids[j] && i != j;
  }

  lemma BothGiven(es: seq<Event>)
    requires Legal(START, es) && Takes(es) > WIDTH && Quiet(After(START, es))
    ensures var given := Entered(START, NO_BOOKS, es).given; (0, 0) in given && (WIDTH, 0) in given
  {
    hide Pack; hide IdOfBlock; hide Inv; hide Placed;
    AtFirst();
    RunBooks(START, NO_BOOKS, es, 0);
  }

  lemma RoundAgain()
    ensures IdOfBlock(WIDTH) == IdOfBlock(0)
  {
  }

  /** Exactly how long the ids are unique. */
  lemma UniqueExactly(es: seq<Event>, pid: nat)
    requires Legal(START, es) && Quiet(After(START, es))
    ensures Distinct(Ids(START, es, pid)) <==> Takes(es) <= WIDTH
  {
    if Takes(es) <= WIDTH {
      IdsAreDistinct(es, pid);
    } else {
      IdsComeBack(es, pid);
    }
  }

  // ---------- the bound is reached ----------

  lemma {:induction false} RunConcat(s: State, a: seq<Event>, b: seq<Event>)
    requires Legal(s, a) && Legal(After(s, a), b)
    ensures Legal(s, a + b) && After(s, a + b) == After(After(s, a), b) && Takes(a + b) == Takes(a) + Takes(b)
    decreases |a|
  {
    if a == [] {
      assert a + b == b;
    } else {
      assert (a + b)[1..] == a[1..] + b;
      RunConcat(Apply(s, a[0]), a[1..], b);
    }
  }

  /** The threads below n each generate one id. */
  function OneEach(n: nat): seq<Event> {
    if n == 0 then [] else OneEach(n - 1) + [Take(n - 1), Give(n - 1)]
  }

  /** A fresh thread takes a block and gives out its first id. */
  lemma FirstCall(s: State, t: Tid)
    requires Quiet(s) && t !in s.locals
    ensures Legal(s, [Take(t), Give(t)]) && Quiet(After(s, [Take(t), Give(t)])) && Takes([Take(t), Give(t)]) == 1
    ensures After(s, [Take(t), Give(t)]).locals.Keys == s.locals.Keys + {t}
  {
    var s1 := Apply(s, Take(t));
    var s2 := Apply(s1, Give(t));
    RunOfTwo(s, Take(t), Give(t), 0);
    RunOfOne(s1, Give(t), 0);
    assert [Take(t), Give(t)][1..] == [Give(t)] && [Give(t)][1..] == [];
    assert Takes([Give(t)]) == 0;
    assert !LocalOf(s2, t).ready && forall u | u != t :: LocalOf(s2, u) == LocalOf(s, u);
  }

  lemma {:induction false} OneEachIsLegal(n: nat)
    ensures Legal(START, OneEach(n)) && Takes(OneEach(n)) == n && Quiet(After(START, OneEach(n)))
    ensures forall t | t >= n :: t !in After(START, OneEach(n)).locals
  {
    if n > 0 {
      OneEachIsLegal(n - 1);
      FirstCall(After(START, OneEach(n - 1)), n - 1);
      RunConcat(START, OneEach(n - 1), [Take(n - 1), Give(n - 1)]);
    }
  }

  /** 65537 threads that generate one id each get one twice. */
  lemma TooManyThreads(pid: nat)
    ensures var es := OneEach(WIDTH + 1);
            Legal(START, es) && Quiet(After(START, es)) && Takes(es) == WIDTH + 1 && !Distinct(Ids(START, es, pid))
  {
    OneEachIsLegal(WIDTH + 1);
    IdsComeBack(OneEach(WIDTH + 1), pid);
  }

  /** 65536 is the largest number of blocks up to which ids are always unique. */
  lemma LargestBound(pid: nat, n: nat)
    ensures (forall es | Legal(START, es) && Takes(es) <= n :: Distinct(Ids(START, es, pid))) <==> n <= WIDTH
  {
    if n <= WIDTH {
      forall es | Legal(START, es) && Takes(es) <= n ensures Distinct(Ids(START, es, pid)) {
        IdsAreDistinct(es, pid);
      }
    } else {
      TooManyThreads(pid);
    }
  }
}
