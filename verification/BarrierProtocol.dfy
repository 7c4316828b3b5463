/** `Barrier` over `Condition`: a counting rendezvous of as many threads as the barrier was made for, used for
    any number of rounds.

    One step per access to `count_` and one per critical section of `Condition::mutex_`; testing and going to
    sleep in `Condition::Wait` is one critical section.  A sleeper may also wake up for no reason, and anybody may
    call `Init` at any time. */
module BarrierProtocol {

  datatype Pc =
    | Outside
    | Arriving               // Barrier::Wait, before --count_
    | Resetting              // the last one: count_ = thread_nums_
    | Satisfying             // Condition::Satisfy
    | Checking               // Condition::Wait
    | Sleeping

  /** `arrived` and `returned` count for every thread how often it has decremented `count_` and how often its
      `Wait` has returned. */
  datatype State = State(
    count: nat,
    value: bool,
    failed: bool,
    pcs: seq<Pc>,
    arrived: seq<nat>,
    returned: seq<nat>)

  datatype Event =
    | Init
    | Call(t: nat)
    | Step(t: nat)
    | SpuriousWakeup(t: nat)

  predicate Sized(s: State) {
    |s.arrived| == |s.pcs| == |s.returned|
  }

  predicate Enabled(s: State, e: Event) {
    match e
    case Init => true
    case Call(t) => t < |s.pcs| && s.pcs[t].Outside?
    case Step(t) => Sized(s) && t < |s.pcs| && !s.pcs[t].Outside? && !s.pcs[t].Sleeping?
    case SpuriousWakeup(t) => t < |s.pcs| && s.pcs[t].Sleeping?
  }

  /** `notify_all`: every sleeper gets up to test again. */
  function WakeAll(pcs: seq<Pc>): (r: seq<Pc>)
    ensures |r| == |pcs|
    ensures forall i | 0 <= i < |pcs| :: r[i] == if pcs[i].Sleeping? then Checking else pcs[i]
  {
    seq(|pcs|, i requires 0 <= i < |pcs| => if pcs[i].Sleeping? then Checking else pcs[i])
  }

  /** `--count_` on a `std::size_t`. */
  function Decremented(count: nat): nat {
    if count == 0 then 0xFFFF_FFFF_FFFF_FFFF else count - 1
  }

  function Next(s: State, e: Event): State
    requires Enabled(s, e)
  {
    match e
    case Init => s.(value := false, failed := false)
    case Call(t) => s.(pcs := s.pcs[t := Arriving])
    case SpuriousWakeup(t) => s.(pcs := s.pcs[t := Checking])
    case Step(t) =>
      match s.pcs[t]
      case Arriving =>
        var left := Decremented(s.count);
        s.(count := left,
           pcs := s.pcs[t := if left == 0 then Resetting else Checking],
           arrived := s.arrived[t := s.arrived[t] + 1])
      case Resetting => s.(count := |s.pcs|, pcs := s.pcs[t := Satisfying])
      case Satisfying =>
        s.(value := true,
           failed := false,
           pcs := WakeAll(s.pcs)[t := Outside],
           returned := s.returned[t := s.returned[t] + 1])
      case Checking =>
        if s.failed || s.value then s.(pcs := s.pcs[t := Outside], returned := s.returned[t := s.returned[t] + 1])
        else s.(pcs := s.pcs[t := Sleeping])
      case _ => s
  }

  /** A barrier that nobody has used yet. */
  ghost predicate Initial(s: State) {
    && Sized(s)
    && s.count == |s.pcs|
    && !s.value && !s.failed
    && forall t | 0 <= t < |s.pcs| :: s.pcs[t] == Outside && s.arrived[t] == 0 && s.returned[t] == 0
  }

  // ---------- counting the threads that are inside ----------

  /** Between the decrement and the return. */
  predicate Inside(p: Pc) {
    !p.Outside? && !p.Arriving?
  }

  predicate Finishing(p: Pc) {
    p.Resetting? || p.Satisfying?
  }

  function InsideCount(pcs: seq<Pc>): nat {
    if pcs == [] then 0 else (if Inside(pcs[0]) then 1 else 0) + InsideCount(pcs[1..])
  }

  lemma {:induction false} InsideUpdate(pcs: seq<Pc>, t: nat, p: Pc)
    requires t < |pcs|
    ensures InsideCount(pcs[t := p]) == InsideCount(pcs) - (if Inside(pcs[t]) then 1 else 0) +
              (if Inside(p) then 1 else 0)
  {
    if t > 0 {
      assert pcs[t := p][1..] == pcs[1..][t - 1 := p];
      InsideUpdate(pcs[1..], t - 1, p);
    }
  }

  lemma {:induction false} InsideBounds(pcs: seq<Pc>)
    ensures InsideCount(pcs) <= |pcs|
    ensures InsideCount(pcs) == |pcs| <==> forall i | 0 <= i < |pcs| :: Inside(pcs[i])
    ensures InsideCount(pcs) == 0 <==> forall i | 0 <= i < |pcs| :: !Inside(pcs[i])
  {
    if pcs != [] {
      InsideBounds(pcs[1..]);
      assert pcs == [pcs[0]] + pcs[1..];
    }
  }

  // ---------- the invariant ----------

  /** While the condition is false, the threads of round r gather: nobody has returned from it, and the counter
      says how many are missing; if none is, one thread is about to satisfy the condition. */
  ghost predicate Gathering(s: State, r: nat)
    requires Sized(s)
  {
    && (forall t | 0 <= t < |s.pcs| :: s.returned[t] == r && s.arrived[t] == if Inside(s.pcs[t]) then r + 1 else r)
    && (forall t, u | 0 <= t < u < |s.pcs| :: !(Finishing(s.pcs[t]) && Finishing(s.pcs[u])))
    && (InsideCount(s.pcs) < |s.pcs| ==>
          s.count == |s.pcs| - InsideCount(s.pcs) && forall t | 0 <= t < |s.pcs| :: !Finishing(s.pcs[t]))
    && (InsideCount(s.pcs) == |s.pcs| > 0 ==>
          exists t :: 0 <= t < |s.pcs| && Finishing(s.pcs[t]) && s.count == if s.pcs[t].Resetting? then 0 else |s.pcs|)
  }

  /** While it is true, all have arrived and the counter is full again; who is inside only has to notice. */
  ghost predicate Releasing(s: State, r: nat)
    requires Sized(s)
  {
    && s.count == |s.pcs|
    && forall t | 0 <= t < |s.pcs| ::
         && !Finishing(s.pcs[t]) && !s.pcs[t].Sleeping?
         && s.arrived[t] == r + 1 && s.returned[t] == if Inside(s.pcs[t]) then r else r + 1
  }

  ghost predicate Inv(s: State, r: nat) {
    Sized(s) && !s.failed && if s.value then Releasing(s, r) else Gathering(s, r)
  }

  /** What the users of a barrier have to see to: `Init` comes after everybody has returned from a round, and
      before anybody arrives for the next. */
  ghost predicate Disciplined(s: State, e: Event) {
    match e
    case Init => s.value ==> forall t | 0 <= t < |s.pcs| :: !s.pcs[t].Checking?
    case Step(t) => t < |s.pcs| && s.pcs[t].Arriving? ==> !s.value
    case _ => true
  }

  function NextRound(s: State, r: nat, e: Event): nat {
    if e.Init? && s.value then r + 1 else r
  }

  lemma ArriveKeeps(s: State, r: nat, t: nat)
    requires Inv(s, r) && !s.value && t < |s.pcs| && s.pcs[t].Arriving?
    ensures Inv(Next(s, Step(t)), r)
  {
    var s' := Next(s, Step(t));
    InsideBounds(s.pcs);
    InsideBounds(s'.pcs);
    InsideUpdate(s.pcs, t, s'.pcs[t]);
    assert InsideCount(s'.pcs) == |s.pcs| ==> Finishing(s'.pcs[t]);
  }

  lemma SatisfyKeeps(s: State, r: nat, t: nat)
    requires Inv(s, r) && t < |s.pcs| && s.pcs[t].Satisfying?
    ensures Inv(Next(s, Step(t)), r)
  {
    InsideBounds(s.pcs);
  }

  lemma ResetKeeps(s: State, r: nat, t: nat)
    requires Inv(s, r) && t < |s.pcs| && s.pcs[t].Resetting?
    ensures Inv(Next(s, Step(t)), r)
  {
    var s' := Next(s, Step(t));
    InsideUpdate(s.pcs, t, Satisfying);
    assert Finishing(s'.pcs[t]);
  }

  /** A thread calls, falls asleep or gets up: the number of threads inside stays the same. */
  lemma MoveKeeps(s: State, r: nat, t: nat, p: Pc)
    requires Inv(s, r) && t < |s.pcs| && Inside(p) == Inside(s.pcs[t]) && !Finishing(p) && !Finishing(s.pcs[t])
    requires s.value ==> !p.Sleeping?
    ensures Inv(s.(pcs := s.pcs[t := p]), r)
  {
    InsideUpdate(s.pcs, t, p);
    if !s.value && InsideCount(s.pcs) == |s.pcs| {
      var u :| 0 <= u < |s.pcs| && Finishing(s.pcs[u]) && s.count == if s.pcs[u].Resetting? then 0 else |s.pcs|;
      assert Finishing(s.pcs[t := p][u]);
    }
  }

  lemma ReturnKeeps(s: State, r: nat, t: nat)
    requires Inv(s, r) && s.value && t < |s.pcs| && s.pcs[t].Checking?
    ensures Inv(Next(s, Step(t)), r)
  {
  }

  lemma InitKeeps(s: State, r: nat)
    requires Inv(s, r) && Disciplined(s, Init)
    ensures Inv(Next(s, Init), NextRound(s, r, Init))
  {
    if s.value {
      InsideBounds(s.pcs);
    }
  }

  lemma StepKeeps(s: State, r: nat, e: Event)
    requires Inv(s, r) && Enabled(s, e) && Disciplined(s, e)
    ensures Inv(Next(s, e), NextRound(s, r, e))
  {
    if e.Init? {
      InitKeeps(s, r);
    } else if e.Step? && s.pcs[e.t].Arriving? {
      ArriveKeeps(s, r, e.t);
    } else if e.Step? && s.pcs[e.t].Satisfying? {
      SatisfyKeeps(s, r, e.t);
    } else if e.Step? && s.pcs[e.t].Resetting? {
      ResetKeeps(s, r, e.t);
    } else if e.Step? && s.value {
      ReturnKeeps(s, r, e.t);
    } else {
      MoveKeeps(s, r, e.t, Next(s, e).pcs[e.t]);
    }
  }

  // ---------- runs ----------

  predicate ValidRun(s: State, es: seq<Event>)
    decreases |es|
  {
    es == [] || (Enabled(s, es[0]) && ValidRun(Next(s, es[0]), es[1..]))
  }

  function End(s: State, es: seq<Event>): State
    requires ValidRun(s, es)
    decreases |es|
  {
    if es == [] then s else End(Next(s, es[0]), es[1..])
  }

  ghost predicate DisciplinedRun(s: State, es: seq<Event>)
    requires ValidRun(s, es)
    decreases |es|
  {
    es == [] || (Disciplined(s, es[0]) && DisciplinedRun(Next(s, es[0]), es[1..]))
  }

  function LastRound(s: State, r: nat, es: seq<Event>): nat
    requires ValidRun(s, es)
    decreases |es|
  {
    if es == [] then r else LastRound(Next(s, es[0]), NextRound(s, r, es[0]), es[1..])
  }

  lemma {:induction false} RunKeeps(s: State, r: nat, es: seq<Event>)
    requires Inv(s, r) && ValidRun(s, es) && DisciplinedRun(s, es)
    ensures Inv(End(s, es), LastRound(s, r, es)) && |End(s, es).pcs| == |s.pcs|
    decreases |es|
  {
    hide Inv; hide Disciplined;
    if es != [] {
      StepKeeps(s, r, es[0]);
      RunKeeps(Next(s, es[0]), NextRound(s, r, es[0]), es[1..]);
    }
  }

  /** Nobody has returned from a round that somebody has not arrived for yet. */
  ghost predicate Together(s: State) {
    forall t, u | 0 <= t < |s.returned| && 0 <= u < |s.arrived| :: s.returned[t] <= s.arrived[u]
  }

  lemma InitialInv(s: State)
    requires Initial(s)
    ensures Inv(s, 0)
  {
    InsideBounds(s.pcs);
  }

  /** Over any number of rounds, no `Wait` returns before all threads have arrived for that round, and nobody gets
      more than one round ahead. */
  lemma NobodyReturnsEarly(s: State, es: seq<Event>)
    requires Initial(s) && ValidRun(s, es) && DisciplinedRun(s, es)
    ensures Together(End(s, es))
    ensures var s' := End(s, es);
            Sized(s') && forall t, u | 0 <= t < |s'.pcs| && 0 <= u < |s'.pcs| :: s'.arrived[t] <= s'.returned[u] + 1
  {
    InitialInv(s);
    RunKeeps(s, 0, es);
  }

  /** A round is over and everybody has left. */
  ghost predicate Rested(s: State, r: nat) {
    Inv(s, r) && s.value && forall t | 0 <= t < |s.pcs| :: s.pcs[t].Outside?
  }

  /** Nobody is left behind: when no step is left and all threads have arrived once more than anybody had returned
      before, all have returned, the counter is full and the condition still stands. */
  lemma EverybodyReturns(s: State, es: seq<Event>, r: nat)
    requires Initial(s) && ValidRun(s, es) && DisciplinedRun(s, es) && s.pcs != []
    requires forall t :: !Enabled(End(s, es), Step(t))
    requires Sized(End(s, es)) && forall t | 0 <= t < |End(s, es).pcs| :: End(s, es).arrived[t] == r + 1
    ensures var s' := End(s, es);
            && (forall t | 0 <= t < |s'.pcs| :: s'.pcs[t].Outside? && s'.returned[t] == r + 1)
            && s'.count == |s'.pcs|
            && (s'.value ==> Rested(s', r))
            && (!s'.value ==> LastRound(s, 0, es) == r + 1)
  {
    InitialInv(s);
    RunKeeps(s, 0, es);
    var s' := End(s, es);
    InsideBounds(s'.pcs);
    forall t | 0 <= t < |s'.pcs| ensures s'.pcs[t].Outside? || s'.pcs[t].Sleeping? {
      assert !Enabled(s', Step(t));
    }
    assert s'.arrived[0] == r + 1;
  }

  // ---------- the counter under any use ----------

  /** While a thread is about to reset the counter, that is zero, or has gone round since. */
  ghost predicate GoneRound(s: State, n: nat) {
    && (s.count == 0 ==> s.pcs == [] || exists t :: 0 <= t < |s.pcs| && s.pcs[t].Resetting?)
    && (forall t | 0 <= t < |s.pcs| && s.pcs[t].Resetting? :: s.count == 0 || s.count + n >= 0x1_0000_0000_0000_0000)
    && (forall t, u | 0 <= t < u < |s.pcs| :: !(s.pcs[t].Resetting? && s.pcs[u].Resetting?))
  }

  lemma GoesRound(s: State, e: Event, n: nat)
    requires Enabled(s, e) && GoneRound(s, n) && n < 0xFFFF_FFFF_FFFF_FFFE
    ensures GoneRound(Next(s, e), n + 1)
  {
    var s' := Next(s, e);
    if e.Step? && s.pcs[e.t].Arriving? {
      if s.count == 1 {
        assert s'.pcs[e.t].Resetting?;
      }
    }
    if u :| 0 <= u < |s.pcs| && s.pcs[u].Resetting? && (e.Init? || e.t != u) {
      assert s'.pcs[u].Resetting?;
    }
  }

  lemma {:induction false} RunGoesRound(s: State, es: seq<Event>, n: nat)
    requires ValidRun(s, es) && GoneRound(s, n) && n + |es| < 0xFFFF_FFFF_FFFF_FFFF
    ensures GoneRound(End(s, es), n + |es|)
    decreases |es|
  {
    hide GoneRound; hide Next; hide Enabled;
    if es != [] {
      GoesRound(s, es[0], n);
      RunGoesRound(Next(s, es[0]), es[1..], n + 1);
    }
  }

  /** However the barrier is used, with `Init` or without: as long as fewer events have happened than the counter has
      values, never two threads take themselves for the last one at the same time. */
  lemma OneResets(s: State, es: seq<Event>, t: nat, u: nat)
    requires Initial(s) && ValidRun(s, es) && |es| < 0xFFFF_FFFF_FFFF_FFFF
    requires t < u < |End(s, es).pcs|
    ensures !(End(s, es).pcs[t].Resetting? && End(s, es).pcs[u].Resetting?)
  {
    RunGoesRound(s, es, 0);
  }

  // ---------- exactly when a further round works ----------

  lemma RunOfTwo(s: State, d: Event, e: Event)
    requires Enabled(s, d) && Enabled(Next(s, d), e)
    ensures ValidRun(s, [d, e]) && End(s, [d, e]) == Next(Next(s, d), e)
  {
    assert [d, e][1..] == [e] && [e][1..] == [];
    assert ValidRun(Next(s, d), [e]) && End(Next(s, d), [e]) == Next(Next(s, d), e);
  }

  /** Whoever arrives while the condition still stands from the round before returns at once, ahead of the others;
      otherwise nobody is ahead. */
  lemma ArrivalNeedsInit(s: State, r: nat, t: nat)
    requires Inv(s, r) && |s.pcs| >= 2 && t < |s.pcs| && s.pcs[t].Arriving?
    ensures ValidRun(s, [Step(t), Step(t)]) && (Together(End(s, [Step(t), Step(t)])) <==> !s.value)
  {
    RunOfTwo(s, Step(t), Step(t));
    var s1, s2 := Next(s, Step(t)), Next(Next(s, Step(t)), Step(t));
    if s.value {
      var u := if t == 0 then 1 else 0;
      assert s2.returned[t] == r + 2 && s2.arrived[u] == r + 1;
    } else {
      StepKeeps(s, r, Step(t));
      StepKeeps(s1, r, Step(t));
    }
  }

  function Calls(es: seq<Event>, t: nat): nat {
    if es == [] then 0 else (if es[0] == Call(t) then 1 else 0) + Calls(es[1..], t)
  }

  /** A round by itself: every thread calls `Wait` at most once, and nobody calls `Init`. */
  ghost predicate OneRound(s: State, es: seq<Event>) {
    && ValidRun(s, es)
    && (forall i | 0 <= i < |es| :: !es[i].Init?)
    && forall t :: Calls(es, t) <= 1
  }

  /** In such a round nobody is late for it twice, so the discipline is kept. */
  lemma {:induction false} RoundIsDisciplined(s: State, r: nat, es: seq<Event>)
    requires Inv(s, r) && ValidRun(s, es) && forall i | 0 <= i < |es| :: !es[i].Init?
    requires forall t | 0 <= t < |s.pcs| :: s.arrived[t] + (if s.pcs[t].Arriving? then 1 else 0) + Calls(es, t) <= r + 1
    ensures DisciplinedRun(s, es) && LastRound(s, r, es) == r
    decreases |es|
  {
    hide Inv;
    if es != [] {
      var e, s' := es[0], Next(s, es[0]);
      OnTime(s, r, es);
      StepKeeps(s, r, e);
      assert forall i | 0 < i < |es| :: es[i] == es[1..][i - 1];
      assert forall t | 0 <= t < |s.pcs| && e != Call(t) :: Calls(es, t) == Calls(es[1..], t);
      RoundIsDisciplined(s', r, es[1..]);
    }
  }

  lemma OnTime(s: State, r: nat, es: seq<Event>)
    requires Inv(s, r) && es != [] && Enabled(s, es[0]) && !es[0].Init?
    requires forall t | 0 <= t < |s.pcs| :: s.arrived[t] + (if s.pcs[t].Arriving? then 1 else 0) + Calls(es, t) <= r + 1
    ensures Disciplined(s, es[0]) && Sized(s) && Sized(Next(s, es[0])) && |Next(s, es[0]).pcs| == |s.pcs|
    ensures var s' := Next(s, es[0]);
            forall t | 0 <= t < |s.pcs| ::
              s'.arrived[t] + (if s'.pcs[t].Arriving? then 1 else 0) + Calls(es[1..], t) <= r + 1
  {
  }

  /** After a full round, nobody returns early from the next one, in any run of it, exactly if `Init` was called in
      between. */
  lemma NextRoundNeedsInit(s: State, r: nat, init: bool)
    requires Rested(s, r) && |s.pcs| >= 2
    ensures var s0 := if init then Next(s, Init) else s;
            (forall es | OneRound(s0, es) :: Together(End(s0, es))) <==> init
  {
    if init {
      var s0 := Next(s, Init);
      StepKeeps(s, r, Init);
      forall es | OneRound(s0, es) ensures Together(End(s0, es)) {
        RoundIsDisciplined(s0, r + 1, es);
        RunKeeps(s0, r + 1, es);
      }
    } else {
      var s1, es := Next(s, Call(0)), [Call(0), Step(0), Step(0)];
      StepKeeps(s, r, Call(0));
      ArrivalNeedsInit(s1, r, 0);
      assert es[1..] == [Step(0), Step(0)] && es[1..][1..] == [Step(0)] && es[1..][1..][1..] == [];
      assert forall t :: Calls([Step(0)], t) == 0;
      assert forall t :: Calls(es[1..], t) == 0;
      assert forall t :: Calls(es, t) <= 1;
      assert OneRound(s, es) && !Together(End(s, es));
    }
  }

  /** More threads are inside than the counter has room for, so it cannot reach zero. */
  ghost predicate Stalled(s: State) {
    && Sized(s)
    && !s.value && !s.failed
    && s.count + InsideCount(s.pcs) > |s.pcs|
    && forall t | 0 <= t < |s.pcs| :: !Finishing(s.pcs[t])
  }

  lemma StaysStalled(s: State, e: Event)
    requires Stalled(s) && Enabled(s, e)
    ensures Stalled(Next(s, e)) && Next(s, e).returned == s.returned && |Next(s, e).pcs| == |s.pcs|
    ensures forall t | 0 <= t < |s.pcs| && Inside(s.pcs[t]) :: Inside(Next(s, e).pcs[t])
  {
    if !e.Init? {
      var t, p := e.t, Next(s, e).pcs[e.t];
      InsideBounds(s.pcs);
      InsideUpdate(s.pcs, t, p);
      InsideBounds(s.pcs[t := Checking]);
      InsideUpdate(s.pcs, t, Checking);
    }
  }

  lemma {:induction false} StalledForEver(s: State, es: seq<Event>)
    requires Stalled(s) && ValidRun(s, es)
    ensures Stalled(End(s, es)) && End(s, es).returned == s.returned && |End(s, es).pcs| == |s.pcs|
    ensures forall t | 0 <= t < |s.pcs| && Inside(s.pcs[t]) :: Inside(End(s, es).pcs[t])
    decreases |es|
  {
    hide Stalled; hide Next;
    if es != [] {
      StaysStalled(s, es[0]);
      StalledForEver(Next(s, es[0]), es[1..]);
    }
  }

  lemma RunStarts(s: State, e: Event, es: seq<Event>)
    requires Enabled(s, e) && ValidRun(Next(s, e), es)
    ensures ValidRun(s, [e] + es) && End(s, [e] + es) == End(Next(s, e), es)
  {
    assert ([e] + es)[1..] == es;
  }

  lemma DisciplinedFirst(s: State, e: Event, es: seq<Event>)
    requires Enabled(s, e) && Disciplined(s, e) && ValidRun(Next(s, e), es) && DisciplinedRun(Next(s, e), es)
    ensures ValidRun(s, [e] + es) && End(s, [e] + es) == End(Next(s, e), es) && DisciplinedRun(s, [e] + es)
  {
    assert ([e] + es)[1..] == es;
  }

  /** Two threads, one of which has returned while the other has not noticed yet that the round is over: such states
      do occur. */
  lemma OneHasNotNoticed(s: State) returns (es: seq<Event>)
    requires Initial(s) && |s.pcs| == 2
    ensures ValidRun(s, es) && DisciplinedRun(s, es)
    ensures Inv(End(s, es), 0) && End(s, es).value && End(s, es).pcs == [Checking, Outside]
  {
    var s1 := Next(s, Call(0));
    var s2 := Next(s1, Step(0));
    var s3 := Next(s2, Call(1));
    var s4 := Next(s3, Step(1));
    var s5 := Next(s4, Step(1));
    var s6 := Next(s5, Step(1));
    assert s6.pcs == [Checking, Outside];
    es := [];
    DisciplinedFirst(s5, Step(1), es);
    es := [Step(1)] + es;
    DisciplinedFirst(s4, Step(1), es);
    es := [Step(1)] + es;
    DisciplinedFirst(s3, Step(1), es);
    es := [Step(1)] + es;
    DisciplinedFirst(s2, Call(1), es);
    es := [Call(1)] + es;
    DisciplinedFirst(s1, Step(0), es);
    es := [Step(0)] + es;
    DisciplinedFirst(s, Call(0), es);
    es := [Call(0)] + es;
    InitialInv(s);
    RunKeeps(s, 0, es);
    assert Inv(s6, 0);
  }

  lemma {:induction false} RunConcat(s: State, a: seq<Event>, e: Event)
    requires ValidRun(s, a) && DisciplinedRun(s, a) && Enabled(End(s, a), e) && Disciplined(End(s, a), e)
    ensures ValidRun(s, a + [e]) && End(s, a + [e]) == Next(End(s, a), e) && DisciplinedRun(s, a + [e])
    decreases |a|
  {
    hide Disciplined;
    if a == [] {
      assert a + [e] == [e] && [e][1..] == [];
    } else {
      assert (a + [e])[1..] == a[1..] + [e];
      RunConcat(Next(s, a[0]), a[1..], e);
    }
  }

  /** Once it has, the round has ended and everybody has left. */
  lemma TwoThreadsMeet(s: State) returns (es: seq<Event>)
    requires Initial(s) && |s.pcs| == 2
    ensures ValidRun(s, es) && DisciplinedRun(s, es) && Rested(End(s, es), 0)
  {
    hide Inv;
    es := OneHasNotNoticed(s);
    StepKeeps(End(s, es), 0, Step(0));
    SizeKept(End(s, es), 0);
    RunConcat(s, es, Step(0));
    es := es + [Step(0)];
  }

  lemma SizeKept(s: State, r: nat)
    requires Inv(s, r)
    ensures Sized(s)
  {
  }

  /** From a round that gathers there is always a way to the first return. */
  lemma {:induction false} SomebodyCanReturn(s: State, r: nat) returns (es: seq<Event>)
    requires Inv(s, r) && !s.value && s.pcs != []
    ensures ValidRun(s, es) && End(s, es).returned != s.returned
    decreases |s.pcs| - InsideCount(s.pcs), if exists t :: 0 <= t < |s.pcs| && s.pcs[t].Arriving? then 0 else 1,
              if exists t :: 0 <= t < |s.pcs| && s.pcs[t].Resetting? then 1 else 0
  {
    InsideBounds(s.pcs);
    var e: Event;
    if InsideCount(s.pcs) == |s.pcs| {
      var t :| 0 <= t < |s.pcs| && Finishing(s.pcs[t]);
      e := Step(t);
      if s.pcs[t].Satisfying? {
        es := [e];
        assert ValidRun(Next(s, e), []);
        RunStarts(s, e, []);
        assert [e] + [] == [e] && End(s, es).returned[t] == s.returned[t] + 1;
        return;
      }
      InsideUpdate(s.pcs, t, Satisfying);
    } else if t :| 0 <= t < |s.pcs| && s.pcs[t].Arriving? {
      e := Step(t);
      InsideUpdate(s.pcs, t, Next(s, e).pcs[t]);
    } else {
      var t :| 0 <= t < |s.pcs| && !Inside(s.pcs[t]);
      e := Call(t);
      InsideUpdate(s.pcs, t, Arriving);
      assert Next(s, e).pcs[t].Arriving?;
    }
    StepKeeps(s, r, e);
    es := SomebodyCanReturn(Next(s, e), r);
    RunStarts(s, e, es);
    es := [e] + es;
  }

  /** If `Init` comes while a thread of the old round has not noticed yet that the round is over, that thread goes
      back to sleep, the counter never reaches zero again, and no `Wait` returns any more, whatever happens; and
      only then.  If it comes when all have noticed, the next round starts as the first did. */
  lemma InitTooEarly(s: State, r: nat)
    requires Inv(s, r) && s.value && s.pcs != []
    ensures (forall es | ValidRun(Next(s, Init), es) :: End(Next(s, Init), es).returned == s.returned)
            <==> exists t :: 0 <= t < |s.pcs| && s.pcs[t].Checking?
    ensures Inv(Next(s, Init), r + 1) <==> !exists t :: 0 <= t < |s.pcs| && s.pcs[t].Checking?
  {
    var s0 := Next(s, Init);
    InsideBounds(s.pcs);
    if t :| 0 <= t < |s.pcs| && s.pcs[t].Checking? {
      assert Inside(s.pcs[t]) && s.returned[t] == r;
      forall es | ValidRun(s0, es) ensures End(s0, es).returned == s.returned {
        StalledForEver(s0, es);
      }
    } else {
      InitKeeps(s, r);
      var es := SomebodyCanReturn(s0, r + 1);
    }
  }

  // ---------- runs end ----------

  function Work(n: nat, p: Pc): nat {
    match p
    case Outside => 0
    case Arriving => n + 5
    case Resetting => n + 4
    case Satisfying => n + 3
    case Checking => 2
    case Sleeping => 1
  }

  function TotalWork(n: nat, pcs: seq<Pc>): nat {
    if pcs == [] then 0 else Work(n, pcs[0]) + TotalWork(n, pcs[1..])
  }

  lemma {:induction false} WorkUpdate(n: nat, pcs: seq<Pc>, t: nat, p: Pc)
    requires t < |pcs|
    ensures TotalWork(n, pcs[t := p]) == TotalWork(n, pcs) - Work(n, pcs[t]) + Work(n, p)
  {
    if t > 0 {
      assert pcs[t := p][1..] == pcs[1..][t - 1 := p];
      WorkUpdate(n, pcs[1..], t - 1, p);
    }
  }

  lemma {:induction false} WorkOfWaking(n: nat, pcs: seq<Pc>)
    ensures TotalWork(n, WakeAll(pcs)) <= TotalWork(n, pcs) + |pcs|
  {
    if pcs != [] {
      assert WakeAll(pcs)[1..] == WakeAll(pcs[1..]);
      WorkOfWaking(n, pcs[1..]);
    }
  }

  /** What an event may add to the work that is left, and one for itself. */
  function Cost(n: nat, e: Event): nat {
    match e
    case Init => 1
    case Call(_) => n + 6
    case Step(_) => 0
    case SpuriousWakeup(_) => 2
  }

  function Costs(n: nat, es: seq<Event>): nat {
    if es == [] then 0 else Cost(n, es[0]) + Costs(n, es[1..])
  }

  lemma WorkShrinks(s: State, e: Event)
    requires Enabled(s, e)
    ensures |Next(s, e).pcs| == |s.pcs|
    ensures TotalWork(|s.pcs|, Next(s, e).pcs) + 1 <= TotalWork(|s.pcs|, s.pcs) + Cost(|s.pcs|, e)
  {
    hide TotalWork;
    var n, s' := |s.pcs|, Next(s, e);
    if e.Step? && s.pcs[e.t].Satisfying? {
      WorkOfWaking(n, s.pcs);
      WorkUpdate(n, WakeAll(s.pcs), e.t, Outside);
    } else if !e.Init? {
      WorkUpdate(n, s.pcs, e.t, s'.pcs[e.t]);
    }
  }

  /** Only calls, spurious wakeups and `Init` can keep a run going. */
  lemma {:induction false} RunsAreBounded(s: State, es: seq<Event>)
    requires ValidRun(s, es)
    ensures |es| <= TotalWork(|s.pcs|, s.pcs) + Costs(|s.pcs|, es)
    decreases |es|
  {
    if es != [] {
      WorkShrinks(s, es[0]);
      RunsAreBounded(Next(s, es[0]), es[1..]);
    }
  }
}
