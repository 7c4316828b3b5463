/** `sync::any`: the first of several tasks to finish resumes the awaiting coroutine.

    Tasks race on `Context::used`.  A task that is not handed to an executor (`is_inline`) runs to its end
    while it is spawned; all others run at any time.  One step per access to the shared context. */
module AnyRace {
  import opened Wrappers

  /** Which tasks are inline, and whether the executor to resume on is valid. */
  datatype Setup = Setup(isInline: seq<bool>, executorValid: bool)

  datatype TaskPc =
    | NotSpawned
    | Running
    | Won                    // TryResume returned true
    | Handled                // the final handler has run
    | Stored                 // the result is in place
    | Finished(won: bool)

  datatype MainPc =
    | Spawning(i: nat)       // DoSuspend
    | InSpawn(i: nat)        // an inline task is running inside its spawn
    | CheckDone              // await_suspend, after DoSuspend
    | CheckInline
    | Returned(suspended: bool)

  datatype State = State(
    used: bool,
    result: Option<nat>,
    inlineResume: bool,
    main: MainPc,
    tasks: seq<TaskPc>,
    handlers: nat,           // how often a final handler ran
    posted: nat,             // resumptions posted to the executor, not yet run
    resumes: nat)            // how often the coroutine was resumed

  datatype Event = Main | Task(i: nat) | Deliver

  predicate Active(p: TaskPc) {
    p.Running? || p.Won? || p.Handled? || p.Stored?
  }

  predicate Enabled(c: Setup, s: State, e: Event) {
    match e
    case Main =>
      (match s.main
       case Spawning(i) => i <= |s.tasks| == |c.isInline|
       case InSpawn(i) => i < |s.tasks| && s.tasks[i].Finished?
       case CheckDone => true
       case CheckInline => true
       case Returned(_) => false)
    case Task(i) => i < |s.tasks| == |c.isInline| && Active(s.tasks[i])
    case Deliver => s.posted > 0
  }

  function Next(c: Setup, s: State, e: Event): State
    requires Enabled(c, s, e)
  {
    match e
    case Deliver => s.(posted := s.posted - 1, resumes := s.resumes + 1)
    case Main =>
      (match s.main
       case Spawning(i) =>
         if i == |s.tasks| then s.(main := CheckDone)
         else s.(tasks := s.tasks[i := Running], main := if c.isInline[i] then InSpawn(i) else Spawning(i + 1))
       case InSpawn(i) => s.(main := Spawning(i + 1))
       case CheckDone => s.(main := if s.used then CheckInline else Returned(true))
       case CheckInline =>
         s.(main := Returned(!s.inlineResume), resumes := if s.inlineResume then s.resumes + 1 else s.resumes))
    case Task(i) =>
      (match s.tasks[i]
       case Running => s.(used := true, tasks := s.tasks[i := if s.used then Finished(false) else Won])
       case Won => s.(handlers := s.handlers + 1, tasks := s.tasks[i := Handled])
       case Handled => s.(result := Some(i), tasks := s.tasks[i := Stored])
       case Stored =>
         var s' := s.(tasks := s.tasks[i := Finished(true)]);
         if c.isInline[i] then s'.(inlineResume := true)
         else if c.executorValid then s'.(posted := s.posted + 1)
         else s'.(resumes := s.resumes + 1)
       case _ => s)
  }

  ghost predicate Initial(c: Setup, s: State) {
    && |c.isInline| > 0
    && |s.tasks| == |c.isInline|
    && (forall i | 0 <= i < |s.tasks| :: s.tasks[i] == NotSpawned)
    && s == State(false, None, false, Spawning(0), s.tasks, 0, 0, 0)
  }

  // ---------- the invariant ----------

  predicate Winning(p: TaskPc) {
    p.Won? || p.Handled? || p.Stored? || p == Finished(true)
  }

  /** How many tasks have been spawned. */
  function Spawned(c: Setup, s: State): nat {
    match s.main
    case Spawning(i) => i
    case InSpawn(i) => i + 1
    case _ => |s.tasks|
  }

  /** What has happened to the coroutine once the winner has reached `p`. */
  ghost predicate OutcomeAgrees(c: Setup, s: State, w: nat, p: TaskPc)
    requires w < |c.isInline|
  {
    && s.handlers == (if p.Won? then 0 else 1)
    && s.result == (if p.Won? || p.Handled? then None else Some(w))
    && s.inlineResume == (p.Finished? && c.isInline[w])
    && (if c.isInline[w] then s.posted == 0 && s.resumes == (if s.main == Returned(false) then 1 else 0)
        else s.posted + s.resumes == (if p.Finished? then 1 else 0))
    && (p.Finished? && c.isInline[w] ==> s.main != Returned(true))
    && (!c.isInline[w] ==> s.main != Returned(false))
  }

  ghost predicate Inv(c: Setup, s: State, winner: Option<nat>) {
    && |s.tasks| == |c.isInline| && |s.tasks| > 0
    && Spawned(c, s) <= |s.tasks|
    && (forall i | 0 <= i < |s.tasks| :: s.tasks[i].NotSpawned? <==> i >= Spawned(c, s))
    && (forall i | 0 <= i < |s.tasks| && c.isInline[i] && Active(s.tasks[i]) :: s.main == InSpawn(i))
    && (s.used <==> winner.Some?)
    && (s.main.CheckInline? ==> s.used)
    && (forall i | 0 <= i < |s.tasks| :: Winning(s.tasks[i]) <==> winner == Some(i))
    && (forall i | 0 <= i < |s.tasks| && s.tasks[i].Finished? :: s.used)
    && match winner
       case None =>
         && s.handlers == s.posted == s.resumes == 0 && s.result.None?
         && !s.inlineResume && s.main != Returned(false)
       case Some(w) => w < |s.tasks| && OutcomeAgrees(c, s, w, s.tasks[w])
  }

  function NextWinner(s: State, winner: Option<nat>, e: Event): Option<nat> {
    if e.Task? && e.i < |s.tasks| && s.tasks[e.i].Running? && !s.used then Some(e.i) else winner
  }

  lemma MainKeeps(c: Setup, s: State, winner: Option<nat>)
    requires Inv(c, s, winner) && Enabled(c, s, Main)
    ensures Inv(c, Next(c, s, Main), winner)
  {
    var s' := Next(c, s, Main);
    match s.main
    case Spawning(i) =>
      if i < |s.tasks| {
        assert Spawned(c, s') == i + 1;
        assert s.tasks[i].NotSpawned?;
      }
    case InSpawn(i) =>
    case CheckDone =>
    case CheckInline =>
  }

  lemma DeliverKeeps(c: Setup, s: State, winner: Option<nat>)
    requires Inv(c, s, winner) && Enabled(c, s, Deliver)
    ensures Inv(c, Next(c, s, Deliver), winner)
  {
  }

  lemma RaceKeeps(c: Setup, s: State, winner: Option<nat>, i: nat)
    requires Inv(c, s, winner) && Enabled(c, s, Task(i)) && s.tasks[i].Running?
    ensures Inv(c, Next(c, s, Task(i)), NextWinner(s, winner, Task(i)))
  {
  }

  lemma WinnerKeeps(c: Setup, s: State, winner: Option<nat>, i: nat)
    requires Inv(c, s, winner) && Enabled(c, s, Task(i)) && !s.tasks[i].Running?
    ensures Inv(c, Next(c, s, Task(i)), winner)
  {
  }

  lemma StepKeeps(c: Setup, s: State, winner: Option<nat>, e: Event)
    requires Inv(c, s, winner) && Enabled(c, s, e)
    ensures Inv(c, Next(c, s, e), NextWinner(s, winner, e))
  {
    hide Inv;
    match e
    case Main => MainKeeps(c, s, winner);
    case Deliver => DeliverKeeps(c, s, winner);
    case Task(i) => if s.tasks[i].Running? { RaceKeeps(c, s, winner, i); } else { WinnerKeeps(c, s, winner, i); }
  }

  // ---------- runs ----------

  predicate ValidRun(c: Setup, s: State, es: seq<Event>)
    decreases |es|
  {
    es == [] || (Enabled(c, s, es[0]) && ValidRun(c, Next(c, s, es[0]), es[1..]))
  }

  function End(c: Setup, s: State, es: seq<Event>): State
    requires ValidRun(c, s, es)
    decreases |es|
  {
    if es == [] then s else End(c, Next(c, s, es[0]), es[1..])
  }

  lemma {:induction false} RunKeeps(c: Setup, s: State, winner: Option<nat>, es: seq<Event>)
    returns (winner': Option<nat>)
    requires Inv(c, s, winner) && ValidRun(c, s, es)
    ensures Inv(c, End(c, s, es), winner')
    decreases |es|
  {
    hide Inv; hide Next; hide Enabled; hide NextWinner;
    winner' := winner;
    if es != [] {
      StepKeeps(c, s, winner, es[0]);
      winner' := RunKeeps(c, Next(c, s, es[0]), NextWinner(s, winner, es[0]), es[1..]);
    }
  }

  /** The coroutine is never resumed twice and at most one final handler runs; when a resumption has happened
      or is on its way, the result names the one task that won the race, and that task has finished. */
  lemma ResumedAtMostOnce(c: Setup, s: State, es: seq<Event>)
    requires Initial(c, s) && ValidRun(c, s, es)
    ensures var s' := End(c, s, es);
            && s'.resumes + s'.posted <= 1 && s'.handlers <= 1
            && (s'.resumes + s'.posted == 1 ==>
                  && s'.handlers == 1
                  && s'.result.Some? && s'.result.value < |s'.tasks| && s'.tasks[s'.result.value] == Finished(true)
                  && forall i | 0 <= i < |s'.tasks| :: Winning(s'.tasks[i]) ==> i == s'.result.value)
  {
    var winner := RunKeeps(c, s, None, es);
    if winner.Some? {
      assert Winning(End(c, s, es).tasks[winner.value]);
    }
  }

  /** Once `await_suspend` has returned and the winner has finished, the coroutine is resumed exactly once:
      right away if the winner was inline, and by one posted resumption otherwise, never both. */
  lemma ResumedExactlyOnce(c: Setup, s: State, es: seq<Event>, w: nat)
    requires Initial(c, s) && ValidRun(c, s, es)
    requires End(c, s, es).main.Returned? && w < |End(c, s, es).tasks| && End(c, s, es).tasks[w] == Finished(true)
    ensures var s' := End(c, s, es);
            && s'.resumes + s'.posted == 1
            && |c.isInline| == |s'.tasks|
            && (s'.main == Returned(false) <==> c.isInline[w])
            && (c.isInline[w] ==> s'.resumes == 1)
            && s'.result == Some(w)
  {
    var winner := RunKeeps(c, s, None, es);
    assert winner == Some(w);
  }

  /** When nothing more can happen every task is finished and the coroutine has been resumed exactly once. */
  lemma QuietMeansResumed(c: Setup, s: State, es: seq<Event>)
    requires Initial(c, s) && ValidRun(c, s, es)
    requires forall e :: !Enabled(c, End(c, s, es), e)
    ensures var s' := End(c, s, es);
            && s'.resumes == 1 && s'.handlers == 1
            && (forall i | 0 <= i < |s'.tasks| :: s'.tasks[i].Finished?)
            && s'.result.Some? && s'.result.value < |s'.tasks| && s'.tasks[s'.result.value] == Finished(true)
  {
    var winner := RunKeeps(c, s, None, es);
    var s' := End(c, s, es);
    assert !Enabled(c, s', Main) && !Enabled(c, s', Deliver);
    forall i | 0 <= i < |s'.tasks| ensures s'.tasks[i].Finished? || s'.tasks[i].NotSpawned? {
      assert !Enabled(c, s', Task(i));
    }
    assert s'.tasks[0].Finished?;
    assert Winning(s'.tasks[winner.value]);
  }

  function Deliveries(es: seq<Event>): nat {
    if es == [] then 0 else (if es[0].Deliver? then 1 else 0) + Deliveries(es[1..])
  }

  /** Everything that was posted has been delivered or is still on its way, and only with a valid executor is anything
      posted. */
  lemma {:induction false} PostedIsDelivered(c: Setup, s: State, es: seq<Event>, before: nat)
    requires ValidRun(c, s, es) && Posting(c, s, before)
    ensures Posting(c, End(c, s, es), before + Deliveries(es))
    decreases |es|
  {
    hide Posting;
    if es != [] {
      PostingKeeps(c, s, es[0], before);
      PostedIsDelivered(c, Next(c, s, es[0]), es[1..], before + if es[0].Deliver? then 1 else 0);
    }
  }

  /** With an executor only deliveries resume, but for the coroutine itself; without one nothing is posted. */
  ghost predicate Posting(c: Setup, s: State, delivered: nat) {
    if c.executorValid then s.resumes == delivered + if s.main == Returned(false) then 1 else 0
    else s.posted == 0 && delivered == 0
  }

  lemma PostingKeeps(c: Setup, s: State, e: Event, delivered: nat)
    requires Enabled(c, s, e) && Posting(c, s, delivered)
    ensures Posting(c, Next(c, s, e), delivered + if e.Deliver? then 1 else 0)
  {
  }

  /** Where the coroutine is resumed: in `await_suspend` if the winner was inline, by what is posted to the executor if
      that is valid, and otherwise by the winner itself. */
  lemma ResumedWhere(c: Setup, s: State, es: seq<Event>, w: nat)
    requires Initial(c, s) && ValidRun(c, s, es)
    requires End(c, s, es).main.Returned? && w < |End(c, s, es).tasks| && End(c, s, es).tasks[w] == Finished(true)
    ensures var s' := End(c, s, es);
            && |c.isInline| == |s'.tasks|
            && if c.isInline[w] then s'.resumes == 1 && s'.posted == 0 && Deliveries(es) == 0
               else if c.executorValid then s'.resumes == Deliveries(es) && s'.posted == 1 - Deliveries(es)
               else s'.resumes == 1 && s'.posted == 0 && Deliveries(es) == 0
  {
    ResumedExactlyOnce(c, s, es, w);
    PostedIsDelivered(c, s, es, 0);
  }

  // ---------- every run comes to an end ----------

  function TaskSteps(p: TaskPc): nat {
    match p
    case NotSpawned => 5
    case Running => 5
    case Won => 4
    case Handled => 3
    case Stored => 2
    case Finished(_) => 0
  }

  function TasksSteps(ts: seq<TaskPc>): nat {
    if ts == [] then 0 else TaskSteps(ts[0]) + TasksSteps(ts[1..])
  }

  function MainSteps(n: nat, m: MainPc): int {
    match m
    case Spawning(i) => 2 * (n - i) + 3
    case InSpawn(i) => 2 * (n - i) + 2
    case CheckDone => 2
    case CheckInline => 1
    case Returned(_) => 0
  }

  function StepsLeft(s: State): int {
    MainSteps(|s.tasks|, s.main) + TasksSteps(s.tasks) + s.posted
  }

  lemma {:induction false} UpdateSteps(ts: seq<TaskPc>, i: nat, p: TaskPc)
    requires i < |ts|
    ensures TasksSteps(ts[i := p]) == TasksSteps(ts) - TaskSteps(ts[i]) + TaskSteps(p)
  {
    if i > 0 {
      assert ts[i := p][1..] == ts[1..][i - 1 := p];
      UpdateSteps(ts[1..], i - 1, p);
    }
  }

  lemma MainStepsDecrease(c: Setup, s: State)
    requires Enabled(c, s, Main) && Spawned(c, s) <= |s.tasks|
    requires s.main.Spawning? && s.main.i < |s.tasks| ==> s.tasks[s.main.i].NotSpawned?
    ensures StepsLeft(Next(c, s, Main)) < StepsLeft(s)
  {
    if s.main.Spawning? && s.main.i < |s.tasks| {
      UpdateSteps(s.tasks, s.main.i, Running);
    }
  }

  lemma TaskStepsDecrease(c: Setup, s: State, i: nat)
    requires Enabled(c, s, Task(i))
    ensures StepsLeft(Next(c, s, Task(i))) < StepsLeft(s)
  {
    hide TasksSteps;
    UpdateSteps(s.tasks, i, Next(c, s, Task(i)).tasks[i]);
  }

  lemma StepsDecrease(c: Setup, s: State, winner: Option<nat>, e: Event)
    requires Inv(c, s, winner) && Enabled(c, s, e)
    ensures StepsLeft(Next(c, s, e)) < StepsLeft(s)
  {
    hide OutcomeAgrees; hide TasksSteps; hide MainSteps; hide Winning;
    match e
    case Main => MainStepsDecrease(c, s);
    case Deliver =>
    case Task(i) => TaskStepsDecrease(c, s, i);
  }

  lemma {:induction false} StepsBoundRun(c: Setup, s: State, winner: Option<nat>, es: seq<Event>)
    requires Inv(c, s, winner) && ValidRun(c, s, es)
    ensures |es| <= StepsLeft(s)
    decreases |es|
  {
    hide Inv; hide Next; hide Enabled; hide NextWinner; hide StepsLeft;
    if es == [] {
      StepsAreLeft(c, s, winner);
    } else {
      StepKeeps(c, s, winner, es[0]);
      StepsDecrease(c, s, winner, es[0]);
      StepsBoundRun(c, Next(c, s, es[0]), NextWinner(s, winner, es[0]), es[1..]);
    }
  }

  lemma StepsAreLeft(c: Setup, s: State, winner: Option<nat>)
    requires Inv(c, s, winner)
    ensures StepsLeft(s) >= 0
  {
  }

  lemma {:induction false} FreshSteps(ts: seq<TaskPc>)
    requires forall i | 0 <= i < |ts| :: ts[i] == NotSpawned
    ensures TasksSteps(ts) == 5 * |ts|
  {
    if ts != [] {
      FreshSteps(ts[1..]);
    }
  }

  /** However the tasks are scheduled, the race is over after seven steps per task and three more. */
  lemma EveryRunEnds(c: Setup, s: State, es: seq<Event>)
    requires Initial(c, s) && ValidRun(c, s, es)
    ensures |es| <= 7 * |s.tasks| + 3
  {
    FreshSteps(s.tasks);
    StepsBoundRun(c, s, None, es);
  }
}
