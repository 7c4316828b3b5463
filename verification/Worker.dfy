/** Periodic workers and their normalised wake-up times. */
module Workers {

  const NANOS_PER_SECOND := 1_000_000_000

  /** A `timespec`. */
  datatype Timespec = Timespec(sec: int, nsec: int)

  predicate Normal(t: Timespec) {
    0 <= t.nsec < NANOS_PER_SECOND
  }

  function Nanos(t: Timespec): int {
    t.sec * NANOS_PER_SECOND + t.nsec
  }

  /** The two-field comparison that the workers use. */
  predicate Earlier(a: Timespec, b: Timespec) {
    a.sec < b.sec || (a.sec == b.sec && a.nsec < b.nsec)
  }

  /** On normalised times the comparison of the fields is the order of time. */
  lemma EarlierIsLess(a: Timespec, b: Timespec)
    requires Normal(a) && Normal(b)
    ensures Earlier(a, b) <==> Nanos(a) < Nanos(b)
    ensures a == b <==> Nanos(a) == Nanos(b)
  {
    if a.sec < b.sec {
      assert Nanos(a) < (a.sec + 1) * NANOS_PER_SECOND <= Nanos(b);
    } else if b.sec < a.sec {
      assert Nanos(b) < (b.sec + 1) * NANOS_PER_SECOND <= Nanos(a);
    }
  }

  function AddNanos(t: Timespec, period: nat): (r: Timespec)
    requires Normal(t)
    ensures Normal(r) && Nanos(r) == Nanos(t) + period
  {
    var nsec := t.nsec + period;
    if nsec > 999999999 then Timespec(t.sec + nsec / NANOS_PER_SECOND, nsec % NANOS_PER_SECOND)
    else Timespec(t.sec, nsec)
  }

  /** The monotonic clock: what each reading of a run returns. */
  class Clock {
    const reading: nat -> Timespec
    var count: nat

    constructor (reading: nat -> Timespec)
      ensures this.reading == reading && count == 0
    {
      this.reading := reading;
      count := 0;
    }

    ghost predicate Monotonic() {
      && (forall i: nat :: Normal(reading(i)))
      && (forall i: nat, j: nat | i <= j :: Nanos(reading(i)) <= Nanos(reading(j)))
    }

    /** No later reading is before `t`. */
    ghost predicate Reached(t: Timespec)
      reads this
    {
      Normal(t) && forall i: nat | i >= count :: Nanos(t) <= Nanos(reading(i))
    }

    method Now() returns (t: Timespec)
      requires Monotonic()
      modifies this
      ensures count == old(count) + 1 && t == reading(old(count)) && Reached(t)
    {
      t := reading(count);
      count := count + 1;
    }
  }

  /** The time of the next run: one period later, or one period after the clock if that has passed already. */
  function NextWake(wake: int, period: nat, now: int, clock: int): int {
    if period == 0 then wake
    else if wake + period < now then clock + period
    else wake + period
  }

  class Worker {
    const period: nat
    var wake: Timespec

    constructor (period: nat, clock: Clock)
      requires clock.Monotonic()
      modifies clock
      ensures this.period == period && wake == clock.reading(old(clock.count)) && clock.count == old(clock.count) + 1
    {
      this.period := period;
      wake := Timespec(0, 0);
      new;
      ResetWakeTime(clock);
    }

    method ResetWakeTime(clock: Clock)
      requires clock.Monotonic()
      modifies this`wake, clock
      ensures clock.count == old(clock.count) + 1 && wake == clock.reading(old(clock.count)) && clock.Reached(wake)
    {
      wake := clock.Now();
    }

    method UpdateWorkerTime(now: Timespec, clock: Clock)
      requires Normal(wake) && clock.Monotonic() && clock.Reached(now)
      modifies this`wake, clock
      ensures Normal(wake)
      ensures Nanos(wake) == NextWake(Nanos(old(wake)), period, Nanos(now), Nanos(clock.reading(old(clock.count))))
      ensures period == 0 ==> wake == old(wake)
      ensures period > 0 && Nanos(now) <= Nanos(old(wake)) + period ==> Nanos(wake) == Nanos(old(wake)) + period
      ensures Nanos(old(wake)) + period < Nanos(now) && period > 0 ==>
                Nanos(wake) == Nanos(clock.reading(old(clock.count))) + period
      ensures clock.Reached(now)
      ensures clock.count == old(clock.count) + if period > 0 && Nanos(old(wake)) + period < Nanos(now) then 1 else 0
      decreases if Nanos(wake) + period < Nanos(now) then 1 else 0
    {
      hide Nanos; hide Clock.Monotonic; hide Earlier; hide Normal;
      if period <= 0 {
        return;
      }
      wake := AddNanos(wake, period);
      EarlierIsLess(wake, now);
      if Earlier(wake, now) {
        ResetWakeTime(clock);
        UpdateWorkerTime(now, clock);
      }
    }

    predicate IsExpired(now: Timespec)
      reads this
    {
      now.sec > wake.sec || (now.sec == wake.sec && now.nsec >= wake.nsec)
    }
  }
}
