/** `TopicHzCalculator`: the rate of a topic over a sliding window of the gaps between its messages.  Doubles are
    taken as reals. */
module TopicHz {

  /** `TimePoint::min()`, in nanoseconds. */
  const MIN_TIME: int := -0x8000_0000_0000_0000

  const DEFAULT_TIMEOUT := 2_000_000_000.0
  const NANOS := 1_000_000_000.0

  // ---------- sums, means, extremes ----------

  function Sum(s: seq<int>): int {
    if s == [] then 0 else Sum(s[..|s| - 1]) + s[|s| - 1]
  }

  function Mean(s: seq<int>): real
    requires s != []
  {
    Sum(s) as real / |s| as real
  }

  function Square(x: real): real {
    x * x
  }

  function SquaredDeviations(s: seq<int>, mean: real): real {
    if s == [] then 0.0
    else SquaredDeviations(s[..|s| - 1], mean) + Square(s[|s| - 1] as real - mean)
  }

  /** What the standard deviation is the root of. */
  function Variance(s: seq<int>): real
    requires s != []
  {
    SquaredDeviations(s, Mean(s)) / |s| as real
  }

  function Least(s: seq<int>): (m: int)
    requires s != []
    ensures m in s && forall x | x in s :: m <= x
  {
    if |s| == 1 then s[0]
    else
      assert s == [s[0]] + s[1..];
      var m := Least(s[1..]);
      if m < s[0] then m else s[0]
  }

  function Greatest(s: seq<int>): (m: int)
    requires s != []
    ensures m in s && forall x | x in s :: x <= m
  {
    if |s| == 1 then s[0]
    else
      assert s == [s[0]] + s[1..];
      var m := Greatest(s[1..]);
      if s[0] < m then m else s[0]
  }

  // ---------- one topic ----------

  datatype Topic = Topic(msgT0: int, msgTn: int, times: seq<int>, active: bool)

  const UNSEEN := Topic(MIN_TIME, MIN_TIME, [], false)

  datatype Stats = Stats(
    rate: real, minDelta: real, maxDelta: real, stdDev: real,
    maxWindow: nat, windowSize: nat, timeout: real, active: bool)

  function NoStats(window: nat, active: bool): Stats {
    Stats(0.0, 0.0, 0.0, 0.0, window, 0, 0.0, active)
  }

  /** The window after a push, one element shorter if it has grown too long. */
  function Trimmed(times: seq<int>, window: nat): seq<int> {
    if |times| > window then times[1..] else times
  }

  function Feed(t: Topic, now: int, window: nat): Topic {
    if now == MIN_TIME then t.(active := true, times := [])
    else if t.msgT0 == MIN_TIME || t.msgT0 > now then Topic(now, now, [], true)
    else Topic(t.msgT0, now, Trimmed(t.times + [now - t.msgTn], window), true)
  }

  /** The standard deviation, with the given square root. */
  function Deviation(times: seq<int>, root: real -> real): real
    requires times != []
  {
    root(Variance(times))
  }

  function Timeout(times: seq<int>, root: real -> real): real
    requires times != []
  {
    var slow := Mean(times) + 5.0 * Deviation(times, root);
    if slow < DEFAULT_TIMEOUT then DEFAULT_TIMEOUT else slow
  }

  predicate TimedOut(times: seq<int>, last: int, now: int, root: real -> real) {
    times != [] && (now - last) as real > Timeout(times, root)
  }

  function Asked(t: Topic, now: int, root: real -> real): Topic {
    if TimedOut(t.times, t.msgTn, now, root) then Topic(MIN_TIME, MIN_TIME, [], t.active) else t
  }

  /** The numbers reported; after a timeout they are still in nanoseconds. */
  function Reported(t: Topic, now: int, window: nat, root: real -> real): Stats {
    if t.times == [] then NoStats(window, t.active)
    else
      var mean := Mean(t.times);
      var least, greatest := Least(t.times) as real, Greatest(t.times) as real;
      var timeout := Timeout(t.times, root);
      if TimedOut(t.times, t.msgTn, now, root)
      then Stats(0.0, least, greatest, Deviation(t.times, root), window, |t.times|, timeout, t.active)
      else Stats((if mean > 0.0 then 1.0 / mean else 0.0) * NANOS,
                 least / NANOS, greatest / NANOS, Deviation(t.times, root) / NANOS, window, |t.times|,
                 timeout / NANOS, t.active)
  }

  class TopicData {
    var msgT0: int
    var msgTn: int
    var times: seq<int>
    var active: bool

    ghost function View(): Topic
      reads this
    {
      Topic(msgT0, msgTn, times, active)
    }

    constructor ()
      ensures View() == UNSEEN
    {
      msgT0, msgTn, times, active := MIN_TIME, MIN_TIME, [], false;
    }

    method FeedTopic(now: int, window: nat)
      modifies this
      ensures View() == Feed(old(View()), now, window)
    {
      if !active {
        active := true;
      }
      if now == MIN_TIME {
        if times != [] {
          times := [];
        }
        return;
      }
      if msgT0 == MIN_TIME || msgT0 > now {
        msgT0 := now;
        msgTn := now;
        times := [];
      } else {
        times := times + [now - msgTn];
        msgTn := now;
      }
      if |times| > window {
        times := times[1..];
      }
    }

    /** `root` is the square root. */
    method Calculate(now: int, window: nat, root: real -> real) returns (stats: Stats)
      modifies this
      ensures View() == Asked(old(View()), now, root)
      ensures stats == Reported(old(View()), now, window, root)
    {
      stats := NoStats(window, active);
      if times == [] {
        return;
      }
      var mean := Mean(times);
      stats := stats.(rate := if mean > 0.0 then 1.0 / mean else 0.0, stdDev := root(Variance(times)));
      stats := stats.(maxDelta := Greatest(times) as real, minDelta := Least(times) as real, windowSize := |times|);
      var sinceLast := now - msgTn;
      var timeout := if mean + 5.0 * stats.stdDev < 2_000_000_000.0 then 2_000_000_000.0 else mean + 5.0 * stats.stdDev;
      stats := stats.(timeout := timeout);
      if sinceLast as real > timeout {
        stats := stats.(rate := 0.0);
        times := [];
        msgT0 := MIN_TIME;
        msgTn := MIN_TIME;
        return;
      }
      stats := stats.(rate := stats.rate * 1_000_000_000.0, stdDev := stats.stdDev / 1_000_000_000.0,
                      minDelta := stats.minDelta / 1_000_000_000.0, maxDelta := stats.maxDelta / 1_000_000_000.0,
                      timeout := stats.timeout / 1_000_000_000.0);
    }
  }

  // ---------- what the window holds ----------

  /** All arrivals since the last reset, and the time of the first message after it. */
  datatype History = History(epoch: int, arrivals: seq<int>)

  datatype Event =
    | Message(now: int)
    | Question(now: int, root: real -> real)

  function Gaps(arrivals: seq<int>): (gaps: seq<int>)
    ensures |gaps| == if arrivals == [] then 0 else |arrivals| - 1
  {
    if |arrivals| <= 1 then []
    else Gaps(arrivals[..|arrivals| - 1]) + [arrivals[|arrivals| - 1] - arrivals[|arrivals| - 2]]
  }

  function LastOf<T>(s: seq<T>, n: nat): seq<T> {
    if |s| <= n then s else s[|s| - n..]
  }

  /** The gaps between the last messages, at most `window` of them. */
  function WindowOf(arrivals: seq<int>, window: nat): seq<int> {
    LastOf(Gaps(arrivals), window)
  }

  /** A message counts from the last reset on; a clock that shows less than at the first message resets. */
  function Remember(h: History, e: Event, window: nat): History {
    match e
    case Message(now) =>
      if now == MIN_TIME then h.(arrivals := LastOf(h.arrivals, 1))
      else if h.arrivals == [] || h.epoch > now then History(now, [now])
      else h.(arrivals := h.arrivals + [now])
    case Question(now, root) =>
      if h.arrivals != [] && TimedOut(WindowOf(h.arrivals, window), h.arrivals[|h.arrivals| - 1], now, root)
      then History(MIN_TIME, [])
      else h
  }

  function Step(t: Topic, e: Event, window: nat): Topic {
    match e
    case Message(now) => Feed(t, now, window)
    case Question(now, root) => Asked(t, now, root)
  }

  ghost function RememberAll(h: History, es: seq<Event>, window: nat): History
    decreases |es|
  {
    if es == [] then h else RememberAll(Remember(h, es[0], window), es[1..], window)
  }

  ghost function Steps(t: Topic, es: seq<Event>, window: nat): Topic
    decreases |es|
  {
    if es == [] then t else Steps(Step(t, es[0], window), es[1..], window)
  }

  ghost predicate Holds(t: Topic, h: History, window: nat) {
    && t.times == WindowOf(h.arrivals, window)
    && t.msgT0 == h.epoch && (h.epoch == MIN_TIME <==> h.arrivals == [])
    && t.msgTn == if h.arrivals == [] then MIN_TIME else h.arrivals[|h.arrivals| - 1]
  }

  lemma GapsEnd(all: seq<int>, arrivals: seq<int>, now: int)
    requires arrivals != [] && |all| == |arrivals| + 1 && all[..|arrivals|] == arrivals && all[|arrivals|] == now
    ensures Gaps(all) == Gaps(arrivals) + [now - arrivals[|arrivals| - 1]]
  {
    assert all[|arrivals| - 1] == arrivals[|arrivals| - 1];
  }

  lemma GapsGrow(arrivals: seq<int>, now: int)
    requires arrivals != []
    ensures Gaps(arrivals + [now]) == Gaps(arrivals) + [now - arrivals[|arrivals| - 1]]
  {
    GapsEnd(arrivals + [now], arrivals, now);
  }

  /** Dropping one element at a time is enough. */
  lemma TrimmedIsLast(s: seq<int>, x: int, n: nat)
    ensures Trimmed(LastOf(s, n) + [x], n) == LastOf(s + [x], n)
  {
  }

  lemma FewArrivals(arrivals: seq<int>, window: nat)
    requires |arrivals| <= 1
    ensures WindowOf(arrivals, window) == []
  {
  }

  lemma StepHolds(t: Topic, h: History, e: Event, window: nat)
    requires Holds(t, h, window)
    ensures Holds(Step(t, e, window), Remember(h, e, window), window)
  {
    hide Gaps;
    FewArrivals([], window);
    if e.Message? {
      var now := e.now;
      FewArrivals([now], window);
      FewArrivals(LastOf(h.arrivals, 1), window);
      if now != MIN_TIME && h.arrivals != [] {
        GapsGrow(h.arrivals, now);
        TrimmedIsLast(Gaps(h.arrivals), now - t.msgTn, window);
      }
    } else {
      hide TimedOut;
      NoWindow(h.arrivals, window);
    }
  }

  lemma NoWindow(arrivals: seq<int>, window: nat)
    ensures arrivals == [] ==> WindowOf(arrivals, window) == []
  {
  }

  /** After any run of messages and questions, whatever the clock shows, the window holds exactly the gaps
      between the last messages since the last reset. */
  lemma {:induction false} RunHolds(t: Topic, h: History, es: seq<Event>, window: nat)
    requires Holds(t, h, window)
    ensures Holds(Steps(t, es, window), RememberAll(h, es, window), window)
    decreases |es|
  {
    if es != [] {
      StepHolds(t, h, es[0], window);
      RunHolds(Step(t, es[0], window), Remember(h, es[0], window), es[1..], window);
    }
  }

  /** In particular from the state in which a topic starts. */
  lemma WindowAfterAnyRun(es: seq<Event>, window: nat)
    ensures Holds(Steps(UNSEEN, es, window), RememberAll(History(MIN_TIME, []), es, window), window)
  {
    RunHolds(UNSEEN, History(MIN_TIME, []), es, window);
  }

  // ---------- what the numbers mean ----------

  lemma GapsSplit(arrivals: seq<int>, n: nat)
    requires 0 < n < |arrivals|
    ensures var gaps := LastOf(Gaps(arrivals), n);
            && gaps != []
            && gaps[..|gaps| - 1] == LastOf(Gaps(arrivals[..|arrivals| - 1]), n - 1)
            && gaps[|gaps| - 1] == arrivals[|arrivals| - 1] - arrivals[|arrivals| - 2]
  {
    var front, last := arrivals[..|arrivals| - 1], arrivals[|arrivals| - 1];
    assert front + [last] == arrivals;
    GapsGrow(front, last);
    hide Gaps;
    var all, gaps := Gaps(arrivals), LastOf(Gaps(arrivals), n);
    assert all == Gaps(front) + [last - arrivals[|arrivals| - 2]];
    assert gaps == all[|all| - n..];
    assert gaps[..n - 1] == Gaps(front)[|all| - n..];
  }

  lemma {:induction false} SumOfGaps(arrivals: seq<int>, n: nat)
    requires n < |arrivals|
    ensures Sum(LastOf(Gaps(arrivals), n)) == arrivals[|arrivals| - 1] - arrivals[|arrivals| - 1 - n]
    decreases |arrivals|
  {
    if n > 0 {
      GapsSplit(arrivals, n);
      SumOfGaps(arrivals[..|arrivals| - 1], n - 1);
    } else {
      assert LastOf(Gaps(arrivals), 0) == [];
    }
  }

  /** The gaps of the window add up to the time between its first and its last message. */
  lemma WindowSum(t: Topic, h: History, window: nat)
    requires Holds(t, h, window) && h.arrivals != []
    ensures |t.times| == (if |h.arrivals| - 1 < window then |h.arrivals| - 1 else window)
    ensures Sum(t.times) == t.msgTn - h.arrivals[|h.arrivals| - 1 - |t.times|]
  {
    hide Gaps; hide Sum;
    var n := |t.times|;
    assert t.times == LastOf(Gaps(h.arrivals), n);
    SumOfGaps(h.arrivals, n);
  }

  lemma BoundsStep(lo: real, hi: real, sum: real, n: real, x: real)
    requires lo * n <= sum <= hi * n && lo <= x <= hi
    ensures lo * (n + 1.0) <= sum + x <= hi * (n + 1.0)
  {
    assert lo * (n + 1.0) == lo * n + lo && hi * (n + 1.0) == hi * n + hi;
  }

  lemma SumEnd(s: seq<int>)
    ensures s == [] ==> Sum(s) == 0
    ensures s != [] ==> Sum(s) == Sum(s[..|s| - 1]) + s[|s| - 1]
  {
  }

  lemma {:induction false} SumBounds(s: seq<int>, lo: int, hi: int)
    requires forall x | x in s :: lo <= x <= hi
    ensures lo as real * |s| as real <= Sum(s) as real <= hi as real * |s| as real
  {
    hide Sum;
    SumEnd(s);
    if s != [] {
      var front, last := s[..|s| - 1], s[|s| - 1];
      assert last in s && forall x | x in front :: x in s;
      SumBounds(front, lo, hi);
      BoundsStep(lo as real, hi as real, Sum(front) as real, |front| as real, last as real);
    }
  }

  lemma MeanBetween(s: seq<int>)
    requires s != []
    ensures Least(s) as real <= Mean(s) <= Greatest(s) as real
  {
    hide Sum; hide Least; hide Greatest;
    SumBounds(s, Least(s), Greatest(s));
    assert |s| as real > 0.0;
    DivideBounds(Least(s) as real, Greatest(s) as real, Sum(s) as real, |s| as real);
  }

  lemma DivideBounds(lo: real, hi: real, sum: real, n: real)
    requires n > 0.0 && lo * n <= sum <= hi * n
    ensures lo <= sum / n <= hi
  {
  }

  /** The deviation is that of the gaps from their mean: nothing exactly if they are all the same. */
  lemma DeviationMeaning(s: seq<int>, root: real -> real)
    requires s != [] && forall x: real | x >= 0.0 :: root(x) >= 0.0 && Square(root(x)) == x
    ensures Variance(s) >= 0.0 && Deviation(s, root) >= 0.0
    ensures Deviation(s, root) == 0.0 <==> forall i, j | 0 <= i < j < |s| :: s[i] == s[j]
  {
    hide Sum; hide SquaredDeviations; hide Square;
    var mean, n := Mean(s), |s| as real;
    NoDeviation(s, mean);
    Quotient(SquaredDeviations(s, mean), n);
    assert Square(root(Variance(s))) == Variance(s);
    SquareMeaning(root(Variance(s)));
    AllEqualMean(s);
  }

  lemma AllEqualMean(s: seq<int>)
    requires s != []
    ensures (forall i | 0 <= i < |s| :: s[i] as real == Mean(s)) <==> forall i, j | 0 <= i < j < |s| :: s[i] == s[j]
  {
    hide Sum;
    if forall i, j | 0 <= i < j < |s| :: s[i] == s[j] {
      SumBounds(s, s[0], s[0]);
      DivideBounds(s[0] as real, s[0] as real, Sum(s) as real, |s| as real);
    } else {
      var i, j :| 0 <= i < j < |s| && s[i] != s[j];
      assert s[i] as real != s[j] as real;
    }
  }

  lemma SquareOfPositive(x: real)
    requires x > 0.0
    ensures Square(x) > 0.0
  {
    calc {
      Square(x);
      x * x;
    > 0.0;
    }
  }

  lemma SquareOfNegative(x: real)
    requires x < 0.0
    ensures Square(x) > 0.0
  {
    SquareOfPositive(0.0 - x);
    assert Square(x) == Square(0.0 - x);
  }

  lemma SquareOfZero()
    ensures Square(0.0) == 0.0
  {
  }

  lemma SquareMeaning(x: real)
    ensures Square(x) >= 0.0 && (Square(x) == 0.0 <==> x == 0.0)
  {
    hide Square;
    if x > 0.0 {
      SquareOfPositive(x);
    } else if x < 0.0 {
      SquareOfNegative(x);
    } else {
      SquareOfZero();
    }
  }

  lemma Quotient(x: real, n: real)
    requires x >= 0.0 && n > 0.0
    ensures x / n >= 0.0 && (x / n == 0.0 <==> x == 0.0)
  {
  }

  lemma {:induction false} NoDeviation(s: seq<int>, mean: real)
    ensures SquaredDeviations(s, mean) >= 0.0
    ensures SquaredDeviations(s, mean) == 0.0 <==> forall i | 0 <= i < |s| :: s[i] as real == mean
  {
    hide Square;
    if s != [] {
      var front, x := s[..|s| - 1], s[|s| - 1] as real - mean;
      NoDeviation(front, mean);
      SquareMeaning(x);
      assert forall i | 0 <= i < |front| :: s[i] == front[i];
    }
  }

  /** The numbers reported while there is no timeout, in seconds: the rate is the number of gaps in the window
      over the time they take, and the mean gap lies between the least and the greatest. */
  lemma ReportMeaning(t: Topic, h: History, now: int, window: nat, root: real -> real)
    requires Holds(t, h, window) && t.times != [] && !TimedOut(t.times, t.msgTn, now, root)
    ensures h.arrivals != [] && |t.times| < |h.arrivals|
    ensures var stats, elapsed := Reported(t, now, window, root), t.msgTn - h.arrivals[|h.arrivals| - 1 - |t.times|];
            && stats.windowSize == |t.times| && stats.active == t.active
            && (elapsed > 0 ==> stats.rate * elapsed as real == |t.times| as real * NANOS)
            && (elapsed <= 0 ==> stats.rate == 0.0)
            && stats.minDelta <= Mean(t.times) / NANOS <= stats.maxDelta
  {
    hide Sum; hide Least; hide Greatest; hide WindowOf; hide TimedOut; hide Timeout; hide Deviation;
    NoWindow(h.arrivals, window);
    WindowSum(t, h, window);
    MeanBetween(t.times);
    RateTimesElapsed(Sum(t.times) as real, |t.times| as real);
    Scaled(Least(t.times) as real, Mean(t.times));
    Scaled(Mean(t.times), Greatest(t.times) as real);
  }

  /** Gaps, deviation and threshold are reported in seconds exactly if there is no timeout; after one they are
      still in nanoseconds, which differs for every number but zero. */
  lemma ReportUnits(t: Topic, now: int, window: nat, root: real -> real)
    requires t.times != []
    ensures var stats, late := Reported(t, now, window, root), TimedOut(t.times, t.msgTn, now, root);
            var least, greatest := Least(t.times) as real, Greatest(t.times) as real;
            var deviation, timeout := Deviation(t.times, root), Timeout(t.times, root);
            && (stats.timeout == timeout / NANOS <==> !late)
            && (stats.minDelta == least / NANOS <==> !late || least == 0.0)
            && (stats.maxDelta == greatest / NANOS <==> !late || greatest == 0.0)
            && (stats.stdDev == deviation / NANOS <==> !late || deviation == 0.0)
            && (late ==> stats.timeout == timeout && stats.minDelta == least && stats.maxDelta == greatest
                         && stats.stdDev == deviation && stats.rate == 0.0)
            && timeout >= DEFAULT_TIMEOUT
  {
    hide Least; hide Greatest; hide Deviation; hide TimedOut; hide Mean;
    Unscaled(Least(t.times) as real);
    Unscaled(Greatest(t.times) as real);
    Unscaled(Deviation(t.times, root));
    Unscaled(Timeout(t.times, root));
  }

  lemma Unscaled(x: real)
    ensures x == x / NANOS <==> x == 0.0
  {
  }

  /** One gap of a second, then ten seconds of silence: the shortest gap is reported as 1000000000 instead of 1. */
  lemma LateReport(window: nat)
    ensures var t, root := Topic(0, 1_000_000_000, [1_000_000_000], true), (x: real) => 0.0;
            var stats := Reported(t, 11_000_000_000, window, root);
            TimedOut(t.times, t.msgTn, 11_000_000_000, root) && stats.minDelta == NANOS && stats.minDelta / NANOS == 1.0
  {
    var times := [1_000_000_000];
    SumEnd(times);
    assert times[..0] == [] && Sum(times) == 1_000_000_000;
    assert Mean(times) == NANOS && Least(times) == 1_000_000_000;
  }

  lemma RateTimesElapsed(sum: real, n: real)
    requires n > 0.0
    ensures sum > 0.0 ==> sum / n > 0.0 && 1.0 / (sum / n) * NANOS * sum == n * NANOS
    ensures sum <= 0.0 ==> sum / n <= 0.0
  {
    if sum > 0.0 {
      var mean := sum / n;
      assert sum == mean * n;
      assert 1.0 / mean * mean == 1.0;
      calc {
        1.0 / mean * NANOS * sum;
        1.0 / mean * NANOS * (mean * n);
        (1.0 / mean * mean) * n * NANOS;
        n * NANOS;
      }
    }
  }

  lemma Scaled(a: real, b: real)
    requires a <= b
    ensures a / NANOS <= b / NANOS
  {
  }

  /** A topic is given up only after two seconds of silence, and then forgets everything: its next message starts
      a new window. */
  lemma TimeoutForgets(t: Topic, h: History, now: int, later: int, window: nat, root: real -> real)
    requires Holds(t, h, window) && Asked(t, now, root) != t && later != MIN_TIME
    ensures now - t.msgTn > 2_000_000_000
    ensures Remember(h, Question(now, root), window).arrivals == []
    ensures Steps(t, [Question(now, root), Message(later)], window) == Topic(later, later, [], true)
  {
    hide WindowOf;
    NoWindow(h.arrivals, window);
    var es := [Question(now, root), Message(later)];
    assert es[1..] == [Message(later)] && es[1..][1..] == [];
    assert Step(t, es[0], window) == Topic(MIN_TIME, MIN_TIME, [], t.active);
    var forgotten := Topic(MIN_TIME, MIN_TIME, [], t.active);
    assert Steps(t, es, window) == Steps(forgotten, [Message(later)], window) == Feed(forgotten, later, window);
  }

  // ---------- exactly when a topic is given up ----------

  function SumOfSquares(s: seq<int>): int {
    if s == [] then 0 else SumOfSquares(s[..|s| - 1]) + s[|s| - 1] * s[|s| - 1]
  }

  lemma SquareOfDifference(x: int, mean: real)
    ensures Square(x as real - mean) == (x * x) as real - 2.0 * (mean * x as real) + mean * mean
  {
    var r := x as real;
    assert (x * x) as real == r * r;
    calc {
      Square(r - mean);
      (r - mean) * (r - mean);
      r * r - r * mean - mean * r + mean * mean;
    }
  }

  lemma Distributed(mean: real, a: real, b: real, square: real)
    ensures mean * (a + b) == mean * a + mean * b
    ensures square * (a + 1.0) == square * a + square
  {
  }

  lemma {:induction false} DeviationsExpanded(s: seq<int>, mean: real)
    ensures SquaredDeviations(s, mean) ==
            SumOfSquares(s) as real - 2.0 * (mean * Sum(s) as real) + mean * mean * |s| as real
  {
    hide Square;
    if s != [] {
      var front, x := s[..|s| - 1], s[|s| - 1];
      DeviationsExpanded(front, mean);
      SquareOfDifference(x, mean);
      Distributed(mean, Sum(front) as real, x as real, mean * mean);
      assert Sum(s) as real == Sum(front) as real + x as real && |s| as real == |front| as real + 1.0;
      Distributed(mean, |front| as real, 1.0, mean * mean);
    } else {
      assert mean * 0.0 == 0.0 && mean * mean * 0.0 == 0.0;
    }
  }

  lemma MeanTimesCount(s: seq<int>)
    requires s != []
    ensures Mean(s) * |s| as real == Sum(s) as real
  {
  }

  /** The variance in closed form, from the count, the sum and the sum of the squares of the gaps. */
  lemma VarianceClosed(s: seq<int>)
    requires s != []
    ensures var n, sum := |s| as real, Sum(s) as real;
            n * n * Variance(s) == n * SumOfSquares(s) as real - sum * sum
  {
    hide Sum; hide SumOfSquares; hide Mean; hide SquaredDeviations;
    var n, sum, mean, q := |s| as real, Sum(s) as real, Mean(s), SumOfSquares(s) as real;
    MeanTimesCount(s);
    DeviationsExpanded(s, mean);
    var d := SquaredDeviations(s, mean);
    assert n * Variance(s) == d;
    calc {
      n * n * Variance(s);
      n * d;
      n * (q - 2.0 * (mean * sum) + mean * mean * n);
      n * q - 2.0 * ((mean * n) * sum) + (mean * n) * (mean * n);
      n * q - sum * sum;
    }
  }

  lemma Product(a: real, b: real)
    requires a >= 0.0 && b >= 0.0
    ensures a * b >= 0.0
  {
  }

  lemma SquareGrows(a: real, b: real)
    requires 0.0 <= a < b
    ensures Square(a) < Square(b)
  {
    var d := b - a;
    SquareOfPositive(d);
    Product(a, d);
    calc {
      Square(b);
      (a + d) * (a + d);
      Square(a) + 2.0 * (a * d) + Square(d);
    }
  }

  lemma SameRoot(a: real, b: real)
    requires a >= 0.0 && b >= 0.0 && Square(a) == Square(b)
    ensures a == b
  {
    if a < b {
      SquareGrows(a, b);
    } else if b < a {
      SquareGrows(b, a);
    }
  }

  lemma Cancelled(k: real, a: real, b: real)
    requires k != 0.0 && k * a == k * b
    ensures a == b
  {
  }

  /** Mean and deviation are those of the gaps, whoever computes them. */
  ghost predicate MeanAndDeviation(s: seq<int>, mean: real, deviation: real) {
    var n, sum := |s| as real, Sum(s) as real;
    && mean * n == sum
    && deviation >= 0.0 && n * n * Square(deviation) == n * SumOfSquares(s) as real - sum * sum
  }

  lemma SameMeanAndDeviation(s: seq<int>, mean: real, deviation: real, root: real -> real)
    requires s != [] && forall x: real | x >= 0.0 :: root(x) >= 0.0 && Square(root(x)) == x
    requires MeanAndDeviation(s, mean, deviation)
    ensures mean == Mean(s) && deviation == Deviation(s, root)
  {
    hide Sum; hide SumOfSquares; hide Mean; hide Variance; hide Square;
    var n := |s| as real;
    MeanTimesCount(s);
    assert n * mean == n * Mean(s);
    Cancelled(n, mean, Mean(s));
    VarianceClosed(s);
    assert n * n > 0.0;
    Cancelled(n * n, Square(deviation), Variance(s));
    DeviationMeaning(s, root);
    assert Square(root(Variance(s))) == Variance(s);
    SameRoot(deviation, Deviation(s, root));
  }

  /** A topic with gaps is given up exactly if it has been silent for more than two seconds and for more than the mean
      gap and five standard deviations; whoever asks is told deviation and threshold, in seconds unless the topic is
      given up. */
  lemma GivenUpExactly(t: Topic, now: int, window: nat, root: real -> real, mean: real, deviation: real)
    requires t.times != [] && forall x: real | x >= 0.0 :: root(x) >= 0.0 && Square(root(x)) == x
    requires MeanAndDeviation(t.times, mean, deviation)
    ensures var silence, threshold := (now - t.msgTn) as real, mean + 5.0 * deviation;
            var stats := Reported(t, now, window, root);
            var unit := if Asked(t, now, root) == t then NANOS else 1.0;
            && (Asked(t, now, root) != t <==> silence > 2_000_000_000.0 && silence > threshold)
            && (Asked(t, now, root) != t ==> stats.rate == 0.0)
            && stats.timeout * unit == (if threshold > 2_000_000_000.0 then threshold else 2_000_000_000.0)
            && stats.stdDev * unit == deviation && stats.maxWindow == window
            && (stats.minDelta * unit) as int in t.times && (stats.maxDelta * unit) as int in t.times
            && forall x | x in t.times :: stats.minDelta * unit <= x as real <= stats.maxDelta * unit
  {
    hide Sum; hide SumOfSquares; hide Mean; hide Deviation; hide Least; hide Greatest; hide MeanAndDeviation;
    SameMeanAndDeviation(t.times, mean, deviation, root);
    ScaledBack(Timeout(t.times, root));
    ScaledBack(deviation);
    ScaledBack(Least(t.times) as real);
    ScaledBack(Greatest(t.times) as real);
  }

  lemma ScaledBack(x: real)
    ensures x / NANOS * NANOS == x && x * 1.0 == x
  {
  }

  /** A topic is active from its first message on, timeouts or not. */
  lemma {:induction false} ActiveFromFirstMessage(t: Topic, es: seq<Event>, window: nat)
    ensures Steps(t, es, window).active <==> t.active || exists i :: 0 <= i < |es| && es[i].Message?
    decreases |es|
  {
    hide Timeout;
    if es != [] {
      ActiveFromFirstMessage(Step(t, es[0], window), es[1..], window);
      assert forall i | 0 < i < |es| :: es[i] == es[1..][i - 1];
      assert es[0].Message? ==> Step(t, es[0], window).active;
      assert es[0].Question? ==> Step(t, es[0], window).active == t.active;
      if i :| 0 <= i < |es[1..]| && es[1..][i].Message? {
        assert es[i + 1].Message?;
      }
    }
  }

  // ---------- a clock that goes back ----------

  ghost predicate FromEpoch(h: History) {
    forall i | 0 <= i < |h.arrivals| :: h.epoch <= h.arrivals[i]
  }

  lemma RememberFromEpoch(h: History, e: Event, window: nat)
    requires FromEpoch(h)
    ensures FromEpoch(Remember(h, e, window))
  {
    hide TimedOut; hide WindowOf;
  }

  /** Whatever the clock shows, no message that counts came before the first one after the last reset. */
  lemma {:induction false} NoneBeforeFirst(h: History, es: seq<Event>, window: nat)
    requires FromEpoch(h)
    ensures FromEpoch(RememberAll(h, es, window))
    decreases |es|
  {
    hide FromEpoch; hide Remember;
    if es != [] {
      RememberFromEpoch(h, es[0], window);
      NoneBeforeFirst(Remember(h, es[0], window), es[1..], window);
    }
  }

  ghost predicate Rising(es: seq<Event>, from: int) {
    && (forall i | 0 <= i < |es| :: from <= es[i].now)
    && (forall i, j | 0 <= i < j < |es| :: es[i].now <= es[j].now)
  }

  ghost predicate Ordered(h: History, now: int) {
    && (forall i, j | 0 <= i < j < |h.arrivals| :: h.arrivals[i] <= h.arrivals[j])
    && (forall i | 0 <= i < |h.arrivals| :: h.epoch <= h.arrivals[i] <= now)
  }

  lemma OrderedNext(h: History, e: Event, window: nat, from: int)
    requires MIN_TIME < from <= e.now && Ordered(h, from)
    ensures Ordered(Remember(h, e, window), e.now)
    ensures e.Message? ==> |Remember(h, e, window).arrivals| == |h.arrivals| + 1
  {
    hide TimedOut; hide WindowOf;
    assert h.arrivals != [] ==> h.epoch <= h.arrivals[0] <= from;
  }

  /** With a clock that never goes back messages do not reset anything: the arrivals are ordered, and their number
      grows with every message. */
  lemma {:induction false} RisingClock(h: History, es: seq<Event>, window: nat, from: int)
    requires MIN_TIME < from && Rising(es, from) && Ordered(h, from)
    ensures es == [] || Ordered(RememberAll(h, es, window), es[|es| - 1].now)
    ensures (forall i | 0 <= i < |es| :: es[i].Message?) ==>
              |RememberAll(h, es, window).arrivals| == |h.arrivals| + |es|
    decreases |es|
  {
    hide Ordered; hide Remember;
    if es != [] {
      var now, h' := es[0].now, Remember(h, es[0], window);
      OrderedNext(h, es[0], window, from);
      assert forall i | 0 < i < |es| :: es[i] == es[1..][i - 1];
      RisingClock(h', es[1..], window, now);
      assert |es| > 1 ==> es[1..][|es| - 2] == es[|es| - 1];
      assert |es| == 1 ==> es[1..] == [];
    }
  }
}
