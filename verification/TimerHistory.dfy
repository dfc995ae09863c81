/**
 A timer as its user sees it: it counts the clock ticks during which it runs, and
 expires after every period.

 The main result (RunsKeepSchedule): counted from a start with period P and N shots, the
 timer expires after exactly k * P running ticks, k = 1, 2, ..., and never more than N
 times, whatever is stopped, resumed or started in between.  Every callback that the user
 gets is one of these, and there are at most N, if and only if the timer was not started
 between an expiry and its callback: that callback still comes (CallbacksAreOnSchedule).
 */
module TimerHistory {

  datatype Mode = Idle | Running | Stopped

  /** What has happened since the timer was last started.
      period, shots: the arguments of start; a negative number of shots means no end.
      elapsed: clock ticks during which the timer was running.
      count: ticks into the current period.
      fired: how often it has expired.
      due: it has expired in this tick and the callback is still to come.
      early: when the timer was last started, a callback of an earlier start was still to come.
      callbacks: the elapsed ticks at each callback since the last start. */
  datatype History = History(mode: Mode, period: nat, shots: int, elapsed: nat, count: nat, fired: nat,
                             due: bool, early: bool, callbacks: seq<nat>)
  {
    /** The callback of an earlier start is still to come. */
    predicate Stale() {
      early && callbacks == []
    }

    /** A callback is still to come in this tick. */
    predicate CallbackToCome() {
      due || Stale()
    }

    /** The counter of the timer: ticks since the last expiry, 0 when idle. */
    function Counter(): nat {
      if mode == Idle then 0 else count
    }
  }

  const NEVER_STARTED := History(Idle, 0, 0, 0, 0, 0, false, false, [])

  function Start(h: History, period: nat, shots: int): History {
    History(if shots == 0 || period == 0 then Idle else Running, period, shots, 0, 0, 0,
            false, h.CallbackToCome(), [])
  }

  function Stop(h: History): History {
    if h.mode == Running then h.(mode := Stopped) else h
  }

  function Resume(h: History): History {
    if h.mode == Stopped then h.(mode := Running) else h
  }

  /** The next clock tick. */
  function Tick(h: History): History {
    if h.mode != Running then h
    else if h.count + 1 < h.period then h.(elapsed := h.elapsed + 1, count := h.count + 1)
    else h.(elapsed := h.elapsed + 1, count := 0, fired := h.fired + 1, due := true,
            mode := if h.shots > 0 && h.fired + 1 == h.shots then Idle else Running)
  }

  /** The callback of this tick. */
  function Callback(h: History): History {
    if h.CallbackToCome() then h.(due := false, callbacks := h.callbacks + [h.elapsed]) else h
  }

  function Ticks(h: History, n: nat): History {
    if n == 0 then h else Tick(Ticks(h, n - 1))
  }

  datatype Op = DoStart(period: nat, shots: int) | DoStop | DoResume | DoTick | DoCallback

  function Do(h: History, op: Op): History {
    match op
    case DoStart(period, shots) => Start(h, period, shots)
    case DoStop => Stop(h)
    case DoResume => Resume(h)
    case DoTick => if h.CallbackToCome() then h else Tick(h)
    case DoCallback => Callback(h)
  }

  /** A run: operations one after the other, the last one outermost. */
  datatype Ops = Begin | After(ops: Ops, op: Op)

  function Run(ops: Ops): History {
    match ops
    case Begin => NEVER_STARTED
    case After(earlier, op) => Do(Run(earlier), op)
  }

  /** Facts about any history that need no multiplication. */
  predicate Sound(h: History) {
    && (0 < h.period ==> h.count < h.period)
    && (h.shots > 0 ==> h.fired <= h.shots && (h.fired == h.shots ==> h.mode == Idle))
    && (h.mode != Idle ==> 0 < h.period && h.shots != 0)
    && (h.due ==> h.count == 0 && !h.Stale())
    && (h.shots == 0 || h.period == 0 ==> h.fired == h.count == 0)
    && (h.mode != Idle && h.CallbackToCome() ==> h.count == 0)
  }

  /** Expiry number k (from 1) after k periods, with its callback in the same tick, and never more expiries than shots.
      A callback of an earlier start comes first, before any tick. */
  ghost predicate OnSchedule(h: History) {
    && Sound(h)
    && (forall k :: 0 <= k < |h.callbacks| ==> h.callbacks[k] == (if h.early then k else k + 1) * h.period)
    && h.fired == |h.callbacks| - (if h.early && h.callbacks != [] then 1 else 0) + (if h.due then 1 else 0)
    && h.elapsed == h.fired * h.period + h.count
    && (h.Stale() ==> h.fired == h.count == 0)
  }

  /** What the user of a timer started with this period and number of shots expects of the callbacks. */
  ghost predicate AsExpected(h: History) {
    && (h.period == 0 || h.shots == 0 ==> h.callbacks == [])
    && (forall k :: 0 <= k < |h.callbacks| ==> h.callbacks[k] == (k + 1) * h.period)
    && (h.shots > 0 ==> |h.callbacks| <= h.shots)
  }

  lemma StepKeepsSchedule(h: History, op: Op)
    requires OnSchedule(h)
    ensures OnSchedule(Do(h, op))
  {
  }

  lemma {:induction false} RunsKeepSchedule(ops: Ops)
    ensures OnSchedule(Run(ops))
  {
    if ops.After? {
      RunsKeepSchedule(ops.ops);
      StepKeepsSchedule(Run(ops.ops), ops.op);
    }
  }

  /** In every run the callbacks since the last start are as expected, or the first of them belongs to an earlier start:
      it was still to come at the last start, and has come since. */
  lemma {:induction false} CallbacksAreOnSchedule(ops: Ops)
    ensures var h := Run(ops); AsExpected(h) <==> !h.early || h.callbacks == []
  {
    RunsKeepSchedule(ops);
    var h := Run(ops);
    if h.early && h.callbacks != [] {
      assert h.callbacks[0] == 0 * h.period;
    }
  }

  /** Started before the callback of the same tick, the timer calls back at once, which the user did not ask for;
      started after it, it does not. */
  lemma {:induction false} EarlyStart(h: History, period: nat, shots: int)
    ensures var c := Callback(Start(h, period, shots));
            if h.CallbackToCome() then c.callbacks == [0] && !AsExpected(c) else c.callbacks == [] && AsExpected(c)
  {
    var c := Callback(Start(h, period, shots));
    if h.CallbackToCome() {
      assert c.callbacks[0] == 0 && (0 + 1) * c.period == period;
    }
  }

  /** Started for one shot when a callback is to come, the timer calls back twice. */
  lemma {:induction false} OneShotCallsTwice(h: History, period: nat)
    requires h.CallbackToCome() && 0 < period
    ensures Callback(Ticks(Callback(Start(h, period, 1)), period)).callbacks == [0, period]
  {
    var c := Callback(Start(h, period, 1));
    assert c == History(Running, period, 1, 0, 0, 0, false, true, [0]);
    TicksToExpiry(c);
  }

  lemma RunsAreSound(ops: Ops)
    ensures Sound(Run(ops))
  {
    RunsKeepSchedule(ops);
  }

  /** Ticks that do not complete the period only count. */
  lemma {:induction false} TicksCount(h: History, n: nat)
    requires h.mode == Running ==> h.count + n < h.period
    ensures Ticks(h, n) == if h.mode == Running then h.(elapsed := h.elapsed + n, count := h.count + n) else h
  {
    if n > 0 {
      TicksCount(h, n - 1);
    }
  }

  /** The tick that completes the period. */
  lemma TicksToExpiry(h: History)
    requires h.mode == Running && h.count < h.period
    ensures var n := h.period - h.count;
            Ticks(h, n) == h.(elapsed := h.elapsed + n, count := 0, fired := h.fired + 1, due := true,
                              mode := if h.shots > 0 && h.fired + 1 == h.shots then Idle else Running)
  {
    TicksCount(h, h.period - h.count - 1);
  }

  // ----- when it runs, and that it does expire -----

  /** A timer runs, or is stopped, until it has expired as often as it was started for; without an end, that is forever. */
  predicate RunsOut(h: History) {
    h.mode == Idle <==> h.period == 0 || h.shots == 0 || (0 < h.shots && h.fired == h.shots)
  }

  lemma {:induction false} IdleExactlyWhenRunOut(ops: Ops)
    ensures RunsOut(Run(ops))
  {
    if ops.After? {
      IdleExactlyWhenRunOut(ops.ops);
      RunsKeepSchedule(ops.ops);
    }
  }

  /** Left alone for n ticks, with each callback in its tick. */
  function Alone(h: History, n: nat): History {
    if n == 0 then h else Callback(Tick(Alone(h, n - 1)))
  }

  /** The same as a run. */
  function AloneOps(ops: Ops, n: nat): Ops {
    if n == 0 then ops else After(After(AloneOps(ops, n - 1), DoTick), DoCallback)
  }

  lemma {:induction false} AloneIsARun(ops: Ops, n: nat)
    requires !Run(ops).CallbackToCome()
    ensures Run(AloneOps(ops, n)) == Alone(Run(ops), n) && !Alone(Run(ops), n).CallbackToCome()
  {
    if n > 0 {
      AloneIsARun(ops, n - 1);
    }
  }

  lemma {:induction false} AloneSum(h: History, m: nat, n: nat)
    ensures Alone(h, m + n) == Alone(Alone(h, m), n)
  {
    if n > 0 {
      AloneSum(h, m, n - 1);
    }
  }

  lemma {:induction false} AloneIdle(h: History, n: nat)
    requires h.mode == Idle && !h.CallbackToCome()
    ensures Alone(h, n) == h
  {
    if n > 0 {
      AloneIdle(h, n - 1);
    }
  }

  lemma {:induction false} AloneCounts(h: History, n: nat)
    requires h.mode == Running && !h.CallbackToCome() && h.count + n < h.period
    ensures Alone(h, n) == h.(elapsed := h.elapsed + n, count := h.count + n)
  {
    if n > 0 {
      AloneCounts(h, n - 1);
    }
  }

  /** One period from an expiry to the next. */
  lemma {:induction false} AloneForAPeriod(h: History)
    requires h.mode == Running && !h.CallbackToCome() && h.count == 0 < h.period
    ensures Alone(h, h.period) ==
            h.(elapsed := h.elapsed + h.period, fired := h.fired + 1, callbacks := h.callbacks + [h.elapsed + h.period],
               mode := if h.shots > 0 && h.fired + 1 == h.shots then Idle else Running)
  {
    AloneCounts(h, h.period - 1);
  }

  /** How often a timer for so many shots has expired after k periods. */
  function Expiries(shots: int, k: nat): nat
    requires shots != 0
  {
    if 0 < shots < k then shots else k
  }

  /** Left alone, a timer started for any number of shots but 0, without an end or not, expires after every period: k
      times after k periods, or as often as it was started for.  Its callbacks come with that. */
  lemma {:induction false} ExpiresEveryPeriod(before: History, period: nat, shots: int, k: nat)
    requires 0 < period && shots != 0
    ensures var started := Callback(Start(before, period, shots));
            var h := Alone(started, k * period);
            h.fired == Expiries(shots, k) && |h.callbacks| == |started.callbacks| + Expiries(shots, k)
  {
    PeriodsPass(Callback(Start(before, period, shots)), k, k * period);
  }

  /** The state at the end of a period. */
  predicate AtPeriod(h: History) {
    && h.count == 0 < h.period && h.shots != 0 && !h.CallbackToCome()
    && h.mode == (if h.fired == h.shots then Idle else Running) && h.elapsed == h.fired * h.period
  }

  lemma OneTimesMore(k: nat, period: nat, time: nat)
    requires 0 < k && time == k * period
    ensures time - period == (k - 1) * period >= 0
  {
  }

  lemma {:induction false} PeriodsPass(h: History, k: nat, time: nat)
    requires AtPeriod(h) && h.fired == 0 && time == k * h.period
    ensures var q := Alone(h, time);
            && AtPeriod(q) && q.shots == h.shots && q.period == h.period
            && q.fired == Expiries(h.shots, k) && |q.callbacks| == |h.callbacks| + q.fired
    decreases k
  {
    if k > 0 {
      OneTimesMore(k, h.period, time);
      var earlier := time - h.period;
      PeriodsPass(h, k - 1, earlier);
      AloneSum(h, earlier, h.period);
      OneMorePeriod(Alone(h, earlier));
    }
  }

  lemma {:induction false} OneMorePeriod(h: History)
    requires AtPeriod(h)
    ensures var q, n := Alone(h, h.period), if h.fired == h.shots then 0 else 1;
            && AtPeriod(q) && q.shots == h.shots && q.period == h.period
            && q.fired == h.fired + n && |q.callbacks| == |h.callbacks| + n
  {
    if h.mode == Idle {
      AloneIdle(h, h.period);
    } else {
      AloneForAPeriod(h);
      assert (h.fired + 1) * h.period == h.fired * h.period + h.period;
    }
  }

  /** The counter begins at 0 and counts the ticks of the period; stopped it stays, whatever time passes. */
  lemma {:induction false} CounterCounts(before: History, period: nat, shots: int, n: nat, wait: nat)
    requires n < period && shots != 0
    ensures var h := Ticks(Start(before, period, shots), n);
            && h.Counter() == n && Ticks(Stop(h), wait).Counter() == n
            && Resume(Ticks(Stop(h), wait)) == h
  {
    var started := Start(before, period, shots);
    TicksCount(started, n);
    TicksCount(Stop(Ticks(started, n)), wait);
  }

  /** A timer of period 10 and 3 shots that has fired `fired` times, some ticks into its period. */
  function Example(mode: Mode, count: nat, fired: nat, due: bool, callbacks: seq<nat>): History {
    History(mode, 10, 3, fired * 10 + count, count, fired, due, false, callbacks)
  }

  /** Started at tick 100 with period 10 and 3 shots, the timer calls back at tick 110 and no earlier; stopped at tick
      115 and resumed at tick 200, it next calls back at ticks 205 and 215, and is then idle. */
  lemma HeaderExample(h: History)
    requires !h.CallbackToCome()
    ensures var at110 := Ticks(Start(h, 10, 3), 10);
            && !Ticks(Start(h, 10, 3), 9).due && at110.due
            && var at200 := Ticks(Stop(Ticks(Callback(at110), 5)), 85);
            && !at200.due
            && var at205 := Ticks(Resume(at200), 5);
            && !Ticks(Resume(at200), 4).due && at205.due
            && var at215 := Ticks(Callback(at205), 10);
            && !Ticks(Callback(at205), 9).due && at215.due
            && Callback(at215) == Example(Idle, 0, 3, false, [10, 20, 30])
  {
    var started := Start(h, 10, 3);
    TicksCount(started, 9);
    TicksToExpiry(started);
    assert Ticks(started, 10) == Example(Running, 0, 1, true, []);
    AfterFirst();
    AfterSecond();
  }

  lemma AfterFirst()
    ensures var at110 := Example(Running, 0, 1, true, []);
            var at200 := Ticks(Stop(Ticks(Callback(at110), 5)), 85);
            && !at200.due && !Ticks(Resume(at200), 4).due
            && Ticks(Resume(at200), 5) == Example(Running, 0, 2, true, [10])
  {
    var h1 := Callback(Example(Running, 0, 1, true, []));
    assert h1 == Example(Running, 0, 1, false, [10]);
    TicksCount(h1, 5);
    var h2 := Stop(Ticks(h1, 5));
    assert h2 == Example(Stopped, 5, 1, false, [10]);
    TicksCount(h2, 85);
    var h3 := Resume(h2);
    TicksCount(h3, 4);
    TicksToExpiry(h3);
  }

  lemma AfterSecond()
    ensures var at205 := Example(Running, 0, 2, true, [10]);
            && !Ticks(Callback(at205), 9).due
            && var at215 := Ticks(Callback(at205), 10);
            && at215.due && Callback(at215) == Example(Idle, 0, 3, false, [10, 20, 30])
  {
    var h4 := Callback(Example(Running, 0, 2, true, [10]));
    assert h4 == Example(Running, 0, 2, false, [10, 20]);
    TicksCount(h4, 9);
    TicksToExpiry(h4);
  }
}
