/**
 The clocked timer as it is built: a state, a pending flag and a trigger scheduled with
 the clock.  The expiry of a tick is noticed by the first call in its time stamp, which
 may come before, inside or after the callback.

 Every call is proved to act as TimerHistory says, so the timer inherits the schedule;
 and the clock's rules are respected: no negative skip, and no trigger is cancelled that
 is due in the current tick.
 */
module ClockedTimer {
  import opened Options
  import opened TimerHistory

  /** What the user's callback does. */
  datatype Call = CallStart(period: nat, shots: int) | CallStop | CallResume | CallCounter | CallState

  /** The trigger after a request at tick `now` that skips so many ticks: an earlier request wins. */
  function RequestTrigger(scheduled: Option<nat>, now: nat, skip: int): Option<nat>
    requires 0 <= skip
  {
    if scheduled.None? || now + 1 + skip < scheduled.value then Some(now + 1 + skip) else scheduled
  }

  /** The trigger after cancelling; a trigger that is due in the current tick must not be cancelled. */
  function CancelTrigger(scheduled: Option<nat>, now: nat): Option<nat>
    requires scheduled != Some(now)
  {
    None
  }

  class ClockedTimer {
    // the clock: SystemC time stamps, ticks, and the trigger scheduled for this timer
    var time: nat
    var tick: nat
    var scheduledTick: Option<nat>

    var mState: Mode
    var mCallbackPending: bool
    var mTicksPerPeriod: nat
    var mRemainingShotCount: int
    var mRemainingTicksWhenResuming: int
    var mCacheTimeStamp: Option<nat>
    var mCachedState: Mode

    /** What the user may rely on, and the operations that led there. */
    ghost var history: History
    ghost var ops: Ops
    /** The history when the current time stamp began, before the tick that it may be. */
    ghost var before: History
    /** The callback is running. */
    ghost var inCallback: bool
    /** The timer was resumed before any other call in this time stamp. */
    ghost var resumedFirst: bool

    /** The trigger is due in the current tick. */
    predicate TriggerDue()
      reads this
    {
      scheduledTick == Some(tick)
    }

    predicate CacheIsFresh()
      reads this
    {
      mCacheTimeStamp == Some(time)
    }

    ghost predicate Valid()
      reads this
    {
      ValidWhen(TriggerDue())
    }

    /** The invariant; `due` says that the callback of the current tick has not begun. */
    ghost predicate ValidWhen(due: bool)
      reads this
    {
      && Recorded() && ValidCallback(due) && ValidCache()
      && if due && !CacheIsFresh() then LagsBehind() else Agrees(history)
    }

    /** The invariant when a call has been made in the current time stamp. */
    ghost predicate Noticed(due: bool)
      reads this
    {
      CacheIsFresh() && Recorded() && ValidCallback(due) && ValidCache() && Agrees(history)
    }

    ghost predicate Recorded()
      reads this`history, this`ops
    {
      history == Run(ops)
    }

    ghost predicate ValidCallback(due: bool)
      reads this
    {
      && (due <==> !inCallback && history.CallbackToCome())
      && (inCallback ==> CacheIsFresh() && scheduledTick.None? && !history.CallbackToCome())
    }

    /** The registers agree with h: nothing has gone unnoticed. */
    ghost predicate Agrees(h: History)
      reads this
    {
      && mTicksPerPeriod == h.period
      && mState == h.mode
      && mRemainingShotCount == h.shots - (if h.shots <= 0 then 0 else h.fired)
      && (mState == Stopped ==> mRemainingTicksWhenResuming == h.period - 1 - h.count)
      && (mCallbackPending <==> inCallback || h.CallbackToCome())
      && (inCallback && h.mode != Idle ==> h.count == 0)
      && (!mCallbackPending ==>
            if mState == Running then scheduledTick == Some(tick + h.period - h.count) else scheduledTick.None?)
    }

    /** The registers have not noticed the tick that led from `before` to `history`. */
    ghost predicate LagsBehind()
      reads this
    {
      && history == Tick(before) && before.mode == Running && !before.CallbackToCome()
      && before.count + 1 == before.period && (before.shots <= 0 || before.fired < before.shots)
      && mTicksPerPeriod == before.period
      && mState == Running
      && mRemainingShotCount == before.shots - (if before.shots <= 0 then 0 else before.fired)
      && !mCallbackPending
    }

    /** The cached state; resuming comes too early for it when it is the first call of a time stamp. */
    ghost predicate ValidCache()
      reads this
    {
      && (mCacheTimeStamp.Some? ==> mCacheTimeStamp.value <= time)
      && (resumedFirst ==> before.mode == Stopped)
      && if CacheIsFresh() then mCachedState == (if resumedFirst then Running else before.mode)
         else mState == if resumedFirst then Running else before.mode
    }

    constructor ()
      ensures Valid() && history == NEVER_STARTED && !inCallback
    {
      time, tick, scheduledTick := 0, 0, None;
      mState, mCallbackPending := Idle, false;
      mTicksPerPeriod, mRemainingShotCount, mRemainingTicksWhenResuming := 0, 0, 0;
      mCacheTimeStamp, mCachedState := None, Idle;
      history, ops, before, inCallback, resumedFirst := NEVER_STARTED, Begin, NEVER_STARTED, false, false;
    }

    /** Whatever was called before, the callbacks since the last start came on schedule, but for one of an earlier
        start that was still to come. */
    lemma CallbacksOnSchedule()
      requires Valid()
      ensures OnSchedule(history) && RunsOut(history)
      ensures AsExpected(history) <==> !history.early || history.callbacks == []
    {
      RunsKeepSchedule(ops);
      CallbacksAreOnSchedule(ops);
      IdleExactlyWhenRunOut(ops);
    }

    // ----- the clock -----

    /** A later time stamp within the same tick. */
    method AdvanceTime()
      requires Valid() && !inCallback && !TriggerDue()
      modifies this
      ensures Valid() && !inCallback && history == old(history) && tick == old(tick)
      ensures before == history && !resumedFirst && !CacheIsFresh()
    {
      RunsAreSound(ops);
      time := time + 1;
      before, resumedFirst := history, false;
    }

    /** The next clock tick. */
    method AdvanceTick()
      requires Valid() && !inCallback && !TriggerDue()
      modifies this
      ensures Valid() && !inCallback && history == Tick(old(history)) && tick == old(tick) + 1
      ensures TriggerDue() <==> history.due
    {
      RunsAreSound(ops);
      time, tick := time + 1, tick + 1;
      before, resumedFirst := history, false;
      history, ops := Do(history, DoTick), After(ops, DoTick);
    }

    // ----- the timer -----

    /** Notices the expiry of this tick, once per time stamp. */
    method UpdateCache(fromCallback: bool)
      requires ValidWhen(fromCallback || TriggerDue())
      modifies this`mCacheTimeStamp, this`mCachedState, this`mCallbackPending, this`mRemainingShotCount, this`mState
      ensures Noticed(fromCallback || TriggerDue())
      ensures old(CacheIsFresh()) ==> mState == old(mState)
    {
      RunsAreSound(ops);
      if mCacheTimeStamp == Some(time) {
        return;
      }
      mCacheTimeStamp := Some(time);
      mCachedState := mState;
      if fromCallback || (scheduledTick.Some? && scheduledTick.value == tick) {
        mCallbackPending := true;
        if mRemainingShotCount > 0 {
          mRemainingShotCount := mRemainingShotCount - 1;
          if mRemainingShotCount == 0 {
            mState := Idle;
          }
        }
      } else {
        mCallbackPending := false;
      }
    }

    method StartTimer(period: nat, shots: int)
      requires Valid()
      modifies this`mCacheTimeStamp, this`mCachedState, this`mCallbackPending, this`mRemainingShotCount, this`mState,
               this`mTicksPerPeriod, this`scheduledTick, this`history, this`ops
      ensures Noticed(TriggerDue()) && history == Start(old(history), period, shots)
    {
      RunsAreSound(ops);
      UpdateCache(false);
      SetUp(period, shots);
      history, ops := Do(history, DoStart(period, shots)), After(ops, DoStart(period, shots));
    }

    /** What start does to the registers. */
    method SetUp(period: nat, shots: int)
      requires Sound(history) && Agrees(history) && (TriggerDue() ==> mCallbackPending)
      modifies this`mRemainingShotCount, this`mTicksPerPeriod, this`mState, this`scheduledTick
      ensures Agrees(Start(history, period, shots))
      ensures mCallbackPending ==> scheduledTick == old(scheduledTick)
      ensures !mCallbackPending ==> !TriggerDue()
    {
      mRemainingShotCount := shots;
      mTicksPerPeriod := period;
      if mRemainingShotCount == 0 || mTicksPerPeriod == 0 {
        mState := Idle;
      } else {
        mState := Running;
      }
      if !mCallbackPending {
        scheduledTick := CancelTrigger(scheduledTick, tick);
        if mState == Running {
          scheduledTick := RequestTrigger(scheduledTick, tick, mTicksPerPeriod - 1);
        }
      }
    }

    method StopTimer()
      requires Valid()
      modifies this`mCacheTimeStamp, this`mCachedState, this`mCallbackPending, this`mRemainingShotCount, this`mState,
               this`mRemainingTicksWhenResuming, this`scheduledTick, this`history, this`ops
      ensures Noticed(TriggerDue()) && history == Stop(old(history))
    {
      RunsAreSound(ops);
      UpdateCache(false);
      Halt();
      history, ops := Do(history, DoStop), After(ops, DoStop);
    }

    /** What stop does to the registers. */
    method Halt()
      requires Sound(history) && Agrees(history) && (TriggerDue() ==> mCallbackPending)
      modifies this`mRemainingTicksWhenResuming, this`mState, this`scheduledTick
      ensures Agrees(Stop(history))
      ensures mCallbackPending ==> scheduledTick == old(scheduledTick)
      ensures !mCallbackPending ==> !TriggerDue()
    {
      if mState == Running {
        if mCallbackPending {
          mRemainingTicksWhenResuming := mTicksPerPeriod - 1;
        } else {
          mRemainingTicksWhenResuming := scheduledTick.value - tick - 1;
          assert mRemainingTicksWhenResuming >= 0;
          scheduledTick := CancelTrigger(scheduledTick, tick);
        }
        mState := Stopped;
      }
    }

    /** Unlike the other calls this one does not notice an expiry; there is none to notice when the timer is stopped. */
    method ResumeStopped() returns (ok: bool)
      requires Valid()
      modifies this`mState, this`scheduledTick, this`history, this`ops, this`resumedFirst
      ensures Valid() && history == Resume(old(history)) && ok == (old(history.mode) == Stopped)
      ensures resumedFirst == (old(resumedFirst) || (ok && !old(CacheIsFresh())))
    {
      RunsAreSound(ops);
      if mState != Stopped {
        return false;
      }
      if !mCallbackPending {
        scheduledTick := RequestTrigger(scheduledTick, tick, mRemainingTicksWhenResuming);
      }
      mState := Running;
      history, ops := Do(history, DoResume), After(ops, DoResume);
      resumedFirst := resumedFirst || mCacheTimeStamp != Some(time);
      return true;
    }

    method GetCounterValue() returns (value: int)
      requires Valid()
      modifies this`mCacheTimeStamp, this`mCachedState, this`mCallbackPending, this`mRemainingShotCount, this`mState
      ensures Valid() && value == history.Counter()
    {
      RunsAreSound(ops);
      UpdateCache(false);
      if mCallbackPending || mState == Idle {
        return 0;
      }
      value := mTicksPerPeriod - if mState == Running then scheduledTick.value - tick else mRemainingTicksWhenResuming + 1;
    }

    /** The counter `delay` ticks ahead, when the timer cannot expire before: what GetCounterValue will return then. */
    method GetCounterValueAhead(delay: nat) returns (ok: bool, value: int)
      requires Valid()
      modifies this`mCacheTimeStamp, this`mCachedState, this`mCallbackPending, this`mRemainingShotCount, this`mState
      ensures Valid()
      ensures ok ==> value == Ticks(history, delay).Counter() && !Ticks(history, delay).CallbackToCome()
      ensures !ok ==> inCallback || history.CallbackToCome() ||
                      (history.mode == Running && history.count + delay >= history.period)
    {
      RunsAreSound(ops);
      UpdateCache(false);
      value := 0;
      if mCallbackPending {
        return false, 0;
      }
      if history.mode != Running || history.count + delay < history.period {
        TicksCount(history, delay);
      }
      match mState {
        case Idle => value := 0;
        case Running =>
          var tickCount := tick + delay;
          if tickCount >= scheduledTick.value {
            return false, 0;
          }
          value := mTicksPerPeriod - (scheduledTick.value - tickCount);
        case Stopped => value := mTicksPerPeriod - (mRemainingTicksWhenResuming + 1);
      }
      ok := true;
    }

    /** The state at the beginning of the current time stamp, unless the timer was resumed by the first call in it. */
    method GetState() returns (state: Mode)
      requires Valid()
      modifies this`mCacheTimeStamp, this`mCachedState, this`mCallbackPending, this`mRemainingShotCount, this`mState
      ensures Valid()
      ensures state == before.mode <==> !resumedFirst
    {
      UpdateCache(false);
      state := mCachedState;
    }

    /** A timer stopped in one time stamp and resumed by the first call of the next: its state is not the one that the
        time stamp began with. */
    static method ResumedFirstExample() returns (timer: ClockedTimer, state: Mode)
      ensures fresh(timer) && timer.Valid() && timer.before.mode == Stopped && state != Stopped
    {
      timer := new ClockedTimer();
      timer.StartTimer(10, 3);
      timer.AdvanceTime();
      timer.StopTimer();
      timer.AdvanceTime();
      var _ := timer.ResumeStopped();
      state := timer.GetState();
    }

    /** The tick handler: the clock clears the trigger, then calls back. */
    method HandleClockTick(callback: seq<Call>)
      requires Valid() && !inCallback && TriggerDue()
      modifies this`mCacheTimeStamp, this`mCachedState, this`mCallbackPending, this`mRemainingShotCount, this`mState,
               this`mTicksPerPeriod, this`mRemainingTicksWhenResuming, this`scheduledTick, this`history, this`ops,
               this`resumedFirst, this`inCallback
      ensures Valid() && !inCallback && !TriggerDue() && !history.CallbackToCome()
      ensures history == Calls(Callback(old(history)), callback)
    {
      BeginCallback();
      Perform(callback);
      EndCallback();
    }

    method BeginCallback()
      requires Valid() && !inCallback && TriggerDue()
      modifies this`mCacheTimeStamp, this`mCachedState, this`mCallbackPending, this`mRemainingShotCount, this`mState, this`scheduledTick,
               this`history, this`ops, this`inCallback
      ensures Noticed(false) && inCallback && history == Callback(old(history))
    {
      RunsAreSound(ops);
      scheduledTick := None;
      UpdateCache(true);
      assert mCallbackPending;
      history, ops := Do(history, DoCallback), After(ops, DoCallback);
      inCallback := true;
    }

    method EndCallback()
      requires Valid() && inCallback
      modifies this`mCallbackPending, this`inCallback, this`scheduledTick
      ensures Noticed(false) && !inCallback && !TriggerDue()
    {
      RunsAreSound(ops);
      mCallbackPending := false;
      inCallback := false;
      if mState == Running {
        scheduledTick := RequestTrigger(scheduledTick, tick, mTicksPerPeriod - 1);
      }
    }

    /** A sequence of calls in the current time stamp. */
    method Perform(calls: seq<Call>)
      requires Valid()
      modifies this`mCacheTimeStamp, this`mCachedState, this`mCallbackPending, this`mRemainingShotCount, this`mState,
               this`mTicksPerPeriod, this`mRemainingTicksWhenResuming, this`scheduledTick, this`history, this`ops,
               this`resumedFirst
      ensures Valid() && history == Calls(old(history), calls)
    {
      assert calls[..|calls|] == calls;
      for i := 0 to |calls|
        invariant Valid() && history == Calls(old(history), calls[..i])
      {
        assert calls[..i + 1][..i] == calls[..i];
        match calls[i] {
          case CallStart(period, shots) => StartTimer(period, shots);
          case CallStop => StopTimer();
          case CallResume => var ok := ResumeStopped();
          case CallCounter => var value := GetCounterValue();
          case CallState => var state := GetState();
        }
      }
    }
  }

  function Calls(h: History, calls: seq<Call>): History {
    if calls == [] then h
    else
      var h' := Calls(h, calls[..|calls| - 1]);
      match calls[|calls| - 1]
      case CallStart(period, shots) => Start(h', period, shots)
      case CallStop => Stop(h')
      case CallResume => Resume(h')
      case CallCounter => h'
      case CallState => h'
  }
}
