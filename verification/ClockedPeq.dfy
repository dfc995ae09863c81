/**
 The clocked payload event queue over its container.  The clock is seen through its tick
 count, the pending request, and what it refuses; every method does to the state what TriggerProtocol says.
 */
module ClockedPeq {
  import opened Options
  import opened PeqItems
  import opened PeqContainer
  import opened TriggerProtocol

  class Queue {
    const mImpl: Container
    var mUnblockClockTick: nat
    /** The tick count of the clock. */
    var now: nat
    /** The tick for which the clock holds a request of this queue. */
    var requested: Option<nat>
    /** The clock is calling the tick handlers for the current tick. */
    var processing: bool
    /** The clock has ended the program with a fatal error. */
    var aborted: bool
    /** An unsigned subtraction has wrapped around. */
    ghost var wrapped: bool

    constructor (pool: FreeList)
      requires pool.Valid()
      ensures Valid() && State() == INITIAL && fresh(mImpl) && mImpl.pool == pool
    {
      mImpl := new Container(pool);
      mUnblockClockTick, now, requested := 0, 0, None;
      processing, aborted, wrapped := false, false, false;
    }

    ghost predicate Valid()
      reads this, mImpl, mImpl.spine, mImpl.pool, mImpl.pool.spine
    {
      mImpl.Valid() && Fits(State())
    }

    ghost function State(): Peq
      reads this, mImpl, mImpl.spine
    {
      Peq(now, mUnblockClockTick, requested, mImpl.Items(), processing, wrapped, aborted)
    }

    /** No entry has come from anywhere but this queue, the free list or the heap. */
    twostate predicate SameEntries()
      reads mImpl, mImpl.pool
    {
      && (forall e :: e in mImpl.spine ==> fresh(e) || e in old(mImpl.spine) || e in old(mImpl.pool.spine))
      && (forall e :: e in mImpl.pool.spine ==> fresh(e) || e in old(mImpl.spine) || e in old(mImpl.pool.spine))
    }

    /** The number of ticks to skip is signed; a negative one ends the program. */
    method RequestClockTrigger(clockTicksToSkip: int)
      modifies this`requested, this`aborted
      ensures State() == Request(old(State()), clockTicksToSkip)
    {
      if clockTicksToSkip < 0 {
        aborted := true;
        return;
      }
      var target := now + 1 + clockTicksToSkip;
      if requested.None? || target < requested.value {
        requested := Some(target);
      }
    }

    /** A request that is due in the tick being processed must not be cancelled. */
    method CancelClockTrigger()
      modifies this`requested, this`aborted
      ensures State() == Cancelled(old(State()))
    {
      if requested.None? {
        return;
      }
      if processing && requested.value == now {
        aborted := true;
        return;
      }
      requested := None;
    }

    method ScheduleNextClockTrigger()
      requires Valid() && mImpl.Items() != []
      modifies this`requested, this`aborted, this`wrapped
      ensures Valid() && State() == Schedule(old(State()))
    {
      if mUnblockClockTick == BLOCKED {
        return;
      }
      var tickCount := mImpl.NextEventArrivalTick();
      if tickCount < mUnblockClockTick {
        tickCount := mUnblockClockTick;
      }
      wrapped := wrapped || tickCount < now;
      RequestClockTrigger(Signed(Minus(tickCount, now)));
    }

    method NotifyAt(payload: Payload, arrivalTick: nat) returns (atFront: bool)
      requires Valid() && !aborted && arrivalTick < WIDTH
      modifies this`requested, this`aborted, this`wrapped, mImpl, mImpl.pool, mImpl.spine, mImpl.pool.spine
      ensures Valid() && State() == After(old(State()), Op.Notify(payload, arrivalTick)) && SameEntries()
      ensures atFront == (Position(old(mImpl.Items()), arrivalTick) == 0)
    {
      ghost var p := State();
      InsertFits(p, Item(payload, arrivalTick));
      ghost var e;
      atFront, e := mImpl.NotifyAt(payload, arrivalTick);
      assert State() == p.(items := Insert(p.items, Item(payload, arrivalTick)));
      if atFront {
        ScheduleNextClockTrigger();
      }
    }

    method GetNext() returns (payload: Option<Payload>)
      requires Valid() && !aborted
      modifies this`requested, this`aborted, this`wrapped, mImpl, mImpl.pool, mImpl.spine
      ensures Valid() && State() == After(old(State()), Op.GetNext) && SameEntries()
      ensures payload == if VisibleCount(old(mImpl.Items()), now) == 0 then None else Some(old(mImpl.Items())[0].payload)
    {
      ghost var p := State();
      TakenFits(p);
      payload := mImpl.GetNext(now);
      assert State() == Taken(p);
      Reschedule();
    }

    /** With nothing visible left, the request moves on to the next arrival. */
    method Reschedule()
      requires Valid()
      modifies this`requested, this`aborted, this`wrapped
      ensures Valid() && State() == Rescheduled(old(State()))
    {
      if mImpl.IsEmpty(now) && requested.Some? {
        CancelClockTrigger();
        if !aborted && mImpl.HasMoreEvents() {
          ScheduleNextClockTrigger();
        }
      }
    }

    method Remove(payload: Payload) returns (ok: bool)
      requires Valid() && !aborted
      modifies mImpl, mImpl.pool, mImpl.spine
      ensures Valid() && State() == After(old(State()), Op.Remove(payload)) && SameEntries()
      ensures ok == FirstMatch(old(mImpl.Items()), payload, now).Some?
    {
      ghost var p := State();
      ok := mImpl.Remove(payload, now);
      assert State() == Removed(p, payload);
    }

    method Block()
      requires Valid() && !aborted
      modifies this`mUnblockClockTick, this`requested, this`aborted
      ensures Valid() && State() == After(old(State()), Op.Block)
      ensures mUnblockClockTick == BLOCKED && (aborted || requested.None?)
    {
      mUnblockClockTick := BLOCKED;
      CancelClockTrigger();
    }

    method UnblockAt(tick: nat)
      requires Valid() && !aborted && tick < WIDTH
      modifies this`mUnblockClockTick, this`requested, this`aborted, this`wrapped
      ensures Valid() && State() == After(old(State()), Op.UnblockAt(tick))
    {
      mUnblockClockTick := tick;
      if mImpl.HasMoreEvents() {
        ScheduleNextClockTrigger();
      }
    }

    method Perform(op: Op)
      requires Valid() && OpFits(op)
      modifies this`mUnblockClockTick, this`requested, this`aborted, this`wrapped, mImpl, mImpl.pool, mImpl.spine, mImpl.pool.spine
      ensures Valid() && State() == After(old(State()), op) && SameEntries()
    {
      if aborted {
        return;
      }
      match op
      case Notify(payload, tick) => var _ := NotifyAt(payload, tick);
      case GetNext => var _ := GetNext();
      case Remove(payload) => var _ := Remove(payload);
      case Block => Block();
      case UnblockAt(tick) => UnblockAt(tick);
    }

    /** The user's callback: any calls on this queue. */
    method RunCallback(callback: Ops)
      requires Valid() && AllFit(callback)
      modifies this`mUnblockClockTick, this`requested, this`aborted, this`wrapped, mImpl, mImpl.pool, mImpl.spine, mImpl.pool.spine
      ensures Valid() && State() == AfterAll(old(State()), callback) && SameEntries()
      decreases callback
    {
      match callback
      case NoOps =>
      case Do(op, rest) =>
        Perform(op);
        assert forall i :: 0 <= i < |mImpl.spine| ==> mImpl.spine[i] in mImpl.spine;
        assert forall i :: 0 <= i < |mImpl.pool.spine| ==> mImpl.pool.spine[i] in mImpl.pool.spine;
        RunCallback(rest);
    }

    /** The request for this tick is dropped before the handler runs. */
    method HandleClockTick(callback: Ops)
      requires Valid() && AllFit(callback) && DueNow(State()) && !aborted
      modifies this`mUnblockClockTick, this`requested, this`aborted, this`wrapped, mImpl, mImpl.pool, mImpl.spine, mImpl.pool.spine
      ensures Valid() && State() == Handled(old(State()), callback)
    {
      ghost var p := State();
      requested := None;
      assert State() == p.(trigger := None);
      RunCallback(callback);
      Rearm();
    }

    method Rearm()
      requires Valid()
      modifies this`mUnblockClockTick, this`requested, this`aborted, this`wrapped
      ensures Valid() && State() == Rearmed(old(State()))
    {
      if aborted {
        return;
      }
      ghost var c := State();
      if mUnblockClockTick < now {
        mUnblockClockTick := now;
      }
      assert State() == if c.unblock < c.now then c.(unblock := c.now) else c;
      if mImpl.HasMoreEvents() {
        ScheduleNextClockTrigger();
      }
    }
  }
}
