/**
 The trigger protocol of the clocked payload event queue, on values: when a callback is
 requested from the clock, cancelled and run.

 The main result (AlwaysAwake): in every run whose calls name no tick that has passed, no
 wake-up is lost and the unsigned subtraction in schedule_next_clock_trigger never wraps
 around.  The clock ends the program when it is asked to skip a negative number of ticks;
 ScheduleAborts and LateUnblockAborts say exactly when that happens.
 */
module TriggerProtocol {
  import opened Numbers
  import opened Options
  import opened PeqItems

  const HALF: nat := 0x8000_0000_0000_0000
  const WIDTH: nat := 2 * HALF
  const BLOCKED: nat := WIDTH - 1

  /** `trigger` is the tick for which the clock has a pending request.
      processing: the clock is calling the tick handlers for the current tick.
      wrapped: an unsigned subtraction has wrapped around.
      aborted: the clock has ended the program. */
  datatype Peq = Peq(now: nat, unblock: nat, trigger: Option<nat>, items: seq<Item>,
                     processing: bool, wrapped: bool, aborted: bool)

  datatype Op =
    | Notify(payload: Payload, tick: nat)
    | GetNext
    | Remove(payload: Payload)
    | Block
    | UnblockAt(tick: nat)

  datatype Ops = NoOps | Do(op: Op, rest: Ops)

  /** What happens to the queue: a call, the next tick of the clock, the beginning and the end of the processing of a
      tick, or the handling of the queue's own request in it. */
  datatype Event = Call(op: Op) | Tick | BeginTick | EndTick | Handle(callback: Ops)

  datatype Events = Quiet | Next(event: Event, rest: Events)

  /** Unsigned 64-bit subtraction. */
  function Minus(a: nat, b: nat): (d: nat)
    requires a < WIDTH && b < WIDTH
    ensures d < WIDTH
  {
    (a + WIDTH - b) % WIDTH
  }

  /** The signed 64-bit number with the same bits. */
  function Signed(d: nat): int
    requires d < WIDTH
  {
    if d < HALF then d else d - WIDTH
  }

  /** A request for the tick after `skip` more ticks: a pending earlier request stays, and a negative number of ticks
      is a fatal error. */
  function Request(p: Peq, skip: int): Peq {
    if skip < 0 then p.(aborted := true)
    else
      var target := p.now + 1 + skip;
      if p.trigger.None? || target < p.trigger.value then p.(trigger := Some(target)) else p
  }

  /** Cancelling a request that is due in the tick being processed is a fatal error. */
  function Cancelled(p: Peq): Peq {
    if p.processing && p.trigger == Some(p.now) then p.(aborted := true) else p.(trigger := None)
  }

  /** The tick from which the first item may be announced. */
  function Due(p: Peq): nat
    requires p.items != []
  {
    Max(p.items[0].tick, p.unblock)
  }

  /** Ticks are unsigned 64-bit numbers; the clock itself has not counted to 2^63. */
  ghost predicate Fits(p: Peq) {
    p.now < HALF && p.unblock < WIDTH && forall i :: 0 <= i < |p.items| ==> p.items[i].tick < WIDTH
  }

  function Schedule(p: Peq): Peq
    requires p.items != [] && p.now < HALF && p.unblock < WIDTH && p.items[0].tick < WIDTH
  {
    if p.unblock == BLOCKED then p
    else Request(p.(wrapped := p.wrapped || Due(p) < p.now), Signed(Minus(Due(p), p.now)))
  }

  predicate OpFits(op: Op) {
    match op
    case Notify(_, tick) => tick < WIDTH
    case UnblockAt(tick) => tick < WIDTH
    case _ => true
  }

  /** The first visible item, if any, is out. */
  function Taken(p: Peq): Peq {
    if VisibleCount(p.items, p.now) == 0 then p else p.(items := p.items[1..])
  }

  /** With nothing visible left, the request moves on to the next arrival. */
  function Rescheduled(q: Peq): (r: Peq)
    requires Fits(q)
    ensures r.now == q.now && r.items == q.items && r.unblock == q.unblock
  {
    if VisibleCount(q.items, q.now) == 0 && q.trigger.Some? then
      var r := Cancelled(q);
      if r.aborted || r.items == [] then r else Schedule(r)
    else q
  }

  lemma InsertFits(p: Peq, x: Item)
    requires Fits(p) && x.tick < WIDTH
    ensures Fits(p.(items := Insert(p.items, x)))
  {
  }

  function Notified(p: Peq, x: Item): (q: Peq)
    requires Fits(p) && x.tick < WIDTH
    ensures Fits(q) && q.now == p.now
  {
    InsertFits(p, x);
    var q := p.(items := Insert(p.items, x));
    if Position(p.items, x.tick) == 0 then Schedule(q) else q
  }

  lemma TakenFits(p: Peq)
    requires Fits(p)
    ensures Fits(Taken(p))
  {
  }

  function Removed(p: Peq, payload: Payload): (q: Peq)
    requires Fits(p)
    ensures Fits(q) && q == p.(items := q.items)
  {
    var k := FirstMatch(p.items, payload, p.now);
    if k.None? then p else p.(items := Without(p.items, k.value))
  }

  function Unblocked(p: Peq, tick: nat): (q: Peq)
    requires Fits(p) && tick < WIDTH
    ensures Fits(q) && q.now == p.now
  {
    var q := p.(unblock := tick);
    if q.items != [] then Schedule(q) else q
  }

  /** The call itself, for 64-bit ticks; there are none after the end of the program. */
  function After(p: Peq, op: Op): (q: Peq)
    requires Fits(p) && OpFits(op)
    ensures Fits(q) && q.now == p.now
  {
    if p.aborted then p else
    match op
    case Notify(payload, tick) => Notified(p, Item(payload, tick))
    case GetNext => TakenFits(p); Rescheduled(Taken(p))
    case Remove(payload) => Removed(p, payload)
    case Block => Cancelled(p.(unblock := BLOCKED))
    case UnblockAt(tick) => Unblocked(p, tick)
  }

  function AfterAll(p: Peq, ops: Ops): (q: Peq)
    requires Fits(p) && AllFit(ops)
    ensures Fits(q) && q.now == p.now
    decreases ops
  {
    match ops
    case NoOps => p
    case Do(op, rest) => AfterAll(After(p, op), rest)
  }

  predicate AllFit(ops: Ops)
    decreases ops
  {
    match ops
    case NoOps => true
    case Do(op, rest) => OpFits(op) && AllFit(rest)
  }

  /** The requested tick is the current one: its request is gone, the callback runs, and then the next is requested. */
  function Handled(p: Peq, callback: Ops): (q: Peq)
    requires Fits(p) && AllFit(callback)
    ensures Fits(q) && q.now == p.now
  {
    Rearmed(AfterAll(p.(trigger := None), callback))
  }

  /** What the handler does after its callback. */
  function Rearmed(c: Peq): (q: Peq)
    requires Fits(c)
    ensures Fits(q) && q.now == c.now
  {
    if c.aborted then c
    else
      var r := if c.unblock < c.now then c.(unblock := c.now) else c;
      if r.items != [] then Schedule(r) else r
  }

  /** Calls name no tick that has passed. */
  predicate Punctual(now: nat, op: Op) {
    match op
    case Notify(_, tick) => now <= tick
    case UnblockAt(tick) => now <= tick
    case _ => true
  }

  /** The current tick has not passed. */
  lemma {:induction false} PunctualAllowsNow(now: nat, op: Op)
    ensures Punctual(now, op) <==> !(op.Notify? && op.tick < now) && !(op.UnblockAt? && op.tick < now)
  {
  }

  predicate AllPunctual(now: nat, ops: Ops)
    decreases ops
  {
    match ops
    case NoOps => true
    case Do(op, rest) => Punctual(now, op) && AllPunctual(now, rest)
  }

  predicate DueNow(p: Peq) {
    p.trigger == Some(p.now)
  }

  /** The clock's side of the protocol, and the caller's. */
  ghost predicate Allowed(p: Peq, event: Event) {
    match event
    case Call(op) => OpFits(op) && Punctual(p.now, op)
    case Tick => !p.processing && !DueNow(p) && p.now + 1 < HALF
    case BeginTick => !p.processing
    case EndTick => p.processing && !DueNow(p)
    case Handle(callback) => p.processing && DueNow(p) && AllFit(callback) && AllPunctual(p.now, callback)
  }

  function Step(p: Peq, event: Event): (q: Peq)
    requires Fits(p) && Allowed(p, event)
    ensures Fits(q)
  {
    if p.aborted then p else
    match event
    case Call(op) => After(p, op)
    case Tick => p.(now := p.now + 1)
    case BeginTick => p.(processing := true)
    case EndTick => p.(processing := false)
    case Handle(callback) => Handled(p, callback)
  }

  ghost predicate AllAllowed(p: Peq, events: Events)
    requires Fits(p)
    decreases events
  {
    match events
    case Quiet => true
    case Next(event, rest) => Allowed(p, event) && AllAllowed(Step(p, event), rest)
  }

  function Run(p: Peq, events: Events): (q: Peq)
    requires Fits(p) && AllAllowed(p, events)
    ensures Fits(q)
    decreases events
  {
    match events
    case Quiet => p
    case Next(event, rest) => Run(Step(p, event), rest)
  }

  /** A pending request is not for the past. */
  predicate Ahead(p: Peq) {
    p.trigger.Some? ==> p.now <= p.trigger.value
  }

  predicate Later(p: Peq) {
    p.trigger.Some? ==> p.now < p.trigger.value
  }

  /** While unblocked with items pending, a callback is due now or requested for a tick no
      later than one after the first arrival, the unblock tick and now. */
  predicate Awake(p: Peq) {
    p.unblock != BLOCKED && p.items != [] ==>
      p.trigger.Some? && p.now <= p.trigger.value <= Max(Due(p), p.now) + 1
  }

  /** A callback that comes will find something to take. */
  predicate Useful(p: Peq) {
    p.trigger.Some? ==> p.items != [] && p.items[0].tick < p.trigger.value
  }

  ghost predicate Inv(p: Peq) {
    Fits(p) && Sorted(p.items) && Ahead(p)
  }

  const INITIAL := Peq(0, 0, None, [], false, false, false)

  /** Neither the program has ended nor a subtraction wrapped around. */
  predicate Sane(p: Peq) {
    !p.wrapped && !p.aborted
  }

  /** The tick lies so far ahead that the number of ticks to skip is negative as a signed number. */
  predicate OutOfReach(now: nat, tick: nat) {
    tick < now || now + HALF <= tick
  }

  lemma SkipIsExact(due: nat, now: nat)
    requires now < HALF && due < WIDTH
    ensures Minus(due, now) == due - now <==> now <= due
    ensures Signed(Minus(due, now)) < 0 <==> OutOfReach(now, due)
    ensures !OutOfReach(now, due) ==> Signed(Minus(due, now)) == due - now
  {
  }

  /** Scheduling ends the program exactly when the first arrival and the unblock tick are both in the past, where the
      subtraction wraps around, or one of them is 2^63 ticks ahead. */
  lemma {:induction false} ScheduleAborts(p: Peq)
    requires Fits(p) && p.items != [] && p.unblock != BLOCKED && !p.aborted
    ensures Schedule(p).aborted <==> (p.items[0].tick < p.now && p.unblock < p.now) ||
                                     p.now + HALF <= p.items[0].tick || p.now + HALF <= p.unblock
    ensures Schedule(p).wrapped <==> p.wrapped || (p.items[0].tick < p.now && p.unblock < p.now)
  {
    SkipIsExact(Due(p), p.now);
  }

  /** Otherwise the request is for exactly one tick after that. */
  lemma {:induction false} ScheduleIsExact(p: Peq)
    requires Fits(p) && p.items != [] && p.unblock != BLOCKED && Ahead(p) && !OutOfReach(p.now, Due(p))
    ensures var t := if p.trigger.Some? && p.trigger.value <= Due(p) + 1 then p.trigger.value else Due(p) + 1;
            Schedule(p) == p.(trigger := Some(t))
  {
    SkipIsExact(Due(p), p.now);
  }

  /** Unblocking at a tick that has passed, which is documented to take effect at the next tick, ends the program if
      and only if the first item waits since before now, or comes 2^63 ticks from now. */
  lemma {:induction false} LateUnblockAborts(p: Peq, tick: nat)
    requires Inv(p) && !p.aborted && tick < p.now
    ensures var q := After(p, UnblockAt(tick));
            && (q.aborted <==> p.items != [] && OutOfReach(p.now, p.items[0].tick))
            && (q.wrapped <==> p.wrapped || VisibleCount(p.items, p.now) > 0)
  {
    if p.items != [] {
      ScheduleAborts(p.(unblock := tick));
    }
  }

  /** When it does not, the queue is awake afterwards. */
  lemma {:induction false} LateUnblockWakes(p: Peq, tick: nat)
    requires Inv(p) && !p.aborted && tick < p.now && !After(p, UnblockAt(tick)).aborted
    ensures Awake(After(p, UnblockAt(tick)))
  {
    LateUnblockAborts(p, tick);
    if p.items != [] {
      ScheduleIsExact(p.(unblock := tick));
    }
  }

  /** A push for a tick that has passed ends the program if and only if it comes first in a queue that was unblocked
      before now, or at a tick that is out of reach. */
  lemma {:induction false} LatePushAborts(p: Peq, payload: Payload, tick: nat)
    requires Inv(p) && !p.aborted && tick < p.now
    ensures After(p, Notify(payload, tick)).aborted <==>
              p.unblock != BLOCKED && OutOfReach(p.now, p.unblock) && (p.items != [] ==> tick < p.items[0].tick)
  {
    var q := p.(items := Insert(p.items, Item(payload, tick)));
    if Position(p.items, tick) == 0 {
      InsertFits(p, Item(payload, tick));
      assert q.items[0].tick == tick;
      if p.unblock != BLOCKED { ScheduleAborts(q); }
    }
  }

  /** Unblocked at tick 9, with a request pending for tick 10 and a visible item; unblocking again at tick 7 is fatal. */
  lemma UnblockingInThePastExample()
    ensures exists p :: Inv(p) && Awake(p) && Sane(p) && p.now == p.unblock == 9 && VisibleCount(p.items, 9) == 1 &&
                        After(p, UnblockAt(7)).aborted
  {
    var p := Peq(9, 9, Some(10), [Item(1, 4)], false, false, false);
    assert VisibleCount(p.items[1..], 9) == 0;
    LateUnblockAborts(p, 7);
  }

  /** Who else can end the program: a cancel while the clock processes the tick of the request, or a new request for
      a tick out of reach. */
  lemma {:induction false} CancellingAborts(p: Peq)
    requires Inv(p) && !p.aborted
    ensures After(p, Block).aborted <==> p.processing && DueNow(p)
    ensures var q := Taken(p);
            var refused := p.processing && DueNow(p);
            var far := q.items != [] && p.unblock != BLOCKED && OutOfReach(p.now, Due(q));
            After(p, GetNext).aborted <==> (VisibleCount(q.items, p.now) == 0 && p.trigger.Some? && (refused || far))
  {
    var q := Taken(p);
    TakenFits(p);
    if q.items != [] {
      SkipIsExact(Due(q), p.now);
    }
  }

  /** What every call keeps: the queue is sorted and the request ahead, no subtraction has wrapped around, and no
      wake-up is lost. */
  ghost predicate Kept(p: Peq, q: Peq) {
    && Inv(q) && q.wrapped == p.wrapped && (Later(p) ==> Later(q))
    && (Awake(p) ==> q.aborted || Awake(q))
  }

  lemma {:induction false} ScheduleKeeps(p: Peq)
    requires Inv(p) && p.items != [] && p.now <= Due(p)
    ensures var q := Schedule(p);
            && Inv(q) && q.wrapped == p.wrapped && (Later(p) ==> Later(q)) && (q.aborted || Awake(q))
  {
    SkipIsExact(Due(p), p.now);
  }

  lemma {:induction false} NotifiedKeeps(p: Peq, x: Item)
    requires Inv(p) && x.tick < WIDTH && p.now <= x.tick
    ensures Kept(p, Notified(p, x))
  {
    InsertFits(p, x);
    InsertIsSorted(p.items, x);
    var q := p.(items := Insert(p.items, x));
    if Position(p.items, x.tick) == 0 {
      assert q.items[0] == x;
      ScheduleKeeps(q);
    } else {
      assert q.items[0] == p.items[0];
    }
  }

  lemma {:induction false} TakenKeeps(p: Peq)
    requires Inv(p)
    ensures Kept(p, Taken(p))
  {
    TakenFits(p);
  }

  lemma {:induction false} RescheduledKeeps(q: Peq)
    requires Inv(q)
    ensures Kept(q, Rescheduled(q))
  {
    if VisibleCount(q.items, q.now) == 0 && q.trigger.Some? && q.items != [] && !Cancelled(q).aborted {
      ScheduleKeeps(Cancelled(q));
    }
  }

  lemma {:induction false} RemovedKeeps(p: Peq, payload: Payload)
    requires Inv(p)
    ensures Kept(p, Removed(p, payload))
  {
    var k := FirstMatch(p.items, payload, p.now);
    if k.Some? { WithoutIsSorted(p.items, k.value); }
  }

  /** Whoever pushes, takes, removes, blocks or unblocks. */
  lemma {:induction false} CallKeeps(p: Peq, op: Op)
    requires Inv(p) && OpFits(op) && Punctual(p.now, op)
    ensures Kept(p, After(p, op))
  {
    match op
    case Notify(payload, tick) => NotifiedKeeps(p, Item(payload, tick));
    case GetNext =>
      TakenKeeps(p);
      RescheduledKeeps(Taken(p));
    case Remove(payload) => RemovedKeeps(p, payload);
    case Block =>
    case UnblockAt(tick) => if p.items != [] { ScheduleKeeps(p.(unblock := tick)); }
  }

  lemma {:induction false} CallbackKeeps(p: Peq, ops: Ops)
    requires Inv(p) && AllFit(ops) && AllPunctual(p.now, ops) && Later(p)
    ensures var q := AfterAll(p, ops); Inv(q) && Later(q) && q.wrapped == p.wrapped
    decreases ops
  {
    match ops
    case NoOps =>
    case Do(op, rest) =>
      CallKeeps(p, op);
      CallbackKeeps(After(p, op), rest);
  }

  lemma {:induction false} RearmedIsAwake(c: Peq)
    requires Inv(c) && Later(c)
    ensures var q := Rearmed(c);
            && Inv(q) && q.wrapped == c.wrapped && (q.aborted || (Awake(q) && Later(q)))
  {
    var r := if c.unblock < c.now then c.(unblock := c.now) else c;
    if r.items != [] { ScheduleKeeps(r); }
  }

  /** After the handler the queue is awake again, whatever its callback did, and nothing has wrapped around. */
  lemma {:induction false} HandlerWakes(p: Peq, callback: Ops)
    requires Inv(p) && AllFit(callback) && AllPunctual(p.now, callback)
    ensures var q := Handled(p, callback);
            && Inv(q) && q.wrapped == p.wrapped && (q.aborted || (Awake(q) && !DueNow(q)))
  {
    CallbackKeeps(p.(trigger := None), callback);
    RearmedIsAwake(AfterAll(p.(trigger := None), callback));
  }

  lemma {:induction false} StepKeeps(p: Peq, event: Event)
    requires Inv(p) && (p.aborted || Awake(p)) && Allowed(p, event)
    ensures var q := Step(p, event); Inv(q) && q.wrapped == p.wrapped && (q.aborted || Awake(q))
  {
    match event
    case Call(op) => CallKeeps(p, op);
    case Tick =>
    case BeginTick =>
    case EndTick =>
    case Handle(callback) => HandlerWakes(p, callback);
  }

  /** In every run whose calls name no passed tick, no subtraction wraps around and no wake-up is lost. */
  lemma {:induction false} AlwaysAwake(p: Peq, events: Events)
    requires Inv(p) && (p.aborted || Awake(p)) && AllAllowed(p, events)
    ensures var q := Run(p, events); Inv(q) && q.wrapped == p.wrapped && (q.aborted || Awake(q))
    decreases events
  {
    match events
    case Quiet =>
    case Next(event, rest) =>
      StepKeeps(p, event);
      AlwaysAwake(Step(p, event), rest);
  }

  // ----- what each call does to the request -----

  /** The request after asking for a callback right after `tick`. */
  function Earlier(trigger: Option<nat>, tick: nat): Option<nat> {
    if trigger.Some? && trigger.value <= tick + 1 then trigger else Some(tick + 1)
  }

  /** A blocked queue has no request. */
  lemma {:induction false} BlockCancels(p: Peq)
    requires Fits(p) && !p.aborted
    ensures var q := After(p, Block);
            && q.unblock == BLOCKED && q.items == p.items
            && (q.aborted || q.trigger.None?) && (q.aborted <==> p.processing && p.trigger == Some(p.now))
  {
  }

  /** Unblocking asks for a callback right after the first arrival or the unblock tick, whichever is later. */
  lemma {:induction false} UnblockRequests(p: Peq, tick: nat)
    requires Inv(p) && !p.aborted && tick < WIDTH && !After(p, UnblockAt(tick)).aborted
    ensures var q := After(p, UnblockAt(tick));
            && q.unblock == tick && q.items == p.items
            && q.trigger == if p.items == [] || tick == BLOCKED then p.trigger
                            else Earlier(p.trigger, if p.items[0].tick < tick then tick else p.items[0].tick)
  {
    var q := p.(unblock := tick);
    if q.items != [] { SkipIsExact(Due(q), q.now); }
  }

  /** A push asks for one if it comes first and the queue is not blocked. */
  lemma {:induction false} PushRequests(p: Peq, payload: Payload, tick: nat)
    requires Inv(p) && !p.aborted && tick < WIDTH && !After(p, Notify(payload, tick)).aborted
    ensures var q := After(p, Notify(payload, tick));
            && q.unblock == p.unblock && q.items == Insert(p.items, Item(payload, tick))
            && q.trigger == if (p.items != [] && p.items[0].tick <= tick) || p.unblock == BLOCKED then p.trigger
                            else Earlier(p.trigger, if tick < p.unblock then p.unblock else tick)
  {
    var x := Item(payload, tick);
    InsertFits(p, x);
    var q := p.(items := Insert(p.items, x));
    if Position(p.items, tick) == 0 {
      assert q.items[0] == x;
      SkipIsExact(Due(q), q.now);
    }
  }

  lemma {:induction false} RescheduledRequests(q: Peq)
    requires Inv(q) && !q.aborted && !Rescheduled(q).aborted
    ensures Rescheduled(q).trigger ==
            if q.trigger.None? || (q.items != [] && q.items[0].tick < q.now) then q.trigger
            else if q.items == [] || q.unblock == BLOCKED then None
            else Earlier(None, if q.items[0].tick < q.unblock then q.unblock else q.items[0].tick)
  {
    if q.items != [] { SkipIsExact(Due(q), q.now); }
  }

  /** Taking the last visible item moves a request on to the next arrival. */
  lemma {:induction false} TakeRequests(p: Peq)
    requires Inv(p) && !p.aborted && !After(p, GetNext).aborted
    ensures var q := After(p, GetNext);
            && q.unblock == p.unblock
            && q.items == (if p.items != [] && p.items[0].tick < p.now then p.items[1..] else p.items)
            && q.trigger == if p.trigger.None? || (q.items != [] && q.items[0].tick < p.now) then p.trigger
                            else if q.items == [] || p.unblock == BLOCKED then None
                            else Earlier(None, if q.items[0].tick < p.unblock then p.unblock else q.items[0].tick)
  {
    TakenKeeps(p);
    RescheduledRequests(Taken(p));
  }

  /** Removing only removes. */
  lemma {:induction false} RemoveOnlyRemoves(p: Peq, payload: Payload)
    requires Inv(p) && !p.aborted
    ensures var q := After(p, Remove(payload));
            && q == p.(items := q.items)
            && q.items == match FirstMatch(p.items, payload, p.now)
                          case None => p.items
                          case Some(k) => Without(p.items, k)
  {
  }

  /** After the handler the next callback is asked for, right after the later of the first arrival and the unblock tick;
      the latter is now at least. */
  lemma {:induction false} HandlerRequests(p: Peq)
    requires Inv(p) && !p.aborted && p.trigger == Some(p.now) && !Handled(p, NoOps).aborted
    ensures var q := Handled(p, NoOps);
            && q.items == p.items && q.unblock == (if p.unblock < p.now then p.now else p.unblock)
            && q.trigger == if q.items == [] || q.unblock == BLOCKED then None
                            else Earlier(None, if q.items[0].tick < q.unblock then q.unblock else q.items[0].tick)
  {
    assert AfterAll(p.(trigger := None), NoOps) == p.(trigger := None);
    var r := p.(trigger := None, unblock := if p.unblock < p.now then p.now else p.unblock);
    if r.items != [] { SkipIsExact(Due(r), r.now); }
  }

  /** After a fatal error nothing happens any more, also when it comes in the middle of a callback. */
  lemma {:induction false} NothingAfterTheEnd(p: Peq, op: Op, rest: Ops)
    requires Fits(p) && OpFits(op) && AllFit(rest)
    ensures p.aborted ==> After(p, op) == p && Rearmed(p) == p
    ensures After(p, op).aborted ==> AfterAll(p, Do(op, rest)) == After(p, op)
  {
    if After(p, op).aborted { AbortedStays(After(p, op), rest); }
  }

  // ----- no callback while blocked -----

  /** A blocked queue has no request. */
  predicate Silent(p: Peq) {
    p.unblock == BLOCKED && !p.aborted ==> p.trigger.None?
  }

  /** Blocking is done by block. */
  predicate BlocksProperly(op: Op) {
    op.UnblockAt? ==> op.tick != BLOCKED
  }

  predicate AllBlockProperly(ops: Ops)
    decreases ops
  {
    match ops
    case NoOps => true
    case Do(op, rest) => BlocksProperly(op) && AllBlockProperly(rest)
  }

  predicate RunBlocksProperly(events: Events)
    decreases events
  {
    match events
    case Quiet => true
    case Next(event, rest) =>
      && (event.Call? ==> BlocksProperly(event.op))
      && (event.Handle? ==> AllBlockProperly(event.callback))
      && RunBlocksProperly(rest)
  }

  lemma {:induction false} CallStaysSilent(p: Peq, op: Op)
    requires Fits(p) && Silent(p) && OpFits(op) && BlocksProperly(op)
    ensures Silent(After(p, op))
  {
    if op.Notify? { InsertFits(p, Item(op.payload, op.tick)); }
    if op.GetNext? { TakenFits(p); }
  }

  lemma {:induction false} CallbackStaysSilent(p: Peq, ops: Ops)
    requires Fits(p) && Silent(p) && AllFit(ops) && AllBlockProperly(ops)
    ensures Silent(AfterAll(p, ops))
    decreases ops
  {
    match ops
    case NoOps =>
    case Do(op, rest) =>
      CallStaysSilent(p, op);
      CallbackStaysSilent(After(p, op), rest);
  }

  /** In every run, however it pushes, takes, removes, blocks and unblocks: between a block and the next unblock there is
      no request, and the clock has nothing to call back for. */
  lemma {:induction false} NoCallbackWhileBlocked(p: Peq, events: Events, callback: Ops)
    requires Fits(p) && Silent(p) && AllAllowed(p, events) && RunBlocksProperly(events)
    ensures Silent(Run(p, events))
    ensures Run(p, events).unblock == BLOCKED && !Run(p, events).aborted ==> !Allowed(Run(p, events), Handle(callback))
    decreases events
  {
    match events
    case Quiet =>
    case Next(event, rest) =>
      if event.Call? { CallStaysSilent(p, event.op); }
      if event.Handle? { CallbackStaysSilent(p.(trigger := None), event.callback); }
      NoCallbackWhileBlocked(Step(p, event), rest, callback);
  }

  // ----- runs that do not end the program -----

  predicate InReach(now: nat, op: Op) {
    match op
    case Notify(_, tick) => tick < now + HALF
    case UnblockAt(tick) => tick < now + HALF || tick == BLOCKED
    case _ => true
  }

  /** The ticks that calls may name reach up to 2^63 ticks ahead; the tick that blocks may be named as well. */
  lemma {:induction false} InReachIsExact(now: nat, op: Op)
    ensures InReach(now, op) <==>
              !(op.Notify? && now + HALF <= op.tick) && !(op.UnblockAt? && now + HALF <= op.tick && op.tick != BLOCKED)
  {
  }

  predicate AllInReach(now: nat, ops: Ops)
    decreases ops
  {
    match ops
    case NoOps => true
    case Do(op, rest) => InReach(now, op) && AllInReach(now, rest)
  }

  /** No tick named is 2^63 ticks ahead, and from the handler of another module no request for the tick being
      processed is cancelled. */
  predicate Careful(p: Peq, event: Event) {
    match event
    case Call(op) => InReach(p.now, op) && !(p.processing && DueNow(p) && (op.GetNext? || op.Block?))
    case Handle(callback) => AllInReach(p.now, callback)
    case _ => true
  }

  ghost predicate AllCareful(p: Peq, events: Events)
    requires Fits(p) && AllAllowed(p, events)
    decreases events
  {
    match events
    case Quiet => true
    case Next(event, rest) => Careful(p, event) && AllCareful(Step(p, event), rest)
  }

  ghost predicate Near(p: Peq) {
    && (forall i :: 0 <= i < |p.items| ==> p.items[i].tick < p.now + HALF)
    && (p.unblock < p.now + HALF || p.unblock == BLOCKED)
  }

  lemma {:induction false} ScheduleInReach(p: Peq)
    requires Fits(p) && p.items != [] && p.now <= Due(p) && Near(p) && !p.aborted
    ensures Near(Schedule(p)) && !Schedule(p).aborted
  {
    SkipIsExact(Due(p), p.now);
  }

  lemma {:induction false} NotifiedInReach(p: Peq, x: Item)
    requires Inv(p) && Near(p) && !p.aborted && x.tick < WIDTH && p.now <= x.tick < p.now + HALF
    ensures Near(Notified(p, x)) && !Notified(p, x).aborted
  {
    InsertFits(p, x);
    var q := p.(items := Insert(p.items, x));
    assert Near(q);
    if Position(p.items, x.tick) == 0 {
      assert q.items[0] == x;
      ScheduleInReach(q);
    }
  }

  lemma {:induction false} RescheduledInReach(q: Peq)
    requires Inv(q) && Near(q) && !q.aborted && !(q.processing && DueNow(q))
    ensures Near(Rescheduled(q)) && !Rescheduled(q).aborted
  {
    if VisibleCount(q.items, q.now) == 0 && q.trigger.Some? && q.items != [] { ScheduleInReach(Cancelled(q)); }
  }

  lemma {:induction false} RemovedInReach(p: Peq, payload: Payload)
    requires Fits(p) && Near(p)
    ensures Near(Removed(p, payload))
  {
  }

  lemma {:induction false} CarefulCall(p: Peq, op: Op)
    requires Inv(p) && Near(p) && !p.aborted && OpFits(op) && Punctual(p.now, op) && InReach(p.now, op)
    requires !(p.processing && DueNow(p) && (op.GetNext? || op.Block?))
    ensures Near(After(p, op)) && !After(p, op).aborted
  {
    match op
    case Notify(payload, tick) => NotifiedInReach(p, Item(payload, tick));
    case GetNext =>
      TakenKeeps(p);
      RescheduledInReach(Taken(p));
    case Remove(payload) => RemovedInReach(p, payload);
    case Block =>
    case UnblockAt(tick) => if p.items != [] { ScheduleInReach(p.(unblock := tick)); }
  }

  lemma {:induction false} CarefulCallback(p: Peq, ops: Ops)
    requires Inv(p) && Near(p) && Later(p) && !p.aborted && AllFit(ops) && AllPunctual(p.now, ops) && AllInReach(p.now, ops)
    ensures Near(AfterAll(p, ops)) && !AfterAll(p, ops).aborted
    decreases ops
  {
    match ops
    case NoOps =>
    case Do(op, rest) =>
      CallKeeps(p, op);
      CarefulCall(p, op);
      CarefulCallback(After(p, op), rest);
  }

  lemma {:induction false} CarefulStep(p: Peq, event: Event)
    requires Inv(p) && Near(p) && !p.aborted && Allowed(p, event) && Careful(p, event)
    ensures Near(Step(p, event)) && !Step(p, event).aborted
  {
    match event
    case Call(op) => CarefulCall(p, op);
    case Tick =>
    case BeginTick =>
    case EndTick =>
    case Handle(callback) =>
      var c := AfterAll(p.(trigger := None), callback);
      CallbackKeeps(p.(trigger := None), callback);
      CarefulCallback(p.(trigger := None), callback);
      var r := if c.unblock < c.now then c.(unblock := c.now) else c;
      if r.items != [] { ScheduleInReach(r); }
  }

  /** Such a run goes on, and is awake throughout. */
  lemma {:induction false} CarefulRunsGoOn(p: Peq, events: Events)
    requires Inv(p) && Awake(p) && Near(p) && Sane(p) && AllAllowed(p, events) && AllCareful(p, events)
    ensures Sane(Run(p, events)) && Awake(Run(p, events))
    decreases events
  {
    match events
    case Quiet =>
    case Next(event, rest) =>
      StepKeeps(p, event);
      CarefulStep(p, event);
      CarefulRunsGoOn(Step(p, event), rest);
  }

  /** The clock ticks n times and nothing else happens. */
  function Ticks(n: nat): Events {
    if n == 0 then Quiet else Next(Tick, Ticks(n - 1))
  }

  /** An unblocked queue with pending items that is left alone is called back: the clock
      cannot pass one after the first arrival, the unblock tick and now. */
  lemma {:induction false} CalledBackInTime(p: Peq, n: nat)
    requires Inv(p) && Awake(p) && p.unblock != BLOCKED && p.items != [] && !p.aborted
    requires AllAllowed(p, Ticks(n))
    ensures p.now + n <= Max(Due(p), p.now) + 1
  {
    CalledBackLater(p, n);
  }

  lemma {:induction false} CalledBackLater(p: Peq, n: nat)
    requires Fits(p) && p.trigger.Some? && p.now <= p.trigger.value && !p.aborted && AllAllowed(p, Ticks(n))
    ensures p.now + n <= p.trigger.value
    decreases n
  {
    if n > 0 {
      CalledBackLater(Step(p, Tick), n - 1);
    }
  }

  /** The run leads from p to q as all the results above ask for. */
  ghost predicate Leads(p: Peq, events: Events, q: Peq) {
    && Fits(p) && AllAllowed(p, events) && RunBlocksProperly(events)
    && AllCareful(p, events) && AllHarmless(p, events) && Run(p, events) == q
  }

  lemma {:induction false} LeadsOn(p: Peq, event: Event, mid: Peq, rest: Events, q: Peq)
    requires Fits(p) && Allowed(p, event) && Careful(p, event) && HarmlessEvent(p, event)
    requires RunBlocksProperly(Next(event, Quiet)) && Step(p, event) == mid && Leads(mid, rest, q)
    ensures Leads(p, Next(event, rest), q)
  {
  }

  const TAKE_ONE := Next(Handle(Do(GetNext, NoOps)), Next(EndTick, Quiet))

  /** An item that arrives at tick 0 is announced at tick 1, where it is taken. */
  lemma {:induction false} ExampleRun()
    ensures Near(INITIAL)
    ensures Leads(INITIAL, Next(Call(Notify(7, 0)), Next(Tick, Next(BeginTick, TAKE_ONE))),
                  Peq(1, 1, None, [], false, false, false))
  {
    var p1, p2 := Peq(0, 0, Some(1), [Item(7, 0)], false, false, false), Peq(1, 0, Some(1), [Item(7, 0)], false, false, false);
    var q, rest := Peq(1, 1, None, [], false, false, false), TAKE_ONE;
    ExampleEnd(rest);
    LeadsOn(p2, BeginTick, p2.(processing := true), rest, q);
    LeadsOn(p1, Tick, p2, Next(BeginTick, rest), q);
    ExampleBegin(p1, Next(Tick, Next(BeginTick, rest)), q);
  }

  lemma {:induction false} ExampleBegin(p1: Peq, rest: Events, q: Peq)
    requires p1 == Peq(0, 0, Some(1), [Item(7, 0)], false, false, false) && Leads(p1, rest, q)
    ensures Leads(INITIAL, Next(Call(Notify(7, 0)), rest), q)
  {
    assert Insert([], Item(7, 0)) == [Item(7, 0)];
    PushRequests(INITIAL, 7, 0);
    LeadsOn(INITIAL, Call(Notify(7, 0)), p1, rest, q);
  }

  lemma {:induction false} ExampleEnd(rest: Events)
    requires rest == TAKE_ONE
    ensures Leads(Peq(1, 0, Some(1), [Item(7, 0)], true, false, false), rest, Peq(1, 1, None, [], false, false, false))
  {
    var p3, p4 := Peq(1, 0, Some(1), [Item(7, 0)], true, false, false), Peq(1, 1, None, [], true, false, false);
    var q := p4.(processing := false);
    ExampleHandler(p3, p4);
    assert Leads(q, Quiet, q);
    LeadsOn(p4, EndTick, q, Quiet, q);
    LeadsOn(p3, Handle(Do(GetNext, NoOps)), p4, Next(EndTick, Quiet), q);
  }

  lemma {:induction false} ExampleHandler(p3: Peq, p4: Peq)
    requires p3 == Peq(1, 0, Some(1), [Item(7, 0)], true, false, false)
    requires p4 == Peq(1, 1, None, [], true, false, false)
    ensures Allowed(p3, Handle(Do(GetNext, NoOps))) && Step(p3, Handle(Do(GetNext, NoOps))) == p4
  {
    var c := p3.(trigger := None);
    TakeRequests(c);
    assert c.items[1..] == [];
    assert After(c, GetNext) == c.(items := []);
    assert AfterAll(c, Do(GetNext, NoOps)) == AfterAll(After(c, GetNext), NoOps);
  }

  // ----- callbacks that find nothing -----

  /** Removing an item leaves a request that finds an item: nothing is removed, or not the first item, or the next
      item comes before the requested tick, or there is no request. */
  predicate Harmless(p: Peq, op: Op) {
    op.Remove? ==>
      var k := FirstMatch(p.items, op.payload, p.now);
      || k.None? || k.value > 0 || p.trigger.None?
      || (|p.items| > 1 && p.items[1].tick < p.trigger.value)
  }

  lemma {:induction false} ScheduleIsUseful(p: Peq)
    requires Fits(p) && p.items != [] && p.now <= Due(p) && Useful(p)
    ensures Schedule(p).aborted || Useful(Schedule(p))
  {
    SkipIsExact(Due(p), p.now);
  }

  lemma {:induction false} NotifiedIsUseful(p: Peq, x: Item)
    requires Inv(p) && Useful(p) && x.tick < WIDTH && p.now <= x.tick
    ensures Notified(p, x).aborted || Useful(Notified(p, x))
  {
    InsertFits(p, x);
    var q := p.(items := Insert(p.items, x));
    if Position(p.items, x.tick) == 0 {
      assert q.items[0] == x;
      ScheduleIsUseful(q);
    } else {
      assert q.items[0] == p.items[0];
    }
  }

  lemma {:induction false} RescheduledIsUseful(p: Peq)
    requires Inv(p) && Useful(p)
    ensures Rescheduled(Taken(p)).aborted || Useful(Rescheduled(Taken(p)))
  {
    TakenFits(p);
    var q := Taken(p);
    if VisibleCount(q.items, q.now) == 0 && q.trigger.Some? && q.items != [] && !Cancelled(q).aborted {
      ScheduleIsUseful(Cancelled(q));
    }
  }

  /** What a call leaves behind is useful exactly when the call is harmless, and only remove can do harm. */
  lemma {:induction false} CallIsUsefulWhenHarmless(p: Peq, op: Op)
    requires Inv(p) && Useful(p) && OpFits(op) && Punctual(p.now, op) && !After(p, op).aborted
    ensures Useful(After(p, op)) <==> Harmless(p, op)
  {
    match op
    case Notify(payload, tick) => NotifiedIsUseful(p, Item(payload, tick));
    case GetNext => RescheduledIsUseful(p);
    case Remove(payload) => RemoveIsUsefulWhenHarmless(p, payload);
    case Block =>
    case UnblockAt(tick) => if p.items != [] { ScheduleIsUseful(p.(unblock := tick)); }
  }

  lemma {:induction false} RemoveIsUsefulWhenHarmless(p: Peq, payload: Payload)
    requires Inv(p) && Useful(p) && !p.aborted
    ensures Useful(Removed(p, payload)) <==> Harmless(p, Remove(payload))
  {
    var k := FirstMatch(p.items, payload, p.now);
    if k.Some? {
      var rest := Without(p.items, k.value);
      assert k.value > 0 ==> rest[0] == p.items[0];
      assert k.value == 0 && rest != [] ==> rest[0] == p.items[1];
    }
  }

  ghost predicate HarmlessCallback(p: Peq, ops: Ops)
    requires Fits(p) && AllFit(ops)
    decreases ops
  {
    match ops
    case NoOps => true
    case Do(op, rest) => Harmless(p, op) && HarmlessCallback(After(p, op), rest)
  }

  ghost predicate HarmlessEvent(p: Peq, event: Event)
    requires Fits(p) && Allowed(p, event)
  {
    match event
    case Call(op) => Harmless(p, op)
    case Handle(callback) => HarmlessCallback(p.(trigger := None), callback)
    case _ => true
  }

  ghost predicate AllHarmless(p: Peq, events: Events)
    requires Fits(p) && AllAllowed(p, events)
    decreases events
  {
    match events
    case Quiet => true
    case Next(event, rest) => HarmlessEvent(p, event) && AllHarmless(Step(p, event), rest)
  }

  lemma {:induction false} AbortedStays(p: Peq, ops: Ops)
    requires Fits(p) && AllFit(ops) && p.aborted
    ensures AfterAll(p, ops) == p
    decreases ops
  {
    match ops
    case NoOps =>
    case Do(op, rest) => AbortedStays(After(p, op), rest);
  }

  lemma {:induction false} CallbackKeepsUseful(p: Peq, ops: Ops)
    requires Inv(p) && Useful(p) && AllFit(ops) && AllPunctual(p.now, ops) && HarmlessCallback(p, ops)
    ensures AfterAll(p, ops).aborted || Useful(AfterAll(p, ops))
    decreases ops
  {
    match ops
    case NoOps =>
    case Do(op, rest) =>
      if After(p, op).aborted {
        AbortedStays(After(p, op), rest);
      } else {
        CallKeeps(p, op);
        CallIsUsefulWhenHarmless(p, op);
        CallbackKeepsUseful(After(p, op), rest);
      }
  }

  lemma {:induction false} StepKeepsUseful(p: Peq, event: Event)
    requires Inv(p) && Useful(p) && Allowed(p, event) && HarmlessEvent(p, event) && !Step(p, event).aborted
    ensures Useful(Step(p, event))
  {
    match event
    case Call(op) => CallIsUsefulWhenHarmless(p, op);
    case Tick =>
    case BeginTick =>
    case EndTick =>
    case Handle(callback) =>
      var c := AfterAll(p.(trigger := None), callback);
      CallbackKeeps(p.(trigger := None), callback);
      CallbackKeepsUseful(p.(trigger := None), callback);
      var r := if c.unblock < c.now then c.(unblock := c.now) else c;
      if r.items != [] && !c.aborted { ScheduleIsUseful(r); }
  }

  /** In every run in which all removes are harmless, a callback finds a visible item. */
  lemma {:induction false} NoCallbackForNothing(p: Peq, events: Events)
    requires Inv(p) && (p.aborted || (Awake(p) && Useful(p))) && AllAllowed(p, events) && AllHarmless(p, events)
    ensures var q := Run(p, events); DueNow(q) && !q.aborted ==> VisibleCount(q.items, q.now) > 0
    decreases events
  {
    match events
    case Quiet =>
    case Next(event, rest) =>
      StepKeeps(p, event);
      if !p.aborted && !Step(p, event).aborted { StepKeepsUseful(p, event); }
      NoCallbackForNothing(Step(p, event), rest);
  }

  /** The call leaves a due request behind with nothing to find. */
  ghost predicate Surprises(p: Peq, op: Op) {
    && Inv(p) && Awake(p) && Useful(p) && Sane(p) && Allowed(p, Call(op))
    && DueNow(Step(p, Call(op))) && Step(p, Call(op)).items == []
  }

  /** With remove it may find none: remove leaves the request alone. */
  lemma {:induction false} RemoveLeavesTheRequest()
    ensures exists p :: Surprises(p, Remove(1))
  {
    var p := Peq(5, 0, Some(5), [Item(1, 4)], false, false, false);
    MatchIsUnique(p.items, 1, 5, 0);
    assert Without(p.items, 0) == [];
    assert Step(p, Call(Remove(1))) == p.(items := []);
    assert Surprises(p, Remove(1));
  }
}
