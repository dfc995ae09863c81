/**
 Whole runs of one payload event queue: the clock advances, payloads are pushed, taken
 and removed in any order.  Each push gets a ticket, so that equal payloads and equal
 ticks stay apart.
 */
module PeqRuns {
  import opened Options
  import opened PeqItems

  /** The serial number says how many pushes came before. */
  datatype Ticket = Ticket(item: Item, serial: nat)

  /** What get_next returned, and the tick count at that time. */
  datatype Delivery = Delivery(ticket: Ticket, at: nat)

  datatype Step =
    | Advance(ticks: nat)
    | Push(payload: Payload, tick: nat)
    | GetNext
    | Remove(payload: Payload)

  datatype Steps = Done | Then(step: Step, rest: Steps)

  datatype Queue = Queue(now: nat, waiting: seq<Ticket>, delivered: seq<Delivery>, removed: seq<Ticket>, pushes: nat)

  function Joined<T>(s: seq<T>, k: nat, x: T): (r: seq<T>)
    requires k <= |s|
    ensures |r| == |s| + 1 && r[k] == x
    ensures forall i :: 0 <= i < k ==> r[i] == s[i]
    ensures forall i :: k < i < |r| ==> r[i] == s[i - 1]
  {
    seq(|s| + 1, i requires 0 <= i <= |s| => if i < k then s[i] else if i == k then x else s[i - 1])
  }

  function Left<T>(s: seq<T>, k: nat): (r: seq<T>)
    requires k < |s|
    ensures |r| == |s| - 1
    ensures forall i :: 0 <= i < k ==> r[i] == s[i]
    ensures forall i :: k <= i < |r| ==> r[i] == s[i + 1]
  {
    seq(|s| - 1, i requires 0 <= i < |s| - 1 => if i < k then s[i] else s[i + 1])
  }

  lemma JoinedCounts<T>(s: seq<T>, k: nat, x: T)
    requires k <= |s|
    ensures multiset(Joined(s, k, x)) == multiset(s) + multiset{x}
  {
    assert s == s[..k] + s[k..];
    assert Joined(s, k, x) == s[..k] + [x] + s[k..];
  }

  lemma LeftCounts<T>(s: seq<T>, k: nat)
    requires k < |s|
    ensures multiset(Left(s, k)) + multiset{s[k]} == multiset(s)
  {
    assert s == s[..k] + [s[k]] + s[k + 1..];
    assert Left(s, k) == s[..k] + s[k + 1..];
  }

  function Items(tickets: seq<Ticket>): (items: seq<Item>)
    ensures |items| == |tickets| && forall i :: 0 <= i < |items| ==> items[i] == tickets[i].item
  {
    seq(|tickets|, i requires 0 <= i < |tickets| => tickets[i].item)
  }

  function Take(q: Queue): Queue
    requires q.waiting != []
  {
    q.(waiting := q.waiting[1..], delivered := q.delivered + [Delivery(q.waiting[0], q.now)])
  }

  function After(q: Queue, step: Step): Queue {
    match step
    case Advance(ticks) => q.(now := q.now + ticks)
    case Push(payload, tick) =>
      var k := Position(Items(q.waiting), tick);
      q.(waiting := Joined(q.waiting, k, Ticket(Item(payload, tick), q.pushes)), pushes := q.pushes + 1)
    case GetNext => if VisibleCount(Items(q.waiting), q.now) == 0 then q else Take(q)
    case Remove(payload) =>
      var k := FirstMatch(Items(q.waiting), payload, q.now);
      if k.None? then q
      else q.(waiting := Left(q.waiting, k.value), removed := q.removed + [q.waiting[k.value]])
  }

  function Run(q: Queue, steps: Steps): Queue
    decreases steps
  {
    match steps
    case Done => q
    case Then(step, rest) => Run(After(q, step), rest)
  }

  /** Every push names a tick that has not passed. */
  predicate Punctual(q: Queue, steps: Steps)
    decreases steps
  {
    match steps
    case Done => true
    case Then(step, rest) => (step.Push? ==> q.now <= step.tick) && Punctual(After(q, step), rest)
  }

  /** Nothing has been delivered that arrived later than this tick. */
  ghost predicate Timely(q: Queue, tick: nat) {
    forall i :: 0 <= i < |q.delivered| ==> q.delivered[i].ticket.item.tick <= tick
  }

  ghost predicate AllTimely(q: Queue, steps: Steps)
    decreases steps
  {
    match steps
    case Done => true
    case Then(step, rest) => (step.Push? ==> Timely(q, step.tick)) && AllTimely(After(q, step), rest)
  }

  const EMPTY := Queue(0, [], [], [], 0)

  /** The tickets in the order in which they are, or will be, delivered. */
  function Line(q: Queue): (line: seq<Ticket>)
    ensures |line| == |q.delivered| + |q.waiting|
  {
    Tickets(q.delivered) + q.waiting
  }

  function Tickets(d: seq<Delivery>): (tickets: seq<Ticket>)
    ensures |tickets| == |d| && forall i :: 0 <= i < |d| ==> tickets[i] == d[i].ticket
  {
    seq(|d|, i requires 0 <= i < |d| => d[i].ticket)
  }

  /** Earlier tick first; among equal ticks, first in, first out. */
  predicate Before(a: Ticket, b: Ticket) {
    a.item.tick < b.item.tick || (a.item.tick == b.item.tick && a.serial < b.serial)
  }

  ghost predicate InOrder(tickets: seq<Ticket>) {
    forall i, j :: 0 <= i < j < |tickets| ==> Before(tickets[i], tickets[j])
  }

  /** Nothing was delivered at or before its arrival tick. */
  ghost predicate OnTime(q: Queue) {
    forall i :: 0 <= i < |q.delivered| ==> q.delivered[i].ticket.item.tick < q.delivered[i].at <= q.now
  }

  ghost predicate Numbered(q: Queue) {
    forall i :: 0 <= i < |Line(q)| ==> Line(q)[i].serial < q.pushes
  }

  ghost predicate Inv(q: Queue) {
    InOrder(Line(q)) && OnTime(q) && Numbered(q)
  }

  /** A step of the run does to the items what the operation of the container does to them. */
  lemma {:induction false} StepsAreOperations(q: Queue, step: Step)
    ensures step.Advance? ==> Items(After(q, step).waiting) == Items(q.waiting)
    ensures step.Push? ==> Items(After(q, step).waiting) == Insert(Items(q.waiting), Item(step.payload, step.tick))
    ensures step.GetNext? && VisibleCount(Items(q.waiting), q.now) > 0 ==>
              Items(After(q, step).waiting) == Items(q.waiting)[1..]
    ensures step.Remove? && FirstMatch(Items(q.waiting), step.payload, q.now).Some? ==>
              Items(After(q, step).waiting) ==
              Without(Items(q.waiting), FirstMatch(Items(q.waiting), step.payload, q.now).value)
  {
  }

  lemma {:induction false} LineIsSorted(q: Queue)
    requires InOrder(Line(q))
    ensures Sorted(Items(q.waiting))
  {
    forall i, j | 0 <= i < j < |q.waiting| ensures q.waiting[i].item.tick <= q.waiting[j].item.tick {
      assert Before(Line(q)[|q.delivered| + i], Line(q)[|q.delivered| + j]);
    }
  }

  /** At a timely push everything delivered, and everything up to its position, comes before it. */
  lemma {:induction false} PushFits(q: Queue, x: Ticket, i: nat)
    requires Inv(q) && Timely(q, x.item.tick) && x.serial == q.pushes && i < |Line(q)|
    ensures if i < |q.delivered| + Position(Items(q.waiting), x.item.tick) then Before(Line(q)[i], x)
            else Before(x, Line(q)[i])
  {
    var items, n := Items(q.waiting), |q.delivered|;
    var k := Position(items, x.item.tick);
    LineIsSorted(q);
    if i >= n {
      assert Line(q)[i].item == items[i - n];
      if i > n + k {
        assert items[k].tick <= items[i - n].tick;
      }
    }
  }

  lemma {:induction false} PushLine(q: Queue, payload: Payload, tick: nat)
    ensures Line(After(q, Push(payload, tick))) ==
            Joined(Line(q), |q.delivered| + Position(Items(q.waiting), tick), Ticket(Item(payload, tick), q.pushes))
  {
  }

  lemma {:induction false} JoinedInOrder(line: seq<Ticket>, k: nat, x: Ticket)
    requires k <= |line| && InOrder(line)
    requires forall i :: 0 <= i < |line| ==> if i < k then Before(line[i], x) else Before(x, line[i])
    ensures InOrder(Joined(line, k, x))
  {
  }

  lemma {:induction false} PushKeepsOrder(q: Queue, payload: Payload, tick: nat)
    requires Inv(q) && Timely(q, tick)
    ensures InOrder(Line(After(q, Push(payload, tick))))
  {
    var x, line, k := Ticket(Item(payload, tick), q.pushes), Line(q), |q.delivered| + Position(Items(q.waiting), tick);
    forall i | 0 <= i < |line| ensures if i < k then Before(line[i], x) else Before(x, line[i]) {
      PushFits(q, x, i);
    }
    JoinedInOrder(line, k, x);
    PushLine(q, payload, tick);
  }

  /** A push keeps the line in order if and only if it is timely. */
  lemma {:induction false} PushKeepsOrderWhenTimely(q: Queue, payload: Payload, tick: nat)
    requires Inv(q)
    ensures InOrder(Line(After(q, Push(payload, tick)))) <==> Timely(q, tick)
  {
    if Timely(q, tick) {
      PushKeepsOrder(q, payload, tick);
    } else {
      var i :| 0 <= i < |q.delivered| && q.delivered[i].ticket.item.tick > tick;
      var k, line := |q.delivered| + Position(Items(q.waiting), tick), Line(After(q, Push(payload, tick)));
      PushLine(q, payload, tick);
      assert line[i] == q.delivered[i].ticket && line[k].item.tick == tick && i < k;
      assert !Before(line[i], line[k]);
    }
  }

  lemma {:induction false} PushKeepsNumbers(q: Queue, payload: Payload, tick: nat)
    requires Numbered(q)
    ensures Numbered(After(q, Push(payload, tick)))
  {
    PushLine(q, payload, tick);
  }

  lemma {:induction false} PushKeeps(q: Queue, payload: Payload, tick: nat)
    requires Inv(q) && Timely(q, tick)
    ensures Inv(After(q, Push(payload, tick)))
  {
    PushKeepsOrder(q, payload, tick);
    PushKeepsNumbers(q, payload, tick);
  }

  lemma {:induction false} RemoveLine(q: Queue, payload: Payload, k: nat)
    requires FirstMatch(Items(q.waiting), payload, q.now) == Some(k)
    ensures Line(After(q, Remove(payload))) == Left(Line(q), |q.delivered| + k)
  {
  }

  lemma {:induction false} TakeKeeps(q: Queue)
    requires Inv(q) && VisibleCount(Items(q.waiting), q.now) > 0
    ensures Inv(After(q, GetNext))
  {
    assert Items(q.waiting)[0].tick < q.now;
    assert Line(Take(q)) == Line(q);
  }

  lemma {:induction false} RemoveKeeps(q: Queue, payload: Payload)
    requires Inv(q)
    ensures Inv(After(q, Remove(payload)))
  {
    var k := FirstMatch(Items(q.waiting), payload, q.now);
    if k.Some? {
      RemoveLine(q, payload, k.value);
    }
  }

  lemma {:induction false} StepKeeps(q: Queue, step: Step)
    requires Inv(q) && (step.Push? ==> Timely(q, step.tick))
    ensures Inv(After(q, step))
  {
    match step
    case Advance(ticks) => assert Line(After(q, step)) == Line(q);
    case Push(payload, tick) => PushKeeps(q, payload, tick);
    case GetNext => if VisibleCount(Items(q.waiting), q.now) > 0 { TakeKeeps(q); }
    case Remove(payload) => RemoveKeeps(q, payload);
  }

  lemma {:induction false} RunKeeps(q: Queue, steps: Steps)
    requires Inv(q) && AllTimely(q, steps)
    ensures Inv(Run(q, steps))
    decreases steps
  {
    match steps
    case Done =>
    case Then(step, rest) =>
      StepKeeps(q, step);
      RunKeeps(After(q, step), rest);
  }

  /** The line is in order before and after every step. */
  ghost predicate AlwaysInOrder(q: Queue, steps: Steps)
    decreases steps
  {
    InOrder(Line(q)) && (steps.Then? ==> AlwaysInOrder(After(q, steps.step), steps.rest))
  }

  /** That is so exactly in the runs in which all pushes are timely. */
  lemma {:induction false} RunKeepsOrderWhenTimely(q: Queue, steps: Steps)
    requires Inv(q)
    ensures AlwaysInOrder(q, steps) <==> AllTimely(q, steps)
    decreases steps
  {
    match steps
    case Done =>
    case Then(step, rest) =>
      if step.Push? { PushKeepsOrderWhenTimely(q, step.payload, step.tick); }
      if step.Push? ==> Timely(q, step.tick) {
        StepKeeps(q, step);
        RunKeepsOrderWhenTimely(After(q, step), rest);
      }
  }

  /** Pushes for ticks that have not passed are timely. */
  lemma {:induction false} PunctualIsTimely(q: Queue, steps: Steps)
    requires Inv(q) && Punctual(q, steps)
    ensures AllTimely(q, steps)
    decreases steps
  {
    match steps
    case Done =>
    case Then(step, rest) =>
      StepKeeps(q, step);
      PunctualIsTimely(After(q, step), rest);
  }

  /** In every punctual run the deliveries are sorted by arrival tick, first in first out
      among equal ticks, and none comes at or before its arrival tick. */
  lemma {:induction false} DeliveriesAreInOrder(steps: Steps)
    requires Punctual(EMPTY, steps)
    ensures var d := Run(EMPTY, steps).delivered;
            && (forall i, j :: 0 <= i < j < |d| ==>
                  var a, b := d[i].ticket, d[j].ticket;
                  a.item.tick < b.item.tick || (a.item.tick == b.item.tick && a.serial < b.serial))
            && (forall i :: 0 <= i < |d| ==> d[i].ticket.item.tick < d[i].at)
  {
    var q := Run(EMPTY, steps);
    PunctualIsTimely(EMPTY, steps);
    RunKeeps(EMPTY, steps);
    forall i, j | 0 <= i < j < |q.delivered| ensures Before(q.delivered[i].ticket, q.delivered[j].ticket) {
      assert Before(Line(q)[i], Line(q)[j]);
    }
  }

  /** Two payloads pushed for the current tick are delivered in that order at the next. */
  lemma {:induction false} FirstInFirstOut()
    ensures var steps := Then(Push(1, 0), Then(Push(2, 0), Then(Advance(1), Then(GetNext, Then(GetNext, Done)))));
            && Punctual(EMPTY, steps)
            && Run(EMPTY, steps).delivered == [Delivery(Ticket(Item(1, 0), 0), 1), Delivery(Ticket(Item(2, 0), 1), 1)]
  {
    var s5 := Then(GetNext, Done);
    var s4 := Then(GetNext, s5);
    var s3 := Then(Advance(1), s4);
    var s2 := Then(Push(2, 0), s3);
    var a, b := Ticket(Item(1, 0), 0), Ticket(Item(2, 0), 1);
    var q1 := After(EMPTY, Push(1, 0));
    assert q1.waiting == [a];
    var q2 := After(q1, Push(2, 0));
    assert q2.waiting == [a, b];
    var q3 := After(q2, Advance(1));
    var q4 := After(q3, GetNext);
    assert q4.waiting == [b] && q4.delivered == [Delivery(a, 1)];
    var q5 := After(q4, GetNext);
    assert q5.delivered == [Delivery(a, 1), Delivery(b, 1)];
    assert Run(q4, s5) == q5 && Punctual(q4, s5);
    assert Run(q3, s4) == q5 && Punctual(q3, s4);
    assert Run(q2, s3) == q5 && Punctual(q2, s3);
    assert Run(q1, s2) == q5 && Punctual(q1, s2);
  }

  /** A push for a tick that has passed can be delivered out of order. */
  lemma {:induction false} LatePushBreaksTheOrder()
    ensures exists steps :: var d := Run(EMPTY, steps).delivered; |d| == 2 && !Before(d[0].ticket, d[1].ticket)
  {
    var q1 := After(EMPTY, Push(1, 5));
    assert q1.waiting == [Ticket(Item(1, 5), 0)];
    var q2 := After(q1, Advance(9));
    var q3 := After(q2, GetNext);
    assert q3.waiting == [] && q3.delivered == [Delivery(Ticket(Item(1, 5), 0), 9)];
    var q4 := After(q3, Push(2, 3));
    assert q4.waiting == [Ticket(Item(2, 3), 1)];
    var q5 := After(q4, GetNext);
    assert q5.delivered == [Delivery(Ticket(Item(1, 5), 0), 9), Delivery(Ticket(Item(2, 3), 1), 9)];
    var s5 := Then(GetNext, Done);
    var s4 := Then(Push(2, 3), s5);
    var s3 := Then(GetNext, s4);
    var s2 := Then(Advance(9), s3);
    var s1 := Then(Push(1, 5), s2);
    assert Run(q4, s5) == q5;
    assert Run(q3, s4) == q5;
    assert Run(q2, s3) == q5;
    assert Run(q1, s2) == q5;
    assert Run(EMPTY, s1) == q5;
  }

  /** All pushes of the run, in order. */
  function Pushed(q: Queue, steps: Steps): seq<Ticket>
    decreases steps
  {
    match steps
    case Done => []
    case Then(step, rest) =>
      (if step.Push? then [Ticket(Item(step.payload, step.tick), q.pushes)] else []) + Pushed(After(q, step), rest)
  }

  ghost function Everything(q: Queue): multiset<Ticket> {
    multiset(Line(q)) + multiset(q.removed)
  }

  lemma {:induction false} PushConserves(q: Queue, payload: Payload, tick: nat)
    ensures Everything(After(q, Push(payload, tick))) == Everything(q) + multiset{Ticket(Item(payload, tick), q.pushes)}
  {
    var q1, x := After(q, Push(payload, tick)), Ticket(Item(payload, tick), q.pushes);
    PushCounts(q, payload, tick);
    assert q1.removed == q.removed;
  }

  lemma {:induction false} PushCounts(q: Queue, payload: Payload, tick: nat)
    ensures multiset(Line(After(q, Push(payload, tick)))) ==
            multiset(Line(q)) + multiset{Ticket(Item(payload, tick), q.pushes)}
  {
    JoinedCounts(q.waiting, Position(Items(q.waiting), tick), Ticket(Item(payload, tick), q.pushes));
  }

  lemma {:induction false} RemoveConserves(q: Queue, payload: Payload, k: nat)
    requires FirstMatch(Items(q.waiting), payload, q.now) == Some(k)
    ensures Everything(After(q, Remove(payload))) == Everything(q)
  {
    LeftCounts(q.waiting, k);
    assert multiset(q.removed + [q.waiting[k]]) == multiset(q.removed) + multiset{q.waiting[k]};
  }

  lemma {:induction false} TakeConserves(q: Queue)
    requires q.waiting != []
    ensures Everything(Take(q)) == Everything(q)
  {
    assert Line(Take(q)) == Line(q);
  }

  /** A step adds the ticket of its push and loses nothing, punctual or not. */
  lemma {:induction false} StepConserves(q: Queue, step: Step)
    ensures Everything(After(q, step)) == Everything(q) +
              (if step.Push? then multiset{Ticket(Item(step.payload, step.tick), q.pushes)} else multiset{})
  {
    match step
    case Advance(ticks) =>
    case Push(payload, tick) => PushConserves(q, payload, tick);
    case GetNext => if VisibleCount(Items(q.waiting), q.now) > 0 { TakeConserves(q); }
    case Remove(payload) =>
      var k := FirstMatch(Items(q.waiting), payload, q.now);
      if k.Some? { RemoveConserves(q, payload, k.value); }
  }

  /** In every run each push is delivered once, removed once, or still waiting. */
  lemma {:induction false} NothingIsLost(q: Queue, steps: Steps)
    ensures Everything(Run(q, steps)) == Everything(q) + multiset(Pushed(q, steps))
    decreases steps
  {
    match steps
    case Done =>
    case Then(step, rest) =>
      StepConserves(q, step);
      NothingIsLost(After(q, step), rest);
  }
}
