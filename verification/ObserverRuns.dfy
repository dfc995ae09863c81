/**
 Runs of a re-entrant observer registry, stated simply.

 The registry is a set of observers.  Handlers called during a notification may
 register, unregister or notify again, to any depth; a finite run is therefore a
 tree (Op, Script, Reactions).  Run gives the meaning of such a tree on a View that
 knows nothing of copies, levels or flags: the set of registered observers and, while
 a notification is under way, the set that was registered when the outermost one began.

 The lemmas state what observers may rely on in every run, in terms of the flat event log.
 */
module ObserverRuns {
  import opened Scripts

  /** An observer, with the access types and modes it is interested in, one bit each. */
  datatype Observer = Observer(id: nat, accessType: bv2, accessMode: bv2)

  datatype Notice = Begin(accessType: bv2, mode: bv2) | End | Changed(accessType: bv2, mode: bv2)

  predicate Interested(o: Observer, n: Notice) {
    n.End? || (o.accessType & n.accessType != 0 && o.accessMode & n.mode != 0)
  }

  /** What a program or a handler does to the registry. */
  datatype Op = Register(o: Observer) | Unregister(o: Observer) | UnregisterAll
              | Notify(notice: Notice, reactions: Reactions<Op>)

  datatype Event =
    | Registered(o: Observer, ok: bool)
    | Unregistered(o: Observer, ok: bool)
    | AllUnregistered
    | Ignored(notice: Notice)
    | Started(notice: Notice)
    | Turn(o: Observer, notice: Notice, called: bool)
    | Ended(notice: Notice)

  /** `depth` counts the notifications under way; `snapshot` is what was registered when the outermost began. */
  datatype View = View(effective: set<Observer>, snapshot: set<Observer>, depth: nat)
  {
    ghost predicate Valid() {
      depth == 0 ==> snapshot == {}
    }
  }

  const NOTHING: View := View({}, {}, 0)

  // ----- the meaning of a run -----

  function Enter(v: View): View {
    View(v.effective, if v.depth == 0 then v.effective else v.snapshot, v.depth + 1)
  }

  function Leave(v: View): View
    requires 0 < v.depth
  {
    View(v.effective, if v.depth == 1 then {} else v.snapshot, v.depth - 1)
  }

  ghost function Run(order: Order<Observer>, op: Op, v: View): (r: (View, seq<Event>))
    requires v.Valid()
    ensures r.0.Valid() && r.0.depth == v.depth && r.0.snapshot == v.snapshot
    decreases op, 0
  {
    match op
    case Register(o) => (v.(effective := v.effective + {o}), [Registered(o, o !in v.effective)])
    case Unregister(o) => (v.(effective := v.effective - {o}), [Unregistered(o, o in v.effective)])
    case UnregisterAll => (v.(effective := {}), [AllUnregistered])
    case Notify(n, rs) =>
      if v.effective == {} then (v, [Ignored(n)])
      else
        var (v', events) := Turns(order, n, order(Enter(v).snapshot), rs, Enter(v));
        (Leave(v'), [Started(n)] + events + [Ended(n)])
  }

  ghost function RunAll(order: Order<Observer>, script: Script<Op>, v: View): (r: (View, seq<Event>))
    requires v.Valid()
    ensures r.0.Valid() && r.0.depth == v.depth && r.0.snapshot == v.snapshot
    decreases script, 0
  {
    match script
    case Done => (v, [])
    case Then(op, rest) =>
      var (v1, events1) := Run(order, op, v);
      var (v2, events2) := RunAll(order, rest, v1);
      (v2, events1 + events2)
  }

  /** The turn of one observer: called if it is still registered and interested.  Also returns the reactions left. */
  ghost function OneTurn(order: Order<Observer>, n: Notice, o: Observer, rs: Reactions<Op>, v: View)
    : (r: (View, seq<Event>, Reactions<Op>))
    requires v.Valid() && 0 < v.depth
    ensures r.0.Valid() && r.0.depth == v.depth && r.0.snapshot == v.snapshot
    ensures r.2 == rs || r.2 < rs
    decreases rs, 0
  {
    var called := o in v.effective && Interested(o, n);
    if called && rs.Reaction? then
      var (v', events) := RunAll(order, rs.script, v);
      (v', [Turn(o, n, true)] + events, rs.rest)
    else
      (v, [Turn(o, n, called)], rs)
  }

  ghost function Turns(order: Order<Observer>, n: Notice, pending: seq<Observer>, rs: Reactions<Op>, v: View): (r: (View, seq<Event>))
    requires v.Valid() && 0 < v.depth
    ensures r.0.Valid() && r.0.depth == v.depth && r.0.snapshot == v.snapshot
    decreases rs, |pending|
  {
    if pending == [] then (v, [])
    else
      var (v1, events1, rs1) := OneTurn(order, n, pending[0], rs, v);
      var (v2, events2) := Turns(order, n, pending[1..], rs1, v1);
      (v2, events1 + events2)
  }

  // ----- the meaning of a log -----

  function Step(v: View, e: Event): View {
    match e
    case Registered(o, _) => v.(effective := v.effective + {o})
    case Unregistered(o, _) => v.(effective := v.effective - {o})
    case AllUnregistered => v.(effective := {})
    case Started(_) => Enter(v)
    case Ended(_) => if 0 < v.depth then Leave(v) else v
    case Ignored(_) => v
    case Turn(_, _, _) => v
  }

  /** What every event of a run promises, given the view at that moment. */
  predicate Lawful(v: View, e: Event) {
    match e
    case Registered(o, ok) => ok == (o !in v.effective)
    case Unregistered(o, ok) => ok == (o in v.effective)
    case AllUnregistered => true
    case Ignored(_) => v.effective == {}
    case Started(_) => v.effective != {}
    case Turn(o, n, called) => 0 < v.depth && o in v.snapshot && called == (o in v.effective && Interested(o, n))
    case Ended(_) => 0 < v.depth
  }

  function ViewAt(v: View, events: seq<Event>, k: nat): View
    requires k <= |events|
  {
    if k == 0 then v else Step(ViewAt(v, events, k - 1), events[k - 1])
  }

  predicate LawfulAt(v: View, events: seq<Event>, k: nat)
    requires k < |events|
  {
    Lawful(ViewAt(v, events, k), events[k])
  }

  ghost predicate LawfulLog(v: View, events: seq<Event>) {
    forall k: nat :: k < |events| ==> LawfulAt(v, events, k)
  }

  lemma {:induction false} ViewAtConcat(v: View, a: seq<Event>, b: seq<Event>, k: nat)
    requires k <= |a + b|
    ensures ViewAt(v, a + b, k) ==
            if k <= |a| then ViewAt(v, a, k) else ViewAt(ViewAt(v, a, |a|), b, k - |a|)
  {
    if k > 0 {
      ViewAtConcat(v, a, b, k - 1);
    }
  }

  lemma LawfulConcatAt(v: View, a: seq<Event>, b: seq<Event>, k: nat)
    requires LawfulLog(v, a) && LawfulLog(ViewAt(v, a, |a|), b) && k < |a + b|
    ensures LawfulAt(v, a + b, k)
  {
    ViewAtConcat(v, a, b, k);
    if k < |a| {
      assert LawfulAt(v, a, k);
    } else {
      assert LawfulAt(ViewAt(v, a, |a|), b, k - |a|);
    }
  }

  lemma LawfulConcat(v: View, a: seq<Event>, b: seq<Event>)
    requires LawfulLog(v, a) && LawfulLog(ViewAt(v, a, |a|), b)
    ensures LawfulLog(v, a + b)
    ensures ViewAt(v, a + b, |a + b|) == ViewAt(ViewAt(v, a, |a|), b, |b|)
  {
    assert LawfulLog(v, a + b) by {
      forall k: nat | k < |a + b| ensures LawfulAt(v, a + b, k) {
        LawfulConcatAt(v, a, b, k);
      }
    }
    ViewAtConcat(v, a, b, |a + b|);
  }

  lemma LawfulSingle(v: View, e: Event)
    requires Lawful(v, e)
    ensures LawfulLog(v, [e]) && ViewAt(v, [e], 1) == Step(v, e)
  {
  }

  // ----- every run is lawful -----

  /** The log of a run is lawful, and leads to the view that the run ends in. */
  lemma {:induction false} RunIsLawful(order: Order<Observer>, op: Op, v: View)
    requires Enumerates(order) && v.Valid()
    ensures var (v', events) := Run(order, op, v);
            LawfulLog(v, events) && ViewAt(v, events, |events|) == v'
    decreases op, 0
  {
    match op
    case Register(o) => LawfulSingle(v, Registered(o, o !in v.effective));
    case Unregister(o) => LawfulSingle(v, Unregistered(o, o in v.effective));
    case UnregisterAll => LawfulSingle(v, AllUnregistered);
    case Notify(n, rs) =>
      if v.effective == {} {
        LawfulSingle(v, Ignored(n));
      } else {
        var visiting := order(Enter(v).snapshot);
        var (v', events) := Turns(order, n, visiting, rs, Enter(v));
        OrderMembers(order, Enter(v).snapshot);
        TurnsAreLawful(order, n, visiting, rs, Enter(v));
        LawfulSingle(v, Started(n));
        LawfulConcat(v, [Started(n)], events);
        LawfulSingle(v', Ended(n));
        LawfulConcat(v, [Started(n)] + events, [Ended(n)]);
      }
  }

  lemma {:induction false} RunAllIsLawful(order: Order<Observer>, script: Script<Op>, v: View)
    requires Enumerates(order) && v.Valid()
    ensures var (v', events) := RunAll(order, script, v);
            LawfulLog(v, events) && ViewAt(v, events, |events|) == v'
    decreases script, 0
  {
    match script
    case Done =>
    case Then(op, rest) =>
      var (v1, events1) := Run(order, op, v);
      var (v2, events2) := RunAll(order, rest, v1);
      RunIsLawful(order, op, v);
      RunAllIsLawful(order, rest, v1);
      LawfulConcat(v, events1, events2);
  }

  lemma {:induction false} TurnsAreLawful(order: Order<Observer>, n: Notice, pending: seq<Observer>, rs: Reactions<Op>, v: View)
    requires Enumerates(order) && v.Valid() && 0 < v.depth && forall o :: o in pending ==> o in v.snapshot
    ensures var (v', events) := Turns(order, n, pending, rs, v);
            LawfulLog(v, events) && ViewAt(v, events, |events|) == v'
    decreases rs, |pending|
  {
    if pending != [] {
      var (v1, events1, rs1) := OneTurn(order, n, pending[0], rs, v);
      OneTurnIsLawful(order, n, pending[0], rs, v);
      TurnsAreLawful(order, n, pending[1..], rs1, v1);
      LawfulConcat(v, events1, Turns(order, n, pending[1..], rs1, v1).1);
    }
  }

  lemma {:induction false} OneTurnIsLawful(order: Order<Observer>, n: Notice, o: Observer, rs: Reactions<Op>, v: View)
    requires Enumerates(order) && v.Valid() && 0 < v.depth && o in v.snapshot
    ensures var (v', events, _) := OneTurn(order, n, o, rs, v);
            LawfulLog(v, events) && ViewAt(v, events, |events|) == v'
    decreases rs, 0
  {
    var called := o in v.effective && Interested(o, n);
    LawfulSingle(v, Turn(o, n, called));
    if called && rs.Reaction? {
      RunAllIsLawful(order, rs.script, v);
      LawfulConcat(v, [Turn(o, n, true)], RunAll(order, rs.script, v).1);
    }
  }

  // ----- what observers may rely on -----

  /** Between a moment when o is not registered and a call of o lies a registration of o. */
  lemma {:induction false} RegisteredBeforeCalled(v: View, events: seq<Event>, i: nat, j: nat, o: Observer)
    requires i <= j <= |events| && o !in ViewAt(v, events, i).effective && o in ViewAt(v, events, j).effective
    ensures exists k :: i <= k < j && events[k].Registered? && events[k].o == o
    decreases j
  {
    if o !in ViewAt(v, events, j - 1).effective {
      assert events[j - 1].Registered? && events[j - 1].o == o;
    } else {
      RegisteredBeforeCalled(v, events, i, j - 1, o);
    }
  }

  /** After unregistering, an observer is not called again unless it is registered again first. */
  lemma NoCallAfterUnregister(v: View, events: seq<Event>, i: nat, j: nat, o: Observer)
    requires LawfulLog(v, events) && i < j < |events|
    requires events[i].AllUnregistered? || (events[i].Unregistered? && events[i].o == o)
    requires events[j].Turn? && events[j].o == o && events[j].called
    ensures exists k :: i < k < j && events[k].Registered? && events[k].o == o
  {
    assert LawfulAt(v, events, j);
    assert o !in ViewAt(v, events, i + 1).effective;
    RegisteredBeforeCalled(v, events, i + 1, j, o);
  }

  /** As long as notifications are under way, the set they visit stays the same. */
  lemma {:induction false} SnapshotIsStable(v: View, events: seq<Event>, i: nat, j: nat)
    requires i <= j <= |events|
    requires forall k :: i <= k <= j ==> 0 < ViewAt(v, events, k).depth
    ensures ViewAt(v, events, j).snapshot == ViewAt(v, events, i).snapshot
    decreases j
  {
    if i < j {
      SnapshotIsStable(v, events, i, j - 1);
      assert 0 < ViewAt(v, events, j - 1).depth && 0 < ViewAt(v, events, j).depth;
    }
  }

  /** An observer registered during a notification that does not already visit it is first called after the
      outermost notification has ended. */
  lemma FirstCalledAfterOutermost(v: View, events: seq<Event>, i: nat, j: nat, o: Observer)
    requires LawfulLog(v, events) && i < j < |events|
    requires events[i].Registered? && events[i].o == o
    requires 0 < ViewAt(v, events, i).depth && o !in ViewAt(v, events, i).snapshot
    requires events[j].Turn? && events[j].o == o
    ensures exists k :: i < k < j && ViewAt(v, events, k).depth == 0
  {
    assert LawfulAt(v, events, j);
    if forall k :: i < k < j ==> 0 < ViewAt(v, events, k).depth {
      SnapshotIsStable(v, events, i, j);
    }
  }

  /** Every observer in the set that a notification visits gets a turn, and is called at that turn exactly when it
      is then still registered and interested. */
  lemma {:induction false} EveryoneGetsATurn(order: Order<Observer>, n: Notice, pending: seq<Observer>, rs: Reactions<Op>, v: View,
                                             o: Observer)
    requires Enumerates(order) && v.Valid() && 0 < v.depth && o in pending && forall p :: p in pending ==> p in v.snapshot
    ensures var events := Turns(order, n, pending, rs, v).1;
            exists k: nat, called :: k < |events| && events[k] == Turn(o, n, called)
                                     && called == (o in ViewAt(v, events, k).effective && Interested(o, n))
    decreases rs, |pending|
  {
    var events := Turns(order, n, pending, rs, v).1;
    TurnsAreLawful(order, n, pending, rs, v);
    var k := TurnOf(order, n, pending, rs, v, o);
    assert LawfulAt(v, events, k);
  }

  lemma {:induction false} TurnOf(order: Order<Observer>, n: Notice, pending: seq<Observer>, rs: Reactions<Op>, v: View, o: Observer)
    returns (k: nat)
    requires v.Valid() && 0 < v.depth && o in pending
    ensures var events := Turns(order, n, pending, rs, v).1;
            k < |events| && events[k].Turn? && events[k].o == o && events[k].notice == n
    decreases rs, |pending|
  {
    if pending[0] == o {
      k := 0;
    } else {
      var (v1, events1, rs1) := OneTurn(order, n, pending[0], rs, v);
      var k' := TurnOf(order, n, pending[1..], rs1, v1, o);
      k := |events1| + k';
    }
  }

  lemma SingleOrder(order: Order<Observer>, o: Observer)
    requires Enumerates(order)
    ensures order({o}) == [o]
  {
    assert multiset(order({o})) == multiset({o});
    assert |multiset(order({o}))| == 1;
    assert o in multiset(order({o}));
  }

  /** The turn of a lone observer o, which is called and whose handler runs `script`. */
  lemma LoneTurn(order: Order<Observer>, o: Observer, script: Script<Op>, v: View)
    requires v.Valid() && 0 < v.depth && o in v.effective
    ensures var (v', events) := RunAll(order, script, v);
            Turns(order, End, [o], Reaction(script, Quiet), v) == (v', [Turn(o, End, true)] + events)
  {
    var (v', events) := RunAll(order, script, v);
    assert [o][1..] == [];
    assert Turns(order, End, [], Quiet, v') == (v', []);
    assert [Turn(o, End, true)] + events + [] == [Turn(o, End, true)] + events;
  }

  lemma RunNotify(order: Order<Observer>, n: Notice, rs: Reactions<Op>, v: View)
    requires v.Valid() && v.effective != {}
    ensures var (v', events) := Turns(order, n, order(Enter(v).snapshot), rs, Enter(v));
            Run(order, Notify(n, rs), v) == (Leave(v'), [Started(n)] + events + [Ended(n)])
  {
  }

  /** A notification that visits only o. */
  lemma NotifyOne(order: Order<Observer>, o: Observer, script: Script<Op>, v: View)
    requires Enumerates(order) && v.Valid() && Enter(v).snapshot == {o} && o in v.effective
    ensures var (v', events) := RunAll(order, script, Enter(v));
            Run(order, Notify(End, Reaction(script, Quiet)), v) ==
            (Leave(v'), [Started(End)] + ([Turn(o, End, true)] + events) + [Ended(End)])
  {
    SingleOrder(order, o);
    LoneTurn(order, o, script, Enter(v));
    RunNotify(order, End, Reaction(script, Quiet), v);
  }

  lemma RunLast(order: Order<Observer>, op: Op, v: View)
    requires v.Valid()
    ensures RunAll(order, Then(op, Done), v) == Run(order, op, v)
  {
    var (v', events) := Run(order, op, v);
    assert RunAll(order, Done, v') == (v', []);
    assert events + [] == events;
  }

  /** An observer that such a notification visits already, unregistered and registered again by a handler, is called
      again before the outermost notification ends: the condition of FirstCalledAfterOutermost is needed. */
  lemma ReRegisteredIsCalledEarly(order: Order<Observer>, o: Observer)
    requires Enumerates(order)
    ensures var inner := Then(Unregister(o), Then(Register(o), Then(Notify(End, Reaction(Done, Quiet)), Done)));
            Run(order, Notify(End, Reaction(inner, Quiet)), View({o}, {}, 0)).1 ==
            [Started(End), Turn(o, End, true), Unregistered(o, true), Registered(o, true),
             Started(End), Turn(o, End, true), Ended(End), Ended(End)]
  {
    var v0, v1, v2 := View({o}, {}, 0), View({o}, {o}, 1), View({}, {o}, 1);
    assert v1.effective - {o} == {} && v2.effective + {o} == {o};
    var renotify := Notify(End, Reaction(Done, Quiet));
    NotifyOne(order, o, Done, v1);
    RunLast(order, renotify, v1);
    assert RunAll(order, Then(renotify, Done), v1).1 == [Started(End), Turn(o, End, true), Ended(End)];
    var register := Then(Register(o), Then(renotify, Done));
    assert Run(order, Register(o), v2) == (v1, [Registered(o, true)]);
    assert RunAll(order, register, v2).1 == [Registered(o, true), Started(End), Turn(o, End, true), Ended(End)];
    assert Run(order, Unregister(o), v1) == (v2, [Unregistered(o, true)]);
    NotifyOne(order, o, Then(Unregister(o), register), v0);
  }

  /** A notification whose handlers do nothing. */
  lemma {:induction false} QuietTurns(order: Order<Observer>, n: Notice, pending: seq<Observer>, v: View)
    requires v.Valid() && 0 < v.depth
    ensures var events := Turns(order, n, pending, Quiet, v).1;
            && Turns(order, n, pending, Quiet, v).0 == v && |events| == |pending|
            && forall i :: 0 <= i < |pending| ==>
                 events[i] == Turn(pending[i], n, pending[i] in v.effective && Interested(pending[i], n))
  {
    if pending != [] {
      QuietTurns(order, n, pending[1..], v);
    }
  }

  /** Registered during a notification, and followed by another, an observer is called by that one if and only if it is
      visited already: exactly then the condition of FirstCalledAfterOutermost fails. */
  lemma {:induction false} CalledAtOnceWhenVisited(order: Order<Observer>, o: Observer, v: View)
    requires Enumerates(order) && v.Valid() && 0 < v.depth
    ensures var events := RunAll(order, Then(Register(o), Then(Notify(End, Quiet), Done)), v).1;
            Turn(o, End, true) in events <==> o in v.snapshot
  {
    var v1, again := v.(effective := v.effective + {o}), Notify(End, Quiet);
    var visited, inner := order(v.snapshot), Enter(v1);
    var turns := Turns(order, End, visited, Quiet, inner).1;
    QuietTurns(order, End, visited, inner);
    OrderMembers(order, v.snapshot);
    RunNotify(order, End, Quiet, v1);
    RunLast(order, again, v1);
    assert Run(order, again, v1).1 == [Started(End)] + turns + [Ended(End)];
    assert RunAll(order, Then(Register(o), Then(again, Done)), v).1
           == [Registered(o, o !in v.effective)] + ([Started(End)] + turns + [Ended(End)]);
    if o in v.snapshot {
      var i :| 0 <= i < |visited| && visited[i] == o;
      assert turns[i] == Turn(o, End, true);
    }
  }

  /** The same for logs: whatever happened before, the observer can be called next. */
  lemma {:induction false} CallableWhenVisited(v: View, events: seq<Event>, o: Observer)
    requires LawfulLog(v, events) && events != []
    requires events[|events| - 1].Registered? && events[|events| - 1].o == o
    requires 0 < ViewAt(v, events, |events|).depth && o in ViewAt(v, events, |events|).snapshot
    ensures LawfulLog(v, events + [Started(End), Turn(o, End, true)])
  {
    var now := ViewAt(v, events, |events|);
    assert o in now.effective;
    LawfulSingle(now, Started(End));
    LawfulConcat(v, events, [Started(End)]);
    LawfulSingle(Enter(now), Turn(o, End, true));
    LawfulConcat(v, events + [Started(End)], [Turn(o, End, true)]);
    assert events + [Started(End)] + [Turn(o, End, true)] == events + [Started(End), Turn(o, End, true)];
  }

  // ----- who is called -----

  /** Bit 0 is set in both, or bit 1 is. */
  predicate Share(x: bv2, y: bv2) {
    (x & 1 == 1 && y & 1 == 1) || (x & 2 == 2 && y & 2 == 2)
  }

  lemma {:induction false} ShareIsAnd(x: bv2, y: bv2)
    ensures Share(x, y) <==> x & y != 0
  {
  }

  /** In every run, who is called about a beginning or a change has an access type and a mode in common with it. */
  lemma {:induction false} CalledHasTypeAndMode(v: View, events: seq<Event>, k: nat, o: Observer, n: Notice)
    requires LawfulLog(v, events) && k < |events| && events[k] == Turn(o, n, true) && !n.End?
    ensures Share(o.accessType, n.accessType) && Share(o.accessMode, n.mode)
  {
    assert LawfulAt(v, events, k);
    ShareIsAnd(o.accessType, n.accessType);
    ShareIsAnd(o.accessMode, n.mode);
  }

  /** And who has both, and is registered when its turn comes, is called. */
  lemma {:induction false} TypeAndModeAreCalled(v: View, events: seq<Event>, k: nat, o: Observer, n: Notice, called: bool)
    requires LawfulLog(v, events) && k < |events| && events[k] == Turn(o, n, called) && !n.End?
    requires o in ViewAt(v, events, k).effective && Share(o.accessType, n.accessType) && Share(o.accessMode, n.mode)
    ensures called
  {
    assert LawfulAt(v, events, k);
    ShareIsAnd(o.accessType, n.accessType);
    ShareIsAnd(o.accessMode, n.mode);
  }

  /** The end of an access is told to everybody who is registered when the turn comes. */
  lemma {:induction false} EndIsToldToAll(v: View, events: seq<Event>, k: nat, o: Observer, called: bool)
    requires LawfulLog(v, events) && k < |events| && events[k] == Turn(o, End, called)
    ensures called <==> o in ViewAt(v, events, k).effective
  {
    assert LawfulAt(v, events, k);
  }

  /** A notification from outside any other gives everybody who is registered a turn. */
  lemma {:induction false} NotifyReachesAll(order: Order<Observer>, n: Notice, rs: Reactions<Op>, v: View, o: Observer)
    requires Enumerates(order) && v.Valid() && v.depth == 0 && o in v.effective
    ensures var events := Run(order, Notify(n, rs), v).1;
            exists k: nat, called :: k < |events| && events[k] == Turn(o, n, called)
  {
    var inner := Turns(order, n, order(v.effective), rs, Enter(v)).1;
    OrderMembers(order, v.effective);
    EveryoneGetsATurn(order, n, order(v.effective), rs, Enter(v), o);
    var k: nat, called :| k < |inner| && inner[k] == Turn(o, n, called);
    RunNotify(order, n, rs, v);
    assert Run(order, Notify(n, rs), v).1[k + 1] == inner[k];
  }

  /** Somebody who observes one access type only gets no call about the other. */
  lemma {:induction false} OtherTypeIsNotCalled(order: Order<Observer>, o: Observer)
    requires Enumerates(order) && o == Observer(1, 1, 1)
    ensures Run(order, Notify(Begin(2, 1), Quiet), View({o}, {}, 0)).1 ==
            [Started(Begin(2, 1)), Turn(o, Begin(2, 1), false), Ended(Begin(2, 1))]
  {
    var v := View({o}, {}, 0);
    SingleOrder(order, o);
    QuietTurns(order, Begin(2, 1), [o], Enter(v));
    RunNotify(order, Begin(2, 1), Quiet, v);
  }
}
