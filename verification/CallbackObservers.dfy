/**
 The observer registry as it is built: a set that is copied only when it has to change
 while it is being visited, a notification level, and an enabled flag.  Every operation
 is proved to act as ObserverRuns.Run does on the simple view.
 */
module CallbackObservers {
  import opened Options
  import opened ObserverRuns
  import opened Scripts

  /** The id returned by a notification that nobody observes. */
  const NO_ID := 0xFFFF_FFFF

  class CallbackObservers {
    const order: Order<Observer>
    var mObservingEnabled: bool
    var mObservers: set<Observer>
    var mMutableObservers: Option<set<Observer>>
    var mNotifyLevel: nat
    var nextId: nat
    /** Everything that has happened so far. */
    ghost var log: seq<Event>
    /** How many ids have been given out. */
    ghost var begins: nat

    constructor (order: Order<Observer>)
      requires Enumerates(order)
      ensures Valid() && AsView() == NOTHING && log == []
    {
      this.order := order;
      mObservingEnabled := false;
      mObservers := {};
      mMutableObservers := None;
      mNotifyLevel := 0;
      nextId, begins := 0, 0;
      log := [];
    }

    /** The pending set when there is one, else the current set. */
    ghost function Effective(): set<Observer>
      reads this
    {
      if mMutableObservers.Some? then mMutableObservers.value else mObservers
    }

    ghost function AsView(): View
      reads this
    {
      View(Effective(), if mNotifyLevel == 0 then {} else mObservers, mNotifyLevel)
    }

    ghost predicate Valid()
      reads this
    {
      && Enumerates(order)
      && (mNotifyLevel == 0 ==> mMutableObservers.None?)
      && (mObservingEnabled <==> Effective() != {})
      && nextId == begins % NO_ID
    }

    /** The registry has gone through `run`, starting from view and log as given. */
    ghost predicate WentThrough(run: (View, seq<Event>), oldLog: seq<Event>)
      reads this
    {
      Valid() && AsView() == run.0 && log == oldLog + run.1
    }

    /** The set that may be changed now; copies the current set first if it is being visited. */
    method GetMutableObservers() returns (observers: set<Observer>)
      requires Valid()
      modifies this`mMutableObservers
      ensures Valid() && AsView() == old(AsView()) && observers == Effective()
      ensures 0 < mNotifyLevel ==> mMutableObservers.Some?
    {
      observers := mObservers;
      if mNotifyLevel != 0 {
        if mMutableObservers.None? {
          mMutableObservers := Some(observers);
        }
        observers := mMutableObservers.value;
      }
    }

    /** Writes back the set obtained from GetMutableObservers. */
    method PutObservers(observers: set<Observer>)
      requires 0 < mNotifyLevel ==> mMutableObservers.Some?
      requires mNotifyLevel == 0 ==> mMutableObservers.None?
      modifies this`mMutableObservers, this`mObservers
      ensures Effective() == observers && AsView() == old(AsView()).(effective := observers)
      ensures 0 < mNotifyLevel ==> mObservers == old(mObservers)
      ensures mNotifyLevel == 0 ==> mMutableObservers.None?
    {
      if mNotifyLevel != 0 {
        mMutableObservers := Some(observers);
      } else {
        mObservers := observers;
      }
    }

    method RegisterObserver(o: Observer) returns (ok: bool)
      requires Valid()
      modifies this
      ensures ok == (o !in old(Effective()))
      ensures begins == old(begins)
      ensures WentThrough(Run(order, Register(o), old(AsView())), old(log))
    {
      var observers := GetMutableObservers();
      ok := o !in observers;
      if ok {
        mObservingEnabled := true;
        PutObservers(observers + {o});
      } else {
        assert observers + {o} == observers;
      }
      log := log + [Registered(o, ok)];
    }

    method UnregisterAllObservers() returns (ok: bool)
      requires Valid()
      modifies this
      ensures ok
      ensures begins == old(begins)
      ensures WentThrough(Run(order, UnregisterAll, old(AsView())), old(log))
    {
      var observers := GetMutableObservers();
      PutObservers({});
      mObservingEnabled := false;
      log := log + [AllUnregistered];
      ok := true;
    }

    method UnregisterObserver(o: Observer) returns (ok: bool)
      requires Valid()
      modifies this
      ensures ok == (o in old(Effective()))
      ensures begins == old(begins)
      ensures WentThrough(Run(order, Unregister(o), old(AsView())), old(log))
    {
      var observers := GetMutableObservers();
      ok := o in observers;
      if ok {
        observers := observers - {o};
        PutObservers(observers);
        if observers == {} {
          mObservingEnabled := false;
        }
      } else {
        assert observers - {o} == observers;
      }
      log := log + [Unregistered(o, ok)];
    }

    /** Ends a notification; the pending set takes over when the outermost one ends. */
    method UpdateObservers()
      requires Valid() && 0 < mNotifyLevel
      modifies this`mNotifyLevel, this`mObservers, this`mMutableObservers
      ensures Valid() && AsView() == Leave(old(AsView()))
    {
      mNotifyLevel := mNotifyLevel - 1;
      if mNotifyLevel == 0 && mMutableObservers.Some? {
        mObservers := mMutableObservers.value;
        mMutableObservers := None;
      }
    }

    /** The turn of one visited observer: called if still registered and interested. */
    method TakeTurn(o: Observer, notice: Notice, reactions: Reactions<Op>) returns (rest: Reactions<Op>)
      requires Valid() && 0 < mNotifyLevel && o in mObservers
      modifies this
      ensures mObservers == old(mObservers) && begins >= old(begins)
      ensures var (v, events, rs) := OneTurn(order, notice, o, reactions, old(AsView()));
              rest == rs && WentThrough((v, events), old(log))
      decreases reactions, 0
    {
      rest := reactions;
      if (mMutableObservers.None? || o in mMutableObservers.value) && Interested(o, notice) {
        log := log + [Turn(o, notice, true)];
        if reactions.Reaction? {
          PerformAll(reactions.script);
          rest := reactions.rest;
        }
      } else {
        log := log + [Turn(o, notice, false)];
      }
    }

    /** Gives every observer of the current set its turn. */
    method VisitAll(notice: Notice, reactions: Reactions<Op>)
      requires Valid() && 0 < mNotifyLevel
      modifies this
      ensures mObservers == old(mObservers)
      ensures begins >= old(begins)
      ensures WentThrough(Turns(order, notice, order(old(mObservers)), reactions, old(AsView())), old(log))
      decreases reactions, 1
    {
      ghost var visited, log0 := order(mObservers), log;
      ghost var all := Turns(order, notice, visited, reactions, AsView());
      OrderMembers(order, mObservers);
      var rs, i := reactions, 0;
      assert visited[0..] == visited;
      while i < |order(mObservers)|
        invariant Valid() && 0 < mNotifyLevel && mObservers == old(mObservers) && i <= |visited|
        invariant begins >= old(begins)
        invariant rs == reactions || rs < reactions
        invariant ToBeContinued(Turns(order, notice, visited[i..], rs, AsView()), all, log0)
        decreases |visited| - i
      {
        ghost var before, v, rs0 := log, AsView(), rs;
        rs := TakeTurn(order(mObservers)[i], notice, rs);
        NextTurn(notice, visited, i, rs0, v, before, all, log0);
        i := i + 1;
      }
      assert visited[i..] == [];
    }

    lemma NextTurn(notice: Notice, visited: seq<Observer>, i: nat, rs: Reactions<Op>, v: View, before: seq<Event>,
                   all: (View, seq<Event>), oldLog: seq<Event>)
      requires i < |visited| && v.Valid() && 0 < v.depth
      requires var rest := Turns(order, notice, visited[i..], rs, v); rest.0 == all.0 && before + rest.1 == oldLog + all.1
      requires log == before + OneTurn(order, notice, visited[i], rs, v).1
      ensures var (v1, _, rs1) := OneTurn(order, notice, visited[i], rs, v);
              ToBeContinued(Turns(order, notice, visited[i + 1..], rs1, v1), all, oldLog)
    {
      var (v1, events1, rs1) := OneTurn(order, notice, visited[i], rs, v);
      assert visited[i..][1..] == visited[i + 1..];
      var events2 := Turns(order, notice, visited[i + 1..], rs1, v1).1;
      assert before + (events1 + events2) == before + events1 + events2;
    }

    /** What has happened since `oldLog` followed by `rest` makes up `all`. */
    ghost predicate ToBeContinued(rest: (View, seq<Event>), all: (View, seq<Event>), oldLog: seq<Event>)
      reads this`log
    {
      rest.0 == all.0 && log + rest.1 == oldLog + all.1
    }

    /** Visits the current set. */
    method NotifyEach(notice: Notice, reactions: Reactions<Op>)
      requires Valid() && mObservingEnabled
      modifies this
      ensures begins >= old(begins)
      ensures WentThrough(Run(order, Notify(notice, reactions), old(AsView())), old(log))
      decreases reactions, 2
    {
      ghost var log0, view0 := log, AsView();
      mNotifyLevel := mNotifyLevel + 1;
      log := log + [Started(notice)];
      assert AsView() == Enter(view0);
      ghost var turns := Turns(order, notice, order(mObservers), reactions, AsView());
      VisitAll(notice, reactions);
      UpdateObservers();
      log := log + [Ended(notice)];
      assert log == log0 + ([Started(notice)] + turns.1 + [Ended(notice)]);
    }

    /** Ids are given out in turn; the reserved one is left out. */
    method TakeId()
      requires nextId == begins % NO_ID
      modifies this`nextId, this`begins
      ensures nextId == begins % NO_ID && begins == old(begins) + 1
    {
      nextId := nextId + 1;
      if nextId == NO_ID {
        nextId := 0;
      }
      begins := begins + 1;
    }

    method NotifyBegin(accessType: bv2, mode: bv2, reactions: Reactions<Op>) returns (id: nat)
      requires Valid()
      modifies this
      ensures WentThrough(Run(order, Notify(Begin(accessType, mode), reactions), old(AsView())), old(log))
      ensures id == if old(mObservingEnabled) then old(begins) % NO_ID else NO_ID
      ensures if old(mObservingEnabled) then begins > old(begins) else begins == old(begins)
      decreases reactions, 3
    {
      if !mObservingEnabled {
        log := log + [Ignored(Begin(accessType, mode))];
        return NO_ID;
      }
      id := nextId;
      TakeId();
      NotifyEach(Begin(accessType, mode), reactions);
    }

    method NotifyEnd(reactions: Reactions<Op>)
      requires Valid()
      modifies this
      ensures begins >= old(begins)
      ensures WentThrough(Run(order, Notify(End, reactions), old(AsView())), old(log))
      decreases reactions, 3
    {
      if !mObservingEnabled {
        log := log + [Ignored(End)];
        return;
      }
      NotifyEach(End, reactions);
    }

    method NotifyCallbackChanged(accessType: bv2, mode: bv2, reactions: Reactions<Op>)
      requires Valid()
      modifies this
      ensures begins >= old(begins)
      ensures WentThrough(Run(order, Notify(Changed(accessType, mode), reactions), old(AsView())), old(log))
      decreases reactions, 3
    {
      if !mObservingEnabled {
        log := log + [Ignored(Changed(accessType, mode))];
        return;
      }
      NotifyEach(Changed(accessType, mode), reactions);
    }

    method Perform(op: Op)
      requires Valid()
      modifies this
      ensures begins >= old(begins)
      ensures WentThrough(Run(order, op, old(AsView())), old(log))
      ensures 0 < old(mNotifyLevel) ==> mObservers == old(mObservers)
      decreases op, 0
    {
      match op {
        case Register(o) => var ok := RegisterObserver(o);
        case Unregister(o) => var ok := UnregisterObserver(o);
        case UnregisterAll => var ok := UnregisterAllObservers();
        case Notify(n, reactions) =>
          match n {
            case Begin(accessType, mode) => var id := NotifyBegin(accessType, mode, reactions);
            case End => NotifyEnd(reactions);
            case Changed(accessType, mode) => NotifyCallbackChanged(accessType, mode, reactions);
          }
      }
    }

    /** Runs a whole program or handler.  The set being visited, if any, stays untouched. */
    method PerformAll(script: Script<Op>)
      requires Valid()
      modifies this
      ensures begins >= old(begins)
      ensures WentThrough(RunAll(order, script, old(AsView())), old(log))
      ensures 0 < old(mNotifyLevel) ==> mObservers == old(mObservers)
      decreases script, 0
    {
      if script.Then? {
        Perform(script.op);
        PerformAll(script.rest);
      }
    }
  }
}
