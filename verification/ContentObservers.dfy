/**
 The observers of a memory's contents as they are built.  Each operation adds one event to
 a log that stays lawful in the sense of PageMaps, however deeply handlers call back.
 */
module ContentObservers {
  import opened Options
  import opened PageMaps
  import opened Scripts

  /** What a program or a handler does. */
  datatype Deed =
    | DoRegister(o: Observer, offset: nat)
    | DoUnregister(o: Observer)
    | DoUnregisterAll
    | DoNotify(low: nat, high: nat, t: Flags, m: Flags, reactions: Reactions<Deed>)

  /** All ranges lie in the memory. */
  predicate Inside(size: nat, script: Script<Deed>)
    decreases script
  {
    match script
    case Done => true
    case Then(deed, rest) => DeedInside(size, deed) && Inside(size, rest)
  }

  predicate DeedInside(size: nat, deed: Deed)
    decreases deed
  {
    match deed
    case DoRegister(o, offset) => Fits(size, o, offset)
    case DoNotify(low, high, _, _, reactions) => low <= high < size && AllInside(size, reactions)
    case _ => true
  }

  predicate AllInside(size: nat, reactions: Reactions<Deed>)
    decreases reactions
  {
    match reactions
    case Quiet => true
    case Reaction(script, rest) => Inside(size, script) && AllInside(size, rest)
  }

  class ContentObservers {
    const mMemorySize: nat
    const order: Order<Observer>
    var mObservingEnabled: bool
    var mObservers: Table
    var mMutableObservers: Option<Table>
    var mNotifyLevel: nat
    var mReadObserverMap: seq<bool>
    var mWriteObserverMap: seq<bool>
    ghost var log: seq<Event>
    /** The accesses of the notifications under way. */
    ghost var underway: seq<Access>

    constructor (size: nat, order: Order<Observer>)
      requires Enumerates(order)
      ensures Valid() && log == [] && mMemorySize == size && State() == Initial(size)
    {
      mMemorySize, this.order := size, order;
      mObservingEnabled, mObservers, mMutableObservers, mNotifyLevel := false, map[], None, 0;
      mReadObserverMap, mWriteObserverMap, log, underway := [], [], [], [];
    }

    ghost function State(): State
      reads this
    {
      PageMaps.State(mMemorySize, mObservingEnabled, mObservers, mMutableObservers, mNotifyLevel,
                     mReadObserverMap, mWriteObserverMap, underway)
    }

    ghost predicate Valid()
      reads this
    {
      Enumerates(order) && LeadsTo(mMemorySize, log, State())
    }

    /** The event has happened in state s. */
    ghost method Record(s: State, e: Event)
      requires Enumerates(order) && LeadsTo(mMemorySize, log, s) && Lawful(s, e) && State() == After(s, e)
      modifies this`log
      ensures Valid() && log == old(log) + [e]
    {
      Recorded(mMemorySize, log, s, e);
      log := log + [e];
    }

    method GetMutableObservers() returns (observers: Table)
      requires mNotifyLevel == 0 ==> mMutableObservers.None?
      modifies this`mMutableObservers
      ensures State() == Touched(old(State())) && observers == State().Effective()
    {
      observers := mObservers;
      if mNotifyLevel != 0 {
        if mMutableObservers.None? {
          mMutableObservers := Some(observers);
        }
        observers := mMutableObservers.value;
      }
    }

    /** Writes back the table obtained from GetMutableObservers. */
    method PutObservers(observers: Table)
      modifies this`mMutableObservers, this`mObservers
      ensures State() == old(State()).WithEffective(observers)
    {
      if mNotifyLevel != 0 {
        mMutableObservers := Some(observers);
      } else {
        mObservers := observers;
      }
    }

    method UpdatePageMap(pages: seq<bool>, o: Observer, offset: nat) returns (r: seq<bool>)
      requires o.start <= o.end && PageOf(offset + o.end) < |pages|
      ensures r == Marked(pages, o, offset)
    {
      r := pages;
      var low, high := PageOf(offset + o.start), PageOf(offset + o.end);
      PagesInOrder(offset + o.start, offset + o.end, offset + o.end);
      var i := low;
      while i <= high
        invariant low <= i <= high + 1 && |r| == |pages|
        invariant forall p :: 0 <= p < |r| ==> r[p] == (pages[p] || low <= p < i)
      {
        r := r[i := true];
        i := i + 1;
      }
    }

    /** Marks the pages of a new observer. */
    method AddPages(o: Observer, offset: nat)
      requires Fits(mMemorySize, o, offset) && |mReadObserverMap| == |mWriteObserverMap|
      requires |mWriteObserverMap| == 0 || |mWriteObserverMap| == PageCount(mMemorySize)
      modifies this`mReadObserverMap, this`mWriteObserverMap
      ensures State() == WithPages(old(State()), o, offset)
    {
      PageInside(mMemorySize, offset + o.end);
      if |mWriteObserverMap| == 0 {
        mReadObserverMap := seq(PageCount(mMemorySize), p requires 0 <= p < PageCount(mMemorySize) => false);
        mWriteObserverMap := mReadObserverMap;
      }
      if o.accessType.second {
        mWriteObserverMap := UpdatePageMap(mWriteObserverMap, o, offset);
      }
      if o.accessType.first {
        mReadObserverMap := UpdatePageMap(mReadObserverMap, o, offset);
      }
    }

    method RegisterObserver(o: Observer, offset: nat) returns (ok: bool)
      requires Valid() && Fits(mMemorySize, o, offset)
      modifies this
      ensures Valid() && log == old(log) + [Register(o, offset)] && ok == (o !in old(State()).Effective())
      ensures Steady(old(mObservers), old(mNotifyLevel)) && underway == old(underway)
    {
      ghost var s := State();
      var observers := GetMutableObservers();
      ok := o !in observers;
      if ok {
        mObservingEnabled := true;
        PutObservers(observers[o := offset]);
        AddPages(o, offset);
      }
      Record(s, Register(o, offset));
    }

    method UnregisterAllObservers() returns (ok: bool)
      requires Valid()
      modifies this
      ensures Valid() && log == old(log) + [UnregisterAll] && ok
      ensures Steady(old(mObservers), old(mNotifyLevel)) && underway == old(underway)
    {
      ghost var s := State();
      var observers := GetMutableObservers();
      PutObservers(map[]);
      mObservingEnabled, mReadObserverMap, mWriteObserverMap := false, [], [];
      Record(s, UnregisterAll);
      ok := true;
    }

    /** All pages unmarked, and then those of every observer marked. */
    method RebuildMap(n: nat, observers: Table) returns (pages: seq<bool>)
      requires AllFit(mMemorySize, observers) && (n == PageCount(mMemorySize) || observers == map[])
      ensures pages == Rebuilt(n, observers)
    {
      pages := seq(n, p requires 0 <= p < n => false);
      var todo := observers.Keys;
      while todo != {}
        invariant |pages| == n && todo <= observers.Keys
        invariant forall p :: 0 <= p < n ==> pages[p] == (exists o :: o in observers.Keys - todo && Covers(o, observers[o], p))
        decreases todo
      {
        var o :| o in todo;
        PageInside(mMemorySize, observers[o] + o.end);
        pages := UpdatePageMap(pages, o, observers[o]);
        todo := todo - {o};
      }
    }

    /** Rebuilds the maps that the observer was in. */
    method RebuildMaps(o: Observer, observers: Table)
      requires AllFit(mMemorySize, observers)
      requires |mWriteObserverMap| == PageCount(mMemorySize) || observers == map[]
      requires |mReadObserverMap| == PageCount(mMemorySize) || observers == map[]
      modifies this`mReadObserverMap, this`mWriteObserverMap
      ensures mWriteObserverMap == if o.accessType.second then Rebuilt(|old(mWriteObserverMap)|, observers)
                                   else old(mWriteObserverMap)
      ensures mReadObserverMap == if o.accessType.first then Rebuilt(|old(mReadObserverMap)|, observers)
                                  else old(mReadObserverMap)
    {
      if o.accessType.second {
        mWriteObserverMap := RebuildMap(|mWriteObserverMap|, observers);
      }
      if o.accessType.first {
        mReadObserverMap := RebuildMap(|mReadObserverMap|, observers);
      }
    }

    /** Takes a registered observer out of the table obtained from GetMutableObservers. */
    method Drop(o: Observer, table: Table)
      requires table == State().Effective() && o in table && AllFit(mMemorySize, table)
      requires mNotifyLevel == 0 ==> mMutableObservers.None?
      requires mNotifyLevel > 0 ==> mMutableObservers.Some?
      requires |mReadObserverMap| == |mWriteObserverMap| == PageCount(mMemorySize)
      modifies this`mMutableObservers, this`mObservers, this`mReadObserverMap, this`mWriteObserverMap,
               this`mObservingEnabled
      ensures State() == Unregistered(old(State()), o)
      ensures Steady(old(mObservers), old(mNotifyLevel))
    {
      var observers := table - {o};
      PutObservers(observers);
      RebuildMaps(o, observers);
      if observers == map[] {
        mObservingEnabled := false;
      }
    }

    method UnregisterObserver(o: Observer) returns (ok: bool)
      requires Valid()
      modifies this
      ensures Valid() && log == old(log) + [Unregister(o)] && ok == (o in old(State()).Effective())
      ensures Steady(old(mObservers), old(mNotifyLevel)) && underway == old(underway)
    {
      ghost var s := State();
      var observers := GetMutableObservers();
      ok := o in observers;
      if ok {
        Drop(o, observers);
      }
      Record(s, Unregister(o));
    }

    /** Is there a marked page between those of low and high? */
    method HasMarkedPage(pages: seq<bool>, low: nat, high: nat) returns (found: bool)
      requires PageOf(high) < |pages|
      ensures found <==> MarkedBetween(pages, low, high)
    {
      var i := PageOf(low);
      while i <= PageOf(high)
        invariant forall p :: PageOf(low) <= p < i && p < |pages| ==> !pages[p]
        decreases PageOf(high) + 1 - i
      {
        if pages[i] {
          return true;
        }
        i := i + 1;
      }
      found := false;
    }

    method HasObservers(low: nat, high: nat, t: Flags) returns (found: bool)
      requires Valid() && mObservingEnabled && low <= high < mMemorySize
      ensures found <==> Noticed(State(), low, high, t)
    {
      PageInside(mMemorySize, high);
      found := false;
      if t.first {
        found := HasMarkedPage(mReadObserverMap, low, high);
      } else if t.second {
        found := HasMarkedPage(mWriteObserverMap, low, high);
      }
    }

    /** While notifications are under way the table that they visit stays as it is. */
    ghost predicate Steady(observers: Table, level: nat)
      reads this`mObservers, this`mNotifyLevel
    {
      mNotifyLevel == level && (level > 0 ==> mObservers == observers)
    }

    /** The innermost access has only gained calls of this observer. */
    ghost predicate OnlyCalls(before: seq<Access>, o: Observer)
      reads this`underway
    {
      && |underway| == |before| && before != []
      && var n := |before| - 1;
      && underway[..n] == before[..n] && underway[n] == before[n].(called := underway[n].called)
      && forall c :: c in underway[n].called ==> c in before[n].called || c.0 == o
    }

    /** The observer has not been called for the innermost access, from this index on. */
    ghost predicate NotCalled(o: Observer, from: int)
      reads this`underway
    {
      underway != [] && forall i: nat :: from <= i ==> (o, i) !in underway[|underway| - 1].called
    }

    /** The innermost access is this one. */
    ghost predicate TellingOf(low: nat, high: nat, t: Flags, m: Flags)
      reads this`underway
    {
      underway != [] &&
      var a := underway[|underway| - 1];
      a == Access(low, high, t, m, a.called)
    }

    /** Since `from`, every index of the observer in the access was served. */
    ghost predicate AllServed(from: nat, o: Observer, offset: nat, low: nat, high: int, t: Flags, m: Flags)
      reads this`log
    {
      forall i: nat :: Overlaps(o, offset, i, low, high) && Interested(o, t, m) ==>
        Served(Initial(mMemorySize), log, from, o, i, t, m)
    }

    lemma StaysAllServed(log0: seq<Event>, from: nat, o: Observer, offset: nat, low: nat, high: int, t: Flags, m: Flags)
      requires log0 <= log
      requires forall i: nat :: Overlaps(o, offset, i, low, high) && Interested(o, t, m) ==>
                 Served(Initial(mMemorySize), log0, from, o, i, t, m)
      ensures AllServed(from, o, offset, low, high, t, m)
    {
      forall i: nat | Overlaps(o, offset, i, low, high) && Interested(o, t, m)
        ensures Served(Initial(mMemorySize), log, from, o, i, t, m)
      {
        StillServed(Initial(mMemorySize), log0, log, from, o, i, t, m);
      }
    }

    lemma OneMoreServed(from: nat, o: Observer, offset: nat, low: nat, index: nat, t: Flags, m: Flags)
      requires offset <= index && AllServed(from, o, offset, low, index - 1, t, m)
      requires Served(Initial(mMemorySize), log, from, o, index - offset, t, m)
      ensures AllServed(from, o, offset, low, index, t, m)
    {
    }

    /** Nobody waits for an observer that is gone. */
    lemma GoneIsServed(from: nat, o: Observer, offset: nat, low: nat, high: int, t: Flags, m: Flags)
      requires Valid() && from <= |log| && o !in State().Effective()
      ensures AllServed(from, o, offset, low, high, t, m)
    {
    }

    lemma NothingToServe(from: nat, o: Observer, offset: nat, low: nat, high: int, t: Flags, m: Flags)
      requires high < low || high < offset + o.start || !Interested(o, t, m)
      ensures AllServed(from, o, offset, low, high, t, m)
    {
    }

    /** Outside the observer's range there is nothing to serve. */
    lemma ClippedIsServed(from: nat, o: Observer, offset: nat, low: nat, high: int, index: nat, t: Flags, m: Flags)
      requires AllServed(from, o, offset, low, index - 1, t, m)
      requires index > high || index > offset + o.end
      ensures AllServed(from, o, offset, low, high, t, m)
    {
    }

    /** The handler of the observer is called and runs its script. */
    method CallHandler(o: Observer, index: nat, t: Flags, m: Flags, reactions: Reactions<Deed>, ghost from: nat)
      returns (rest: Reactions<Deed>)
      requires Valid() && from <= |log| && Lawful(State(), Called(o, index, t, m)) && AllInside(mMemorySize, reactions)
      modifies this
      ensures Valid() && old(log) <= log && Steady(old(mObservers), old(mNotifyLevel))
      ensures underway == WithCall(old(underway), o, index)
      ensures Served(Initial(mMemorySize), log, from, o, index, t, m)
      ensures AllInside(mMemorySize, rest) && (rest == reactions || rest < reactions)
      decreases reactions, 0
    {
      ghost var s := State();
      underway := WithCall(underway, o, index);
      Record(s, Called(o, index, t, m));
      assert log[|old(log)|] == Called(o, index, t, m);
      rest := reactions;
      if reactions.Reaction? {
        PerformAll(reactions.script);
        assert log[|old(log)|] == Called(o, index, t, m);
        rest := reactions.rest;
      }
    }

    /** One index of a visited observer; tells whether it is registered still. */
    method VisitIndex(o: Observer, offset: nat, low: nat, high: nat, index: nat, t: Flags, m: Flags, reactions: Reactions<Deed>,
                      ghost from: nat)
      returns (rest: Reactions<Deed>, registered: bool)
      requires Valid() && from <= |log| && AllInside(mMemorySize, reactions)
      requires mNotifyLevel > 0 && o in mObservers && o in State().Effective() && Interested(o, t, m)
      requires offset == mObservers[o] && TellingOf(low, high, t, m) && NotCalled(o, index - offset)
      requires offset + o.start <= index <= offset + o.end && low <= index <= high
      requires AllServed(from, o, offset, low, index - 1, t, m)
      modifies this
      ensures Valid() && old(log) <= log && Steady(old(mObservers), old(mNotifyLevel))
      ensures OnlyCalls(old(underway), o) && NotCalled(o, index + 1 - offset)
      ensures AllServed(from, o, offset, low, index, t, m) && registered == (o in State().Effective())
      ensures AllInside(mMemorySize, rest) && (rest == reactions || rest < reactions)
      decreases reactions, 1, 0
    {
      ghost var log0 := log;
      rest := CallHandler(o, index - offset, t, m, reactions, from);
      StaysAllServed(log0, from, o, offset, low, index - 1, t, m);
      OneMoreServed(from, o, offset, low, index, t, m);
      registered := mMutableObservers.None? || o in mMutableObservers.value;
    }

    /** One visited observer: it is called for each of its indices in the access as long as it is registered. */
    method Visit(o: Observer, low: nat, high: nat, t: Flags, m: Flags, reactions: Reactions<Deed>, ghost from: nat)
      returns (rest: Reactions<Deed>)
      requires Valid() && from <= |log| && mNotifyLevel > 0 && o in mObservers && AllInside(mMemorySize, reactions)
      requires TellingOf(low, high, t, m) && NotCalled(o, 0)
      modifies this
      ensures Valid() && old(log) <= log && Steady(old(mObservers), old(mNotifyLevel)) && OnlyCalls(old(underway), o)
      ensures AllServed(from, o, old(mObservers)[o], low, high, t, m)
      ensures AllInside(mMemorySize, rest) && (rest == reactions || rest < reactions)
      decreases reactions, 1, 2
    {
      rest := reactions;
      if mMutableObservers.Some? && o !in mMutableObservers.value {
        GoneIsServed(from, o, mObservers[o], low, high, t, m);
        return;
      }
      var offset := mObservers[o];
      var first := if low < offset + o.start then offset + o.start else low;
      var last := if high > offset + o.end then offset + o.end else high;
      rest := VisitIndices(o, offset, low, high, first, last, t, m, reactions, from);
    }

    /** The indices first to last are those of the observer in the access. */
    method VisitIndices(o: Observer, offset: nat, low: nat, high: nat, first: nat, last: nat, t: Flags, m: Flags,
                        reactions: Reactions<Deed>, ghost from: nat)
      returns (rest: Reactions<Deed>)
      requires Valid() && from <= |log| && AllInside(mMemorySize, reactions)
      requires mNotifyLevel > 0 && o in mObservers && o in State().Effective() && offset == mObservers[o]
      requires TellingOf(low, high, t, m) && NotCalled(o, 0)
      requires first == if low < offset + o.start then offset + o.start else low
      requires last == if high > offset + o.end then offset + o.end else high
      modifies this
      ensures Valid() && old(log) <= log && Steady(old(mObservers), old(mNotifyLevel)) && OnlyCalls(old(underway), o)
      ensures AllServed(from, o, offset, low, high, t, m)
      ensures AllInside(mMemorySize, rest) && (rest == reactions || rest < reactions)
      decreases reactions, 1, 1
    {
      rest := reactions;
      var index := first;
      NothingToServe(from, o, offset, low, first - 1, t, m);
      while index <= last
        invariant Valid() && old(log) <= log && Steady(old(mObservers), old(mNotifyLevel))
        invariant first <= index && o in State().Effective()
        invariant OnlyCalls(old(underway), o) && NotCalled(o, index - offset)
        invariant AllServed(from, o, offset, low, index - 1, t, m)
        invariant AllInside(mMemorySize, rest) && (rest == reactions || rest < reactions)
        decreases last + 1 - index
      {
        if !o.accessType.Meets(t) || !o.accessMode.Meets(m) {
          NothingToServe(from, o, offset, low, high, t, m);
          return;
        }
        var registered;
        rest, registered := VisitIndex(o, offset, low, high, index, t, m, rest, from);
        if !registered {
          GoneIsServed(from, o, offset, low, high, t, m);
          return;
        }
        index := index + 1;
      }
      ClippedIsServed(from, o, offset, low, high, index, t, m);
    }

    /** Tells every visited observer of the access, unless no page of it is marked. */
    method NotifyObservers(low: nat, high: nat, t: Flags, m: Flags, reactions: Reactions<Deed>)
      requires Valid() && low <= high < mMemorySize && AllInside(mMemorySize, reactions)
      modifies this
      ensures Valid() && old(log) < log && Steady(old(mObservers), old(mNotifyLevel)) && underway == old(underway)
      ensures log[|old(log)|] == if old(mObservingEnabled) && Noticed(old(State()), low, high, t)
                                 then Begin(low, high, t, m) else Skip(low, high, t)
      ensures old(mObservingEnabled) && Noticed(old(State()), low, high, t) ==>
                forall o :: o in old(mObservers) ==> AllServed(|old(log)|, o, old(mObservers)[o], low, high, t, m)
      decreases reactions, 2
    {
      if !mObservingEnabled {
        Record(State(), Skip(low, high, t));
        return;
      }
      var found := HasObservers(low, high, t);
      if !found {
        Record(State(), Skip(low, high, t));
        return;
      }
      ghost var before := State();
      mNotifyLevel, underway := mNotifyLevel + 1, underway + [Access(low, high, t, m, {})];
      Record(before, Begin(low, high, t, m));
      VisitAll(low, high, t, m, reactions);
      ghost var log0 := log;
      EndNotification();
      forall o | o in old(mObservers) ensures AllServed(|old(log)|, o, old(mObservers)[o], low, high, t, m) {
        StaysAllServed(log0, |old(log)|, o, old(mObservers)[o], low, high, t, m);
      }
    }

    /** The pending table takes over when the outermost notification ends. */
    method EndNotification()
      requires Valid() && mNotifyLevel > 0
      modifies this
      ensures Valid() && log == old(log) + [End]
      ensures Steady(old(mObservers), old(mNotifyLevel) - 1) && underway == old(underway[..|underway| - 1])
    {
      ghost var s := State();
      mNotifyLevel, underway := mNotifyLevel - 1, underway[..|underway| - 1];
      if mNotifyLevel == 0 && mMutableObservers.Some? {
        mObservers := mMutableObservers.value;
        mMutableObservers := None;
      }
      Record(s, End);
    }

    /** The observers visited from position `it` on have not been called yet. */
    ghost predicate Waiting(visited: seq<Observer>, it: nat)
      reads this`underway
    {
      forall k :: it <= k < |visited| ==> NotCalled(visited[k], 0)
    }

    ghost predicate Past(visited: seq<Observer>, it: nat, observers: Table, from: nat, low: nat, high: nat, t: Flags, m: Flags)
      requires it <= |visited| && forall k :: 0 <= k < |visited| ==> visited[k] in observers
      reads this`log
    {
      forall k :: 0 <= k < it ==> AllServed(from, visited[k], observers[visited[k]], low, high, t, m)
    }

    /** The visit of one observer calls nobody else for this access. */
    method VisitNext(visited: seq<Observer>, it: nat, low: nat, high: nat, t: Flags, m: Flags, reactions: Reactions<Deed>,
                     ghost from: nat)
      returns (rest: Reactions<Deed>)
      requires Valid() && from <= |log| && mNotifyLevel > 0 && AllInside(mMemorySize, reactions)
      requires it < |visited| && forall k :: 0 <= k < |visited| ==> visited[k] in mObservers
      requires forall i, j :: 0 <= i < j < |visited| ==> visited[i] != visited[j]
      requires TellingOf(low, high, t, m) && Waiting(visited, it)
      requires Past(visited, it, mObservers, from, low, high, t, m)
      modifies this
      ensures Valid() && old(log) <= log && Steady(old(mObservers), old(mNotifyLevel))
      ensures |underway| == old(|underway|) && underway[..|underway| - 1] == old(underway[..|underway| - 1])
      ensures TellingOf(low, high, t, m) && Waiting(visited, it + 1)
      ensures Past(visited, it + 1, old(mObservers), from, low, high, t, m)
      ensures AllInside(mMemorySize, rest) && (rest == reactions || rest < reactions)
      decreases reactions, 1, 3
    {
      ghost var log0 := log;
      rest := Visit(visited[it], low, high, t, m, reactions, from);
      forall k | 0 <= k < it ensures AllServed(from, visited[k], mObservers[visited[k]], low, high, t, m) {
        StaysAllServed(log0, from, visited[k], mObservers[visited[k]], low, high, t, m);
      }
    }

    method VisitAll(low: nat, high: nat, t: Flags, m: Flags, reactions: Reactions<Deed>)
      requires Valid() && mNotifyLevel > 0 && AllInside(mMemorySize, reactions)
      requires TellingOf(low, high, t, m) && underway[|underway| - 1].called == {}
      modifies this
      ensures Valid() && old(log) <= log && Steady(old(mObservers), old(mNotifyLevel))
      ensures |underway| == old(|underway|) && underway[..|underway| - 1] == old(underway[..|underway| - 1])
      ensures forall o :: o in old(mObservers) ==> AllServed(|old(log)|, o, old(mObservers)[o], low, high, t, m)
      decreases reactions, 1, 4
    {
      var visited, rest := order(mObservers.Keys), reactions;
      OrderMembers(order, mObservers.Keys);
      for it := 0 to |visited|
        invariant Valid() && old(log) <= log && Steady(old(mObservers), old(mNotifyLevel))
        invariant AllInside(mMemorySize, rest) && (rest == reactions || rest < reactions)
        invariant |underway| == old(|underway|) && underway[..|underway| - 1] == old(underway[..|underway| - 1])
        invariant TellingOf(low, high, t, m) && Waiting(visited, it)
        invariant Past(visited, it, old(mObservers), |old(log)|, low, high, t, m)
      {
        rest := VisitNext(visited, it, low, high, t, m, rest, |old(log)|);
      }
    }

    method Perform(deed: Deed)
      requires Valid() && DeedInside(mMemorySize, deed)
      modifies this
      ensures Valid() && old(log) <= log && Steady(old(mObservers), old(mNotifyLevel)) && underway == old(underway)
      decreases deed, 0
    {
      match deed
      case DoRegister(o, offset) => var _ := RegisterObserver(o, offset);
      case DoUnregister(o) => var _ := UnregisterObserver(o);
      case DoUnregisterAll => var _ := UnregisterAllObservers();
      case DoNotify(low, high, t, m, reactions) => NotifyObservers(low, high, t, m, reactions);
    }

    method PerformAll(script: Script<Deed>)
      requires Valid() && Inside(mMemorySize, script)
      modifies this
      ensures Valid() && old(log) <= log && Steady(old(mObservers), old(mNotifyLevel)) && underway == old(underway)
      decreases script, 0
    {
      if script.Then? {
        Perform(script.op);
        PerformAll(script.rest);
      }
    }
  }
}
