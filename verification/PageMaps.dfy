/**
 The observers of a memory's contents, on values: the table of observers, its pending copy
 while notifications are under way, and two page maps that tell quickly when nobody
 observes an access.
 */
module PageMaps {
  import opened Options

  const PAGE: nat := 0x200

  /** Two flags: read and write for an access type, regular and debug for an access mode. */
  datatype Flags = Flags(first: bool, second: bool)
  {
    predicate Meets(other: Flags) {
      (first && other.first) || (second && other.second)
    }
  }

  const READ := Flags(true, false)
  const WRITE := Flags(false, true)
  const READ_WRITE := Flags(true, true)

  /** An observer of the indices start to end of its memory or alias. */
  datatype Observer = Observer(id: nat, accessType: Flags, accessMode: Flags, start: nat, end: nat)

  /** The offset of each registered observer in the toplevel memory. */
  type Table = map<Observer, nat>

  /** An access that observers are being told of, and the calls made for it so far. */
  datatype Access = Access(low: nat, high: nat, t: Flags, m: Flags, called: set<(Observer, nat)>)

  /** `underway` has the accesses of the notifications under way, the innermost last. */
  datatype State = State(size: nat, enabled: bool, current: Table, pending: Option<Table>, level: nat,
                         readMap: seq<bool>, writeMap: seq<bool>, underway: seq<Access>)
  {
    /** Who is registered now. */
    function Effective(): Table {
      if pending.Some? then pending.value else current
    }

    function WithEffective(table: Table): State {
      if level > 0 then this.(pending := Some(table)) else this.(current := table)
    }
  }

  function PageOf(index: nat): nat {
    index / PAGE
  }

  function PageCount(size: nat): nat {
    (size + PAGE - 1) / PAGE
  }

  /** The range of the observer is a range of this memory. */
  predicate Fits(size: nat, o: Observer, offset: nat) {
    o.start <= o.end && offset + o.end < size
  }

  /** From the first to the last page of the observer's range. */
  predicate Covers(o: Observer, offset: nat, page: nat) {
    PageOf(offset + o.start) <= page <= PageOf(offset + o.end)
  }

  predicate Observes(o: Observer, offset: nat, index: nat) {
    offset + o.start <= index <= offset + o.end
  }

  /** The observer covers the pages on which it observes an index. */
  lemma {:induction false} CoversMeansObserves(size: nat, o: Observer, offset: nat, page: nat)
    requires Fits(size, o, offset)
    ensures Covers(o, offset, page) <==> exists index: nat :: Observes(o, offset, index) && PageOf(index) == page
  {
    if Covers(o, offset, page) {
      var index := if page == PageOf(offset + o.start) then offset + o.start else page * PAGE;
      assert Observes(o, offset, index) && PageOf(index) == page;
    }
  }

  lemma PageInside(size: nat, index: nat)
    requires index < size
    ensures PageOf(index) < PageCount(size)
  {
  }

  function Marked(pages: seq<bool>, o: Observer, offset: nat): (r: seq<bool>)
    ensures |r| == |pages| && forall p :: 0 <= p < |r| ==> r[p] == (pages[p] || Covers(o, offset, p))
  {
    seq(|pages|, p requires 0 <= p < |pages| => pages[p] || Covers(o, offset, p))
  }

  ghost predicate CoveredBy(table: Table, page: nat) {
    exists o :: o in table && Covers(o, table[o], page)
  }

  /** A map rebuilt from all observers that are left. */
  ghost function Rebuilt(n: nat, table: Table): (r: seq<bool>)
    ensures |r| == n && forall p :: 0 <= p < n ==> r[p] == CoveredBy(table, p)
  {
    seq(n, p requires 0 <= p < n => CoveredBy(table, p))
  }

  // ----- the operations -----

  datatype Event =
    | Register(o: Observer, offset: nat)
    | Unregister(o: Observer)
    | UnregisterAll
    | Skip(low: nat, high: nat, t: Flags)
    | Begin(low: nat, high: nat, t: Flags, m: Flags)
    | Called(o: Observer, index: nat, t: Flags, m: Flags)
    | End

  /** Before the table is changed during a notification it is copied. */
  function Touched(s: State): State {
    if s.level > 0 && s.pending.None? then s.(pending := Some(s.current)) else s
  }

  function Resized(s: State): State {
    if |s.writeMap| == 0 then
      var pages := seq(PageCount(s.size), p requires 0 <= p < PageCount(s.size) => false);
      s.(readMap := pages, writeMap := pages)
    else s
  }

  /** The pages of a new observer are marked for what it observes. */
  function WithPages(s: State, o: Observer, offset: nat): State {
    var r := Resized(s);
    r.(writeMap := if o.accessType.second then Marked(r.writeMap, o, offset) else r.writeMap,
       readMap := if o.accessType.first then Marked(r.readMap, o, offset) else r.readMap)
  }

  function Registered(s: State, o: Observer, offset: nat): State {
    WithPages(s.(enabled := true).WithEffective(s.Effective()[o := offset]), o, offset)
  }

  ghost function Unregistered(s: State, o: Observer): State {
    var table := s.Effective() - {o};
    s.WithEffective(table)
     .(writeMap := if o.accessType.second then Rebuilt(|s.writeMap|, table) else s.writeMap,
       readMap := if o.accessType.first then Rebuilt(|s.readMap|, table) else s.readMap,
       enabled := s.enabled && table != map[])
  }

  function Left(s: State): State
    requires s.level > 0 && s.underway != []
  {
    var r := s.(level := s.level - 1, underway := s.underway[..|s.underway| - 1]);
    if r.level == 0 && r.pending.Some? then r.(current := r.pending.value, pending := None) else r
  }

  /** The innermost access with one more call. */
  function WithCall(underway: seq<Access>, o: Observer, index: nat): seq<Access>
    requires underway != []
  {
    var n := |underway| - 1;
    underway[n := underway[n].(called := underway[n].called + {(o, index)})]
  }

  ghost function After(s: State, e: Event): State {
    match e
    case Register(o, offset) => if o in s.Effective() then Touched(s) else Registered(Touched(s), o, offset)
    case Unregister(o) => if o in s.Effective() then Unregistered(Touched(s), o) else Touched(s)
    case UnregisterAll => Touched(s).WithEffective(map[]).(enabled := false, readMap := [], writeMap := [])
    case Skip(_, _, _) => s
    case Begin(low, high, t, m) => s.(level := s.level + 1, underway := s.underway + [Access(low, high, t, m, {})])
    case Called(o, index, _, _) => if s.underway != [] then s.(underway := WithCall(s.underway, o, index)) else s
    case End => if s.level > 0 && s.underway != [] then Left(s) else s
  }

  /** Some page of the access is marked; for an access of both types only the read map is looked at. */
  ghost predicate Noticed(s: State, low: nat, high: nat, t: Flags) {
    (t.first || t.second) && MarkedBetween(if t.first then s.readMap else s.writeMap, low, high)
  }

  ghost predicate MarkedBetween(pages: seq<bool>, low: nat, high: nat) {
    exists p :: PageOf(low) <= p <= PageOf(high) && p < |pages| && pages[p]
  }

  predicate Interested(o: Observer, t: Flags, m: Flags) {
    o.accessType.Meets(t) && o.accessMode.Meets(m)
  }

  /** Index i of an observer with this offset lies in the access. */
  predicate Overlaps(o: Observer, offset: nat, i: nat, low: nat, high: int) {
    o.start <= i <= o.end && low <= offset + i <= high
  }

  /** The innermost access reaches the index of the observer, which has not been called for it yet. */
  predicate Due(underway: seq<Access>, o: Observer, offset: nat, index: nat, t: Flags, m: Flags) {
    underway != [] &&
    var a := underway[|underway| - 1];
    a.t == t && a.m == m && Overlaps(o, offset, index, a.low, a.high) && (o, index) !in a.called
  }

  /** What each event of a run promises. */
  ghost predicate Lawful(s: State, e: Event) {
    match e
    case Register(o, offset) => Fits(s.size, o, offset)
    case Skip(low, high, t) => !s.enabled || !Noticed(s, low, high, t)
    case Begin(low, high, t, m) => low <= high < s.size && s.enabled && Noticed(s, low, high, t)
    case Called(o, index, t, m) =>
      && s.level > 0 && o in s.current && o in s.Effective()
      && Interested(o, t, m) && Due(s.underway, o, s.current[o], index, t, m)
    case End => s.level > 0
    case _ => true
  }

  // ----- what always holds -----

  /** The observer observes this type of access on the page. */
  predicate Needs(table: Table, t: Flags, o: Observer, page: nat) {
    o in table && o.accessType.Meets(t) && Covers(o, table[o], page)
  }

  ghost predicate Sound(pages: seq<bool>, table: Table, t: Flags) {
    forall o, p: nat :: Needs(table, t, o, p) ==> p < |pages| && pages[p]
  }

  ghost predicate AllFit(size: nat, table: Table) {
    forall o :: o in table ==> Fits(size, o, table[o])
  }

  ghost predicate Inv(s: State) {
    && (s.level == 0 ==> s.pending.None?) && |s.underway| == s.level
    && (s.enabled <==> s.Effective() != map[])
    && |s.readMap| == |s.writeMap| && (|s.writeMap| == 0 || |s.writeMap| == PageCount(s.size))
    && (s.enabled ==> |s.writeMap| == PageCount(s.size))
    && AllFit(s.size, s.Effective())
    && Sound(s.readMap, s.Effective(), READ) && Sound(s.writeMap, s.Effective(), WRITE)
  }

  function Initial(size: nat): State {
    State(size, false, map[], None, 0, [], [], [])
  }

  lemma {:induction false} CoveredPagesExist(size: nat, o: Observer, offset: nat, page: nat)
    requires Fits(size, o, offset) && Covers(o, offset, page)
    ensures page < PageCount(size)
  {
  }

  /** A map that is sound for the others is sound with o when o's pages are marked, if it needs them. */
  lemma {:induction false} MarkedIsSound(size: nat, pages: seq<bool>, table: Table, t: Flags, o: Observer, offset: nat)
    requires Sound(pages, table, t) && o !in table && Fits(size, o, offset)
    requires |pages| == PageCount(size)
    ensures Sound(if o.accessType.Meets(t) then Marked(pages, o, offset) else pages, table[o := offset], t)
  {
    var joined := table[o := offset];
    forall x, p: nat | Needs(joined, t, x, p)
      ensures p < |pages| && (pages[p] || (o.accessType.Meets(t) && Covers(o, offset, p)))
    {
      if x == o {
        CoveredPagesExist(size, o, offset, p);
      } else {
        assert Needs(table, t, x, p);
      }
    }
  }

  lemma {:induction false} RegisterKeeps(s: State, o: Observer, offset: nat)
    requires Inv(s) && Fits(s.size, o, offset) && o !in s.Effective() && (s.level > 0 ==> s.pending.Some?)
    ensures Inv(Registered(s, o, offset))
  {
    var table := s.Effective();
    PageInside(s.size, offset + o.end);
    var r := Resized(s);
    MarkedIsSound(s.size, r.readMap, table, READ, o, offset);
    MarkedIsSound(s.size, r.writeMap, table, WRITE, o, offset);
    assert Registered(s, o, offset).Effective() == table[o := offset];
    assert o in table[o := offset];
  }

  /** A rebuilt map has the pages of everybody who is left, also of those who do not need it. */
  lemma {:induction false} RebuiltIsSound(size: nat, n: nat, table: Table, t: Flags)
    requires AllFit(size, table) && (n == PageCount(size) || table == map[])
    ensures Sound(Rebuilt(n, table), table, t)
  {
  }

  lemma {:induction false} FewerIsSound(pages: seq<bool>, table: Table, t: Flags, o: Observer)
    requires Sound(pages, table, t)
    ensures Sound(pages, table - {o}, t)
  {
    forall x, p: nat | Needs(table - {o}, t, x, p) ensures p < |pages| && pages[p] {
      assert Needs(table, t, x, p);
    }
  }

  lemma {:induction false} UnregisterKeeps(s: State, o: Observer)
    requires Inv(s) && o in s.Effective() && (s.level > 0 ==> s.pending.Some?)
    ensures Inv(Unregistered(s, o))
  {
    var table := s.Effective() - {o};
    RebuiltIsSound(s.size, |s.readMap|, table, READ);
    RebuiltIsSound(s.size, |s.writeMap|, table, WRITE);
    FewerIsSound(s.readMap, s.Effective(), READ, o);
    FewerIsSound(s.writeMap, s.Effective(), WRITE, o);
    assert Unregistered(s, o).Effective() == table;
  }

  lemma {:induction false} StepKeeps(s: State, e: Event)
    requires Inv(s) && Lawful(s, e)
    ensures Inv(After(s, e))
  {
    assert Inv(Touched(s)) && Touched(s).Effective() == s.Effective();
    match e
    case Register(o, offset) => if o !in s.Effective() { RegisterKeeps(Touched(s), o, offset); }
    case Unregister(o) => if o in s.Effective() { UnregisterKeeps(Touched(s), o); }
    case UnregisterAll =>
    case Skip(_, _, _) =>
    case Begin(_, _, _, _) =>
    case Called(_, _, _, _) =>
    case End =>
  }

  // ----- every run -----

  ghost function StateAt(s: State, log: seq<Event>, k: nat): State
    requires k <= |log|
  {
    if k == 0 then s else After(StateAt(s, log, k - 1), log[k - 1])
  }

  ghost predicate LawfulAt(s: State, log: seq<Event>, k: nat)
    requires k < |log|
  {
    Lawful(StateAt(s, log, k), log[k])
  }

  ghost predicate LawfulLog(s: State, log: seq<Event>) {
    forall k: nat :: k < |log| ==> LawfulAt(s, log, k)
  }

  lemma {:induction false} SamePast(s: State, a: seq<Event>, b: seq<Event>, k: nat)
    requires k <= |a| && k <= |b| && a[..k] == b[..k]
    ensures StateAt(s, a, k) == StateAt(s, b, k)
    decreases k
  {
    if k > 0 {
      assert a[k - 1] == a[..k][k - 1] == b[k - 1];
      assert a[..k - 1] == a[..k][..k - 1];
      SamePast(s, a, b, k - 1);
    }
  }

  /** One more lawful event. */
  lemma {:induction false} Extend(s: State, log: seq<Event>, e: Event)
    requires LawfulLog(s, log) && Lawful(StateAt(s, log, |log|), e)
    ensures LawfulLog(s, log + [e])
    ensures StateAt(s, log + [e], |log| + 1) == After(StateAt(s, log, |log|), e)
  {
    SamePast(s, log + [e], log, |log|);
    forall k: nat | k < |log| + 1 ensures LawfulAt(s, log + [e], k) {
      SamePast(s, log + [e], log, k);
      if k < |log| {
        assert LawfulAt(s, log, k);
      }
    }
  }

  /** The log is lawful and leads from an empty memory of this size to s. */
  ghost predicate LeadsTo(size: nat, log: seq<Event>, s: State) {
    LawfulLog(Initial(size), log) && s == StateAt(Initial(size), log, |log|) && Inv(s)
  }

  lemma {:induction false} Recorded(size: nat, log: seq<Event>, s: State, e: Event)
    requires LeadsTo(size, log, s) && Lawful(s, e)
    ensures LeadsTo(size, log + [e], After(s, e))
  {
    Extend(Initial(size), log, e);
    StepKeeps(s, e);
  }

  /** From position `from` on, the observer has been called for the index, or it was not registered at some moment. */
  ghost predicate Served(s: State, log: seq<Event>, from: nat, o: Observer, index: nat, t: Flags, m: Flags) {
    || (exists k :: from <= k < |log| && log[k] == Called(o, index, t, m))
    || (exists k :: from <= k <= |log| && o !in StateAt(s, log, k).Effective())
  }

  lemma {:induction false} StillServed(s: State, a: seq<Event>, b: seq<Event>, from: nat, o: Observer, index: nat,
                                       t: Flags, m: Flags)
    requires a <= b && Served(s, a, from, o, index, t, m)
    ensures Served(s, b, from, o, index, t, m)
  {
    if k :| from <= k < |a| && a[k] == Called(o, index, t, m) {
      assert b[k] == Called(o, index, t, m);
    } else {
      var k :| from <= k <= |a| && o !in StateAt(s, a, k).Effective();
      SamePast(s, b, a, k);
    }
  }

  /** In every run the page maps stay sound, and the enabled flag tells whether anybody is registered. */
  lemma {:induction false} RunKeeps(s: State, log: seq<Event>, k: nat)
    requires Inv(s) && LawfulLog(s, log) && k <= |log|
    ensures Inv(StateAt(s, log, k))
  {
    if k > 0 {
      RunKeeps(s, log, k - 1);
      assert LawfulAt(s, log, k - 1);
      StepKeeps(StateAt(s, log, k - 1), log[k - 1]);
    }
  }

  // ----- who is registered -----

  /** What an event does to who is registered. */
  lemma {:induction false} EffectiveAfter(s: State, e: Event)
    requires Inv(s)
    ensures After(s, e).Effective() ==
            match e
            case Register(o, offset) => if o in s.Effective() then s.Effective() else s.Effective()[o := offset]
            case Unregister(o) => s.Effective() - {o}
            case UnregisterAll => map[]
            case _ => s.Effective()
  {
    if e.Unregister? && e.o !in s.Effective() {
      assert s.Effective() - {e.o} == s.Effective();
    }
  }

  /** From its registration on an observer is registered, with that offset, until it or everybody is unregistered. */
  lemma {:induction false} RegisteredStays(s: State, log: seq<Event>, i: nat, k: nat, o: Observer, offset: nat)
    requires Inv(s) && LawfulLog(s, log) && i < k <= |log| && log[i] == Register(o, offset)
    requires o !in StateAt(s, log, i).Effective()
    requires forall j :: i < j < k ==> !log[j].UnregisterAll? && log[j] != Unregister(o)
    ensures o in StateAt(s, log, k).Effective() && StateAt(s, log, k).Effective()[o] == offset
    decreases k
  {
    RunKeeps(s, log, k - 1);
    EffectiveAfter(StateAt(s, log, k - 1), log[k - 1]);
    if i < k - 1 {
      RegisteredStays(s, log, i, k - 1, o, offset);
    }
  }

  /** And from then on it is not, until it is registered again. */
  lemma {:induction false} UnregisteredStays(s: State, log: seq<Event>, i: nat, k: nat, o: Observer)
    requires Inv(s) && LawfulLog(s, log) && i < k <= |log| && (log[i].UnregisterAll? || log[i] == Unregister(o))
    requires forall j :: i < j < k && log[j].Register? ==> log[j].o != o
    ensures o !in StateAt(s, log, k).Effective()
    decreases k
  {
    RunKeeps(s, log, k - 1);
    EffectiveAfter(StateAt(s, log, k - 1), log[k - 1]);
    if i < k - 1 {
      UnregisteredStays(s, log, i, k - 1, o);
    }
  }

  /** Outside all notifications, those who are registered are those who are visited next. */
  lemma {:induction false} VisitedAreRegistered(s: State, log: seq<Event>, k: nat)
    requires Inv(s) && LawfulLog(s, log) && k <= |log| && StateAt(s, log, k).level == 0
    ensures StateAt(s, log, k).current == StateAt(s, log, k).Effective()
  {
    RunKeeps(s, log, k);
  }

  /** Notifications nest; while any is under way the visited table stays, and when the outermost ends it becomes what
      is registered. */
  lemma {:induction false} NestingAfter(s: State, e: Event)
    requires Inv(s) && Lawful(s, e)
    ensures var q := After(s, e);
            && q.level == (if e.Begin? then s.level + 1 else if e.End? then s.level - 1 else s.level)
            && (s.level > 0 && q.level > 0 ==> q.current == s.current)
            && (e.Begin? ==> q.current == s.current == s.Effective() || s.level > 0)
            && (e.Begin? ==> q.underway == s.underway + [Access(e.low, e.high, e.t, e.m, {})])
            && (e.End? ==> q.underway == s.underway[..|s.underway| - 1])
            && (q.level == 0 ==> q.current == q.Effective())
  {
    StepKeeps(s, e);
  }

  /** A new memory is where every run begins. */
  lemma {:induction false} InitialHolds(size: nat)
    ensures Inv(Initial(size)) && Initial(size).Effective() == map[] && Initial(size).level == 0
  {
  }

  /** An observer is called only about an access of a type and in a mode that it observes, for an index of its own range
      that lies in the access, and while it is registered. */
  lemma {:induction false} CalledForGoodReason(s: State, log: seq<Event>, k: nat)
    requires LawfulLog(s, log) && k < |log| && log[k].Called?
    ensures var o, t, m := log[k].o, log[k].t, log[k].m;
            && o in StateAt(s, log, k).Effective() && o.start <= log[k].index <= o.end
            && (var now := StateAt(s, log, k);
                && now.underway != [] && o in now.current
                && var a := now.underway[|now.underway| - 1];
                   a.t == t && a.m == m && a.low <= now.current[o] + log[k].index <= a.high)
            && ((o.accessType.first && t.first) || (o.accessType.second && t.second))
            && ((o.accessMode.first && m.first) || (o.accessMode.second && m.second))
  {
    assert LawfulAt(s, log, k);
  }

  /** Whoever observes the type and the mode of an access is interested in it, and nobody else is. */
  lemma {:induction false} InterestIsTypeAndMode(o: Observer, t: Flags, m: Flags)
    ensures Interested(o, t, m) <==>
              ((o.accessType.first && t.first) || (o.accessType.second && t.second)) &&
              ((o.accessMode.first && m.first) || (o.accessMode.second && m.second))
  {
  }

  /** The observer has been called for the index by the notification at depth n. */
  predicate HasCalled(underway: seq<Access>, n: nat, o: Observer, index: nat) {
    n < |underway| && (o, index) in underway[n].called
  }

  lemma {:induction false} StepKeepsCall(s: State, e: Event, n: nat, o: Observer, index: nat)
    requires Inv(s) && HasCalled(s.underway, n, o, index) && n < |After(s, e).underway|
    ensures HasCalled(After(s, e).underway, n, o, index)
  {
    match e
    case Register(_, _) =>
    case Unregister(_) =>
    case UnregisterAll =>
    case Skip(_, _, _) =>
    case Begin(_, _, _, _) =>
    case Called(_, _, _, _) =>
    case End =>
  }

  /** While a notification lasts, the calls made for its access stay recorded. */
  lemma {:induction false} CallsStay(s: State, log: seq<Event>, j: nat, k: nat, n: nat, o: Observer, index: nat)
    requires Inv(s) && LawfulLog(s, log) && j <= k <= |log|
    requires Lasts(s, log, j, k, n) && HasCalled(StateAt(s, log, j).underway, n, o, index)
    ensures HasCalled(StateAt(s, log, k).underway, n, o, index)
    decreases k
  {
    if j < k {
      CallsStay(s, log, j, k - 1, n, o, index);
      RunKeeps(s, log, k - 1);
      var before := StateAt(s, log, k - 1);
      assert StateAt(s, log, k) == After(before, log[k - 1]);
      StepKeepsCall(before, log[k - 1], n, o, index);
    }
  }

  /** The notification at depth n lasts from position j to position k. */
  ghost predicate Lasts(s: State, log: seq<Event>, j: nat, k: nat, n: nat)
    requires j <= k <= |log|
  {
    forall i :: j <= i <= k ==> n < |StateAt(s, log, i).underway|
  }

  /** A call is recorded when it is made, and was not recorded before. */
  lemma {:induction false} CallIsRecorded(s: State, log: seq<Event>, k: nat)
    requires LawfulLog(s, log) && k < |log| && log[k].Called?
    ensures var n := |StateAt(s, log, k).underway| - 1;
            && n >= 0 && !HasCalled(StateAt(s, log, k).underway, n, log[k].o, log[k].index)
            && HasCalled(StateAt(s, log, k + 1).underway, n, log[k].o, log[k].index)
  {
    assert LawfulAt(s, log, k);
    assert StateAt(s, log, k + 1) == After(StateAt(s, log, k), log[k]);
  }

  /** No notification calls an observer twice for an index: between two such calls it ends. */
  lemma {:induction false} CalledAtMostOnce(s: State, log: seq<Event>, j: nat, k: nat, n: nat)
    requires Inv(s) && LawfulLog(s, log) && j < k < |log| && log[j].Called? && log[k].Called?
    requires log[j].o == log[k].o && log[j].index == log[k].index
    requires |StateAt(s, log, j).underway| == |StateAt(s, log, k).underway| == n + 1
    ensures !Lasts(s, log, j, k, n)
  {
    CallIsRecorded(s, log, j);
    CallIsRecorded(s, log, k);
    if Lasts(s, log, j, k, n) {
      CallsStay(s, log, j + 1, k, n, log[j].o, log[j].index);
      assert false;
    }
  }

  lemma {:induction false} PagesInOrder(low: nat, index: nat, high: nat)
    requires low <= index <= high
    ensures PageOf(low) <= PageOf(index) <= PageOf(high)
  {
  }

  /** The early return of a read or a write passes over nobody who observes it. */
  lemma {:induction false} SkippedMeansUnobserved(s: State, low: nat, high: nat, t: Flags)
    requires Inv(s) && (t == READ || t == WRITE)
    requires Lawful(s, Skip(low, high, t))
    ensures forall o, index: nat :: o in s.Effective() && o.accessType.Meets(t) && low <= index <= high ==>
                                      !Observes(o, s.Effective()[o], index)
  {
    forall o, index: nat | o in s.Effective() && o.accessType.Meets(t) && low <= index <= high
      ensures !Observes(o, s.Effective()[o], index)
    {
      var offset := s.Effective()[o];
      if Observes(o, offset, index) {
        PagesInOrder(offset + o.start, index, offset + o.end);
        PagesInOrder(low, index, high);
        assert Needs(s.Effective(), t, o, PageOf(index));
      }
    }
  }

  /** Nobody who observes this type of access observes an index from low to high. */
  ghost predicate Unobserved(table: Table, low: nat, high: nat, t: Flags) {
    forall o, index: nat :: o in table && o.accessType.Meets(t) && low <= index <= high ==>
                              !Observes(o, table[o], index)
  }

  /** Nobody who observes writes only observes an index from low to high. */
  ghost predicate NoWriterThere(table: Table, low: nat, high: nat) {
    forall o, index: nat :: o in table && o.accessType == WRITE && low <= index <= high ==>
                              !Observes(o, table[o], index)
  }

  /** The early return of a read or a write passes over nobody. */
  lemma {:induction false} SkippedIsUnobserved(s: State, low: nat, high: nat, t: Flags)
    requires Inv(s) && (t == READ || t == WRITE)
    requires Lawful(s, Skip(low, high, t))
    ensures Unobserved(s.Effective(), low, high, t)
  {
    SkippedMeansUnobserved(s, low, high, t);
  }

  /** The early return of an access of both types, for which only the read map is looked at, passes over nobody if and
      only if no index of it is observed for writes only. */
  lemma {:induction false} BothTypesMissOnlyWriters(s: State, low: nat, high: nat)
    requires Inv(s) && Lawful(s, Skip(low, high, READ_WRITE))
    ensures Unobserved(s.Effective(), low, high, READ_WRITE) <==> NoWriterThere(s.Effective(), low, high)
  {
    SkippedIsUnobserved(s, low, high, READ);
  }

  /** And such an observer can be there. */
  lemma {:induction false} BothTypesCanMissAWriter(o: Observer)
    requires o == Observer(1, WRITE, READ_WRITE, 0, 3)
    ensures var s := After(Initial(PAGE), Register(o, 0));
            && o in s.Effective() && Interested(o, READ_WRITE, READ_WRITE) && Observes(o, 0, 2)
            && Lawful(s, Skip(2, 2, READ_WRITE))
  {
  }

  // ----- when a map is exact -----

  ghost predicate Needed(table: Table, t: Flags, page: nat) {
    exists o :: Needs(table, t, o, page)
  }

  /** The map has exactly the pages on which somebody observes this type of access. */
  ghost predicate Exact(pages: seq<bool>, table: Table, t: Flags) {
    forall p :: 0 <= p < |pages| ==> pages[p] == Needed(table, t, p)
  }

  /** Whatever page anybody covers, somebody observes this type of access on it. */
  ghost predicate Shadowed(table: Table, t: Flags) {
    forall p: nat :: CoveredBy(table, p) ==> Needed(table, t, p)
  }

  lemma {:induction false} RebuiltIsExactWhenShadowed(size: nat, table: Table, t: Flags)
    requires AllFit(size, table)
    ensures Exact(Rebuilt(PageCount(size), table), table, t) <==> Shadowed(table, t)
  {
  }

  lemma {:induction false} MarkedIsExact(pages: seq<bool>, table: Table, t: Flags, o: Observer, offset: nat)
    requires Exact(pages, table, t) && o !in table
    ensures Exact(if o.accessType.Meets(t) then Marked(pages, o, offset) else pages, table[o := offset], t)
  {
    var joined := table[o := offset];
    forall p | 0 <= p < |pages|
      ensures Needed(joined, t, p) == (pages[p] || (o.accessType.Meets(t) && Covers(o, offset, p)))
    {
      if Needed(joined, t, p) {
        var x :| Needs(joined, t, x, p);
        assert x != o ==> Needs(table, t, x, p);
      }
      if pages[p] {
        var x :| Needs(table, t, x, p);
        assert Needs(joined, t, x, p);
      }
      if o.accessType.Meets(t) && Covers(o, offset, p) {
        assert Needs(joined, t, o, p);
      }
    }
  }

  /** Who does not observe this type of access makes no difference by leaving. */
  lemma {:induction false} OthersDoNotMatter(table: Table, t: Flags, o: Observer, page: nat)
    requires !o.accessType.Meets(t)
    ensures Needed(table - {o}, t, page) <==> Needed(table, t, page)
  {
    if Needed(table, t, page) {
      var x :| Needs(table, t, x, page);
      assert Needs(table - {o}, t, x, page);
    }
    if Needed(table - {o}, t, page) {
      var x :| Needs(table - {o}, t, x, page);
      assert Needs(table, t, x, page);
    }
  }

  /** Everybody but an unregistration keeps an exact map exact; an unregistration of an observer
      of this type does so exactly when the pages of those who are left are all needed. */
  lemma {:induction false} ExactAfter(s: State, e: Event)
    requires Inv(s) && Lawful(s, e) && Exact(s.readMap, s.Effective(), READ) && Exact(s.writeMap, s.Effective(), WRITE)
    ensures Exact(After(s, e).readMap, After(s, e).Effective(), READ) <==>
            (e.Unregister? && e.o in s.Effective() && e.o.accessType.first ==> Shadowed(s.Effective() - {e.o}, READ))
    ensures Exact(After(s, e).writeMap, After(s, e).Effective(), WRITE) <==>
            (e.Unregister? && e.o in s.Effective() && e.o.accessType.second ==> Shadowed(s.Effective() - {e.o}, WRITE))
  {
    var table := s.Effective();
    assert Touched(s).Effective() == table;
    match e
    case Register(o, offset) =>
      if o !in table {
        assert After(s, e).Effective() == table[o := offset];
        MarkedIsExact(Resized(s).readMap, table, READ, o, offset);
        MarkedIsExact(Resized(s).writeMap, table, WRITE, o, offset);
      }
    case Unregister(o) => if o in table { ExactAfterUnregister(Touched(s), o); }
    case UnregisterAll =>
    case Skip(_, _, _) =>
    case Begin(_, _, _, _) =>
    case Called(_, _, _, _) =>
    case End =>
  }

  lemma {:induction false} ExactAfterUnregister(s: State, o: Observer)
    requires Inv(s) && o in s.Effective() && (s.level > 0 ==> s.pending.Some?)
    requires Exact(s.readMap, s.Effective(), READ) && Exact(s.writeMap, s.Effective(), WRITE)
    ensures var r := Unregistered(s, o);
            && (Exact(r.readMap, r.Effective(), READ) <==> (o.accessType.first ==> Shadowed(s.Effective() - {o}, READ)))
            && (Exact(r.writeMap, r.Effective(), WRITE) <==> (o.accessType.second ==> Shadowed(s.Effective() - {o}, WRITE)))
  {
    var table := s.Effective() - {o};
    assert Unregistered(s, o).Effective() == table;
    RebuiltIsExactWhenShadowed(s.size, table, READ);
    RebuiltIsExactWhenShadowed(s.size, table, WRITE);
    forall p: nat ensures !o.accessType.first ==> (Needed(table, READ, p) <==> Needed(s.Effective(), READ, p)) {
      if !o.accessType.first { OthersDoNotMatter(s.Effective(), READ, o, p); }
    }
    forall p: nat ensures !o.accessType.second ==> (Needed(table, WRITE, p) <==> Needed(s.Effective(), WRITE, p)) {
      if !o.accessType.second { OthersDoNotMatter(s.Effective(), WRITE, o, p); }
    }
  }

  ghost predicate BothExact(s: State) {
    Exact(s.readMap, s.Effective(), READ) && Exact(s.writeMap, s.Effective(), WRITE)
  }

  /** If the event is the unregistration of an observer, all pages covered by those who are left are needed. */
  ghost predicate KeepsExact(s: State, e: Event) {
    e.Unregister? && e.o in s.Effective() ==>
      var table := s.Effective() - {e.o};
      (e.o.accessType.first ==> Shadowed(table, READ)) && (e.o.accessType.second ==> Shadowed(table, WRITE))
  }

  ghost predicate KeepsExactAt(s: State, log: seq<Event>, k: nat)
    requires k < |log|
  {
    KeepsExact(StateAt(s, log, k), log[k])
  }

  ghost predicate ExactUpTo(s: State, log: seq<Event>, n: nat)
    requires n <= |log|
  {
    forall k: nat :: k <= n ==> BothExact(StateAt(s, log, k))
  }

  ghost predicate KeepUpTo(s: State, log: seq<Event>, n: nat)
    requires n <= |log|
  {
    forall k: nat :: k < n ==> KeepsExactAt(s, log, k)
  }

  lemma {:induction false} ExactNext(s: State, log: seq<Event>, k: nat)
    requires Inv(s) && LawfulLog(s, log) && k < |log| && BothExact(StateAt(s, log, k))
    ensures BothExact(StateAt(s, log, k + 1)) <==> KeepsExactAt(s, log, k)
  {
    RunKeeps(s, log, k);
    assert LawfulAt(s, log, k);
    var before, e := StateAt(s, log, k), log[k];
    ExactAfter(before, e);
    assert StateAt(s, log, k + 1) == After(before, e);
  }

  /** In every run both maps are exact throughout if and only if every unregistration keeps them exact. */
  lemma {:induction false} ExactThroughout(s: State, log: seq<Event>, n: nat)
    requires Inv(s) && BothExact(s) && LawfulLog(s, log) && n <= |log|
    ensures ExactUpTo(s, log, n) <==> KeepUpTo(s, log, n)
  {
    if n > 0 {
      ExactThroughout(s, log, n - 1);
      LastOfExact(s, log, n);
      if ExactUpTo(s, log, n - 1) { ExactNext(s, log, n - 1); }
    }
  }

  lemma {:induction false} LastOfExact(s: State, log: seq<Event>, n: nat)
    requires 0 < n <= |log|
    ensures ExactUpTo(s, log, n) <==> ExactUpTo(s, log, n - 1) && BothExact(StateAt(s, log, n))
    ensures ExactUpTo(s, log, n - 1) ==> BothExact(StateAt(s, log, n - 1))
    ensures KeepUpTo(s, log, n) <==> KeepUpTo(s, log, n - 1) && KeepsExactAt(s, log, n - 1)
  {
  }

  /** A memory of two pages, with an observer of reads on the first and one of writes on the second. */
  lemma {:induction false} ReaderAndWriter(r: Observer, w: Observer)
    requires r == Observer(1, READ, READ_WRITE, 0, 3) && w == Observer(2, WRITE, READ_WRITE, PAGE, PAGE)
    ensures After(After(Initial(2 * PAGE), Register(r, 0)), Register(w, 0)) ==
            State(2 * PAGE, true, map[r := 0, w := 0], None, 0, [true, false], [false, true], [])
  {
    var s1 := After(Initial(2 * PAGE), Register(r, 0));
    assert s1.Effective() == map[r := 0];
    assert s1.readMap == [true, false] && s1.writeMap == [false, false];
    var s := After(s1, Register(w, 0));
    assert s.readMap == [true, false] && s.writeMap == [false, true];
  }

  /** There the maps are exact; when the reader is unregistered, the read map gets the page of the writer. */
  lemma {:induction false} RebuildingMarksAWriter(r: Observer, w: Observer)
    requires r == Observer(1, READ, READ_WRITE, 0, 3) && w == Observer(2, WRITE, READ_WRITE, PAGE, PAGE)
    ensures var s := After(After(Initial(2 * PAGE), Register(r, 0)), Register(w, 0));
            var q := After(s, Unregister(r));
            && BothExact(s) && !KeepsExact(s, Unregister(r))
            && q.readMap == [false, true] && !Needed(q.Effective(), READ, 1)
  {
    ReaderAndWriter(r, w);
    var s := State(2 * PAGE, true, map[r := 0, w := 0], None, 0, [true, false], [false, true], []);
    assert Needs(s.current, READ, r, 0) && Needs(s.current, WRITE, w, 1);
    var left := map[w := 0];
    assert s.current - {r} == left;
    assert Covers(w, left[w], 1) && CoveredBy(left, 1);
  }
}
