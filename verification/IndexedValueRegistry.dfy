/**
 The registry that resolves names through its providers: the closure of forwardings, and
 entries that are resolved recursively through a cache, also when providers form cycles.
 */
module IndexedValueRegistry {
  import opened IndexedValueEntries

  /** What a provider answers; it has entries or forwardings for the names of the maps. */
  datatype Provider = Provider(entries: map<Name, seq<Entry>>, forwardings: map<Name, seq<Name>>)

  type Edges = Name -> set<Name>

  ghost predicate Path(edges: Edges, a: Name, b: Name, n: nat)
    decreases n
  {
    if n == 0 then a == b else exists c :: Path(edges, a, c, n - 1) && b in edges(c)
  }

  ghost predicate Reachable(edges: Edges, a: Name, b: Name) {
    exists n: nat :: Path(edges, a, b, n)
  }

  /** Reachable in at least one step. */
  ghost predicate Beyond(edges: Edges, a: Name, b: Name) {
    exists c :: c in edges(a) && Reachable(edges, c, b)
  }

  lemma {:induction false} OneMoreStep(edges: Edges, a: Name, b: Name, c: Name)
    requires Reachable(edges, a, b) && c in edges(b)
    ensures Reachable(edges, a, c)
  {
    var n: nat :| Path(edges, a, b, n);
    assert Path(edges, a, c, n + 1);
  }

  lemma {:induction false} PathsJoin(edges: Edges, a: Name, b: Name, c: Name, n: nat)
    requires b in edges(a) && Path(edges, b, c, n)
    ensures Path(edges, a, c, n + 1)
    decreases n
  {
    if n == 0 {
      assert Path(edges, a, a, 0);
    } else {
      var d :| Path(edges, b, d, n - 1) && c in edges(d);
      PathsJoin(edges, a, b, d, n - 1);
    }
  }

  lemma {:induction false} StepThenBeyond(edges: Edges, a: Name, b: Name, c: Name)
    requires b in edges(a) && Beyond(edges, b, c)
    ensures Beyond(edges, a, c)
  {
    var d :| d in edges(b) && Reachable(edges, d, c);
    var n: nat :| Path(edges, d, c, n);
    PathsJoin(edges, b, d, c, n);
  }

  lemma {:induction false} StepIsBeyond(edges: Edges, a: Name, b: Name)
    requires b in edges(a)
    ensures Beyond(edges, a, b)
  {
    assert Path(edges, b, b, 0);
  }

  /** A set that is closed under the edges has all that is reachable from its members. */
  lemma {:induction false} ClosedHasReachable(edges: Edges, s: set<Name>, a: Name, b: Name, n: nat)
    requires a in s && (forall c :: c in s ==> edges(c) <= s) && Path(edges, a, b, n)
    ensures b in s
    decreases n
  {
    if n > 0 {
      var c :| Path(edges, a, c, n - 1) && b in edges(c);
      ClosedHasReachable(edges, s, a, c, n - 1);
    }
  }

  lemma SubsetIsSmaller(a: set<Name>, b: set<Name>)
    requires a <= b
    ensures |a| <= |b| && (a != b ==> |a| < |b|)
  {
    assert b == a + (b - a);
    if a != b {
      var x :| x in b - a;
    }
  }

  function ForwardsOf(providers: seq<Provider>, name: Name): set<Name> {
    set p, n | p in providers && name in p.forwardings && n in p.forwardings[name] :: n
  }

  /** The names of the entries that the providers have for a name. */
  function TargetsOf(providers: seq<Provider>, name: Name): set<Name> {
    set p, e | p in providers && name in p.entries && e in p.entries[name] :: e.name
  }

  /** All forwardings of all providers lead from the set into the set. */
  ghost predicate HasForwardings(providers: seq<Provider>, s: set<Name>) {
    forall i, n, k | 0 <= i < |providers| && n in s && n in providers[i].forwardings &&
                     0 <= k < |providers[i].forwardings[n]| :: providers[i].forwardings[n][k] in s
  }

  lemma {:induction false} HasForwardingsWhenClosed(providers: seq<Provider>, s: set<Name>)
    ensures HasForwardings(providers, s) <==> forall n :: n in s ==> ForwardsOf(providers, n) <= s
  {
    forall i, n, k | 0 <= i < |providers| && n in s && n in providers[i].forwardings
                     && 0 <= k < |providers[i].forwardings[n]|
      ensures providers[i].forwardings[n][k] in ForwardsOf(providers, n)
    {
      assert providers[i] in providers && providers[i].forwardings[n][k] in providers[i].forwardings[n];
    }
  }

  /** What is reachable is in every set that has the first name and all forwardings of its names. */
  lemma {:induction false} ReachableIsLeast(providers: seq<Provider>, name: Name, s: set<Name>, n: Name)
    requires name in s && HasForwardings(providers, s) && Reachable(Forwards(providers), name, n)
    ensures n in s
  {
    HasForwardingsWhenClosed(providers, s);
    var k: nat :| Path(Forwards(providers), name, n, k);
    ClosedHasReachable(Forwards(providers), s, name, n, k);
  }

  function AllForwards(providers: seq<Provider>): set<Name> {
    set p, k, n | p in providers && k in p.forwardings && n in p.forwardings[k] :: n
  }

  /** Every name that the providers have entries for, or entries with. */
  function AllTargets(providers: seq<Provider>): set<Name> {
    (set p, k | p in providers && k in p.entries :: k) +
    (set p, k, e | p in providers && k in p.entries && e in p.entries[k] :: e.name)
  }

  function Forwards(providers: seq<Provider>): Edges {
    name => ForwardsOf(providers, name)
  }

  function Targets(providers: seq<Provider>): Edges {
    name => TargetsOf(providers, name)
  }

  /** What is resolved for a name can be reached from it, and is no unmapped target. */
  ghost predicate Good(providers: seq<Provider>, unmapped: set<Name>, name: Name, target: Name) {
    target !in unmapped && Beyond(Targets(providers), name, target)
  }

  ghost predicate AllGood(providers: seq<Provider>, unmapped: set<Name>, name: Name, entries: seq<Entry>) {
    forall e :: e in entries ==> Good(providers, unmapped, name, e.name)
  }

  ghost predicate GoodCache(providers: seq<Provider>, unmapped: set<Name>, cache: map<Name, seq<Entry>>) {
    forall name :: name in cache ==> AllGood(providers, unmapped, name, cache[name])
  }

  /** Everything found so far is reachable, and what a processed name leads to has been found. */
  ghost predicate Closing(edges: Edges, name: Name, all: set<Name>, result: set<Name>, todo: set<Name>) {
    && result !! todo && result + todo <= all && name in result + todo
    && (forall n :: n in result + todo ==> Reachable(edges, name, n))
    && (forall n :: n in result ==> edges(n) <= result + todo)
  }

  lemma {:induction false} StaysClosing(providers: seq<Provider>, name: Name, result: set<Name>, todo: set<Name>, n: Name)
    requires Closing(Forwards(providers), name, AllForwards(providers) + {name}, result, todo) && n in todo
    ensures Closing(Forwards(providers), name, AllForwards(providers) + {name}, result + {n},
                    todo - {n} + (ForwardsOf(providers, n) - (result + {n})))
  {
    forall m | m in ForwardsOf(providers, n) ensures Reachable(Forwards(providers), name, m) {
      OneMoreStep(Forwards(providers), name, n, m);
    }
  }

  /** An entry of the target leads on when it is for a third name and overlaps. */
  predicate LeadsOn(name: Name, entry: Entry, e: Entry) {
    e.name != entry.name && e.name != name && Overlaps(entry, e)
  }

  /** What an entry makes together with the first n of those of its target. */
  function ComposedAll(name: Name, entry: Entry, localEntries: seq<Entry>, n: nat): seq<Entry>
    requires n <= |localEntries|
  {
    if n == 0 then []
    else ComposedAll(name, entry, localEntries, n - 1) + ComposedOne(name, entry, localEntries[n - 1])
  }

  function ComposedOne(name: Name, entry: Entry, e: Entry): seq<Entry> {
    if LeadsOn(name, entry, e) then [Composed(entry, e)] else []
  }

  lemma {:induction false} ComposedLeadToTheSame(name: Name, entry: Entry, localEntries: seq<Entry>, n: nat, x: Entry)
    requires n <= |localEntries| && x in ComposedAll(name, entry, localEntries, n)
    ensures exists e :: e in localEntries && e.name == x.name
  {
    if x in ComposedOne(name, entry, localEntries[n - 1]) {
      assert localEntries[n - 1] in localEntries;
    } else {
      ComposedLeadToTheSame(name, entry, localEntries, n - 1, x);
    }
  }

  lemma {:induction false} StepKeepsGood(providers: seq<Provider>, unmapped: set<Name>, a: Name, b: Name, target: Name)
    requires b in TargetsOf(providers, a) && Good(providers, unmapped, b, target)
    ensures Good(providers, unmapped, a, target)
  {
    StepThenBeyond(Targets(providers), a, b, target);
  }

  lemma {:induction false} ComposedAreGood(providers: seq<Provider>, unmapped: set<Name>, name: Name, entry: Entry,
                                           localEntries: seq<Entry>, n: nat)
    requires entry.name in TargetsOf(providers, name) && AllGood(providers, unmapped, entry.name, localEntries)
    requires n <= |localEntries|
    ensures AllGood(providers, unmapped, name, ComposedAll(name, entry, localEntries, n))
  {
    forall x | x in ComposedAll(name, entry, localEntries, n) ensures Good(providers, unmapped, name, x.name) {
      ComposedLeadToTheSame(name, entry, localEntries, n, x);
      StepKeepsGood(providers, unmapped, name, entry.name, x.name);
    }
  }

  lemma {:induction false} GoodCacheGrows(providers: seq<Provider>, unmapped: set<Name>, cache: map<Name, seq<Entry>>,
                                          name: Name, more: seq<Entry>)
    requires name in cache && GoodCache(providers, unmapped, cache) && AllGood(providers, unmapped, name, more)
    ensures GoodCache(providers, unmapped, cache[name := cache[name] + more])
  {
  }

  /** A provider has this entry for the name. */
  ghost predicate Direct(providers: seq<Provider>, name: Name, e: Entry) {
    exists p :: p in providers && name in p.entries && e in p.entries[name]
  }

  /** What an entry of the name leads to; the entry itself when it leads nowhere and its target is not unmapped. */
  function Resolved(name: Name, entry: Entry, localEntries: seq<Entry>, unmapped: set<Name>): seq<Entry> {
    var more := ComposedAll(name, entry, localEntries, |localEntries|);
    if more == [] && entry.name !in unmapped then [entry] else more
  }

  lemma {:induction false} ComposedMembers(name: Name, d: Entry, localEntries: seq<Entry>, n: nat, x: Entry)
    requires n <= |localEntries|
    ensures x in ComposedAll(name, d, localEntries, n) <==>
              exists i :: 0 <= i < n && LeadsOn(name, d, localEntries[i]) && x == Composed(d, localEntries[i])
  {
    if n > 0 {
      ComposedMembers(name, d, localEntries, n - 1, x);
    }
  }

  /** No entry for a third name overlaps. */
  ghost predicate Alone(name: Name, d: Entry, localEntries: seq<Entry>) {
    forall e :: e in localEntries ==> e.name == d.name || e.name == name || !Overlaps(d, e)
  }

  lemma {:induction false} AloneMakesNothing(name: Name, d: Entry, localEntries: seq<Entry>, n: nat)
    requires n <= |localEntries| && Alone(name, d, localEntries)
    ensures ComposedAll(name, d, localEntries, n) == []
  {
    if n > 0 {
      assert localEntries[n - 1] in localEntries;
      AloneMakesNothing(name, d, localEntries, n - 1);
    }
  }

  /** That is: the compositions with all overlapping entries for a third name; or the entry itself when there is none
      and its target is not unmapped. */
  lemma {:induction false} ResolvedMembers(name: Name, d: Entry, localEntries: seq<Entry>, unmapped: set<Name>)
    ensures Alone(name, d, localEntries) ==>
              Resolved(name, d, localEntries, unmapped) == if d.name in unmapped then [] else [d]
    ensures !Alone(name, d, localEntries) ==> forall x ::
              x in Resolved(name, d, localEntries, unmapped) <==>
                exists e :: e in localEntries && e.name != d.name && e.name != name && Overlaps(d, e) && x == Composed(d, e)
  {
    var more := ComposedAll(name, d, localEntries, |localEntries|);
    forall x ensures x in more <==> exists e :: e in localEntries && LeadsOn(name, d, e) && x == Composed(d, e) {
      ComposedMembers(name, d, localEntries, |localEntries|, x);
    }
    if Alone(name, d, localEntries) {
      AloneMakesNothing(name, d, localEntries, |localEntries|);
    } else {
      var e :| e in localEntries && LeadsOn(name, d, e);
      assert Composed(d, e) in more;
    }
  }

  /** All that entry d of the name leads to is in the list of the name.  An entry of the name for itself is there, or
      something that it makes with what is there. */
  ghost predicate Done(cache: map<Name, seq<Entry>>, unmapped: set<Name>, name: Name, d: Entry) {
    && name in cache && d.name in cache
    && if d.name == name then
         (name in unmapped || d in cache[name] ||
          exists e :: e in cache[name] && e.name != name && Overlaps(d, e) && Composed(d, e) in cache[name])
       else
         && (d.name !in unmapped && Alone(name, d, cache[d.name]) ==> d in cache[name])
         && (forall e :: e in cache[d.name] && e.name != d.name && e.name != name && Overlaps(d, e) ==>
               Composed(d, e) in cache[name])
  }

  /** Or something that it fits in. */
  ghost predicate Covered(cache: map<Name, seq<Entry>>, unmapped: set<Name>, name: Name, d: Entry) {
    && name in cache && d.name in cache
    && if d.name == name then
         (name in unmapped || FitsInto(d, cache[name]) ||
          exists e: Entry :: FitsInto(e, cache[name]) && e.name != name && Overlaps(d, e) && FitsInto(Composed(d, e), cache[name]))
       else
         && (d.name !in unmapped && Alone(name, d, cache[d.name]) ==> FitsInto(d, cache[name]))
         && (forall e :: e in cache[d.name] && e.name != d.name && e.name != name && Overlaps(d, e) ==>
               FitsInto(Composed(d, e), cache[name]))
  }

  ghost predicate FitsInto(x: Entry, entries: seq<Entry>) {
    exists m :: m in entries && m.name == x.name && (m == x || FitsIn(x, m))
  }

  /** What fits in a list means nothing that the list does not mean. */
  lemma {:induction false} FittingKeepsMeaning(x: Entry, entries: seq<Entry>, i: nat, j: nat)
    requires FitsInto(x, entries) && NoWrap(x) && (forall m :: m in entries ==> NoWrap(m)) && Means(x, i, x.name, j)
    ensures AnyMeans(entries, i, x.name, j)
  {
    var m :| m in entries && m.name == x.name && (m == x || FitsIn(x, m));
    if m != x { FittingIsContained(x, m); }
  }

  /** Entry d of the name makes x: x is d, which leads nowhere, or a composition with an entry of its target. */
  ghost predicate Makes(cache: map<Name, seq<Entry>>, unmapped: set<Name>, name: Name, d: Entry, x: Entry) {
    && d.name in cache
    && ((x == d && d.name !in unmapped && (d.name != name ==> Alone(name, d, cache[d.name]))) ||
        exists e: Entry :: e.name != d.name && e.name != name && Overlaps(d, e) && x == Composed(d, e)
                    && (d.name != name ==> e in cache[d.name]))
  }

  /** Some entry that a provider has for the name makes x. */
  ghost predicate FromDirect(providers: seq<Provider>, unmapped: set<Name>, cache: map<Name, seq<Entry>>, name: Name,
                             x: Entry)
  {
    exists d :: Direct(providers, name, d) && Makes(cache, unmapped, name, d, x)
  }

  lemma DirectNames(providers: seq<Provider>, name: Name, e: Entry)
    requires Direct(providers, name, e)
    ensures e.name in TargetsOf(providers, name) && e.name in AllTargets(providers)
  {
  }

  lemma SurvivorsAreMaximal(entries: seq<Entry>, filtered: seq<Entry>)
    requires IsFiltered(entries, filtered)
    ensures forall e :: e in filtered ==> e in entries && Maximal(filtered, e)
  {
  }

  lemma {:induction false} DoneStays(before: map<Name, seq<Entry>>, after: map<Name, seq<Entry>>, unmapped: set<Name>,
                                     name: Name, d: Entry)
    requires Done(before, unmapped, name, d) && d.name in after && (d.name != name ==> after[d.name] == before[d.name])
    requires name in after && before[name] <= after[name]
    ensures Done(after, unmapped, name, d)
  {
  }

  lemma {:induction false} MakesStays(before: map<Name, seq<Entry>>, after: map<Name, seq<Entry>>, unmapped: set<Name>,
                                      name: Name, d: Entry, x: Entry)
    requires Makes(before, unmapped, name, d, x)
    requires d.name in after && (d.name != name ==> after[d.name] == before[d.name])
    ensures Makes(after, unmapped, name, d, x)
  {
  }

  lemma {:induction false} FromDirectStays(providers: seq<Provider>, unmapped: set<Name>, before: map<Name, seq<Entry>>,
                                           after: map<Name, seq<Entry>>, name: Name, x: Entry)
    requires FromDirect(providers, unmapped, before, name, x)
    requires forall k :: k in before ==> k in after && (k != name ==> after[k] == before[k])
    ensures FromDirect(providers, unmapped, after, name, x)
  {
    var d :| Direct(providers, name, d) && Makes(before, unmapped, name, d, x);
    MakesStays(before, after, unmapped, name, d, x);
  }

  /** While a name is resolved: its entries are done but for those still to be processed. */
  ghost predicate InProgress(providers: seq<Provider>, unmapped: set<Name>, cache: map<Name, seq<Entry>>, name: Name,
                             todo: seq<Entry>)
  {
    && name in cache
    && (forall e :: e in todo ==> Direct(providers, name, e))
    && (forall e :: e in cache[name] ==> FromDirect(providers, unmapped, cache, name, e))
    && (forall d :: Direct(providers, name, d) && d !in todo ==> Done(cache, unmapped, name, d))
  }

  lemma {:induction false} StaysInProgress(providers: seq<Provider>, unmapped: set<Name>, before: map<Name, seq<Entry>>,
                                           after: map<Name, seq<Entry>>, name: Name, todo: seq<Entry>)
    requires InProgress(providers, unmapped, before, name, todo)
    requires forall k :: k in before ==> k in after && after[k] == before[k]
    ensures InProgress(providers, unmapped, after, name, todo)
  {
    forall e | e in after[name] ensures FromDirect(providers, unmapped, after, name, e) {
      FromDirectStays(providers, unmapped, before, after, name, e);
    }
    forall d | Direct(providers, name, d) && d !in todo ensures Done(after, unmapped, name, d) {
      DoneStays(before, after, unmapped, name, d);
    }
  }

  lemma {:induction false} KeptFits(entries: seq<Entry>, filtered: seq<Entry>, x: Entry)
    requires x in entries && IsFiltered(entries, filtered)
    ensures FitsInto(x, filtered)
  {
    var m := SurvivorAround(entries, x);
    assert m in filtered;
  }

  lemma {:induction false} FilteredCovers(before: map<Name, seq<Entry>>, unmapped: set<Name>, name: Name, d: Entry,
                                          filtered: seq<Entry>)
    requires Done(before, unmapped, name, d) && IsFiltered(before[name], filtered)
    ensures Covered(before[name := filtered], unmapped, name, d)
  {
    forall x | x in before[name] ensures FitsInto(x, filtered) {
      KeptFits(before[name], filtered, x);
    }
  }

  /** What one more entry adds is made by it, and it is done then. */
  lemma {:induction false} ResolvedIsDone(cache: map<Name, seq<Entry>>, unmapped: set<Name>, name: Name, d: Entry)
    requires name in cache && d.name in cache
    ensures var more := Resolved(name, d, cache[d.name], unmapped);
            var after := cache[name := cache[name] + more];
            && Done(after, unmapped, name, d)
            && forall x :: x in more ==> Makes(after, unmapped, name, d, x)
  {
    var localEntries := cache[d.name];
    var more := Resolved(name, d, localEntries, unmapped);
    ResolvedMembers(name, d, localEntries, unmapped);
    if d.name == name && !Alone(name, d, localEntries) {
      var e :| e in localEntries && e.name != name && Overlaps(d, e);
      assert Composed(d, e) in more;
    }
  }

  class Registry {
    var mProviders: seq<Provider>
    var mUnmappedTargets: set<Name>
    var mTargetEntriesCache: map<Name, seq<Entry>>

    constructor (providers: seq<Provider>, unmapped: set<Name>)
      ensures Valid() && mProviders == providers && mUnmappedTargets == unmapped && mTargetEntriesCache == map[]
    {
      mProviders, mUnmappedTargets, mTargetEntriesCache := providers, unmapped, map[];
    }

    ghost predicate Valid()
      reads this
    {
      GoodCache(mProviders, mUnmappedTargets, mTargetEntriesCache)
    }

    /** All names that are reachable through forwardings of any provider, the name itself included. */
    method GetForwardingsForTarget(name: Name) returns (result: set<Name>)
      ensures forall n :: n in result <==> Reachable(Forwards(mProviders), name, n)
      ensures name in result && HasForwardings(mProviders, result)
    {
      ghost var edges, all := Forwards(mProviders), AllForwards(mProviders) + {name};
      var namesToProcess := {name};
      result := {};
      assert Path(edges, name, name, 0);
      while namesToProcess != {}
        invariant Closing(edges, name, all, result, namesToProcess)
        decreases all - result
      {
        var n :| n in namesToProcess;
        ghost var r0, todo0 := result, namesToProcess;
        namesToProcess := namesToProcess - {n};
        result := result + {n};
        var more := CollectForwardings(n);
        namesToProcess := namesToProcess + (more - result);
        StaysClosing(mProviders, name, r0, todo0, n);
      }
      HasForwardingsWhenClosed(mProviders, result);
      forall n | Reachable(edges, name, n) ensures n in result {
        var k: nat :| Path(edges, name, n, k);
        ClosedHasReachable(edges, result, name, n, k);
      }
    }

    method CollectForwardings(name: Name) returns (more: set<Name>)
      ensures more == ForwardsOf(mProviders, name)
    {
      more := {};
      for i := 0 to |mProviders|
        invariant more == ForwardsOf(mProviders[..i], name)
      {
        assert mProviders[..i + 1] == mProviders[..i] + [mProviders[i]];
        if name in mProviders[i].forwardings {
          more := more + (set n | n in mProviders[i].forwardings[name]);
        }
      }
      assert mProviders[..|mProviders|] == mProviders;
    }

    /** The providers' names that are not in the cache. */
    ghost function Uncached(): set<Name>
      reads this`mProviders, this`mTargetEntriesCache
    {
      AllTargets(mProviders) - mTargetEntriesCache.Keys
    }

    /** What was in the cache is there unchanged, but for `name`. */
    ghost predicate Keeps(cache: map<Name, seq<Entry>>, name: Name)
      reads this`mTargetEntriesCache
    {
      forall k :: k in cache ==> k in mTargetEntriesCache && (k != name ==> mTargetEntriesCache[k] == cache[k])
    }

    /** The resolved entries of a name, from the cache when they are there; the answer never changes after that. */
    method GetEntriesForTargetInternal(name: Name) returns (entries: seq<Entry>)
      requires Valid()
      modifies this`mTargetEntriesCache
      ensures Valid() && name in mTargetEntriesCache && entries == mTargetEntriesCache[name]
      ensures forall k :: k in old(mTargetEntriesCache) ==>
                            k in mTargetEntriesCache && mTargetEntriesCache[k] == old(mTargetEntriesCache)[k]
      ensures name !in old(mTargetEntriesCache) ==> Settled(name)
      decreases |Uncached() - {name}|, if name in mTargetEntriesCache then 0 else 3
    {
      if name !in mTargetEntriesCache {
        MakeSlot(name);
        GetEntriesForTargetSlow(name);
      }
      entries := mTargetEntriesCache[name];
    }

    /** The slot is there before the name is resolved, so that a cycle finds it. */
    method MakeSlot(name: Name)
      requires Valid() && name !in mTargetEntriesCache
      modifies this`mTargetEntriesCache
      ensures Valid() && name in mTargetEntriesCache && Keeps(old(mTargetEntriesCache), name)
      ensures mTargetEntriesCache[name] == []
      ensures |Uncached()| == |old(Uncached()) - {name}|
    {
      ghost var left := Uncached() - {name};
      mTargetEntriesCache := mTargetEntriesCache[name := []];
      assert Uncached() == left;
    }

    /** The list of the name says what its providers' entries lead to, no more and no less. */
    ghost predicate Settled(name: Name)
      reads this
    {
      && name in mTargetEntriesCache
      && NoRepeats(mTargetEntriesCache[name])
      && (forall e :: e in mTargetEntriesCache[name] ==>
            Maximal(mTargetEntriesCache[name], e) && FromDirect(mProviders, mUnmappedTargets, mTargetEntriesCache, name, e))
      && (forall d :: Direct(mProviders, name, d) ==>
            Covered(mTargetEntriesCache, mUnmappedTargets, name, d))
    }

    ghost predicate Underway(name: Name, todo: seq<Entry>)
      reads this
    {
      InProgress(mProviders, mUnmappedTargets, mTargetEntriesCache, name, todo)
    }

    /** Resolves a name whose cache slot is already there; the slot is filled in place. */
    method GetEntriesForTargetSlow(name: Name)
      requires Valid() && name in mTargetEntriesCache && mTargetEntriesCache[name] == []
      modifies this`mTargetEntriesCache
      ensures Valid() && Keeps(old(mTargetEntriesCache), name) && Settled(name)
      decreases |Uncached()|, 2
    {
      var entriesToBeProcessed := CollectEntries(name);
      while entriesToBeProcessed != []
        invariant Valid() && Keeps(old(mTargetEntriesCache), name) && Underway(name, entriesToBeProcessed)
        decreases |entriesToBeProcessed|
      {
        var entry := entriesToBeProcessed[|entriesToBeProcessed| - 1];
        var rest := entriesToBeProcessed[..|entriesToBeProcessed| - 1];
        assert rest + [entry] == entriesToBeProcessed;
        SubsetIsSmaller(Uncached(), old(Uncached()));
        ProcessEntry(name, entry, rest, |old(Uncached())|);
        entriesToBeProcessed := rest;
      }
      Filter(name);
    }

    /** One entry of the name: its target is resolved first. */
    method ProcessEntry(name: Name, entry: Entry, ghost rest: seq<Entry>, ghost work: nat)
      requires Valid() && Underway(name, rest + [entry]) && |Uncached()| <= work
      modifies this`mTargetEntriesCache
      ensures Valid() && Keeps(old(mTargetEntriesCache), name) && Underway(name, rest)
      decreases work, 1
    {
      assert entry in rest + [entry];
      DirectNames(mProviders, name, entry);
      SubsetIsSmaller(Uncached() - {entry.name}, Uncached());
      var localEntries := GetEntriesForTargetInternal(entry.name);
      StaysInProgress(mProviders, mUnmappedTargets, old(mTargetEntriesCache), mTargetEntriesCache, name, rest + [entry]);
      AddResolved(name, entry, localEntries, rest);
    }

    /** Duplicates and contained entries go. */
    method Filter(name: Name)
      requires Valid() && Underway(name, [])
      modifies this`mTargetEntriesCache
      ensures Valid() && Keeps(old(mTargetEntriesCache), name) && Settled(name)
    {
      var filtered := FilterDuplicatesAndContainedEntries(mTargetEntriesCache[name]);
      forall d | Direct(mProviders, name, d)
        ensures Covered(mTargetEntriesCache[name := filtered], mUnmappedTargets, name, d)
      {
        FilteredCovers(mTargetEntriesCache, mUnmappedTargets, name, d, filtered);
      }
      SurvivorsAreMaximal(mTargetEntriesCache[name], filtered);
      forall e | e in filtered
        ensures FromDirect(mProviders, mUnmappedTargets, mTargetEntriesCache[name := filtered], name, e)
      {
        FromDirectStays(mProviders, mUnmappedTargets, mTargetEntriesCache, mTargetEntriesCache[name := filtered], name, e);
      }
      mTargetEntriesCache := mTargetEntriesCache[name := filtered];
    }

    /** Adds what an entry of the name leads to; the entry itself when it leads nowhere. */
    method AddResolved(name: Name, entry: Entry, localEntries: seq<Entry>, ghost rest: seq<Entry>)
      requires Valid() && Underway(name, rest + [entry])
      requires entry.name in mTargetEntriesCache && localEntries == mTargetEntriesCache[entry.name]
      modifies this`mTargetEntriesCache
      ensures Valid() && Keeps(old(mTargetEntriesCache), name) && Underway(name, rest)
    {
      ghost var cache, more := mTargetEntriesCache, Resolved(name, entry, localEntries, mUnmappedTargets);
      assert entry in rest + [entry];
      DirectNames(mProviders, name, entry);
      AddAll(name, entry, localEntries);
      ghost var after := mTargetEntriesCache;
      ResolvedIsDone(cache, mUnmappedTargets, name, entry);
      forall x | x in after[name] ensures FromDirect(mProviders, mUnmappedTargets, after, name, x) {
        if x in cache[name] {
          FromDirectStays(mProviders, mUnmappedTargets, cache, after, name, x);
        }
      }
      OthersStayDone(cache, name, entry, rest);
    }

    lemma OthersStayDone(cache: map<Name, seq<Entry>>, name: Name, entry: Entry, rest: seq<Entry>)
      requires InProgress(mProviders, mUnmappedTargets, cache, name, rest + [entry])
      requires Done(mTargetEntriesCache, mUnmappedTargets, name, entry)
      requires name in mTargetEntriesCache && cache[name] <= mTargetEntriesCache[name]
      requires forall k :: k in cache ==> k in mTargetEntriesCache && (k != name ==> mTargetEntriesCache[k] == cache[k])
      ensures forall d :: Direct(mProviders, name, d) && d !in rest ==> Done(mTargetEntriesCache, mUnmappedTargets, name, d)
    {
      forall d | Direct(mProviders, name, d) && d !in rest ensures Done(mTargetEntriesCache, mUnmappedTargets, name, d) {
        if d != entry {
          assert d !in rest + [entry];
          DoneStays(cache, mTargetEntriesCache, mUnmappedTargets, name, d);
        }
      }
    }

    method AddAll(name: Name, entry: Entry, localEntries: seq<Entry>)
      requires Valid() && name in mTargetEntriesCache && entry.name in TargetsOf(mProviders, name)
      requires AllGood(mProviders, mUnmappedTargets, entry.name, localEntries)
      modifies this`mTargetEntriesCache
      ensures Valid() && OnlyAdds(old(mTargetEntriesCache), name, Resolved(name, entry, localEntries, mUnmappedTargets))
    {
      ghost var cache, more := mTargetEntriesCache, ComposedAll(name, entry, localEntries, |localEntries|);
      ComposedAreGood(mProviders, mUnmappedTargets, name, entry, localEntries, |localEntries|);
      GoodCacheGrows(mProviders, mUnmappedTargets, cache, name, more);
      var localEntryAdded := AddComposed(name, entry, localEntries);
      if !localEntryAdded && entry.name !in mUnmappedTargets {
        StepIsBeyond(Targets(mProviders), name, entry.name);
        assert cache[name] + more == cache[name] && mTargetEntriesCache == cache;
        GoodCacheGrows(mProviders, mUnmappedTargets, cache, name, [entry]);
        Push(name, entry);
      }
    }

    method CollectEntries(name: Name) returns (entries: seq<Entry>)
      ensures forall e :: e in entries <==> Direct(mProviders, name, e)
    {
      entries := [];
      for i := 0 to |mProviders|
        invariant forall e :: e in entries <==> Direct(mProviders[..i], name, e)
      {
        assert mProviders[..i + 1] == mProviders[..i] + [mProviders[i]];
        if name in mProviders[i].entries {
          entries := entries + mProviders[i].entries[name];
        }
      }
      assert mProviders[..|mProviders|] == mProviders;
    }

    /** The list of the name has grown by these entries, and nothing else has changed. */
    ghost predicate OnlyAdds(cache: map<Name, seq<Entry>>, name: Name, more: seq<Entry>)
      requires name in cache
      reads this`mTargetEntriesCache
    {
      mTargetEntriesCache == cache[name := cache[name] + more]
    }

    method Push(name: Name, e: Entry)
      requires name in mTargetEntriesCache
      modifies this`mTargetEntriesCache
      ensures OnlyAdds(old(mTargetEntriesCache), name, [e])
    {
      mTargetEntriesCache := mTargetEntriesCache[name := mTargetEntriesCache[name] + [e]];
    }

    /** Adds what the entry and those of its target make together. */
    method AddComposed(name: Name, entry: Entry, localEntries: seq<Entry>) returns (added: bool)
      requires name in mTargetEntriesCache
      modifies this`mTargetEntriesCache
      ensures OnlyAdds(old(mTargetEntriesCache), name, ComposedAll(name, entry, localEntries, |localEntries|))
      ensures added == (ComposedAll(name, entry, localEntries, |localEntries|) != [])
    {
      added := false;
      ghost var cache := mTargetEntriesCache;
      assert cache[name] + [] == cache[name] && cache[name := cache[name]] == cache;
      for i := 0 to |localEntries|
        invariant OnlyAdds(cache, name, ComposedAll(name, entry, localEntries, i))
        invariant added == (ComposedAll(name, entry, localEntries, i) != [])
      {
        var e := localEntries[i];
        ghost var before := ComposedAll(name, entry, localEntries, i);
        if e.name != entry.name && e.name != name && Overlaps(entry, e) {
          added := true;
          Push(name, Composed(entry, e));
          assert cache[name] + before + [Composed(entry, e)] == cache[name] + (before + [Composed(entry, e)]);
        } else {
          assert before + [] == before;
        }
      }
    }
  }

  /** What is resolved for a name comes from a provider's entry for it. */
  lemma {:induction false} ResolvedHasTargets(providers: seq<Provider>, unmapped: set<Name>, cache: map<Name, seq<Entry>>,
                                              name: Name, e: Entry)
    requires GoodCache(providers, unmapped, cache) && name in cache && e in cache[name]
    ensures TargetsOf(providers, name) != {}
  {
    assert Good(providers, unmapped, name, e.name);
  }

  lemma {:induction false} OnlyMember(s: seq<Entry>, d: Entry)
    requires NoRepeats(s) && d in s && forall x :: x in s ==> x == d
    ensures s == [d]
  {
    assert s[0] in s && s[|s| - 1] in s;
  }

  /** One provider, with one entry for name 1. */
  function OneEntry(d: Entry): seq<Provider> {
    [Provider(map[1 := [d]], map[])]
  }

  lemma {:induction false} OneEntryIsDirect(d: Entry)
    ensures forall x :: Direct(OneEntry(d), 1, x) <==> x == d
    ensures d.name != 1 ==> TargetsOf(OneEntry(d), d.name) == {}
  {
    assert OneEntry(d)[0] in OneEntry(d);
  }

  /** A name that only refers to a final target resolves to just that entry. */
  method FinalTargetExample() returns (entries: seq<Entry>)
    ensures entries == [Entry(2, 0, 10, 0)]
  {
    var d := Entry(2, 0, 10, 0);
    var registry := new Registry(OneEntry(d), {});
    entries := registry.GetEntriesForTargetInternal(1);
    ghost var providers, cache := registry.mProviders, registry.mTargetEntriesCache;
    OneEntryIsDirect(d);
    assert Direct(providers, 1, d) && Covered(cache, {}, 1, d);
    forall e | e in cache[2] ensures TargetsOf(providers, 2) != {} {
      ResolvedHasTargets(providers, {}, cache, 2, e);
    }
    assert Alone(1, d, cache[2]) && FitsInto(d, entries);
    forall x | x in entries ensures x == d {
      assert FromDirect(providers, {}, cache, 1, x);
    }
    OnlyMember(entries, d);
  }
}
