/**
 The container behind the clocked payload event queue: a singly linked list sorted by
 arrival tick.  All containers take their entries from one free list and give them back.

 The lists are proved to hold the sequences that PeqItems describes, and never to share
 an entry, with each other or with the free list (class Queues).
 */
module PeqItems {
  import opened Options

  /** A payload is known by its address. */
  type Payload = nat

  datatype Item = Item(payload: Payload, tick: nat)

  ghost predicate Sorted(items: seq<Item>) {
    forall i, j :: 0 <= i < j < |items| ==> items[i].tick <= items[j].tick
  }

  /** Where an arrival at `tick` belongs: after all earlier and equal ticks. */
  function Position(items: seq<Item>, tick: nat): (k: nat)
    ensures k <= |items|
    ensures forall i :: 0 <= i < k ==> items[i].tick <= tick
    ensures k < |items| ==> tick < items[k].tick
  {
    if items == [] || tick < items[0].tick then 0 else 1 + Position(items[1..], tick)
  }

  function Insert(items: seq<Item>, x: Item): seq<Item> {
    var k := Position(items, x.tick);
    items[..k] + [x] + items[k..]
  }

  function Without(items: seq<Item>, k: nat): seq<Item>
    requires k < |items|
  {
    items[..k] + items[k + 1..]
  }

  /** Only what arrived before `now` is visible. */
  function VisibleCount(items: seq<Item>, now: nat): (n: nat)
    ensures n <= |items|
    ensures forall i :: 0 <= i < n ==> items[i].tick < now
    ensures n < |items| ==> now <= items[n].tick
  {
    if items == [] || now <= items[0].tick then 0 else 1 + VisibleCount(items[1..], now)
  }

  /** The first visible item with this payload. */
  function FirstMatch(items: seq<Item>, payload: Payload, now: nat): (k: Option<nat>)
    ensures k.Some? ==> k.value < VisibleCount(items, now) && items[k.value].payload == payload
    ensures k.Some? ==> forall i :: 0 <= i < k.value ==> items[i].payload != payload
    ensures k.None? ==> forall i :: 0 <= i < VisibleCount(items, now) ==> items[i].payload != payload
  {
    if items == [] || now <= items[0].tick then None
    else if items[0].payload == payload then Some(0)
    else
      var k := FirstMatch(items[1..], payload, now);
      if k.Some? then Some(k.value + 1) else None
  }

  lemma InsertIsSorted(items: seq<Item>, x: Item)
    requires Sorted(items)
    ensures Sorted(Insert(items, x))
  {
  }

  lemma PositionIsUnique(items: seq<Item>, tick: nat, k: nat)
    requires Sorted(items) && k <= |items|
    requires forall i :: 0 <= i < k ==> items[i].tick <= tick
    requires k < |items| ==> tick < items[k].tick
    ensures k == Position(items, tick)
  {
  }

  lemma WithoutIsSorted(items: seq<Item>, k: nat)
    requires Sorted(items) && k < |items|
    ensures Sorted(Without(items, k))
  {
  }

  lemma MatchIsUnique(items: seq<Item>, payload: Payload, now: nat, k: nat)
    requires k < |items| && items[k].payload == payload
    requires forall i :: 0 <= i <= k ==> items[i].tick < now
    requires forall i :: 0 <= i < k ==> items[i].payload != payload
    ensures FirstMatch(items, payload, now) == Some(k)
  {
  }

  lemma NoMatch(items: seq<Item>, payload: Payload, now: nat, n: nat)
    requires n <= |items| && (n < |items| ==> now <= items[n].tick)
    requires forall i :: 0 <= i < n ==> items[i].tick < now && items[i].payload != payload
    ensures FirstMatch(items, payload, now) == None
  {
  }
}

module PeqContainer {
  import opened Options
  import opened PeqItems

  class Entry {
    var mPayload: Payload
    var mArrivalTick: nat
    var mNext: Entry?

    constructor (payload: Payload, arrivalTick: nat, next: Entry?)
      ensures mPayload == payload && mArrivalTick == arrivalTick && mNext == next
    {
      mPayload, mArrivalTick, mNext := payload, arrivalTick, next;
    }
  }

  /** The list that begins at `first` consists of the entries of `spine`, each once. */
  ghost predicate Linked(first: Entry?, spine: seq<Entry>)
    reads spine
  {
    && first == At(spine, 0)
    && (forall i {:trigger spine[i].mNext} :: 0 <= i < |spine| ==> spine[i].mNext == At(spine, i + 1))
    && (forall i, j :: 0 <= i < j < |spine| ==> spine[i] != spine[j])
  }

  /** The node that follows position k, or null. */
  ghost function At(spine: seq<Entry>, k: nat): Entry? {
    if k < |spine| then spine[k] else null
  }

  ghost function ItemsOf(spine: seq<Entry>): (items: seq<Item>)
    reads spine
    ensures |items| == |spine|
    ensures forall i :: 0 <= i < |spine| ==> items[i] == Item(spine[i].mPayload, spine[i].mArrivalTick)
  {
    seq(|spine|, i requires 0 <= i < |spine| reads spine => Item(spine[i].mPayload, spine[i].mArrivalTick))
  }

  /** Entry e has been linked in at position i of a list. */
  lemma LinkedIn(first: Entry?, spine: seq<Entry>, i: nat, e: Entry)
    requires i <= |spine| && e !in spine && forall j, k :: 0 <= j < k < |spine| ==> spine[j] != spine[k]
    requires forall j {:trigger spine[j].mNext} :: 0 <= j < |spine| ==>
               spine[j].mNext == if j + 1 == i then e else At(spine, j + 1)
    requires e.mNext == At(spine, i) && first == if i == 0 then e else spine[0]
    ensures Linked(first, spine[..i] + [e] + spine[i..])
    ensures ItemsOf(spine[..i] + [e] + spine[i..]) ==
            ItemsOf(spine)[..i] + [Item(e.mPayload, e.mArrivalTick)] + ItemsOf(spine)[i..]
  {
  }

  /** The entry at position i has been linked out of a list. */
  lemma LinkedOut(first: Entry?, spine: seq<Entry>, i: nat)
    requires i < |spine| && forall j, k :: 0 <= j < k < |spine| ==> spine[j] != spine[k]
    requires forall j {:trigger spine[j].mNext} :: 0 <= j < |spine| && j != i ==>
               spine[j].mNext == if j + 1 == i then At(spine, i + 1) else At(spine, j + 1)
    requires first == if i == 0 then At(spine, 1) else spine[0]
    ensures Linked(first, spine[..i] + spine[i + 1..])
    ensures ItemsOf(spine[..i] + spine[i + 1..]) == Without(ItemsOf(spine), i)
  {
  }

  /** The lists have no entry in common. */
  ghost predicate Apart(a: seq<Entry>, b: seq<Entry>) {
    forall e :: e in a ==> e !in b
  }

  /** The entries that are not in use. */
  class FreeList {
    var gFreeList: Entry?
    ghost var spine: seq<Entry>

    constructor ()
      ensures Valid() && spine == []
    {
      gFreeList, spine := null, [];
    }

    ghost predicate Valid()
      reads this, spine
    {
      Linked(gFreeList, spine)
    }

    /** Takes an entry from the free list, or allocates one when there is none. */
    method NewEntry(payload: Payload, arrivalTick: nat, next: Entry?) returns (e: Entry)
      requires Valid()
      modifies this, spine
      ensures Valid()
      ensures e.mPayload == payload && e.mArrivalTick == arrivalTick && e.mNext == next
      ensures if old(spine) == [] then fresh(e) && spine == [] else e == old(spine)[0] && spine == old(spine)[1..]
      ensures forall x :: x in old(spine) && x != e ==> unchanged(x)
    {
      if gFreeList == null {
        e := new Entry(payload, arrivalTick, next);
      } else {
        e := gFreeList;
        gFreeList := e.mNext;
        e.mPayload, e.mArrivalTick, e.mNext := payload, arrivalTick, next;
        spine := spine[1..];
      }
    }

    method DeleteEntry(e: Entry)
      requires Valid() && e !in spine
      modifies this, e
      ensures Valid() && spine == [e] + old(spine)
    {
      e.mNext := gFreeList;
      gFreeList := e;
      spine := [e] + spine;
    }
  }

  class Container {
    const pool: FreeList
    var mFirstEntry: Entry?
    ghost var spine: seq<Entry>

    constructor (pool: FreeList)
      requires pool.Valid()
      ensures this.pool == pool && Valid() && spine == []
    {
      this.pool := pool;
      mFirstEntry, spine := null, [];
    }

    ghost predicate Valid()
      reads this, spine, pool, pool.spine
    {
      Intact() && Sorted(Items())
    }

    ghost function Items(): seq<Item>
      reads this, spine
    {
      ItemsOf(spine)
    }

    /** The place of an arrival: after the entry `last` (the list itself when null) and before `pos`. */
    method FindPosition(arrivalTick: nat) returns (last: Entry?, pos: Entry?, ghost i: nat)
      requires Valid()
      ensures i == Position(Items(), arrivalTick) && pos == At(spine, i)
      ensures last == if i == 0 then null else spine[i - 1]
      ensures pos == null <==> Position(Items(), arrivalTick) == |spine|
    {
      i, pos, last := 0, mFirstEntry, null;
      while pos != null && pos.mArrivalTick <= arrivalTick
        invariant i <= |spine| && pos == At(spine, i)
        invariant last == if i == 0 then null else spine[i - 1]
        invariant forall j :: 0 <= j < i ==> Items()[j].tick <= arrivalTick
        decreases |spine| - i
      {
        last := pos;
        pos := pos.mNext;
        i := i + 1;
      }
      PositionIsUnique(Items(), arrivalTick, i);
    }

    /** The lists are in order; nothing is said about their contents. */
    ghost predicate Intact()
      reads this, spine, pool, pool.spine
    {
      Linked(mFirstEntry, spine) && pool.Valid() && Apart(spine, pool.spine)
    }

    /** Links entry e in after `last`. */
    method LinkIn(last: Entry?, e: Entry, ghost i: nat)
      requires Intact() && e !in spine && e !in pool.spine && i <= |spine| && e.mNext == At(spine, i)
      requires last == if i == 0 then null else spine[i - 1]
      modifies this, spine
      ensures Intact() && spine == old(spine)[..i] + [e] + old(spine)[i..]
      ensures Items() == old(Items())[..i] + [Item(e.mPayload, e.mArrivalTick)] + old(Items())[i..]
    {
      assert forall k :: 0 <= k < |pool.spine| ==> pool.spine[k] in pool.spine && pool.spine[k] !in spine;
      if last == null {
        mFirstEntry := e;
      } else {
        last.mNext := e;
      }
      assert ItemsOf(spine) == old(Items());
      assert forall k {:trigger pool.spine[k].mNext} :: 0 <= k < |pool.spine| ==> unchanged(pool.spine[k]);
      LinkedIn(mFirstEntry, spine, i, e);
      spine := spine[..i] + [e] + spine[i..];
    }

    /** Inserts an arrival.  Its entry `e` comes from the free list, or is new when that is empty. */
    method NotifyAt(payload: Payload, arrivalTick: nat) returns (atFront: bool, ghost e: Entry)
      requires Valid()
      modifies this, pool, spine, pool.spine
      ensures Valid()
      ensures Items() == Insert(old(Items()), Item(payload, arrivalTick))
      ensures atFront == (Position(old(Items()), arrivalTick) == 0)
      ensures fresh(e) || e in old(pool.spine)
      ensures forall x :: x in spine <==> x in old(spine) || x == e
      ensures forall x :: x in pool.spine <==> x in old(pool.spine) && x != e
    {
      var last, pos, i := FindPosition(arrivalTick);
      InsertIsSorted(Items(), Item(payload, arrivalTick));
      var entry := TakeEntry(payload, arrivalTick, pos);
      LinkIn(last, entry, i);
      atFront, e := last == null, entry;
    }

    /** An entry from the free list; this container's own entries are left alone. */
    method TakeEntry(payload: Payload, arrivalTick: nat, next: Entry?) returns (e: Entry)
      requires Valid()
      modifies pool, pool.spine
      ensures Intact() && e !in spine && e !in pool.spine && Items() == old(Items())
      ensures e.mPayload == payload && e.mArrivalTick == arrivalTick && e.mNext == next
      ensures fresh(e) || e in old(pool.spine)
      ensures forall x :: x in pool.spine <==> x in old(pool.spine) && x != e
    {
      assert forall k :: 0 <= k < |spine| ==> spine[k] in spine && spine[k] !in pool.spine;
      e := pool.NewEntry(payload, arrivalTick, next);
      assert forall k {:trigger spine[k].mNext} :: 0 <= k < |spine| ==> unchanged(spine[k]);
      assert forall x :: x in pool.spine ==> x in old(pool.spine);
      assert Items() == old(Items());
    }

    predicate IsEmpty(now: nat)
      requires Valid()
      reads this, spine, pool, pool.spine
      ensures IsEmpty(now) <==> VisibleCount(Items(), now) == 0
    {
      mFirstEntry == null || mFirstEntry.mArrivalTick >= now
    }

    predicate HasMoreEvents()
      requires Valid()
      reads this, spine, pool, pool.spine
      ensures HasMoreEvents() <==> Items() != []
    {
      mFirstEntry != null
    }

    function NextEventArrivalTick(): nat
      requires Valid() && Items() != []
      reads this, spine, pool, pool.spine
      ensures NextEventArrivalTick() == Items()[0].tick
    {
      mFirstEntry.mArrivalTick
    }

    /** The entry after `last` (the first one when null) goes back to the free list. */
    method LinkOut(last: Entry?, pos: Entry, ghost i: nat)
      requires Intact() && i < |spine| && pos == spine[i] && last == if i == 0 then null else spine[i - 1]
      modifies this, spine, pool
      ensures Intact() && spine == old(spine)[..i] + old(spine)[i + 1..] && pool.spine == [pos] + old(pool.spine)
      ensures Items() == Without(old(Items()), i)
    {
      assert forall k :: 0 <= k < |pool.spine| ==> pool.spine[k] in pool.spine && pool.spine[k] !in spine;
      assert pos in spine;
      if last == null {
        mFirstEntry := pos.mNext;
      } else {
        last.mNext := pos.mNext;
      }
      assert ItemsOf(spine) == old(Items());
      assert forall k {:trigger pool.spine[k].mNext} :: 0 <= k < |pool.spine| ==> unchanged(pool.spine[k]);
      LinkedOut(mFirstEntry, spine, i);
      spine := spine[..i] + spine[i + 1..];
      FreeEntry(pos);
    }

    /** Gives an entry back; this container's own entries are left alone. */
    method FreeEntry(e: Entry)
      requires Intact() && e !in spine && e !in pool.spine
      modifies pool, e
      ensures Intact() && pool.spine == [e] + old(pool.spine) && Items() == old(Items())
    {
      assert forall k :: 0 <= k < |spine| ==> spine[k] in spine && spine[k] != e;
      pool.DeleteEntry(e);
      assert forall k {:trigger spine[k].mNext} :: 0 <= k < |spine| ==> unchanged(spine[k]);
      assert Items() == old(Items());
    }

    /** Takes out the first entry if it is visible. */
    method GetNext(now: nat) returns (payload: Option<Payload>)
      requires Valid()
      modifies this, pool, spine
      ensures Valid()
      ensures if VisibleCount(old(Items()), now) == 0 then
                payload == None && Items() == old(Items())
              else payload == Some(old(Items())[0].payload) && Items() == old(Items())[1..]
      ensures forall x :: x in spine ==> x in old(spine)
      ensures forall x :: x in spine || x in pool.spine <==> x in old(spine) || x in old(pool.spine)
    {
      var pos := mFirstEntry;
      if pos == null || pos.mArrivalTick >= now {
        return None;
      }
      payload := Some(pos.mPayload);
      ghost var items, s0 := Items(), spine;
      WithoutIsSorted(items, 0);
      assert Without(items, 0) == items[1..] && s0[..0] + s0[1..] == s0[1..];
      LinkOut(null, pos, 0);
    }

    /** Takes out the first visible entry with this payload. */
    method Remove(payload: Payload, now: nat) returns (ok: bool)
      requires Valid()
      modifies this, pool, spine
      ensures Valid()
      ensures var k := FirstMatch(old(Items()), payload, now);
              ok == k.Some? && Items() == if ok then Without(old(Items()), k.value) else old(Items())
      ensures forall x :: x in spine ==> x in old(spine)
      ensures forall x :: x in spine || x in pool.spine <==> x in old(spine) || x in old(pool.spine)
    {
      var last, pos, i := FindMatch(payload, now);
      if pos == null {
        return false;
      }
      WithoutIsSorted(Items(), i);
      LinkOut(last, pos, i);
      return true;
    }

    /** The first visible entry with this payload, and the one before it. */
    method FindMatch(payload: Payload, now: nat) returns (last: Entry?, pos: Entry?, ghost i: nat)
      requires Valid()
      ensures FirstMatch(Items(), payload, now) == if pos == null then None else Some(i)
      ensures pos != null ==> i < |spine| && pos == spine[i] && last == if i == 0 then null else spine[i - 1]
      ensures pos == null <==> FirstMatch(Items(), payload, now).None?
    {
      i, pos, last := 0, mFirstEntry, null;
      while pos != null
        invariant i <= |spine| && pos == At(spine, i)
        invariant last == if i == 0 then null else spine[i - 1]
        invariant forall j :: 0 <= j < i ==> Items()[j].tick < now && Items()[j].payload != payload
        decreases |spine| - i
      {
        if pos.mArrivalTick >= now {
          NoMatch(Items(), payload, now, i);
          pos := null;
          return;
        }
        if pos.mPayload == payload {
          MatchIsUnique(Items(), payload, now, i);
          return;
        }
        last := pos;
        pos := pos.mNext;
        i := i + 1;
      }
      NoMatch(Items(), payload, now, i);
    }

    /** Iterating from begin to end shows exactly what is visible, in order. */
    method Iterate(now: nat) returns (payloads: seq<Payload>)
      requires Valid()
      ensures |payloads| == VisibleCount(Items(), now)
      ensures forall i :: 0 <= i < |payloads| ==> payloads[i] == Items()[i].payload
    {
      payloads := [];
      var pos := Visible(mFirstEntry, now);
      while pos != null
        invariant |payloads| <= |spine|
        invariant pos == if |payloads| < |spine| && Items()[|payloads|].tick < now then spine[|payloads|] else null
        invariant forall i :: 0 <= i < |payloads| ==> payloads[i] == Items()[i].payload && Items()[i].tick < now
        decreases |spine| - |payloads|
      {
        payloads := payloads + [pos.mPayload];
        pos := Visible(pos.mNext, now);
      }
    }
  }

  /** The entry, unless it is not visible yet. */
  function Visible(pos: Entry?, now: nat): Entry?
    reads pos
  {
    if pos != null && pos.mArrivalTick >= now then null else pos
  }

  /** Any number of containers over one free list. */
  class Queues {
    const pool: FreeList
    var containers: seq<Container>
    /** Every entry there is. */
    ghost var entries: set<Entry>

    constructor ()
      ensures Valid() && containers == [] && entries == {} && fresh(pool)
    {
      pool := new FreeList();
      containers, entries := [], {};
    }

    ghost predicate Valid()
      reads this, pool, containers, entries
    {
      ValidWith(entries)
    }

    ghost predicate ValidWith(all: set<Entry>)
      reads this`containers, pool, containers, all
    {
      && Known(all)
      && pool.Valid()
      && (forall i :: 0 <= i < |containers| ==> containers[i].pool == pool && containers[i].Valid())
      && Disjoint(all)
    }

    ghost predicate Known(all: set<Entry>)
      reads this`containers, pool, containers
    {
      && (forall e :: e in pool.spine ==> e in all)
      && (forall i, e :: 0 <= i < |containers| && e in containers[i].spine ==> e in all)
    }

    /** No entry is in two lists, and none is lost: each is in one container or free. */
    ghost predicate Disjoint(all: set<Entry>)
      reads this`containers, pool, containers
    {
      && (forall i, j :: 0 <= i < j < |containers| ==>
            containers[i] != containers[j] && Apart(containers[i].spine, containers[j].spine))
      && (forall i :: 0 <= i < |containers| ==> Apart(containers[i].spine, pool.spine))
      && (forall e :: e in all ==> Somewhere(e))
    }

    ghost predicate Somewhere(e: Entry)
      reads this`containers, pool, containers
    {
      e in pool.spine || exists i :: 0 <= i < |containers| && e in containers[i].spine
    }

    /** Container k took entry e from the free list or allocated it, or gave some entry back: the containers beside it
        are as they were. */
    twostate lemma Beside(k: nat)
      requires old(Valid()) && k < |containers| && containers == old(containers) && pool.Valid()
      requires forall x :: x in old(entries) && x !in old(containers[k].spine) && x !in old(pool.spine) ==> unchanged(x)
      requires forall i :: 0 <= i < |containers| && i != k ==> unchanged(containers[i])
      requires forall x :: x in containers[k].spine ==>
                             x in old(containers[k].spine) || x in old(pool.spine) || x !in old(entries)
      requires forall x :: x in pool.spine ==> x in old(containers[k].spine) || x in old(pool.spine)
      ensures forall i :: 0 <= i < |containers| && i != k ==>
                            && containers[i].Valid() && containers[i].Items() == old(containers[i].Items())
                            && Apart(containers[i].spine, containers[k].spine)
                            && Apart(containers[k].spine, containers[i].spine)
    {
      forall i | 0 <= i < |containers| && i != k
        ensures containers[i].Valid()
        ensures containers[i].Items() == old(containers[i].Items())
        ensures Apart(containers[i].spine, containers[k].spine)
        ensures Apart(containers[k].spine, containers[i].spine)
      {
        var s := containers[i].spine;
        forall j {:trigger s[j].mNext} {:trigger s[j].mPayload} | 0 <= j < |s| ensures unchanged(s[j]) {
          assert s[j] in s;
          if i < k {
            assert Apart(s, old(containers[k].spine));
          } else {
            assert Apart(old(containers[k].spine), s);
          }
        }
        assert ItemsOf(s) == old(ItemsOf(s));
      }
    }

    /** Then all lists together are in order again. */
    twostate lemma Settled(k: nat, new all: set<Entry>)
      requires old(Valid()) && k < |containers| && containers == old(containers) && containers[k].Valid()
      requires containers[k].pool == pool
      requires forall x :: x in old(entries) && x !in old(containers[k].spine) && x !in old(pool.spine) ==> unchanged(x)
      requires forall i :: 0 <= i < |containers| && i != k ==> unchanged(containers[i])
      requires forall x :: x in containers[k].spine ==>
                             x in old(containers[k].spine) || x in old(pool.spine) || x !in old(entries)
      requires forall x :: x in pool.spine ==> x in old(containers[k].spine) || x in old(pool.spine)
      requires forall x :: x in old(containers[k].spine) || x in old(pool.spine) ==>
                             x in containers[k].spine || x in pool.spine
      requires forall x :: x in all <==> x in old(entries) || x in containers[k].spine
      ensures ValidWith(all)
      ensures forall i :: 0 <= i < |containers| && i != k ==> containers[i].Items() == old(containers[i].Items())
    {
      Beside(k);
      forall e | e in all ensures Somewhere(e) {
        if e !in containers[k].spine {
          assert old(Somewhere(e));
        }
      }
      forall i | 0 <= i < |containers| ensures Apart(containers[i].spine, pool.spine) {
        if i != k {
          assert containers[i].Valid();
        }
      }
    }

    method AddContainer()
      requires Valid()
      modifies this`containers
      ensures Valid() && |containers| == |old(containers)| + 1 && containers[..|old(containers)|] == old(containers)
      ensures fresh(containers[|old(containers)|]) && containers[|old(containers)|].Items() == []
      ensures forall i :: 0 <= i < |old(containers)| ==> containers[i].Items() == old(containers[i].Items())
    {
      var c := new Container(pool);
      assert Valid();
      containers := containers + [c];
      Extended(c);
    }

    /** One more empty list changes nothing for the others. */
    twostate lemma Extended(new c: Container)
      requires old(Valid()) && fresh(c) && c.pool == pool && c.Valid() && c.spine == []
      requires containers == old(containers) + [c] && pool.Valid() && unchanged(pool) && unchanged(this`entries)
      requires forall i :: 0 <= i < |old(containers)| ==> unchanged(containers[i]) && containers[i].Valid()
      ensures Valid()
    {
      var n := |old(containers)|;
      forall i | 0 <= i < |containers| ensures containers[i].pool == pool && containers[i].Valid() {
      }
      forall e | e in entries ensures Somewhere(e) {
        assert old(Somewhere(e));
        if e !in pool.spine {
          var i :| 0 <= i < n && e in old(containers[i].spine);
          assert e in containers[i].spine;
        }
      }
    }

    /** The arrival is in; `all` is every entry there is then. */
    method Arrive(k: nat, payload: Payload, arrivalTick: nat) returns (atFront: bool, ghost all: set<Entry>)
      requires Valid() && k < |containers|
      modifies containers[k], pool, entries
      ensures ValidWith(all) && entries <= all && fresh(all - entries)
      ensures containers[k].Items() == Insert(old(containers[k].Items()), Item(payload, arrivalTick))
      ensures atFront == (Position(old(containers[k].Items()), arrivalTick) == 0)
      ensures forall i :: 0 <= i < |containers| && i != k ==> containers[i].Items() == old(containers[i].Items())
    {
      ghost var e;
      atFront, e := containers[k].NotifyAt(payload, arrivalTick);
      all := entries + {e};
      Settled(k, all);
    }

    method NotifyAt(k: nat, payload: Payload, arrivalTick: nat) returns (atFront: bool)
      requires Valid() && k < |containers|
      modifies this`entries, containers[k], pool, entries
      ensures Valid() && containers == old(containers) && old(entries) <= entries && fresh(entries - old(entries))
      ensures containers[k].Items() == Insert(old(containers[k].Items()), Item(payload, arrivalTick))
      ensures atFront == (Position(old(containers[k].Items()), arrivalTick) == 0)
      ensures forall i :: 0 <= i < |containers| && i != k ==> containers[i].Items() == old(containers[i].Items())
    {
      ghost var all;
      atFront, all := Arrive(k, payload, arrivalTick);
      entries := all;
    }

    method GetNext(k: nat, now: nat) returns (payload: Option<Payload>)
      requires Valid() && k < |containers|
      modifies containers[k], pool, entries
      ensures Valid() && containers == old(containers)
      ensures var items := old(containers[k].Items());
              if VisibleCount(items, now) == 0 then payload == None && containers[k].Items() == items
              else payload == Some(items[0].payload) && containers[k].Items() == items[1..]
      ensures forall i :: 0 <= i < |containers| && i != k ==> containers[i].Items() == old(containers[i].Items())
    {
      payload := containers[k].GetNext(now);
      Settled(k, entries);
    }

    method Remove(k: nat, payload: Payload, now: nat) returns (ok: bool)
      requires Valid() && k < |containers|
      modifies containers[k], pool, entries
      ensures Valid() && containers == old(containers)
      ensures var found := FirstMatch(old(containers[k].Items()), payload, now);
              ok == found.Some? &&
              containers[k].Items() == if ok then Without(old(containers[k].Items()), found.value)
                                       else old(containers[k].Items())
      ensures forall i :: 0 <= i < |containers| && i != k ==> containers[i].Items() == old(containers[i].Items())
    {
      ok := containers[k].Remove(payload, now);
      Settled(k, entries);
    }
  }
}
