/**
 Entries of the indexed-value registry: a run of indices of one name that stands for a run
 of indices of another.  Removing duplicates and contained entries keeps the meaning.
 */
module IndexedValueEntries {

  const UINT: int := 0x1_0000_0000

  /** An unsigned 32-bit number. */
  type Uint = x: int | 0 <= x < UINT

  /** A name; the order of the numbers is the order of the strings. */
  type Name = nat

  /** Indices start, start + 1, ... stand for indices offset, offset + 1, ... of the name. */
  datatype Entry = Entry(name: Name, start: Uint, size: Uint, offset: Uint)

  predicate Less(a: Entry, b: Entry) {
    if a.name != b.name then a.name < b.name
    else if a.start != b.start then a.start < b.start
    else if a.size != b.size then a.size < b.size
    else a.offset < b.offset
  }

  /** Index i stands for index j of the name. */
  predicate Means(e: Entry, i: nat, name: Name, j: nat) {
    e.name == name && e.start <= i < e.start + e.size && j == e.offset + (i - e.start)
  }

  ghost predicate AnyMeans(entries: seq<Entry>, i: nat, name: Name, j: nat) {
    exists e :: e in entries && Means(e, i, name, j)
  }

  /** The entry and its runs are 32-bit numbers. */
  predicate NoWrap(e: Entry) {
    e.start + e.size < UINT && e.offset + e.size < UINT
  }

  /** The test for containment, in unsigned 32-bit arithmetic. */
  predicate FitsIn(l: Entry, r: Entry) {
    && l.offset >= r.offset
    && (l.offset + l.size) % UINT <= (r.offset + r.size) % UINT
    && (l.offset - r.offset) % UINT == (l.start - r.start) % UINT
  }

  /** Without wrap-around the test means containment. */
  lemma {:induction false} FittingIsContained(l: Entry, r: Entry)
    requires NoWrap(l) && NoWrap(r) && l.name == r.name
    ensures FitsIn(l, r) ==> forall i: nat, j: nat :: Means(l, i, l.name, j) ==> Means(r, i, r.name, j)
    ensures 0 < l.size && (forall i: nat, j: nat :: Means(l, i, l.name, j) ==> Means(r, i, r.name, j)) ==> FitsIn(l, r)
  {
    assert (l.offset + l.size) % UINT == l.offset + l.size && (r.offset + r.size) % UINT == r.offset + r.size;
    if l.start >= r.start {
      assert (l.start - r.start) % UINT == l.start - r.start;
    } else {
      assert (l.start - r.start) % UINT == l.start - r.start + UINT;
    }
    if l.offset >= r.offset {
      assert (l.offset - r.offset) % UINT == l.offset - r.offset;
    }
    if 0 < l.size && (forall i: nat, j: nat :: Means(l, i, l.name, j) ==> Means(r, i, r.name, j)) {
      assert Means(l, l.start, l.name, l.offset);
      assert Means(l, l.start + (l.size - 1), l.name, l.offset + (l.size - 1));
    }
  }

  /** Nothing else of this name contains the entry. */
  ghost predicate Maximal(entries: seq<Entry>, e: Entry) {
    forall f :: f in entries && f != e && f.name == e.name ==> !FitsIn(e, f)
  }

  /** What removing duplicates and contained entries leaves. */
  ghost predicate IsFiltered(entries: seq<Entry>, r: seq<Entry>) {
    NoRepeats(r) && forall e :: e in r <==> e in entries && Maximal(entries, e)
  }

  ghost predicate NoRepeats(s: seq<Entry>) {
    forall i, j :: 0 <= i < j < |s| ==> s[i] != s[j]
  }

  /** What fits in something that fits in a third fits in the third; of two entries only one fits in the other. */
  lemma {:induction false} FittingIsAnOrder(a: Entry, b: Entry, c: Entry)
    requires a.name == b.name && FitsIn(a, b)
    ensures FitsIn(b, c) ==> FitsIn(a, c)
    ensures FitsIn(b, a) ==> a == b
  {
    if FitsIn(b, c) {
      SumOfDifferences(a.offset, b.offset, c.offset, a.start, b.start, c.start);
    }
    if FitsIn(b, a) {
      SameSum(a.offset, a.size, b.size);
      assert a.offset == b.offset && a.start == b.start;
    }
  }

  lemma CongruentDifferences(d: int, e: int)
    requires 0 - UINT < d < UINT && 0 - UINT < e < UINT && d % UINT == e % UINT
    ensures d - e == 0 || d - e == UINT || d - e == 0 - UINT
  {
  }

  lemma Congruent(d: int, e: int)
    requires d - e == 0 || d - e == UINT || d - e == 0 - UINT
    ensures d % UINT == e % UINT
  {
  }

  lemma SumOfDifferences(a: Uint, b: Uint, c: Uint, x: Uint, y: Uint, z: Uint)
    requires (a - b) % UINT == (x - y) % UINT && (b - c) % UINT == (y - z) % UINT
    ensures (a - c) % UINT == (x - z) % UINT
  {
    CongruentDifferences(a - b, x - y);
    CongruentDifferences(b - c, y - z);
    var k := (a - b) - (x - y);
    Congruent(a - c, a - c - k);
    Congruent(a - c - k, x - z);
  }

  lemma SameSum(a: Uint, x: Uint, y: Uint)
    requires (a + x) % UINT == (a + y) % UINT
    ensures x == y
  {
  }

  ghost function Around(entries: seq<Entry>, e: Entry): set<Entry> {
    set f | f in entries && f.name == e.name && FitsIn(e, f)
  }

  /** Every entry fits in one that is left, unless it is left itself. */
  lemma {:induction false} SurvivorAround(entries: seq<Entry>, e: Entry) returns (m: Entry)
    requires e in entries
    ensures m in entries && Maximal(entries, m) && m.name == e.name && (m == e || FitsIn(e, m))
    decreases |Around(entries, e)|
  {
    if Maximal(entries, e) {
      m := e;
    } else {
      var f :| f in entries && f != e && f.name == e.name && FitsIn(e, f);
      forall g | g in Around(entries, f) ensures g in Around(entries, e) && g != e {
        FittingIsAnOrder(e, f, g);
        FittingIsAnOrder(f, g, g);
      }
      assert e in Around(entries, e);
      assert Around(entries, f) < Around(entries, e);
      SmallerSet(Around(entries, f), Around(entries, e));
      m := SurvivorAround(entries, f);
      FittingIsAnOrder(e, f, m);
    }
  }

  lemma SmallerSet(a: set<Entry>, b: set<Entry>)
    requires a < b
    ensures |a| < |b|
  {
    assert b == a + (b - a);
    var x :| x in b - a;
  }

  /** Filtering keeps the meaning, and leaves no entry that is contained in another. */
  lemma {:induction false} FilteringKeepsTheMeaning(entries: seq<Entry>, r: seq<Entry>)
    requires IsFiltered(entries, r) && forall f :: f in entries ==> NoWrap(f)
    ensures forall i: nat, name, j: nat :: AnyMeans(r, i, name, j) <==> AnyMeans(entries, i, name, j)
    ensures forall e, f :: e in r && f in r && e != f && e.name == f.name ==> !FitsIn(e, f)
  {
    forall i: nat, name, j: nat ensures AnyMeans(r, i, name, j) <==> AnyMeans(entries, i, name, j) {
      if AnyMeans(entries, i, name, j) {
        var e :| e in entries && Means(e, i, name, j);
        var m := SurvivorAround(entries, e);
        FittingIsContained(e, m);
        assert m in r && Means(m, i, name, j);
      }
      if AnyMeans(r, i, name, j) {
        var e :| e in r && Means(e, i, name, j);
        assert e in entries;
      }
    }
  }

  // ----- sorting -----

  ghost predicate Increasing(s: seq<Entry>) {
    forall i, j :: 0 <= i < j < |s| ==> Less(s[i], s[j])
  }

  /** Sorted, with equal entries only once. */
  method SortUnique(entries: seq<Entry>) returns (r: seq<Entry>)
    ensures Increasing(r) && forall e :: e in r <==> e in entries
  {
    r := [];
    for n := 0 to |entries|
      invariant Increasing(r) && forall e :: e in r <==> e in entries[..n]
    {
      var e := entries[n];
      assert entries[..n + 1] == entries[..n] + [e];
      var k := 0;
      while k < |r| && Less(r[k], e)
        invariant k <= |r| && forall i :: 0 <= i < k ==> Less(r[i], e)
      {
        k := k + 1;
      }
      if k == |r| || r[k] != e {
        PutIn(r, k, e);
        r := r[..k] + [e] + r[k..];
      }
    }
    assert entries[..|entries|] == entries;
  }

  lemma PutIn(r: seq<Entry>, k: nat, e: Entry)
    requires Increasing(r) && k <= |r| && (forall i :: 0 <= i < k ==> Less(r[i], e))
    requires k < |r| ==> r[k] != e && !Less(r[k], e)
    ensures Increasing(r[..k] + [e] + r[k..])
    ensures forall x :: x in r[..k] + [e] + r[k..] <==> x in r || x == e
  {
  }

  // ----- filtering -----

  /** Sorts, and then goes through the names from the last to the first. */
  method FilterDuplicatesAndContainedEntries(entries: seq<Entry>) returns (result: seq<Entry>)
    ensures IsFiltered(entries, result)
  {
    var all := SortUnique(entries);
    result := [];
    var n: nat := |all|;
    while n > 0
      invariant n <= |all| && Increasing(all)
      invariant 0 < n < |all| ==> all[n - 1].name < all[n].name
      invariant NoRepeats(result) && forall e :: e in result <==> e in all[n..] && Maximal(all, e)
    {
      var b := GroupStart(all, n);
      var kept := FilterGroup(all, b, n);
      assert all[b..] == all[b..n] + all[n..];
      Apart(all, b, n);
      JoinWithoutRepeats(result, kept);
      result := result + kept;
      n := b;
    }
    assert all[0..] == all;
  }

  lemma JoinWithoutRepeats(a: seq<Entry>, b: seq<Entry>)
    requires NoRepeats(a) && NoRepeats(b) && forall e :: e in b ==> e !in a
    ensures NoRepeats(a + b)
  {
    forall i, j | 0 <= i < j < |a + b| ensures (a + b)[i] != (a + b)[j] {
      if i < |a| <= j {
        assert (a + b)[i] in a && (a + b)[j] in b;
      }
    }
  }

  lemma Apart(all: seq<Entry>, b: nat, n: nat)
    requires Increasing(all) && b <= n <= |all|
    ensures forall e :: e in all[b..n] ==> e !in all[n..]
    ensures n < |all| ==> all[n] !in all[b..n]
  {
  }

  /** Where the entries with the last name of all[..n] begin. */
  method GroupStart(all: seq<Entry>, n: nat) returns (b: nat)
    requires Increasing(all) && 0 < n <= |all|
    ensures b < n && (0 < b ==> all[b - 1].name < all[b].name)
    ensures forall i :: b <= i < n ==> all[i].name == all[n - 1].name
  {
    b := n - 1;
    while 0 < b && all[b - 1].name >= all[n - 1].name
      invariant b < n && forall i :: b <= i < n ==> all[i].name == all[n - 1].name
    {
      assert Less(all[b - 1], all[n - 1]);
      b := b - 1;
    }
  }

  /** The entries of one name that fit in no other. */
  method FilterGroup(all: seq<Entry>, b: nat, n: nat) returns (kept: seq<Entry>)
    requires Increasing(all) && b < n <= |all| && (0 < b ==> all[b - 1].name < all[b].name)
    requires forall i :: b <= i < n ==> all[i].name == all[n - 1].name
    requires n < |all| ==> all[n - 1].name < all[n].name
    ensures NoRepeats(kept) && forall e :: e in kept <==> e in all[b..n] && Maximal(all, e)
  {
    kept := [];
    for i := b to n
      invariant NoRepeats(kept) && forall e :: e in kept <==> e in all[b..i] && Maximal(all, e)
    {
      Apart(all, b, i);
      var fitsInOther := FitsInOther(all, b, n, i);
      assert all[b..i + 1] == all[b..i] + [all[i]];
      if !fitsInOther {
        kept := kept + [all[i]];
      }
    }
  }

  method FitsInOther(all: seq<Entry>, b: nat, n: nat, i: nat) returns (fitsInOther: bool)
    requires Increasing(all) && b <= i < n <= |all| && (0 < b ==> all[b - 1].name < all[b].name)
    requires forall k :: b <= k < n ==> all[k].name == all[n - 1].name
    requires n < |all| ==> all[n - 1].name < all[n].name
    ensures fitsInOther <==> !Maximal(all, all[i])
  {
    fitsInOther := false;
    for j := b to n
      invariant !fitsInOther
      invariant forall k :: b <= k < j && k != i ==> !FitsIn(all[i], all[k])
    {
      if i != j {
        fitsInOther := FitsIn(all[i], all[j]);
        if fitsInOther {
          assert Less(all[if i < j then i else j], all[if i < j then j else i]);
          return;
        }
      }
    }
    OtherNames(all, b, n);
  }

  /** Outside its group no entry has the name. */
  lemma {:induction false} OtherNames(all: seq<Entry>, b: nat, n: nat)
    requires Increasing(all) && b < n <= |all| && (0 < b ==> all[b - 1].name < all[b].name)
    requires n < |all| ==> all[n - 1].name < all[n].name
    requires forall i :: b <= i < n ==> all[i].name == all[n - 1].name
    ensures forall k :: 0 <= k < |all| && all[k].name == all[n - 1].name ==> b <= k < n
  {
  }

  // ----- composing -----

  /** The target run of the first entry has an index of the second, in unsigned 32-bit arithmetic. */
  predicate Overlaps(entry: Entry, e: Entry) {
    e.start < (entry.size + entry.offset) % UINT && (entry.offset + 1) % UINT <= (e.size + e.start) % UINT
  }

  /** An entry for a name, and one for the target of that entry, make one for the name and the last target. */
  function Composed(entry: Entry, e: Entry): Entry {
    var correction := Correction(entry, e);
    var room := (e.size + e.start - entry.offset - correction) % UINT;
    Entry(e.name,
          (entry.start + correction) % UINT,
          if room < entry.size then room else entry.size,
          (e.offset + entry.offset - e.start + correction) % UINT)
  }

  function Correction(entry: Entry, e: Entry): nat {
    if e.start > (e.offset + entry.offset) % UINT then (e.start - e.offset - entry.offset) % UINT else 0
  }

  /** No sum of the composition wraps around. */
  predicate ComposesWithoutWrap(entry: Entry, e: Entry) {
    NoWrap(entry) && NoWrap(e) && e.offset + entry.offset + 1 < UINT && e.start + e.size + entry.start < UINT
  }

  lemma Small(x: int)
    requires 0 <= x < UINT
    ensures x % UINT == x
  {
  }

  /** The correction without wrap-around. */
  function CorrectionInNumbers(entry: Entry, e: Entry): nat {
    if e.start > e.offset + entry.offset then e.start - e.offset - entry.offset else 0
  }

  lemma {:induction false} OverlapsInNumbers(entry: Entry, e: Entry)
    requires ComposesWithoutWrap(entry, e)
    ensures Overlaps(entry, e) <==> e.start < entry.size + entry.offset && entry.offset < e.size + e.start
    ensures Correction(entry, e) == CorrectionInNumbers(entry, e)
  {
  }

  lemma {:induction false} ComposedInNumbers(entry: Entry, e: Entry)
    requires Overlaps(entry, e) && ComposesWithoutWrap(entry, e)
    ensures var c := CorrectionInNumbers(entry, e);
            var room := e.size + e.start - entry.offset - c;
            && 0 <= room
            && Composed(entry, e) == Entry(e.name, entry.start + c, if room < entry.size then room else entry.size,
                                           e.offset + entry.offset - e.start + c)
  {
    OverlapsInNumbers(entry, e);
    var c := CorrectionInNumbers(entry, e);
    Small(e.size + e.start - entry.offset - c);
    Small(entry.start + c);
    Small(e.offset + entry.offset - e.start + c);
  }

  /** Index i stands for an index that in turn stands for index j of the name. */
  predicate MeansThrough(entry: Entry, e: Entry, i: nat, j: nat) {
    entry.start <= i < entry.start + entry.size && Means(e, entry.offset + (i - entry.start), e.name, j)
  }

  ghost predicate ComposesExactly(entry: Entry, e: Entry) {
    forall i: nat, j: nat :: Means(Composed(entry, e), i, e.name, j) <==> MeansThrough(entry, e, i, j)
  }

  /** The second entry begins at or before the first, or else it has offset 0 and does not end after it. */
  predicate Anchored(entry: Entry, e: Entry) {
    e.start <= entry.offset || (e.offset == 0 && e.start + e.size <= entry.offset + entry.size)
  }

  /** The composed entry means what the two mean one after the other exactly in that case. */
  lemma {:induction false} ComposesExactlyWhenAnchored(entry: Entry, e: Entry)
    requires Overlaps(entry, e) && ComposesWithoutWrap(entry, e)
    ensures ComposesExactly(entry, e) <==> Anchored(entry, e)
  {
    OverlapsInNumbers(entry, e);
    ComposedInNumbers(entry, e);
    var c := Composed(entry, e);
    if !Anchored(entry, e) {
      if e.offset > 0 {
        assert Means(c, c.start, e.name, c.offset) && !MeansThrough(entry, e, c.start, c.offset);
      } else {
        var last := c.size - 1;
        assert Means(c, c.start + last, e.name, c.offset + last);
        assert !MeansThrough(entry, e, c.start + last, c.offset + last);
      }
    }
  }

  /** Ten indices from 0 stand for those of one name from 0, of which three from 5 stand for those of another from 7.
      Composed, 0 stands for 2 of that name, which nothing stands for. */
  lemma {:induction false} UnanchoredExample()
    ensures var entry, e := Entry(1, 0, 10, 0), Entry(2, 5, 3, 7);
            && Overlaps(entry, e) && ComposesWithoutWrap(entry, e) && !Anchored(entry, e)
            && Composed(entry, e) == Entry(2, 0, 8, 2) && !ComposesExactly(entry, e)
            && forall i: nat :: !MeansThrough(entry, e, i, 2)
  {
    var entry, e := Entry(1, 0, 10, 0), Entry(2, 5, 3, 7);
    ComposesExactlyWhenAnchored(entry, e);
    ComposedInNumbers(entry, e);
  }
}
