/**
 The map of memory regions that direct memory access is allowed to: a list of entries
 that tiles the whole 64-bit index space, alternately allowed and denied.

 Such a list is determined by the set of allowed indices (SameMapSameList).  Disable
 splits, merges and erases entries in place; it is proved to keep the form and to take
 exactly the given indices out of the allowed set.  So the list depends only on the
 union of the ranges disabled since the last clear (UnionDetermines).
 */
module MemoryDmi {

  /** One past the largest 64-bit index. */
  const LIMIT: nat := 0x1_0000_0000_0000_0000

  datatype Entry = Entry(startIndex: nat, endIndex: nat, dmiAllowed: bool)
  {
    predicate Covers(i: int) {
      startIndex <= i <= endIndex
    }
  }

  // ----- lists that tile a range -----

  /** The entries follow each other without a gap from s up to, not including, e. */
  ghost predicate Tiles(l: seq<Entry>, s: nat, e: nat) {
    if l == [] then s == e
    else l[0].startIndex == s <= l[0].endIndex < e && Tiles(l[1..], l[0].endIndex + 1, e)
  }

  ghost predicate Alternates(l: seq<Entry>) {
    forall i :: 0 <= i < |l| - 1 ==> l[i].dmiAllowed != l[i + 1].dmiAllowed
  }

  ghost predicate Canonical(l: seq<Entry>) {
    Tiles(l, 0, LIMIT) && Alternates(l)
  }

  ghost predicate AllowedAt(l: seq<Entry>, i: int) {
    exists x | x in l :: x.Covers(i) && x.dmiAllowed
  }

  lemma {:induction false} TilesConcat(a: seq<Entry>, b: seq<Entry>, s: nat, m: nat, e: nat)
    requires Tiles(a, s, m) && Tiles(b, m, e) && m <= e
    ensures Tiles(a + b, s, e)
  {
    if a == [] {
      assert a + b == b;
    } else {
      TilesConcat(a[1..], b, a[0].endIndex + 1, m, e);
      assert (a + b)[1..] == a[1..] + b;
    }
  }

  lemma {:induction false} TilesSplit(l: seq<Entry>, k: nat, s: nat, e: nat)
    requires Tiles(l, s, e) && k < |l|
    ensures Tiles(l[..k], s, l[k].startIndex) && Tiles(l[k..], l[k].startIndex, e)
    ensures s <= l[k].startIndex <= l[k].endIndex < e
    ensures Tiles(l[k + 1..], l[k].endIndex + 1, e)
    decreases k
  {
    if k > 0 {
      TilesSplit(l[1..], k - 1, l[0].endIndex + 1, e);
      assert l[..k][1..] == l[1..][..k - 1];
      assert l[k..] == l[1..][k - 1..] && l[k + 1..] == l[1..][k..];
    }
  }

  lemma {:induction false} TilesMember(l: seq<Entry>, s: nat, e: nat, x: Entry)
    requires Tiles(l, s, e) && x in l
    ensures s <= x.startIndex <= x.endIndex < e
  {
    if x != l[0] {
      TilesMember(l[1..], l[0].endIndex + 1, e, x);
    }
  }

  lemma NotAllowedOutside(l: seq<Entry>, s: nat, e: nat, i: int)
    requires Tiles(l, s, e) && !(s <= i < e)
    ensures !AllowedAt(l, i)
  {
  }

  lemma AllowedConcat(a: seq<Entry>, b: seq<Entry>, i: int)
    ensures AllowedAt(a + b, i) <==> AllowedAt(a, i) || AllowedAt(b, i)
  {
  }

  lemma AllowedSingle(x: Entry, i: int)
    ensures AllowedAt([x], i) <==> x.Covers(i) && x.dmiAllowed
  {
  }

  /** Before, inside and after entry k. */
  lemma AllowedParts(l: seq<Entry>, k: nat, s: nat, e: nat, i: int)
    requires Tiles(l, s, e) && k < |l|
    ensures i < l[k].startIndex ==> AllowedAt(l, i) == AllowedAt(l[..k], i)
    ensures l[k].Covers(i) ==> AllowedAt(l, i) == l[k].dmiAllowed
    ensures l[k].endIndex < i ==> AllowedAt(l, i) == AllowedAt(l[k + 1..], i)
    ensures l[k].startIndex <= i ==> AllowedAt(l, i) == AllowedAt(l[k..], i)
  {
    TilesSplit(l, k, s, e);
    assert l == l[..k] + ([l[k]] + l[k + 1..]) && l[k..] == [l[k]] + l[k + 1..];
    AllowedConcat(l[..k], [l[k]] + l[k + 1..], i);
    AllowedConcat([l[k]], l[k + 1..], i);
    AllowedSingle(l[k], i);
    if !(s <= i < l[k].startIndex) {
      NotAllowedOutside(l[..k], s, l[k].startIndex, i);
    }
    if i <= l[k].endIndex {
      NotAllowedOutside(l[k + 1..], l[k].endIndex + 1, e, i);
    }
  }

  // ----- the list is determined by the map -----

  ghost predicate SameMap(l: seq<Entry>, m: seq<Entry>) {
    forall i :: 0 <= i < LIMIT ==> AllowedAt(l, i) == AllowedAt(m, i)
  }

  lemma {:induction false} SameTail(l: seq<Entry>, m: seq<Entry>, s: nat, e: nat)
    requires Tiles(l, s, e) && Tiles(m, s, e) && Alternates(l) && Alternates(m)
    requires forall i :: s <= i < e ==> AllowedAt(l, i) == AllowedAt(m, i)
    ensures l == m
    decreases |l|
  {
    if l == [] || m == [] {
    } else {
      AllowedParts(l, 0, s, e, s);
      AllowedParts(m, 0, s, e, s);
      assert l[0].dmiAllowed == m[0].dmiAllowed;
      SameEnd(l, m, s, e);
      SameEnd(m, l, s, e);
      var s' := l[0].endIndex + 1;
      forall i | s' <= i < e ensures AllowedAt(l[1..], i) == AllowedAt(m[1..], i) {
        AllowedParts(l, 0, s, e, i);
        AllowedParts(m, 0, s, e, i);
      }
      SameTail(l[1..], m[1..], s', e);
      assert l == [l[0]] + l[1..] && m == [m[0]] + m[1..];
    }
  }

  /** The first entry of one list does not end before that of the other. */
  lemma SameEnd(l: seq<Entry>, m: seq<Entry>, s: nat, e: nat)
    requires Tiles(l, s, e) && Tiles(m, s, e) && Alternates(l) && l != [] && m != []
    requires forall i :: s <= i < e ==> AllowedAt(l, i) == AllowedAt(m, i)
    requires l[0].dmiAllowed == m[0].dmiAllowed
    ensures l[0].endIndex >= m[0].endIndex
  {
    var i := l[0].endIndex + 1;
    if i <= m[0].endIndex {
      AllowedParts(m, 0, s, e, i);
      TilesSplit(l, 0, s, e);
      assert l[1..] != [];
      AllowedParts(l, 1, s, e, i);
    }
  }

  /** Two canonical lists that allow the same indices are the same list. */
  lemma SameMapSameList(l: seq<Entry>, m: seq<Entry>)
    requires Canonical(l) && Canonical(m) && SameMap(l, m)
    ensures l == m
  {
    SameTail(l, m, 0, LIMIT);
  }

  // ----- the effect of disabling a range -----

  function Initial(size: nat): seq<Entry>
    requires 0 < size < LIMIT
  {
    [Entry(0, size - 1, true), Entry(size, LIMIT - 1, false)]
  }

  /** What clear writes, in unsigned 64-bit arithmetic, is a partition if and only if the memory is not empty. */
  lemma {:induction false} ClearedIsCanonical(size: nat)
    requires size < LIMIT
    ensures Canonical([Entry(0, (size + LIMIT - 1) % LIMIT, true), Entry(size, LIMIT - 1, false)]) <==> 0 < size
  {
    var l := [Entry(0, (size + LIMIT - 1) % LIMIT, true), Entry(size, LIMIT - 1, false)];
    if 0 < size {
      assert l == Initial(size);
      InitialCanonical(size);
    } else {
      assert l[1..] == [l[1]] && !Tiles([l[1]], LIMIT, LIMIT);
    }
  }

  /** l' is l with the indices a to b no longer allowed. */
  ghost predicate Disables(l: seq<Entry>, a: nat, b: nat, l': seq<Entry>) {
    && Canonical(l')
    && forall i :: 0 <= i < LIMIT ==> (AllowedAt(l', i) <==> AllowedAt(l, i) && !(a <= i <= b))
  }

  /** A list `before`, an entry that replaces what lies between, and a list `after`. */
  lemma Assemble(l: seq<Entry>, a: nat, b: nat, before: seq<Entry>, start: nat, end: nat, after: seq<Entry>)
    requires start <= a <= b <= end < LIMIT
    requires Tiles(before, 0, start) && Alternates(before) && (before != [] ==> before[|before| - 1].dmiAllowed)
    requires Tiles(after, end + 1, LIMIT) && Alternates(after) && (after != [] ==> after[0].dmiAllowed)
    requires forall i :: 0 <= i < start ==> AllowedAt(before, i) == AllowedAt(l, i)
    requires forall i :: end < i < LIMIT ==> AllowedAt(after, i) == AllowedAt(l, i)
    requires forall i :: start <= i < a || b < i <= end ==> !AllowedAt(l, i)
    ensures Disables(l, a, b, before + [Entry(start, end, false)] + after)
  {
    var mid := Entry(start, end, false);
    var l' := before + [mid] + after;
    assert Tiles([mid], start, end + 1) by {
      assert [mid][1..] == [];
    }
    TilesConcat(before, [mid], 0, start, end + 1);
    TilesConcat(before + [mid], after, 0, end + 1, LIMIT);
    forall i | 0 <= i < LIMIT ensures AllowedAt(l', i) <==> AllowedAt(l, i) && !(a <= i <= b) {
      AllowedConcat(before + [mid], after, i);
      AllowedConcat(before, [mid], i);
      AllowedSingle(mid, i);
      if !(0 <= i < start) {
        NotAllowedOutside(before, 0, start, i);
      }
      if !(end < i) {
        NotAllowedOutside(after, end + 1, LIMIT, i);
      }
    }
  }

  /** Everything left of the new entry is in place: the first `it` entries of the list. */
  ghost predicate LeftDone(l: seq<Entry>, a: nat, before: seq<Entry>, start: nat) {
    && start <= a < LIMIT
    && Tiles(before, 0, start) && Alternates(before) && (before != [] ==> before[|before| - 1].dmiAllowed)
    && (forall i :: 0 <= i < start ==> AllowedAt(before, i) == AllowedAt(l, i))
    && (forall i :: start <= i < a ==> !AllowedAt(l, i))
  }

  /** The same for everything right of it. */
  ghost predicate RightDone(l: seq<Entry>, b: nat, after: seq<Entry>, end: nat) {
    && b <= end < LIMIT
    && Tiles(after, end + 1, LIMIT) && Alternates(after) && (after != [] ==> after[0].dmiAllowed)
    && (forall i :: end < i < LIMIT ==> AllowedAt(after, i) == AllowedAt(l, i))
    && (forall i :: b < i <= end ==> !AllowedAt(l, i))
  }

  class MemoryDmi {
    const mSize: nat
    var mCleared: bool
    var mDmiData: seq<Entry>

    ghost predicate Valid()
      reads this
    {
      && 0 < mSize < LIMIT
      && Canonical(mDmiData)
      && (mCleared ==> mDmiData == Initial(mSize))
    }

    constructor (size: nat)
      requires 0 < size < LIMIT
      ensures Valid() && mSize == size && mDmiData == Initial(size)
    {
      mSize := size;
      mCleared := false;
      mDmiData := [];
      new;
      ClearEntries();
    }

    /** Brings the list to two entries, re-using what is there. */
    method ClearEntries()
      requires 0 < mSize < LIMIT && !mCleared
      modifies this
      ensures Valid() && mCleared && mDmiData == Initial(mSize)
    {
      mCleared := true;
      if |mDmiData| > 2 {
        mDmiData := mDmiData[..2];
      }
      if mDmiData != [] {
        mDmiData := mDmiData[0 := Entry(0, mSize - 1, true)];
      } else {
        mDmiData := [Entry(0, mSize - 1, true)];
      }
      if |mDmiData| > 1 {
        mDmiData := mDmiData[1 := Entry(mSize, LIMIT - 1, false)];
      } else {
        mDmiData := mDmiData + [Entry(mSize, LIMIT - 1, false)];
      }
      InitialCanonical(mSize);
    }

    method Clear()
      requires Valid()
      modifies this
      ensures Valid() && mDmiData == Initial(mSize)
    {
      if mCleared {
        return;
      }
      ClearEntries();
    }

    method DisableAll()
      requires Valid()
      modifies this
      ensures Valid() && mDmiData == [Entry(0, LIMIT - 1, false)]
      ensures Disables(old(mDmiData), 0, LIMIT - 1, mDmiData)
    {
      mCleared := false;
      mDmiData := [Entry(0, LIMIT - 1, false)];
      assert mDmiData[1..] == [];
    }

    /** Takes the indices from start to end out of the allowed set.  The entries are changed in place: cut off to the
        left, erased in between, cut off to the right, and merged with denied neighbours. */
    method Disable(start: nat, end: nat)
      requires Valid() && start <= end < LIMIT
      modifies this
      ensures Valid() && Disables(old(mDmiData), start, end, mDmiData)
    {
      ghost var l := mDmiData;
      mCleared := false;
      var it := Locate(start);
      if mDmiData[it].endIndex >= end && !mDmiData[it].dmiAllowed {
        AlreadyDenied(l, it, start, end);
        return;
      }
      ghost var k := it;
      var startIndex;
      it, startIndex := CutLeft(it, start);
      ghost var before := mDmiData[..it];
      ghost var j := EraseBetween(it, end, l, k);
      var endIndex := CutRight(it, end, l, j);
      Assemble(l, start, end, before, startIndex, endIndex, mDmiData[it + 1..]);
      mDmiData := mDmiData[it := Entry(startIndex, endIndex, false)];
      assert mDmiData == before + [Entry(startIndex, endIndex, false)] + mDmiData[it + 1..];
    }

    /** Left of `start`: cuts off an allowed entry, or merges with a denied one.  Returns the position of the entry that
        covers `start` and where the denied entry is to begin. */
    method CutLeft(it: nat, start: nat) returns (it': nat, startIndex: nat)
      requires 0 < mSize < LIMIT && Canonical(mDmiData) && it < |mDmiData| && mDmiData[it].Covers(start)
      modifies this`mDmiData
      ensures it' <= |mDmiData| && mDmiData[it'..] == old(mDmiData[it..])
      ensures LeftDone(old(mDmiData), start, mDmiData[..it'], startIndex)
    {
      it', startIndex := it, start;
      LeftOf(mDmiData, it, start);
      if mDmiData[it].startIndex < start {
        if mDmiData[it].dmiAllowed {
          var left := mDmiData[it].(endIndex := start - 1);
          mDmiData := mDmiData[..it] + [left] + mDmiData[it..];
          it' := it + 1;
          assert mDmiData[..it'] == old(mDmiData)[..it] + [left];
        } else {
          startIndex := mDmiData[it].startIndex;
        }
      } else if it != 0 && !mDmiData[it - 1].dmiAllowed {
        startIndex := mDmiData[it - 1].startIndex;
        mDmiData := mDmiData[..it - 1] + mDmiData[it..];
        it' := it - 1;
        assert mDmiData[..it'] == old(mDmiData)[..it - 1];
      }
    }

    /** Erases the entries from position `it` on that end before `end`. */
    method EraseBetween(it: nat, end: nat, ghost l: seq<Entry>, ghost k: nat) returns (ghost j: nat)
      requires Canonical(l) && k < |l| && l[k].startIndex <= end < LIMIT
      requires it < |mDmiData| && mDmiData[it..] == l[k..]
      modifies this`mDmiData
      ensures k <= j < |l| && l[j].startIndex <= end <= l[j].endIndex
      ensures it < |mDmiData| && mDmiData[..it] == old(mDmiData[..it]) && mDmiData[it..] == l[j..]
    {
      j := k;
      while mDmiData[it].endIndex < end
        invariant k <= j < |l| && l[j].startIndex <= end
        invariant it < |mDmiData| && mDmiData[..it] == old(mDmiData[..it]) && mDmiData[it..] == l[j..]
        decreases |l| - j
      {
        NextStarts(l, j, 0, LIMIT);
        assert mDmiData[it] == l[j..][0];
        mDmiData := mDmiData[..it] + mDmiData[it + 1..];
        j := j + 1;
      }
      assert mDmiData[it] == l[j..][0];
    }

    /** Right of `end`, likewise.  Returns where the denied entry is to end. */
    method CutRight(it: nat, end: nat, ghost l: seq<Entry>, ghost j: nat) returns (endIndex: nat)
      requires Canonical(l) && j < |l| && l[j].startIndex <= end <= l[j].endIndex
      requires it < |mDmiData| && mDmiData[it..] == l[j..]
      modifies this`mDmiData
      ensures it < |mDmiData| && mDmiData[..it] == old(mDmiData[..it])
      ensures RightDone(l, end, mDmiData[it + 1..], endIndex)
    {
      endIndex := end;
      ghost var rest := l[j + 1..];
      assert mDmiData[it] == l[j..][0] && mDmiData[it + 1..] == rest;
      RightOf(l, j, end);
      if mDmiData[it].endIndex > end {
        if mDmiData[it].dmiAllowed {
          var right := mDmiData[it].(startIndex := end + 1);
          mDmiData := mDmiData[..it + 1] + [right] + mDmiData[it + 1..];
          assert mDmiData[it + 1..] == [right] + rest;
        } else {
          endIndex := mDmiData[it].endIndex;
        }
      } else if it + 1 < |mDmiData| && !mDmiData[it + 1].dmiAllowed {
        endIndex := mDmiData[it + 1].endIndex;
        mDmiData := mDmiData[..it + 1] + mDmiData[it + 2..];
        assert mDmiData[it + 1..] == l[j + 2..];
      }
    }

    /** Which entry covers the index: the only one that does. */
    method Find(index: nat) returns (entry: Entry)
      requires Valid() && index < LIMIT
      ensures entry in mDmiData && entry.Covers(index)
      ensures forall x :: x in mDmiData && x.Covers(index) ==> x == entry
      ensures entry.dmiAllowed <==> AllowedAt(mDmiData, index)
    {
      var k := Locate(index);
      entry := mDmiData[k];
      OnlyOneCovers(mDmiData, k, 0, LIMIT, index);
    }

    method Locate(index: nat) returns (k: nat)
      requires Valid() && index < LIMIT
      ensures k < |mDmiData| && mDmiData[k].Covers(index)
      ensures forall j :: 0 <= j < k ==> !mDmiData[j].Covers(index)
    {
      k := 0;
      CoveredBySome(mDmiData, 0, LIMIT, index);
      while !mDmiData[k].Covers(index)
        invariant k < |mDmiData|
        invariant forall j :: 0 <= j < k ==> !mDmiData[j].Covers(index)
        decreases |mDmiData| - k
      {
        k := k + 1;
      }
    }
  }

  lemma AlreadyDenied(l: seq<Entry>, k: nat, a: nat, b: nat)
    requires Canonical(l) && k < |l| && l[k].Covers(a) && l[k].Covers(b) && !l[k].dmiAllowed && a <= b
    ensures Disables(l, a, b, l)
  {
    forall i | a <= i <= b ensures !AllowedAt(l, i) {
      AllowedParts(l, k, 0, LIMIT, i);
    }
  }

  lemma NextStarts(l: seq<Entry>, j: nat, s: nat, e: nat)
    requires Tiles(l, s, e) && j < |l|
    ensures j + 1 < |l| ==> l[j + 1].startIndex == l[j].endIndex + 1
    ensures j + 1 == |l| ==> l[j].endIndex + 1 == e
  {
    TilesSplit(l, j, s, e);
    if j + 1 < |l| {
      assert l[j + 1..][0] == l[j + 1];
    } else {
      assert l[j + 1..] == [];
    }
  }

  /** The three ways to finish the left side. */
  lemma LeftOf(l: seq<Entry>, k: nat, a: nat)
    requires Canonical(l) && k < |l| && l[k].Covers(a)
    ensures l[k].startIndex < a && l[k].dmiAllowed ==> LeftDone(l, a, l[..k] + [l[k].(endIndex := a - 1)], a)
    ensures l[k].startIndex < a && !l[k].dmiAllowed ==> LeftDone(l, a, l[..k], l[k].startIndex)
    ensures l[k].startIndex == a && (k == 0 || l[k - 1].dmiAllowed) ==> LeftDone(l, a, l[..k], a)
    ensures l[k].startIndex == a && 0 < k && !l[k - 1].dmiAllowed ==> LeftDone(l, a, l[..k - 1], l[k - 1].startIndex)
  {
    TilesSplit(l, k, 0, LIMIT);
    forall i | 0 <= i <= l[k].endIndex
      ensures i < l[k].startIndex ==> AllowedAt(l, i) == AllowedAt(l[..k], i)
      ensures l[k].startIndex <= i ==> AllowedAt(l, i) == l[k].dmiAllowed
    {
      AllowedParts(l, k, 0, LIMIT, i);
    }
    if l[k].startIndex < a && l[k].dmiAllowed {
      LeftCut(l, k, a);
    }
    if 0 < k {
      NextStarts(l, k - 1, 0, LIMIT);
      TilesSplit(l, k - 1, 0, LIMIT);
      forall i | 0 <= i <= l[k - 1].endIndex
        ensures i < l[k - 1].startIndex ==> AllowedAt(l, i) == AllowedAt(l[..k - 1], i)
        ensures l[k - 1].startIndex <= i ==> AllowedAt(l, i) == l[k - 1].dmiAllowed
      {
        AllowedParts(l, k - 1, 0, LIMIT, i);
      }
    }
  }

  lemma LeftCut(l: seq<Entry>, k: nat, a: nat)
    requires Canonical(l) && k < |l| && l[k].Covers(a) && l[k].startIndex < a && l[k].dmiAllowed
    ensures LeftDone(l, a, l[..k] + [l[k].(endIndex := a - 1)], a)
  {
    var left := l[k].(endIndex := a - 1);
    TilesSplit(l, k, 0, LIMIT);
    assert [left][1..] == [];
    TilesConcat(l[..k], [left], 0, l[k].startIndex, a);
    forall i | 0 <= i < a ensures AllowedAt(l[..k] + [left], i) == AllowedAt(l, i) {
      AllowedParts(l, k, 0, LIMIT, i);
      AllowedConcat(l[..k], [left], i);
      AllowedSingle(left, i);
      if l[k].startIndex <= i {
        NotAllowedOutside(l[..k], 0, l[k].startIndex, i);
      }
    }
  }

  /** The three ways to finish the right side. */
  lemma RightOf(l: seq<Entry>, k: nat, b: nat)
    requires Canonical(l) && k < |l| && l[k].Covers(b)
    ensures b < l[k].endIndex && l[k].dmiAllowed ==>
              RightDone(l, b, [l[k].(startIndex := b + 1)] + l[k + 1..], b)
    ensures b < l[k].endIndex && !l[k].dmiAllowed ==> RightDone(l, b, l[k + 1..], l[k].endIndex)
    ensures b == l[k].endIndex && (k + 1 == |l| || l[k + 1].dmiAllowed) ==> RightDone(l, b, l[k + 1..], b)
    ensures b == l[k].endIndex && k + 1 < |l| && !l[k + 1].dmiAllowed ==>
              RightDone(l, b, l[k + 2..], l[k + 1].endIndex)
  {
    TilesSplit(l, k, 0, LIMIT);
    forall i | l[k].startIndex <= i < LIMIT
      ensures i <= l[k].endIndex ==> AllowedAt(l, i) == l[k].dmiAllowed
      ensures l[k].endIndex < i ==> AllowedAt(l, i) == AllowedAt(l[k + 1..], i)
    {
      AllowedParts(l, k, 0, LIMIT, i);
    }
    if b < l[k].endIndex && l[k].dmiAllowed {
      RightCut(l, k, b);
    }
    if k + 1 < |l| {
      NextStarts(l, k, 0, LIMIT);
      TilesSplit(l, k + 1, 0, LIMIT);
      forall i | l[k + 1].startIndex <= i < LIMIT
        ensures i <= l[k + 1].endIndex ==> AllowedAt(l, i) == l[k + 1].dmiAllowed
        ensures l[k + 1].endIndex < i ==> AllowedAt(l, i) == AllowedAt(l[k + 2..], i)
      {
        AllowedParts(l, k + 1, 0, LIMIT, i);
      }
    }
  }

  lemma RightCut(l: seq<Entry>, k: nat, b: nat)
    requires Canonical(l) && k < |l| && l[k].Covers(b) && b < l[k].endIndex && l[k].dmiAllowed
    ensures RightDone(l, b, [l[k].(startIndex := b + 1)] + l[k + 1..], b)
  {
    var right := l[k].(startIndex := b + 1);
    TilesSplit(l, k, 0, LIMIT);
    assert ([right] + l[k + 1..])[1..] == l[k + 1..];
    forall i | b < i < LIMIT ensures AllowedAt([right] + l[k + 1..], i) == AllowedAt(l, i) {
      AllowedParts(l, k, 0, LIMIT, i);
      AllowedConcat([right], l[k + 1..], i);
      AllowedSingle(right, i);
      if i <= l[k].endIndex {
        NotAllowedOutside(l[k + 1..], l[k].endIndex + 1, LIMIT, i);
      }
    }
  }

  lemma InitialCanonical(size: nat)
    requires 0 < size < LIMIT
    ensures Canonical(Initial(size))
    ensures forall i :: AllowedAt(Initial(size), i) <==> 0 <= i < size
  {
  }

  lemma {:induction false} CoveredBySome(l: seq<Entry>, s: nat, e: nat, i: int)
    requires Tiles(l, s, e) && s <= i < e
    ensures exists k :: 0 <= k < |l| && l[k].Covers(i)
  {
    if !l[0].Covers(i) {
      CoveredBySome(l[1..], l[0].endIndex + 1, e, i);
      var k :| 0 <= k < |l[1..]| && l[1..][k].Covers(i);
      assert l[k + 1].Covers(i);
    }
  }

  lemma OnlyOneCovers(l: seq<Entry>, k: nat, s: nat, e: nat, i: int)
    requires Tiles(l, s, e) && k < |l| && l[k].Covers(i)
    ensures forall x :: x in l && x.Covers(i) ==> x == l[k]
    ensures AllowedAt(l, i) == l[k].dmiAllowed
  {
    TilesSplit(l, k, s, e);
    AllowedParts(l, k, s, e, i);
    forall x | x in l && x.Covers(i) ensures x == l[k] {
      assert l == l[..k] + [l[k]] + l[k + 1..];
      if x in l[..k] {
        TilesMember(l[..k], s, l[k].startIndex, x);
      } else if x in l[k + 1..] {
        TilesMember(l[k + 1..], l[k].endIndex + 1, e, x);
      }
    }
  }

  // ----- the order of disabling does not matter -----

  ghost predicate InSome(ranges: seq<(nat, nat)>, i: int) {
    exists r | r in ranges :: r.0 <= i <= r.1
  }

  /** lists[k] becomes lists[k + 1] by disabling ranges[k]; the first list is that of a cleared map. */
  ghost predicate History(size: nat, ranges: seq<(nat, nat)>, lists: seq<seq<Entry>>) {
    && 0 < size < LIMIT
    && |lists| == |ranges| + 1
    && lists[0] == Initial(size)
    && forall k :: 0 <= k < |ranges| ==> Disables(lists[k], ranges[k].0, ranges[k].1, lists[k + 1])
  }

  lemma {:induction false} HistoryMap(size: nat, ranges: seq<(nat, nat)>, lists: seq<seq<Entry>>, k: nat, i: int)
    requires History(size, ranges, lists) && k <= |ranges| && 0 <= i < LIMIT
    ensures Canonical(lists[k])
    ensures AllowedAt(lists[k], i) <==> i < size && !InSome(ranges[..k], i)
  {
    if k == 0 {
      InitialCanonical(size);
    } else {
      HistoryMap(size, ranges, lists, k - 1, i);
      assert Disables(lists[k - 1], ranges[k - 1].0, ranges[k - 1].1, lists[k]);
      assert ranges[..k] == ranges[..k - 1] + [ranges[k - 1]];
      assert InSome(ranges[..k], i) <==> InSome(ranges[..k - 1], i) || ranges[k - 1].0 <= i <= ranges[k - 1].1;
    }
  }

  /** The list depends only on the union of the ranges disabled since the map was cleared. */
  lemma UnionDetermines(size: nat, ranges: seq<(nat, nat)>, lists: seq<seq<Entry>>,
                        ranges': seq<(nat, nat)>, lists': seq<seq<Entry>>)
    requires History(size, ranges, lists) && History(size, ranges', lists')
    requires forall i :: 0 <= i < LIMIT ==> (InSome(ranges, i) <==> InSome(ranges', i))
    ensures lists[|ranges|] == lists'[|ranges'|]
  {
    HistoryMap(size, ranges, lists, |ranges|, 0);
    HistoryMap(size, ranges', lists', |ranges'|, 0);
    assert ranges[..|ranges|] == ranges && ranges'[..|ranges'|] == ranges';
    forall i | 0 <= i < LIMIT ensures AllowedAt(lists[|ranges|], i) == AllowedAt(lists'[|ranges'|], i) {
      HistoryMap(size, ranges, lists, |ranges|, i);
      HistoryMap(size, ranges', lists', |ranges'|, i);
    }
    SameMapSameList(lists[|ranges|], lists'[|ranges'|]);
  }

  /** Disabling commutes, and disabling again what is disabled changes nothing. */
  lemma DisablesCommute(l: seq<Entry>, a: nat, b: nat, c: nat, d: nat,
                        x: seq<Entry>, xy: seq<Entry>, y: seq<Entry>, yx: seq<Entry>)
    requires Disables(l, a, b, x) && Disables(x, c, d, xy)
    requires Disables(l, c, d, y) && Disables(y, a, b, yx)
    ensures xy == yx
    ensures a <= c && d <= b ==> xy == x
  {
    SameMapSameList(xy, yx);
    if a <= c && d <= b {
      SameMapSameList(xy, x);
    }
  }
}
