/**
 A memory and its aliases, all of one width, with offsets counted from the start of the
 toplevel memory.  Registration keeps the aliases of each level sorted; look-up descends by
 binary search and is proved to find the deepest alias that contains an access.
 */
module AliasTrees {
  import opened Options

  class MemoryBase {
    const mOffset: nat
    const mSize: nat
    const mParent: MemoryBase?
    /** How many parents it has. */
    ghost const depth: nat
    var mAliases: seq<MemoryBase>

    constructor (parent: MemoryBase?, offset: nat, size: nat)
      ensures mParent == parent && mOffset == offset && mSize == size && mAliases == []
      ensures depth == if parent == null then 0 else parent.depth + 1
    {
      mParent, mOffset, mSize, mAliases := parent, offset, size, [];
      depth := if parent == null then 0 else parent.depth + 1;
    }

    function End(): nat {
      mOffset + mSize
    }

    predicate Contains(low: nat, high: nat) {
      mOffset <= low && high < End()
    }

    /** They have an index in common. */
    predicate Meets(other: MemoryBase) {
      mOffset < other.End() && other.mOffset < End()
    }

    /** Registers an alias; tells whether it leaves its parent, and whether it overlaps another. */
    method RegisterAlias(alias: MemoryBase) returns (outside: bool, overlap: bool)
      requires Sorted(mAliases)
      modifies this`mAliases
      ensures Sorted(mAliases) && mAliases == Inserted(old(mAliases), alias)
      ensures outside <==> alias.mOffset + alias.mSize > mOffset + mSize
      ensures Disjoint(old(mAliases)) && 0 < alias.mSize ==>
                (overlap <==> exists i :: 0 <= i < |old(mAliases)| && old(mAliases)[i].Meets(alias))
    {
      outside := alias.End() > End();
      overlap := OverlapsAny(alias);
      var position := UpperBound(mAliases, alias.mOffset);
      InsertedIsSorted(mAliases, alias);
      mAliases := mAliases[..position] + [alias] + mAliases[position..];
    }

    method OverlapsAny(alias: MemoryBase) returns (overlap: bool)
      requires Sorted(mAliases)
      ensures Disjoint(mAliases) && 0 < alias.mSize ==>
                (overlap <==> exists i :: 0 <= i < |mAliases| && mAliases[i].Meets(alias))
    {
      var it, end := GetAliasRange(mAliases, alias.mOffset, alias.End());
      overlap := false;
      ghost var first := it;
      while it != end
        invariant first <= it <= end
        invariant overlap <==> exists i :: first <= i < it && mAliases[i].Meets(alias)
      {
        if mAliases[it].Meets(alias) {
          overlap := true;
        }
        it := it + 1;
      }
      if Disjoint(mAliases) && 0 < alias.mSize {
        RangeHasMeeting(mAliases, alias, first, end);
      }
    }
  }

  ghost predicate Sorted(aliases: seq<MemoryBase>) {
    forall i, j :: 0 <= i < j < |aliases| ==> aliases[i].mOffset <= aliases[j].mOffset
  }

  /** None is empty, and each ends before the next begins. */
  ghost predicate Disjoint(aliases: seq<MemoryBase>) {
    && (forall i :: 0 <= i < |aliases| ==> 0 < aliases[i].mSize)
    && (forall i, j :: 0 <= i < j < |aliases| ==> aliases[i].End() <= aliases[j].mOffset)
  }

  /** How many begin at or before the index. */
  ghost function Begun(aliases: seq<MemoryBase>, index: nat): (k: nat)
    ensures k <= |aliases|
    ensures Sorted(aliases) ==> forall i :: 0 <= i < |aliases| ==> (i < k <==> aliases[i].mOffset <= index)
  {
    if aliases == [] || index < aliases[0].mOffset then 0 else 1 + Begun(aliases[1..], index)
  }

  ghost function Inserted(aliases: seq<MemoryBase>, alias: MemoryBase): seq<MemoryBase> {
    var k := Begun(aliases, alias.mOffset);
    aliases[..k] + [alias] + aliases[k..]
  }

  /** Binary search for the first alias that begins after the index. */
  method UpperBound(aliases: seq<MemoryBase>, index: nat) returns (k: nat)
    requires Sorted(aliases)
    ensures k == Begun(aliases, index)
  {
    var low, high := 0, |aliases|;
    while low < high
      invariant 0 <= low <= high <= |aliases|
      invariant forall i :: 0 <= i < low ==> aliases[i].mOffset <= index
      invariant forall i :: high <= i < |aliases| ==> index < aliases[i].mOffset
    {
      var mid := (low + high) / 2;
      if aliases[mid].mOffset <= index {
        low := mid + 1;
      } else {
        high := mid;
      }
    }
    k := low;
    BegunIsUnique(aliases, index, k);
  }

  lemma BegunIsUnique(aliases: seq<MemoryBase>, index: nat, k: nat)
    requires Sorted(aliases) && k <= |aliases|
    requires forall i :: 0 <= i < k ==> aliases[i].mOffset <= index
    requires forall i :: k <= i < |aliases| ==> index < aliases[i].mOffset
    ensures k == Begun(aliases, index)
  {
    var b := Begun(aliases, index);
    assert k < |aliases| ==> (k < b <==> aliases[k].mOffset <= index);
    assert b < |aliases| ==> index < aliases[b].mOffset;
  }

  lemma BegunGrows(aliases: seq<MemoryBase>, low: nat, high: nat)
    requires Sorted(aliases) && low <= high
    ensures Begun(aliases, low) <= Begun(aliases, high)
  {
  }

  lemma InsertedIsSorted(aliases: seq<MemoryBase>, alias: MemoryBase)
    requires Sorted(aliases)
    ensures Sorted(Inserted(aliases, alias))
  {
  }

  lemma InsertedAt(aliases: seq<MemoryBase>, alias: MemoryBase)
    ensures var r, k := Inserted(aliases, alias), Begun(aliases, alias.mOffset);
            && |r| == |aliases| + 1 && r[k] == alias
            && (forall i :: 0 <= i < k ==> r[i] == aliases[i])
            && (forall i :: k < i < |r| ==> r[i] == aliases[i - 1])
  {
  }

  /** The alias has a size, and no index in common with the others. */
  ghost predicate Fresh(aliases: seq<MemoryBase>, alias: MemoryBase) {
    0 < alias.mSize && !exists i :: 0 <= i < |aliases| && aliases[i].Meets(alias)
  }

  lemma {:induction false} FreshIsDisjoint(aliases: seq<MemoryBase>, alias: MemoryBase)
    requires Sorted(aliases) && Disjoint(aliases) && Fresh(aliases, alias)
    ensures Disjoint(Inserted(aliases, alias))
  {
    var r, k := Inserted(aliases, alias), Begun(aliases, alias.mOffset);
    InsertedAt(aliases, alias);
    forall i, j | 0 <= i < j < |r| ensures r[i].End() <= r[j].mOffset {
      if j == k {
        assert !aliases[i].Meets(alias);
      } else if i == k {
        assert !aliases[j - 1].Meets(alias);
      }
    }
  }

  lemma {:induction false} DisjointIsFresh(aliases: seq<MemoryBase>, alias: MemoryBase)
    requires Disjoint(Inserted(aliases, alias))
    ensures Fresh(aliases, alias)
  {
    var r, k := Inserted(aliases, alias), Begun(aliases, alias.mOffset);
    InsertedAt(aliases, alias);
    forall i | 0 <= i < |aliases| ensures !aliases[i].Meets(alias) {
      var p := if i < k then i else i + 1;
      assert r[p] == aliases[i];
      assert if p < k then r[p].End() <= r[k].mOffset else r[k].End() <= r[p].mOffset;
    }
  }

  /** A level stays disjoint exactly when the new alias has a size and overlaps none: the error report, and
      the size, are all that look-up needs. */
  lemma {:induction false} InsertedIsDisjoint(aliases: seq<MemoryBase>, alias: MemoryBase)
    requires Sorted(aliases) && Disjoint(aliases)
    ensures Disjoint(Inserted(aliases, alias)) <==> Fresh(aliases, alias)
  {
    if Fresh(aliases, alias) {
      FreshIsDisjoint(aliases, alias);
    }
    if Disjoint(Inserted(aliases, alias)) {
      DisjointIsFresh(aliases, alias);
    }
  }

  /** The aliases at which an access from low to high is looked for. */
  method GetAliasRange(aliases: seq<MemoryBase>, low: nat, high: nat) returns (it: nat, end: nat)
    requires Sorted(aliases) && low <= high
    ensures it == RangeStart(aliases, low) && end == RangeEnd(aliases, low, high) && it <= end
  {
    BegunGrows(aliases, low, high);
    it := UpperBound(aliases, low);
    if it != 0 {
      end := UpperBound(aliases, high);
      it := it - 1;
    } else if it != |aliases| && high >= aliases[it].mOffset {
      end := 1;
    } else {
      end := 0;
    }
  }

  ghost function RangeStart(aliases: seq<MemoryBase>, low: nat): nat {
    var k := Begun(aliases, low);
    if k == 0 then 0 else k - 1
  }

  /** All that begin at or before high; but when all begin after low, only the first. */
  ghost function RangeEnd(aliases: seq<MemoryBase>, low: nat, high: nat): (k: nat)
    ensures k <= |aliases|
  {
    if Begun(aliases, low) > 0 then Begun(aliases, high)
    else if aliases != [] && aliases[0].mOffset <= high then 1
    else 0
  }

  /** An alias overlaps one of the range if it overlaps any. */
  lemma {:induction false} RangeHasMeeting(aliases: seq<MemoryBase>, alias: MemoryBase, it: nat, end: nat)
    requires Sorted(aliases) && Disjoint(aliases) && 0 < alias.mSize
    requires it == RangeStart(aliases, alias.mOffset) && end == RangeEnd(aliases, alias.mOffset, alias.End())
    ensures (exists i :: 0 <= i < |aliases| && aliases[i].Meets(alias)) <==>
            (exists i :: it <= i < end && aliases[i].Meets(alias))
  {
    forall i | 0 <= i < |aliases| && aliases[i].Meets(alias)
      ensures exists j :: it <= j < end && aliases[j].Meets(alias)
    {
      if Begun(aliases, alias.mOffset) == 0 {
        assert aliases[0].mOffset <= aliases[i].mOffset;
        assert aliases[0].Meets(alias);
      } else {
        assert aliases[it].mOffset <= alias.mOffset;
        assert it <= i < end;
      }
    }
  }

  predicate HasIndex(a: MemoryBase, i: nat) {
    a.mOffset <= i < a.mOffset + a.mSize
  }

  /** An alias contains an access exactly when it has its first and its last index. */
  lemma {:induction false} ContainsBothEnds(a: MemoryBase, low: nat, high: nat)
    requires low <= high
    ensures a.Contains(low, high) <==> HasIndex(a, low) && HasIndex(a, high)
  {
  }

  /** Two aliases with a size overlap exactly when they have an index in common. */
  lemma {:induction false} MeetingIsSharing(a: MemoryBase, b: MemoryBase)
    requires 0 < a.mSize && 0 < b.mSize
    ensures a.Meets(b) <==> exists i: nat :: HasIndex(a, i) && HasIndex(b, i)
  {
    var i := if a.mOffset < b.mOffset then b.mOffset else a.mOffset;
    assert a.Meets(b) ==> HasIndex(a, i) && HasIndex(b, i);
  }

  /** An access reaches an alias with a size exactly when it has an index of it. */
  lemma {:induction false} ReachingIsSharing(a: MemoryBase, low: nat, high: nat)
    requires low <= high && 0 < a.mSize
    ensures Reaches(a, low, high) <==> exists i: nat :: HasIndex(a, i) && low <= i <= high
  {
    var i := if a.mOffset < low then low else a.mOffset;
    assert Reaches(a, low, high) ==> HasIndex(a, i) && low <= i <= high;
  }

  // ----- the tree -----

  /** b is a or one of its parents. */
  ghost predicate Above(b: MemoryBase, a: MemoryBase)
    decreases a.depth
  {
    b == a || (a.mParent != null && a.mParent.depth < a.depth && Above(b, a.mParent))
  }

  /** All aliases have been registered without error. */
  ghost predicate Tree(top: MemoryBase, all: set<MemoryBase>)
    reads all
  {
    && top in all && top.mParent == null
    && (forall a :: a in all ==> Level(a, all))
    && (forall a :: a in all && a != top ==> a.mParent in all && a in a.mParent.mAliases)
  }

  /** The aliases of a lie in it, one after the other. */
  ghost predicate Level(a: MemoryBase, all: set<MemoryBase>)
    reads a
  {
    && Sorted(a.mAliases) && Disjoint(a.mAliases)
    && (forall c :: c in a.mAliases ==>
          c in all && c.mParent == a && c.depth == a.depth + 1 && a.mOffset <= c.mOffset && c.End() <= a.End())
  }

  /** The alias of a on the way down to b. */
  lemma {:induction false} WayDown(top: MemoryBase, all: set<MemoryBase>, a: MemoryBase, b: MemoryBase)
    returns (c: MemoryBase)
    requires Tree(top, all) && a in all && b in all && a != b && Above(a, b)
    ensures c in a.mAliases && Above(c, b) && c.mOffset <= b.mOffset && b.End() <= c.End()
    decreases b.depth
  {
    assert b != top;
    if b.mParent == a {
      c := b;
    } else {
      c := WayDown(top, all, a, b.mParent);
      assert Level(b.mParent, all);
    }
  }

  lemma {:induction false} AboveTransitive(a: MemoryBase, b: MemoryBase, c: MemoryBase)
    requires Above(a, b) && Above(b, c)
    ensures Above(a, c)
    decreases c.depth
  {
    if b != c {
      AboveTransitive(a, b, c.mParent);
    }
  }

  /** Every alias that contains the access is above a. */
  ghost predicate Deepest(all: set<MemoryBase>, a: MemoryBase, low: nat, high: nat) {
    a in all && a.Contains(low, high) && forall b :: b in all && b.Contains(low, high) ==> Above(b, a)
  }

  /** Every alias that contains the access is above a or below it. */
  ghost predicate OnTheWay(all: set<MemoryBase>, a: MemoryBase, low: nat, high: nat) {
    a in all && a.Contains(low, high) && forall b :: b in all && b.Contains(low, high) ==> Above(b, a) || Above(a, b)
  }

  /** Going down to the alias that contains the access loses none. */
  lemma {:induction false} StepDown(top: MemoryBase, all: set<MemoryBase>, a: MemoryBase, c: MemoryBase, low: nat, high: nat)
    requires Tree(top, all) && low <= high && OnTheWay(all, a, low, high) && c in a.mAliases && c.Contains(low, high)
    ensures OnTheWay(all, c, low, high)
  {
    assert Level(a, all);
    forall b | b in all && b.Contains(low, high) ensures Above(b, c) || Above(c, b) {
      if Above(b, a) {
        assert Above(a, c);
        AboveTransitive(b, a, c);
      } else {
        var d := WayDown(top, all, a, b);
        assert d.Contains(low, high);
        var i :| 0 <= i < |a.mAliases| && a.mAliases[i] == c;
        var j :| 0 <= j < |a.mAliases| && a.mAliases[j] == d;
        assert i == j;
      }
    }
  }

  lemma {:induction false} Bottom(top: MemoryBase, all: set<MemoryBase>, a: MemoryBase, low: nat, high: nat)
    requires Tree(top, all) && OnTheWay(all, a, low, high)
    requires forall c :: c in a.mAliases ==> !c.Contains(low, high)
    ensures Deepest(all, a, low, high)
  {
    forall b | b in all && b.Contains(low, high) ensures Above(b, a) {
      if !Above(b, a) {
        var c := WayDown(top, all, a, b);
        assert false;
      }
    }
  }

  // ----- look-up -----

  /** Only the last alias that begins at or before low can contain the access. */
  lemma {:induction false} OnlyTheLastBegun(aliases: seq<MemoryBase>, low: nat, high: nat)
    requires Sorted(aliases) && Disjoint(aliases) && low <= high
    ensures forall c :: c in aliases && c.Contains(low, high) ==>
                          0 < Begun(aliases, low) && c == aliases[Begun(aliases, low) - 1]
  {
  }

  /** The deepest alias that contains the access; none when it ends outside the memory. */
  method FindAlias(top: MemoryBase, low: nat, high: nat, ghost all: set<MemoryBase>, ghost limit: nat)
    returns (r: Option<MemoryBase>)
    requires Tree(top, all) && low <= high && top.mOffset == 0 && forall a :: a in all ==> a.depth <= limit
    ensures r.None? <==> high >= top.mSize
    ensures r.Some? ==> Deepest(all, r.value, low, high)
                        && r.value.mOffset <= low && high < r.value.mOffset + r.value.mSize
  {
    if high >= top.mSize {
      return None;
    }
    var alias := top;
    var stop := false;
    TopIsAbove(top, all);
    while !stop
      invariant OnTheWay(all, alias, low, high)
      invariant stop ==> forall c :: c in alias.mAliases ==> !c.Contains(low, high)
      decreases !stop, limit - alias.depth
    {
      assert Level(alias, all);
      stop := true;
      OnlyTheLastBegun(alias.mAliases, low, high);
      var child := UpperBound(alias.mAliases, low);
      if child != 0 {
        child := child - 1;
        if high < alias.mAliases[child].End() {
          StepDown(top, all, alias, alias.mAliases[child], low, high);
          alias := alias.mAliases[child];
          stop := false;
        }
      }
    }
    Bottom(top, all, alias, low, high);
    return Some(alias);
  }

  lemma {:induction false} TopIsAbove(top: MemoryBase, all: set<MemoryBase>)
    requires Tree(top, all)
    ensures forall b :: b in all ==> Above(top, b)
  {
    forall b | b in all ensures Above(top, b) {
      AboveAll(top, all, b);
    }
  }

  lemma {:induction false} AboveAll(top: MemoryBase, all: set<MemoryBase>, b: MemoryBase)
    requires Tree(top, all) && b in all
    ensures Above(top, b)
    decreases b.depth
  {
    if b != top {
      assert Level(b.mParent, all);
      AboveAll(top, all, b.mParent);
    }
  }

  /** An alias without a size is registered without an error, and hides the one at the same offset from look-up. */
  lemma {:induction false} EmptyAliasHidesAnother(a: MemoryBase, b: MemoryBase)
    requires a.mOffset == b.mOffset && 1 < a.mSize && b.mSize == 0
    ensures Sorted([a]) && Disjoint([a]) && !a.Meets(b) && Inserted([a], b) == [a, b]
    ensures var index := a.mOffset + 1;
            a.Contains(index, index) && [a, b][Begun([a, b], index) - 1] == b && !b.Contains(index, index)
  {
  }

  /** An alias is added to the tree; no error, and a size, are exactly what keeps the tree in order. */
  method AddAlias(top: MemoryBase, parent: MemoryBase, offset: nat, size: nat, ghost all: set<MemoryBase>)
    returns (alias: MemoryBase, outside: bool, overlap: bool)
    requires Tree(top, all) && parent in all
    modifies parent`mAliases
    ensures fresh(alias) && alias.mParent == parent && alias.mOffset == parent.mOffset + offset && alias.mSize == size
    ensures outside <==> offset + size > parent.mSize
    ensures 0 < size ==> (overlap <==> exists i :: 0 <= i < |old(parent.mAliases)| && old(parent.mAliases)[i].Meets(alias))
    ensures parent.mAliases == Inserted(old(parent.mAliases), alias)
    ensures Tree(top, all + {alias}) <==> !outside && !overlap && 0 < size
  {
    alias := new MemoryBase(parent, parent.mOffset + offset, size);
    assert Level(parent, all);
    ghost var before := parent.mAliases;
    outside, overlap := parent.RegisterAlias(alias);
    if !outside && Fresh(before, alias) {
      TreeWith(top, all, parent, alias);
    }
    if Tree(top, all + {alias}) {
      TreeHasFresh(top, all + {alias}, parent, alias, before);
    }
  }

  twostate lemma LevelWith(all: set<MemoryBase>, new parent: MemoryBase, new alias: MemoryBase)
    requires parent in all && old(Level(parent, all))
    requires alias.mParent == parent && alias.depth == parent.depth + 1 && parent.mOffset <= alias.mOffset
    requires parent.mAliases == Inserted(old(parent.mAliases), alias)
    requires alias.End() <= parent.End() && Fresh(old(parent.mAliases), alias)
    ensures Level(parent, all + {alias})
  {
    InsertedIsSorted(old(parent.mAliases), alias);
    InsertedIsDisjoint(old(parent.mAliases), alias);
    InsertedMembers(old(parent.mAliases), alias);
  }

  /** The tree after such an alias has been put in. */
  twostate lemma TreeWith(new top: MemoryBase, all: set<MemoryBase>, new parent: MemoryBase, new alias: MemoryBase)
    requires top in all && parent in all && old(Tree(top, all)) && alias !in all && alias.mAliases == []
    requires alias.mParent == parent && alias.depth == parent.depth + 1 && parent.mOffset <= alias.mOffset
    requires parent.mAliases == Inserted(old(parent.mAliases), alias)
    requires forall a :: a in all && a != parent ==> unchanged(a)
    requires alias.End() <= parent.End() && Fresh(old(parent.mAliases), alias)
    ensures Tree(top, all + {alias})
  {
    InsertedMembers(old(parent.mAliases), alias);
    LevelWith(all, parent, alias);
    forall a | a in all + {alias} ensures Level(a, all + {alias}) {
      if a != alias {
        assert old(Level(a, all));
      }
    }
    forall a | a in all + {alias} && a != top ensures a.mParent in all && a in a.mParent.mAliases {
      if a != alias {
        assert old(a in a.mParent.mAliases);
      }
    }
  }

  /** A tree has only such aliases. */
  lemma {:induction false} TreeHasFresh(top: MemoryBase, all: set<MemoryBase>, parent: MemoryBase, alias: MemoryBase,
                                        before: seq<MemoryBase>)
    requires Tree(top, all) && parent in all && parent.mAliases == Inserted(before, alias)
    ensures alias.End() <= parent.End() && Fresh(before, alias)
  {
    LevelOf(top, all, parent);
    InsertedMembers(before, alias);
    DisjointIsFresh(before, alias);
  }

  lemma InsertedMembers(aliases: seq<MemoryBase>, alias: MemoryBase)
    ensures forall a :: a in Inserted(aliases, alias) <==> a in aliases || a == alias
  {
  }

  // ----- look-up by behaviour -----

  predicate Reaches(a: MemoryBase, low: nat, high: nat) {
    a.mOffset <= high && low < a.End()
  }

  /** An alias below `a` that the access reaches fulfils the condition. */
  ghost predicate Refined(all: set<MemoryBase>, a: MemoryBase, low: nat, high: nat, condition: MemoryBase -> bool) {
    exists b :: b in all && b != a && Above(a, b) && Reaches(b, low, high) && condition(b)
  }

  /** The first alias of a level is looked at in any case, the others only if it begins at or before the access. */
  ghost predicate LookedAt(aliases: seq<MemoryBase>, c: MemoryBase, low: nat) {
    aliases != [] && (c == aliases[0] || aliases[0].mOffset <= low)
  }

  /** Of the aliases that the access reaches, the range has exactly those. */
  lemma {:induction false} RangeIsLookedAt(aliases: seq<MemoryBase>, low: nat, high: nat, i: nat)
    requires Sorted(aliases) && Disjoint(aliases) && low <= high
    requires i < |aliases| && Reaches(aliases[i], low, high)
    ensures RangeStart(aliases, low) <= i < RangeEnd(aliases, low, high) <==> LookedAt(aliases, aliases[i], low)
  {
    var k := Begun(aliases, low);
    if k > 0 {
      assert aliases[0].mOffset <= low && aliases[k - 1].mOffset <= low;
      if i < k - 1 {
        assert false;
      }
    } else if i > 0 {
      assert aliases[0].End() <= aliases[i].mOffset;
    }
  }

  /** On every level from a down to b, the way is looked at. */
  ghost predicate Visible(all: set<MemoryBase>, a: MemoryBase, b: MemoryBase, low: nat)
    reads all
    decreases b.depth
  {
    b == a ||
    (b.mParent != null && b.mParent in all && b.mParent.depth < b.depth
     && LookedAt(b.mParent.mAliases, b, low) && Visible(all, a, b.mParent, low))
  }

  /** What the search finds: an alias of the range that the access reaches and that fulfils the condition, or below
      which the search finds one. */
  ghost predicate Finds(all: set<MemoryBase>, alias: MemoryBase, low: nat, high: nat, condition: MemoryBase -> bool,
                        limit: nat)
    requires alias in all
    reads all
    decreases limit - alias.depth, 0
  {
    exists i :: RangeStart(alias.mAliases, low) <= i < RangeEnd(alias.mAliases, low, high)
                && alias.depth < alias.mAliases[i].depth <= limit
                && FindsAt(all, alias.mAliases[i], low, high, condition, limit)
  }

  ghost predicate FindsAt(all: set<MemoryBase>, child: MemoryBase, low: nat, high: nat, condition: MemoryBase -> bool,
                          limit: nat)
    reads all
    decreases limit - child.depth, 1
  {
    child in all && Reaches(child, low, high) && (condition(child) || Finds(all, child, low, high, condition, limit))
  }

  method HasRefinedBehavior(top: MemoryBase, alias: MemoryBase, low: nat, high: nat, condition: MemoryBase -> bool,
                            ghost all: set<MemoryBase>, ghost limit: nat)
    returns (refined: bool)
    requires Tree(top, all) && low <= high && alias in all && forall a :: a in all ==> a.depth <= limit
    ensures refined == Finds(all, alias, low, high, condition, limit)
    decreases limit - alias.depth, 0
  {
    LevelOf(top, all, alias);
    var it, end := GetAliasRange(alias.mAliases, low, high);
    while it != end
      invariant RangeStart(alias.mAliases, low) <= it <= end
      invariant forall i :: RangeStart(alias.mAliases, low) <= i < it ==>
                  !FindsAt(all, alias.mAliases[i], low, high, condition, limit)
    {
      refined := IsRefinement(top, alias.mAliases[it], low, high, condition, all, limit);
      if refined {
        return;
      }
      it := it + 1;
    }
    return false;
  }

  /** The test of one alias. */
  method IsRefinement(top: MemoryBase, child: MemoryBase, low: nat, high: nat, condition: MemoryBase -> bool,
                      ghost all: set<MemoryBase>, ghost limit: nat)
    returns (refined: bool)
    requires Tree(top, all) && low <= high && child in all && forall a :: a in all ==> a.depth <= limit
    ensures refined == FindsAt(all, child, low, high, condition, limit)
    decreases limit - child.depth, 1
  {
    if !Reaches(child, low, high) {
      return false;
    }
    if condition(child) {
      return true;
    }
    refined := HasRefinedBehavior(top, child, low, high, condition, all, limit);
  }

  lemma LevelOf(top: MemoryBase, all: set<MemoryBase>, a: MemoryBase)
    requires Tree(top, all) && a in all
    ensures Level(a, all)
  {
  }

  lemma {:induction false} DeeperBelow(a: MemoryBase, b: MemoryBase)
    requires Above(a, b)
    ensures a.depth <= b.depth
    decreases b.depth
  {
    if a != b {
      DeeperBelow(a, b.mParent);
    }
  }

  lemma {:induction false} VisibleIsAbove(all: set<MemoryBase>, a: MemoryBase, b: MemoryBase, low: nat)
    requires Visible(all, a, b, low)
    ensures Above(a, b)
    decreases b.depth
  {
    if b != a {
      VisibleIsAbove(all, a, b.mParent, low);
    }
  }

  lemma {:induction false} VisibleTransitive(all: set<MemoryBase>, a: MemoryBase, b: MemoryBase, c: MemoryBase, low: nat)
    requires Visible(all, a, b, low) && Visible(all, b, c, low)
    ensures Visible(all, a, c, low)
    decreases c.depth
  {
    if b != c {
      VisibleTransitive(all, a, b, c.mParent, low);
    }
  }

  /** The alias of a on the visible way down to b. */
  lemma {:induction false} VisibleWay(top: MemoryBase, all: set<MemoryBase>, a: MemoryBase, b: MemoryBase, low: nat)
    returns (c: MemoryBase)
    requires Tree(top, all) && a in all && b in all && a != b && Visible(all, a, b, low)
    ensures c in a.mAliases && LookedAt(a.mAliases, c, low) && Visible(all, c, b, low)
    ensures c.mOffset <= b.mOffset && b.End() <= c.End()
    decreases b.depth
  {
    LevelOf(top, all, b.mParent);
    assert b in b.mParent.mAliases;
    if b.mParent == a {
      c := b;
    } else {
      c := VisibleWay(top, all, a, b.mParent, low);
    }
  }

  /** Some visible alias below `a` that the access reaches fulfils the condition. */
  ghost predicate VisiblyRefined(all: set<MemoryBase>, a: MemoryBase, low: nat, high: nat, condition: MemoryBase -> bool)
    reads all
  {
    exists b :: b in all && b != a && Visible(all, a, b, low) && Reaches(b, low, high) && condition(b)
  }

  lemma {:induction false} FoundIsVisible(top: MemoryBase, all: set<MemoryBase>, alias: MemoryBase, low: nat, high: nat,
                                          condition: MemoryBase -> bool, limit: nat)
    requires Tree(top, all) && low <= high && alias in all && Finds(all, alias, low, high, condition, limit)
    ensures VisiblyRefined(all, alias, low, high, condition)
    decreases limit - alias.depth
  {
    LevelOf(top, all, alias);
    var i :| RangeStart(alias.mAliases, low) <= i < RangeEnd(alias.mAliases, low, high)
             && alias.depth < alias.mAliases[i].depth <= limit
             && FindsAt(all, alias.mAliases[i], low, high, condition, limit);
    var child := alias.mAliases[i];
    RangeIsLookedAt(alias.mAliases, low, high, i);
    assert Visible(all, alias, child, low);
    if !condition(child) {
      FoundIsVisible(top, all, child, low, high, condition, limit);
      var b :| b in all && b != child && Visible(all, child, b, low) && Reaches(b, low, high) && condition(b);
      VisibleTransitive(all, alias, child, b, low);
      VisibleIsAbove(all, child, b, low);
      DeeperBelow(child, b);
    }
  }

  lemma {:induction false} VisibleIsFound(top: MemoryBase, all: set<MemoryBase>, alias: MemoryBase, low: nat, high: nat,
                                          condition: MemoryBase -> bool, limit: nat, b: MemoryBase)
    requires Tree(top, all) && low <= high && alias in all && forall a :: a in all ==> a.depth <= limit
    requires b in all && b != alias && Visible(all, alias, b, low) && Reaches(b, low, high) && condition(b)
    ensures Finds(all, alias, low, high, condition, limit)
    decreases limit - alias.depth
  {
    LevelOf(top, all, alias);
    var c := VisibleWay(top, all, alias, b, low);
    var i :| 0 <= i < |alias.mAliases| && alias.mAliases[i] == c;
    RangeIsLookedAt(alias.mAliases, low, high, i);
    if b != c {
      VisibleIsFound(top, all, c, low, high, condition, limit, b);
    }
    assert FindsAt(all, c, low, high, condition, limit);
  }

  /** The search finds something if and only if a visible alias refines the access. */
  lemma {:induction false} FindsWhatIsVisible(top: MemoryBase, all: set<MemoryBase>, alias: MemoryBase, low: nat, high: nat,
                                              condition: MemoryBase -> bool, limit: nat)
    requires Tree(top, all) && low <= high && alias in all && forall a :: a in all ==> a.depth <= limit
    ensures Finds(all, alias, low, high, condition, limit) <==> VisiblyRefined(all, alias, low, high, condition)
  {
    if Finds(all, alias, low, high, condition, limit) {
      FoundIsVisible(top, all, alias, low, high, condition, limit);
    }
    if b :| b in all && b != alias && Visible(all, alias, b, low) && Reaches(b, low, high) && condition(b) {
      VisibleIsFound(top, all, alias, low, high, condition, limit, b);
    }
  }

  /** The level has nothing to overlook: the access does not begin before the first of several aliases that it reaches. */
  ghost predicate Seen(aliases: seq<MemoryBase>, low: nat, high: nat) {
    |aliases| < 2 || aliases[0].mOffset <= low || high < aliases[1].mOffset
  }

  /** All levels that the search comes to are such. */
  ghost predicate AllSeen(all: set<MemoryBase>, alias: MemoryBase, low: nat, high: nat)
    reads all
  {
    forall a :: a in all && Above(alias, a) && (a == alias || Reaches(a, low, high)) ==> Seen(a.mAliases, low, high)
  }

  lemma {:induction false} SeenIsVisible(top: MemoryBase, all: set<MemoryBase>, alias: MemoryBase, low: nat, high: nat,
                                         b: MemoryBase)
    requires Tree(top, all) && low <= high && AllSeen(all, alias, low, high)
    requires b in all && Above(alias, b) && (b == alias || Reaches(b, low, high))
    ensures Visible(all, alias, b, low)
    decreases b.depth
  {
    if b != alias {
      LevelOf(top, all, b.mParent);
      assert b in b.mParent.mAliases;
      SeenIsVisible(top, all, alias, low, high, b.mParent);
      var i :| 0 <= i < |b.mParent.mAliases| && b.mParent.mAliases[i] == b;
      assert Seen(b.mParent.mAliases, low, high);
    }
  }

  /** If so the search finds something if and only if any alias refines the access. */
  lemma {:induction false} SearchIsExact(top: MemoryBase, all: set<MemoryBase>, alias: MemoryBase, low: nat, high: nat,
                                         condition: MemoryBase -> bool, limit: nat)
    requires Tree(top, all) && low <= high && alias in all && forall a :: a in all ==> a.depth <= limit
    requires AllSeen(all, alias, low, high)
    ensures Finds(all, alias, low, high, condition, limit) <==> Refined(all, alias, low, high, condition)
  {
    FindsWhatIsVisible(top, all, alias, low, high, condition, limit);
    if b :| b in all && b != alias && Above(alias, b) && Reaches(b, low, high) && condition(b) {
      SeenIsVisible(top, all, alias, low, high, b);
    }
    if b :| b in all && b != alias && Visible(all, alias, b, low) && Reaches(b, low, high) && condition(b) {
      VisibleIsAbove(all, alias, b, low);
    }
  }

  /** When the access begins before the first of two aliases and reaches both, the second is overlooked. */
  lemma {:induction false} SecondIsOverlooked(top: MemoryBase, first: MemoryBase, second: MemoryBase, low: nat, high: nat)
    requires top.mParent == null && first.mParent == second.mParent == top && first != second
    requires first.depth == second.depth == top.depth + 1
    requires top.mAliases == [first, second] && low < first.mOffset && second.mOffset <= high && low < second.End()
    ensures Refined({top, first, second}, top, low, high, a => a == second)
    ensures !VisiblyRefined({top, first, second}, top, low, high, a => a == second)
  {
    assert Above(top, second) && Reaches(second, low, high);
    assert !LookedAt(top.mAliases, second, low);
  }

  /** A memory with aliases at 10 and at 20, and an access from 5 to 22: the second alias refines it, but the search
      finds nothing. */
  method OverlookedExample() returns (top: MemoryBase, second: MemoryBase, refined: bool, ghost all: set<MemoryBase>)
    ensures Tree(top, all) && Refined(all, top, 5, 22, a => a == second)
    ensures refined == Finds(all, top, 5, 22, a => a == second, 1) && !refined
  {
    var first;
    top, first, second := TwoAliases();
    all := {top, first, second};
    refined := HasRefinedBehavior(top, top, 5, 22, a => a == second, all, 1);
    FindsWhatIsVisible(top, all, top, 5, 22, a => a == second, 1);
    SecondIsOverlooked(top, first, second, 5, 22);
  }

  method TwoAliases() returns (top: MemoryBase, first: MemoryBase, second: MemoryBase)
    ensures fresh({top, first, second}) && Tree(top, {top, first, second}) && top.mAliases == [first, second]
    ensures top.depth == 0 && first.depth == second.depth == 1 && first != second
    ensures first.mParent == second.mParent == top && first.mOffset == 10 && second.mOffset == 20 && second.mSize == 5
  {
    top, first := OneAlias();
    LevelOf(top, {top, first}, top);
    var outside, overlap;
    second, outside, overlap := AddAlias(top, top, 20, 5, {top, first});
    InsertedLast([first], second);
    assert {top, first} + {second} == {top, first, second};
    LevelOf(top, {top, first, second}, top);
  }

  method OneAlias() returns (top: MemoryBase, first: MemoryBase)
    ensures fresh({top, first}) && Tree(top, {top, first}) && top.mAliases == [first] && top != first
    ensures top.mOffset == top.depth == 0 && top.mSize == 100 && top.mParent == null
    ensures first.mParent == top && first.mOffset == 10 && first.mSize == 5
  {
    top := new MemoryBase(null, 0, 100);
    var outside, overlap;
    first, outside, overlap := AddAlias(top, top, 10, 5, {top});
    InsertedLast([], first);
    assert {top} + {first} == {top, first};
  }

  lemma {:induction false} InsertedLast(aliases: seq<MemoryBase>, alias: MemoryBase)
    requires |aliases| <= 1 && forall a :: a in aliases ==> a.mOffset <= alias.mOffset
    ensures Inserted(aliases, alias) == aliases + [alias]
  {
  }

  /** The deepest alias that contains the access and fulfils the condition; the toplevel memory when there is none. */
  ghost predicate Chosen(top: MemoryBase, all: set<MemoryBase>, a: MemoryBase, low: nat, high: nat,
                         condition: MemoryBase -> bool)
  {
    && a in all && a.Contains(low, high) && (condition(a) || a == top)
    && forall b :: b in all && b.Contains(low, high) && condition(b) ==> Above(b, a)
  }

  lemma {:induction false} ContainingIsUpward(top: MemoryBase, all: set<MemoryBase>, a: MemoryBase, low: nat, high: nat)
    requires Tree(top, all) && a in all && a != top && a.Contains(low, high)
    ensures a.mParent in all && a.mParent.Contains(low, high)
  {
  }

  /** The memory or alias whose behaviour serves the access; none when it ends outside, or when more than one index is
      accessed and an alias further down behaves differently. */
  method FindAliasIf(top: MemoryBase, low: nat, high: nat, condition: MemoryBase -> bool,
                     ghost all: set<MemoryBase>, ghost limit: nat)
    returns (r: Option<MemoryBase>)
    requires Tree(top, all) && low <= high && top.mOffset == 0 && forall a :: a in all ==> a.depth <= limit
    ensures r.Some? ==> Chosen(top, all, r.value, low, high, condition)
    ensures r.Some? && low != high ==> !VisiblyRefined(all, r.value, low, high, condition)
    ensures r.None? && high < top.mSize ==>
              low != high && exists a :: Chosen(top, all, a, low, high, condition)
                                         && VisiblyRefined(all, a, low, high, condition)
    ensures high >= top.mSize ==> r.None?
  {
    r := FindAlias(top, low, high, all, limit);
    if r.None? {
      return;
    }
    var alias := WalkUp(top, r.value, low, high, condition, all);
    r := Some(alias);
    if low != high {
      var refined := HasRefinedBehavior(top, alias, low, high, condition, all, limit);
      FindsWhatIsVisible(top, all, alias, low, high, condition, limit);
      if refined {
        r := None;
      }
    }
  }

  /** From the deepest alias up to the first that fulfils the condition, or to the top. */
  method WalkUp(top: MemoryBase, deepest: MemoryBase, low: nat, high: nat, condition: MemoryBase -> bool,
                ghost all: set<MemoryBase>)
    returns (a: MemoryBase)
    requires Tree(top, all) && Deepest(all, deepest, low, high)
    ensures Chosen(top, all, a, low, high, condition)
  {
    var alias: MemoryBase? := deepest;
    while alias != null && !condition(alias)
      invariant alias != null ==>
                  && alias in all && alias.Contains(low, high)
                  && forall b :: b in all && b.Contains(low, high) && condition(b) ==> Above(b, alias)
      invariant alias == null ==>
                  top.Contains(low, high) && forall b :: b in all && b.Contains(low, high) ==> !condition(b)
      decreases alias != null, if alias != null then alias.depth else 0
    {
      if alias != top {
        ContainingIsUpward(top, all, alias, low, high);
        LevelOf(top, all, alias.mParent);
      }
      alias := alias.mParent;
    }
    a := if alias == null then top else alias;
  }
}
