/**
 Trees of bitfields: which bitfield owns a bit, and how a tree is built.

 A bitfield covers `size` bits from `offset` (counted from bit 0 of the register) and
 may be divided into further bitfields.  The owner of a bit is the innermost bitfield
 around it with a callback of its own for the kind of access.
 */
module BitfieldTrees {
  import opened Options

  datatype Access = ReadAccess | WriteAccess

  datatype Bitfield = Bitfield(offset: nat, size: nat,
                               handlesRead: bool, handlesWrite: bool,
                               restrictsRead: bool, restrictsWrite: bool,
                               children: seq<Bitfield>)
  {
    predicate Handles(a: Access) {
      match a
      case ReadAccess => handlesRead
      case WriteAccess => handlesWrite
    }

    predicate Restricts(a: Access) {
      match a
      case ReadAccess => restrictsRead
      case WriteAccess => restrictsWrite
    }

    predicate Contains(p: nat) {
      offset <= p < offset + size
    }

    predicate Overlaps(other: Bitfield) {
      offset < other.offset + other.size && other.offset < offset + size
    }

    predicate Inside(parent: Bitfield) {
      parent.offset <= offset && offset + size <= parent.offset + parent.size
    }
  }

  ghost predicate ValidTree(fields: seq<Bitfield>) {
    && (forall i, j :: 0 <= i < j < |fields| ==> !fields[i].Overlaps(fields[j]))
    && (forall b | b in fields :: ValidField(b))
  }

  ghost predicate ValidField(b: Bitfield) {
    (forall c | c in b.children :: c.Inside(b)) && ValidTree(b.children)
  }

  // ----- ownership -----

  function OwnerIn(a: Access, fields: seq<Bitfield>, p: nat): (o: Option<Bitfield>)
    ensures o.Some? ==> o.value.Handles(a) && o.value.Contains(p)
  {
    if fields == [] then None
    else
      var last := fields[|fields| - 1];
      if last.Contains(p) then Owner(a, last, p) else OwnerIn(a, fields[..|fields| - 1], p)
  }

  function Owner(a: Access, b: Bitfield, p: nat): (o: Option<Bitfield>)
    requires b.Contains(p)
    ensures o.Some? ==> o.value.Handles(a) && o.value.Contains(p)
  {
    var o := OwnerIn(a, b.children, p);
    if o.Some? then o else if b.Handles(a) then Some(b) else None
  }

  /** The owner of bit p as far as bitfield b alone goes. */
  function OwnerAt(a: Access, b: Bitfield, p: nat): Option<Bitfield> {
    if b.Contains(p) then Owner(a, b, p) else None
  }

  /** f is one of the fields or lies somewhere below one of them. */
  ghost predicate InTree(f: Bitfield, fields: seq<Bitfield>) {
    exists b | b in fields :: f == b || InTree(f, b.children)
  }

  lemma {:induction false} NobodyThere(a: Access, fields: seq<Bitfield>, p: nat)
    requires forall b | b in fields :: !b.Contains(p)
    ensures OwnerIn(a, fields, p) == None
  {
    if fields != [] {
      NobodyThere(a, fields[..|fields| - 1], p);
    }
  }

  lemma {:induction false} OwnerInField(a: Access, fields: seq<Bitfield>, k: nat, p: nat)
    requires ValidTree(fields) && k < |fields| && fields[k].Contains(p)
    ensures OwnerIn(a, fields, p) == Owner(a, fields[k], p)
  {
    var n := |fields| - 1;
    if k < n {
      assert !fields[k].Overlaps(fields[n]);
      OwnerInField(a, fields[..n], k, p);
    }
  }

  /** Bits inside a later sibling have no owner among the earlier ones. */
  lemma NoOwnerBefore(a: Access, fields: seq<Bitfield>, i: nat, p: nat)
    requires ValidTree(fields) && i < |fields| && fields[i].Contains(p)
    ensures OwnerIn(a, fields[..i], p) == None
  {
    forall b | b in fields[..i] ensures !b.Contains(p) {
      var k :| 0 <= k < i && fields[k] == b;
      assert !fields[k].Overlaps(fields[i]);
    }
    NobodyThere(a, fields[..i], p);
  }

  lemma OwnerInPrefix(a: Access, fields: seq<Bitfield>, i: nat, p: nat)
    requires ValidTree(fields) && i < |fields|
    ensures fields[i].Contains(p) ==> OwnerIn(a, fields[..i], p) == None
    ensures OwnerIn(a, fields[..i + 1], p) ==
            if fields[i].Contains(p) then Owner(a, fields[i], p) else OwnerIn(a, fields[..i], p)
  {
    assert fields[..i + 1][..i] == fields[..i];
    if fields[i].Contains(p) {
      NoOwnerBefore(a, fields, i, p);
    }
  }

  lemma ChildrenInside(a: Access, b: Bitfield, p: nat)
    requires ValidField(b) && !b.Contains(p)
    ensures OwnerIn(a, b.children, p) == None
  {
    NobodyThere(a, b.children, p);
  }

  lemma {:induction false} OwnerIsInTree(a: Access, fields: seq<Bitfield>, p: nat)
    requires OwnerIn(a, fields, p).Some?
    ensures InTree(OwnerIn(a, fields, p).value, fields)
  {
    var last := fields[|fields| - 1];
    if last.Contains(p) {
      if OwnerIn(a, last.children, p).Some? {
        OwnerIsInTree(a, last.children, p);
      }
      assert last in fields;
    } else {
      OwnerIsInTree(a, fields[..|fields| - 1], p);
      var o := OwnerIn(a, fields, p).value;
      var b :| b in fields[..|fields| - 1] && (o == b || InTree(o, b.children));
      assert b in fields;
    }
  }

  /** The owner is the innermost: whatever bitfield around the bit has a callback of its own is the owner or lies
      around the owner. */
  lemma {:induction false} OwnerIsInnermost(a: Access, fields: seq<Bitfield>, p: nat, g: Bitfield)
    requires ValidTree(fields) && InTree(g, fields) && g.Handles(a) && g.Contains(p)
    ensures OwnerIn(a, fields, p).Some?
    ensures var o := OwnerIn(a, fields, p).value; o == g || InTree(o, g.children)
  {
    var b :| b in fields && (g == b || InTree(g, b.children));
    var k :| 0 <= k < |fields| && fields[k] == b;
    if g == b {
      OwnerInField(a, fields, k, p);
      if OwnerIn(a, b.children, p).Some? {
        OwnerIsInTree(a, b.children, p);
      }
    } else {
      InTreeInside(g, b);
      OwnerInField(a, fields, k, p);
      OwnerIsInnermost(a, b.children, p, g);
    }
  }

  lemma {:induction false} InTreeInside(g: Bitfield, b: Bitfield)
    requires ValidField(b) && InTree(g, b.children)
    ensures g.Inside(b)
  {
    var c :| c in b.children && (g == c || InTree(g, c.children));
    if g != c {
      InTreeInside(g, c);
    }
  }

  /** Who takes part in a read: a bitfield with a read callback that has the bit, and of all such the innermost. */
  lemma {:induction false} ReadOwner(fields: seq<Bitfield>, p: nat)
    requires ValidTree(fields)
    ensures var o := OwnerIn(ReadAccess, fields, p);
            && (o.Some? ==> InTree(o.value, fields) && o.value.handlesRead
                            && o.value.offset <= p < o.value.offset + o.value.size)
            && forall g :: InTree(g, fields) && g.handlesRead && g.offset <= p < g.offset + g.size ==>
                             o.Some? && (o.value == g || InTree(o.value, g.children))
  {
    if OwnerIn(ReadAccess, fields, p).Some? { OwnerIsInTree(ReadAccess, fields, p); }
    forall g | InTree(g, fields) && g.handlesRead && g.offset <= p < g.offset + g.size
      ensures var o := OwnerIn(ReadAccess, fields, p); o.Some? && (o.value == g || InTree(o.value, g.children))
    {
      OwnerIsInnermost(ReadAccess, fields, p, g);
    }
  }

  /** The same for a write, with the write callbacks. */
  lemma {:induction false} WriteOwner(fields: seq<Bitfield>, p: nat)
    requires ValidTree(fields)
    ensures var o := OwnerIn(WriteAccess, fields, p);
            && (o.Some? ==> InTree(o.value, fields) && o.value.handlesWrite
                            && o.value.offset <= p < o.value.offset + o.value.size)
            && forall g :: InTree(g, fields) && g.handlesWrite && g.offset <= p < g.offset + g.size ==>
                             o.Some? && (o.value == g || InTree(o.value, g.children))
  {
    if OwnerIn(WriteAccess, fields, p).Some? { OwnerIsInTree(WriteAccess, fields, p); }
    forall g | InTree(g, fields) && g.handlesWrite && g.offset <= p < g.offset + g.size
      ensures var o := OwnerIn(WriteAccess, fields, p); o.Some? && (o.value == g || InTree(o.value, g.children))
    {
      OwnerIsInnermost(WriteAccess, fields, p, g);
    }
  }

  predicate HasBit(b: Bitfield, p: nat) {
    b.offset <= p < b.offset + b.size
  }

  /** Two bitfields overlap exactly when they share a bit; so adjacent ones do not. */
  lemma {:induction false} OverlapIsSharing(a: Bitfield, b: Bitfield)
    requires 0 < a.size && 0 < b.size
    ensures a.Overlaps(b) <==> exists p: nat :: HasBit(a, p) && HasBit(b, p)
  {
    var p := if a.offset < b.offset then b.offset else a.offset;
    assert a.Overlaps(b) ==> HasBit(a, p) && HasBit(b, p);
  }

  /** One lies inside another exactly when it has none but bits of the other. */
  lemma {:induction false} InsideIsContainment(a: Bitfield, b: Bitfield)
    requires 0 < a.size
    ensures a.Inside(b) <==> forall p: nat :: HasBit(a, p) ==> HasBit(b, p)
  {
    assert HasBit(a, a.offset) && HasBit(a, a.offset + a.size - 1);
  }

  // ----- building a tree -----

  /** The children of a register or bitfield, as they are registered. */
  class BitfieldContainer {
    var mBitfields: seq<Bitfield>

    constructor ()
      ensures mBitfields == []
    {
      mBitfields := [];
    }

    /** Adds a bitfield in any case; reports the siblings that it overlaps. */
    method RegisterBitfield(b: Bitfield) returns (overlapped: seq<Bitfield>)
      modifies this
      ensures mBitfields == old(mBitfields) + [b]
      ensures forall c :: c in overlapped <==> c in old(mBitfields) && c.Overlaps(b)
      ensures old(ValidTree(mBitfields)) && ValidField(b) ==> (overlapped == [] <==> ValidTree(mBitfields))
    {
      overlapped := [];
      for i := 0 to |mBitfields|
        invariant mBitfields == old(mBitfields)
        invariant forall c :: c in overlapped <==> c in mBitfields[..i] && c.Overlaps(b)
      {
        if mBitfields[i].Overlaps(b) {
          overlapped := overlapped + [mBitfields[i]];
        }
      }
      assert mBitfields[..|mBitfields|] == mBitfields;
      mBitfields := mBitfields + [b];
      ghost var n := |old(mBitfields)|;
      if overlapped != [] {
        assert overlapped[0] in old(mBitfields);
        ghost var k :| 0 <= k < n && old(mBitfields)[k] == overlapped[0];
        assert mBitfields[k].Overlaps(mBitfields[n]);
      }
    }
  }

  /** Registers a child of parent: also reports a child that reaches beyond its parent. */
  method RegisterChild(parent: Bitfield, container: BitfieldContainer, relativeOffset: nat, b: Bitfield)
    returns (reported: bool, child: Bitfield)
    requires ValidField(b.(offset := parent.offset + relativeOffset))
    requires ValidField(parent.(children := container.mBitfields))
    modifies container
    ensures child == b.(offset := parent.offset + relativeOffset) && container.mBitfields == old(container.mBitfields) + [child]
    ensures !reported <==> ValidField(parent.(children := container.mBitfields))
  {
    child := b.(offset := parent.offset + relativeOffset);
    var outside := child.offset + child.size > parent.offset + parent.size;
    var overlapped := container.RegisterBitfield(child);
    reported := outside || overlapped != [];
    ghost var after := container.mBitfields;
    assert after[|after| - 1] == child && child in after;
    assert forall c | c in after :: c in old(container.mBitfields) || c == child;
  }
}
