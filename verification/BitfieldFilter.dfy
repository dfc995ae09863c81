/**
 Access restrictions on bitfields.  Filter walks the tree from the outside in; each
 restriction may clear enable bits and supply data for the bits that it disables.

 Bit by bit, the walk is proved to pass the bit through the restrictions of the
 bitfields around it, outermost first.  With restrictions that only clear enable bits
 it follows that a data bit changes only if it was enabled before and is disabled
 after, and that the change comes from the outermost bitfield that disabled it.
 */
module BitfieldFilter {
  import opened BitfieldTrees
  import opened Words

  /** One restriction at work: data and enable mask of the whole register, before and after.  `supplied` is what the
      restriction left in the bitfield's own data. */
  datatype Pass = Pass(field: Bitfield, dataIn: Word, maskIn: Word, dataOut: Word, maskOut: Word, supplied: Word)

  datatype Reply = Reply(data: Word, mask: Word, error: bool)

  /** What a bitfield's restriction makes of the bitfield's data and mask. */
  type Restriction = (Bitfield, Word, Word) -> Reply

  ghost predicate ValidRestriction(restrict: Restriction) {
    forall b, data, mask :: |data| == |mask| ==>
                              |restrict(b, data, mask).data| == |data| && |restrict(b, data, mask).mask| == |mask|
  }

  /** The restriction never sets an enable bit. */
  ghost predicate Narrows(restrict: Restriction) {
    forall b, data, mask, i :: |data| == |mask| && 0 <= i < |restrict(b, data, mask).mask| && i < |mask| ==>
                                 restrict(b, data, mask).mask[i] ==> mask[i]
  }

  /** The restricted bitfields around bit p, outermost first. */
  function Restricting(a: Access, fields: seq<Bitfield>, p: nat): seq<Bitfield> {
    if fields == [] then []
    else
      var last := fields[|fields| - 1];
      if last.Contains(p) then RestrictingIn(a, last, p) else Restricting(a, fields[..|fields| - 1], p)
  }

  function RestrictingIn(a: Access, b: Bitfield, p: nat): seq<Bitfield> {
    (if b.Restricts(a) then [b] else []) + Restricting(a, b.children, p)
  }

  function RestrictingAt(a: Access, b: Bitfield, p: nat): seq<Bitfield> {
    if b.Contains(p) then RestrictingIn(a, b, p) else []
  }

  /** The passes by bitfields around bit p. */
  ghost function Around(passes: seq<Pass>, p: nat): seq<Pass> {
    if passes == [] then []
    else (if passes[0].field.Contains(p) then [passes[0]] else []) + Around(passes[1..], p)
  }

  lemma {:induction false} AroundConcat(a: seq<Pass>, b: seq<Pass>, p: nat)
    ensures Around(a + b, p) == Around(a, p) + Around(b, p)
  {
    if a == [] {
      assert a + b == b;
    } else {
      AroundConcat(a[1..], b, p);
      assert (a + b)[1..] == a[1..] + b;
      var head := if a[0].field.Contains(p) then [a[0]] else [];
      assert Around(a + b, p) == head + (Around(a[1..], p) + Around(b, p)) == head + Around(a[1..], p) + Around(b, p);
    }
  }

  function Fields(passes: seq<Pass>): seq<Bitfield> {
    seq(|passes|, i requires 0 <= i < |passes| => passes[i].field)
  }

  /** Enable e0 and data d0 of bit p become e1 and d1 by passing through the restrictions one after the other. */
  ghost predicate Through(passes: seq<Pass>, p: nat, e0: bool, d0: bool, e1: bool, d1: bool) {
    if passes == [] then e1 == e0 && d1 == d0
    else
      var c := passes[0];
      && PassBit(c, p) && c.maskIn[p] == e0 && c.dataIn[p] == d0
      && Through(passes[1..], p, c.maskOut[p], c.dataOut[p], e1, d1)
  }

  /** A restriction replaces a data bit exactly when it disables it. */
  ghost predicate PassBit(c: Pass, p: nat) {
    && p < |c.dataIn| == |c.maskIn| == |c.dataOut| == |c.maskOut| == |c.supplied|
    && c.field.Contains(p)
    && c.dataOut[p] == if c.maskIn[p] && !c.maskOut[p] then c.supplied[p - c.field.offset] else c.dataIn[p]
  }

  lemma {:induction false} ThroughConcat(a: seq<Pass>, b: seq<Pass>, p: nat,
                                         e0: bool, d0: bool, e1: bool, d1: bool, e2: bool, d2: bool)
    requires Through(a, p, e0, d0, e1, d1) && Through(b, p, e1, d1, e2, d2)
    ensures Through(a + b, p, e0, d0, e2, d2)
  {
    if a == [] {
      assert a + b == b;
    } else {
      ThroughConcat(a[1..], b, p, a[0].maskOut[p], a[0].dataOut[p], e1, d1, e2, d2);
      assert (a + b)[1..] == a[1..] + b;
    }
  }

  /** What a walk promises at bit p, given the restricted bitfields around it: it passes through a first part of them,
      and through all of them if the walk did not fail and the bit is enabled to the end. */
  ghost predicate FilteredBit(path: seq<Bitfield>, around: seq<Pass>, p: nat,
                              e0: bool, d0: bool, e1: bool, d1: bool, error: bool, narrow: bool)
  {
    && Fields(around) <= path
    && Through(around, p, e0, d0, e1, d1)
    && (e1 && !error ==> |around| == |path|)
    && (narrow ==> (e1 ==> e0) && NarrowPasses(around, p))
  }

  ghost predicate NarrowPasses(passes: seq<Pass>, p: nat) {
    forall c | c in passes :: p < |c.maskIn| == |c.maskOut| && (c.maskOut[p] ==> c.maskIn[p])
  }

  /** All bits of a walk over these siblings. */
  ghost predicate Filtered(a: Access, fields: seq<Bitfield>, passes: seq<Pass>, data: Word, mask: Word,
                           data': Word, mask': Word, error: bool, narrow: bool)
  {
    && |data| == |mask| == |data'| == |mask'|
    && forall p: nat :: p < |data| ==>
         FilteredBit(Restricting(a, fields, p), Around(passes, p), p, mask[p], data[p], mask'[p], data'[p], error, narrow)
  }

  ghost predicate FilteredField(a: Access, b: Bitfield, passes: seq<Pass>, data: Word, mask: Word,
                                data': Word, mask': Word, error: bool, narrow: bool)
  {
    && |data| == |mask| == |data'| == |mask'|
    && forall p: nat :: p < |data| ==>
         FilteredBit(RestrictingAt(a, b, p), Around(passes, p), p, mask[p], data[p], mask'[p], data'[p], error, narrow)
  }

  // ----- the walk -----

  /** What the restriction of the pass's bitfield makes of the bits it is shown. */
  function ReplyTo(restrict: Restriction, c: Pass): Reply
    requires |c.dataIn| == |c.maskIn|
  {
    restrict(c.field, ExtractBits(c.dataIn, c.field.size, c.field.offset), ExtractBits(c.maskIn, c.field.size, c.field.offset))
  }

  /** Some bit of the bitfield is enabled. */
  ghost predicate AnyEnabled(b: Bitfield, mask: Word) {
    exists p: nat :: p < |mask| && b.Contains(p) && mask[p]
  }

  /** The restriction is asked about a bitfield with an enabled bit, and the pass is what its reply makes of data and mask (MergedBit says what that is, bit by bit). */
  ghost predicate Obeys(restrict: Restriction, c: Pass) {
    && AnyEnabled(c.field, c.maskIn)
    && |c.dataIn| == |c.maskIn| == |ReplyTo(restrict, c).data| == |ReplyTo(restrict, c).mask|
    && c == Merge(c.field, c.dataIn, c.maskIn, ReplyTo(restrict, c))
  }

  ghost predicate AllObey(restrict: Restriction, passes: seq<Pass>) {
    forall c | c in passes :: Obeys(restrict, c)
  }

  /** Every pass obeys its restriction, and the walk ends with an error exactly at the first one that reports it. */
  ghost predicate ObeyAll(restrict: Restriction, passes: seq<Pass>, error: bool) {
    AllObey(restrict, passes) && EndsWith(restrict, passes, error)
  }

  ghost predicate EndsWith(restrict: Restriction, passes: seq<Pass>, error: bool) {
    if error then passes != [] && Errs(restrict, passes[|passes| - 1]) && NoErrors(restrict, passes[..|passes| - 1])
    else NoErrors(restrict, passes)
  }

  ghost predicate Errs(restrict: Restriction, c: Pass) {
    |c.dataIn| == |c.maskIn| && ReplyTo(restrict, c).error
  }

  ghost predicate NoErrors(restrict: Restriction, passes: seq<Pass>) {
    forall c | c in passes :: !Errs(restrict, c)
  }

  lemma EndsConcat(restrict: Restriction, passes: seq<Pass>, more: seq<Pass>, error: bool)
    requires EndsWith(restrict, passes, false) && EndsWith(restrict, more, error)
    ensures EndsWith(restrict, passes + more, error)
  {
    if error {
      assert (passes + more)[..|passes + more| - 1] == passes + more[..|more| - 1];
    }
  }

  lemma ObeyConcat(restrict: Restriction, passes: seq<Pass>, more: seq<Pass>, error: bool)
    requires ObeyAll(restrict, passes, false) && ObeyAll(restrict, more, error)
    ensures ObeyAll(restrict, passes + more, error)
  {
    EndsConcat(restrict, passes, more, error);
  }

  lemma EndsOne(restrict: Restriction, own: Pass)
    ensures EndsWith(restrict, [own], Errs(restrict, own))
  {
    assert [own][..0] == [];
  }

  lemma ObeyOne(restrict: Restriction, own: Pass)
    requires Obeys(restrict, own)
    ensures ObeyAll(restrict, [own], Errs(restrict, own))
  {
    EndsOne(restrict, own);
  }

  /** The bit passes through all restrictions around it, or the next one was not asked: its bitfield has no enabled bit. */
  ghost predicate AskedBit(path: seq<Bitfield>, around: seq<Pass>, mask: Word) {
    |around| < |path| ==> !AnyEnabled(path[|around|], mask)
  }

  ghost predicate Asked(a: Access, fields: seq<Bitfield>, passes: seq<Pass>, mask: Word) {
    forall p: nat :: p < |mask| ==> AskedBit(Restricting(a, fields, p), Around(passes, p), mask)
  }

  ghost predicate AskedField(a: Access, b: Bitfield, passes: seq<Pass>, mask: Word) {
    forall p: nat :: p < |mask| ==> AskedBit(RestrictingAt(a, b, p), Around(passes, p), mask)
  }

  method Filter(a: Access, fields: seq<Bitfield>, data: Word, bitMask: Word, restrict: Restriction)
    returns (error: bool, data': Word, bitMask': Word, passes: seq<Pass>)
    requires ValidTree(fields) && |data| == |bitMask| && ValidRestriction(restrict)
    ensures Filtered(a, fields, passes, data, bitMask, data', bitMask', error, Narrows(restrict))
    ensures ObeyAll(restrict, passes, error) && (!error ==> Asked(a, fields, passes, bitMask'))
    decreases fields, 1
  {
    data', bitMask', passes := data, bitMask, [];
    assert fields[..0] == [];
    for i := 0 to |fields|
      invariant Filtered(a, fields[..i], passes, data, bitMask, data', bitMask', false, Narrows(restrict))
      invariant ObeyAll(restrict, passes, false) && Asked(a, fields[..i], passes, bitMask')
    {
      var d, m, more;
      error, d, m, more := FilterField(a, fields[i], data', bitMask', restrict);
      NextSibling(a, fields, i, passes, more, data, bitMask, data', bitMask', d, m, error, Narrows(restrict));
      ObeyConcat(restrict, passes, more, error);
      if !error { AskedNext(a, fields, i, passes, more, data', bitMask', d, m, Narrows(restrict)); }
      data', bitMask', passes := d, m, passes + more;
      if error {
        return;
      }
    }
    assert fields[..|fields|] == fields;
    error := false;
  }

  method FilterField(a: Access, b: Bitfield, data: Word, bitMask: Word, restrict: Restriction)
    returns (error: bool, data': Word, bitMask': Word, passes: seq<Pass>)
    requires ValidField(b) && |data| == |bitMask| && ValidRestriction(restrict)
    ensures FilteredField(a, b, passes, data, bitMask, data', bitMask', error, Narrows(restrict))
    ensures ObeyAll(restrict, passes, error) && (!error ==> AskedField(a, b, passes, bitMask'))
    decreases b, 0
  {
    var bfBitMask := ExtractBits(bitMask, b.size, b.offset);
    error, data', bitMask', passes := false, data, bitMask, [];
    if exists i :: 0 <= i < |bfBitMask| && bfBitMask[i] {
      ghost var i :| 0 <= i < |bfBitMask| && bfBitMask[i];
      assert b.Contains(b.offset + i) && bitMask[b.offset + i];
      if b.Restricts(a) {
        var own;
        error, own := RestrictOwn(b, data, bitMask, restrict);
        ObeyOne(restrict, own);
        data', bitMask', passes := own.dataOut, own.maskOut, [own];
        if error {
          OwnOnly(a, b, own, Narrows(restrict));
          return;
        }
        var d, m, more;
        error, d, m, more := Filter(a, b.children, data', bitMask', restrict);
        OwnThenChildren(a, b, own, more, d, m, error, Narrows(restrict));
        ObeyConcat(restrict, [own], more, error);
        if !error { AskedOwn(a, b, own, more, m); }
        data', bitMask', passes := d, m, [own] + more;
      } else {
        error, data', bitMask', passes := Filter(a, b.children, data, bitMask, restrict);
        JustChildren(a, b, passes, data, bitMask, data', bitMask', error, Narrows(restrict));
        if !error { AskedChildren(a, b, passes, bitMask'); }
      }
    } else {
      assert forall p: nat :: p < |data| && b.Contains(p) ==> !bitMask[p] by {
        forall p: nat | p < |data| && b.Contains(p) ensures !bitMask[p] {
          assert !bfBitMask[p - b.offset];
        }
      }
      NotAsked(a, b, bitMask);
    }
  }

  /** What a bitfield's own restriction does to each bit. */
  ghost predicate OwnPass(b: Bitfield, own: Pass, narrow: bool) {
    && own.field == b && |own.dataIn| == |own.maskIn| == |own.dataOut| == |own.maskOut| == |own.supplied|
    && (forall p: nat :: p < |own.dataIn| && b.Contains(p) ==> PassBit(own, p))
    && (forall p: nat :: p < |own.dataIn| && !b.Contains(p) ==>
                           own.dataOut[p] == own.dataIn[p] && own.maskOut[p] == own.maskIn[p])
    && (narrow ==> forall p: nat :: p < |own.dataIn| && own.maskOut[p] ==> own.maskIn[p])
  }

  /** Data bits are taken from the restriction's reply where it cleared the enable, enables from the reply throughout. */
  function Merge(b: Bitfield, data: Word, bitMask: Word, reply: Reply): Pass
    requires |data| == |bitMask| == |reply.data| == |reply.mask|
  {
    var origData := ExtractBits(data, b.size, b.offset);
    var changed := And(ExtractBits(bitMask, b.size, b.offset), Not(reply.mask));
    var bfData := Or(And(origData, Not(changed)), And(reply.data, changed));
    Pass(b, data, bitMask,
         InsertBits(data, bfData, b.size, b.offset), InsertBits(bitMask, reply.mask, b.size, b.offset), reply.data)
  }

  lemma MergedBit(b: Bitfield, data: Word, bitMask: Word, reply: Reply, p: nat)
    requires p < |data| == |bitMask| == |reply.data| == |reply.mask|
    ensures var own := Merge(b, data, bitMask, reply);
            && (b.Contains(p) ==> PassBit(own, p) && own.maskOut[p] == reply.mask[p - b.offset])
            && (!b.Contains(p) ==> own.dataOut[p] == data[p] && own.maskOut[p] == bitMask[p])
  {
  }

  /** The bitfield's own restriction. */
  method RestrictOwn(b: Bitfield, data: Word, bitMask: Word, restrict: Restriction) returns (error: bool, own: Pass)
    requires |data| == |bitMask| && ValidRestriction(restrict) && AnyEnabled(b, bitMask)
    ensures own.dataIn == data && own.maskIn == bitMask && OwnPass(b, own, Narrows(restrict))
    ensures Obeys(restrict, own) && error == Errs(restrict, own)
  {
    var reply := restrict(b, ExtractBits(data, b.size, b.offset), ExtractBits(bitMask, b.size, b.offset));
    error := reply.error;
    own := Merge(b, data, bitMask, reply);
    MergeIsOwnPass(b, data, bitMask, reply, Narrows(restrict));
  }

  lemma NarrowedBit(b: Bitfield, data: Word, bitMask: Word, reply: Reply, p: nat)
    requires p < |data| == |bitMask| == |reply.data| == |reply.mask|
    requires NarrowReply(reply, ExtractBits(bitMask, b.size, b.offset))
    ensures Merge(b, data, bitMask, reply).maskOut[p] ==> bitMask[p]
  {
    MergedBit(b, data, bitMask, reply, p);
    if b.Contains(p) && reply.mask[p - b.offset] {
      assert ExtractBits(bitMask, b.size, b.offset)[p - b.offset];
    }
  }

  ghost predicate NarrowReply(reply: Reply, mask: Word) {
    forall i :: 0 <= i < |reply.mask| && i < |mask| && reply.mask[i] ==> mask[i]
  }

  lemma MergeIsOwnPass(b: Bitfield, data: Word, bitMask: Word, reply: Reply, narrow: bool)
    requires |data| == |bitMask| == |reply.data| == |reply.mask|
    requires narrow ==> NarrowReply(reply, ExtractBits(bitMask, b.size, b.offset))
    ensures OwnPass(b, Merge(b, data, bitMask, reply), narrow)
  {
    var own := Merge(b, data, bitMask, reply);
    forall p: nat | p < |data|
      ensures b.Contains(p) ==> PassBit(own, p)
      ensures !b.Contains(p) ==> own.dataOut[p] == data[p] && own.maskOut[p] == bitMask[p]
    {
      MergedBit(b, data, bitMask, reply, p);
    }
    if narrow {
      forall p: nat | p < |data| ensures own.maskOut[p] ==> bitMask[p] {
        NarrowedBit(b, data, bitMask, reply, p);
      }
    }
  }

  // ----- why the walk keeps its promise -----

  lemma {:induction false} NoRestrictionThere(a: Access, fields: seq<Bitfield>, p: nat)
    requires forall b | b in fields :: !b.Contains(p)
    ensures Restricting(a, fields, p) == []
  {
    if fields != [] {
      NoRestrictionThere(a, fields[..|fields| - 1], p);
    }
  }

  lemma RestrictingPrefix(a: Access, fields: seq<Bitfield>, i: nat, p: nat)
    requires ValidTree(fields) && i < |fields|
    ensures Restricting(a, fields[..i + 1], p) == Restricting(a, fields[..i], p) + RestrictingAt(a, fields[i], p)
    ensures fields[i].Contains(p) ==> Restricting(a, fields[..i], p) == []
  {
    assert fields[..i + 1][..i] == fields[..i];
    if fields[i].Contains(p) {
      forall b | b in fields[..i] ensures !b.Contains(p) {
        var k :| 0 <= k < i && fields[k] == b;
        assert !fields[k].Overlaps(fields[i]);
      }
      NoRestrictionThere(a, fields[..i], p);
    }
  }

  /** The restricted bitfields around p among some of the siblings come first among those of all siblings. */
  lemma {:induction false} RestrictingMore(a: Access, fields: seq<Bitfield>, i: nat, p: nat)
    requires ValidTree(fields) && i <= |fields|
    ensures Restricting(a, fields[..i], p) <= Restricting(a, fields, p)
    decreases |fields|
  {
    var n := |fields| - 1;
    if i < |fields| {
      RestrictingMore(a, fields[..n], i, p);
      assert fields[..n][..i] == fields[..i];
      RestrictingPrefix(a, fields, n, p);
      assert fields[..n + 1] == fields;
    } else {
      assert fields[..i] == fields;
    }
  }

  /** Two walks one after the other, the first of which ran through its whole path, or the second has none. */
  lemma JoinBit(path1: seq<Bitfield>, path2: seq<Bitfield>, around1: seq<Pass>, around2: seq<Pass>, p: nat,
                e0: bool, d0: bool, e1: bool, d1: bool, e2: bool, d2: bool, error: bool, narrow: bool)
    requires FilteredBit(path1, around1, p, e0, d0, e1, d1, false, narrow)
    requires FilteredBit(path2, around2, p, e1, d1, e2, d2, error, narrow)
    requires path2 == [] || |around1| == |path1|
    ensures FilteredBit(path1 + path2, around1 + around2, p, e0, d0, e2, d2, error, narrow)
  {
    ThroughConcat(around1, around2, p, e0, d0, e1, d1, e2, d2);
    assert Fields(around1 + around2) == Fields(around1) + Fields(around2);
  }

  lemma WidenBit(path: seq<Bitfield>, wider: seq<Bitfield>, around: seq<Pass>, p: nat,
                 e0: bool, d0: bool, e1: bool, d1: bool, narrow: bool)
    requires FilteredBit(path, around, p, e0, d0, e1, d1, true, narrow) && path <= wider
    ensures FilteredBit(wider, around, p, e0, d0, e1, d1, true, narrow)
  {
  }

  lemma NextSibling(a: Access, fields: seq<Bitfield>, i: nat, passes: seq<Pass>, more: seq<Pass>,
                    d0: Word, m0: Word, d1: Word, m1: Word, d2: Word, m2: Word, error: bool, narrow: bool)
    requires ValidTree(fields) && i < |fields|
    requires Filtered(a, fields[..i], passes, d0, m0, d1, m1, false, narrow)
    requires FilteredField(a, fields[i], more, d1, m1, d2, m2, error, narrow)
    ensures Filtered(a, if error then fields else fields[..i + 1], passes + more, d0, m0, d2, m2, error, narrow)
  {
    var upTo := if error then fields else fields[..i + 1];
    forall p: nat | p < |d0|
      ensures FilteredBit(Restricting(a, upTo, p), Around(passes + more, p), p, m0[p], d0[p], m2[p], d2[p], error, narrow)
    {
      AroundConcat(passes, more, p);
      RestrictingPrefix(a, fields, i, p);
      RestrictingMore(a, fields, i + 1, p);
      JoinBit(Restricting(a, fields[..i], p), RestrictingAt(a, fields[i], p), Around(passes, p), Around(more, p), p,
              m0[p], d0[p], m1[p], d1[p], m2[p], d2[p], error, narrow);
      if error {
        WidenBit(Restricting(a, fields[..i + 1], p), Restricting(a, fields, p), Around(passes + more, p), p,
                 m0[p], d0[p], m2[p], d2[p], narrow);
      }
    }
  }

  /** Bit p after the bitfield's own restriction. */
  lemma OwnBit(b: Bitfield, own: Pass, p: nat, error: bool, narrow: bool)
    requires own.field == b && p < |own.dataIn| == |own.maskIn| == |own.dataOut| == |own.maskOut| == |own.supplied|
    requires b.Contains(p) ==> PassBit(own, p)
    requires !b.Contains(p) ==> own.dataOut[p] == own.dataIn[p] && own.maskOut[p] == own.maskIn[p]
    requires narrow && own.maskOut[p] ==> own.maskIn[p]
    ensures Around([own], p) == if b.Contains(p) then [own] else []
    ensures FilteredBit(if b.Contains(p) then [b] else [], Around([own], p), p,
                        own.maskIn[p], own.dataIn[p], own.maskOut[p], own.dataOut[p], error, narrow)
  {
  }

  /** The bitfield's own restriction failed: the walk ends there. */
  lemma OwnOnly(a: Access, b: Bitfield, own: Pass, narrow: bool)
    requires b.Restricts(a) && OwnPass(b, own, narrow)
    ensures FilteredField(a, b, [own], own.dataIn, own.maskIn, own.dataOut, own.maskOut, true, narrow)
  {
    forall p: nat | p < |own.dataIn|
      ensures FilteredBit(RestrictingAt(a, b, p), Around([own], p), p,
                          own.maskIn[p], own.dataIn[p], own.maskOut[p], own.dataOut[p], true, narrow)
    {
      OwnBit(b, own, p, true, narrow);
      WidenBit(if b.Contains(p) then [b] else [], RestrictingAt(a, b, p), Around([own], p), p,
               own.maskIn[p], own.dataIn[p], own.maskOut[p], own.dataOut[p], narrow);
    }
  }

  lemma OwnThenChildren(a: Access, b: Bitfield, own: Pass, more: seq<Pass>, d: Word, m: Word, error: bool, narrow: bool)
    requires ValidField(b) && b.Restricts(a) && OwnPass(b, own, narrow)
    requires Filtered(a, b.children, more, own.dataOut, own.maskOut, d, m, error, narrow)
    ensures FilteredField(a, b, [own] + more, own.dataIn, own.maskIn, d, m, error, narrow)
  {
    forall p: nat | p < |own.dataIn|
      ensures FilteredBit(RestrictingAt(a, b, p), Around([own] + more, p), p,
                          own.maskIn[p], own.dataIn[p], m[p], d[p], error, narrow)
    {
      OwnBit(b, own, p, false, narrow);
      AroundConcat([own], more, p);
      if !b.Contains(p) {
        NoRestrictionThere(a, b.children, p);
      }
      var first := if b.Contains(p) then [b] else [];
      JoinBit(first, Restricting(a, b.children, p), Around([own], p), Around(more, p), p,
              own.maskIn[p], own.dataIn[p], own.maskOut[p], own.dataOut[p], m[p], d[p], error, narrow);
      assert RestrictingAt(a, b, p) == first + Restricting(a, b.children, p);
    }
  }

  lemma JustChildren(a: Access, b: Bitfield, passes: seq<Pass>, d0: Word, m0: Word, d: Word, m: Word,
                     error: bool, narrow: bool)
    requires ValidField(b) && !b.Restricts(a)
    requires Filtered(a, b.children, passes, d0, m0, d, m, error, narrow)
    ensures FilteredField(a, b, passes, d0, m0, d, m, error, narrow)
  {
    forall p: nat | p < |d0|
      ensures FilteredBit(RestrictingAt(a, b, p), Around(passes, p), p, m0[p], d0[p], m[p], d[p], error, narrow)
    {
      if !b.Contains(p) {
        NoRestrictionThere(a, b.children, p);
      }
      assert RestrictingAt(a, b, p) == Restricting(a, b.children, p);
    }
  }

  lemma {:induction false} InsideSibling(a: Access, fields: seq<Bitfield>, p: nat, l: nat) returns (k: nat)
    requires ValidTree(fields) && l < |Restricting(a, fields, p)|
    ensures k < |fields| && fields[k].Contains(p) && Restricting(a, fields, p)[l].Inside(fields[k])
    decreases fields
  {
    var n := |fields| - 1;
    if fields[n].Contains(p) {
      k := n;
      InsideField(a, fields[n], p, l);
    } else {
      assert forall b | b in fields[..n] :: b in fields;
      k := InsideSibling(a, fields[..n], p, l);
    }
  }

  lemma {:induction false} InsideField(a: Access, b: Bitfield, p: nat, l: nat)
    requires ValidField(b) && l < |RestrictingAt(a, b, p)|
    ensures RestrictingAt(a, b, p)[l].Inside(b)
    decreases b
  {
    var own := if b.Restricts(a) then 1 else 0;
    if l >= own {
      var k := InsideSibling(a, b.children, p, l - own);
      assert b.children[k] in b.children;
    }
  }

  /** What happens in one sibling does not enable a bit of another. */
  lemma {:induction false} AskedNextBit(a: Access, fields: seq<Bitfield>, i: nat, passes: seq<Pass>, more: seq<Pass>,
                                        d1: Word, m1: Word, d2: Word, m2: Word, narrow: bool, p: nat)
    requires ValidTree(fields) && i < |fields| && p < |m2| && !fields[i].Contains(p)
    requires AskedBit(Restricting(a, fields[..i], p), Around(passes, p), m1)
    requires FilteredField(a, fields[i], more, d1, m1, d2, m2, false, narrow)
    ensures AskedBit(Restricting(a, fields[..i], p), Around(passes, p), m2)
  {
    var path, around := Restricting(a, fields[..i], p), Around(passes, p);
    if |around| < |path| {
      assert ValidTree(fields[..i]);
      var k := InsideSibling(a, fields[..i], p, |around|);
      assert fields[..i][k] == fields[k] && !fields[k].Overlaps(fields[i]);
      forall q: nat | q < |m2| && path[|around|].Contains(q) ensures !m2[q] {
        assert RestrictingAt(a, fields[i], q) == [];
        assert FilteredBit([], Around(more, q), q, m1[q], d1[q], m2[q], d2[q], false, narrow);
      }
    }
  }

  lemma {:induction false} AskedNext(a: Access, fields: seq<Bitfield>, i: nat, passes: seq<Pass>, more: seq<Pass>,
                                     d1: Word, m1: Word, d2: Word, m2: Word, narrow: bool)
    requires ValidTree(fields) && i < |fields|
    requires Asked(a, fields[..i], passes, m1) && AskedField(a, fields[i], more, m2)
    requires FilteredField(a, fields[i], more, d1, m1, d2, m2, false, narrow)
    requires forall p: nat :: p < |m1| ==> Fields(Around(passes, p)) <= Restricting(a, fields[..i], p)
    ensures Asked(a, fields[..i + 1], passes + more, m2)
  {
    forall p: nat | p < |m2|
      ensures AskedBit(Restricting(a, fields[..i + 1], p), Around(passes + more, p), m2)
    {
      AroundConcat(passes, more, p);
      RestrictingPrefix(a, fields, i, p);
      assert FilteredBit(RestrictingAt(a, fields[i], p), Around(more, p), p, m1[p], d1[p], m2[p], d2[p], false, narrow);
      if fields[i].Contains(p) {
        assert Fields(Around(passes, p)) <= [];
      } else {
        AskedNextBit(a, fields, i, passes, more, d1, m1, d2, m2, narrow, p);
        assert Around(more, p) == [] && Restricting(a, fields[..i + 1], p) == Restricting(a, fields[..i], p);
      }
    }
  }

  lemma {:induction false} AskedOwn(a: Access, b: Bitfield, own: Pass, more: seq<Pass>, mask: Word)
    requires b.Restricts(a) && own.field == b && Asked(a, b.children, more, mask)
    ensures AskedField(a, b, [own] + more, mask)
  {
    forall p: nat | p < |mask| ensures AskedBit(RestrictingAt(a, b, p), Around([own] + more, p), mask) {
      assert ([own] + more)[1..] == more;
      assert AskedBit(Restricting(a, b.children, p), Around(more, p), mask);
    }
  }

  lemma {:induction false} AskedChildren(a: Access, b: Bitfield, passes: seq<Pass>, mask: Word)
    requires !b.Restricts(a) && Asked(a, b.children, passes, mask)
    ensures AskedField(a, b, passes, mask)
  {
    forall p: nat | p < |mask| ensures AskedBit(RestrictingAt(a, b, p), Around(passes, p), mask) {
      assert AskedBit(Restricting(a, b.children, p), Around(passes, p), mask);
    }
  }

  lemma {:induction false} NotAsked(a: Access, b: Bitfield, mask: Word)
    requires ValidField(b) && !AnyEnabled(b, mask)
    ensures AskedField(a, b, [], mask)
  {
    forall p: nat | p < |mask| ensures AskedBit(RestrictingAt(a, b, p), [], mask) {
      if RestrictingAt(a, b, p) != [] {
        InsideField(a, b, p, 0);
      }
    }
  }

  // ----- what this means -----

  /** Each bitfield on the path lies around the next one. */
  lemma {:induction false} PathIsNested(a: Access, fields: seq<Bitfield>, p: nat, k: nat, l: nat)
    requires ValidTree(fields) && k < l < |Restricting(a, fields, p)|
    ensures InTree(Restricting(a, fields, p)[l], Restricting(a, fields, p)[k].children)
    decreases fields
  {
    var n := |fields| - 1;
    var last := fields[n];
    if last.Contains(p) {
      assert last in fields;
      var shift := if last.Restricts(a) then 1 else 0;
      if k >= shift {
        PathIsNested(a, last.children, p, k - shift, l - shift);
      } else {
        PathInTree(a, last.children, p, l - 1);
      }
    } else {
      assert forall b | b in fields[..n] :: b in fields;
      PathIsNested(a, fields[..n], p, k, l);
    }
  }

  lemma {:induction false} PathInTree(a: Access, fields: seq<Bitfield>, p: nat, l: nat)
    requires l < |Restricting(a, fields, p)|
    ensures InTree(Restricting(a, fields, p)[l], fields)
    decreases fields
  {
    var n := |fields| - 1;
    var last := fields[n];
    var f := Restricting(a, fields, p)[l];
    if last.Contains(p) {
      var shift := if last.Restricts(a) then 1 else 0;
      if l >= shift {
        PathInTree(a, last.children, p, l - shift);
      }
      assert last in fields;
    } else {
      PathInTree(a, fields[..n], p, l);
      var b :| b in fields[..n] && (f == b || InTree(f, b.children));
      assert b in fields;
    }
  }

  /** Every restricted bitfield around the bit is on its path. */
  lemma {:induction false} PathHasAll(a: Access, fields: seq<Bitfield>, p: nat, g: Bitfield)
    requires ValidTree(fields) && InTree(g, fields) && g.Restricts(a) && g.Contains(p)
    ensures g in Restricting(a, fields, p)
    decreases fields
  {
    var n := |fields| - 1;
    var last := fields[n];
    var b :| b in fields && (g == b || InTree(g, b.children));
    if g != b { InTreeInside(g, b); }
    if last.Contains(p) {
      var k :| 0 <= k < |fields| && fields[k] == b;
      assert k < n ==> !fields[k].Overlaps(last);
      if g != b { PathHasAll(a, last.children, p, g); }
    } else {
      assert b in fields[..n];
      PathHasAll(a, fields[..n], p, g);
    }
  }

  /** And nothing else is. */
  lemma {:induction false} PathRestricts(a: Access, fields: seq<Bitfield>, p: nat, l: nat)
    requires l < |Restricting(a, fields, p)|
    ensures Restricting(a, fields, p)[l].Restricts(a) && Restricting(a, fields, p)[l].Contains(p)
    decreases fields
  {
    var last := fields[|fields| - 1];
    if last.Contains(p) {
      var shift := if last.Restricts(a) then 1 else 0;
      if l >= shift { PathRestricts(a, last.children, p, l - shift); }
    } else {
      PathRestricts(a, fields[..|fields| - 1], p, l);
    }
  }

  /** On a read the restrictions around a bit are those of the bitfields with a read restriction that have the bit; on a
      write those with a write restriction. */
  lemma {:induction false} PathIsExact(fields: seq<Bitfield>, p: nat, g: Bitfield)
    requires ValidTree(fields) && InTree(g, fields)
    ensures g in Restricting(ReadAccess, fields, p) <==> g.restrictsRead && g.offset <= p < g.offset + g.size
    ensures g in Restricting(WriteAccess, fields, p) <==> g.restrictsWrite && g.offset <= p < g.offset + g.size
  {
    if g in Restricting(ReadAccess, fields, p) {
      var l :| 0 <= l < |Restricting(ReadAccess, fields, p)| && Restricting(ReadAccess, fields, p)[l] == g;
      PathRestricts(ReadAccess, fields, p, l);
    } else if g.restrictsRead && g.Contains(p) {
      PathHasAll(ReadAccess, fields, p, g);
    }
    if g in Restricting(WriteAccess, fields, p) {
      var l :| 0 <= l < |Restricting(WriteAccess, fields, p)| && Restricting(WriteAccess, fields, p)[l] == g;
      PathRestricts(WriteAccess, fields, p, l);
    } else if g.restrictsWrite && g.Contains(p) {
      PathHasAll(WriteAccess, fields, p, g);
    }
  }

  /** With restrictions that only clear enable bits, a register bit changes only if it was enabled before and is
      disabled after.  The new value is the one supplied by the k-th restricted bitfield around the bit, counted from
      the outside: all those further out left the bit enabled, and it is the only one that disabled it. */
  lemma FilterChangesOnlyWhatItDisables(a: Access, fields: seq<Bitfield>, passes: seq<Pass>, data: Word, mask: Word,
                                        data': Word, mask': Word, error: bool, p: nat)
    returns (k: nat)
    requires Filtered(a, fields, passes, data, mask, data', mask', error, true)
    requires p < |data| && data'[p] != data[p]
    ensures mask[p] && !mask'[p]
    ensures var around := Around(passes, p);
            && k < |around| <= |Restricting(a, fields, p)|
            && PassBit(around[k], p)
            && around[k].field == Restricting(a, fields, p)[k]
            && data'[p] == around[k].supplied[p - around[k].field.offset]
            && around[k].maskIn[p] && !around[k].maskOut[p]
            && (forall l :: 0 <= l < k ==> p < |around[l].maskOut| && around[l].maskOut[p])
  {
    var around := Around(passes, p);
    assert FilteredBit(Restricting(a, fields, p), around, p, mask[p], data[p], mask'[p], data'[p], error, true);
    k := ChangedBit(around, p, mask[p], data[p], mask'[p], data'[p]);
    assert Fields(around)[k] == Restricting(a, fields, p)[k];
  }

  /** Bits outside all restricted bitfields stay as they were. */
  lemma OutsideIsUntouched(a: Access, fields: seq<Bitfield>, passes: seq<Pass>, data: Word, mask: Word,
                           data': Word, mask': Word, error: bool, narrow: bool, p: nat)
    requires Filtered(a, fields, passes, data, mask, data', mask', error, narrow)
    requires p < |data| && Restricting(a, fields, p) == []
    ensures data'[p] == data[p] && mask'[p] == mask[p]
  {
  }

  /** How one bit changes on its way through the restrictions. */
  lemma {:induction false} ChangedBit(passes: seq<Pass>, p: nat, e0: bool, d0: bool, e1: bool, d1: bool)
    returns (k: nat)
    requires Through(passes, p, e0, d0, e1, d1) && d0 != d1
    requires NarrowPasses(passes, p)
    ensures e0 && !e1 && k < |passes|
    ensures PassBit(passes[k], p)
    ensures passes[k].maskIn[p] && !passes[k].maskOut[p]
    ensures d1 == passes[k].supplied[p - passes[k].field.offset]
    ensures forall l :: 0 <= l < k ==> passes[l].maskOut[p]
    ensures forall l :: k < l < |passes| ==> !passes[l].maskIn[p]
  {
    var c := passes[0];
    assert c in passes;
    assert forall x | x in passes[1..] :: x in passes;
    if c.maskIn[p] && !c.maskOut[p] {
      k := 0;
      StaysDisabled(passes[1..], p, c.dataOut[p], e1, d1);
    } else {
      if !c.maskOut[p] {
        StaysDisabled(passes[1..], p, c.dataOut[p], e1, d1);
        assert false;
      }
      var k' := ChangedBit(passes[1..], p, c.maskOut[p], c.dataOut[p], e1, d1);
      k := k' + 1;
    }
  }

  lemma {:induction false} StaysDisabled(passes: seq<Pass>, p: nat, d0: bool, e1: bool, d1: bool)
    requires Through(passes, p, false, d0, e1, d1)
    requires NarrowPasses(passes, p)
    ensures !e1 && d1 == d0
    ensures forall c | c in passes :: !c.maskIn[p]
  {
    if passes != [] {
      var c := passes[0];
      assert c in passes;
      assert forall x | x in passes[1..] :: x in passes;
      StaysDisabled(passes[1..], p, c.dataOut[p], e1, d1);
    }
  }
}
