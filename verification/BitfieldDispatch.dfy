/**
 Reads and writes of a register with bitfield callbacks.

 ExecuteWriteBehavior and ExecuteReadBehavior walk the tree with in/out masks of the
 bits already dealt with.  Bit by bit they are proved to send each enabled bit to the
 one callback of its owner, and to no other.  From this follows the meaning of a whole
 register access (PutWithTriggeringCallbacks, GetWithTriggeringCallbacks).
 */
module BitfieldDispatch {
  import opened Options
  import opened BitfieldTrees
  import opened Words

  /** One callback call.  For a write `data` is what the callback was given; for a read what it supplied.
      Data and mask are in the bitfield's own coordinates. */
  datatype Call = Call(field: Bitfield, data: Word, mask: Word)
  {
    predicate Covers(p: nat) {
      field.offset <= p && p - field.offset < |mask| && mask[p - field.offset]
    }

    /** The callback's data for bit p of the register. */
    function DataAt(p: nat): bool {
      field.offset <= p && p - field.offset < |data| && data[p - field.offset]
    }
  }

  /** The calls whose mask has register bit p. */
  ghost function Covering(calls: seq<Call>, p: nat): seq<Call> {
    if calls == [] then []
    else
      var last := calls[|calls| - 1];
      Covering(calls[..|calls| - 1], p) + if last.Covers(p) then [last] else []
  }

  lemma CoveringAppend(calls: seq<Call>, c: Call, p: nat)
    ensures Covering(calls + [c], p) == if c.Covers(p) then Covering(calls, p) + [c] else Covering(calls, p)
  {
  }

  lemma {:induction false} CoveringConcat(calls: seq<Call>, more: seq<Call>, p: nat)
    ensures Covering(calls + more, p) == Covering(calls, p) + Covering(more, p)
    decreases |more|
  {
    if more == [] {
      assert calls + more == calls;
    } else {
      var n := |more| - 1;
      CoveringConcat(calls, more[..n], p);
      assert (calls + more)[..|calls + more| - 1] == calls + more[..n];
    }
  }

  /** The calls `to` for an enabled or disabled bit: none, or exactly one, to the owner of the bit. */
  predicate AtMostToOwner(owner: Option<Bitfield>, enabled: bool, to: seq<Call>) {
    to == [] || (|to| == 1 && enabled && owner == Some(to[0].field))
  }

  /** The calls `to` for a bit: exactly one, to its owner, if it is enabled and has one; else none. */
  predicate ToOwner(owner: Option<Bitfield>, enabled: bool, to: seq<Call>) {
    AtMostToOwner(owner, enabled, to) && (to != [] <==> enabled && owner.Some?)
  }

  /** How a bit of the mask of bits done develops. */
  predicate BitDone(owner: Option<Bitfield>, enabled: bool, before: bool, after: bool) {
    && (before ==> after)
    && (after ==> before || owner.Some?)
    && (enabled ==> (after <==> before || owner.Some?))
  }

  /** Bit by bit: the calls so far and the mask of bits done, for these siblings. */
  ghost predicate Dispatched(a: Access, fields: seq<Bitfield>, bitMask: Word, before: Word, after: Word, calls: seq<Call>)
    requires |bitMask| == |before| == |after|
  {
    forall p: nat :: p < |bitMask| ==> DispatchedBit(OwnerIn(a, fields, p), bitMask, before, after, calls, p)
  }

  ghost predicate DispatchedBit(owner: Option<Bitfield>, bitMask: Word, before: Word, after: Word, calls: seq<Call>, p: nat)
    requires p < |bitMask| == |before| == |after|
  {
    && ToOwner(owner, bitMask[p], Covering(calls, p))
    && BitDone(owner, bitMask[p], before[p], after[p])
  }

  /** No enabled bit of these bitfields has been dealt with yet. */
  ghost predicate Pending(fields: seq<Bitfield>, bitMask: Word, done: Word)
    requires |bitMask| == |done|
  {
    forall b, p: nat :: b in fields && p < |done| && b.Contains(p) && bitMask[p] ==> !done[p]
  }

  /** The bitfield has an enabled bit. */
  predicate BitfieldAccessed(b: Bitfield, bitMask: Word)
    ensures BitfieldAccessed(b, bitMask) <==> exists p :: 0 <= p < |bitMask| && b.Contains(p) && bitMask[p]
  {
    var v := And(ShiftDown(bitMask, b.offset), BitMask(|bitMask|, b.size));
    var r := exists i :: 0 <= i < |v| && v[i];
    assert r ==> exists p :: 0 <= p < |bitMask| && b.Contains(p) && bitMask[p] by {
      if r {
        var i :| 0 <= i < |v| && v[i];
        assert b.Contains(i + b.offset) && bitMask[i + b.offset];
      }
    }
    assert (exists p :: 0 <= p < |bitMask| && b.Contains(p) && bitMask[p]) ==> r by {
      if p :| 0 <= p < |bitMask| && b.Contains(p) && bitMask[p] {
        assert v[p - b.offset];
      }
    }
    r
  }

  // ----- one bitfield after the other -----

  /** One bit of the siblings before i, then of sibling i. */
  lemma NextSibling(a: Access, fields: seq<Bitfield>, i: nat, bitMask: Word, w0: Word, w1: Word, w2: Word,
                    calls: seq<Call>, more: seq<Call>, p: nat)
    requires ValidTree(fields) && i < |fields| && p < |bitMask| == |w0| == |w1| == |w2|
    requires DispatchedBit(OwnerIn(a, fields[..i], p), bitMask, w0, w1, calls, p)
    requires DispatchedBit(OwnerAt(a, fields[i], p), bitMask, w1, w2, more, p)
    ensures DispatchedBit(OwnerIn(a, fields[..i + 1], p), bitMask, w0, w2, calls + more, p)
  {
    CoveringConcat(calls, more, p);
    OwnerInPrefix(a, fields, i, p);
  }

  /** After the earlier siblings, the enabled bits of the next one are still pending. */
  lemma StillPending(a: Access, fields: seq<Bitfield>, i: nat, bitMask: Word, w0: Word, w1: Word, calls: seq<Call>)
    requires ValidTree(fields) && i < |fields| && |bitMask| == |w0| == |w1| && Pending(fields, bitMask, w0)
    requires Dispatched(a, fields[..i], bitMask, w0, w1, calls)
    ensures Pending([fields[i]], bitMask, w1)
  {
    forall b, p: nat | b in [fields[i]] && p < |w1| && b.Contains(p) && bitMask[p] ensures !w1[p] {
      assert DispatchedBit(OwnerIn(a, fields[..i], p), bitMask, w0, w1, calls, p);
      OwnerInPrefix(a, fields, i, p);
      assert b in fields;
    }
  }

  /** One bit of a bitfield whose children have had their turn, when its own call `c` follows. */
  lemma OwnBit(inner: Option<Bitfield>, b: Bitfield, inside: bool, enabled: bool, before: bool, mid: bool,
               to: seq<Call>, c: Call)
    requires ToOwner(inner, enabled, to) && BitDone(inner, enabled, before, mid) && c.field == b
    requires inside && enabled ==> !before
    requires !inside ==> inner.None?
    ensures var owner := if inside && inner.None? then Some(b) else inner;
            && ToOwner(owner, enabled, if inside && enabled && !mid then to + [c] else to)
            && BitDone(owner, enabled, before, inside || mid)
  {
  }

  lemma OwnMask(b: Bitfield, bitMask: Word, w: Word, c: Call, p: nat)
    requires p < |bitMask| == |w|
    requires c.field == b && c.mask == ExtractBits(And(bitMask, Not(w)), b.size, b.offset)
    ensures c.Covers(p) <==> b.Contains(p) && bitMask[p] && !w[p]
  {
  }

  /** A bitfield with a callback of its own takes the enabled bits that its children left. */
  lemma OwnCall(a: Access, b: Bitfield, bitMask: Word, w0: Word, w1: Word, w2: Word, calls: seq<Call>, c: Call, p: nat)
    requires ValidField(b) && b.Handles(a) && p < |bitMask| == |w0| == |w1| == |w2|
    requires b.Contains(p) && bitMask[p] ==> !w0[p]
    requires DispatchedBit(OwnerIn(a, b.children, p), bitMask, w0, w1, calls, p)
    requires c.field == b && (c.Covers(p) <==> b.Contains(p) && bitMask[p] && !w1[p])
    requires w2[p] <==> b.Contains(p) || w1[p]
    ensures DispatchedBit(OwnerAt(a, b, p), bitMask, w0, w2, calls + [c], p)
  {
    if !b.Contains(p) {
      ChildrenInside(a, b, p);
    }
    CoveringAppend(calls, c, p);
    OwnBit(OwnerIn(a, b.children, p), b, b.Contains(p), bitMask[p], w0[p], w1[p], Covering(calls, p), c);
  }

  /** What a walk promises at one bit; a walk that was cut short promises less. */
  ghost predicate WalkedBit(owner: Option<Bitfield>, bitMask: Word, before: Word, after: Word, calls: seq<Call>,
                            ok: bool, p: nat)
    requires p < |bitMask| == |before| == |after|
  {
    if ok then DispatchedBit(owner, bitMask, before, after, calls, p)
    else AtMostToOwner(owner, bitMask[p], Covering(calls, p))
  }

  lemma NextSiblingCutShort(a: Access, fields: seq<Bitfield>, i: nat, bitMask: Word, calls: seq<Call>, more: seq<Call>,
                            p: nat)
    requires ValidTree(fields) && i < |fields| && p < |bitMask|
    requires ToOwner(OwnerIn(a, fields[..i], p), bitMask[p], Covering(calls, p))
    requires AtMostToOwner(OwnerAt(a, fields[i], p), bitMask[p], Covering(more, p))
    ensures AtMostToOwner(OwnerIn(a, fields, p), bitMask[p], Covering(calls + more, p))
  {
    CoveringConcat(calls, more, p);
    OwnerInPrefix(a, fields, i, p);
    if fields[i].Contains(p) {
      OwnerInField(a, fields, i, p);
    } else if OwnerIn(a, fields[..i], p).Some? {
      var k := SomeContains(a, fields[..i], p);
      OwnerInField(a, fields[..i], k, p);
      OwnerInField(a, fields, k, p);
    }
  }

  lemma {:induction false} SomeContains(a: Access, fields: seq<Bitfield>, p: nat) returns (k: nat)
    requires OwnerIn(a, fields, p).Some?
    ensures k < |fields| && fields[k].Contains(p)
  {
    var n := |fields| - 1;
    if fields[n].Contains(p) {
      k := n;
    } else {
      k := SomeContains(a, fields[..n], p);
    }
  }

  /** All bits of the siblings before i, then of sibling i. */
  lemma NextSiblingBits(a: Access, fields: seq<Bitfield>, i: nat, bitMask: Word, w0: Word, w1: Word, w2: Word,
                        calls: seq<Call>, more: seq<Call>, ok: bool)
    requires ValidTree(fields) && i < |fields| && |bitMask| == |w0| == |w1| == |w2|
    requires Dispatched(a, fields[..i], bitMask, w0, w1, calls)
    requires forall p: nat :: p < |bitMask| ==> WalkedBit(OwnerAt(a, fields[i], p), bitMask, w1, w2, more, ok, p)
    ensures ok ==> Dispatched(a, fields[..i + 1], bitMask, w0, w2, calls + more)
    ensures !ok ==> forall p: nat :: p < |bitMask| ==>
                      WalkedBit(OwnerIn(a, fields, p), bitMask, w0, w2, calls + more, false, p)
  {
    if ok {
      var prefix := fields[..i + 1];
      forall p: nat | p < |bitMask| ensures DispatchedBit(OwnerIn(a, prefix, p), bitMask, w0, w2, calls + more, p) {
        assert DispatchedBit(OwnerIn(a, fields[..i], p), bitMask, w0, w1, calls, p);
        assert WalkedBit(OwnerAt(a, fields[i], p), bitMask, w1, w2, more, true, p);
        NextSibling(a, fields, i, bitMask, w0, w1, w2, calls, more, p);
      }
    } else {
      forall p: nat | p < |bitMask| ensures WalkedBit(OwnerIn(a, fields, p), bitMask, w0, w2, calls + more, false, p) {
        assert DispatchedBit(OwnerIn(a, fields[..i], p), bitMask, w0, w1, calls, p);
        assert WalkedBit(OwnerAt(a, fields[i], p), bitMask, w1, w2, more, false, p);
        NextSiblingCutShort(a, fields, i, bitMask, calls, more, p);
      }
    }
  }

  /** A bitfield without an enabled bit needs nothing. */
  lemma NotAccessed(a: Access, b: Bitfield, bitMask: Word, w: Word)
    requires |bitMask| == |w| && !BitfieldAccessed(b, bitMask)
    ensures forall p: nat :: p < |bitMask| ==> WalkedBit(OwnerAt(a, b, p), bitMask, w, w, [], true, p)
  {
  }

  /** A bitfield after its children: with its own call, or with nothing of its own. */
  lemma FieldBits(a: Access, b: Bitfield, bitMask: Word, w0: Word, w1: Word, w2: Word, calls: seq<Call>, own: seq<Call>)
    requires ValidField(b) && |bitMask| == |w0| == |w1| && Pending([b], bitMask, w0)
    requires Dispatched(a, b.children, bitMask, w0, w1, calls)
    requires if b.Handles(a) then
               && |own| == 1 && own[0].field == b
               && own[0].mask == ExtractBits(And(bitMask, Not(w1)), b.size, b.offset)
               && w2 == InsertBits(w1, BitMask(|w1|, b.size), b.size, b.offset)
             else own == [] && w2 == w1
    ensures forall p: nat :: p < |bitMask| ==> WalkedBit(OwnerAt(a, b, p), bitMask, w0, w2, calls + own, true, p)
  {
    forall p: nat | p < |bitMask| ensures WalkedBit(OwnerAt(a, b, p), bitMask, w0, w2, calls + own, true, p) {
      assert DispatchedBit(OwnerIn(a, b.children, p), bitMask, w0, w1, calls, p);
      if b.Handles(a) {
        assert b in [b];
        assert own == [own[0]];
        OwnMask(b, bitMask, w1, own[0], p);
        OwnCall(a, b, bitMask, w0, w1, w2, calls, own[0], p);
      } else {
        assert calls + own == calls;
        if !b.Contains(p) {
          ChildrenInside(a, b, p);
        }
      }
    }
  }

  /** A failed call of the bitfield's own still reaches the right owner. */
  lemma FieldBitsCutShort(a: Access, b: Bitfield, bitMask: Word, w0: Word, w1: Word, w: Word, calls: seq<Call>, ok: bool)
    requires ValidField(b) && |bitMask| == |w0| == |w1| == |w|
    requires forall p: nat :: p < |bitMask| ==> WalkedBit(OwnerIn(a, b.children, p), bitMask, w0, w1, calls, false, p)
    ensures forall p: nat :: p < |bitMask| ==> WalkedBit(OwnerAt(a, b, p), bitMask, w0, w, calls, false, p)
  {
    forall p: nat | p < |bitMask| ensures WalkedBit(OwnerAt(a, b, p), bitMask, w0, w, calls, false, p) {
      assert WalkedBit(OwnerIn(a, b.children, p), bitMask, w0, w1, calls, false, p);
      if !b.Contains(p) {
        ChildrenInside(a, b, p);
      }
    }
  }

  // ----- writing -----

  /** Which write calls succeed. */
  type WriteCallback = Call -> bool

  /** Every call passes the written data on, and a walk ends at the first call that fails. */
  ghost predicate WriteCalls(accepts: WriteCallback, data: Word, calls: seq<Call>, ok: bool) {
    && (forall c | c in calls :: c.data == ExtractBits(data, c.field.size, c.field.offset))
    && if ok then forall c | c in calls :: accepts(c)
       else calls != [] && !accepts(calls[|calls| - 1]) && forall k :: 0 <= k < |calls| - 1 ==> accepts(calls[k])
  }

  lemma OneMoreWrite(accepts: WriteCallback, data: Word, calls: seq<Call>, own: Call)
    requires WriteCalls(accepts, data, calls, true) && own.data == ExtractBits(data, own.field.size, own.field.offset)
    ensures WriteCalls(accepts, data, calls + [own], accepts(own))
  {
  }

  method ExecuteWriteBehavior(fields: seq<Bitfield>, data: Word, bitMask: Word, bitsWritten: Word, accepts: WriteCallback)
    returns (ok: bool, written: Word, calls: seq<Call>)
    requires ValidTree(fields) && |data| == |bitMask| == |bitsWritten| && Pending(fields, bitMask, bitsWritten)
    ensures |written| == |bitsWritten| && WriteCalls(accepts, data, calls, ok)
    ensures ok ==> Dispatched(WriteAccess, fields, bitMask, bitsWritten, written, calls)
    ensures !ok ==> forall p: nat :: p < |bitMask| ==>
                      WalkedBit(OwnerIn(WriteAccess, fields, p), bitMask, bitsWritten, written, calls, false, p)
    decreases fields, 1
  {
    written, calls := bitsWritten, [];
    assert fields[..0] == [];
    for i := 0 to |fields|
      invariant |written| == |bitsWritten| && WriteCalls(accepts, data, calls, true)
      invariant Dispatched(WriteAccess, fields[..i], bitMask, bitsWritten, written, calls)
    {
      StillPending(WriteAccess, fields, i, bitMask, bitsWritten, written, calls);
      var w, more;
      ok, w, more := ExecuteFieldWrite(fields[i], data, bitMask, written, accepts);
      NextSiblingBits(WriteAccess, fields, i, bitMask, bitsWritten, written, w, calls, more, ok);
      written, calls := w, calls + more;
      if !ok {
        return;
      }
    }
    assert fields[..|fields|] == fields;
    ok := true;
  }

  /** One bitfield: its children first, then its own callback for what they left. */
  method ExecuteFieldWrite(b: Bitfield, data: Word, bitMask: Word, bitsWritten: Word, accepts: WriteCallback)
    returns (ok: bool, written: Word, calls: seq<Call>)
    requires ValidField(b) && |data| == |bitMask| == |bitsWritten| && Pending([b], bitMask, bitsWritten)
    ensures |written| == |bitsWritten| && WriteCalls(accepts, data, calls, ok)
    ensures forall p: nat :: p < |bitMask| ==>
              WalkedBit(OwnerAt(WriteAccess, b, p), bitMask, bitsWritten, written, calls, ok, p)
    decreases b, 0
  {
    if !BitfieldAccessed(b, bitMask) {
      NotAccessed(WriteAccess, b, bitMask, bitsWritten);
      return true, bitsWritten, [];
    }
    PendingChildren(b, bitMask, bitsWritten);
    ok, written, calls := ExecuteWriteBehavior(b.children, data, bitMask, bitsWritten, accepts);
    if !ok {
      FieldBitsCutShort(WriteAccess, b, bitMask, bitsWritten, written, written, calls, ok);
      return;
    }
    if !b.handlesWrite {
      FieldBits(WriteAccess, b, bitMask, bitsWritten, written, written, calls, []);
      assert calls + [] == calls;
      return;
    }
    var own := Call(b, ExtractBits(data, b.size, b.offset), ExtractBits(And(bitMask, Not(written)), b.size, b.offset));
    ok := accepts(own);
    var w := InsertBits(written, BitMask(|written|, b.size), b.size, b.offset);
    FieldBits(WriteAccess, b, bitMask, bitsWritten, written, w, calls, [own]);
    OneMoreWrite(accepts, data, calls, own);
    calls := calls + [own];
    if !ok {
      DispatchedCutShort(WriteAccess, b, bitMask, bitsWritten, w, written, calls);
      return;
    }
    written := w;
  }

  lemma PendingChildren(b: Bitfield, bitMask: Word, done: Word)
    requires ValidField(b) && |bitMask| == |done| && Pending([b], bitMask, done)
    ensures Pending(b.children, bitMask, done)
  {
    forall c, p: nat | c in b.children && p < |done| && c.Contains(p) && bitMask[p] ensures !done[p] {
      assert b in [b] && b.Contains(p);
    }
  }

  lemma DispatchedCutShort(a: Access, b: Bitfield, bitMask: Word, w0: Word, w1: Word, w: Word, calls: seq<Call>)
    requires |bitMask| == |w0| == |w1| == |w|
    requires forall p: nat :: p < |bitMask| ==> WalkedBit(OwnerAt(a, b, p), bitMask, w0, w1, calls, true, p)
    ensures forall p: nat :: p < |bitMask| ==> WalkedBit(OwnerAt(a, b, p), bitMask, w0, w, calls, false, p)
  {
  }

  // ----- reading -----

  /** What a read callback supplies for a mask, or None when it fails. */
  type ReadCallback = (Bitfield, Word) -> Option<Word>

  ghost predicate ValidCallback(reply: ReadCallback, width: nat) {
    forall b, mask :: |mask| == width && reply(b, mask).Some? ==> |reply(b, mask).value| == width
  }

  /** What a read walk promises at one bit of the data. */
  ghost predicate ReadBit(owner: Option<Bitfield>, bitMask: Word, before: Word, d0: Word, d1: Word, calls: seq<Call>, p: nat)
    requires p < |bitMask| == |before| == |d0| == |d1|
  {
    && (before[p] ==> d1[p] == d0[p])
    && (!before[p] && bitMask[p] && owner.Some? && |Covering(calls, p)| == 1 ==> d1[p] == Covering(calls, p)[0].DataAt(p))
  }

  /** Every call recorded is one that was answered, except the last one of a walk cut short. */
  ghost predicate ReadCalls(reply: ReadCallback, calls: seq<Call>, ok: bool) {
    if ok then forall c | c in calls :: reply(c.field, c.mask) == Some(c.data)
    else && calls != [] && reply(calls[|calls| - 1].field, calls[|calls| - 1].mask) == None
         && forall k :: 0 <= k < |calls| - 1 ==> reply(calls[k].field, calls[k].mask) == Some(calls[k].data)
  }

  ghost predicate ReadBits(a: Access, fields: seq<Bitfield>, bitMask: Word, before: Word, d0: Word, d1: Word, calls: seq<Call>)
    requires |bitMask| == |before| == |d0| == |d1|
  {
    forall p: nat :: p < |bitMask| ==> ReadBit(OwnerIn(a, fields, p), bitMask, before, d0, d1, calls, p)
  }

  lemma NextSiblingData(fields: seq<Bitfield>, i: nat, bitMask: Word, w0: Word, w1: Word, w2: Word,
                        d0: Word, d1: Word, d2: Word, calls: seq<Call>, more: seq<Call>)
    requires ValidTree(fields) && i < |fields| && |bitMask| == |w0| == |w1| == |w2| == |d0| == |d1| == |d2|
    requires Dispatched(ReadAccess, fields[..i], bitMask, w0, w1, calls)
    requires ReadBits(ReadAccess, fields[..i], bitMask, w0, d0, d1, calls)
    requires forall p: nat :: p < |bitMask| ==> WalkedBit(OwnerAt(ReadAccess, fields[i], p), bitMask, w1, w2, more, true, p)
    requires forall p: nat :: p < |bitMask| ==> ReadBit(OwnerAt(ReadAccess, fields[i], p), bitMask, w1, d1, d2, more, p)
    ensures ReadBits(ReadAccess, fields[..i + 1], bitMask, w0, d0, d2, calls + more)
  {
    var prefix := fields[..i + 1];
    forall p: nat | p < |bitMask| ensures ReadBit(OwnerIn(ReadAccess, prefix, p), bitMask, w0, d0, d2, calls + more, p) {
      assert DispatchedBit(OwnerIn(ReadAccess, fields[..i], p), bitMask, w0, w1, calls, p);
      assert ReadBit(OwnerIn(ReadAccess, fields[..i], p), bitMask, w0, d0, d1, calls, p);
      assert WalkedBit(OwnerAt(ReadAccess, fields[i], p), bitMask, w1, w2, more, true, p);
      assert ReadBit(OwnerAt(ReadAccess, fields[i], p), bitMask, w1, d1, d2, more, p);
      CoveringConcat(calls, more, p);
      OwnerInPrefix(ReadAccess, fields, i, p);
    }
  }

  method ExecuteReadBehavior(fields: seq<Bitfield>, data: Word, bitMask: Word, bitsRead: Word, reply: ReadCallback)
    returns (ok: bool, result: Word, read: Word, calls: seq<Call>)
    requires ValidTree(fields) && |data| == |bitMask| == |bitsRead| && Pending(fields, bitMask, bitsRead)
    requires ValidCallback(reply, |data|)
    ensures |read| == |result| == |data| && ReadCalls(reply, calls, ok)
    ensures ok ==> Dispatched(ReadAccess, fields, bitMask, bitsRead, read, calls)
    ensures ok ==> ReadBits(ReadAccess, fields, bitMask, bitsRead, data, result, calls)
    ensures !ok ==> forall p: nat :: p < |bitMask| ==>
                      WalkedBit(OwnerIn(ReadAccess, fields, p), bitMask, bitsRead, read, calls, false, p)
    decreases fields, 1
  {
    result, read, calls := data, bitsRead, [];
    assert fields[..0] == [];
    for i := 0 to |fields|
      invariant |read| == |result| == |data| && ReadCalls(reply, calls, true)
      invariant Dispatched(ReadAccess, fields[..i], bitMask, bitsRead, read, calls)
      invariant ReadBits(ReadAccess, fields[..i], bitMask, bitsRead, data, result, calls)
    {
      StillPending(ReadAccess, fields, i, bitMask, bitsRead, read, calls);
      var d, w, more;
      ok, d, w, more := ExecuteFieldRead(fields[i], result, bitMask, read, reply);
      NextSiblingBits(ReadAccess, fields, i, bitMask, bitsRead, read, w, calls, more, ok);
      if ok {
        NextSiblingData(fields, i, bitMask, bitsRead, read, w, data, result, d, calls, more);
      }
      result, read, calls := d, w, calls + more;
      if !ok {
        return;
      }
    }
    assert fields[..|fields|] == fields;
    ok := true;
  }

  /** The bitfield's own call supplies the bits that its children left. */
  lemma FieldData(b: Bitfield, bitMask: Word, w0: Word, w1: Word, d0: Word, d1: Word, d2: Word, calls: seq<Call>, own: Call)
    requires ValidField(b) && b.handlesRead && |bitMask| == |w0| == |w1| == |d0| == |d1| == |own.data|
    requires Dispatched(ReadAccess, b.children, bitMask, w0, w1, calls)
    requires ReadBits(ReadAccess, b.children, bitMask, w0, d0, d1, calls)
    requires own.field == b && own.mask == ExtractBits(And(bitMask, Not(w1)), b.size, b.offset)
    requires d2 == Or(And(d1, w1), And(ShiftUp(own.data, b.offset), Not(w1)))
    ensures forall p: nat :: p < |bitMask| ==> ReadBit(OwnerAt(ReadAccess, b, p), bitMask, w0, d0, d2, calls + [own], p)
  {
    forall p: nat | p < |bitMask| ensures ReadBit(OwnerAt(ReadAccess, b, p), bitMask, w0, d0, d2, calls + [own], p) {
      assert DispatchedBit(OwnerIn(ReadAccess, b.children, p), bitMask, w0, w1, calls, p);
      assert ReadBit(OwnerIn(ReadAccess, b.children, p), bitMask, w0, d0, d1, calls, p);
      OwnMask(b, bitMask, w1, own, p);
      OwnData(b, bitMask, w0, w1, d0, d1, d2, calls, own, p);
    }
  }

  lemma OwnData(b: Bitfield, bitMask: Word, w0: Word, w1: Word, d0: Word, d1: Word, d2: Word, calls: seq<Call>, own: Call,
                p: nat)
    requires ValidField(b) && b.handlesRead && p < |bitMask| == |w0| == |w1| == |d0| == |d1| == |d2| == |own.data|
    requires DispatchedBit(OwnerIn(ReadAccess, b.children, p), bitMask, w0, w1, calls, p)
    requires ReadBit(OwnerIn(ReadAccess, b.children, p), bitMask, w0, d0, d1, calls, p)
    requires own.field == b && (own.Covers(p) <==> b.Contains(p) && bitMask[p] && !w1[p])
    requires d2[p] == if w1[p] then d1[p] else b.offset <= p && own.data[p - b.offset]
    ensures ReadBit(OwnerAt(ReadAccess, b, p), bitMask, w0, d0, d2, calls + [own], p)
  {
  }

  lemma DefaultFieldData(b: Bitfield, bitMask: Word, w0: Word, d0: Word, d1: Word, calls: seq<Call>)
    requires ValidField(b) && !b.handlesRead && |bitMask| == |w0| == |d0| == |d1|
    requires ReadBits(ReadAccess, b.children, bitMask, w0, d0, d1, calls)
    ensures forall p: nat :: p < |bitMask| ==> ReadBit(OwnerAt(ReadAccess, b, p), bitMask, w0, d0, d1, calls, p)
  {
    forall p: nat | p < |bitMask| ensures ReadBit(OwnerAt(ReadAccess, b, p), bitMask, w0, d0, d1, calls, p) {
      assert ReadBit(OwnerIn(ReadAccess, b.children, p), bitMask, w0, d0, d1, calls, p);
      if !b.Contains(p) {
        ChildrenInside(ReadAccess, b, p);
      }
    }
  }

  /** One bitfield: its children first, then its own callback for what they left. */
  method ExecuteFieldRead(b: Bitfield, data: Word, bitMask: Word, bitsRead: Word, reply: ReadCallback)
    returns (ok: bool, result: Word, read: Word, calls: seq<Call>)
    requires ValidField(b) && |data| == |bitMask| == |bitsRead| && Pending([b], bitMask, bitsRead)
    requires ValidCallback(reply, |data|)
    ensures |read| == |result| == |data| && ReadCalls(reply, calls, ok)
    ensures forall p: nat :: p < |bitMask| ==>
              WalkedBit(OwnerAt(ReadAccess, b, p), bitMask, bitsRead, read, calls, ok, p)
    ensures ok ==> forall p: nat :: p < |bitMask| ==>
                     ReadBit(OwnerAt(ReadAccess, b, p), bitMask, bitsRead, data, result, calls, p)
    decreases b, 0
  {
    if !BitfieldAccessed(b, bitMask) {
      NotAccessed(ReadAccess, b, bitMask, bitsRead);
      return true, data, bitsRead, [];
    }
    PendingChildren(b, bitMask, bitsRead);
    ok, result, read, calls := ExecuteReadBehavior(b.children, data, bitMask, bitsRead, reply);
    if !ok {
      FieldBitsCutShort(ReadAccess, b, bitMask, bitsRead, read, read, calls, ok);
      return;
    }
    if !b.handlesRead {
      FieldBits(ReadAccess, b, bitMask, bitsRead, read, read, calls, []);
      DefaultFieldData(b, bitMask, bitsRead, data, result, calls);
      assert calls + [] == calls;
      return;
    }
    var mask := ExtractBits(And(bitMask, Not(read)), b.size, b.offset);
    var bitfieldData := reply(b, mask);
    ok := bitfieldData.Some?;
    var own := Call(b, if ok then bitfieldData.value else Zero(|data|), mask);
    var w := InsertBits(read, BitMask(|read|, b.size), b.size, b.offset);
    FieldBits(ReadAccess, b, bitMask, bitsRead, read, w, calls, [own]);
    OneMoreRead(reply, calls, own);
    if !ok {
      calls := calls + [own];
      DispatchedCutShort(ReadAccess, b, bitMask, bitsRead, w, read, calls);
      return;
    }
    var d := Or(And(result, read), And(ShiftUp(own.data, b.offset), Not(read)));
    FieldData(b, bitMask, bitsRead, read, data, result, d, calls, own);
    result, read, calls := d, w, calls + [own];
  }

  lemma OneMoreRead(reply: ReadCallback, calls: seq<Call>, own: Call)
    requires ReadCalls(reply, calls, true)
    requires reply(own.field, own.mask).Some? ==> reply(own.field, own.mask) == Some(own.data)
    ensures ReadCalls(reply, calls + [own], reply(own.field, own.mask).Some?)
  {
  }

  // ----- whole register accesses -----

  /** No bitfield in the tree has a callback of its own. */
  predicate HasDefaultBehavior(a: Access, fields: seq<Bitfield>) {
    forall b | b in fields :: !b.Handles(a) && HasDefaultBehavior(a, b.children)
  }

  lemma {:induction false} DefaultOwnsNothing(a: Access, fields: seq<Bitfield>, p: nat)
    requires HasDefaultBehavior(a, fields)
    ensures OwnerIn(a, fields, p) == None
  {
    if fields != [] {
      var last := fields[|fields| - 1];
      assert last in fields;
      if last.Contains(p) {
        DefaultOwnsNothing(a, last.children, p);
      } else {
        var rest := fields[..|fields| - 1];
        assert forall b | b in rest :: b in fields;
        DefaultOwnsNothing(a, rest, p);
      }
    }
  }

  /** A register read.  `stored` is what the register holds after the callbacks have run.  Each enabled bit comes from
      its owner's one callback if it has an owner and else from the register; each disabled bit stays as it was. */
  method GetWithTriggeringCallbacks(fields: seq<Bitfield>, stored: Word, data: Word, bitMask: Word, reply: ReadCallback)
    returns (ok: bool, result: Word, calls: seq<Call>)
    requires ValidTree(fields) && |data| == |bitMask| == |stored| && ValidCallback(reply, |data|)
    ensures ok ==> |result| == |data| && ReadCalls(reply, calls, true)
    ensures ok ==> forall p: nat :: p < |data| ==>
                     var owner := OwnerIn(ReadAccess, fields, p);
                     && ToOwner(owner, bitMask[p], Covering(calls, p))
                     && result[p] == if !bitMask[p] then data[p]
                                     else if owner.Some? then Covering(calls, p)[0].DataAt(p)
                                     else stored[p]
    ensures !ok ==> ReadCalls(reply, calls, false) &&
                    forall p: nat :: p < |data| ==>
                      AtMostToOwner(OwnerIn(ReadAccess, fields, p), bitMask[p], Covering(calls, p))
  {
    if HasDefaultBehavior(ReadAccess, fields) {
      forall p: nat | p < |data| ensures OwnerIn(ReadAccess, fields, p) == None {
        DefaultOwnsNothing(ReadAccess, fields, p);
      }
      return true, Or(And(stored, bitMask), And(data, Not(bitMask))), [];
    }
    var walked, bitsRead;
    ok, walked, bitsRead, calls := ExecuteReadBehavior(fields, data, bitMask, Not(bitMask), reply);
    result := Or(And(stored, Not(bitsRead)), And(walked, bitsRead));
    forall p: nat | p < |data|
      ensures ok ==> DispatchedBit(OwnerIn(ReadAccess, fields, p), bitMask, Not(bitMask), bitsRead, calls, p)
                     && ReadBit(OwnerIn(ReadAccess, fields, p), bitMask, Not(bitMask), data, walked, calls, p)
      ensures !ok ==> WalkedBit(OwnerIn(ReadAccess, fields, p), bitMask, Not(bitMask), bitsRead, calls, false, p)
    {
    }
  }

  lemma CallsGetTheData(accepts: WriteCallback, data: Word, calls: seq<Call>, ok: bool)
    requires WriteCalls(accepts, data, calls, ok)
    ensures ok <==> forall c | c in calls :: accepts(c)
    ensures forall c, p: nat | c in calls && p < |data| && c.field.Contains(p) :: c.DataAt(p) == data[p]
  {
  }

  /** A register write.  `updated` is what the register holds after the callbacks have run; a callback may store into
      the register itself.  Each enabled bit goes to its owner's one callback, which decides what is stored, or is
      stored when it has no owner; a disabled bit that no owner has keeps its old value.  Callbacks get the old
      value of disabled bits, and the write succeeds exactly when all of them accept. */
  method PutWithTriggeringCallbacks(fields: seq<Bitfield>, stored: Word, updated: Word, data: Word, bitMask: Word,
                                    accepts: WriteCallback)
    returns (ok: bool, result: Word, calls: seq<Call>)
    requires ValidTree(fields) && |data| == |bitMask| == |stored| == |updated|
    ensures ok ==> |result| == |data|
    ensures ok ==> forall p: nat :: p < |data| ==>
                     var owner := OwnerIn(WriteAccess, fields, p);
                     && ToOwner(owner, bitMask[p], Covering(calls, p))
                     && (Covering(calls, p) != [] ==> Covering(calls, p)[0].DataAt(p) == data[p])
                     && (owner.None? ==> result[p] == if bitMask[p] then data[p] else stored[p])
                     && (owner.Some? && bitMask[p] ==> result[p] == updated[p])
                     && (owner.Some? && !bitMask[p] ==> result[p] == updated[p] || result[p] == stored[p])
    ensures !ok ==> forall p: nat :: p < |data| ==>
                      AtMostToOwner(OwnerIn(WriteAccess, fields, p), bitMask[p], Covering(calls, p))
    ensures ok <==> forall c | c in calls :: accepts(c)
    ensures forall c, p: nat | c in calls && p < |data| && c.field.Contains(p) ::
              c.DataAt(p) == if bitMask[p] then data[p] else stored[p]
  {
    var writeData := Or(And(stored, Not(bitMask)), And(data, bitMask));
    if HasDefaultBehavior(WriteAccess, fields) {
      forall p: nat | p < |data| ensures OwnerIn(WriteAccess, fields, p) == None {
        DefaultOwnsNothing(WriteAccess, fields, p);
      }
      return true, writeData, [];
    }
    var bitsWritten;
    ok, bitsWritten, calls := ExecuteWriteBehavior(fields, writeData, bitMask, Zero(|data|), accepts);
    result := Or(And(writeData, Not(bitsWritten)), And(updated, bitsWritten));
    CallsGetTheData(accepts, writeData, calls, ok);
    forall p: nat | p < |data|
      ensures ok ==> DispatchedBit(OwnerIn(WriteAccess, fields, p), bitMask, Zero(|data|), bitsWritten, calls, p)
      ensures !ok ==> WalkedBit(OwnerIn(WriteAccess, fields, p), bitMask, Zero(|data|), bitsWritten, calls, false, p)
      ensures ok && Covering(calls, p) != [] ==> Covering(calls, p)[0].DataAt(p) == writeData[p]
    {
      if Covering(calls, p) != [] {
        CoveringMember(calls, p);
      }
    }
  }

  lemma {:induction false} CoveringMember(calls: seq<Call>, p: nat)
    requires Covering(calls, p) != []
    ensures Covering(calls, p)[0] in calls && Covering(calls, p)[0].Covers(p)
  {
    var n := |calls| - 1;
    if Covering(calls[..n], p) != [] {
      CoveringMember(calls[..n], p);
    }
  }
}
