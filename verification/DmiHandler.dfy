/**
 The DMI handler.  Its cache does what DmiCache says, and a transfer that succeeds is the
 byte loop of the payload in the host memory behind the range that was found.
 */
module DmiHandler {
  import opened Options
  import opened GenericPayload
  import opened MemoryFastAccess
  import opened DmiCache

  class Handler {
    /** Host memory; a DMI pointer is a position in it. */
    const host: Memory
    var mDmiEnabled: bool
    var mReadRanges: seq<Range>
    var mWriteRanges: seq<Range>
    /** The abstraction level switch. */
    var mDmiAllowed: bool
    /** The other end of the forward interface. */
    var mFwDirectMemIf: Target

    constructor (host: Memory, dmiAllowed: bool, ifs: Target)
      ensures this.host == host
      ensures State() == Cache(true, dmiAllowed, [], [], ifs).Cleared()
    {
      this.host, mDmiAllowed, mFwDirectMemIf := host, dmiAllowed, ifs;
      mDmiEnabled, mReadRanges, mWriteRanges := true, [], [];
      new;
      InvalidateDirectMemPtr();
    }

    ghost function State(): Cache
      reads this
    {
      Cache(mDmiEnabled, mDmiAllowed, mReadRanges, mWriteRanges, mFwDirectMemIf)
    }

    /** Only one entry is left: nothing is served, or nothing can be. */
    method Invalidate() returns (ranges: seq<Range>)
      ensures ranges == [State().Sentinel()]
    {
      if !mDmiEnabled || !mDmiAllowed {
        ranges := [DENY_ALL];
      } else {
        ranges := [NOTHING];
      }
    }

    method InvalidateDirectMemPtr()
      modifies this`mReadRanges, this`mWriteRanges
      ensures State() == After(old(State()), Event.Invalidate)
    {
      mReadRanges := Invalidate();
      mWriteRanges := Invalidate();
    }

    method EnableDmi()
      modifies this`mDmiEnabled, this`mReadRanges, this`mWriteRanges
      ensures State() == After(old(State()), Enable)
    {
      if !mDmiEnabled {
        mDmiEnabled := true;
        InvalidateDirectMemPtr();
      }
    }

    method DisableDmi()
      modifies this`mDmiEnabled, this`mReadRanges, this`mWriteRanges
      ensures State() == After(old(State()), Disable)
    {
      if mDmiEnabled {
        mDmiEnabled := false;
        InvalidateDirectMemPtr();
      }
    }

    /** The abstraction level switch tells its observers only when it changes. */
    method SetDmiAllowed(dmiAllowed: bool)
      modifies this`mDmiAllowed, this`mReadRanges, this`mWriteRanges
      ensures State() == After(old(State()), Switch(dmiAllowed))
    {
      if mDmiAllowed != dmiAllowed {
        mDmiAllowed := dmiAllowed;
        InvalidateDirectMemPtr();
      }
    }

    /** The target invalidates, and then it may move its bytes and change its answers. */
    method ChangeTarget(target: Target)
      modifies this`mFwDirectMemIf, this`mReadRanges, this`mWriteRanges
      ensures State() == After(old(State()), Change(target))
    {
      InvalidateDirectMemPtr();
      mFwDirectMemIf := target;
    }

    method GetRangeSlow(address: Address, read: bool) returns (range: Option<Range>)
      modifies this`mReadRanges, this`mWriteRanges
      ensures range == Found(old(State()), address, read)
      ensures State() == After(old(State()), Look(address, read))
    {
      var ranges := if read then mReadRanges else mWriteRanges;
      var it := FindRange(ranges, address);
      if it < |ranges| {
        if it != 0 {
          SetRanges([ranges[it]] + ranges[..it] + ranges[it + 1..], read);
        } else {
          assert ToFront(ranges, 0) == ranges;
        }
        return Some(ranges[it]);
      }
      range := LoadRange(address, read);
    }

    /** The position of the first range that contains the address; the end when there is none. */
    method FindRange(ranges: seq<Range>, address: Address) returns (it: nat)
      ensures it <= |ranges|
      ensures Search(ranges, address) == if it < |ranges| then Some(it) else None
    {
      it := 0;
      while it != |ranges|
        invariant it <= |ranges|
        invariant forall i :: 0 <= i < it ==> !Contains(ranges[i], address)
      {
        if Contains(ranges[it], address) {
          SearchIsFirst(ranges, address, it);
          return;
        }
        it := it + 1;
      }
    }

    method SetRanges(ranges: seq<Range>, read: bool)
      modifies this`mReadRanges, this`mWriteRanges
      ensures State() == old(State()).With(read, ranges)
    {
      if read {
        mReadRanges := ranges;
      } else {
        mWriteRanges := ranges;
      }
    }

    method LoadRange(address: Address, read: bool) returns (range: Option<Range>)
      requires Search(State().Ranges(read), address).None?
      modifies this`mReadRanges, this`mWriteRanges
      ensures range == Found(old(State()), address, read)
      ensures State() == After(old(State()), Look(address, read))
    {
      var answer := mFwDirectMemIf.answers(address, read);
      var dmiData := answer.range;
      if !answer.granted {
        dmiData := dmiData.(access := NoAccess);
      }
      if !Contains(dmiData, address) {
        return None;
      }
      SetRanges([dmiData] + (if read then mReadRanges else mWriteRanges), read);
      return Some(dmiData);
    }

    method GetRange(address: Address, read: bool) returns (range: Option<Range>)
      requires State().Ranges(read) != []
      modifies this`mReadRanges, this`mWriteRanges
      ensures range == Found(old(State()), address, read)
      ensures State() == After(old(State()), Look(address, read))
    {
      var ranges := if read then mReadRanges else mWriteRanges;
      if Contains(ranges[0], address) {
        SearchIsFirst(ranges, address, 0);
        assert ToFront(ranges, 0) == ranges;
        return Some(ranges[0]);
      }
      range := GetRangeSlow(address, read);
    }

    /** The range for a whole access of this kind, or none. */
    method GetRangeFor(address: Address, dataLength: nat, read: bool) returns (range: Option<Range>)
      requires State().Ranges(read) != [] && dataLength < 0x1_0000_0000
      modifies this`mReadRanges, this`mWriteRanges
      ensures range == Serving(old(State()), address, dataLength, read)
      ensures State() == After(old(State()), Look(address, read))
    {
      range := GetRange(address, read);
      if range.Some? {
        var r := range.value;
        if r.end < (address + dataLength + SPACE - 1) % SPACE || !Allows(r, read) {
          range := None;
        }
      }
    }

    /** Answers a DMI request from the cache.  Granted or not, the descriptor names just the access that was asked for,
        also where the range allows both; a granted one is good for the target. */
    method GetDirectMemPtr(address: Address, read: bool) returns (granted: bool, dmiData: Range)
      requires State().Ranges(read) != [] && Found(State(), address, read).Some?
      modifies this`mReadRanges, this`mWriteRanges
      ensures State() == After(old(State()), Look(address, read))
      ensures var r := Found(old(State()), address, read).value;
              && granted == Allows(r, read)
              && dmiData == Range(r.start, r.end, if read then ReadOnly else WriteOnly, r.ptr)
      ensures Contains(dmiData, address) && Allows(dmiData, read) && !Allows(dmiData, !read)
      ensures Inv(old(State())) && granted ==> mDmiEnabled && mDmiAllowed && Faithful(dmiData, mFwDirectMemIf)
    {
      ghost var c := State();
      var range := GetRange(address, read);
      dmiData := range.value;
      granted := Allows(dmiData, read);
      dmiData := dmiData.(access := if read then ReadOnly else WriteOnly);
      if Inv(c) {
        FoundIsGranted(c, address, read);
      }
    }

    /** The first n data indices of the payload have been moved to or from the range. */
    ghost predicate Moved(trans: Payload, r: Range, n: nat, start: Store)
      requires trans.Legal() && Contains(r, trans.address)
      reads host, trans, trans.block
    {
      && Accessible(InHost(trans.AsRequest(), r), trans.block.Length) && n <= trans.dataLength
      && |start.data| == trans.block.Length
      && host.StoreWith(trans) == Effect(trans.command, InHost(trans.AsRequest(), r), n, start)
    }

    method MoveByte(trans: Payload, r: Range, place: nat, i: nat, ghost start: Store)
      requires trans.Legal() && Contains(r, trans.address) && Moved(trans, r, i, start)
      requires i < trans.dataLength && place == Place(InHost(trans.AsRequest(), r), i)
      modifies host`bytes, trans.block
      ensures Moved(trans, r, i + 1, start)
    {
      assert Enabled(InHost(trans.AsRequest(), r), i) == trans.IsEnabled(i);
      if trans.IsEnabled(i) {
        assert 0 <= trans.dataPtr + i < trans.block.Length;
        host.CopyByte(trans, place, trans.dataPtr + i);
      }
    }

    /** The contiguous copy between the data block and the range. */
    method CopyData(trans: Payload, r: Range)
      requires trans.Legal() && Contains(r, trans.address) && trans.streamingWidth >= trans.dataLength
      requires Accessible(trans.AsRequest(), trans.block.Length)
      modifies host`bytes, trans.block
      ensures Moved(trans, r, trans.dataLength, old(host.StoreWith(trans)))
    {
      ghost var start, h := host.StoreWith(trans), InHost(trans.AsRequest(), r);
      assert forall k: nat :: Enabled(h, k) == Enabled(trans.AsRequest(), k);
      for i := 0 to trans.dataLength
        invariant Moved(trans, r, i, start)
      {
        PlaceInFirstBeat(h, i);
        MoveByte(trans, r, r.ptr + trans.address - r.start + i, i, start);
      }
    }

    /** The streaming copy: the range is passed over once per streaming width. */
    method StreamData(trans: Payload, r: Range)
      requires trans.Legal() && Contains(r, trans.address)
      requires Accessible(trans.AsRequest(), trans.block.Length)
      modifies host`bytes, trans.block
      ensures Moved(trans, r, trans.dataLength, old(host.StoreWith(trans)))
    {
      ghost var start, h := host.StoreWith(trans), InHost(trans.AsRequest(), r);
      assert forall k: nat :: Enabled(h, k) == Enabled(trans.AsRequest(), k);
      var fastBackdoor := r.ptr + trans.address - r.start;
      for i := 0 to trans.dataLength
        invariant Moved(trans, r, i, start)
      {
        MoveByte(trans, r, fastBackdoor + i % trans.streamingWidth, i, start);
      }
    }

    /** A transaction is served through a range that allows it as a whole, or left alone. */
    method Transport(trans: Payload) returns (result: bool)
      requires trans.Legal() && Accessible(trans.AsRequest(), trans.block.Length)
      requires trans.address < SPACE && trans.dataLength < 0x1_0000_0000
      requires Inv(State())
      modifies this`mReadRanges, this`mWriteRanges, host`bytes, trans`response, trans.block
      ensures State() == if trans.command == Ignore then old(State())
                         else After(old(State()), Look(trans.address, trans.command == Read))
      ensures result == (trans.command != Ignore && Service(old(State()), trans).Some?)
      ensures if result then
                var r := Service(old(State()), trans).value;
                Contains(r, trans.address) && Moved(trans, r, trans.dataLength, old(host.StoreWith(trans)))
              else host.StoreWith(trans) == old(host.StoreWith(trans))
      ensures trans.response == if result then OkResponse else old(trans.response)
    {
      if trans.command == Ignore {
        return false;
      }
      var wide := trans.streamingWidth >= trans.dataLength;
      var range := GetRangeFor(trans.address, if wide then trans.dataLength else trans.streamingWidth, trans.command == Read);
      if range.None? {
        return false;
      }
      if wide {
        CopyData(trans, range.value);
      } else {
        StreamData(trans, range.value);
      }
      trans.response := OkResponse;
      return true;
    }

    /** The range that serves the transaction. */
    ghost function Service(c: Cache, trans: Payload): (r: Option<Range>)
      requires trans.Legal() && trans.address < SPACE && trans.dataLength < 0x1_0000_0000
      reads trans
      ensures r.Some? ==> Contains(r.value, trans.address)
    {
      Serving(c, trans.address, Span(trans.AsRequest()), trans.command == Read)
    }
  }
}
