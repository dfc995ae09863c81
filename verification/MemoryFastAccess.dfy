/**
 A generic payload object and the memory that serves it directly.  Transport is the
 memory's own routine; it is proved to carry out the byte loop of the payload.
 */
module MemoryFastAccess {
  import opened Options
  import opened GenericPayload

  /** A payload.  Its data pointer is a position in a block of host memory; a byte-enable pointer
      is the array that lies behind it, because nothing writes through it. */
  class Payload {
    var command: Command
    var address: nat
    const block: array<Byte>
    var dataPtr: int
    var dataLength: nat
    var byteEnablePtr: Option<seq<bool>>
    var byteEnableLength: nat
    var streamingWidth: nat
    var response: Response

    constructor (block: array<Byte>)
      ensures this.block == block
    {
      this.block := block;
    }

    ghost predicate Legal()
      reads this
    {
      && 0 < streamingWidth
      && (byteEnablePtr.Some? ==> 0 < byteEnableLength <= |byteEnablePtr.value|)
    }

    ghost function AsRequest(): (r: Request)
      requires Legal()
      reads this
      ensures r.Valid()
    {
      Request(address, dataPtr, dataLength,
              if byteEnablePtr.None? then None else Some(byteEnablePtr.value[..byteEnableLength]),
              streamingWidth)
    }

    predicate IsEnabled(i: nat)
      requires Legal()
      reads this
      ensures IsEnabled(i) == Enabled(AsRequest(), i)
    {
      byteEnablePtr.None? || byteEnablePtr.value[i % byteEnableLength]
    }
  }

  class Memory {
    var bytes: map<nat, Byte>
    /** Which accesses, counted from zero, this target answers with an error. */
    const refuses: nat -> bool
    var accesses: nat
    /** The accesses that the target was given, in order. */
    ghost var asked: seq<Request>

    constructor (refuses: nat -> bool)
      ensures bytes == map[] && accesses == 0 && asked == [] && this.refuses == refuses
    {
      bytes := map[];
      this.refuses := refuses;
      accesses, asked := 0, [];
    }

    ghost function StoreWith(trans: Payload): Store
      reads this, trans.block
    {
      Store(bytes, trans.block[..])
    }

    /** The first n data indices of the payload have been carried out, starting from `start`. */
    ghost predicate CarriedOut(trans: Payload, n: nat, start: Store)
      reads this, trans, trans.block
    {
      && trans.Legal() && Accessible(trans.AsRequest(), trans.block.Length)
      && n <= trans.dataLength
      && |start.data| == trans.block.Length
      && StoreWith(trans) == Effect(trans.command, trans.AsRequest(), n, start)
    }

    method CopyByte(trans: Payload, place: nat, index: nat)
      requires index < trans.block.Length
      modifies this`bytes, trans.block
      ensures StoreWith(trans) == Apply(trans.command, Transfer(place, index), old(StoreWith(trans)))
    {
      match trans.command {
        case Read => trans.block[index] := ByteAt(bytes, place);
        case Write => bytes := bytes[place := trans.block[index]];
        case Ignore =>
      }
    }

    /** Data index i, when enabled, meets the byte at `place`. */
    method MoveByte(trans: Payload, place: nat, i: nat, ghost start: Store)
      requires CarriedOut(trans, i, start)
      requires i < trans.dataLength && place == Place(trans.AsRequest(), i)
      modifies this`bytes, trans.block
      ensures CarriedOut(trans, i + 1, start)
    {
      if trans.IsEnabled(i) {
        CopyByte(trans, place, trans.dataPtr + i);
      }
    }

    /** The contiguous copy: data index i meets address + i. */
    method CopyData(trans: Payload)
      requires trans.Legal() && Accessible(trans.AsRequest(), trans.block.Length)
      requires trans.streamingWidth >= trans.dataLength
      modifies this`bytes, trans.block
      ensures CarriedOut(trans, trans.dataLength, old(StoreWith(trans)))
    {
      ghost var start := StoreWith(trans);
      for i := 0 to trans.dataLength
        invariant CarriedOut(trans, i, start)
      {
        PlaceInFirstBeat(trans.AsRequest(), i);
        MoveByte(trans, trans.address + i, i, start);
      }
    }

    /** One contiguous copy when the streaming width covers the data, else byte by byte. */
    method Transport(trans: Payload)
      requires trans.Legal() && Accessible(trans.AsRequest(), trans.block.Length)
      modifies this`bytes, trans`response, trans.block
      ensures trans.response == OkResponse
      ensures CarriedOut(trans, trans.dataLength, old(StoreWith(trans)))
    {
      ghost var start := StoreWith(trans);
      if trans.command == Ignore {
        IgnoreDoesNothing(trans.AsRequest(), trans.dataLength, start);
      } else if trans.streamingWidth >= trans.dataLength {
        CopyData(trans);
      } else {
        for i := 0 to trans.dataLength
          invariant CarriedOut(trans, i, start)
        {
          MoveByte(trans, trans.address + i % trans.streamingWidth, i, start);
        }
      }
      trans.response := OkResponse;
    }

    /** What a target that honours byte enables does with one access: it refuses it and touches nothing,
        or it carries it out. */
    method Process(trans: Payload)
      requires trans.Legal() && Accessible(trans.AsRequest(), trans.block.Length)
      modifies this`bytes, this`accesses, this`asked, trans`response, trans.block
      ensures accesses == old(accesses) + 1 && asked == old(asked) + [old(trans.AsRequest())]
      ensures trans.Legal() && trans.AsRequest() == old(trans.AsRequest())
      ensures trans.response == if refuses(old(accesses)) then ErrorResponse else OkResponse
      ensures if refuses(old(accesses)) then StoreWith(trans) == old(StoreWith(trans))
              else CarriedOut(trans, trans.dataLength, old(StoreWith(trans)))
    {
      asked := asked + [trans.AsRequest()];
      if refuses(accesses) {
        trans.response := ErrorResponse;
      } else {
        Transport(trans);
      }
      accesses := accesses + 1;
    }
  }
}
