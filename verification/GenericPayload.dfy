/**
 The meaning of a TLM-2.0 burst: which byte of the data block meets which byte of
 the target's memory, and in which order.

 A burst is a Request.  Following sections 14.13 to 14.15 of IEEE Std 1666-2011,
 data index k meets address + k % streamingWidth, and takes part only when its byte
 enable (the enable array repeats) is set.  Effect carries a burst out one data
 index at a time; ByteLoop lists the same byte transfers as a sequence, so that two
 ways of carrying out a burst can be compared.
 */
module GenericPayload {
  import opened Numbers
  import opened Options

  type Byte = x: int | 0 <= x < 256

  datatype Command = Read | Write | Ignore

  datatype Response = Incomplete | OkResponse | ErrorResponse

  /** One byte moved between memory[address] and data[index]. */
  datatype Transfer = Transfer(address: nat, index: int)

  /** What transfers act on: the target's memory and the initiator's data block. */
  datatype Store = Store(memory: map<nat, Byte>, data: seq<Byte>)

  /** A burst.  `base` is the position in the data block of data index 0. */
  datatype Request = Request(address: nat, base: int, length: nat,
                             enables: Option<seq<bool>>, streamingWidth: nat)
  {
    ghost predicate Valid() {
      && 0 < streamingWidth
      && (enables.Some? ==> |enables.value| > 0)
    }
  }

  predicate Enabled(r: Request, k: nat)
    requires r.Valid()
  {
    r.enables.None? || r.enables.value[k % |r.enables.value|]
  }

  /** The address that data index k meets. */
  function Place(r: Request, k: nat): nat
    requires r.Valid()
  {
    r.address + k % r.streamingWidth
  }

  lemma PlaceInFirstBeat(r: Request, k: nat)
    requires r.Valid() && k < r.streamingWidth
    ensures Place(r, k) == r.address + k
  {
  }

  /** Addresses repeat with the streaming width, enables with the length of their array. */
  lemma {:induction false} BurstRepeats(r: Request, k: nat)
    requires r.Valid()
    ensures k < r.streamingWidth ==> Place(r, k) == r.address + k
    ensures Place(r, k + r.streamingWidth) == Place(r, k)
    ensures r.enables.None? ==> Enabled(r, k)
    ensures r.enables.Some? ==> (k < |r.enables.value| ==> Enabled(r, k) == r.enables.value[k]) &&
                                Enabled(r, k + |r.enables.value|) == Enabled(r, k)
  {
    ModRepeats(k, r.streamingWidth);
    if r.enables.Some? { ModRepeats(k, |r.enables.value|); }
  }

  lemma ModRepeats(k: nat, m: nat)
    requires 0 < m
    ensures (k + m) % m == k % m && (k < m ==> k % m == k)
  {
    assert k == (k / m) * m + k % m && k + m == (k / m + 1) * m + k % m;
    ModUnique(k + m, k / m + 1, m, k % m);
    if k < m { ModSmall(k, m); }
  }

  /** Every enabled byte of the burst lies inside the data block. */
  ghost predicate Accessible(r: Request, size: nat)
    requires r.Valid()
  {
    forall k: nat :: k < r.length && Enabled(r, k) ==> 0 <= r.base + k < size
  }

  /** The data block is long enough for the whole burst. */
  ghost predicate Fits(r: Request, size: nat) {
    0 <= r.base && r.base + r.length <= size
  }

  // ----- a burst carried out byte by byte -----

  function ByteAt(memory: map<nat, Byte>, address: nat): Byte {
    if address in memory then memory[address] else 0
  }

  function Apply(command: Command, t: Transfer, s: Store): (r: Store)
    requires 0 <= t.index < |s.data|
    ensures |r.data| == |s.data|
  {
    match command
    case Read => s.(data := s.data[t.index := ByteAt(s.memory, t.address)])
    case Write => s.(memory := s.memory[t.address := s.data[t.index]])
    case Ignore => s
  }

  /** The effect of the first n data indices of a burst. */
  ghost function Effect(command: Command, r: Request, n: nat, s: Store): (e: Store)
    requires r.Valid() && Accessible(r, |s.data|) && n <= r.length
    ensures |e.data| == |s.data|
  {
    if n == 0 then s
    else
      var before := Effect(command, r, n - 1, s);
      if Enabled(r, n - 1) then Apply(command, Transfer(Place(r, n - 1), r.base + n - 1), before) else before
  }

  lemma {:induction false} IgnoreDoesNothing(r: Request, n: nat, s: Store)
    requires r.Valid() && Accessible(r, |s.data|) && n <= r.length
    ensures Effect(Ignore, r, n, s) == s
  {
    if n > 0 {
      IgnoreDoesNothing(r, n - 1, s);
    }
  }

  // ----- what a burst does, position by position -----

  /** A read fills each enabled data position from its memory byte and leaves every other position alone. */
  lemma {:induction false} EffectOfRead(r: Request, n: nat, s: Store)
    requires r.Valid() && Accessible(r, |s.data|) && n <= r.length
    ensures Effect(Read, r, n, s).memory == s.memory
    ensures forall i :: 0 <= i < |s.data| ==>
              Effect(Read, r, n, s).data[i] ==
              if r.base <= i < r.base + n && Enabled(r, i - r.base) then ByteAt(s.memory, Place(r, i - r.base))
              else s.data[i]
  {
    if n > 0 {
      EffectOfRead(r, n - 1, s);
    }
  }

  /** Data index k takes part and meets the given address. */
  predicate Meets(r: Request, k: nat, address: nat)
    requires r.Valid()
  {
    Enabled(r, k) && Place(r, k) == address
  }

  /** The last data index below n that meets the given address, if any. */
  ghost function LastWriter(r: Request, n: nat, address: nat): (k: Option<nat>)
    requires r.Valid()
    ensures k.Some? ==> k.value < n && Meets(r, k.value, address)
    ensures forall j: nat :: j < n && Meets(r, j, address) ==> k.Some? && j <= k.value
  {
    if n == 0 then None
    else if Meets(r, n - 1, address) then Some(n - 1)
    else LastWriter(r, n - 1, address)
  }

  /** A write leaves in each memory byte the data byte of the last enabled index that meets it. */
  lemma {:induction false} EffectOfWrite(r: Request, n: nat, s: Store, address: nat)
    requires r.Valid() && Accessible(r, |s.data|) && n <= r.length
    ensures Effect(Write, r, n, s).data == s.data
    ensures ByteAt(Effect(Write, r, n, s).memory, address) ==
            var k := LastWriter(r, n, address);
            if k.Some? then s.data[r.base + k.value] else ByteAt(s.memory, address)
  {
    if n > 0 {
      EffectOfWrite(r, n - 1, s, address);
    }
  }

  // ----- a burst as a sequence of transfers -----

  /** The transfers of data indices lo to hi - 1. */
  ghost function ByteRange(r: Request, lo: nat, hi: nat): seq<Transfer>
    requires r.Valid() && lo <= hi
    decreases hi
  {
    if lo == hi then []
    else ByteRange(r, lo, hi - 1) +
         if Enabled(r, hi - 1) then [Transfer(Place(r, hi - 1), r.base + hi - 1)] else []
  }

  ghost function ByteLoop(r: Request): seq<Transfer>
    requires r.Valid()
  {
    ByteRange(r, 0, r.length)
  }

  lemma {:induction false} ByteRangeSplit(r: Request, lo: nat, mid: nat, hi: nat)
    requires r.Valid() && lo <= mid <= hi
    ensures ByteRange(r, lo, hi) == ByteRange(r, lo, mid) + ByteRange(r, mid, hi)
    decreases hi
  {
    if mid < hi {
      ByteRangeSplit(r, lo, mid, hi - 1);
    }
  }

  ghost predicate InBounds(ts: seq<Transfer>, size: nat) {
    forall i :: 0 <= i < |ts| ==> 0 <= ts[i].index < size
  }

  ghost function ApplyAll(command: Command, ts: seq<Transfer>, s: Store): (r: Store)
    requires InBounds(ts, |s.data|)
    ensures |r.data| == |s.data|
  {
    if ts == [] then s
    else Apply(command, ts[|ts| - 1], ApplyAll(command, ts[..|ts| - 1], s))
  }

  lemma ApplyAllAppend(command: Command, ts: seq<Transfer>, t: Transfer, s: Store)
    requires InBounds(ts, |s.data|) && 0 <= t.index < |s.data|
    ensures InBounds(ts + [t], |s.data|)
    ensures ApplyAll(command, ts + [t], s) == Apply(command, t, ApplyAll(command, ts, s))
  {
  }

  lemma {:induction false} ApplyAllConcat(command: Command, ts: seq<Transfer>, us: seq<Transfer>, s: Store)
    requires InBounds(ts, |s.data|) && InBounds(us, |s.data|)
    ensures InBounds(ts + us, |s.data|)
    ensures ApplyAll(command, ts + us, s) == ApplyAll(command, us, ApplyAll(command, ts, s))
    decreases |us|
  {
    if us == [] {
      assert ts + us == ts;
    } else {
      var us', t := us[..|us| - 1], us[|us| - 1];
      ApplyAllConcat(command, ts, us', s);
      ApplyAllAppend(command, ts + us', t, s);
      assert ts + us == (ts + us') + [t];
    }
  }

  /** Carrying out a burst is applying its transfers in order. */
  lemma {:induction false} EffectIsTransfers(command: Command, r: Request, n: nat, s: Store)
    requires r.Valid() && Accessible(r, |s.data|) && n <= r.length
    ensures InBounds(ByteRange(r, 0, n), |s.data|)
    ensures Effect(command, r, n, s) == ApplyAll(command, ByteRange(r, 0, n), s)
  {
    if n > 0 {
      EffectIsTransfers(command, r, n - 1, s);
      var ts := ByteRange(r, 0, n - 1);
      if Enabled(r, n - 1) {
        ApplyAllAppend(command, ts, Transfer(Place(r, n - 1), r.base + n - 1), s);
      } else {
        assert ByteRange(r, 0, n) == ts;
      }
    }
  }
}
