/**
 The ranges that a DMI handler keeps from its target, on values: look-ups with
 move-to-front, invalidation, and the two switches that turn DMI off.
 */
module DmiCache {
  import opened Options
  import opened GenericPayload

  const SPACE: nat := 0x1_0000_0000_0000_0000
  type Address = x: int | 0 <= x < SPACE

  datatype Access = NoAccess | ReadOnly | WriteOnly | ReadWrite

  /** A DMI descriptor: addresses start to end, the first of which lies at `ptr` in host memory. */
  datatype Range = Range(start: Address, end: Address, access: Access, ptr: nat)

  const DENY_ALL := Range(0, SPACE - 1, NoAccess, 0)
  const NOTHING := Range(1, 0, NoAccess, 0)

  /** What the target's get_direct_mem_ptr gives back. */
  datatype Answer = Answer(granted: bool, range: Range)

  /** Where the target keeps the byte of an address, who may access it, and what it answers. */
  datatype Target = Target(place: nat -> nat, may: (nat, bool) -> bool, answers: (Address, bool) -> Answer)

  predicate Contains(r: Range, address: nat) {
    r.start <= address <= r.end
  }

  predicate Allows(r: Range, read: bool) {
    r.access == ReadWrite || r.access == if read then ReadOnly else WriteOnly
  }

  /** What the range permits, the target permits, and its bytes are where the range says. */
  ghost predicate Faithful(r: Range, t: Target) {
    forall a: nat, read: bool :: Contains(r, a) && Allows(r, read) ==> t.may(a, read) && t.place(a) == r.ptr + a - r.start
  }

  ghost predicate Honest(t: Target) {
    forall a: Address, read: bool :: t.answers(a, read).granted ==> Faithful(t.answers(a, read).range, t)
  }

  /** A denied range is kept without access. */
  function Kept(answer: Answer): Range {
    if answer.granted then answer.range else answer.range.(access := NoAccess)
  }

  /** `allowed` is the abstraction level switch. */
  datatype Cache = Cache(enabled: bool, allowed: bool, readRanges: seq<Range>, writeRanges: seq<Range>, target: Target)
  {
    function Ranges(read: bool): seq<Range> {
      if read then readRanges else writeRanges
    }

    function With(read: bool, ranges: seq<Range>): Cache {
      if read then this.(readRanges := ranges) else this.(writeRanges := ranges)
    }

    predicate On() {
      enabled && allowed
    }

    function Sentinel(): Range {
      if On() then NOTHING else DENY_ALL
    }

    function Cleared(): Cache {
      this.(readRanges := [Sentinel()], writeRanges := [Sentinel()])
    }
  }

  /** The first range that contains the address. */
  function Search(ranges: seq<Range>, address: nat): (k: Option<nat>)
    ensures k.Some? ==> k.value < |ranges| && Contains(ranges[k.value], address)
    ensures forall i :: 0 <= i < (if k.Some? then k.value else |ranges|) ==> !Contains(ranges[i], address)
  {
    if ranges == [] then None
    else if Contains(ranges[0], address) then Some(0)
    else
      var k := Search(ranges[1..], address);
      if k.Some? then Some(k.value + 1) else None
  }

  lemma SearchIsFirst(ranges: seq<Range>, address: nat, k: nat)
    requires k < |ranges| && Contains(ranges[k], address)
    requires forall i :: 0 <= i < k ==> !Contains(ranges[i], address)
    ensures Search(ranges, address) == Some(k)
  {
  }

  function ToFront(ranges: seq<Range>, k: nat): seq<Range>
    requires k < |ranges|
  {
    [ranges[k]] + ranges[..k] + ranges[k + 1..]
  }

  /** The range for an address, from the cache or else from the target; none when the target's answer is elsewhere. */
  function Found(c: Cache, address: Address, read: bool): Option<Range> {
    var k := Search(c.Ranges(read), address);
    if k.Some? then Some(c.Ranges(read)[k.value])
    else
      var r := Kept(c.target.answers(address, read));
      if Contains(r, address) then Some(r) else None
  }

  function Looked(c: Cache, address: Address, read: bool): Cache {
    var ranges := c.Ranges(read);
    var k := Search(ranges, address);
    if k.Some? then c.With(read, ToFront(ranges, k.value))
    else
      var r := Kept(c.target.answers(address, read));
      if Contains(r, address) then c.With(read, [r] + ranges) else c
  }

  datatype Event =
    | Look(address: Address, read: bool)
    | Invalidate
    | Enable
    | Disable
    | Switch(allowed: bool)
    | Change(target: Target)

  datatype Events = Done | Then(event: Event, rest: Events)

  /** The target invalidates before it changes. */
  function After(c: Cache, event: Event): Cache {
    match event
    case Look(address, read) => Looked(c, address, read)
    case Invalidate => c.Cleared()
    case Enable => if c.enabled then c else c.(enabled := true).Cleared()
    case Disable => if c.enabled then c.(enabled := false).Cleared() else c
    case Switch(allowed) => if c.allowed == allowed then c else c.(allowed := allowed).Cleared()
    case Change(target) => c.Cleared().(target := target)
  }

  function Run(c: Cache, events: Events): Cache
    decreases events
  {
    match events
    case Done => c
    case Then(event, rest) => Run(After(c, event), rest)
  }

  ghost predicate HonestTargets(events: Events)
    decreases events
  {
    match events
    case Done => true
    case Then(event, rest) => (event.Change? ==> Honest(event.target)) && HonestTargets(rest)
  }

  /** The range is the target's answer for some address in it. */
  ghost predicate FromTarget(r: Range, t: Target, read: bool) {
    exists a: Address :: r == Kept(t.answers(a, read)) && Contains(r, a)
  }

  /** While DMI is off, only the deny-all entry; while it is on, what the target of now answered, and the sentinel. */
  ghost predicate Sound(c: Cache, read: bool) {
    var ranges := c.Ranges(read);
    && ranges != [] && ranges[|ranges| - 1] == c.Sentinel()
    && (!c.On() ==> |ranges| == 1)
    && forall i :: 0 <= i < |ranges| - 1 ==> FromTarget(ranges[i], c.target, read)
  }

  ghost predicate Inv(c: Cache) {
    Sound(c, true) && Sound(c, false) && Honest(c.target)
  }

  lemma {:induction false} MoveKeeps(c: Cache, k: nat, read: bool)
    requires Sound(c, read) && c.On() && k < |c.Ranges(read)| - 1
    ensures Sound(c.With(read, ToFront(c.Ranges(read), k)), read)
  {
  }

  lemma {:induction false} PushKeeps(c: Cache, r: Range, read: bool)
    requires Sound(c, read) && c.On() && FromTarget(r, c.target, read)
    ensures Sound(c.With(read, [r] + c.Ranges(read)), read)
  {
  }

  lemma {:induction false} OffStays(c: Cache, address: Address, read: bool)
    requires Sound(c, read) && !c.On()
    ensures Found(c, address, read) == Some(DENY_ALL) && Looked(c, address, read) == c
  {
  }

  lemma {:induction false} LookKeeps(c: Cache, address: Address, read: bool)
    requires Inv(c)
    ensures Inv(Looked(c, address, read))
  {
    var k := Search(c.Ranges(read), address);
    var r := Kept(c.target.answers(address, read));
    if !c.On() {
      OffStays(c, address, read);
    } else if k.Some? {
      MoveKeeps(c, k.value, read);
    } else if Contains(r, address) {
      PushKeeps(c, r, read);
    }
  }

  lemma {:induction false} StepKeeps(c: Cache, event: Event)
    requires Inv(c) && (event.Change? ==> Honest(event.target))
    ensures Inv(After(c, event))
  {
    if event.Look? {
      LookKeeps(c, event.address, event.read);
    }
  }

  /** Where every run begins. */
  lemma ClearedIsSound(c: Cache)
    requires Honest(c.target)
    ensures Inv(c.Cleared())
  {
  }

  /** Over every run, each cached range other than the sentinel was answered by the target
      since the last invalidation. */
  lemma {:induction false} RunKeeps(c: Cache, events: Events)
    requires Inv(c) && HonestTargets(events)
    ensures Inv(Run(c, events))
    decreases events
  {
    match events
    case Done =>
    case Then(event, rest) =>
      StepKeeps(c, event);
      RunKeeps(After(c, event), rest);
  }

  /** A range that a look-up finds and that allows the access is one the target stands by; with DMI off there is none. */
  lemma {:induction false} FoundIsGranted(c: Cache, address: Address, read: bool)
    requires Inv(c)
    ensures var r := Found(c, address, read);
            r.Some? && Allows(r.value, read) ==> c.On() && Contains(r.value, address) && Faithful(r.value, c.target)
    ensures !c.On() ==> Found(c, address, read) == Some(DENY_ALL) && Looked(c, address, read) == c
  {
  }

  /** With DMI disabled, or not allowed by the abstraction level switch, every address is denied. */
  lemma {:induction false} OffDenies(c: Cache, address: Address, read: bool)
    requires Inv(c) && !(c.enabled && c.allowed)
    ensures Found(c, address, read) == Some(DENY_ALL) && DENY_ALL.access == NoAccess
  {
    FoundIsGranted(c, address, read);
  }

  /** Looking again finds the same range in front, and neither asks the target nor moves anything. */
  lemma {:induction false} LookingAgain(c: Cache, address: Address, read: bool)
    requires Found(c, address, read).Some?
    ensures var d := Looked(c, address, read);
            && Search(d.Ranges(read), address) == Some(0)
            && Found(d, address, read) == Found(c, address, read)
            && Looked(d, address, read) == d
  {
    var d := Looked(c, address, read);
    assert d.Ranges(read)[0] == Found(c, address, read).value;
    assert ToFront(d.Ranges(read), 0) == d.Ranges(read);
  }

  /** The switches do what they say, and an invalidation changes nothing but the lists. */
  lemma {:induction false} SwitchesWork(c: Cache, allowed: bool)
    ensures After(c, Enable).enabled && !After(c, Disable).enabled && After(c, Switch(allowed)).allowed == allowed
    ensures forall e :: e in {Enable, Disable, Switch(allowed), Invalidate} ==>
              && After(c, e).target == c.target
              && (After(c, e).enabled == c.enabled || e == Enable || e == Disable)
              && (After(c, e).allowed == c.allowed || e == Switch(allowed))
              && (e == Invalidate || After(c, e).On() != c.On() ==> After(c, e) == After(c, e).Cleared())
    ensures c.enabled ==> After(c, Enable) == c
    ensures !c.enabled ==> After(c, Disable) == c
    ensures c.allowed == allowed ==> After(c, Switch(allowed)) == c
  {
  }

  /** With DMI on, an address that no cached range has is asked of the target, whose answer is kept. */
  lemma {:induction false} UnknownIsAsked(c: Cache, address: Address, read: bool)
    requires var ranges := c.Ranges(read);
             forall i :: 0 <= i < |ranges| ==> address < ranges[i].start || ranges[i].end < address
    requires var r := c.target.answers(address, read).range; r.start <= address <= r.end
    ensures var answer := c.target.answers(address, read);
            var kept := if answer.granted then answer.range else answer.range.(access := NoAccess);
            Found(c, address, read) == Some(kept) && Looked(c, address, read).Ranges(read) == [kept] + c.Ranges(read)
  {
  }

  /** After an invalidation that is every address, as long as DMI is on. */
  lemma {:induction false} ClearedKnowsNothing(c: Cache, address: Address, read: bool)
    requires c.enabled && c.allowed
    ensures var ranges := c.Cleared().Ranges(read);
            forall i :: 0 <= i < |ranges| ==> address < ranges[i].start || ranges[i].end < address
  {
  }

  // ----- the end of the access -----

  /** The last address of an access, in unsigned 64-bit arithmetic. */
  function Last(address: Address, length: nat): (last: nat)
    requires length < 0x1_0000_0000
    ensures last < SPACE
  {
    (address + length + SPACE - 1) % SPACE
  }

  /** The range that serves an access of this length. */
  function Serving(c: Cache, address: Address, length: nat, read: bool): Option<Range>
    requires length < 0x1_0000_0000
  {
    var r := Found(c, address, read);
    if r.None? || r.value.end < Last(address, length) || !Allows(r.value, read) then None else r
  }

  /** The end check lets exactly the accesses through that stay inside the range, and those
      that run over the end of the address space. */
  lemma {:induction false} EndCheckIsExact(r: Range, address: Address, length: nat)
    requires Contains(r, address) && 0 < length < 0x1_0000_0000
    ensures Last(address, length) <= r.end <==> address + length - 1 <= r.end || SPACE < address + length
  {
  }

  /** An access that lies in the range found, which allows its kind or both, is served. */
  lemma {:induction false} AllowedIsServed(c: Cache, address: Address, length: nat, read: bool, r: Range)
    requires 0 < length < 0x1_0000_0000 && Found(c, address, read) == Some(r) && r.start <= address
    requires address + length - 1 <= r.end && (r.access == ReadWrite || r.access == if read then ReadOnly else WriteOnly)
    ensures Serving(c, address, length, read) == Some(r)
  {
    EndCheckIsExact(r, address, length);
  }

  /** One whose kind is not allowed is not. */
  lemma {:induction false} DeniedIsNotServed(c: Cache, address: Address, length: nat, read: bool, r: Range)
    requires length < 0x1_0000_0000 && Found(c, address, read) == Some(r)
    requires r.access == NoAccess || r.access == if read then WriteOnly else ReadOnly
    ensures Serving(c, address, length, read) == None
  {
  }

  /** A target whose first hundred bytes may be read, and lie in host memory in order. */
  function ExampleTarget(): Target {
    Target(a => a, (a, read) => read && a < 100, (a, read) => Answer(a < 100, Range(0, 99, ReadOnly, 0)))
  }

  /** It is an honest one; reads are served after a look-up, writes are not. */
  lemma {:induction false} HonestExample()
    ensures var t := ExampleTarget();
            && Honest(t) && HonestTargets(Then(Look(5, true), Then(Change(t), Then(Look(5, true), Done))))
            && var c := Run(Cache(true, true, [], [], t).Cleared(), Then(Look(5, true), Done));
               Serving(c, 5, 4, true) == Some(Range(0, 99, ReadOnly, 0)) && Serving(c, 5, 4, false).None?
  {
    var t := ExampleTarget();
    var c := Cache(true, true, [], [], t).Cleared();
    ClearedKnowsNothing(c, 5, true);
    UnknownIsAsked(c, 5, true);
    LookingAgain(c, 5, true);
    var looked := Looked(c, 5, true);
    assert Run(c, Then(Look(5, true), Done)) == Run(looked, Done) == looked;
    AllowedIsServed(looked, 5, 4, true, Range(0, 99, ReadOnly, 0));
    UnknownIsAsked(looked, 5, false);
    DeniedIsNotServed(looked, 5, 4, false, Range(0, 99, ReadOnly, 0));
  }

  // ----- transfers through a range -----

  /** How many addresses a burst covers. */
  function Span(q: Request): nat {
    if q.streamingWidth >= q.length then q.length else q.streamingWidth
  }

  /** They are the addresses from its first up to the last that it meets. */
  lemma {:induction false} SpanIsExtent(q: Request)
    requires q.Valid() && 0 < q.length
    ensures forall k: nat :: k < q.length ==> Place(q, k) < q.address + Span(q)
    ensures 0 < Span(q) <= q.length && Place(q, Span(q) - 1) == q.address + Span(q) - 1
  {
    BurstRepeats(q, Span(q) - 1);
    if q.streamingWidth >= q.length {
      forall k: nat | k < q.length ensures Place(q, k) < q.address + Span(q) {
        BurstRepeats(q, k);
      }
    }
  }

  /** The burst in host memory. */
  function InHost(q: Request, r: Range): Request
    requires Contains(r, q.address)
  {
    q.(address := r.ptr + q.address - r.start)
  }

  /** The burst as the target itself carries it out: data index k meets the byte of address + k % streamingWidth. */
  ghost function TargetEffect(t: Target, command: Command, q: Request, n: nat, s: Store): (e: Store)
    requires q.Valid() && Accessible(q, |s.data|) && n <= q.length
    ensures |e.data| == |s.data|
  {
    if n == 0 then s
    else
      var before := TargetEffect(t, command, q, n - 1, s);
      if Enabled(q, n - 1) then Apply(command, Transfer(t.place(Place(q, n - 1)), q.base + n - 1), before) else before
  }

  lemma {:induction false} SameEffect(t: Target, command: Command, q: Request, r: Range, n: nat, s: Store)
    requires q.Valid() && Accessible(q, |s.data|) && n <= q.length
    requires Contains(r, q.address) && q.address + Span(q) - 1 <= r.end
    requires command != Ignore && Allows(r, command == Read) && Faithful(r, t)
    ensures InHost(q, r).Valid() && Accessible(InHost(q, r), |s.data|)
    ensures Effect(command, InHost(q, r), n, s) == TargetEffect(t, command, q, n, s)
  {
    var h := InHost(q, r);
    assert forall k: nat :: Enabled(h, k) == Enabled(q, k);
    if n > 0 {
      SameEffect(t, command, q, r, n - 1, s);
      PlaceInSpan(q, n - 1);
      var a := Place(q, n - 1);
      assert Contains(r, a) && t.place(a) == r.ptr + a - r.start;
    }
  }

  lemma {:induction false} PlaceInSpan(q: Request, k: nat)
    requires q.Valid() && k < q.length
    ensures q.address <= Place(q, k) < q.address + Span(q)
  {
  }

  /** DMI is transparent: a burst through the range that the cache serves it with is the burst
      that the target would carry out, and the target permits every byte of it. */
  lemma {:induction false} ServedAsByTheTarget(c: Cache, command: Command, q: Request, s: Store)
    requires Inv(c) && q.Valid() && Accessible(q, |s.data|) && command != Ignore
    requires 0 < Span(q) < 0x1_0000_0000 && q.address + Span(q) <= SPACE
    requires Serving(c, q.address, Span(q), command == Read).Some?
    ensures var r := Serving(c, q.address, Span(q), command == Read).value;
            && c.On() && Contains(r, q.address) && q.address + Span(q) - 1 <= r.end
            && InHost(q, r).Valid() && Accessible(InHost(q, r), |s.data|)
            && Effect(command, InHost(q, r), q.length, s) == TargetEffect(c.target, command, q, q.length, s)
    ensures forall k: nat :: k < q.length ==> c.target.may(Place(q, k), command == Read)
  {
    var read := command == Read;
    var r := Serving(c, q.address, Span(q), read).value;
    FoundIsGranted(c, q.address, read);
    EndCheckIsExact(r, q.address, Span(q));
    SameEffect(c.target, command, q, r, q.length, s);
    forall k: nat | k < q.length ensures c.target.may(Place(q, k), read) {
      PlaceInSpan(q, k);
      assert Contains(r, Place(q, k));
    }
  }

  /** An access over the end of the address space is served although its range does not contain it. */
  lemma {:induction false} OverTheEnd(c: Cache, address: Address, length: nat, read: bool)
    requires length < 0x1_0000_0000 && SPACE < address + length
    requires Found(c, address, read).Some? && Allows(Found(c, address, read).value, read)
    ensures Contains(Found(c, address, read).value, address)
    ensures Serving(c, address, length, read) == Found(c, address, read)
    ensures address + length - 1 > Found(c, address, read).value.end
  {
  }
}
