/**
 The burst unroller turns any burst into aligned accesses of one word each.

 Word(r, w, i) is the word access that starts at data index i of burst r.  The main
 results: the word accesses move exactly the bytes of the byte loop, in the same
 order, if and only if no word access enables a byte beyond its chunk of the burst
 (UnrollingIsByteLoop); each is one whole aligned word (WordIsAligned); and the in-place
 routine leaves memory, data block and payload as the byte loop of the burst does, on
 success and on the first error.
 */
module BurstUnroller {
  import opened Options
  import opened GenericPayload
  import opened MemoryFastAccess
  import opened Numbers

  // ----- the word access at a data index -----

  /** The streaming width used: never more than the data length. */
  function BeatWidth(r: Request): nat {
    Min(r.length, r.streamingWidth)
  }

  /** The position of data index i inside its streaming beat. */
  function BeatPosition(r: Request, i: nat): (p: nat)
    requires r.Valid() && i < r.length
    ensures p < BeatWidth(r)
  {
    i % BeatWidth(r)
  }

  function WordOffset(r: Request, w: nat): (o: nat)
    requires 0 < w
    ensures o < w && o <= r.address
  {
    ModAtMost(r.address, w);
    r.address % w
  }

  function ChunkOffset(r: Request, w: nat, i: nat): nat
    requires r.Valid() && i < r.length && 0 < w
  {
    if BeatPosition(r, i) == 0 then WordOffset(r, w) else 0
  }

  function BytesLeftInBeat(r: Request, i: nat): (n: nat)
    requires r.Valid() && i < r.length
  {
    Min(BeatWidth(r) - BeatPosition(r, i), r.length - i)
  }

  /** How many bytes of the burst the word access at data index i carries. */
  function ChunkLength(r: Request, w: nat, i: nat): (n: nat)
    requires r.Valid() && i < r.length && 0 < w
    ensures 0 < n <= w - ChunkOffset(r, w, i)
    ensures i + n <= r.length && BeatPosition(r, i) + n <= BeatWidth(r)
  {
    Min(w - ChunkOffset(r, w, i), BytesLeftInBeat(r, i))
  }

  function ChunkAddress(r: Request, w: nat, i: nat): nat
    requires r.Valid() && i < r.length && 0 < w
  {
    r.address + BeatPosition(r, i) - ChunkOffset(r, w, i)
  }

  /** The original byte-enable array is passed on as it is. */
  predicate PassesEnables(r: Request, w: nat, i: nat)
    requires r.Valid() && i < r.length && 0 < w
  {
    r.enables.Some? && ChunkOffset(r, w, i) == 0 && |r.enables.value| >= i + Max(w, r.length)
  }

  /** The enable of byte j of a word whose enables are built from scratch. */
  predicate BuiltEnable(r: Request, w: nat, i: nat, j: nat)
    requires r.Valid() && i < r.length && 0 < w
  {
    var o := ChunkOffset(r, w, i);
    o <= j < o + ChunkLength(r, w, i) && Enabled(r, i + j - o)
  }

  function WordEnables(r: Request, w: nat, i: nat): Option<seq<bool>>
    requires r.Valid() && i < r.length && 0 < w
  {
    if PassesEnables(r, w, i) then Some(r.enables.value[i..])
    else if r.enables.None? && ChunkLength(r, w, i) == w then None
    else Some(seq(w, j requires 0 <= j => BuiltEnable(r, w, i, j)))
  }

  function Word(r: Request, w: nat, i: nat): (word: Request)
    requires r.Valid() && i < r.length && 0 < w
    ensures word.Valid()
  {
    Request(ChunkAddress(r, w, i), r.base + i - ChunkOffset(r, w, i), w, WordEnables(r, w, i), w)
  }

  /** All transfers of the word accesses from data index i on. */
  ghost function Unrolled(r: Request, w: nat, i: nat): seq<Transfer>
    requires r.Valid() && 0 < w && i <= r.length
    decreases r.length - i
  {
    if i == r.length then []
    else ByteLoop(Word(r, w, i)) + Unrolled(r, w, i + ChunkLength(r, w, i))
  }

  // ----- which bursts unroll faithfully -----

  /** A word access starts at data index i: at the start of a beat or at an aligned address. */
  predicate ChunkStart(r: Request, w: nat, i: nat)
    requires r.Valid() && i < r.length && 0 < w
  {
    BeatPosition(r, i) == 0 || (WordOffset(r, w) + BeatPosition(r, i)) % w == 0
  }

  /** The word access at data index i enables a byte that is not part of its chunk. */
  ghost predicate Stray(r: Request, w: nat, i: nat)
    requires r.Valid() && i < r.length && 0 < w
  {
    PassesEnables(r, w, i) && exists j :: i + ChunkLength(r, w, i) <= j < i + w && r.enables.value[j]
  }

  ghost predicate NoStrayBytes(r: Request, w: nat)
    requires r.Valid() && 0 < w
  {
    forall i: nat :: i < r.length && ChunkStart(r, w, i) ==> !Stray(r, w, i)
  }

  // ----- arithmetic -----

  lemma ModAtMost(x: nat, m: nat)
    requires 0 < m
    ensures x % m <= x
  {
  }

  lemma ModAdd(i: nat, j: nat, m: nat)
    requires 0 < m && i % m + j <= m
    ensures (i + j) % m == if i % m + j < m then i % m + j else 0
  {
    var q := i / m;
    assert i == q * m + i % m;
    if i % m + j < m {
      ModUnique(i + j, q, m, i % m + j);
    } else {
      assert i + j == (q + 1) * m + 0;
      ModUnique(i + j, q + 1, m, 0);
    }
  }

  lemma ModStep(x: nat, m: nat)
    requires 0 < m && (x == 0 || x % m == 0)
    ensures (x + m) % m == 0
  {
    if x == 0 {
      ModSmall(0, m);
    }
    ModAdd(x, m, m);
  }

  // ----- one word access -----

  /** Byte j of the chunk meets the same address in the word access as in the burst. */
  lemma ChunkPlaces(r: Request, w: nat, i: nat, j: nat)
    requires r.Valid() && i < r.length && 0 < w && j < ChunkLength(r, w, i)
    ensures Place(Word(r, w, i), ChunkOffset(r, w, i) + j) == Place(r, i + j)
  {
    PlaceInFirstBeat(Word(r, w, i), ChunkOffset(r, w, i) + j);
    if r.streamingWidth <= r.length {
      ModAdd(i, j, r.streamingWidth);
    } else {
      ModSmall(i, r.length);
      PlaceInFirstBeat(r, i + j);
    }
  }

  lemma ChunkEnables(r: Request, w: nat, i: nat, j: nat)
    requires r.Valid() && i < r.length && 0 < w && j < w
    ensures j < ChunkOffset(r, w, i) ==> !Enabled(Word(r, w, i), j)
    ensures ChunkOffset(r, w, i) <= j < ChunkOffset(r, w, i) + ChunkLength(r, w, i) ==>
              Enabled(Word(r, w, i), j) == Enabled(r, i + j - ChunkOffset(r, w, i))
    ensures ChunkOffset(r, w, i) + ChunkLength(r, w, i) <= j ==>
              Enabled(Word(r, w, i), j) == (PassesEnables(r, w, i) && r.enables.value[i + j])
  {
    if PassesEnables(r, w, i) {
      ModSmall(j, |r.enables.value| - i);
      if i + j < r.length {
        ModSmall(i + j, |r.enables.value|);
      }
    } else {
      ModSmall(j, w);
    }
  }

  lemma {:induction false} DisabledRange(r: Request, lo: nat, hi: nat)
    requires r.Valid() && lo <= hi
    requires forall k: nat :: lo <= k < hi ==> !Enabled(r, k)
    ensures ByteRange(r, lo, hi) == []
    decreases hi
  {
    if lo < hi {
      DisabledRange(r, lo, hi - 1);
    }
  }

  lemma {:induction false} ChunkTransfers(r: Request, w: nat, i: nat, n: nat)
    requires r.Valid() && i < r.length && 0 < w && n <= ChunkLength(r, w, i)
    ensures var o := ChunkOffset(r, w, i);
            ByteRange(Word(r, w, i), o, o + n) == ByteRange(r, i, i + n)
    decreases n
  {
    if n > 0 {
      ChunkTransfers(r, w, i, n - 1);
      ChunkPlaces(r, w, i, n - 1);
      ChunkEnables(r, w, i, ChunkOffset(r, w, i) + n - 1);
    }
  }

  /** What a word access moves beyond its chunk. */
  ghost function Tail(r: Request, w: nat, i: nat): seq<Transfer>
    requires r.Valid() && i < r.length && 0 < w
  {
    ByteRange(Word(r, w, i), ChunkOffset(r, w, i) + ChunkLength(r, w, i), w)
  }

  /** The transfers of a word access: its chunk of the burst, then its tail. */
  lemma WordTransfers(r: Request, w: nat, i: nat)
    requires r.Valid() && i < r.length && 0 < w
    ensures ByteLoop(Word(r, w, i)) == ByteRange(r, i, i + ChunkLength(r, w, i)) + Tail(r, w, i)
  {
    var word, o, n := Word(r, w, i), ChunkOffset(r, w, i), ChunkLength(r, w, i);
    forall j: nat | j < o ensures !Enabled(word, j) {
      ChunkEnables(r, w, i, j);
    }
    DisabledRange(word, 0, o);
    ByteRangeSplit(word, 0, o, w);
    ByteRangeSplit(word, o, o + n, w);
    ChunkTransfers(r, w, i, n);
  }

  lemma TailIsStray(r: Request, w: nat, i: nat)
    requires r.Valid() && i < r.length && 0 < w
    ensures Stray(r, w, i) <==> Tail(r, w, i) != []
  {
    var word, end := Word(r, w, i), ChunkOffset(r, w, i) + ChunkLength(r, w, i);
    if Stray(r, w, i) {
      var j :| i + ChunkLength(r, w, i) <= j < i + w && r.enables.value[j];
      ChunkEnables(r, w, i, j - i);
      ByteRangeSplit(word, end, j - i, w);
      ByteRangeSplit(word, j - i, j - i + 1, w);
    } else {
      forall j: nat | end <= j < w ensures !Enabled(word, j) {
        ChunkEnables(r, w, i, j);
      }
      DisabledRange(word, end, w);
    }
  }

  // ----- where the words lie -----

  lemma ModOfSum(a: nat, p: nat, w: nat)
    requires 0 < w
    ensures (a % w + p) % w == (a + p) % w
  {
    var y := a % w + p;
    assert a == (a / w) * w + a % w && y == (y / w) * w + y % w;
    assert a + p == (a / w + y / w) * w + y % w;
    ModUnique(a + p, a / w + y / w, w, y % w);
  }

  lemma BeatIsPlace(r: Request, i: nat)
    requires r.Valid() && i < r.length
    ensures BeatPosition(r, i) == i % r.streamingWidth
  {
    if r.length < r.streamingWidth {
      ModSmall(i, r.length);
      ModSmall(i, r.streamingWidth);
    }
  }

  /** A word access starts where the streaming beat starts, or where the burst comes to the next word. */
  lemma StartsAtWord(r: Request, w: nat, i: nat)
    requires r.Valid() && 0 < w && i < r.length
    ensures ChunkStart(r, w, i) <==> i % r.streamingWidth == 0 || Place(r, i) % w == 0
  {
    BeatIsPlace(r, i);
    ModOfSum(r.address, BeatPosition(r, i), w);
  }

  /** It is an access of one whole word, aligned: the word around the address that its first data index meets. */
  lemma WordIsAligned(r: Request, w: nat, i: nat)
    requires r.Valid() && 0 < w && i < r.length && ChunkStart(r, w, i)
    ensures var word, a := Word(r, w, i), Place(r, i);
            && word.address == a - a % w && word.base == r.base + i - a % w
            && IsWord(word, w)
  {
    BeatIsPlace(r, i);
    StartsAtWord(r, w, i);
    var a := Place(r, i);
    ModAtMost(a, w);
    assert a == (a / w) * w + a % w;
    ModUnique(a - a % w, a / w, w, 0);
  }

  predicate IsWord(q: Request, w: nat)
    requires 0 < w
  {
    q.address % w == 0 && q.length == w && q.streamingWidth == w
  }

  /** The bytes left in the beat are those before its end and the end of the burst. */
  lemma LeftInBeat(r: Request, i: nat, k: nat)
    requires r.Valid() && i <= k < r.length
    ensures k < i + BytesLeftInBeat(r, i) <==> i % r.streamingWidth + (k - i) < r.streamingWidth
  {
    BeatIsPlace(r, i);
    if r.length < r.streamingWidth {
      ModSmall(i, r.length);
    }
  }

  /** Its chunk has exactly the data indices from there on that come in the same beat and meet the same word. */
  lemma ChunkIsRestOfWord(r: Request, w: nat, i: nat, k: nat)
    requires r.Valid() && 0 < w && i <= k < r.length && ChunkStart(r, w, i)
    ensures k < i + ChunkLength(r, w, i) <==>
              i % r.streamingWidth + (k - i) < r.streamingWidth &&
              Place(r, i) + (k - i) < Word(r, w, i).address + w
  {
    LeftInBeat(r, i, k);
    BeatIsPlace(r, i);
    assert Place(r, i) == Word(r, w, i).address + ChunkOffset(r, w, i);
  }

  /** Only whole words have been asked for since `before`. */
  ghost predicate OnlyWords(before: seq<Request>, after: seq<Request>, w: nat)
    requires 0 < w
  {
    before <= after && forall k :: |before| <= k < |after| ==> IsWord(after[k], w)
  }

  // ----- consecutive word accesses -----

  /** A chunk that does not end its beat or the burst ends at a word boundary. */
  lemma ChunkEnd(r: Request, w: nat, i: nat)
    requires r.Valid() && i < r.length && 0 < w && ChunkStart(r, w, i)
    requires BeatPosition(r, i) + ChunkLength(r, w, i) < BeatWidth(r) && i + ChunkLength(r, w, i) < r.length
    ensures ChunkLength(r, w, i) == w - ChunkOffset(r, w, i)
    ensures (WordOffset(r, w) + BeatPosition(r, i) + ChunkLength(r, w, i)) % w == 0
  {
    if BeatPosition(r, i) == 0 {
      ModStep(0, w);
    } else {
      ModStep(WordOffset(r, w) + BeatPosition(r, i), w);
    }
  }

  /** Chunks follow each other without a gap: the next chunk starts where this one ends. */
  lemma NextChunk(r: Request, w: nat, i: nat)
    requires r.Valid() && i < r.length && 0 < w && ChunkStart(r, w, i)
    requires i + ChunkLength(r, w, i) < r.length
    ensures var i' := i + ChunkLength(r, w, i);
            && ChunkStart(r, w, i')
            && (if BeatPosition(r, i') == 0 then
                  && ChunkAddress(r, w, i') == r.address - WordOffset(r, w)
                  && BytesLeftInBeat(r, i') == Min(BeatWidth(r), r.length - i')
                else
                  && ChunkAddress(r, w, i') == ChunkAddress(r, w, i) + w
                  && BytesLeftInBeat(r, i') == BytesLeftInBeat(r, i) - ChunkLength(r, w, i))
  {
    ModAdd(i, ChunkLength(r, w, i), BeatWidth(r));
    if BeatPosition(r, i) + ChunkLength(r, w, i) < BeatWidth(r) {
      ChunkEnd(r, w, i);
    }
  }

  /** No other chunk starts inside a chunk. */
  lemma NoChunkInside(r: Request, w: nat, i: nat, k: nat)
    requires r.Valid() && 0 < w && i < r.length && ChunkStart(r, w, i) && i < k < i + ChunkLength(r, w, i)
    ensures k < r.length && !ChunkStart(r, w, k)
  {
    var o, p := WordOffset(r, w), BeatPosition(r, i);
    ModAdd(i, k - i, BeatWidth(r));
    if p == 0 {
      ModSmall(o, w);
    }
    ModAdd(o + p, k - i, w);
  }

  lemma {:induction false} FaithfulFrom(r: Request, w: nat, i: nat)
    requires r.Valid() && 0 < w && i <= r.length && NoStrayBytes(r, w)
    requires i < r.length ==> ChunkStart(r, w, i)
    ensures Unrolled(r, w, i) == ByteRange(r, i, r.length)
    decreases r.length - i
  {
    if i < r.length {
      var i' := i + ChunkLength(r, w, i);
      WordTransfers(r, w, i);
      TailIsStray(r, w, i);
      if i' < r.length {
        NextChunk(r, w, i);
      }
      FaithfulFrom(r, w, i');
      ByteRangeSplit(r, i, i', r.length);
    }
  }

  lemma UnrolledCount(r: Request, w: nat, i: nat)
    requires r.Valid() && 0 < w && i < r.length
    ensures var i' := i + ChunkLength(r, w, i);
            |Unrolled(r, w, i)| == |ByteRange(r, i, i')| + |Tail(r, w, i)| + |Unrolled(r, w, i')|
  {
    WordTransfers(r, w, i);
  }

  /** Unrolling never drops a byte, and a stray byte makes it move more bytes than the burst has. */
  lemma {:induction false} StrayFrom(r: Request, w: nat, i: nat, k: nat)
    requires r.Valid() && 0 < w && i <= r.length
    requires i < r.length ==> ChunkStart(r, w, i)
    ensures |Unrolled(r, w, i)| >= |ByteRange(r, i, r.length)|
    ensures i <= k < r.length && ChunkStart(r, w, k) && Stray(r, w, k) ==>
              |Unrolled(r, w, i)| > |ByteRange(r, i, r.length)|
    decreases r.length - i
  {
    if i < r.length {
      var i' := i + ChunkLength(r, w, i);
      WordTransfers(r, w, i);
      TailIsStray(r, w, i);
      if i' < r.length {
        NextChunk(r, w, i);
      }
      StrayFrom(r, w, i', k);
      ByteRangeSplit(r, i, i', r.length);
      UnrolledCount(r, w, i);
      if i < k < i' {
        NoChunkInside(r, w, i, k);
      }
    }
  }

  /** A burst starts with a chunk. */
  lemma FirstChunk(r: Request, w: nat)
    requires r.Valid() && 0 < w && 0 < r.length
    ensures ChunkStart(r, w, 0)
  {
  }

  /** The word accesses move exactly the bytes of the burst, in its order, if and only if none is stray. */
  lemma UnrollingIsByteLoop(r: Request, w: nat)
    requires r.Valid() && 0 < w
    ensures Unrolled(r, w, 0) == ByteLoop(r) <==> NoStrayBytes(r, w)
  {
    if 0 < r.length {
      FirstChunk(r, w);
    }
    if NoStrayBytes(r, w) {
      FaithfulFrom(r, w, 0);
    } else {
      var k: nat :| k < r.length && ChunkStart(r, w, k) && Stray(r, w, k);
      StrayFrom(r, w, 0, k);
    }
  }

  /** Without byte enables, or with enables no longer than the data and a streaming width of a word at least,
      no byte is stray. */
  lemma OrdinaryBurstsAreFaithful(r: Request, w: nat)
    requires r.Valid() && 0 < w
    requires r.enables.None? || (|r.enables.value| <= r.length && w <= r.streamingWidth)
    ensures NoStrayBytes(r, w)
  {
    forall i: nat | i < r.length && ChunkStart(r, w, i) ensures !Stray(r, w, i) {
      if PassesEnables(r, w, i) {
        assert i == 0 && w <= r.length;
        ModSmall(0, BeatWidth(r));
      }
    }
  }

  /** A word of enables over a streaming width of two bytes. */
  const SHORT_BEAT: Request := Request(0, 0, 4, Some([true, true, true, true]), 2)

  /** The first word access of SHORT_BEAT also moves byte 2, at an address that the burst never meets. */
  lemma StrayExample()
    ensures SHORT_BEAT.Valid() && !NoStrayBytes(SHORT_BEAT, 4)
    ensures Enabled(Word(SHORT_BEAT, 4, 0), 2) && Place(Word(SHORT_BEAT, 4, 0), 2) == 2
    ensures forall k: nat :: Place(SHORT_BEAT, k) < 2
  {
    FirstChunk(SHORT_BEAT, 4);
    assert PassesEnables(SHORT_BEAT, 4, 0) && ChunkLength(SHORT_BEAT, 4, 0) == 2;
    assert SHORT_BEAT.enables.value[2];
    assert Stray(SHORT_BEAT, 4, 0);
    ChunkEnables(SHORT_BEAT, 4, 0, 2);
    PlaceInFirstBeat(Word(SHORT_BEAT, 4, 0), 2);
  }

  // ----- the routine -----

  /** A word access stays inside the data block. */
  lemma WordAccessible(r: Request, w: nat, i: nat, size: nat)
    requires r.Valid() && i < r.length && 0 < w && Fits(r, size) && !Stray(r, w, i)
    ensures Accessible(Word(r, w, i), size)
  {
    forall j: nat | j < w && Enabled(Word(r, w, i), j) ensures 0 <= Word(r, w, i).base + j < size {
      ChunkEnables(r, w, i, j);
    }
  }

  /** No word access of the burst touches a byte outside the data block. */
  ghost predicate WordsAccessible(r: Request, w: nat, size: nat)
    requires r.Valid() && 0 < w
  {
    forall i: nat :: i < r.length && ChunkStart(r, w, i) ==> Accessible(Word(r, w, i), size)
  }

  lemma FaithfulBurstsStayInside(r: Request, w: nat, size: nat)
    requires r.Valid() && 0 < w && Fits(r, size) && NoStrayBytes(r, w)
    ensures WordsAccessible(r, w, size)
  {
    forall i: nat | i < r.length && ChunkStart(r, w, i) ensures Accessible(Word(r, w, i), size) {
      WordAccessible(r, w, i, size);
    }
  }

  /** The transfers `sent` are those of the word accesses before data index i, and have led from `start` to `now`. */
  ghost predicate SoFar(command: Command, r: Request, w: nat, i: nat, sent: seq<Transfer>, start: Store, now: Store)
    requires r.Valid() && 0 < w && i <= r.length
  {
    && InBounds(sent, |start.data|) && now == ApplyAll(command, sent, start)
    && sent + Unrolled(r, w, i) == Unrolled(r, w, 0)
  }

  lemma OneMoreWord(command: Command, r: Request, w: nat, i: nat, sent: seq<Transfer>, start: Store, now: Store,
                    after: Store)
    requires r.Valid() && 0 < w && i < r.length && SoFar(command, r, w, i, sent, start, now)
    requires Accessible(Word(r, w, i), |now.data|) && after == Effect(command, Word(r, w, i), w, now)
    ensures SoFar(command, r, w, i + ChunkLength(r, w, i), sent + ByteLoop(Word(r, w, i)), start, after)
  {
    var word, rest := ByteLoop(Word(r, w, i)), Unrolled(r, w, i + ChunkLength(r, w, i));
    EffectIsTransfers(command, Word(r, w, i), w, now);
    ApplyAllConcat(command, sent, word, start);
    assert sent + word + rest == sent + (word + rest);
  }

  lemma NothingSent(command: Command, r: Request, w: nat, start: Store)
    requires r.Valid() && 0 < w
    ensures SoFar(command, r, w, 0, [], start, start)
  {
  }

  /** Without stray bytes, the word accesses before data index i are the burst up to there. */
  lemma SentIsBurst(command: Command, r: Request, w: nat, i: nat, sent: seq<Transfer>, start: Store, now: Store)
    requires r.Valid() && 0 < w && i <= r.length && SoFar(command, r, w, i, sent, start, now)
    requires NoStrayBytes(r, w) && (i < r.length ==> ChunkStart(r, w, i)) && Accessible(r, |start.data|)
    ensures now == Effect(command, r, i, start)
  {
    if 0 < r.length {
      FirstChunk(r, w);
    }
    FaithfulFrom(r, w, 0);
    FaithfulFrom(r, w, i);
    ByteRangeSplit(r, 0, i, r.length);
    var rest := ByteRange(r, i, r.length);
    assert sent == (sent + rest)[..|sent|] == (ByteRange(r, 0, i) + rest)[..|sent|] == ByteRange(r, 0, i);
    EffectIsTransfers(command, r, i, start);
  }

  class Unroller {
    const mWordSize: nat

    constructor (width: nat)
      ensures mWordSize == width
    {
      mWordSize := width;
    }

    /** The enables of one word, built from scratch: nothing before the chunk, the burst's enables inside it
        (all set when the burst has none), nothing after it. */
    method BuildEnables(byteEnablePtr: Option<seq<bool>>, byteEnableLength: nat, currentIndex: nat,
                        currentOffset: nat, currentDataLength: nat)
      returns (byteEnables: array<bool>)
      requires currentOffset + currentDataLength <= mWordSize
      requires byteEnablePtr.Some? ==> 0 < byteEnableLength <= |byteEnablePtr.value|
      ensures fresh(byteEnables) && byteEnables.Length == mWordSize
      ensures forall j :: 0 <= j < mWordSize ==>
                byteEnables[j] == (currentOffset <= j < currentOffset + currentDataLength &&
                                   (byteEnablePtr.None? ||
                                    byteEnablePtr.value[(currentIndex + j - currentOffset) % byteEnableLength]))
    {
      byteEnables := new bool[mWordSize](_ => false);
      if byteEnablePtr.Some? {
        for i := 0 to currentDataLength
          invariant forall j :: 0 <= j < currentOffset ==> !byteEnables[j]
          invariant forall j :: currentOffset + i <= j < mWordSize ==> !byteEnables[j]
          invariant forall j :: currentOffset <= j < currentOffset + i ==>
                      byteEnables[j] == byteEnablePtr.value[(currentIndex + j - currentOffset) % byteEnableLength]
        {
          byteEnables[currentOffset + i] := byteEnablePtr.value[(currentIndex + i) % byteEnableLength];
        }
      } else {
        forall j | currentOffset <= j < currentOffset + currentDataLength {
          byteEnables[j] := true;
        }
      }
    }

    /** Sets up the payload for the word access at currentIndex. */
    method SetUpWord(trans: Payload, ghost r: Request, dataPtr: int, dataLength: nat,
                     byteEnablePtr: Option<seq<bool>>, byteEnableLength: nat,
                     currentIndex: nat, currentOffset: nat, currentDataLength: nat, currentAddress: nat)
      requires r.Valid() && 0 < mWordSize && currentIndex < r.length
      requires r.base == dataPtr && r.length == dataLength && byteEnablePtr.Some? == r.enables.Some?
      requires byteEnablePtr.Some? ==>
                 byteEnableLength <= |byteEnablePtr.value| && r.enables.value == byteEnablePtr.value[..byteEnableLength]
      requires currentOffset == ChunkOffset(r, mWordSize, currentIndex)
      requires currentDataLength == ChunkLength(r, mWordSize, currentIndex)
      requires currentAddress == ChunkAddress(r, mWordSize, currentIndex)
      modifies trans
      ensures trans.command == old(trans.command)
      ensures trans.Legal() && trans.AsRequest() == Word(r, mWordSize, currentIndex)
    {
      trans.streamingWidth := mWordSize;
      trans.dataLength := mWordSize;
      trans.dataPtr := dataPtr + currentIndex - currentOffset;
      if byteEnablePtr.Some? && currentOffset == 0 && byteEnableLength >= currentIndex + Max(mWordSize, dataLength) {
        trans.byteEnableLength := byteEnableLength - currentIndex;
        trans.byteEnablePtr := Some(byteEnablePtr.value[currentIndex..]);
        assert byteEnablePtr.value[currentIndex..][..byteEnableLength - currentIndex] == r.enables.value[currentIndex..];
      } else if byteEnablePtr.None? && currentDataLength == mWordSize {
        trans.byteEnablePtr := None;
        trans.byteEnableLength := 0;
      } else {
        var byteEnables := BuildEnables(byteEnablePtr, byteEnableLength, currentIndex, currentOffset, currentDataLength);
        trans.byteEnablePtr := Some(byteEnables[..]);
        trans.byteEnableLength := mWordSize;
        assert byteEnables[..][..mWordSize] == WordEnables(r, mWordSize, currentIndex).value;
      }
      trans.address := currentAddress;
      trans.response := Incomplete;
    }

    /** Sets up and issues the word access at currentIndex; the target carries it out, or refuses and touches nothing. */
    method ProcessWord(trans: Payload, target: Memory, ghost r: Request,
                       dataPtr: int, dataLength: nat, byteEnablePtr: Option<seq<bool>>, byteEnableLength: nat,
                       currentIndex: nat, currentOffset: nat, currentDataLength: nat, currentAddress: nat)
      requires r.Valid() && 0 < mWordSize && currentIndex < r.length
      requires Accessible(Word(r, mWordSize, currentIndex), trans.block.Length)
      requires r.base == dataPtr && r.length == dataLength && byteEnablePtr.Some? == r.enables.Some?
      requires byteEnablePtr.Some? ==>
                 byteEnableLength <= |byteEnablePtr.value| && r.enables.value == byteEnablePtr.value[..byteEnableLength]
      requires currentOffset == ChunkOffset(r, mWordSize, currentIndex)
      requires currentDataLength == ChunkLength(r, mWordSize, currentIndex)
      requires currentAddress == ChunkAddress(r, mWordSize, currentIndex)
      modifies trans, trans.block, target`bytes, target`accesses, target`asked
      ensures trans.command == old(trans.command) && target.accesses == old(target.accesses) + 1
      ensures target.asked == old(target.asked) + [Word(r, mWordSize, currentIndex)]
      ensures trans.response == if target.refuses(old(target.accesses)) then ErrorResponse else OkResponse
      ensures target.StoreWith(trans) == if trans.response != OkResponse then old(target.StoreWith(trans))
                                         else Effect(trans.command, Word(r, mWordSize, currentIndex), mWordSize,
                                                     old(target.StoreWith(trans)))
    {
      SetUpWord(trans, r, dataPtr, dataLength, byteEnablePtr, byteEnableLength,
                currentIndex, currentOffset, currentDataLength, currentAddress);
      target.Process(trans);
    }

    /** Which part of the word at currentIndex belongs to the burst. */
    method ChunkAt(ghost r: Request, streamingWidth: nat, offset: nat, currentIndex: nat, bytesLeftInStreamingBeat: nat)
      returns (currentOffset: nat, currentDataLength: nat)
      requires r.Valid() && 0 < mWordSize && currentIndex < r.length && BeatWidth(r) == streamingWidth
      requires offset == WordOffset(r, mWordSize) && bytesLeftInStreamingBeat == BytesLeftInBeat(r, currentIndex)
      ensures currentOffset == ChunkOffset(r, mWordSize, currentIndex)
      ensures currentDataLength == ChunkLength(r, mWordSize, currentIndex)
    {
      if currentIndex % streamingWidth == 0 {
        currentOffset := offset;
        currentDataLength := Min(mWordSize - offset, bytesLeftInStreamingBeat);
      } else {
        currentOffset := 0;
        currentDataLength := Min(mWordSize, bytesLeftInStreamingBeat);
      }
    }

    /** Where the next word access of the burst starts. */
    method NextPosition(ghost r: Request, dataLength: nat, streamingWidth: nat, baseAddress: nat,
                        currentIndex: nat, currentAddress: nat, bytesLeftInStreamingBeat: nat, currentDataLength: nat)
      returns (index: nat, address: nat, bytesLeft: nat)
      requires r.Valid() && 0 < mWordSize && currentIndex < r.length && ChunkStart(r, mWordSize, currentIndex)
      requires r.length == dataLength && BeatWidth(r) == streamingWidth
      requires baseAddress == r.address - WordOffset(r, mWordSize)
      requires currentAddress == ChunkAddress(r, mWordSize, currentIndex)
      requires bytesLeftInStreamingBeat == BytesLeftInBeat(r, currentIndex)
      requires currentDataLength == ChunkLength(r, mWordSize, currentIndex)
      ensures index == currentIndex + currentDataLength
      ensures index < dataLength ==>
                && ChunkStart(r, mWordSize, index)
                && address == ChunkAddress(r, mWordSize, index)
                && bytesLeft == BytesLeftInBeat(r, index)
    {
      if currentIndex + currentDataLength < dataLength {
        NextChunk(r, mWordSize, currentIndex);
      }
      index := currentIndex + currentDataLength;
      if index % streamingWidth == 0 {
        bytesLeft := Min(streamingWidth, dataLength - index);
        address := baseAddress;
      } else {
        bytesLeft := bytesLeftInStreamingBeat - currentDataLength;
        address := currentAddress + mWordSize;
      }
    }

    /** The loop over the word accesses: runs until the data is exhausted or the target refuses an access. */
    method UnrollWords(trans: Payload, target: Memory, ghost r: Request, ghost start: Store,
                       address: nat, dataPtr: int, dataLength: nat, streamingWidth: nat,
                       byteEnablePtr: Option<seq<bool>>, byteEnableLength: nat)
      returns (currentIndex: nat, ghost sent: seq<Transfer>)
      requires r.Valid() && 0 < mWordSize && WordsAccessible(r, mWordSize, trans.block.Length)
      requires r.address == address && r.base == dataPtr && r.length == dataLength && BeatWidth(r) == streamingWidth
      requires byteEnablePtr.Some? == r.enables.Some?
      requires byteEnablePtr.Some? ==>
                 byteEnableLength <= |byteEnablePtr.value| && r.enables.value == byteEnablePtr.value[..byteEnableLength]
      requires start == target.StoreWith(trans)
      modifies trans, trans.block, target`bytes, target`accesses, target`asked
      ensures trans.command == old(trans.command) && currentIndex <= dataLength
      ensures SoFar(trans.command, r, mWordSize, currentIndex, sent, start, target.StoreWith(trans))
      ensures Answers(trans.response, target.refuses, old(target.accesses), target.accesses)
      ensures OnlyWords(old(target.asked), target.asked, mWordSize)
      ensures 0 < currentIndex ==> |old(target.asked)| < |target.asked|
      ensures if trans.response == OkResponse then currentIndex == dataLength
              else currentIndex < dataLength && ChunkStart(r, mWordSize, currentIndex)
    {
      ModAtMost(address, mWordSize);
      var offset := address % mWordSize;
      var baseAddress := address - offset;
      var currentAddress := baseAddress;
      var bytesLeftInStreamingBeat := Min(streamingWidth, dataLength);
      currentIndex, sent := 0, [];
      NothingSent(trans.command, r, mWordSize, start);
      trans.response := OkResponse;
      if 0 < dataLength {
        FirstChunk(r, mWordSize);
      }
      while currentIndex < dataLength
        invariant currentIndex <= dataLength && trans.response == OkResponse && trans.command == old(trans.command)
        invariant currentIndex < dataLength ==>
                    && ChunkStart(r, mWordSize, currentIndex)
                    && currentAddress == ChunkAddress(r, mWordSize, currentIndex)
                    && bytesLeftInStreamingBeat == BytesLeftInBeat(r, currentIndex)
        invariant SoFar(trans.command, r, mWordSize, currentIndex, sent, start, target.StoreWith(trans))
        invariant Answers(OkResponse, target.refuses, old(target.accesses), target.accesses)
        invariant OnlyWords(old(target.asked), target.asked, mWordSize)
        invariant 0 < currentIndex ==> |old(target.asked)| < |target.asked|
        decreases dataLength - currentIndex
      {
        WordIsAligned(r, mWordSize, currentIndex);
        currentIndex, currentAddress, bytesLeftInStreamingBeat, sent :=
          UnrollWord(trans, target, r, start, sent, dataPtr, dataLength, streamingWidth, byteEnablePtr, byteEnableLength,
                     offset, baseAddress, currentIndex, currentAddress, bytesLeftInStreamingBeat);
        if trans.response != OkResponse {
          break;
        }
      }
    }

    /** One round of the loop; the position moves on when the target accepts the access. */
    method UnrollWord(trans: Payload, target: Memory, ghost r: Request, ghost start: Store, ghost sent: seq<Transfer>,
                      dataPtr: int, dataLength: nat, streamingWidth: nat,
                      byteEnablePtr: Option<seq<bool>>, byteEnableLength: nat, offset: nat, baseAddress: nat,
                      currentIndex: nat, currentAddress: nat, bytesLeftInStreamingBeat: nat)
      returns (index: nat, address: nat, bytesLeft: nat, ghost more: seq<Transfer>)
      requires r.Valid() && 0 < mWordSize && currentIndex < r.length && ChunkStart(r, mWordSize, currentIndex)
      requires Accessible(Word(r, mWordSize, currentIndex), trans.block.Length)
      requires r.base == dataPtr && r.length == dataLength && BeatWidth(r) == streamingWidth
      requires byteEnablePtr.Some? == r.enables.Some?
      requires byteEnablePtr.Some? ==>
                 byteEnableLength <= |byteEnablePtr.value| && r.enables.value == byteEnablePtr.value[..byteEnableLength]
      requires offset == WordOffset(r, mWordSize) && baseAddress == r.address - offset
      requires currentAddress == ChunkAddress(r, mWordSize, currentIndex)
      requires bytesLeftInStreamingBeat == BytesLeftInBeat(r, currentIndex)
      requires SoFar(trans.command, r, mWordSize, currentIndex, sent, start, target.StoreWith(trans))
      modifies trans, trans.block, target`bytes, target`accesses, target`asked
      ensures trans.command == old(trans.command) && target.accesses == old(target.accesses) + 1
      ensures target.asked == old(target.asked) + [Word(r, mWordSize, currentIndex)]
      ensures trans.response == if target.refuses(old(target.accesses)) then ErrorResponse else OkResponse
      ensures index == currentIndex + if trans.response == OkResponse then ChunkLength(r, mWordSize, currentIndex) else 0
      ensures trans.response == OkResponse && index < dataLength ==>
                && ChunkStart(r, mWordSize, index)
                && address == ChunkAddress(r, mWordSize, index)
                && bytesLeft == BytesLeftInBeat(r, index)
      ensures SoFar(trans.command, r, mWordSize, index, more, start, target.StoreWith(trans))
    {
      var currentDataLength;
      currentDataLength, more := IssueWord(trans, target, r, start, sent, dataPtr, dataLength, streamingWidth, byteEnablePtr,
                                           byteEnableLength, offset, currentIndex, currentAddress, bytesLeftInStreamingBeat);
      index, address, bytesLeft := currentIndex, currentAddress, bytesLeftInStreamingBeat;
      if trans.response == OkResponse {
        index, address, bytesLeft :=
          NextPosition(r, dataLength, streamingWidth, baseAddress,
                       currentIndex, currentAddress, bytesLeftInStreamingBeat, currentDataLength);
      }
    }

    /** The word access itself. */
    method IssueWord(trans: Payload, target: Memory, ghost r: Request, ghost start: Store, ghost sent: seq<Transfer>,
                     dataPtr: int, dataLength: nat, streamingWidth: nat,
                     byteEnablePtr: Option<seq<bool>>, byteEnableLength: nat, offset: nat,
                     currentIndex: nat, currentAddress: nat, bytesLeftInStreamingBeat: nat)
      returns (currentDataLength: nat, ghost more: seq<Transfer>)
      requires r.Valid() && 0 < mWordSize && currentIndex < r.length
      requires Accessible(Word(r, mWordSize, currentIndex), trans.block.Length)
      requires r.base == dataPtr && r.length == dataLength && BeatWidth(r) == streamingWidth
      requires byteEnablePtr.Some? == r.enables.Some?
      requires byteEnablePtr.Some? ==>
                 byteEnableLength <= |byteEnablePtr.value| && r.enables.value == byteEnablePtr.value[..byteEnableLength]
      requires offset == WordOffset(r, mWordSize) && currentAddress == ChunkAddress(r, mWordSize, currentIndex)
      requires bytesLeftInStreamingBeat == BytesLeftInBeat(r, currentIndex)
      requires SoFar(trans.command, r, mWordSize, currentIndex, sent, start, target.StoreWith(trans))
      modifies trans, trans.block, target`bytes, target`accesses, target`asked
      ensures trans.command == old(trans.command) && target.accesses == old(target.accesses) + 1
      ensures target.asked == old(target.asked) + [Word(r, mWordSize, currentIndex)]
      ensures trans.response == if target.refuses(old(target.accesses)) then ErrorResponse else OkResponse
      ensures currentDataLength == ChunkLength(r, mWordSize, currentIndex)
      ensures SoFar(trans.command, r, mWordSize,
                    currentIndex + if trans.response == OkResponse then currentDataLength else 0, more, start,
                    target.StoreWith(trans))
    {
      var currentOffset;
      currentOffset, currentDataLength := ChunkAt(r, streamingWidth, offset, currentIndex, bytesLeftInStreamingBeat);
      // so the source's private copy of the data, made when a chunk overruns the data, is never needed
      assert currentIndex + currentDataLength <= dataLength;
      ghost var now := target.StoreWith(trans);
      ProcessWord(trans, target, r, dataPtr, dataLength, byteEnablePtr, byteEnableLength,
                  currentIndex, currentOffset, currentDataLength, currentAddress);
      more := sent;
      if trans.response == OkResponse {
        more := sent + ByteLoop(Word(r, mWordSize, currentIndex));
        OneMoreWord(trans.command, r, mWordSize, currentIndex, sent, start, now, target.StoreWith(trans));
      }
    }

    /** Carries out a burst as word accesses, in place: the payload is rewritten for each access and restored at
        the end.  `done` counts the data indices carried out: all of them, or those before the first access that
        the target refused.  The effect is that of the word accesses before `done`; without stray bytes it is that
        of the burst itself up to there. */
    method UnrollTransaction(trans: Payload, target: Memory) returns (ghost done: nat, ghost sent: seq<Transfer>)
      requires trans.Legal() && 0 < mWordSize && WordsAccessible(trans.AsRequest(), mWordSize, trans.block.Length)
      modifies trans, trans.block, target`bytes, target`accesses, target`asked
      ensures trans.command == old(trans.command) && trans.address == old(trans.address)
      ensures trans.dataPtr == old(trans.dataPtr) && trans.dataLength == old(trans.dataLength)
      ensures trans.byteEnablePtr == old(trans.byteEnablePtr) && trans.byteEnableLength == old(trans.byteEnableLength)
      ensures trans.streamingWidth == old(trans.streamingWidth)
      ensures done <= trans.dataLength
      ensures SoFar(trans.command, trans.AsRequest(), mWordSize, done, sent, old(target.StoreWith(trans)),
                    target.StoreWith(trans))
      ensures Fits(trans.AsRequest(), trans.block.Length) && NoStrayBytes(trans.AsRequest(), mWordSize) ==>
                target.CarriedOut(trans, done, old(target.StoreWith(trans)))
      ensures Answers(trans.response, target.refuses, old(target.accesses), target.accesses)
      ensures old(target.asked) <= target.asked && (0 < done ==> |old(target.asked)| < |target.asked|)
      ensures forall k :: |old(target.asked)| <= k < |target.asked| ==>
                var q := target.asked[k];
                q.address % mWordSize == 0 && q.length == mWordSize && q.streamingWidth == mWordSize
      ensures if trans.response == OkResponse then done == trans.dataLength
              else done < trans.dataLength && ChunkStart(trans.AsRequest(), mWordSize, done)
    {
      var address, dataPtr, dataLength := trans.address, trans.dataPtr, trans.dataLength;
      var byteEnablePtr, byteEnableLength := trans.byteEnablePtr, trans.byteEnableLength;
      var origStreamingWidth := trans.streamingWidth;
      ghost var r, start := trans.AsRequest(), target.StoreWith(trans);

      var currentIndex;
      currentIndex, sent := UnrollWords(trans, target, r, start, address, dataPtr, dataLength,
                                        Min(dataLength, origStreamingWidth), byteEnablePtr, byteEnableLength);
      done := currentIndex;

      trans.address := address;
      trans.dataPtr := dataPtr;
      trans.dataLength := dataLength;
      trans.byteEnablePtr := byteEnablePtr;
      trans.byteEnableLength := byteEnableLength;
      trans.streamingWidth := origStreamingWidth;
      assert trans.AsRequest() == r;
      if Fits(r, trans.block.Length) && NoStrayBytes(r, mWordSize) {
        SentIsBurst(trans.command, r, mWordSize, done, sent, start, target.StoreWith(trans));
      }
    }
  }

  /** The response of a burst whose accesses were numbers `first` to `next - 1`: success when the target refused
      none of them, an error when it refused exactly the last one. */
  ghost predicate Answers(response: Response, refuses: nat -> bool, first: nat, next: nat) {
    match response
    case OkResponse => first <= next && forall a :: first <= a < next ==> !refuses(a)
    case ErrorResponse => first < next && refuses(next - 1) && forall a :: first <= a < next - 1 ==> !refuses(a)
    case Incomplete => false
  }
}
