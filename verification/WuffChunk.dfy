/** wuff_search_chunk: the walk over the chunk headers of a RIFF file. */
module WuffChunk {
  import opened Bytes
  import opened WuffSource

  const NO_ID: seq<byte> := [0, 0, 0, 0]
  const U32: int := 0x1_0000_0000
  /** The one size field that makes the 32-bit sum `8 + chunk->size` wrap to zero. */
  const STUCK_SIZE: nat := 0xFFFF_FFF8

  datatype Outcome = Found(at: nat, size: nat) | NotFound | Diverges

  function IdAt(file: seq<byte>, at: nat): seq<byte>
    requires at + 8 <= |file|
  {
    file[at..at + 4]
  }

  function SizeAt(file: seq<byte>, at: nat): (n: nat)
    requires at + 8 <= |file|
    ensures n < U32
  {
    FourBytes(file[at + 4..at + 8]);
    Unsigned(file[at + 4..at + 8])
  }

  lemma FourBytes(b: seq<byte>)
    requires |b| == 4
    ensures Unsigned(b) < U32
  {
    assert Pow256(4) == 256 * Pow256(3) && Pow256(3) == 256 * Pow256(2) && Pow256(2) == 256 * Pow256(1);
  }

  /** Where the walk looks next: the sum is taken in 32 bits, then padded to an even offset. */
  function Next(at: nat, size: nat): (n: nat)
    ensures n % 2 == 0 && n >= at
  {
    var n := at + (8 + size) % U32;
    if n % 2 == 1 then n + 1 else n
  }

  lemma NextStuck(at: nat, size: nat)
    requires size < U32 && at % 2 == 0
    ensures Next(at, size) == at <==> size == STUCK_SIZE
  {
  }

  predicate Wanted(file: seq<byte>, at: nat, id: seq<byte>, stop: seq<byte>)
    requires at + 8 <= |file|
  {
    IdAt(file, at) == id && !Stops(file, at, stop)
  }

  predicate Stops(file: seq<byte>, at: nat, stop: seq<byte>)
    requires at + 8 <= |file|
  {
    stop != NO_ID && IdAt(file, at) == stop
  }

  /** The header at `at` exists and lets the walk go on. */
  predicate Passes(file: seq<byte>, at: nat, id: seq<byte>, stop: seq<byte>) {
    at + 8 <= |file| && IdAt(file, at) != id && !Stops(file, at, stop)
  }

  /** The walk from the header at `at` on. */
  function Walk(file: seq<byte>, at: nat, id: seq<byte>, stop: seq<byte>): Outcome
    decreases |file| - at
  {
    if at + 8 > |file| || Stops(file, at, stop) then NotFound
    else if IdAt(file, at) == id then Found(at, SizeAt(file, at))
    else
      var next := Next(at, SizeAt(file, at));
      if next == at then Diverges else Walk(file, next, id, stop)
  }

  /** Where the walk stands after `k` headers, if it gets that far. */
  datatype Place = At(offset: nat) | Off

  function Step(file: seq<byte>, start: nat, k: nat): Place {
    if k == 0 then At(start)
    else match Step(file, start, k - 1)
      case Off => Off
      case At(p) => if p + 8 <= |file| then At(Next(p, SizeAt(file, p))) else Off
  }

  /** The first `k` headers exist and are neither the wanted one nor the stop. */
  ghost predicate PassesAll(file: seq<byte>, start: nat, k: nat, id: seq<byte>, stop: seq<byte>) {
    forall j: nat :: j < k ==> Step(file, start, j).At? && Passes(file, Step(file, start, j).offset, id, stop)
  }

  lemma {:induction false} StepShift(file: seq<byte>, start: nat, k: nat)
    requires start + 8 <= |file|
    ensures Step(file, start, k + 1) == Step(file, Next(start, SizeAt(file, start)), k)
  {
    if k > 0 {
      StepShift(file, start, k - 1);
    } else {
      assert Step(file, start, 0) == At(start);
    }
  }

  lemma PassesShift(file: seq<byte>, start: nat, k: nat, id: seq<byte>, stop: seq<byte>)
    requires Passes(file, start, id, stop)
    requires PassesAll(file, Next(start, SizeAt(file, start)), k, id, stop)
    ensures PassesAll(file, start, k + 1, id, stop)
  {
    forall j: nat | j < k + 1
      ensures Step(file, start, j).At? && Passes(file, Step(file, start, j).offset, id, stop)
    {
      if j > 0 {
        StepShift(file, start, j - 1);
      }
    }
  }

  /** Why a walk that ends at the header at `p` gives the answer `w`. */
  ghost predicate Explains(file: seq<byte>, p: nat, w: Outcome, id: seq<byte>, stop: seq<byte>) {
    match w
    case Found(at, size) => at == p && p + 8 <= |file| && Wanted(file, p, id, stop) && size == SizeAt(file, p)
    case NotFound => p + 8 > |file| || Stops(file, p, stop)
    case Diverges => Passes(file, p, id, stop) && SizeAt(file, p) == STUCK_SIZE
  }

  /** What each answer means on the list of headers: the walk ends at header `k`, everything before it having passed,
      or header `k` has the stuck size and the walk stays there. */
  lemma {:induction false} WalkMeaning(file: seq<byte>, start: nat, id: seq<byte>, stop: seq<byte>) returns (k: nat)
    requires start % 2 == 0
    ensures PassesAll(file, start, k, id, stop) && Step(file, start, k).At?
    ensures Explains(file, Step(file, start, k).offset, Walk(file, start, id, stop), id, stop)
    decreases |file| - start
  {
    k := 0;
    if Passes(file, start, id, stop) {
      var next := Next(start, SizeAt(file, start));
      NextStuck(start, SizeAt(file, start));
      if next != start {
        var k' := WalkMeaning(file, next, id, stop);
        StepShift(file, start, k');
        PassesShift(file, start, k', id, stop);
        k := k' + 1;
      }
    }
  }

  /** The loop fails to end exactly when it passes header after header for ever. */
  lemma DivergesMeaning(file: seq<byte>, start: nat, id: seq<byte>, stop: seq<byte>)
    requires start % 2 == 0
    ensures Walk(file, start, id, stop) == Diverges <==> forall k: nat :: PassesAll(file, start, k, id, stop)
  {
    var k := WalkMeaning(file, start, id, stop);
    if Walk(file, start, id, stop) == Diverges {
      forall n: nat
        ensures PassesAll(file, start, n, id, stop)
      {
        StuckForEver(file, start, k, n, id, stop);
      }
    } else {
      assert !PassesAll(file, start, k + 1, id, stop);
    }
  }

  lemma {:induction false} StuckForEver(file: seq<byte>, start: nat, k: nat, n: nat, id: seq<byte>, stop: seq<byte>)
    requires PassesAll(file, start, k, id, stop) && Step(file, start, k).At? && Step(file, start, k).offset % 2 == 0
    requires Passes(file, Step(file, start, k).offset, id, stop)
    requires SizeAt(file, Step(file, start, k).offset) == STUCK_SIZE
    ensures PassesAll(file, start, n, id, stop)
    ensures n >= k ==> Step(file, start, n) == Step(file, start, k)
  {
    if n > 0 {
      StuckForEver(file, start, k, n - 1, id, stop);
      if n > k {
        NextStuck(Step(file, start, k).offset, STUCK_SIZE);
      }
    }
  }

  /** The walk ends on every file in which no header it reaches has the stuck size. */
  lemma TerminatesExactly(file: seq<byte>, start: nat, id: seq<byte>, stop: seq<byte>)
    requires start % 2 == 0
    ensures Walk(file, start, id, stop) == Diverges <==>
      exists k: nat ::
        PassesAll(file, start, k + 1, id, stop) && SizeAt(file, Step(file, start, k).offset) == STUCK_SIZE
  {
    var m := WalkMeaning(file, start, id, stop);
    if Walk(file, start, id, stop) == Diverges {
      assert PassesAll(file, start, m + 1, id, stop);
    }
    if k: nat :| PassesAll(file, start, k + 1, id, stop) && SizeAt(file, Step(file, start, k).offset) == STUCK_SIZE {
      EvenSteps(file, start, k);
      forall n: nat
        ensures PassesAll(file, start, n, id, stop)
      {
        StuckForEver(file, start, k, n, id, stop);
      }
      DivergesMeaning(file, start, id, stop);
    }
  }

  lemma {:induction false} EvenSteps(file: seq<byte>, start: nat, k: nat)
    requires start % 2 == 0
    ensures Step(file, start, k).At? ==> Step(file, start, k).offset % 2 == 0
  {
    if k > 0 {
      EvenSteps(file, start, k - 1);
    }
  }

  const RIFF: seq<byte> := [82, 73, 70, 70]
  const WAVE: seq<byte> := [87, 65, 86, 69]
  const FMT: seq<byte> := [102, 109, 116, 32]
  const DATA: seq<byte> := [100, 97, 116, 97]

  /** A file that passes the checks of wuff_init_stream and whose first chunk is neither the format nor the data. */
  ghost predicate OtherChunkFirst(file: seq<byte>) {
    && |file| >= 36 && IdAt(file, 0) == RIFF && file[8..12] == WAVE
    && IdAt(file, 12) != FMT && IdAt(file, 12) != DATA
  }

  /** Opening such a file searches the format chunk from offset 12, and hangs at once when the first chunk has the stuck
      size. */
  lemma SearchCanHang(file: seq<byte>)
    requires OtherChunkFirst(file) && SizeAt(file, 12) == STUCK_SIZE
    ensures Search(file, NO_ID, SizeAt(file, 12), 12, FMT, DATA) == Diverges
  {
    NextStuck(12, STUCK_SIZE);
  }

  /** One of these files: RIFF, a size, WAVE, JUNK, the stuck size, and sixteen zero bytes. */
  lemma HangingFile()
    ensures var file := RIFF + [28, 0, 0, 0] + WAVE + [74, 85, 78, 75, 0xF8, 0xFF, 0xFF, 0xFF] + seq(16, _ => 0);
      OtherChunkFirst(file) && Search(file, NO_ID, SizeAt(file, 12), 12, FMT, DATA) == Diverges
  {
    var size: seq<byte> := [0xF8, 0xFF, 0xFF, 0xFF];
    var file: seq<byte> := RIFF + [28, 0, 0, 0] + WAVE + [74, 85, 78, 75] + size + seq(16, _ => 0);
    assert IdAt(file, 0) == RIFF && file[8..12] == WAVE && file[12..16] == [74, 85, 78, 75] && file[16..20] == size;
    assert file[12..16][0] == 74;
    StuckBytes();
    SearchCanHang(file);
    assert file == RIFF + [28, 0, 0, 0] + WAVE + [74, 85, 78, 75, 0xF8, 0xFF, 0xFF, 0xFF] + seq(16, _ => 0);
  }

  lemma StuckBytes()
    ensures Unsigned([0xF8, 0xFF, 0xFF, 0xFF]) == STUCK_SIZE
  {
    assert [0xF8, 0xFF, 0xFF, 0xFF][1..] == [0xFF, 0xFF, 0xFF];
    assert [0xFF, 0xFF, 0xFF][1..] == [0xFF, 0xFF] && [0xFF, 0xFF][1..] == [0xFF];
    assert Unsigned([0xFF]) == 0xFF + 256 * Unsigned([]);
    assert Unsigned([0xFF, 0xFF]) == 0xFFFF;
    assert Unsigned([0xFF, 0xFF, 0xFF]) == 0xFF_FFFF;
  }

  datatype SearchStatus = Succeeded | ChunkNotFound | CallbackFailed

  /** The whole search, including the early answer when the caller already holds the wanted header. */
  function Search(file: seq<byte>, chunkId: seq<byte>, chunkSize: nat, offset: nat, id: seq<byte>,
                  stop: seq<byte>): Outcome
  {
    if chunkId != NO_ID && chunkId == id then Found(offset, chunkSize)
    else Walk(file, Next(offset, chunkSize), id, stop)
  }

  /** wuff_search_chunk. A source that answers short reads can make it give up early, never answer wrongly. */
  method SearchChunk(source: Source, chunkId: seq<byte>, chunkSize: nat, offset: nat, id: seq<byte>, stop: seq<byte>)
    returns (status: SearchStatus, at: nat, size: nat)
    requires Search(source.file, chunkId, chunkSize, offset, id, stop) != Diverges
    modifies source
    ensures source.failures == old(source.failures) + (if status == CallbackFailed then 1 else 0)
    ensures status == Succeeded ==> Search(source.file, chunkId, chunkSize, offset, id, stop) == Found(at, size)
    ensures status == Succeeded && (chunkId == NO_ID || chunkId != id) ==> source.cursor == at + 8 <= |source.file|
    ensures chunkId != NO_ID && chunkId == id ==> source.cursor == old(source.cursor) && status == Succeeded
    ensures status == ChunkNotFound && !source.shortReads ==>
      Search(source.file, chunkId, chunkSize, offset, id, stop) == NotFound
  {
    at, size := offset, chunkSize;
    if chunkId != NO_ID && chunkId == id {
      return Succeeded, at, size;
    }
    ghost var outcome := Walk(source.file, Next(offset, chunkSize), id, stop);
    var header := new byte[8];
    while true
      invariant Walk(source.file, Next(at, size), id, stop) == outcome
      invariant fresh(header) && header.Length == 8 && source.failures == old(source.failures)
      decreases |source.file| - Next(at, size)
    {
      at := Next(at, size);
      var ok, got := FetchHeader(source, at, header);
      if !ok {
        return CallbackFailed, at, size;
      }
      if got < 8 {
        return ChunkNotFound, at, size;
      }
      WalkStep(source.file, at, id, stop);
      size := SizeAt(header[..], 0);
      if stop != NO_ID && header[..4] == stop {
        return ChunkNotFound, at, size;
      } else if header[..4] == id {
        return Succeeded, at, size;
      }
    }
  }

  lemma WalkStep(file: seq<byte>, at: nat, id: seq<byte>, stop: seq<byte>)
    requires at + 8 <= |file| && Walk(file, at, id, stop) != Diverges
    ensures Passes(file, at, id, stop) ==>
      var next := Next(at, SizeAt(file, at));
      next > at && Walk(file, at, id, stop) == Walk(file, next, id, stop)
  {
  }

  /** One seek and one read of eight bytes. */
  method FetchHeader(source: Source, at: nat, header: array<byte>) returns (ok: bool, got: nat)
    requires header.Length == 8
    modifies source, header
    ensures source.failures == old(source.failures) + (if ok then 0 else 1)
    ensures got <= 8 && (ok && !source.shortReads && at + 8 <= |source.file| ==> got == 8)
    ensures ok && got == 8 ==>
      && at + 8 <= |source.file| && source.cursor == at + 8
      && header[..4] == IdAt(source.file, at) && SizeAt(header[..], 0) == SizeAt(source.file, at)
  {
    ok := source.Seek(at);
    if !ok {
      return false, 0;
    }
    ok, got := source.Read(header, 0, 8);
    if ok && got == 8 {
      assert header[..] == source.file[at..at + 8];
      assert header[..][4..8] == source.file[at + 4..at + 8];
    }
  }
}
