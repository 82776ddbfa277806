/** The Wuff pull decoder: a handle with a source cursor, a sliding refill buffer and an output cursor. */
module WuffReader {
  import opened Bytes
  import opened WuffSlices
  import opened WuffConvert
  import opened WuffPlan
  import opened WuffSource

  datatype Status = Success | CallbackFailed | InvalidStreamPosition | InvalidSize | FormatUnsupported

  function FormatOf(code: nat): Format
    requires code < 6
  {
    [U8, S16, S24, S32, F32, F64][code]
  }

  function CodeOf(format: Format): (code: nat)
    ensures code < 6 && FormatOf(code) == format
  {
    match format
    case U8 => 0
    case S16 => 1
    case S24 => 2
    case S32 => 3
    case F32 => 4
    case F64 => 5
  }

  /** Blocks of samples are samples of blocks. */
  lemma {:induction false} BlocksOfSamples(n: nat, channels: nat, size: SampleSize)
    ensures Span(n, Span(channels, size)) == Span(Span(n, channels), size)
  {
    if n > 0 {
      BlocksOfSamples(n - 1, channels, size);
      SpanAdd(Span(n - 1, channels), channels, size);
    }
  }

  /** Carrying a block offset that ran over into the position. */
  lemma CarryBlocks(position: nat, block: nat, current: nat)
    requires block > 0
    ensures Span(position, block) + current == Span(position + current / block, block) + current % block
  {
    SpanAdd(position, current / block, block);
    SpanIsProduct(current / block, block);
  }

  /** stream.length counts the whole blocks of the data chunk. */
  lemma LengthBounds(size: nat, channels: nat, b: SampleSize)
    requires channels > 0
    ensures Span(size / channels / b, Span(channels, b)) <= size
         < Span(size / channels / b + 1, Span(channels, b))
  {
    var q: nat := size / channels;
    var k := q / b;
    BlocksOfSamples(k, channels, b);
    BlocksOfSamples(k + 1, channels, b);
    SpanIsProduct(k, channels);
    SpanIsProduct(k + 1, channels);
    SpanIsProduct(k * channels, b);
    SpanIsProduct((k + 1) * channels, b);
    NestedQuotient(size, channels, b);
  }

  lemma NestedQuotient(size: nat, channels: nat, b: nat)
    requires channels > 0 && b > 0
    ensures var k := size / channels / b; k * channels * b <= size < (k + 1) * channels * b
  {
    var q := size / channels;
    var k := q / b;
    QuotientBounds(size, channels);
    QuotientBounds(q, b);
    ProductMonotone(k * b, q, channels);
    ProductMonotone(q + 1, (k + 1) * b, channels);
    ProductSwap(k, channels, b);
    ProductSwap(k + 1, channels, b);
  }

  lemma QuotientBounds(x: nat, d: nat)
    requires d > 0
    ensures x / d * d <= x < (x / d + 1) * d
  {
    assert x == x / d * d + x % d;
  }

  lemma ProductMonotone(x: nat, y: nat, c: nat)
    requires x <= y
    ensures x * c <= y * c
  {
  }

  lemma ProductSwap(x: nat, y: nat, z: nat)
    ensures x * y * z == x * z * y
  {
  }

  /** stream.length: the whole blocks of the data chunk. */
  method StreamLength(size: nat, channels: nat, b: SampleSize) returns (length: nat)
    requires channels > 0
    ensures Span(length, Span(channels, b)) <= size < Span(length + 1, Span(channels, b))
  {
    length := size / channels / b;
    LengthBounds(size, channels, b);
  }

  /** wuff_buffer_alloc: a quarter of a second, clamped. */
  method AllocateBuffer(sampleRate: nat, blockSize: nat) returns (buffer: array<byte>)
    ensures fresh(buffer) && 4096 <= buffer.Length <= 2097152
  {
    var wanted := sampleRate * blockSize / 4;
    buffer := new byte[if wanted < 4096 then 4096 else if wanted > 2097152 then 2097152 else wanted];
  }

  /** Adjusts a block offset that may have run over and the position with it. */
  method CarryInto(position: nat, block: nat, current: nat) returns (position': nat, rest: nat)
    requires block > 0
    ensures Span(position', block) + rest == Span(position, block) + current && rest < block
  {
    if current >= block {
      CarryBlocks(position, block, current);
      position', rest := position + current / block, current % block;
    } else {
      position', rest := position, current;
    }
  }

  ghost predicate WindowOf(buffer: seq<byte>, offset: nat, end: nat, file: seq<byte>, cursor: nat) {
    && offset <= end <= |buffer|
    && (offset < end ==>
         end - offset <= cursor <= |file| && buffer[offset..end] == file[cursor - (end - offset)..cursor])
  }

  lemma EmptyWindow()
    ensures forall buffer: seq<byte>, file: seq<byte>, cursor: nat :: WindowOf(buffer, 0, 0, file, cursor)
  {
  }

  class Handle {
    const source: Source
    const floats: FloatRule
    /** stream.format, stream.header.channels, stream.data and stream.length, as the parsed header gave them. */
    const format: Format
    const channels: nat
    const inBytes: SampleSize
    const blockSize: nat
    const dataOffset: nat
    const dataSize: nat
    const length: nat
    const buffer: array<byte>

    var position: nat
    var bytesLeft: nat
    var offset: nat
    var end: nat
    var output: Format
    var outBytes: SampleSize
    var outBlock: nat
    var blockOffset: nat

    /** Source samples fully delivered, and bytes delivered of the next one. */
    ghost var consumed: nat
    ghost var phase: nat

    function Conversion(): Rule
      reads this
    {
      RuleFor(floats, format, output)
    }

    /** The part of the data chunk that the file really holds. */
    ghost function Data(): seq<byte>
      requires dataOffset <= |source.file|
    {
      source.file[dataOffset..if dataOffset + dataSize <= |source.file| then dataOffset + dataSize else |source.file|]
    }

    /** Output bytes between the start of the data chunk and the next byte to be delivered. */
    ghost function Emitted(): nat
      reads this
    {
      Span(consumed, outBytes) + phase
    }

    /** What the parsed header guarantees. */
    ghost predicate Header() {
      && inBytes == format.Size()
      && channels > 0 && blockSize == Span(channels, inBytes)
      && Span(length, blockSize) <= dataSize < Span(length + 1, blockSize)
      && 4096 <= buffer.Length <= 2097152
      && dataOffset <= |source.file|
    }

    /** The converter and the sizes that go with it. */
    ghost predicate Shaped()
      reads this
    {
      outBytes == output.Size() && outBlock == Span(channels, outBytes)
    }

    /** The two cursors and the buffer bounds move together. */
    ghost predicate Coupled()
      reads this, source
    {
      && Header()
      && source.cursor + bytesLeft == dataOffset + dataSize
      && offset <= end <= buffer.Length
      && dataOffset + Span(consumed, inBytes) + (end - offset) == source.cursor
      && (source.cursor <= |source.file| || offset == end)
      && Shaped()
      && blockOffset < outBlock
      && phase < outBytes
      && (phase > 0 ==> end - offset >= inBytes)
      && Emitted() == Span(position, outBlock) + blockOffset
    }

    /** buffer[offset..end) is exactly the stretch of file before the source cursor. */
    ghost predicate WindowHeld()
      reads this, source, buffer
    {
      WindowOf(buffer[..], offset, end, source.file, source.cursor)
    }

    ghost predicate Valid()
      reads this, source, buffer
    {
      Coupled() && WindowHeld()
    }

    /** All that is certain once a callback has failed. */
    ghost predicate Loose()
      reads this
    {
      Header() && Shaped() && offset <= end <= buffer.Length && blockOffset < outBlock
    }

    /** The handle of a parsed header, its buffer allocated, before the rest of wuff_setup. The file cursor is wherever
        the parsing has left it. */
    constructor (source: Source, floats: FloatRule, format: Format, channels: nat, sampleRate: nat,
                 dataOffset: nat, dataSize: nat)
      requires channels > 0 && dataOffset <= |source.file|
      ensures Header() && Shaped() && this.source == source && this.floats == floats && this.format == format
      ensures this.channels == channels && this.dataOffset == dataOffset && this.dataSize == dataSize
      ensures output == format && position == 0 && blockOffset == 0
      ensures fresh(buffer)
    {
      this.source, this.floats, this.format, this.channels := source, floats, format, channels;
      this.dataOffset, this.dataSize := dataOffset, dataSize;
      var whole := StreamLength(dataSize, channels, format.Size());
      var room := AllocateBuffer(sampleRate, Span(channels, format.Size()));
      length, buffer := whole, room;
      blockSize := Span(channels, format.Size());
      position, blockOffset, bytesLeft, offset, end := 0, 0, 0, 0, 0;
      inBytes, outBytes := format.Size(), format.Size();
      output, outBlock := format, Span(channels, format.Size());
      consumed, phase := 0, 0;
    }

    /** The rest of wuff_setup. As long as no callback fails it succeeds exactly when the file cursor stands inside the
        data chunk or at its end. */
    method Setup() returns (status: Status)
      requires Header() && Shaped() && position == 0
      modifies this, source
      ensures status in {Success, CallbackFailed, InvalidStreamPosition}
      ensures source.failures == old(source.failures) + (if status == CallbackFailed then 1 else 0)
      ensures status == Success ==> Valid() && output == format && position == 0 && Emitted() == 0
      ensures status != CallbackFailed ==>
        (status == Success <==> dataOffset <= old(source.cursor) <= dataOffset + dataSize)
      ensures status == InvalidStreamPosition ==> source.cursor == old(source.cursor)
    {
      status := BufferClear();
      if status != Success {
        return;
      }
      status := SetFormat(CodeOf(format));
    }

    /** wuff_open on a parsed header. */
    static method Open(source: Source, floats: FloatRule, format: Format, channels: nat, sampleRate: nat,
                       dataOffset: nat, dataSize: nat) returns (status: Status, handle: Handle)
      requires channels > 0 && dataOffset <= |source.file|
      modifies source
      ensures fresh(handle) && fresh(handle.buffer) && handle.source == source && handle.channels == channels
      ensures status in {Success, CallbackFailed, InvalidStreamPosition}
      ensures handle.dataOffset == dataOffset && handle.dataSize == dataSize && handle.format == format
      ensures source.failures == old(source.failures) + (if status == CallbackFailed then 1 else 0)
      ensures status == Success ==> handle.Valid() && handle.output == format && handle.Emitted() == 0
      ensures status != CallbackFailed ==>
        (status == Success <==> dataOffset <= old(source.cursor) <= dataOffset + dataSize)
      ensures status == InvalidStreamPosition ==> source.cursor == old(source.cursor)
    {
      handle := new Handle(source, floats, format, channels, sampleRate, dataOffset, dataSize);
      status := handle.Setup();
    }

    lemma PositionInStream()
      requires Coupled()
      ensures position <= length
    {
      if position > length {
        SpanAtMost(length + 1, position, blockSize);
        BlocksOfSamples(position, channels, inBytes);
        BlocksOfSamples(position, channels, outBytes);
        if consumed < Span(position, channels) {
          SpanMonotone(consumed, Span(position, channels), outBytes);
        } else if consumed > Span(position, channels) {
          SpanMonotone(Span(position, channels), consumed, inBytes);
        }
      }
    }

    lemma PhaseIsRemainder()
      requires Coupled()
      ensures blockOffset % outBytes == phase
    {
      BlocksOfSamples(position, channels, outBytes);
      RemainderOfSum(consumed, phase, Span(position, channels), blockOffset, outBytes);
    }

    method BufferClear() returns (status: Status)
      requires Header()
      modifies this`bytesLeft, this`offset, this`end, source`failures
      ensures source.failures == old(source.failures) + (if status == CallbackFailed then 1 else 0)
      ensures status == CallbackFailed ||
              status == if dataOffset <= source.cursor <= dataOffset + dataSize then Success else InvalidStreamPosition
      ensures status == Success ==> bytesLeft == dataSize - (source.cursor - dataOffset) && offset == end == 0
      ensures status != Success ==> bytesLeft == old(bytesLeft) && offset == old(offset) && end == old(end)
    {
      var ok, at := source.Tell();
      if !ok {
        return CallbackFailed;
      }
      if at < dataOffset || at > dataOffset + dataSize {
        return InvalidStreamPosition;
      }
      bytesLeft := dataSize - (at - dataOffset);
      offset, end := 0, 0;
      status := Success;
    }

    /** wuff_seek. Answers the exact new position, clamped to the stream. A failed seek callback changes nothing; a
        failed tell callback comes when the file cursor and the position have moved already, and leaves the buffer as it
        was. */
    method SeekTo(target: nat) returns (status: Status)
      requires Header() && Shaped()
      modifies this, source
      ensures status == Success || status == CallbackFailed
      ensures source.failures == old(source.failures) + (if status == CallbackFailed then 1 else 0)
      ensures output == old(output) && outBytes == old(outBytes) && outBlock == old(outBlock)
      ensures status == Success ==>
        && Valid() && position == (if target <= length then target else length)
        && blockOffset == 0 && phase == 0 && consumed == Span(position, channels)
        && Emitted() == Span(position, outBlock)
      ensures status != Success ==>
        && bytesLeft == old(bytesLeft) && offset == old(offset) && end == old(end)
        && consumed == old(consumed) && phase == old(phase)
        && ((source.cursor == old(source.cursor) && position == old(position) && blockOffset == old(blockOffset))
            || (position == (if target <= length then target else length) && blockOffset == 0
                && source.cursor == dataOffset + Span(position, blockSize)))
      ensures old(Valid()) && status != Success && source.cursor == old(source.cursor) ==>
        (position == old(position) && blockOffset == old(blockOffset) ==> Valid())
    {
      hide Span, WindowOf;
      EmptyWindow();
      var to := if target <= length then target else length;
      SpanAtMost(to, length, blockSize);
      SpanIsProduct(to, blockSize);
      var ok := source.Seek(dataOffset + to * blockSize);
      if !ok {
        return CallbackFailed;
      }
      position, blockOffset := to, 0;
      status := BufferClear();
      if status != Success {
        return;
      }
      consumed, phase := Span(to, channels), 0;
      BlocksOfSamples(to, channels, inBytes);
      BlocksOfSamples(to, channels, outBytes);
      SpanMonotone(0, channels, outBytes);
    }

    /** There is nothing more to read, in the chunk or in the file. */
    predicate Exhausted()
      reads this, source
    {
      bytesLeft == 0 || source.Remaining() == 0
    }

    /** Whatever the read callback answers, the fields a refill does not own stay as they were. */
    twostate predicate OutputUntouched()
      reads this
    {
      && output == old(output) && outBytes == old(outBytes) && outBlock == old(outBlock)
      && blockOffset == old(blockOffset) && position == old(position)
      && consumed == old(consumed) && phase == old(phase)
    }

    /** wuff_buffer_fill: slide what is left to the front and read behind it. When the callback fails the slide
        has happened but `offset` has not moved, so the window survives only if the slide overwrote none of it. */
    method BufferFill() returns (ok: bool)
      requires Loose()
      modifies this`bytesLeft, this`offset, this`end, source, buffer
      ensures Loose() && OutputUntouched() && end - offset >= old(end - offset)
      ensures source.failures == old(source.failures) + (if ok then 0 else 1)
      ensures old(Valid()) ==>
        Coupled() && (ok || old(offset) == 0 || old(offset) >= old(end) - old(offset) ==> WindowHeld())
      ensures ok && old(bytesLeft > 0 && source.Remaining() > 0) && old(end - offset) < buffer.Length ==>
        end - offset > old(end - offset)
      ensures ok && !source.shortReads ==> end - offset == buffer.Length || Exhausted()
    {
      if end - offset == buffer.Length {
        return true;
      }
      ok := Refill();
    }

    method Refill() returns (ok: bool)
      requires Loose() && end - offset < buffer.Length
      modifies this`bytesLeft, this`offset, this`end, source, buffer
      ensures Loose() && end - offset >= old(end - offset)
      ensures source.failures == old(source.failures) + (if ok then 0 else 1)
      ensures old(Valid()) ==>
        Coupled() && (ok || old(offset) == 0 || old(offset) >= old(end) - old(offset) ==> WindowHeld())
      ensures ok && old(bytesLeft > 0 && source.Remaining() > 0) ==> end - offset > old(end - offset)
      ensures ok && !source.shortReads ==> end - offset == buffer.Length || Exhausted()
    {
      hide Span;
      var held := end - offset;
      var want := buffer.Length - held;
      if want > bytesLeft {
        want := bytesLeft;
      }
      var got;
      ok, got := SlideAndRead(held, want);
      if ok {
        offset, end, bytesLeft := 0, held + got, bytesLeft - got;
      }
    }

    /** The memmove and the read callback of a refill. */
    method SlideAndRead(held: nat, want: nat) returns (ok: bool, got: nat)
      requires offset <= end <= buffer.Length && held == end - offset && held + want <= buffer.Length
      modifies source, buffer
      ensures got <= want && source.cursor == old(source.cursor) + got && got <= old(source.Remaining())
      ensures !ok ==> got == 0
      ensures source.failures == old(source.failures) + (if ok then 0 else 1)
      ensures ok && want > 0 && old(source.Remaining()) > 0 ==> got > 0
      ensures ok && !source.shortReads ==>
        got == if want <= old(source.Remaining()) then want else old(source.Remaining())
      ensures old(WindowOf(buffer[..], offset, end, source.file, source.cursor)) && held <= old(source.cursor) ==>
        && (ok ==> WindowOf(buffer[..], 0, held + got, source.file, source.cursor))
        && (!ok && (offset == 0 || offset >= held) ==> WindowOf(buffer[..], offset, end, source.file, source.cursor))
    {
      hide *;
      ghost var was := buffer[..];
      ghost var window := WindowOf(was, offset, end, source.file, source.cursor) && held <= source.cursor;
      Slide(buffer, offset, end);
      ghost var slid := buffer[..];
      ok, got := source.Read(buffer, held, want);
      if window && ok {
        WindowGrows(was, offset, end, source.file, old(source.cursor), slid, buffer[..], got);
      } else if window && (offset == 0 || offset >= held) {
        WindowKept(was, offset, end, source.file, source.cursor);
      }
    }

    /** wuff_format: back to the start of the block, then the new converter. */
    method SetFormat(code: nat) returns (status: Status)
      requires Header() && Shaped()
      modifies this, source
      ensures status == FormatUnsupported <==> code >= 6
      ensures status in {Success, CallbackFailed, FormatUnsupported}
      ensures source.failures == old(source.failures) + (if status == CallbackFailed then 1 else 0)
      ensures status == Success ==>
        && Valid() && output == FormatOf(code) && blockOffset == 0
        && position == (if old(position) <= length then old(position) else length)
        && Emitted() == Span(position, outBlock)
      ensures status != Success ==> Shaped() && output == old(output) && offset == old(offset) && end == old(end)
      ensures status != Success && old(position) <= length ==> position == old(position)
      ensures status != Success && old(blockOffset < outBlock) ==> blockOffset < outBlock
      ensures status == FormatUnsupported ==> source.cursor == old(source.cursor) && blockOffset == old(blockOffset)
      ensures status != Success && source.cursor == old(source.cursor) && blockOffset == old(blockOffset) ==>
        (old(Valid()) ==> Valid()) && Emitted() == old(Emitted())
    {
      hide Span, WindowOf;
      if code >= 6 {
        return FormatUnsupported;
      }
      if Coupled() {
        PositionInStream();
      }
      status := SeekTo(position);
      if status != Success {
        return;
      }
      output := FormatOf(code);
      outBytes := output.Size();
      outBlock := Span(channels, outBytes);
      BlocksOfSamples(position, channels, outBytes);
      SpanMonotone(0, channels, outBytes);
    }

    /** wuff_buffer_request: how many of the wanted samples are buffered, after a refill if need be. */
    method BufferRequest(wanted: nat) returns (ok: bool, granted: nat)
      requires Loose() && wanted > 0
      modifies this`bytesLeft, this`offset, this`end, source, buffer
      ensures Loose() && OutputUntouched()
      ensures source.failures == old(source.failures) + (if ok then 0 else 1)
      ensures old(Valid()) ==>
        Coupled() && (ok || old(offset) == 0 || old(offset) >= old(end) - old(offset) ==> Valid())
      ensures ok ==> granted <= wanted && Span(granted, inBytes) <= end - offset
      ensures ok && granted < wanted ==> end - offset < Span(granted, inBytes) + inBytes
      ensures ok && granted == 0 && old(bytesLeft > 0 && source.Remaining() > 0) ==> end - offset > old(end - offset)
      ensures ok && granted == 0 && !source.shortReads ==> Exhausted()
    {
      ok := true;
      SpanIsProduct(wanted, inBytes);
      if wanted * inBytes > end - offset {
        ok := BufferFill();
        if !ok {
          return ok, 0;
        }
      }
      granted := SampleCount(Conversion(), end - offset);
      if granted >= wanted {
        SpanAtMost(wanted, granted, inBytes);
        granted := wanted;
      }
    }

    /** wuff_buffer_release. */
    method BufferRelease(samples: nat) returns (status: Status)
      requires offset <= end
      modifies this`offset
      ensures if Span(samples, inBytes) <= end - old(offset)
        then status == Success && offset == old(offset) + Span(samples, inBytes)
        else status == InvalidSize && offset == old(offset)
    {
      SpanIsProduct(samples, inBytes);
      var size := samples * inBytes;
      if size > end - offset {
        return InvalidSize;
      }
      offset := offset + size;
      status := Success;
    }

    /** The end of wuff_read: both cursors move, and the finished samples leave the buffer. */
    method Advance(finished: nat, ghost next: nat, got: nat)
      requires Loose() && next < outBytes
      requires Span(consumed + finished, inBytes) == Span(consumed, inBytes) + Span(finished, inBytes)
      requires Span(finished, inBytes) + (if next > 0 then inBytes else 0) <= end - offset
      modifies this`position, this`blockOffset, this`offset, this`consumed, this`phase
      ensures Loose() && old(offset) <= offset <= end
      ensures old(Coupled() && Span(consumed + finished, outBytes) + next == Emitted() + got) ==>
        Coupled() && Emitted() == old(Emitted()) + got
    {
      hide Span;
      position, blockOffset := CarryInto(position, outBlock, blockOffset + got);
      var status := BufferRelease(finished);
      assert status == Success;
      consumed, phase := consumed + finished, next;
    }

    /** The converter call of wuff_read. */
    method ConvertBuffered(out: array<byte>, p: Plan, headOffset: nat)
      requires Loose() && out != buffer
      requires SliceArguments(outBytes, p.samples, headOffset, p.head, p.tail)
      requires SliceLength(outBytes, p.samples, p.head, p.tail) <= out.Length
      requires 0 < Span(Touched(p.samples, p.head, p.tail), inBytes) <= end - offset
      modifies out
      ensures var n := SliceLength(outBytes, p.samples, p.head, p.tail);
        && out[n..] == old(out[n..])
        && (Valid() && headOffset == phase ==>
             NextStretch(Stream(Conversion(), Data()), Emitted(), n, out[..], old(out[..])))
    {
      hide Span, Stream;
      ghost var was, window := out[..], buffer[offset..];
      Convert(floats, format, output, out, buffer, offset, p.samples, headOffset, p.head, p.tail);
      WrittenBehind(Conversion(), window, out[..], was, p.samples, headOffset, p.head, p.tail);
      if Valid() && headOffset == phase {
        WindowInData(window, buffer[..], offset, end, source.file, source.cursor, dataOffset, Data());
        WrittenIsStream(Conversion(), Data(), consumed, window, end - offset, phase, p, out[..], was);
      }
    }

    /** The second half of wuff_read, once samples are buffered. */
    method Deliver(out: array<byte>, p: Plan, headOffset: nat) returns (got: nat)
      requires Loose() && out != buffer
      requires SliceArguments(outBytes, p.samples, headOffset, p.head, p.tail)
      requires 0 < SliceLength(outBytes, p.samples, p.head, p.tail) <= out.Length
      requires Span(Touched(p.samples, p.head, p.tail), inBytes) <= end - offset
      modifies this`position, this`blockOffset, this`offset, this`consumed, this`phase, out
      ensures Loose() && got == old(SliceLength(outBytes, p.samples, p.head, p.tail)) && out[got..] == old(out[got..])
      ensures old(Valid() && headOffset == phase) ==>
        && Valid() && Emitted() == old(Emitted()) + got <= |Stream(Conversion(), Data())|
        && out[..got] == Stream(Conversion(), Data())[old(Emitted())..Emitted()]
    {
      SpanMonotone(0, Touched(p.samples, p.head, p.tail), inBytes);
      hide Span, Stream;
      ConvertBuffered(out, p, headOffset);
      got := Step(p, headOffset);
    }

    /** Reports the bytes written and moves on. */
    method Step(p: Plan, headOffset: nat) returns (got: nat)
      requires Loose() && SliceArguments(outBytes, p.samples, headOffset, p.head, p.tail)
      requires Span(Touched(p.samples, p.head, p.tail), inBytes) <= end - offset
      modifies this`position, this`blockOffset, this`offset, this`consumed, this`phase
      ensures Loose() && got == old(SliceLength(outBytes, p.samples, p.head, p.tail))
      ensures old(Valid() && headOffset == phase) ==> Valid() && Emitted() == old(Emitted()) + got
    {
      SpanIsProduct(p.samples, outBytes);
      got := p.samples * outBytes + p.head + p.tail;
      ghost var held := WindowHeld();
      StepCursors(inBytes, outBytes, consumed, headOffset, p, end - offset);
      Advance(Finished(outBytes, headOffset, p), NextPhase(outBytes, headOffset, p), got);
      if held {
        ShrinkWindow(buffer[..], old(offset), offset, end, source.file, source.cursor);
      }
    }

    /** wuff_read. Whatever has failed before, it writes no more than asked for. From a valid handle the bytes delivered
        are the next ones of the one-shot conversion of the data chunk: none lost, repeated or out of order; how many
        there are follows from the samples the buffer could grant. The release never answers InvalidSize. Nothing
        delivered means that no whole sample has arrived, and that the buffer came closer to one unless the source is at
        its end; a source without short reads is at its end then. */
    method Read(out: array<byte>, size: nat) returns (status: Status, got: nat, ghost granted: nat)
      requires Loose() && out != buffer && size <= out.Length
      modifies this, source, buffer, out
      ensures status == Success || status == CallbackFailed
      ensures source.failures == old(source.failures) + (if status == CallbackFailed then 1 else 0)
      ensures Loose() && output == old(output) && got <= size && out[got..] == old(out[got..])
      ensures status == Success && size > 0 && got == 0 && !source.shortReads ==> Exhausted()
      ensures status == Success && size > 0 && got == 0 ==> end - offset < inBytes
      ensures status == Success && size > 0 && got == 0 && old(bytesLeft > 0 && source.Remaining() > 0) ==>
        end - offset > old(end - offset)
      ensures old(Valid()) ==> Coupled() && Emitted() == old(Emitted()) + got
      ensures old(Valid()) && got > 0 ==>
        && Emitted() <= |Stream(Conversion(), Data())|
        && out[..got] == Stream(Conversion(), Data())[old(Emitted())..Emitted()]
      ensures old(Valid()) && (status == Success || old(offset) == 0 || old(offset) >= old(end) - old(offset)) ==>
        Valid()
      ensures old(Valid()) && status == Success && size > 0 ==>
        && granted <= Ask(size, old(outBytes), old(phase)).samples
        && got == Yield(old(outBytes), size, old(phase), granted)
        && (granted < Ask(size, old(outBytes), old(phase)).samples ==> end - offset < inBytes)
    {
      hide Span, Stream, WindowOf, Touched, Yield, Coupled, Ask, Settle, SliceLength, SliceArguments, Data;
      if size == 0 {
        return Success, 0, 0;
      }
      var sampleSize := outBytes;
      ghost var valid := Valid();
      if valid {
        PhaseIsRemainder();
      }
      var headOffset := blockOffset % sampleSize;
      var asked := Ask(size, sampleSize, headOffset);
      var ok, available := BufferRequest(asked.samples);
      granted := available;
      if !ok {
        return CallbackFailed, 0, granted;
      } else if available == 0 {
        NothingGranted(outBytes, inBytes, size, headOffset);
        return Success, 0, granted;
      }
      var p := Settle(asked, available);
      SettleFits(outBytes, size, headOffset, available);
      YieldIsLength(outBytes, size, headOffset, available);
      if available < asked.samples {
        ScarceLength(outBytes, size, headOffset, available);
      }
      SpanAtMost(Touched(p.samples, p.head, p.tail), available, inBytes);
      got := Serve(out, p, headOffset, available);
      status := Success;
    }

    /** Delivers a settled plan; if it uses up every sample there is, less than one is left. */
    method Serve(out: array<byte>, p: Plan, headOffset: nat, ghost available: nat) returns (got: nat)
      requires Loose() && out != buffer
      requires SliceArguments(outBytes, p.samples, headOffset, p.head, p.tail)
      requires 0 < SliceLength(outBytes, p.samples, p.head, p.tail) <= out.Length
      requires Span(Touched(p.samples, p.head, p.tail), inBytes) <= end - offset
      modifies this`position, this`blockOffset, this`offset, this`consumed, this`phase, out
      ensures Loose() && got == old(SliceLength(outBytes, p.samples, p.head, p.tail)) && out[got..] == old(out[got..])
      ensures old(Valid() && headOffset == phase) ==>
        && Valid() && Emitted() == old(Emitted()) + got <= |Stream(Conversion(), Data())|
        && out[..got] == Stream(Conversion(), Data())[old(Emitted())..Emitted()]
        && (headOffset + got == Span(available, outBytes) && old(end - offset) < Span(available, inBytes) + inBytes ==>
             end - offset < inBytes)
    {
      hide Span, Stream, WindowOf, Touched, SliceLength, SliceArguments;
      ghost var from, held, valid := consumed, end - offset, Valid() && headOffset == phase;
      got := Deliver(out, p, headOffset);
      if valid && headOffset + got == Span(available, outBytes) && held < Span(available, inBytes) + inBytes {
        ScarceDrains(from, headOffset, available, got, held);
      }
    }

    /** A read that used up every buffered sample leaves less than one behind. */
    lemma ScarceDrains(from: nat, part: nat, granted: nat, got: nat, held: nat)
      requires Coupled() && part < outBytes
      requires part + got == Span(granted, outBytes) && held < Span(granted, inBytes) + inBytes
      requires Emitted() == Span(from, outBytes) + part + got
      requires dataOffset + Span(from, inBytes) + held == source.cursor
      ensures end - offset < inBytes
    {
      SpanAdd(from, granted, outBytes);
      SpanAdd(from, granted, inBytes);
      SameSamples(consumed, phase, from + granted, outBytes);
    }

    /** Once less than a sample is buffered and there is nothing more to read, the whole conversion has been delivered
        from wherever the reading began. */
    lemma DrainedIsWhole()
      requires Coupled() && end - offset < inBytes && Exhausted()
      ensures Emitted() >= |Stream(Conversion(), Data())|
    {
      var n := SampleCount(Conversion(), |Data()|);
      if consumed < n {
        SpanAtMost(consumed + 1, n, inBytes);
      } else {
        SpanAtMost(n, consumed, outBytes);
      }
    }
  }

  lemma NothingGranted(outSize: SampleSize, inSize: SampleSize, size: nat, phase: nat)
    requires phase < outSize && size > 0
    ensures Yield(outSize, size, phase, 0) == 0 && Span(0, inSize) == 0
  {
  }

  lemma SameSamples(m: nat, r: nat, n: nat, size: SampleSize)
    requires r < size && Span(m, size) + r == Span(n, size)
    ensures m == n && r == 0
  {
    if m < n {
      SpanMonotone(m, n, size);
    } else if n < m {
      SpanMonotone(n, m, size);
    }
  }

  lemma ShrinkWindow(buffer: seq<byte>, from: nat, to: nat, end: nat, file: seq<byte>, cursor: nat)
    requires WindowOf(buffer, from, end, file, cursor) && from <= to <= end
    ensures WindowOf(buffer, to, end, file, cursor)
  {
    if to < end {
      assert buffer[to..end] == buffer[from..end][to - from..];
      assert file[cursor - (end - to)..cursor] == file[cursor - (end - from)..cursor][to - from..];
    }
  }

  lemma WindowInData(window: seq<byte>, buffer: seq<byte>, offset: nat, end: nat, file: seq<byte>, cursor: nat,
                     dataOffset: nat, data: seq<byte>)
    requires WindowOf(buffer, offset, end, file, cursor) && offset < end && window == buffer[offset..]
    requires dataOffset <= cursor - (end - offset) && cursor <= dataOffset + |data| <= |file|
    requires data == file[dataOffset..dataOffset + |data|]
    ensures var lo, held := cursor - (end - offset) - dataOffset, end - offset;
      window[..held] == data[lo..lo + held]
  {
    var lo, held := cursor - (end - offset), end - offset;
    assert window[..held] == buffer[offset..end];
    SubSlice(file, dataOffset, |data|, lo - dataOffset, held);
  }

  /** Where the cursors stand after a slice, and what stays buffered. */
  lemma StepCursors(inSize: SampleSize, outSize: SampleSize, consumed: nat, phase: nat, p: Plan, held: nat)
    requires SliceArguments(outSize, p.samples, phase, p.head, p.tail)
    requires Span(Touched(p.samples, p.head, p.tail), inSize) <= held
    ensures var f, next := Finished(outSize, phase, p), NextPhase(outSize, phase, p);
      && next < outSize
      && Span(consumed + f, outSize) + next
         == Span(consumed, outSize) + phase + SliceLength(outSize, p.samples, p.head, p.tail)
      && Span(consumed + f, inSize) == Span(consumed, inSize) + Span(f, inSize)
      && Span(f, inSize) + (if next > 0 then inSize as nat else 0) <= held
  {
    var f, next := Finished(outSize, phase, p), NextPhase(outSize, phase, p);
    CursorsInStep(outSize, phase, p);
    SpanAtMost(f + (if next > 0 then 1 else 0), Touched(p.samples, p.head, p.tail), inSize);
    SpanAdd(consumed, f, inSize);
    SpanAdd(consumed, f, outSize);
  }

  /** `now` is `was` with the `n` bytes of `stream` from `at` on at its front. */
  ghost predicate NextStretch(stream: seq<byte>, at: nat, n: nat, now: seq<byte>, was: seq<byte>) {
    n <= |now| == |was| && at + n <= |stream| && now[..n] == stream[at..at + n] && now[n..] == was[n..]
  }

  lemma WrittenBehind(rule: Rule, data: seq<byte>, now: seq<byte>, was: seq<byte>,
                      samples: nat, offset: nat, head: nat, tail: nat)
    requires SliceArguments(rule.outSize, samples, offset, head, tail)
    requires Span(Touched(samples, head, tail), rule.inSize) <= |data|
    requires Written(rule, data, now, was, samples, offset, head, tail)
    ensures var n := SliceLength(rule.outSize, samples, head, tail);
      n <= |was| == |now| && now[n..] == was[n..]
  {
  }

  /** A converter call on the buffered window writes the next stretch of the one-shot conversion. */
  lemma WrittenIsStream(rule: Rule, data: seq<byte>, consumed: nat, window: seq<byte>, held: nat, phase: nat, p: Plan,
                        now: seq<byte>, was: seq<byte>)
    requires Span(consumed, rule.inSize) + held <= |data| && held <= |window|
    requires window[..held] == data[Span(consumed, rule.inSize)..Span(consumed, rule.inSize) + held]
    requires SliceArguments(rule.outSize, p.samples, phase, p.head, p.tail)
    requires Span(Touched(p.samples, p.head, p.tail), rule.inSize) <= held
    requires Written(rule, window, now, was, p.samples, phase, p.head, p.tail)
    ensures NextStretch(Stream(rule, data), Span(consumed, rule.outSize) + phase,
                        SliceLength(rule.outSize, p.samples, p.head, p.tail), now, was)
  {
    hide Span, Stream, Touched, SliceLength, Written, Converted;
    SliceInRange(rule.outSize, p.samples, phase, p.head, p.tail);
    WrittenMeans(rule, window, now, was, p.samples, phase, p.head, p.tail);
    SliceOfStream(rule, data, consumed, window, held, Touched(p.samples, p.head, p.tail), phase,
                  SliceLength(rule.outSize, p.samples, p.head, p.tail));
  }

  /** The buffer after the memmove of wuff_buffer_fill. */
  function Slid(buffer: seq<byte>, offset: nat, end: nat): (r: seq<byte>)
    requires offset <= end <= |buffer|
    ensures |r| == |buffer|
  {
    buffer[offset..end] + buffer[end - offset..]
  }

  /** Exactly when a refill whose read fails leaves the bytes at `offset` readable, whatever they are: the slide has
      moved nothing, or was too short to reach them. */
  lemma FailedRefillExactly(size: nat, offset: nat, end: nat)
    requires offset <= end <= size
    ensures (forall b: seq<byte> :: |b| == size ==> Slid(b, offset, end)[offset..end] == b[offset..end])
       <==> (offset == 0 || offset >= end - offset)
  {
    if offset == 0 || offset >= end - offset {
      forall b: seq<byte> | |b| == size
        ensures Slid(b, offset, end)[offset..end] == b[offset..end]
      {
        SlidApart(b, offset, end);
      }
    } else {
      SlidOver(size, offset, end);
    }
  }

  /** A buffer whose window a slide overwrites. */
  lemma SlidOver(size: nat, offset: nat, end: nat)
    requires offset <= end <= size && 0 < offset < end - offset
    ensures exists b: seq<byte> :: |b| == size && Slid(b, offset, end)[offset..end] != b[offset..end]
  {
    var b: seq<byte> := seq(size, i => if i == offset then 1 else 0);
    var now := Slid(b, offset, end);
    assert now[offset] == b[2 * offset] == 0;
    assert now[offset..end][0] == 0 && b[offset..end][0] == 1;
  }

  lemma SlidApart(b: seq<byte>, offset: nat, end: nat)
    requires offset <= end <= |b| && (offset == 0 || offset >= end - offset)
    ensures Slid(b, offset, end)[offset..end] == b[offset..end]
  {
    if offset == 0 {
      assert Slid(b, 0, end) == b;
    }
  }

  /** The memmove of wuff_buffer_fill. */
  method Slide(buffer: array<byte>, offset: nat, end: nat)
    requires offset <= end <= buffer.Length
    modifies buffer
    ensures buffer[..] == Slid(old(buffer[..]), offset, end)
  {
    forall i | 0 <= i < end - offset {
      buffer[i] := buffer[offset + i];
    }
  }

  /** Sliding the window to the front and reading behind it extends it. */
  lemma WindowGrows(was: seq<byte>, offset: nat, end: nat, file: seq<byte>, cursor: nat,
                    slid: seq<byte>, now: seq<byte>, got: nat)
    requires WindowOf(was, offset, end, file, cursor) && slid == Slid(was, offset, end)
    requires end - offset <= cursor && Fetched(slid, now, end - offset, file, cursor, got)
    ensures WindowOf(now, 0, end - offset + got, file, cursor + got)
  {
    hide Slid;
    var held := end - offset;
    if held + got > 0 {
      forall j | 0 <= j < held + got
        ensures now[j] == file[cursor - held + j]
      {
        if j < held {
          SlidWindow(was, offset, end, file, cursor, j);
        }
      }
      SameStretch(now, file, cursor - held, held + got);
    }
  }

  lemma SlidWindow(was: seq<byte>, offset: nat, end: nat, file: seq<byte>, cursor: nat, j: nat)
    requires WindowOf(was, offset, end, file, cursor) && j < end - offset
    ensures Slid(was, offset, end)[j] == file[cursor - (end - offset) + j]
  {
    assert was[offset..end][j] == file[cursor - (end - offset)..cursor][j];
  }

  lemma SameStretch(a: seq<byte>, b: seq<byte>, at: nat, n: nat)
    requires n <= |a| && at + n <= |b|
    requires forall j :: 0 <= j < n ==> a[j] == b[at + j]
    ensures a[0..n] == b[at..at + n]
  {
  }

  /** A failed read leaves the window readable where it was, if the slide did not run into it. */
  lemma WindowKept(was: seq<byte>, offset: nat, end: nat, file: seq<byte>, cursor: nat)
    requires WindowOf(was, offset, end, file, cursor)
    requires offset == 0 || offset >= end - offset
    ensures WindowOf(Slid(was, offset, end), offset, end, file, cursor)
  {
    SlidApart(was, offset, end);
  }

  lemma RemainderOfSum(m: nat, r: nat, n: nat, rest: nat, size: SampleSize)
    requires r < size
    requires Span(m, size) + r == Span(n, size) + rest
    ensures rest % size == r
  {
    hide Span;
    SpanIsProduct(m, size);
    SpanIsProduct(n, size);
    assert (m - n) * size == m * size - n * size;
    DivModUnique(m - n, size, r);
  }
}
