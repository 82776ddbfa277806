/** A whole WAVE file opened the way wuff_init_stream and wuff_setup do: the header is fetched in one read of 80 bytes.
    */
module WuffOpen {
  import opened Bytes
  import opened WuffSource
  import opened WuffConvert
  import opened WuffReader
  import W = WuffChunk

  const HEADER_FETCH_SIZE: nat := 80

  /** RIFF, a size, WAVE; an fmt chunk of 16 bytes: PCM, one channel, 8000 samples a second, 8000 bytes a second, one
      byte a block, 8 bits a sample. */
  const HEADER: seq<byte> :=
    W.RIFF + [92, 0, 0, 0] + W.WAVE + W.FMT + [16, 0, 0, 0] +
    [1, 0, 1, 0, 0x40, 0x1F, 0, 0, 0x40, 0x1F, 0, 0, 1, 0, 8, 0]

  /** That header, a data chunk of `n` bytes, and `rest` behind it. */
  function FileOf(n: byte, data: seq<byte>, rest: seq<byte>): seq<byte> {
    HEADER + W.DATA + [n, 0, 0, 0] + data + rest
  }

  lemma HeaderOf(n: byte, data: seq<byte>, rest: seq<byte>)
    ensures var file := FileOf(n, data, rest);
      && |file| == 44 + |data| + |rest|
      && W.IdAt(file, 0) == W.RIFF && W.IdAt(file, 8) == W.WAVE && W.IdAt(file, 12) == W.FMT && W.SizeAt(file, 12) == 16
      && W.IdAt(file, 36) == W.DATA && W.SizeAt(file, 36) == n as int
  {
    var file := FileOf(n, data, rest);
    assert |HEADER| == 36;
    assert file[0..4] == W.RIFF && file[8..12] == W.WAVE && file[12..16] == W.FMT && file[16..20] == [16, 0, 0, 0];
    assert file[36..40] == W.DATA && file[40..44] == [n, 0, 0, 0];
    SmallSize(16);
    SmallSize(n);
  }

  lemma SmallSize(n: byte)
    ensures Unsigned([n, 0, 0, 0]) == n as int
  {
    assert [n, 0, 0, 0][1..] == [0, 0, 0] && [0, 0, 0][1..] == [0, 0] && [0, 0][1..] == [0] && [0][1..] == [];
  }

  /** wuff_open on such a file. As long as no callback fails the handle is ready to deliver the data, unless the first
      read has gone past a short data chunk into what follows it. */
  method Open(source: Source, floats: FloatRule, n: byte, data: seq<byte>, rest: seq<byte>)
    returns (status: Status, handle: Handle?)
    requires source.file == FileOf(n, data, rest) && |data| == n as int && source.cursor == 0 && !source.shortReads
    modifies source
    ensures source.failures == old(source.failures) + (if status == CallbackFailed then 1 else 0)
    ensures status != CallbackFailed ==>
      status == if n as int >= HEADER_FETCH_SIZE - 44 || rest == [] then Success else InvalidStreamPosition
    ensures status == InvalidStreamPosition ==> source.cursor > 44 + n as int
    ensures status == Success ==> handle != null && handle.Valid() && handle.Emitted() == 0 && handle.Data() == data
  {
    HeaderOf(n, data, rest);
    handle := null;
    var fetched := new byte[HEADER_FETCH_SIZE];
    var ok, got := source.Read(fetched, 0, HEADER_FETCH_SIZE);
    if !ok {
      return CallbackFailed, handle;
    }
    var found, at, size := W.SearchChunk(source, W.DATA, n as int, 36, W.DATA, W.NO_ID);
    assert found == W.Succeeded && at == 36 && size == n as int;
    status, handle := Handle.Open(source, floats, U8, 1, 8000, at + 8, size);
    DataOf(n, data, rest);
  }

  lemma DataOf(n: byte, data: seq<byte>, rest: seq<byte>)
    ensures FileOf(n, data, rest)[44..44 + |data|] == data
  {
    assert |HEADER| == 36;
  }

  /** A data chunk of 20 bytes with 36 more behind it is one that does not open. */
  method ShortChunkRefused(floats: FloatRule) returns (source: Source, status: Status)
    ensures source.file == FileOf(20, seq(20, _ => 128), seq(36, _ => 0))
    ensures status == if source.failures == 0 then InvalidStreamPosition else CallbackFailed
    ensures source.failures == 0 ==> source.cursor > 44 + 20
  {
    var data, rest: seq<byte> := seq(20, _ => 128), seq(36, _ => 0);
    source := new Source(FileOf(20, data, rest), false);
    var handle;
    status, handle := Open(source, floats, 20, data, rest);
  }
}
