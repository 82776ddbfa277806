/** Sample formats of the Wuff WAVE reader and the converters between them. */
module WuffConvert {
  import opened Bytes
  import opened WuffSlices

  datatype Format = U8 | S16 | S24 | S32 | F32 | F64 {
    function Size(): (n: nat)
      ensures n in {1, 2, 3, 4, 8}
    {
      match this
      case U8 => 1
      case S16 => 2
      case S24 => 3
      case S32 => 4
      case F32 => 4
      case F64 => 8
    }
  }

  /** Byte `k` of a sample converted from or to a floating-point format, which stays uninterpreted. */
  type FloatRule = (Format, Format, seq<byte>, int) -> byte

  /** One sample converted, shift by shift as the C code does it. */
  function ConvertSample(rule: FloatRule, from: Format, to: Format, s: seq<byte>): (r: seq<byte>)
    requires |s| == from.Size()
    ensures |r| == to.Size()
  {
    match (from, to)
    case (U8, U8) => s
    case (U8, S16) => LittleEndian((s[0] as int - 128) * 0x100, 2)
    case (U8, S24) => LittleEndian((s[0] as int - 128) * 0x100_0000, 4)[1..]
    case (U8, S32) => LittleEndian((s[0] as int - 128) * 0x100_0000, 4)
    case (S16, U8) => [AsByte(Signed(s) / 0x100 + 128)]
    case (S16, S16) => s
    case (S16, S24) => LittleEndian(Signed(s) * 0x1_0000, 4)[1..]
    case (S16, S32) => LittleEndian(Signed(s) * 0x1_0000, 4)
    case (S24, U8) => [AsByte(Signed([0] + s) / 0x1_0000 + 128)]
    case (S24, S16) => s[1..3]
    case (S24, S24) => s
    case (S24, S32) => [0] + s
    case (S32, U8) => [AsByte(Signed(s) / 0x100_0000 + 128)]
    case (S32, S16) => s[2..4]
    case (S32, S24) => s[1..4]
    case (S32, S32) => s
    case (F32, F32) => s
    case (F64, F64) => s
    case (_, _) => seq(to.Size(), k => rule(from, to, s, k))
  }

  /** The per-sample rule of the function wuff_set_output_format installs. */
  function RuleFor(rule: FloatRule, from: Format, to: Format): (r: Rule)
    ensures r.inSize == from.Size() && r.outSize == to.Size()
  {
    Rule(from.Size(), to.Size(), (s: seq<byte>, k: int) =>
      if |s| == from.Size() && 0 <= k < to.Size() then ConvertSample(rule, from, to, s)[k] else 0)
  }

  lemma RuleForSample(rule: FloatRule, from: Format, to: Format, s: seq<byte>)
    requires |s| == from.Size()
    ensures RuleFor(rule, from, to).Sample(s) == ConvertSample(rule, from, to, s)
  {
  }

  /** The converter installed in `output.function` for a pair of formats. */
  method Convert(rule: FloatRule, from: Format, to: Format, dst: array<byte>, src: array<byte>, at: nat,
                 samples: nat, offset: nat, head: nat, tail: nat)
    requires dst != src
    requires SliceArguments(to.Size(), samples, offset, head, tail)
    requires at + Span(Touched(samples, head, tail), from.Size()) <= src.Length
    requires SliceLength(to.Size(), samples, head, tail) <= dst.Length
    modifies dst
    ensures Written(RuleFor(rule, from, to), src[at..], dst[..], old(dst[..]), samples, offset, head, tail)
  {
    var r := RuleFor(rule, from, to);
    if from == to {
      forall s: seq<byte> | |s| == from.Size()
        ensures r.Sample(s) == s
      {
        RuleForSample(rule, from, to, s);
      }
      CopyThrough(r, dst, src, at, samples, offset, head, tail);
    } else if to == U8 {
      SpanIsProduct(samples, 1);
      ToUnsigned8(r, dst, src, at, samples);
    } else {
      Sliced(r, dst, src, at, samples, offset, head, tail);
    }
  }

  /** Widening and narrowing back is the identity on one sample. */
  lemma WidenNarrow(rule: FloatRule, narrow: Format, wide: Format, s: seq<byte>)
    requires |s| == narrow.Size()
    requires (narrow, wide) in {(U8, S16), (U8, S32), (S16, S24), (S16, S32), (S24, S32)}
    ensures ConvertSample(rule, wide, narrow, ConvertSample(rule, narrow, wide, s)) == s
  {
    if narrow == U8 {
      WidenNarrow8(rule, wide, s);
    } else if narrow == S16 {
      WidenNarrow16(rule, wide, s);
    } else {
      assert ([0] + s)[1..4] == s;
    }
  }

  lemma WidenNarrow8(rule: FloatRule, wide: Format, s: seq<byte>)
    requires |s| == 1 && wide in {S16, S32}
    ensures ConvertSample(rule, wide, U8, ConvertSample(rule, U8, wide, s)) == s
  {
    var x := s[0] as int - 128;
    Unsigned8Up(s[0]);
    if wide == S16 {
      assert x * 0x100 / 0x100 == x;
    } else {
      assert x * 0x100_0000 / 0x100_0000 == x;
    }
  }

  lemma WidenNarrow16(rule: FloatRule, wide: Format, s: seq<byte>)
    requires |s| == 2 && wide in {S24, S32}
    ensures ConvertSample(rule, wide, S16, ConvertSample(rule, S16, wide, s)) == s
  {
    Signed16Up(s);
    assert ([0, 0] + s)[1..] == [0] + s && ([0] + s)[1..3] == s && ([0, 0] + s)[2..4] == s;
  }

  lemma Unsigned8Up(b: byte)
    ensures Signed(LittleEndian((b as int - 128) * 0x100, 2)) == (b as int - 128) * 0x100
    ensures Signed(LittleEndian((b as int - 128) * 0x100_0000, 4)) == (b as int - 128) * 0x100_0000
  {
    Powers();
    SignedOfTop(b as int - 128, 1);
    SignedOfTop(b as int - 128, 3);
  }

  lemma Powers()
    ensures Pow256(1) == 0x100 && Pow256(2) == 0x1_0000 && Pow256(3) == 0x100_0000
  {
    assert Pow256(1) == 256 * Pow256(0) && Pow256(2) == 256 * Pow256(1) && Pow256(3) == 256 * Pow256(2);
  }

  /** A 16-bit sample sits in the two high bytes of its 32-bit widening. */
  lemma Signed16Up(s: seq<byte>)
    requires |s| == 2
    ensures LittleEndian(Signed(s) * 0x1_0000, 4) == [0, 0] + s
  {
    StoreLoadSigned(s);
    var x := Signed(s);
    assert x * 0x1_0000 == x * 256 * 256;
    StoreShifted(x * 256, 3);
    StoreShifted(x, 2);
  }

  /** Widening a whole stream and narrowing it back is the identity, whatever its length. */
  lemma WidenNarrowStream(rule: FloatRule, narrow: Format, wide: Format, data: seq<byte>, n: nat)
    requires (narrow, wide) in {(U8, S16), (U8, S32), (S16, S24), (S16, S32), (S24, S32)}
    requires Span(n, narrow.Size()) <= |data|
    ensures Converted(RuleFor(rule, wide, narrow), Converted(RuleFor(rule, narrow, wide), data, n), n)
         == data[..Span(n, narrow.Size())]
  {
    var up, down := RuleFor(rule, narrow, wide), RuleFor(rule, wide, narrow);
    forall s: seq<byte> | |s| == up.inSize
      ensures down.Sample(up.Sample(s)) == s
    {
      RuleForSample(rule, narrow, wide, s);
      RuleForSample(rule, wide, narrow, up.Sample(s));
      WidenNarrow(rule, narrow, wide, s);
    }
    RoundTrip(up, down, data, n);
  }

  /** Narrowing 24 bits to 8 shifts by two bytes where three are needed, so it answers the middle byte of the
      sample: it agrees with the 32-bit narrowing of the same value exactly when the two high bytes are equal. */
  lemma NarrowS24Exactly(rule: FloatRule, s: seq<byte>)
    requires |s| == 3
    ensures ConvertSample(rule, S24, U8, s) == [AsByte(s[1] as int + 128)]
    ensures ConvertSample(rule, S32, U8, [0] + s) == [AsByte(s[2] as int + 128)]
    ensures ConvertSample(rule, S24, U8, s) == ConvertSample(rule, S32, U8, ConvertSample(rule, S24, S32, s))
       <==> s[1] == s[2]
  {
    hide ConvertSample;
    NarrowedBytes(rule, s);
    assert (s[1] as int + 128) % 256 == (s[2] as int + 128) % 256 <==> s[1] == s[2];
  }

  lemma NarrowedBytes(rule: FloatRule, s: seq<byte>)
    requires |s| == 3
    ensures ConvertSample(rule, S24, U8, s) == [AsByte(s[1] as int + 128)]
    ensures ConvertSample(rule, S32, U8, [0] + s) == [AsByte(s[2] as int + 128)]
    ensures ConvertSample(rule, S24, S32, s) == [0] + s
  {
    var b := [0] + s;
    SignedDigits(b);
    assert b[2] == s[1] && b[3] == s[2];
    ByteShift(Signed(b) / 0x1_0000, s[1]);
    ByteShift(Signed(b) / 0x100_0000, s[2]);
  }

  lemma ByteShift(x: int, b: int)
    requires x % 256 == b
    ensures AsByte(x + 128) == AsByte(b + 128)
  {
  }

  lemma SignedDigits(b: seq<byte>)
    requires |b| == 4
    ensures Signed(b) / 0x1_0000 % 256 == b[2]
    ensures Signed(b) / 0x100_0000 % 256 == b[3]
  {
    Powers();
    assert Pow256(4) == 256 * Pow256(3);
    var b0: int, b1: int, b2: int, b3: int := b[0], b[1], b[2], b[3];
    assert b[1..][1..][1..] == [b[3]] && Unsigned([b[3]]) == b3 + 256 * Unsigned([]);
    assert Unsigned(b[1..][1..]) == b2 + 256 * b3;
    assert Unsigned(b[1..]) == b1 + 256 * (b2 + 256 * b3);
    assert Unsigned(b) == b0 + 256 * (b1 + 256 * (b2 + 256 * b3));
    Digits(b0 + 256 * b1, b2, b3, 0);
    Digits(b0 + 256 * b1, b2, b3, 1);
  }

  lemma Digits(low: int, b2: int, b3: int, borrow: int)
    requires 0 <= low < 0x1_0000 && 0 <= b2 < 256 && 0 <= b3 < 256
    ensures var v := low + 0x1_0000 * b2 + 0x100_0000 * b3 - 0x1_0000_0000 * borrow;
      v / 0x1_0000 % 256 == b2 && v / 0x100_0000 % 256 == b3
  {
    var high := b3 - 256 * borrow;
    DivModUnique(b2 + 256 * high, 0x1_0000, low);
    DivModUnique(high, 256, b2);
    DivModUnique(high, 0x100_0000, low + 0x1_0000 * b2);
    DivModUnique(-borrow, 256, b3);
  }

  /** An 8-bit sample survives the way through 24 bits only when it is silence. */
  lemma WidenNarrowS24Exactly(rule: FloatRule, s: seq<byte>)
    requires |s| == 1
    ensures ConvertSample(rule, S24, U8, ConvertSample(rule, U8, S24, s)) == [128]
    ensures ConvertSample(rule, S24, U8, ConvertSample(rule, U8, S24, s)) == s <==> s[0] == 128
  {
    var x := s[0] as int - 128;
    assert x * 0x100_0000 == x * 256 * 256 * 256;
    StoreShifted(x * 256 * 256, 3);
    StoreShifted(x * 256, 2);
    StoreShifted(x, 1);
    NarrowS24Exactly(rule, ConvertSample(rule, U8, S24, s));
  }
}
