/** The mip levels of a DDS file: sizes in bytes, and where each level lies in the data. */
module MipChain {
  import opened Shifts

  const WORD: int := 0x1_0000_0000_0000_0000
  const HALF: int := 0x8000_0000_0000_0000

  type Side = n: int | 1 <= n < 0x8000_0000 witness 1

  /** How a format stores its pixels: in pairs, in blocks of 4 by 4, or in rows of pixels of some bits each. */
  datatype Layout = Packed | Blocks(bytes: nat) | Rows(bits: nat)

  /** The layouts the formats have. */
  predicate Known(l: Layout) {
    match l
    case Packed => true
    case Blocks(bytes) => bytes == 8 || bytes == 16
    case Rows(bits) => bits <= 128
  }

  datatype Image = Image(width: Side, height: Side, dataSize: nat, start: nat)

  /** The bytes of one row of pixels or blocks, and the number of such rows. */
  function RowBytes(l: Layout, w: Side): nat {
    match l
    case Packed => (w + 1) / 2 * 4
    case Blocks(bytes) => (w + 3) / 4 * bytes
    case Rows(bits) => (w * bits + 7) / 8
  }

  function RowCount(l: Layout, h: Side): nat {
    if l.Blocks? then (h + 3) / 4 else h
  }

  /** What a picture takes. */
  function TrueSize(l: Layout, w: Side, h: Side): nat {
    RowBytes(l, w) * RowCount(l, h)
  }

  /** What parseImageSize computes, in 64 bits. */
  function ImageSize(l: Layout, w: Side, h: Side): nat {
    if l == Rows(0) then 0 else TrueSize(l, w, h) % WORD
  }

  // ---------------------------------------------------------------- the sides of a level

  function Halve(n: Side): Side {
    if n / 2 > 1 then n / 2 else 1
  }

  function Level(n: Side, i: nat): Side {
    if i == 0 then n else Halve(Level(n, i - 1))
  }

  lemma {:induction false} LevelIsShift(n: Side, i: nat)
    ensures Level(n, i) == if ShiftRight(n, i) > 1 then ShiftRight(n, i) else 1
  {
    if i > 0 {
      LevelIsShift(n, i - 1);
      ShiftLast(n, i);
    }
  }

  lemma Scale(a: nat, b: nat, c: nat, d: nat)
    requires a <= b && c <= d
    ensures a * c <= b * d
  {
    assert b * d == a * c + a * (d - c) + (b - a) * d;
  }

  lemma SmallerRows(l: Layout, v: Side, w: Side)
    requires v <= w
    ensures RowBytes(l, v) <= RowBytes(l, w)
  {
    match l
    case Packed =>
    case Blocks(bytes) => Scale((v + 3) / 4, (w + 3) / 4, bytes, bytes);
    case Rows(bits) => Scale(v, w, bits, bits);
  }

  lemma {:induction false} SmallerLevels(l: Layout, w: Side, h: Side, i: nat)
    ensures Level(w, i) <= w && Level(h, i) <= h
    ensures TrueSize(l, Level(w, i), Level(h, i)) <= TrueSize(l, w, h)
  {
    if i > 0 {
      SmallerLevels(l, w, h, i - 1);
    }
    SmallerRows(l, Level(w, i), w);
    Scale(RowBytes(l, Level(w, i)), RowBytes(l, w), RowCount(l, Level(h, i)), RowCount(l, h));
  }

  // ---------------------------------------------------------------- the chain

  /** Each level begins where the one before it ends, in the arithmetic of size_t, and ends within the data. */
  ghost predicate Chained(l: Layout, w: Side, h: Side, size: nat, levels: seq<Image>, end: nat) {
    && end <= size
    && (levels == [] ==> end == 0)
    && (levels != [] ==> levels[0].start == 0 && end == After(levels[|levels| - 1]))
    && (forall i :: 0 <= i < |levels| ==>
          && LevelAt(l, w, h, i, levels[i]) && After(levels[i]) <= size
          && (i > 0 ==> levels[i].start == After(levels[i - 1])))
  }

  ghost predicate LevelAt(l: Layout, w: Side, h: Side, i: nat, m: Image) {
    && m.width == Level(w, i) && m.height == Level(h, i)
    && m.dataSize == ImageSize(l, m.width, m.height) > 0
  }

  function After(m: Image): nat {
    (m.start + m.dataSize) % WORD
  }

  lemma SmallSize(l: Layout, w: Side, h: Side)
    requires TrueSize(l, w, h) < WORD && ImageSize(l, w, h) > 0
    ensures ImageSize(l, w, h) == TrueSize(l, w, h)
  {
    hide TrueSize;
  }

  /** With data below half the address space, and a first level whose size fits 64 bits, all sizes are the true ones and
      the levels tile a prefix of the data. */
  lemma {:induction false} Tiles(l: Layout, w: Side, h: Side, size: nat, levels: seq<Image>, end: nat, i: nat)
    requires Chained(l, w, h, size, levels, end) && i < |levels|
    requires size < HALF && TrueSize(l, w, h) < WORD
    ensures levels[i].dataSize == TrueSize(l, Level(w, i), Level(h, i))
    ensures After(levels[i]) == levels[i].start + levels[i].dataSize <= size
    ensures levels[i].start == Before(levels[..i])
  {
    hide ImageSize, TrueSize, Halve;
    var m := levels[i];
    assert LevelAt(l, w, h, i, m);
    assert LevelAt(l, w, h, 0, levels[0]) && Level(w, 0) == w && Level(h, 0) == h;
    SmallSize(l, w, h);
    SmallerLevels(l, w, h, i);
    SmallSize(l, m.width, m.height);
    if i > 0 {
      Tiles(l, w, h, size, levels, end, i - 1);
      assert levels[..i][..i - 1] == levels[..i - 1];
    }
  }

  /** The bytes of all the levels. */
  function Before(levels: seq<Image>): nat {
    if levels == [] then 0 else Before(levels[..|levels| - 1]) + levels[|levels| - 1].dataSize
  }

  /** A picture whose size does not fit 64 bits: sixteen GiB of data are accepted for it, as its one level. */
  lemma WrappedSize()
    ensures var w: Side, h: Side, size := 0x4000_0000, 0x4000_0001, 0x4_0000_0000;
            && TrueSize(Rows(128), w, h) > size
            && Chained(Rows(128), w, h, size, [Image(w, h, size, 0)], size)
  {
    var w: Side, h: Side, size := 0x4000_0000, 0x4000_0001, 0x4_0000_0000;
    assert ImageSize(Rows(128), w, h) == size;
    assert LevelAt(Rows(128), w, h, 0, Image(w, h, size, 0));
  }

  /** Only rows of pixels of more than 32 bits can be that large. */
  lemma SizeIsTrue(l: Layout, w: Side, h: Side)
    requires Known(l) && l != Rows(0)
    ensures ImageSize(l, w, h) == TrueSize(l, w, h) <==> TrueSize(l, w, h) < WORD
    ensures TrueSize(l, w, h) < WORD || (l.Rows? && l.bits > 32)
  {
    match l
    case Packed => PairsFit(w, h);
    case Blocks(bytes) => BlocksFit((w + 3) / 4, bytes, (h + 3) / 4);
    case Rows(bits) =>
      if bits <= 32 {
        RowsFit(w, bits, h);
      }
  }

  lemma PairsFit(w: Side, h: Side)
    ensures (w + 1) / 2 * 4 * h < WORD
  {
    Scale((w + 1) / 2 * 4, 0x1_0000_0000, h, 0x8000_0000);
  }

  lemma BlocksFit(across: nat, bytes: nat, down: nat)
    requires across <= 0x2000_0001 && bytes <= 16 && down <= 0x2000_0001
    ensures across * bytes * down < WORD
  {
    Scale(across, 0x2000_0001, bytes, 16);
    Scale(across * bytes, 0x2_0000_0010, down, 0x2000_0001);
  }

  lemma RowsFit(w: Side, bits: nat, h: Side)
    requires bits <= 32
    ensures (w * bits + 7) / 8 * h < WORD
  {
    Scale(w, 0x7FFF_FFFF, bits, 32);
    Scale((w * bits + 7) / 8, 0x1_FFFF_FFFC, h, 0x7FFF_FFFF);
  }

  lemma EmptyChain(l: Layout, w: Side, h: Side, size: nat)
    ensures Chained(l, w, h, size, [], 0)
  {
  }

  lemma ChainGrows(l: Layout, w: Side, h: Side, size: nat, levels: seq<Image>, end: nat, m: Image)
    requires Chained(l, w, h, size, levels, end) && LevelAt(l, w, h, |levels|, m)
    requires m.start == end && After(m) <= size
    ensures Chained(l, w, h, size, levels + [m], After(m))
  {
    hide LevelAt, After;
    var all := levels + [m];
    assert all[|levels|] == m;
    assert forall i :: 0 <= i < |levels| ==> all[i] == levels[i];
  }

  /** The next level is empty or does not fit any more. */
  ghost predicate Refused(l: Layout, w: Side, h: Side, size: nat, levels: seq<Image>, end: nat) {
    var next := ImageSize(l, Level(w, |levels|), Level(h, |levels|));
    next == 0 || (end + next) % WORD > size
  }

  /** There is only one chain, so a refusal is never premature: no chain goes further than the level refused. */
  lemma RefusalIsFinal(l: Layout, w: Side, h: Side, size: nat, levels: seq<Image>, end: nat, longer: seq<Image>,
                       last: nat)
    requires Chained(l, w, h, size, levels, end) && Chained(l, w, h, size, longer, last) && |levels| < |longer|
    ensures !Refused(l, w, h, size, levels, end)
  {
    hide ImageSize, TrueSize, Halve;
    var n := |levels|;
    assert LevelAt(l, w, h, n, longer[n]) && After(longer[n]) <= size;
    if n > 0 {
      SameChain(l, w, h, size, levels, end, longer, last, n - 1);
    }
  }

  lemma {:induction false} SameChain(l: Layout, w: Side, h: Side, size: nat, levels: seq<Image>, end: nat,
                                     longer: seq<Image>, last: nat, i: nat)
    requires Chained(l, w, h, size, levels, end) && Chained(l, w, h, size, longer, last)
    requires i < |levels| <= |longer|
    ensures levels[i] == longer[i]
  {
    hide ImageSize, TrueSize, Halve;
    assert LevelAt(l, w, h, i, levels[i]) && LevelAt(l, w, h, i, longer[i]);
    if i > 0 {
      SameChain(l, w, h, size, levels, end, longer, last, i - 1);
    }
  }

  class Parser {
    var texData: seq<Image>

    constructor ()
      ensures texData == []
    {
      texData := [];
    }

    /** parseTexData: `dataSize` bytes hold `mips` levels, or nothing changes. */
    method ParseTexData(dataSize: nat, l: Layout, width: Side, height: Side, mips: int) returns (ok: bool)
      requires dataSize < WORD
      modifies this
      ensures !ok ==> texData == old(texData)
      ensures ok ==> |texData| == (if mips < 0 then 0 else mips)
      ensures ok ==> exists end :: Chained(l, width, height, dataSize, texData, end)
      ensures !ok ==> exists levels, end :: |levels| < mips && Chained(l, width, height, dataSize, levels, end)
                                         && Refused(l, width, height, dataSize, levels, end)
    {
      hide ImageSize, TrueSize, Halve, Chained;
      EmptyChain(l, width, height, dataSize);
      var w: Side, h: Side, newTexData: seq<Image> := width, height, [];
      var offset: nat, i := 0, 0;
      while i < mips
        invariant texData == old(texData) && |newTexData| == i && (if mips < 0 then i == 0 else i <= mips)
        invariant w == Level(width, i) && h == Level(height, i)
        invariant Chained(l, width, height, dataSize, newTexData, offset)
      {
        var size := ImageSize(l, w, h);
        if size == 0 || (offset + size) % WORD > dataSize {
          assert Refused(l, width, height, dataSize, newTexData, offset);
          return false;
        }
        ChainGrows(l, width, height, dataSize, newTexData, offset, Image(w, h, size, offset));
        newTexData := newTexData + [Image(w, h, size, offset)];
        offset := (offset + size) % WORD;
        w, h := Halve(w), Halve(h);
        i := i + 1;
      }
      texData := newTexData;
      return true;
    }
  }
}
