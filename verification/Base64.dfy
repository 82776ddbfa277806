/** b64_encode and b64_decode: the alphabet and padding of section 4 of RFC 4648, with optional line breaks. */
module Base64 {
  import opened Bytes

  const SIZE_MAX: nat := 0xFFFF_FFFF_FFFF_FFFF

  type Sextet = n: int | 0 <= n < 64

  // ---------------------------------------------------------------- the two tables

  // cb64 and cd64, cut where their runs end.
  const CB64: string := "ABCDEFGHIJKLMNOPQRSTUVWXYZ" + "abcdefghijklmnopqrstuvwxyz" + "0123456789+/"
  const CD64: string :=
    "|$$$}rstuvwxyz{$$$$$$$" + ">?@ABCDEFGHIJKLMNOPQRSTUVW" + "$$$$$$" + "XYZ[\\]^_`abcdefghijklmnopq"

  /** The encoder's letter: its table in closed form. */
  function Letter(s: Sextet): char {
    if s < 26 then (65 + s) as char
    else if s < 52 then (71 + s) as char
    else if s < 62 then (s - 4) as char
    else if s == 62 then '+' else '/'
  }

  /** The decoder's two table steps in closed form: 0 for a character to skip, else one more than the sextet. */
  function Lookup(c: char): (v: int)
    ensures 0 <= v <= 64
  {
    var code := c as int;
    if 65 <= code <= 90 then code - 64
    else if 97 <= code <= 122 then code - 70
    else if 48 <= code <= 57 then code + 5
    else if c == '+' then 63 else if c == '/' then 64 else 0
  }

  lemma LetterIsTable(s: Sextet)
    ensures |CB64| == 64 && CB64[s] == Letter(s)
  {
    if s < 26 {
      UpperLetter(s);
    } else if s < 52 {
      assert CB64[s] == "abcdefghijklmnopqrstuvwxyz"[s - 26];
    } else {
      assert CB64[s] == "0123456789+/"[s - 52];
    }
  }

  lemma UpperLetter(i: int)
    requires 0 <= i < 26
    ensures CB64[i] as int == 65 + i
  {
  }

  /** Outside the table, and for its '$' entries, the decoder skips; the rest stand 61 too high. */
  lemma LookupIsTable(c: char)
    ensures |CD64| == 80
    ensures Lookup(c) == if c as int < 43 || c as int > 122 || CD64[c as int - 43] == '$' then 0
                         else CD64[c as int - 43] as int - 61
  {
    var i := c as int - 43;
    if 0 <= i < 80 {
      CodeAt(i);
    }
  }

  lemma CodeAt(i: int)
    requires 0 <= i < 80
    ensures |CD64| == 80
    ensures CD64[i] as int == if i == 0 then 124 else if i == 4 then 125 else if 5 <= i < 15 then 109 + i
                              else if 22 <= i < 48 then 40 + i else if i >= 54 then 34 + i else 36
  {
    if i < 22 {
      assert CD64[i] == "|$$$}rstuvwxyz{$$$$$$$"[i];
      DigitCode(i);
    } else if i < 48 {
      assert CD64[i] == ">?@ABCDEFGHIJKLMNOPQRSTUVW"[i - 22];
      UpperCode(i - 22);
    } else if i < 54 {
      assert CD64[i] == "$$$$$$"[i - 48];
    } else {
      assert CD64[i] == "XYZ[\\]^_`abcdefghijklmnopq"[i - 54];
      LowerCode(i - 54);
    }
  }

  lemma DigitCode(i: int)
    requires 0 <= i < 22
    ensures var t := "|$$$}rstuvwxyz{$$$$$$$"[i];
            t as int == if i == 0 then 124 else if i == 4 then 125 else if 5 <= i < 15 then 109 + i else 36
  {
  }

  lemma UpperCode(i: int)
    requires 0 <= i < 26
    ensures ">?@ABCDEFGHIJKLMNOPQRSTUVW"[i] as int == 62 + i
  {
  }

  lemma LowerCode(i: int)
    requires 0 <= i < 26
    ensures "XYZ[\\]^_`abcdefghijklmnopq"[i] as int == 88 + i
  {
  }

  /** The tables undo each other, and neither padding nor line breaks mean anything to the decoder. */
  lemma LetterLookup(s: Sextet)
    ensures Lookup(Letter(s)) == s + 1
    ensures Lookup('=') == 0 && Lookup('\n') == 0
  {
  }

  // ---------------------------------------------------------------- blocks

  function Sextet0(a: byte): Sextet { a as int / 4 }
  function Sextet1(a: byte, b: byte): Sextet { a as int % 4 * 16 + b as int / 16 }
  function Sextet2(b: byte, c: byte): Sextet { b as int % 16 * 4 + c as int / 64 }
  function Sextet3(c: byte): Sextet { c as int % 64 }

  function Byte0(p: Sextet, q: Sextet): byte { AsByte(p as int * 4 + q as int / 16) }
  function Byte1(q: Sextet, r: Sextet): byte { AsByte(q as int * 16 + r as int / 4) }
  function Byte2(r: Sextet, s: Sextet): byte { r as int % 4 * 64 + s as int }

  /** The shifts and masks of the two block functions are inverse, whatever the other bits are. */
  lemma BlockBits(a: byte, b: byte, c: byte)
    ensures Byte0(Sextet0(a), Sextet1(a, b)) == a
    ensures Byte1(Sextet1(a, b), Sextet2(b, c)) == b
    ensures Byte2(Sextet2(b, c), Sextet3(c)) == c
  {
    FirstBits(a, b);
    MiddleBits(a, b, c);
    LastBits(b, c);
  }

  lemma FirstBits(a: byte, b: byte)
    ensures Byte0(Sextet0(a), Sextet1(a, b)) == a
  {
    DivModUnique(a as int % 4, 16, b as int / 16);
  }

  lemma MiddleBits(a: byte, b: byte, c: byte)
    ensures Byte1(Sextet1(a, b), Sextet2(b, c)) == b
  {
    var low, high := b as int % 16, b as int / 16;
    DivModUnique(low, 4, c as int / 64);
    DivModUnique(a as int % 4, 256, high * 16 + low);
  }

  lemma LastBits(b: byte, c: byte)
    ensures Byte2(Sextet2(b, c), Sextet3(c)) == c
  {
    DivModUnique(b as int % 16, 4, c as int / 64);
  }

  /** b64_encode_block on `len` bytes: the missing bytes are zero and their letters are padding. */
  function EncodeBlock(block: seq<byte>, len: int): (out: string)
    requires |block| == 3 && 1 <= len <= 3
    ensures |out| == 4
  {
    [Letter(Sextet0(block[0])),
     Letter(Sextet1(block[0], block[1])),
     if len > 1 then Letter(Sextet2(block[1], block[2])) else '=',
     if len > 2 then Letter(Sextet3(block[2])) else '=']
  }

  /** b64_decode_block. */
  function DecodeBlock(block: seq<Sextet>): (out: seq<byte>)
    requires |block| == 4
    ensures |out| == 3
  {
    [Byte0(block[0], block[1]), Byte1(block[1], block[2]), Byte2(block[2], block[3])]
  }

  // ---------------------------------------------------------------- what the text means

  /** The bits of the data, six at a time; the last sextet is filled up with zero bits. */
  function Sextets(x: seq<byte>): seq<Sextet> {
    if |x| == 0 then []
    else if |x| == 1 then [Sextet0(x[0]), Sextet1(x[0], 0)]
    else if |x| == 2 then [Sextet0(x[0]), Sextet1(x[0], x[1]), Sextet2(x[1], 0)]
    else [Sextet0(x[0]), Sextet1(x[0], x[1]), Sextet2(x[1], x[2]), Sextet3(x[2])] + Sextets(x[3..])
  }

  /** The bytes in a run of sextets: four make three bytes, and of a shorter rest only whole bytes count. */
  function Regroup(s: seq<Sextet>): (x: seq<byte>)
    ensures |x| == Whole(|s|)
  {
    if |s| < 2 then []
    else if |s| == 2 then [Byte0(s[0], s[1])]
    else if |s| == 3 then [Byte0(s[0], s[1]), Byte1(s[1], s[2])]
    else [Byte0(s[0], s[1]), Byte1(s[1], s[2]), Byte2(s[2], s[3])] + Regroup(s[4..])
  }

  /** How many whole bytes `n` sextets hold. */
  function Whole(n: nat): nat
  {
    if n < 2 then 0 else if n < 4 then n - 1 else 3 + Whole(n - 4)
  }

  /** The sextets a text carries: every character outside the alphabet is skipped. */
  function Filter(text: string): seq<Sextet> {
    if |text| == 0 then [] else
      var v := Lookup(text[0]);
      (if v == 0 then [] else [v - 1]) + Filter(text[1..])
  }

  type Quad = t: string | |t| == 4 witness "===="

  /** The three-byte buffer holding a block, zero where there is no data. */
  function Block(x: seq<byte>): (block: seq<byte>)
    requires |x| <= 3
    ensures |block| == 3 && block[..|x|] == x
  {
    x + [0, 0, 0][|x|..]
  }

  /** The length of the block that starts the data. */
  function First(x: seq<byte>): (len: nat)
    requires |x| > 0
    ensures 1 <= len <= 3 && len <= |x|
  {
    if |x| < 3 then |x| else 3
  }

  /** The group of four characters for the block that starts the data. */
  function FirstQuad(x: seq<byte>): Quad
    requires |x| > 0
  {
    EncodeBlock(Block(x[..First(x)]), First(x))
  }

  /** The groups of four characters, one for every block. */
  function Quads(x: seq<byte>): (quads: seq<Quad>)
    ensures |quads| == BlockCount(|x|)
  {
    if |x| == 0 then [] else [FirstQuad(x)] + Quads(x[First(x)..])
  }

  function BlockCount(n: nat): nat {
    if n == 0 then 0 else 1 + BlockCount(if n < 3 then 0 else n - 3)
  }

  /** The text before line breaks. */
  function Joined(quads: seq<Quad>): (text: string)
    ensures |text| == 4 * |quads|
  {
    if |quads| == 0 then "" else quads[0] + Joined(quads[1..])
  }

  /** The formula by which b64_encode finds the length before it starts. */
  lemma {:induction false} PaddedFormula(n: nat)
    ensures (n + (if n % 3 != 0 then 3 - n % 3 else 0)) / 3 * 4 == 4 * BlockCount(n)
    ensures 3 * BlockCount(n) <= n + 2 && n <= 3 * BlockCount(n)
  {
    if n >= 3 {
      PaddedFormula(n - 3);
    }
  }

  /** A line break after every full line of `width` characters, also after the last when it is full. */
  function WithLines(text: string, width: nat): string
    requires width > 0
    decreases |text|
  {
    if |text| < width then text else text[..width] + "\n" + WithLines(text[width..], width)
  }

  // ---------------------------------------------------------------- the round trip

  lemma {:induction false} RegroupSextets(x: seq<byte>)
    ensures Regroup(Sextets(x)) == x
  {
    if |x| >= 3 {
      BlockBits(x[0], x[1], x[2]);
      RegroupSextets(x[3..]);
      var s := Sextets(x);
      assert s[4..] == Sextets(x[3..]);
      assert x == [x[0], x[1], x[2]] + x[3..];
    } else if |x| == 2 {
      assert x == [x[0], x[1]];
      BlockBits(x[0], x[1], 0);
    } else if |x| == 1 {
      assert x == [x[0]];
      BlockBits(x[0], 0, 0);
    }
  }

  lemma {:induction false} FilterConcat(a: string, b: string)
    ensures Filter(a + b) == Filter(a) + Filter(b)
  {
    hide Filter, Lookup;
    FilterNone();
    if |a| == 0 {
      assert a == "" && a + b == b;
    } else {
      FilterConcat(a[1..], b);
      FilterSkip(a);
      FilterSkip(a + b);
      assert (a + b)[1..] == a[1..] + b;
    }
  }

  lemma FilterSkip(text: string)
    requires |text| > 0
    ensures Filter(text) == Meaning(text[0]) + Filter(text[1..])
  {
  }

  lemma FilterNone()
    ensures Filter("") == []
  {
  }

  /** What one character contributes. */
  function Meaning(c: char): seq<Sextet> {
    if Lookup(c) == 0 then [] else [Lookup(c) - 1]
  }

  lemma LetterMeaning(s: Sextet)
    ensures Meaning(Letter(s)) == [s]
  {
    LetterLookup(s);
  }

  lemma FilterFour(t: string)
    requires |t| == 4
    ensures Filter(t) == Meaning(t[0]) + Meaning(t[1]) + Meaning(t[2]) + Meaning(t[3])
  {
    FilterConcat(t[..2], t[2..]);
    assert t == t[..2] + t[2..];
    FilterTwo(t[..2]);
    FilterTwo(t[2..]);
  }

  lemma FilterTwo(t: string)
    requires |t| == 2
    ensures Filter(t) == Meaning(t[0]) + Meaning(t[1])
  {
    assert t[1..][1..] == [];
    assert Filter(t[1..]) == Meaning(t[1]) + Filter(t[1..][1..]);
  }

  lemma FilterBlock(a: byte, b: byte, c: byte, len: int)
    requires 1 <= len <= 3
    ensures Filter(EncodeBlock([a, b, c], len))
         == [Sextet0(a), Sextet1(a, b), Sextet2(b, c), Sextet3(c)][..len + 1]
  {
    FilterFour(EncodeBlock([a, b, c], len));
    LetterMeaning(Sextet0(a));
    LetterMeaning(Sextet1(a, b));
    LetterMeaning(Sextet2(b, c));
    LetterMeaning(Sextet3(c));
    SkippedMeaning();
  }

  lemma SkippedMeaning()
    ensures Meaning('=') == [] && Meaning('\n') == []
  {
    LetterLookup(0);
  }

  lemma {:induction false} FilterQuads(x: seq<byte>)
    ensures Filter(Joined(Quads(x))) == Sextets(x)
  {
    hide EncodeBlock, Filter;
    FilterNone();
    if |x| > 0 {
      var b := Block(x[..First(x)]);
      FilterBlock(b[0], b[1], b[2], First(x));
      assert b == [b[0], b[1], b[2]];
      FilterQuads(x[First(x)..]);
      FilterConcat(EncodeBlock(b, First(x)), Joined(Quads(x[First(x)..])));
    }
  }

  lemma {:induction false} FilterLines(text: string, width: nat)
    requires width > 0
    ensures Filter(WithLines(text, width)) == Filter(text)
    decreases |text|
  {
    hide Lookup;
    if |text| < width {
      LinesShort(text, width);
    } else {
      LetterLookup(0);
      var line, rest := text[..width], text[width..];
      FilterLines(rest, width);
      FilterConcat(line + "\n", WithLines(rest, width));
      FilterConcat(line, "\n");
      assert Filter("\n") == Meaning('\n') + Filter("\n"[1..]);
      FilterConcat(line, rest);
      assert text == line + rest;
    }
  }

  /** A line length of zero stands for the largest size. */
  function Width(linelen: nat): nat {
    if linelen == 0 then SIZE_MAX else linelen
  }

  /** How many groups b64_encode puts on a line: as many as fit, but one at least. */
  function Groups(linelen: nat): (g: nat)
    ensures g > 0
  {
    if Width(linelen) / 4 == 0 then 1 else Width(linelen) / 4
  }

  /** The text after `k` groups: a line break after every full line, and one at the end of the last. */
  function Written(quads: seq<Quad>, k: nat, g: nat): string
    requires k <= |quads| && g > 0
  {
    WithLines(Joined(quads[..k]), 4 * g) + (if k == |quads| && Column(k, g) > 0 then "\n" else "")
  }

  /** The part of a text that there is room for. */
  function Cut(text: string, room: nat): (cut: string)
    ensures |cut| == if |text| <= room then |text| else room
  {
    if |text| <= room then text else text[..room]
  }

  /** What b64_encode writes. */
  function Encoded(x: seq<byte>, linelen: nat): string {
    Cut(Written(Quads(x), BlockCount(|x|), Groups(linelen)), TextLength(|x|, Width(linelen)))
  }

  /** What b64_decode makes of a text. */
  function Decoded(text: string): seq<byte> {
    Regroup(Filter(text))
  }

  /** The decoder's buffer holds three bytes for every four characters. */
  function Capacity(srclen: nat): nat {
    srclen / 4 * 3
  }

  lemma {:induction false} WholeFormula(n: nat)
    ensures Whole(n) == Capacity(n) + (if n % 4 == 0 then 0 else n % 4 - 1)
  {
    if n >= 4 {
      WholeFormula(n - 4);
    }
  }

  /** The decoder fills its buffer without overrunning it exactly when the characters in use come in whole groups. */
  lemma DecodeFitsExactly(text: string)
    ensures |Decoded(text)| <= Capacity(|text|) <==>
            |Filter(text)| / 4 < |text| / 4 || |Filter(text)| % 4 <= 1
  {
    hide Regroup, Filter;
    FilterShortens(text);
    WholeFormula(|Filter(text)|);
  }

  /** Two letters without padding: no room is allocated, and one byte is written. */
  lemma UnpaddedOverruns()
    ensures Capacity(|"AB"|) == 0 && |Decoded("AB")| == 1
  {
    FilterTwo("AB");
  }

  lemma {:induction false} FilterShortens(text: string)
    ensures |Filter(text)| <= |text|
  {
    if |text| > 0 {
      FilterShortens(text[1..]);
    }
  }

  // ---------------------------------------------------------------- lines

  lemma {:induction false} LinesLength(text: string, width: nat)
    requires width > 0
    ensures |WithLines(text, width)| == |text| + |text| / width
    decreases |text|
  {
    if |text| >= width {
      LinesLength(text[width..], width);
      DivideStep(|text|, width);
    } else {
      DivideSmall(|text|, width);
    }
  }

  lemma DivideSmall(n: nat, d: nat)
    requires n < d
    ensures n / d == 0 && n % d == n
  {
  }

  lemma DivideStep(n: nat, d: nat)
    requires n >= d > 0
    ensures (n - d) / d == n / d - 1 && (n - d) % d == n % d
  {
    var q, r := n / d, n % d;
    assert n == q * d + r;
    assert n - d == (q - 1) * d + r;
    DivModUnique(q - 1, d, r);
  }

  lemma DivideGrows(m: nat, n: nat, d: nat)
    requires m <= n && d > 0
    ensures m / d <= n / d
    decreases n
  {
    if m >= d {
      DivideStep(m, d);
      DivideStep(n, d);
      DivideGrows(m - d, n - d, d);
    } else {
      DivideSmall(m, d);
    }
  }

  /** How many groups the unfinished last line holds after `k` groups, with `m` groups to a line. */
  function Column(k: nat, m: nat): (c: nat)
    requires m > 0
    ensures c < m
  {
    if k < m then k else Column(k - m, m)
  }

  /** The next group goes at the end of the text, and completes a line exactly when the count reaches `m`. */
  lemma {:induction false} LinesStep(text: string, group: string, k: nat, m: nat)
    requires |text| == 4 * k && |group| == 4 && m > 0
    ensures WithLines(text + group, 4 * m)
         == WithLines(text, 4 * m) + group + (if Column(k, m) + 1 == m then "\n" else "")
    ensures Column(k + 1, m) == if Column(k, m) + 1 == m then 0 else Column(k, m) + 1
    decreases k
  {
    hide WithLines;
    var width := 4 * m;
    if k >= m {
      var line, rest := text[..width], text[width..];
      LinesStep(rest, group, k - m, m);
      LinesPrepend(line, rest, width);
      LinesPrepend(line, rest + group, width);
      assert text == line + rest && text + group == line + (rest + group);
    } else if k + 1 == m {
      LinesPrepend(text + group, "", width);
      LinesShort(text, width);
      LinesShort("", width);
      assert text + group + "" == text + group;
    } else {
      LinesShort(text, width);
      LinesShort(text + group, width);
    }
  }

  lemma LinesShort(text: string, width: nat)
    requires |text| < width
    ensures WithLines(text, width) == text
  {
  }

  lemma LinesPrepend(line: string, rest: string, width: nat)
    requires |line| == width > 0
    ensures WithLines(line + rest, width) == line + "\n" + WithLines(rest, width)
  {
    assert (line + rest)[..width] == line && (line + rest)[width..] == rest;
  }

  /** The letters never contain a line break, so every line but the last is exactly full, and none is longer. */
  lemma {:induction false} BreaksExactly(text: string, width: nat, j: nat)
    requires '\n' !in text && width > 0
    requires j < |WithLines(text, width)|
    ensures WithLines(text, width)[j] == '\n' <==> j % (width + 1) == width
    decreases |text|
  {
    if |text| < width {
      DivideSmall(j, width + 1);
    } else if j <= width {
      DivideSmall(j, width + 1);
    } else {
      var rest := text[width..];
      BreaksExactly(rest, width, j - (width + 1));
      DivideStep(j, width + 1);
      assert WithLines(text, width)[j] == WithLines(rest, width)[j - (width + 1)];
    }
  }

  lemma {:induction false} QuadsUnbroken(x: seq<byte>)
    ensures '\n' !in Joined(Quads(x))
  {
    hide Letter, Lookup;
    if |x| > 0 {
      QuadsUnbroken(x[First(x)..]);
      LettersUnbroken();
    }
  }

  lemma LettersUnbroken()
    ensures forall s: Sextet :: Letter(s) != '\n'
  {
    forall s: Sextet ensures Letter(s) != '\n' {
      LetterLookup(s);
      LetterLookup(0);
    }
  }

  // ---------------------------------------------------------------- the encoder

  lemma {:induction false} JoinedStep(quads: seq<Quad>, k: nat)
    requires k < |quads|
    ensures Joined(quads[..k + 1]) == Joined(quads[..k]) + quads[k]
  {
    var next, rest := quads[..k + 1], quads[1..];
    if k == 0 {
      assert next[1..] == [] && quads[..0] == [];
    } else {
      JoinedStep(rest, k - 1);
      assert next[1..] == rest[..k] && quads[..k][1..] == rest[..k - 1];
    }
  }

  /** One turn of the encoder's loop, on the text: a break follows a full line and the last group. */
  lemma TextStep(quads: seq<Quad>, k: nat, g: nat)
    requires k < |quads| && g > 0
    ensures Written(quads, k + 1, g)
         == Written(quads, k, g) + quads[k] + (if Column(k, g) + 1 == g || k + 1 == |quads| then "\n" else "")
    ensures Column(k + 1, g) == if Column(k, g) + 1 == g then 0 else Column(k, g) + 1
  {
    hide WithLines, Joined;
    JoinedStep(quads, k);
    LinesStep(Joined(quads[..k]), quads[k], k, g);
  }

  lemma CutEmpty()
    ensures forall room: nat :: Cut("", room) == ""
  {
  }

  /** Cutting on the way and at the end is the same. */
  lemma CutTwice(a: string, b: string, room: nat)
    ensures Cut(Cut(a, room) + b, room) == Cut(a + b, room)
  {
    if |a| > room {
      assert (a[..room] + b)[..room] == a[..room] == (a + b)[..room];
    }
  }

  lemma {:induction false} QuadAt(x: seq<byte>, k: nat)
    requires k < BlockCount(|x|)
    ensures 3 * k < |x| && Quads(x)[k] == FirstQuad(x[3 * k..])
  {
    hide FirstQuad;
    if k > 0 {
      QuadAt(x[3..], k - 1);
      assert x[3..][3 * (k - 1)..] == x[3 * k..];
    } else {
      assert x[0..] == x;
    }
  }

  lemma BlockStart()
    ensures Block([]) == [0, 0, 0]
  {
  }

  lemma BlockGrows(x: seq<byte>, next: byte)
    requires |x| < 3
    ensures Block(x)[|x| := next] == Block(x + [next])
  {
  }

  /** The encoder's inner loop over the input: up to three bytes, the rest of the block zero. */
  method NextQuad(src: seq<byte>, start: nat, ghost k: nat) returns (out: Quad, srcpos: nat)
    requires start == 3 * k < |src| && k < BlockCount(|src|)
    ensures out == Quads(src)[k]
    ensures start < srcpos <= |src| && (srcpos == start + 3 || srcpos == |src|)
    ensures k + 1 == BlockCount(|src|) <==> srcpos == |src|
  {
    hide Quads, BlockCount, EncodeBlock, Block;
    PaddedFormula(|src|);
    QuadAt(src, k);
    BlockStart();
    srcpos := start;
    var block, len := [0, 0, 0], 0;
    for i := 0 to 3
      invariant len == i <= |src| - start && srcpos == start + len
      invariant block == Block(src[start..srcpos])
    {
      if srcpos >= |src| {
        break;
      }
      BlockGrows(src[start..srcpos], src[srcpos]);
      assert src[start..srcpos] + [src[srcpos]] == src[start..srcpos + 1];
      block := block[i := src[srcpos]];
      srcpos := srcpos + 1;
      len := len + 1;
    }
    assert src[start..][..len] == src[start..srcpos];
    out := EncodeBlock(block, len);
  }

  /** The encoder's inner loop over the output: it stops early only when the text is full. */
  method PutBlock(out: string, dst: array<char>, dstpos: nat, dstlen: nat) returns (next: nat)
    requires |out| == 4 && dstpos <= dstlen < dst.Length
    modifies dst
    ensures next <= dstlen && dst[..next] == Cut(old(dst[..dstpos]) + out, dstlen)
  {
    next := dstpos;
    var i := 0;
    while i < 4 && next < dstlen
      invariant 0 <= i <= 4 && next == dstpos + i <= dstlen
      invariant dst[..next] == old(dst[..dstpos]) + out[..i]
    {
      dst[next] := out[i];
      i, next := i + 1, next + 1;
    }
  }

  /** The encoder's line break: after a full line or the last block, if there is still room. */
  method EndLine(dst: array<char>, dstpos: nat, dstlen: nat, blocksout: nat, limit: nat, last: bool)
    returns (next: nat, count: nat)
    requires dstpos <= dstlen < dst.Length
    modifies dst
    ensures next <= dstlen
    ensures var ends := blocksout >= limit || last;
            && count == (if ends then 0 else blocksout)
            && dst[..next] == Cut(old(dst[..dstpos]) + (if ends && blocksout > 0 then "\n" else ""), dstlen)
  {
    next, count := dstpos, blocksout;
    if count >= limit || last {
      if count > 0 && next < dstlen {
        dst[next] := '\n';
        next := next + 1;
      }
      count := 0;
    }
  }

  /** The length of the text, as b64_encode computes it. */
  function TextLength(srclen: nat, width: nat): (dstlen: nat)
    requires width > 0
    ensures dstlen == 4 * BlockCount(srclen) + 4 * BlockCount(srclen) / width
    ensures dstlen >= 4 * BlockCount(srclen) && (dstlen > 0 <==> srclen > 0)
  {
    PaddedFormula(srclen);
    DivideGrows(0, 4 * BlockCount(srclen), width);
    var adjustment := if srclen % 3 != 0 then 3 - srclen % 3 else 0;
    var paddedlen := (srclen + adjustment) / 3 * 4;
    paddedlen + paddedlen / width
  }

  /** The text and its terminator have a size that a size_t holds, so that no step of computing it wraps around. */
  predicate TextFits(srclen: nat, linelen: nat) {
    TextLength(srclen, Width(linelen)) < SIZE_MAX
  }

  lemma NothingWritten(quads: seq<Quad>, g: nat)
    requires g > 0
    ensures |quads| > 0 ==> Written(quads, 0, g) == ""
    ensures Column(0, g) == 0
  {
  }

  /** One turn of the encoder's loop on the text, cut to the room there is. */
  lemma CutStep(quads: seq<Quad>, k: nat, g: nat, room: nat)
    requires k < |quads| && g > 0
    ensures var end := if Column(k, g) + 1 == g || k + 1 == |quads| then "\n" else "";
      Cut(Cut(Cut(Written(quads, k, g), room) + quads[k], room) + end, room) == Cut(Written(quads, k + 1, g), room)
    ensures Column(k + 1, g) == if Column(k, g) + 1 == g then 0 else Column(k, g) + 1
  {
    hide Written, Column, Cut;
    var text := Written(quads, k, g);
    TextStep(quads, k, g);
    CutTwice(text, quads[k], room);
    CutTwice(text + quads[k], if Column(k, g) + 1 == g || k + 1 == |quads| then "\n" else "", room);
  }

  lemma LineFull(linelen: nat, count: nat)
    requires 0 < count <= Groups(linelen)
    ensures count >= Width(linelen) / 4 <==> count == Groups(linelen)
  {
  }

  /** The text is as much of the lines as the computed length has room for, and a terminator follows it. */
  method Encode(src: seq<byte>, linelen: nat) returns (dst: array?<char>, dstlen: nat)
    requires TextFits(|src|, linelen)
    ensures dst == null <==> |src| == 0
    ensures dstlen == TextLength(|src|, Width(linelen))
    ensures dst != null ==>
      && fresh(dst) && dst.Length == dstlen + 1
      && |Encoded(src, linelen)| <= dstlen
      && dst[..|Encoded(src, linelen)|] == Encoded(src, linelen) && dst[|Encoded(src, linelen)|] == '\0'
  {
    ghost var quads, k, g := Quads(src), 0, Groups(linelen);
    NothingWritten(quads, g);
    CutEmpty();
    var width := if linelen == 0 then SIZE_MAX else linelen;
    assert width == Width(linelen) && (|src| > 0 ==> |quads| > 0);
    hide Quads, BlockCount, EncodeBlock, TextLength, Written, Column, Cut, Width, Groups, TextFits;
    var blocksout, srcpos := 0, 0;
    dstlen := TextLength(|src|, width);
    if dstlen == 0 {
      return null, dstlen;
    }
    dst := new char[dstlen + 1];
    var dstpos: nat := 0;
    while srcpos < |src|
      invariant srcpos <= |src| && k <= |quads|
      invariant if srcpos < |src| then srcpos == 3 * k && k < |quads| else k == |quads|
      invariant dstpos <= dstlen && dst[..dstpos] == Cut(Written(quads, k, g), dstlen)
      invariant srcpos < |src| ==> blocksout == Column(k, g)
    {
      CutStep(quads, k, g, dstlen);
      LineFull(linelen, Column(k, g) + 1);
      var out;
      out, srcpos := NextQuad(src, srcpos, k);
      dstpos := PutBlock(out, dst, dstpos, dstlen);
      blocksout, k := blocksout + 1, k + 1;
      dstpos, blocksout := EndLine(dst, dstpos, dstlen, blocksout, width / 4, srcpos >= |src|);
    }
    dst[dstpos] := '\0';
  }

  // ---------------------------------------------------------------- the decoder

  lemma LeftNone(src: string, srclen: nat)
    requires srclen < |src|
    ensures Left(src, srclen, srclen + 1) == []
  {
  }

  lemma LeftAll(src: string, srclen: nat)
    requires srclen < |src|
    ensures Left(src, srclen, 0) == Filter(src[..srclen])
  {
    assert src[0..srclen] == src[..srclen];
  }

  lemma LeftStep(src: string, srclen: nat, srcpos: nat)
    requires srcpos <= srclen < |src|
    ensures var v := Lookup(src[srcpos]);
      Left(src, srclen, srcpos) ==
        if srcpos == srclen then []
        else if v == 0 then Left(src, srclen, srcpos + 1) else [v - 1] + Left(src, srclen, srcpos + 1)
  {
    hide Filter;
    if srcpos == srclen {
      FilterNone();
    } else {
      var rest := src[srcpos..srclen];
      FilterSkip(rest);
      assert rest[1..] == src[srcpos + 1..srclen];
    }
  }

  /** The decoder's innermost loop: the next meaningful character at or after `start`, terminator included. */
  method NextSextet(src: string, srclen: nat, start: nat) returns (v: int, srcpos: nat)
    requires start <= srclen < |src|
    ensures start < srcpos <= srclen + 1
    ensures srcpos <= srclen ==> 1 <= v <= 64
    ensures Left(src, srclen, start) == if srcpos <= srclen then [v - 1] + Left(src, srclen, srcpos) else []
  {
    hide Lookup, Left;
    v, srcpos := 0, start;
    while srcpos <= srclen && v == 0
      invariant start <= srcpos <= srclen + 1 && 0 <= v <= 64
      invariant v != 0 ==> srcpos > start
      invariant srcpos <= srclen && v == 0 ==> Left(src, srclen, start) == Left(src, srclen, srcpos)
      invariant srcpos <= srclen && v != 0 ==> Left(src, srclen, start) == [v - 1] + Left(src, srclen, srcpos)
      invariant srcpos == srclen + 1 ==> Left(src, srclen, start) == []
    {
      LeftStep(src, srclen, srcpos);
      v := Lookup(src[srcpos]);
      srcpos := srcpos + 1;
    }
  }

  lemma RegroupPrepend(four: seq<Sextet>, rest: seq<Sextet>)
    requires |four| == 4
    ensures Regroup(four + rest) == Regroup(four) + Regroup(rest)
  {
    assert (four + rest)[4..] == rest;
    assert four[4..] == [];
  }

  /** The bytes one turn of the decoder's loop writes for `len` sextets: the rest of the block does not matter. */
  lemma RegroupBlock(block: seq<Sextet>, len: nat)
    requires 1 <= len <= 4 && |block| == 4
    ensures Regroup(block[..len]) == DecodeBlock(block)[..len - 1]
  {
    if len == 4 {
      assert block[..4] == block && block[4..] == [];
    }
  }

  /** What is left to decode in the text from `srcpos` on; past the terminator there is nothing. */
  ghost function Left(src: string, srclen: nat, srcpos: nat): seq<Sextet>
    requires srclen < |src| && srcpos <= srclen + 1
  {
    if srcpos <= srclen then Filter(src[srcpos..srclen]) else []
  }

  /** Up to four sextets into the block. What an earlier turn left behind stays in the cells not reached. */
  method TakeSextets(src: string, srclen: nat, start: nat, stale: seq<Sextet>)
    returns (block: seq<Sextet>, len: nat, srcpos: nat)
    requires start <= srclen < |src| && |stale| == 4
    ensures |block| == 4 && len <= 4 && start < srcpos <= srclen + 1
    ensures srcpos <= srclen ==> len == 4
    ensures Left(src, srclen, start) == block[..len] + Left(src, srclen, srcpos)
  {
    hide Filter, Lookup, Left;
    LeftNone(src, srclen);
    block, len, srcpos := stale, 0, start;
    var i := 0;
    while i < 4 && srcpos <= srclen
      invariant 0 <= i <= 4 && len <= i && start <= srcpos <= srclen + 1 && |block| == 4
      invariant i > 0 ==> srcpos > start
      invariant srcpos <= srclen ==> len == i
      invariant Left(src, srclen, start) == block[..len] + Left(src, srclen, srcpos)
    {
      ghost var before := block[..len];
      var v;
      v, srcpos := NextSextet(src, srclen, srcpos);
      if srcpos <= srclen {
        len := len + 1;
        block := block[i := v - 1];
        assert block[..len] == before + [v - 1];
      } else {
        block := block[i := 0];
        assert block[..len] == before;
      }
      i := i + 1;
    }
  }

  /** One decoded block, cut to the bytes that `len` sextets make whole. */
  method PutBytes(block: seq<Sextet>, len: nat, dst: array<byte>, size: nat) returns (next: nat)
    requires |block| == 4 && 1 <= len <= 4 && size + len - 1 <= dst.Length
    modifies dst
    ensures next == size + len - 1 && dst[..next] == old(dst[..size]) + Regroup(block[..len])
  {
    RegroupBlock(block, len);
    var out := DecodeBlock(block);
    next := size;
    for i := 0 to len - 1
      invariant next == size + i && dst[..next] == old(dst[..size]) + out[..i]
    {
      dst[next] := out[i];
      next := next + 1;
    }
  }

  /**
   * b64_decode reads one character past `srclen`, the terminator, and never lets it count. The room it allocates
   * is enough exactly under the condition of DecodeFitsExactly.
   */
  method Decode(src: string, srclen: nat) returns (dst: array<byte>, size: nat)
    requires srclen < |src|
    requires |Filter(src[..srclen])| / 4 < srclen / 4 || |Filter(src[..srclen])| % 4 <= 1
    ensures fresh(dst) && dst.Length == Capacity(srclen)
    ensures size <= dst.Length && dst[..size] == Decoded(src[..srclen])
  {
    hide Regroup, Filter, Lookup, DecodeBlock, Left;
    LeftAll(src, srclen);
    LeftNone(src, srclen);
    ghost var text := src[..srclen];
    ghost var all := Decoded(text);
    DecodeFitsExactly(text);
    dst := new byte[srclen / 4 * 3];
    size := 0;
    var block: seq<Sextet>, srcpos := [0, 0, 0, 0], 0;
    while srcpos <= srclen
      invariant srcpos <= srclen + 1 && |block| == 4 && size <= dst.Length
      invariant all == dst[..size] + Regroup(Left(src, srclen, srcpos))
    {
      ghost var rest := Left(src, srclen, srcpos);
      var len;
      block, len, srcpos := TakeSextets(src, srclen, srcpos, block);
      RegroupTurn(rest, block[..len], Left(src, srclen, srcpos));
      if len > 0 {
        size := PutBytes(block, len, dst, size);
      }
    }
  }

  lemma RegroupTurn(before: seq<Sextet>, got: seq<Sextet>, after: seq<Sextet>)
    requires before == got + after && |got| <= 4 && (|got| < 4 ==> after == [])
    ensures Regroup(before) == Regroup(got) + Regroup(after)
  {
    if |got| == 4 {
      RegroupPrepend(got, after);
    } else {
      assert before == got;
    }
  }

  // ---------------------------------------------------------------- the round trip, for every line length

  lemma {:induction false} DivideQuads(k: nat, g: nat)
    requires g > 0
    ensures 4 * k / (4 * g) == k / g
    decreases k
  {
    if k >= g {
      DivideStep(4 * k, 4 * g);
      DivideStep(k, g);
      DivideQuads(k - g, g);
    } else {
      DivideSmall(4 * k, 4 * g);
      DivideSmall(k, g);
    }
  }

  /** The line breaks in front of the last group: one for every full line. */
  function BreaksBefore(x: seq<byte>, linelen: nat): nat
    requires |x| > 0
  {
    (BlockCount(|x|) - 1) / Groups(linelen)
  }

  /** The line breaks the computed length has room for. */
  function BreaksCounted(x: seq<byte>, linelen: nat): nat {
    4 * BlockCount(|x|) / Width(linelen)
  }

  /** The padding of the last group. */
  function Padding(x: seq<byte>): (pad: nat)
    ensures pad <= 2 && |x| + pad == 3 * BlockCount(|x|)
  {
    PaddedFormula(|x|);
    3 * BlockCount(|x|) - |x|
  }

  /** The uncut text ends in its last meaningful character, the padding and a line break. */
  lemma TextEnds(x: seq<byte>, linelen: nat) returns (front: string, end: string)
    requires |x| > 0
    ensures Written(Quads(x), BlockCount(|x|), Groups(linelen)) == front + end
    ensures |front| == 4 * BlockCount(|x|) - Padding(x) + BreaksBefore(x, linelen) > 0
    ensures |end| == Padding(x) + 1 && end[Padding(x)] == '\n'
    ensures Filter(end) == [] && Lookup(front[|front| - 1]) != 0
    ensures Filter(front) == Sextets(x)
  {
    var quads, g, k := Quads(x), Groups(linelen), BlockCount(|x|) - 1;
    LastGroup(x);
    TextStep(quads, k, g);
    FrontLength(quads, k, g);
    FilterWritten(x, linelen);
    hide Quads, Filter, Lookup, Written, Column, BlockCount, Groups, Sextets, Padding;
    front, end := SplitEnd(Written(quads, k, g), quads[k], 4 - Padding(x));
  }

  lemma SplitEnd(before: string, last: string, n: nat) returns (front: string, end: string)
    requires 0 < n <= |last| && Lookup(last[n - 1]) != 0 && Filter(last[n..] + "\n") == []
    ensures before + last + "\n" == front + end
    ensures |front| == |before| + n && |end| == |last| - n + 1 && end[|last| - n] == '\n'
    ensures Filter(end) == [] && Lookup(front[|front| - 1]) != 0
    ensures Filter(front) == Filter(before + last + "\n")
  {
    hide Filter, Lookup;
    front, end := before + last[..n], last[n..] + "\n";
    assert before + last + "\n" == front + end;
    FilterConcat(front, end);
  }

  lemma FrontLength(quads: seq<Quad>, k: nat, g: nat)
    requires k < |quads| && g > 0
    ensures |Written(quads, k, g)| == 4 * k + k / g
  {
    hide WithLines, Column;
    LinesLength(Joined(quads[..k]), 4 * g);
    DivideQuads(k, g);
  }

  /** The last group ends in a meaningful letter and the padding. */
  lemma LastGroup(x: seq<byte>)
    requires |x| > 0
    ensures var quad, n := Quads(x)[BlockCount(|x|) - 1], 4 - Padding(x);
      Lookup(quad[n - 1]) != 0 && Filter(quad[n..] + "\n") == []
  {
    var rest := LastBlock(x);
    hide Quads, EncodeBlock, Filter, Lookup, BlockCount, Block, Padding;
    LastQuad(rest);
  }

  /** The bytes of the last group. */
  lemma LastBlock(x: seq<byte>) returns (rest: seq<byte>)
    requires |x| > 0
    ensures |rest| + Padding(x) == 3 && Quads(x)[BlockCount(|x|) - 1] == EncodeBlock(Block(rest), |rest|)
  {
    PaddedFormula(|x|);
    hide Quads, EncodeBlock, BlockCount, Block;
    var k := BlockCount(|x|) - 1;
    rest := x[3 * k..];
    QuadAt(x, k);
    assert rest[..|rest|] == rest;
  }

  lemma PaddingOnly(text: string)
    requires Filter(text) == []
    ensures Filter(text + "\n") == []
  {
    hide Filter, Lookup;
    FilterConcat(text, "\n");
    SkippedMeaning();
    FilterOne('\n');
  }

  lemma FilterOne(c: char)
    ensures Filter([c]) == Meaning(c)
  {
    assert [c][1..] == "";
  }

  /** The group of a last block: its letters are meaningful, its padding is not. */
  lemma LastQuad(rest: seq<byte>)
    requires 1 <= |rest| <= 3
    ensures var quad := EncodeBlock(Block(rest), |rest|);
      Lookup(quad[|rest|]) != 0 && Filter(quad[|rest| + 1..] + "\n") == []
  {
    hide Filter, Lookup;
    var b, len := Block(rest), |rest|;
    var quad := EncodeBlock(b, len);
    LetterLookup(Sextet1(b[0], b[1]));
    LetterLookup(Sextet2(b[1], b[2]));
    LetterLookup(Sextet3(b[2]));
    SkippedMeaning();
    FilterNone();
    if len == 1 {
      assert quad[2..] == ['=', '='];
      FilterTwo(quad[2..]);
    } else if len == 2 {
      assert quad[3..] == ['='];
      FilterOne('=');
    } else {
      assert quad[4..] == "";
    }
    PaddingOnly(quad[len + 1..]);
  }

  lemma WrittenIsLines(quads: seq<Quad>, g: nat)
    requires g > 0
    ensures Written(quads, |quads|, g) ==
      WithLines(Joined(quads), 4 * g) + (if Column(|quads|, g) > 0 then "\n" else "")
  {
    hide WithLines, Joined, Column;
    assert quads[..|quads|] == quads;
  }

  lemma FilterWritten(x: seq<byte>, linelen: nat)
    ensures Filter(Written(Quads(x), BlockCount(|x|), Groups(linelen))) == Sextets(x)
  {
    var quads, g := Quads(x), Groups(linelen);
    WrittenIsLines(quads, g);
    hide Quads, Filter, WithLines, Joined, Column, Written, Sextets, Lookup, BlockCount, Groups;
    FilterEnded(Joined(quads), 4 * g, if Column(|quads|, g) > 0 then "\n" else "");
    FilterQuads(x);
  }

  lemma FilterEnded(text: string, width: nat, end: string)
    requires width > 0 && (end == "" || end == "\n")
    ensures Filter(WithLines(text, width) + end) == Filter(text)
  {
    hide Filter, WithLines, Lookup;
    FilterLines(text, width);
    FilterConcat(WithLines(text, width), end);
    FilterNone();
    FilterOne('\n');
    SkippedMeaning();
  }

  lemma {:induction false} SextetCount(x: seq<byte>)
    ensures |Sextets(x)| == |x| + BlockCount(|x|)
  {
    if |x| >= 3 {
      SextetCount(x[3..]);
    }
  }

  /** With a sextet missing, bytes are missing. */
  lemma {:induction false} MissingSextet(c: nat, n: nat)
    requires c < n + BlockCount(n)
    ensures Whole(c) < n
    decreases n
  {
    if n >= 3 && c >= 4 {
      MissingSextet(c - 4, n - 3);
    }
  }

  /**
   * Decoding what was encoded gives the data back if and only if the computed length has room for the line breaks in
   * front of the last group, where the padding may be given up for them.
   */
  lemma RoundTripExactly(x: seq<byte>, linelen: nat)
    requires |x| > 0
    ensures Decoded(Encoded(x, linelen)) == x <==>
            BreaksBefore(x, linelen) <= BreaksCounted(x, linelen) + Padding(x)
  {
    var room := TextLength(|x|, Width(linelen));
    var front, end := TextEnds(x, linelen);
    CutMeaning(front, end, room);
    RegroupSextets(x);
    SextetCount(x);
    hide Written, Regroup, Filter, Lookup, Sextets, Quads, BlockCount, TextLength, Whole, Groups, Width, Padding, Cut;
    if |front| > room {
      MissingSextet(|Filter(Encoded(x, linelen))|, |x|);
    }
  }

  /** Twelve bytes in lines of seven: three breaks stand before the last group, and the length counts two. */
  lemma CutShort(x: seq<byte>)
    requires |x| == 12
    ensures Decoded(Encoded(x, 7)) != x
  {
    hide Decoded, Encoded, Sextets, Quads;
    assert BlockCount(12) == 1 + BlockCount(9) && BlockCount(9) == 1 + BlockCount(6) && BlockCount(6) == 2;
    RoundTripExactly(x, 7);
  }

  /** A cut loses meaning exactly when it goes into the part that ends in a meaningful character. */
  lemma CutMeaning(front: string, end: string, room: nat)
    requires |front| > 0 && Lookup(front[|front| - 1]) != 0 && Filter(end) == []
    ensures |front| <= room ==> Filter(Cut(front + end, room)) == Filter(front)
    ensures |front| > room ==> |Filter(Cut(front + end, room))| < |Filter(front)|
  {
    hide Filter, Lookup;
    if |front| <= room {
      var tail := Cut(end, room - |front|);
      assert Cut(front + end, room) == front + tail && end == tail + end[|tail|..];
      FilterConcat(tail, end[|tail|..]);
      FilterConcat(front, tail);
    } else {
      assert Cut(front + end, room) == front[..room] && front == front[..room] + front[room..];
      FilterConcat(front[..room], front[room..]);
      MeaningfulEnd(front[room..]);
    }
  }

  lemma MeaningfulEnd(text: string)
    requires |text| > 0 && Lookup(text[|text| - 1]) != 0
    ensures |Filter(text)| > 0
  {
    hide Filter, Lookup;
    var n := |text| - 1;
    FilterConcat(text[..n], [text[n]]);
    FilterOne(text[n]);
    assert text == text[..n] + [text[n]];
  }

  /** In particular for every line length that is a multiple of four, zero included, or less than four. */
  lemma RoundTrip(x: seq<byte>, linelen: nat)
    requires linelen % 4 == 0 || linelen < 4
    requires TextFits(|x|, linelen)
    ensures Decoded(Encoded(x, linelen)) == x
  {
    if |x| == 0 {
      assert Encoded(x, linelen) == "";
    } else {
      EnoughCounted(BlockCount(|x|), linelen);
      RoundTripExactly(x, linelen);
    }
  }

  lemma EnoughCounted(k: nat, linelen: nat)
    requires k > 0 && (linelen % 4 == 0 || linelen < 4) && (linelen == 0 ==> 4 * k < SIZE_MAX)
    ensures (k - 1) / Groups(linelen) <= 4 * k / Width(linelen)
  {
    var g := Groups(linelen);
    if linelen == 0 {
      DivideSmall(k - 1, g);
    } else if linelen >= 4 {
      DivideQuads(k, g);
      DivideGrows(k - 1, k, g);
    }
  }

  /** The terminator stands right behind the computed length exactly when that counts no break too many. */
  lemma FillsExactly(x: seq<byte>, linelen: nat)
    requires |x| > 0
    ensures |Encoded(x, linelen)| == TextLength(|x|, Width(linelen)) <==>
            BreaksCounted(x, linelen) <= BreaksBefore(x, linelen) + 1
  {
    var front, end := TextEnds(x, linelen);
    hide Written;
  }

  /** One byte in lines of one: the length counts a break for every character, and one is written. */
  lemma FillsShort(x: seq<byte>)
    requires |x| == 1
    ensures |Encoded(x, 1)| < TextLength(1, Width(1))
  {
    hide TextLength, Written, Quads;
    assert BlockCount(1) == 1;
    FillsExactly(x, 1);
  }

  /** It does for every multiple of four. */
  lemma AlignedFills(x: seq<byte>, linelen: nat)
    requires |x| > 0 && linelen % 4 == 0 && TextFits(|x|, linelen)
    ensures |Encoded(x, linelen)| == TextLength(|x|, Width(linelen))
  {
    var k, g := BlockCount(|x|), Groups(linelen);
    FillsExactly(x, linelen);
    if linelen == 0 {
      DivideSmall(4 * k, SIZE_MAX);
    } else {
      DivideQuads(k, g);
      NextQuotient(k, g);
    }
  }

  lemma NextQuotient(k: nat, g: nat)
    requires k > 0 && g > 0
    ensures k / g <= (k - 1) / g + 1
    decreases k
  {
    if k > g {
      DivideStep(k, g);
      DivideStep(k - 1, g);
      NextQuotient(k - g, g);
    } else if k == g {
      DivideStep(k, g);
    } else {
      DivideSmall(k, g);
    }
  }

  /** Breaks stand exactly after every full line of the text, and at its uncut end: no line is longer than asked for,
      four characters at the least. */
  lemma EncodedLines(x: seq<byte>, linelen: nat, j: nat)
    requires |x| > 0 && j < |Encoded(x, linelen)|
    ensures var line := 4 * Groups(linelen);
      Encoded(x, linelen)[j] == '\n' <==>
        j % (line + 1) == line || j == 4 * BlockCount(|x|) + BreaksBefore(x, linelen)
  {
    CutAt(Written(Quads(x), BlockCount(|x|), Groups(linelen)), TextLength(|x|, Width(linelen)), j);
    hide Written, Quads, TextLength, BlockCount, Groups, Width, Cut, BreaksBefore;
    WrittenLines(x, linelen, j);
  }

  lemma WrittenLines(x: seq<byte>, linelen: nat, j: nat)
    requires |x| > 0 && j < |Written(Quads(x), BlockCount(|x|), Groups(linelen))|
    ensures var line := 4 * Groups(linelen);
      Written(Quads(x), BlockCount(|x|), Groups(linelen))[j] == '\n' <==>
        j % (line + 1) == line || j == 4 * BlockCount(|x|) + BreaksBefore(x, linelen)
  {
    hide WithLines, Joined, Quads, Column, Written, BlockCount, Groups, BreaksBefore;
    var quads, g := Quads(x), Groups(linelen);
    WrittenIsLines(quads, g);
    WrittenEnd(x, linelen);
    QuadsUnbroken(x);
    BrokenAt(Joined(quads), 4 * g, Written(quads, |quads|, g), j);
  }

  lemma WrittenEnd(x: seq<byte>, linelen: nat)
    requires |x| > 0
    ensures var text, n := Written(Quads(x), BlockCount(|x|), Groups(linelen)), 4 * BlockCount(|x|);
      |text| == n + BreaksBefore(x, linelen) + 1 && text[n + BreaksBefore(x, linelen)] == '\n'
  {
    hide Quads, Column, Written, Filter, Lookup, Sextets, BlockCount, Groups, Padding, BreaksBefore;
    var front, end := TextEnds(x, linelen);
  }

  lemma CutAt(text: string, room: nat, j: nat)
    requires j < |Cut(text, room)|
    ensures j < |text| && Cut(text, room)[j] == text[j]
  {
  }

  /** The breaks of a text that may have one more at its end. */
  lemma BrokenAt(joined: string, width: nat, text: string, j: nat)
    requires width > 0 && '\n' !in joined && j < |text| && text[|text| - 1] == '\n'
    requires text == WithLines(joined, width) || text == WithLines(joined, width) + "\n"
    ensures text[j] == '\n' <==> j % (width + 1) == width || j == |text| - 1
  {
    hide WithLines;
    if j < |WithLines(joined, width)| {
      BreaksExactly(joined, width, j);
      assert text[j] == WithLines(joined, width)[j];
    }
  }

  /** What was encoded never needs more room than the decoder allocates, even when it was cut short. */
  lemma EncodedFits(x: seq<byte>, linelen: nat)
    ensures |Decoded(Encoded(x, linelen))| <= Capacity(|Encoded(x, linelen)|)
  {
    if |x| > 0 {
      var front, end := TextEnds(x, linelen);
      var whole, text := front + end, Encoded(x, linelen);
      hide Written, Filter, Regroup, Lookup, Sextets, Quads, TextLength, BlockCount, Groups, Width, Whole;
      FilterWritten(x, linelen);
      assert whole == text + whole[|text|..];
      FilterConcat(text, whole[|text|..]);
      SextetCount(x);
      assert |x| + Padding(x) == 3 * BlockCount(|x|);
      assert |Filter(text)| <= |Sextets(x)| <= 4 * BlockCount(|x|) <= |text|;
      DecodeFitsExactly(text);
      RoomForGroups(|Filter(text)|, |text|, BlockCount(|x|));
    }
  }

  lemma RoomForGroups(c: nat, n: nat, k: nat)
    requires c <= 4 * k <= n
    ensures c / 4 < n / 4 || c % 4 <= 1
  {
  }

  // ---------------------------------------------------------------- both together

  /** Encoding and decoding a nonempty run of bytes returns it, through the two methods. */
  method EncodeDecode(data: seq<byte>, linelen: nat) returns (back: array<byte>, size: nat)
    requires |data| > 0 && linelen % 4 == 0 && TextFits(|data|, linelen)
    ensures size == |data| <= back.Length && back[..size] == data
  {
    var text, length := Encode(data, linelen);
    RoundTrip(data, linelen);
    AlignedFills(data, linelen);
    EncodedFits(data, linelen);
    assert text[..][..length] == text[..length];
    DecodeFitsExactly(text[..length]);
    back, size := Decode(text[..], length);
  }
}
