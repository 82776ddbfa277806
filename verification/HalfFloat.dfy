/**
 * Half floats through tables. Magnitudes are counted in units of 2^-149, the smallest positive float32, so that every
 * finite float32 and every finite half is a natural number of units (sections 3.4 and 3.6 of IEEE 754-2019).
 */
module HalfFloat {
  import opened Shifts

  type uint32 = x: int | 0 <= x < 0x1_0000_0000
  type uint16 = x: int | 0 <= x < 0x1_0000

  // ---------------------------------------------------------------- what the bits mean

  function Exponent32(u: uint32): (e: nat) ensures e < 256 { u / 0x80_0000 % 256 }
  function Mantissa32(u: uint32): (m: nat) ensures m < 0x80_0000 { u % 0x80_0000 }
  function Negative32(u: uint32): bool { u >= 0x8000_0000 }

  function Magnitude32(u: uint32): nat
    requires Exponent32(u) < 255
  {
    Scaled(Exponent32(u), Mantissa32(u))
  }

  function Scaled(e: nat, m: nat): nat {
    if e == 0 then m else (0x80_0000 + m) * Pow2(e - 1)
  }

  function Code(h: uint16): (c: nat) ensures c < 0x8000 { h % 0x8000 }
  function Negative16(h: uint16): bool { h >= 0x8000 }
  predicate Finite16(h: uint16) { Code(h) < 0x7C00 }

  /** The magnitude of a half without its sign bit; the code after the last finite one stands for 65536. */
  function CodeMagnitude(c: nat): nat {
    HalfScaled(c / 1024, c % 1024)
  }

  function HalfScaled(e: nat, m: nat): nat {
    if e == 0 then m * Pow2(125) else (1024 + m) * Pow2(e + 124)
  }

  function Magnitude16(h: uint16): nat
    requires Finite16(h)
  {
    CodeMagnitude(Code(h))
  }

  /** Counting codes up walks through the mantissas of one exponent and on to the next without a gap. */
  lemma NextMagnitude(c: nat)
    ensures var e, m := c / 1024, c % 1024;
            CodeMagnitude(c + 1) == if e == 0 then (m + 1) * Pow2(125) else (1024 + m + 1) * Pow2(e + 124)
  {
    var e, m := c / 1024, c % 1024;
    if m == 1023 {
      assert (c + 1) / 1024 == e + 1 && (c + 1) % 1024 == 0;
      assert e > 0 ==> Pow2(e + 125) == 2 * Pow2(e + 124);
    } else {
      assert (c + 1) / 1024 == e && (c + 1) % 1024 == m + 1;
    }
  }

  lemma CodeStep(c: nat)
    ensures CodeMagnitude(c) < CodeMagnitude(c + 1)
  {
    var e, m := c / 1024, c % 1024;
    NextMagnitude(c);
    if e == 0 {
      ScaleStep(m, Pow2(125));
    } else {
      ScaleStep(1024 + m, Pow2(e + 124));
    }
  }

  lemma ScaleStep(n: nat, p: nat)
    requires p > 0
    ensures n * p < (n + 1) * p
  {
    assert (n + 1) * p == n * p + p;
  }

  lemma {:induction false} CodesOrdered(c: nat, d: nat)
    requires c < d
    ensures CodeMagnitude(c) < CodeMagnitude(d)
    decreases d
  {
    CodeStep(d - 1);
    if c < d - 1 {
      CodesOrdered(c, d - 1);
    }
  }

  // ---------------------------------------------------------------- narrowing

  /** basetable and shifttable, for a positive float; the upper halves of the tables carry the sign. */
  function BaseCode(e: nat): (c: nat)
    requires e < 256
  {
    if e < 103 then 0
    else if e < 113 then ShiftRight(1024, 113 - e)
    else if e <= 142 then (e - 112) * 1024
    else 0x7C00
  }

  function ShiftBy(e: nat): (k: nat)
    requires e < 256
    ensures 13 <= k <= 24
  {
    if e < 103 then 24 else if e < 113 then 126 - e else if e <= 142 then 13 else if e < 255 then 24 else 13
  }

  function NarrowCode(e: nat, m: nat): nat
    requires e < 256
  {
    BaseCode(e) + ShiftRight(m, ShiftBy(e))
  }

  /** A float of `0x80_0000 + m` steps of size `p`, cut down to multiples of `unit`, which is `d` such steps. */
  lemma CutDown(m: nat, q: nat, d: nat, b: nat, p: nat, unit: nat)
    requires m < 0x80_0000 && p > 0 && d * b == 0x80_0000 && unit == d * p
    requires q * d <= m < (q + 1) * d
    ensures (b + q) * unit <= (0x80_0000 + m) * p < (b + q + 1) * unit
    ensures q < b
  {
    assert (b + q) * d == 0x80_0000 + q * d && (b + q + 1) * d == 0x80_0000 + (q + 1) * d;
    Scale((b + q) * d, 0x80_0000 + m, p);
    ScaleStrictly(0x80_0000 + m, (b + q + 1) * d, p);
    Reassociate(b + q, d, p);
    Reassociate(b + q + 1, d, p);
    Smaller(q, b, d, m);
  }

  lemma Smaller(q: nat, b: nat, d: nat, m: nat)
    requires q * d <= m < d * b
    ensures q < b
  {
    assert d * b == b * d;
    if q >= b {
      Scale(b, q, d);
    }
  }

  lemma Scale(a: nat, b: nat, p: nat)
    requires a <= b
    ensures a * p <= b * p
  {
    assert b * p == a * p + (b - a) * p;
  }

  lemma ScaleStrictly(a: nat, b: nat, p: nat)
    requires a < b && p > 0
    ensures a * p < b * p
  {
    Scale(a + 1, b, p);
    ScaleStep(a, p);
  }

  lemma Reassociate(a: nat, b: nat, c: nat)
    ensures a * b * c == a * (b * c)
  {
  }

  lemma Powers()
    ensures Pow2(0) == 1 && Pow2(10) == 1024 && Pow2(13) == 8192 && Pow2(23) == 0x80_0000 && Pow2(24) == 0x100_0000
  {
    assert Pow2(10) == 1024;
    Pow2Sum(10, 3);
    Pow2Sum(13, 10);
  }

  /** Every float below 65536 is narrowed to the half just below it or equal to it. */
  lemma NarrowFloors(e: nat, m: nat)
    requires e <= 142 && m < 0x80_0000
    ensures var c := NarrowCode(e, m); c < 0x7C00 && CodeMagnitude(c) <= Scaled(e, m) < CodeMagnitude(c + 1)
  {
    if e < 103 {
      NarrowTiny(e, m);
    } else if e < 113 {
      NarrowDenormal(e, m);
    } else {
      NarrowNormal(e, m);
    }
  }

  lemma NarrowTiny(e: nat, m: nat)
    requires e < 103 && m < 0x80_0000
    ensures NarrowCode(e, m) == 0 == CodeMagnitude(0) && Scaled(e, m) < CodeMagnitude(1)
  {
    Powers();
    ShiftBounds(m, 24);
    Pow2Grows(24, 125);
    NextMagnitude(0);
    if e > 0 {
      Pow2Sum(24, e - 1);
      Pow2Grows(e + 23, 125);
      ScaleStrictly(0x80_0000 + m, 0x100_0000, Pow2(e - 1));
    }
  }

  lemma NarrowDenormal(e: nat, m: nat)
    requires 103 <= e < 113 && m < 0x80_0000
    ensures var c := NarrowCode(e, m); c < 1024 && CodeMagnitude(c) <= Scaled(e, m) < CodeMagnitude(c + 1)
  {
    hide Pow2, ShiftRight;
    var k := 126 - e;
    var b, q := ShiftRight(1024, k - 13), ShiftRight(m, k);
    DenormalBase(k, b);
    ShiftBounds(m, k);
    Pow2Sum(k, 125 - k);
    CutDown(m, q, Pow2(k), b, Pow2(125 - k), Pow2(125));
    NextMagnitude(b + q);
  }

  lemma DenormalBase(k: nat, b: nat)
    requires 14 <= k <= 23 && b == ShiftRight(1024, k - 13)
    ensures Pow2(k) * b == 0x80_0000 && b <= 512
  {
    Powers();
    Pow2Sum(k - 13, 23 - k);
    Pow2Sum(k, 23 - k);
    Pow2Sum(23 - k, 0);
    Pow2Grows(23 - k, 9);
    ShiftExact(23 - k, k - 13);
  }

  lemma {:induction false} ShiftExact(m: nat, k: nat)
    ensures ShiftRight(Pow2(m + k), k) == Pow2(m)
    decreases k
  {
    if k > 0 {
      assert Pow2(m + k) / 2 == Pow2(m + k - 1);
      ShiftExact(m, k - 1);
    }
  }

  lemma NarrowNormal(e: nat, m: nat)
    requires 113 <= e <= 142 && m < 0x80_0000
    ensures var c := NarrowCode(e, m); c < 0x7C00 && CodeMagnitude(c) <= Scaled(e, m) < CodeMagnitude(c + 1)
  {
    hide Pow2, ShiftRight;
    var q := ShiftRight(m, 13);
    var c := (e - 112) * 1024 + q;
    Powers();
    Pow2Sum(13, e - 1);
    ShiftBounds(m, 13);
    CutDown(m, q, 8192, 1024, Pow2(e - 1), Pow2(e + 12));
    assert c / 1024 == e - 112 && c % 1024 == q;
    NextMagnitude(c);
  }

  lemma ShiftTop(m: nat, e: nat)
    requires 142 < e < 256 && m < 0x80_0000
    ensures e < 255 ==> NarrowCode(e, m) == 0x7C00
    ensures e == 255 ==> 0x7C00 <= NarrowCode(e, m) < 0x8000 && (NarrowCode(e, m) == 0x7C00 <==> m < 0x2000)
  {
    hide ShiftRight, Pow2;
    Powers();
    ShiftBounds(m, ShiftBy(e));
  }

  lemma CodeInRange(e: nat, m: nat)
    requires e < 256 && m < 0x80_0000
    ensures NarrowCode(e, m) < 0x8000
  {
    hide NarrowCode;
    if e <= 142 {
      NarrowFloors(e, m);
    } else {
      ShiftTop(m, e);
    }
  }

  function WithSign(negative: bool, c: nat): (h: uint16)
    requires c < 0x8000
    ensures Negative16(h) == negative && Code(h) == c
  {
    if negative then 0x8000 + c else c
  }

  /** float32to16. */
  function Narrow(u: uint32): (h: uint16)
    ensures Negative16(h) == Negative32(u)
    ensures Code(h) == NarrowCode(Exponent32(u), Mantissa32(u))
  {
    CodeInRange(Exponent32(u), Mantissa32(u));
    WithSign(Negative32(u), NarrowCode(Exponent32(u), Mantissa32(u)))
  }

  /** 65536, in units. */
  const LIMIT: nat := Pow2(165)

  lemma BelowLimit(e: nat, m: nat)
    requires e < 255 && m < 0x80_0000
    ensures Scaled(e, m) < LIMIT <==> e <= 142
    ensures CodeMagnitude(0x7C00) == LIMIT
  {
    hide Pow2;
    Powers();
    Pow2Sum(10, 155);
    if e <= 142 {
      NarrowFloors(e, m);
      var c := NarrowCode(e, m);
      if c + 1 < 0x7C00 {
        CodesOrdered(c + 1, 0x7C00);
      }
    } else {
      Pow2Sum(23, e - 1);
      Pow2Grows(165, e + 22);
      Scale(0x80_0000, 0x80_0000 + m, Pow2(e - 1));
    }
  }

  /** A float below 65536 becomes the half of largest magnitude that does not exceed it, with the same sign. */
  lemma Truncates(u: uint32, h: uint16)
    requires Exponent32(u) < 255 && Magnitude32(u) < LIMIT && Finite16(h)
    ensures Finite16(Narrow(u)) && Negative16(Narrow(u)) == Negative32(u)
    ensures Magnitude16(Narrow(u)) <= Magnitude32(u)
    ensures Magnitude16(h) <= Magnitude32(u) ==> Magnitude16(h) <= Magnitude16(Narrow(u))
  {
    hide Code, CodeMagnitude, Scaled, NarrowCode, Narrow, Exponent32, Mantissa32, Negative16, Negative32;
    BelowLimit(Exponent32(u), Mantissa32(u));
    NarrowFloors(Exponent32(u), Mantissa32(u));
    var c, d := Code(Narrow(u)), Code(h);
    if d > c + 1 {
      CodesOrdered(c + 1, d);
    } else if d < c {
      CodesOrdered(d, c);
    }
  }

  /** Everything from 65536 up becomes an infinity; an infinity stays one. */
  lemma Overflows(u: uint32)
    requires Exponent32(u) < 255 ==> Magnitude32(u) >= LIMIT
    requires Exponent32(u) == 255 ==> Mantissa32(u) == 0
    ensures Code(Narrow(u)) == 0x7C00 && Negative16(Narrow(u)) == Negative32(u)
  {
    if Exponent32(u) < 255 {
      BelowLimit(Exponent32(u), Mantissa32(u));
    }
    ShiftTop(Mantissa32(u), Exponent32(u));
  }

  /** A NaN stays a NaN exactly when its payload has a bit among the ten that a half keeps; otherwise it turns
      into an infinity. */
  lemma NaNKeptExactly(u: uint32)
    requires Exponent32(u) == 255 && Mantissa32(u) != 0
    ensures Code(Narrow(u)) > 0x7C00 <==> Mantissa32(u) >= 0x2000
    ensures Mantissa32(u) < 0x2000 ==> Code(Narrow(u)) == 0x7C00
  {
    ShiftTop(Mantissa32(u), 255);
  }

  /** Narrowing keeps the order of magnitudes. */
  lemma NarrowMonotone(u: uint32, v: uint32)
    requires Exponent32(u) < 255 && Exponent32(v) < 255 && Magnitude32(u) <= Magnitude32(v)
    ensures Code(Narrow(u)) <= Code(Narrow(v))
  {
    if Magnitude32(v) < LIMIT {
      Truncates(v, Narrow(u)) by {
        Truncates(u, 0);
      }
      Truncates(u, 0);
      var c, d := Code(Narrow(u)), Code(Narrow(v));
      if d < c {
        CodesOrdered(d, c);
      }
    } else {
      Overflows(v);
      if Magnitude32(u) < LIMIT {
        Truncates(u, 0);
      } else {
        Overflows(u);
      }
    }
  }

  /** Whatever float32 stands for a half, narrowing gives the half back. */
  lemma NarrowUndoes(h: uint16, u: uint32)
    requires Stands(h, u)
    ensures Narrow(u) == h
  {
    hide Code, CodeMagnitude, Scaled, NarrowCode, Narrow, Exponent32, Mantissa32, Negative16, Negative32, ShiftRight,
         Pow2;
    SignAndCode(h, Narrow(u));
    if Finite16(h) {
      BelowLimit(Exponent32(u), Mantissa32(u));
      CodesOrdered(Code(h), 0x7C00);
      Truncates(u, h);
      var c, d := Code(Narrow(u)), Code(h);
      if d < c {
        CodesOrdered(d, c);
      } else if c < d {
        CodesOrdered(c, d);
      }
    } else {
      KeepsPayload(Code(h), Mantissa32(u));
    }
  }

  lemma KeepsPayload(c: nat, m: nat)
    requires 0x7C00 <= c && m == (c - 0x7C00) * 0x2000
    ensures NarrowCode(255, m) == c
  {
    hide ShiftRight, Pow2;
    Powers();
    ShiftBounds(m, 13);
  }

  lemma SignAndCode(h: uint16, g: uint16)
    ensures Code(h) == Code(g) && Negative16(h) == Negative16(g) ==> h == g
  {
  }

  /** The float32 has the sign and the value of the half; an infinity or NaN keeps its payload in the top bits. */
  ghost predicate Stands(h: uint16, u: uint32) {
    && Negative32(u) == Negative16(h)
    && if Finite16(h) then Exponent32(u) < 255 && Magnitude32(u) == Magnitude16(h)
       else Exponent32(u) == 255 && Mantissa32(u) == (Code(h) - 0x7C00) * 0x2000
  }

  // ---------------------------------------------------------------- the tables

  /** An entry of mantissatable: the lower half holds the denormals as normalised floats. */
  ghost predicate MantissaEntry(i: nat, v: uint32) {
    if i == 0 then v == 0
    else if i < 1024 then v < 0x8000_0000 && 0 < Exponent32(v) < 113 && Magnitude32(v) == i * Pow2(125)
    else v == 0x3800_0000 + (i - 1024) * 0x2000
  }

  function ExponentEntry(i: nat): nat {
    if i == 31 then 0x4780_0000
    else if i == 63 then 0xC780_0000
    else if i < 31 then i * 0x80_0000
    else 0x8000_0000 + (i - 32) * 0x80_0000
  }

  function OffsetEntry(i: nat): nat {
    if i == 0 || i == 32 then 0 else 1024
  }

  function BaseEntry(i: nat): nat
    requires i < 512
  {
    BaseCode(i % 256) + (if i >= 256 then 0x8000 else 0)
  }

  /** convertMantissa: the bits of the float with the value of the denormal half of mantissa `i`. */
  method ConvertMantissa(i: uint32) returns (r: uint32)
    requires 0 < i < 1024
    ensures MantissaEntry(i, r)
  {
    hide Shifted, MantissaEntry;
    var m: uint32, e: uint32 := i * 0x2000, 0;
    ghost var k := 0;
    ShiftStart(i);
    while m / 0x80_0000 % 2 == 0
      invariant Shifted(i, m, k) && 0x2000 <= m < 0x100_0000 && k <= 10
      invariant e == if k == 0 then 0 else 0x1_0000_0000 - k * 0x80_0000
      decreases 0x100_0000 - m
    {
      TopBit(m);
      ShiftMore(i, m, k);
      e := (e - 0x80_0000) % 0x1_0000_0000;
      m := m * 2;
      k := k + 1;
    }
    TopBit(m);
    Normalised(i, m, k);
    m := m - 0x80_0000;
    e := (e + 0x3880_0000) % 0x1_0000_0000;
    r := m + e;
  }

  lemma TopBit(m: nat)
    requires m < 0x100_0000
    ensures m / 0x80_0000 % 2 == 0 <==> m < 0x80_0000
  {
  }

  lemma ShiftStart(i: nat)
    requires 0 < i
    ensures Shifted(i, i * 0x2000, 0)
  {
    Powers();
  }

  /** The mantissa after `k` turns. */
  ghost predicate Shifted(i: nat, m: nat, k: nat) {
    k <= 10 && Pow2(13 + k) <= m == i * 0x2000 * Pow2(k)
  }

  lemma ShiftMore(i: nat, m: nat, k: nat)
    requires Shifted(i, m, k) && m < 0x80_0000
    ensures Shifted(i, 2 * m, k + 1) && k < 10
  {
    if k == 10 {
      Powers();
    }
    Twice(i * 0x2000, Pow2(k));
  }

  lemma Normalised(i: nat, m: nat, k: nat)
    requires 0 < i < 1024 && Shifted(i, m, k) && 0x80_0000 <= m < 0x100_0000
    ensures k > 0 && MantissaEntry(i, m - 0x80_0000 + (113 - k) * 0x80_0000)
  {
    hide Pow2;
    Powers();
    var r := m - 0x80_0000 + (113 - k) * 0x80_0000;
    assert Exponent32(r) == 113 - k && Mantissa32(r) == m - 0x80_0000;
    Pow2Sum(k, 112 - k);
    Pow2Sum(13, 112);
    Reassociate(i * 0x2000, Pow2(k), Pow2(112 - k));
    Reassociate(i, 0x2000, Pow2(112));
  }

  /** What float16to32 adds up stands for the half. */
  lemma WidenStands(h: uint16, v: uint32)
    requires MantissaEntry(OffsetEntry(h / 1024) + h % 1024, v)
    ensures v + ExponentEntry(h / 1024) < 0x1_0000_0000 && Stands(h, v + ExponentEntry(h / 1024))
  {
    hide Pow2;
    var e, m, c := h / 1024 % 32, h % 1024, Code(h);
    CodeParts(h);
    if e == 0 {
      WidenSmall(h, v);
    } else if e < 31 {
      WidenNormal(h, v);
    } else {
      assert h / 1024 == 31 || h / 1024 == 63;
    }
  }

  lemma CodeParts(h: uint16)
    ensures Code(h) / 1024 == h / 1024 % 32 && Code(h) % 1024 == h % 1024
    ensures Finite16(h) <==> h / 1024 % 32 < 31
    ensures Negative16(h) <==> h / 1024 >= 32
  {
    var q, m := h / 1024, h % 1024;
    var s, e := q / 32, q % 32;
    assert h == s * 0x8000 + (e * 1024 + m) && 0 <= e * 1024 + m < 0x8000;
    assert Code(h) == e * 1024 + m;
  }

  lemma WidenSmall(h: uint16, v: uint32)
    requires h / 1024 % 32 == 0 && MantissaEntry(h % 1024, v)
    ensures v + ExponentEntry(h / 1024) < 0x1_0000_0000 && Stands(h, v + ExponentEntry(h / 1024))
  {
    hide Pow2;
    CodeParts(h);
    var u := v + ExponentEntry(h / 1024);
    assert h / 1024 == 0 || h / 1024 == 32;
    assert v < 0x8000_0000;
    SignBit(v);
  }

  lemma SignBit(v: nat)
    requires v < 0x8000_0000
    ensures Exponent32(v + 0x8000_0000) == Exponent32(v) && Mantissa32(v + 0x8000_0000) == Mantissa32(v)
    ensures Negative32(v + 0x8000_0000) && !Negative32(v)
  {
  }

  lemma FloatParts(e: nat, m: nat)
    requires e < 256 && m < 0x80_0000
    ensures Exponent32(e * 0x80_0000 + m) == e && Mantissa32(e * 0x80_0000 + m) == m
  {
  }

  lemma WidenNormal(h: uint16, v: uint32)
    requires 0 < h / 1024 % 32 < 31 && MantissaEntry(1024 + h % 1024, v)
    ensures v + ExponentEntry(h / 1024) < 0x1_0000_0000 && Stands(h, v + ExponentEntry(h / 1024))
  {
    hide Pow2;
    CodeParts(h);
    var e, m := h / 1024 % 32, h % 1024;
    var u := (112 + e) * 0x80_0000 + m * 0x2000;
    assert v + ExponentEntry(h / 1024) == if h >= 0x8000 then u + 0x8000_0000 else u;
    SignBit(u);
    FloatParts(112 + e, m * 0x2000);
    Powers();
    Pow2Sum(13, e + 111);
    Reassociate(1024 + m, 0x2000, Pow2(e + 111));
  }

  lemma IndexParts(u: uint32)
    ensures u / 0x80_0000 % 512 % 256 == Exponent32(u)
    ensures u / 0x80_0000 % 512 >= 256 <==> Negative32(u)
  {
  }

  class Tables {
    var initialized: bool
    const mantissa: array<uint32>
    const exponent: array<uint32>
    const offset: array<uint16>
    const base: array<uint16>
    const shift: array<nat>

    ghost predicate Valid()
      reads this, mantissa, exponent, offset, base, shift
    {
      && mantissa.Length == 2048 && exponent.Length == 64 && offset.Length == 64
      && base.Length == 512 && shift.Length == 512 && mantissa != exponent && offset != base
      && (initialized ==>
           && (forall i :: 0 <= i < 2048 ==> MantissaEntry(i, mantissa[i]))
           && (forall i :: 0 <= i < 64 ==> exponent[i] == ExponentEntry(i) && offset[i] == OffsetEntry(i))
           && (forall i :: 0 <= i < 512 ==> base[i] == BaseEntry(i) && shift[i] == ShiftBy(i % 256)))
    }

    constructor ()
      ensures Valid() && !initialized
    {
      initialized := false;
      mantissa := new uint32[2048](_ => 0);
      exponent := new uint32[64](_ => 0);
      offset := new uint16[64](_ => 0);
      base := new uint16[512](_ => 0);
      shift := new nat[512](_ => 0);
    }

    /** float16Init; a second call changes nothing. */
    method Init()
      requires Valid()
      modifies this, mantissa, exponent, offset, base, shift
      ensures Valid() && initialized
    {
      if initialized {
        return;
      }
      initialized := true;
      FillMantissas();
      FillExponents();
      FillNarrowing();
    }

    method FillMantissas()
      requires mantissa.Length == 2048
      modifies mantissa
      ensures forall i :: 0 <= i < 2048 ==> MantissaEntry(i, mantissa[i])
    {
      hide MantissaEntry;
      mantissa[0] := 0;
      ZeroEntry();
      for i := 1 to 1024
        invariant forall k :: 0 <= k < i ==> MantissaEntry(k, mantissa[k])
      {
        mantissa[i] := ConvertMantissa(i);
      }
      for i := 1024 to 2048
        invariant forall k :: 0 <= k < i ==> MantissaEntry(k, mantissa[k])
      {
        NormalEntry(i);
        mantissa[i] := 0x3800_0000 + (i - 1024) * 0x2000;
      }
    }

    static lemma ZeroEntry()
      ensures MantissaEntry(0, 0)
    {
    }

    static lemma NormalEntry(i: nat)
      requires 1024 <= i < 2048
      ensures MantissaEntry(i, 0x3800_0000 + (i - 1024) * 0x2000)
    {
    }

    method FillExponents()
      requires exponent.Length == 64 && offset.Length == 64
      modifies exponent, offset
      ensures forall i :: 0 <= i < 64 ==> exponent[i] == ExponentEntry(i) && offset[i] == OffsetEntry(i)
    {
      exponent[0] := 0;
      exponent[32] := 0x8000_0000;
      for i := 0 to 31
        invariant forall k :: 0 <= k < i || k == 32 ==> exponent[k] == ExponentEntry(k)
      {
        exponent[i] := i * 0x80_0000;
      }
      for i := 33 to 63
        invariant forall k :: 0 <= k < 31 || 32 <= k < i ==> exponent[k] == ExponentEntry(k)
      {
        exponent[i] := 0x8000_0000 + (i - 32) * 0x80_0000;
      }
      exponent[31] := 0x4780_0000;
      exponent[63] := 0xC780_0000;
      for i := 0 to 64
        invariant forall k :: 0 <= k < 64 ==> exponent[k] == ExponentEntry(k)
        invariant forall k :: 0 <= k < i ==> offset[k] == OffsetEntry(k)
      {
        if i == 0 || i == 32 {
          offset[i] := 0;
        } else {
          offset[i] := 1024;
        }
      }
    }

    method FillNarrowing()
      requires base.Length == 512 && shift.Length == 512
      modifies base, shift
      ensures forall i :: 0 <= i < 512 ==> base[i] == BaseEntry(i) && shift[i] == ShiftBy(i % 256)
    {
      hide BaseCode, ShiftBy;
      for i := 0 to 256
        invariant forall k :: 0 <= k < i ==> base[k] == BaseCode(k) && shift[k] == ShiftBy(k)
        invariant forall k :: 256 <= k < 256 + i ==>
          base[k] == BaseCode(k - 256) + 0x8000 && shift[k] == ShiftBy(k - 256)
      {
        var code, bits := NarrowingEntry(i);
        base[i], base[i + 256] := code, code + 0x8000;
        shift[i], shift[i + 256] := bits, bits;
      }
      forall i | 0 <= i < 512 ensures base[i] == BaseEntry(i) && shift[i] == ShiftBy(i % 256) {
        assert i % 256 == if i < 256 then i else i - 256;
      }
    }

    /** The body of the last loop of float16Init, for the exponent of a float. */
    static method NarrowingEntry(i: nat) returns (code: nat, bits: nat)
      requires i < 256
      ensures code == BaseCode(i) && bits == ShiftBy(i)
      ensures code < 0x8000
    {
      var e := i - 127;
      if e < -24 {
        code, bits := 0, 24;
      } else if e < -14 {
        hide Pow2, ShiftRight;
        ShiftBounds(1024, -e - 14);
        Scale(1, Pow2(-e - 14), ShiftRight(1024, -e - 14));
        code, bits := ShiftRight(1024, -e - 14), -e - 1;
      } else if e <= 15 {
        code, bits := (e + 15) * 1024, 13;
      } else if e < 128 {
        code, bits := 0x7C00, 24;
      } else {
        code, bits := 0x7C00, 13;
      }
    }

    method ToFloat32(h: uint16) returns (u: uint32)
      requires Valid() && initialized
      ensures Stands(h, u)
    {
      WidenStands(h, mantissa[offset[h / 1024] + h % 1024]);
      u := mantissa[offset[h / 1024] + h % 1024] + exponent[h / 1024];
    }

    method ToFloat16(u: uint32) returns (h: uint16)
      requires Valid() && initialized
      ensures h == Narrow(u)
    {
      hide BaseCode, ShiftBy, ShiftRight, Code, Negative16;
      var i := u / 0x80_0000 % 512;
      IndexParts(u);
      CodeInRange(Exponent32(u), Mantissa32(u));
      h := base[i] + ShiftRight(u % 0x80_0000, shift[i]);
    }

    /** Every half, infinities and NaNs included, survives the way to float32 and back. */
    method RoundTrip(h: uint16) returns (back: uint16)
      requires Valid() && initialized
      ensures back == h
    {
      var u := ToFloat32(h);
      NarrowUndoes(h, u);
      back := ToFloat16(u);
    }
  }
}
