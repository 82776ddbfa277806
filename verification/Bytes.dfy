/** Machine bytes, two's-complement encodings and the index arithmetic shared by the byte-level cores. */
module Bytes {

  type byte = x: int | 0 <= x < 256

  /** Truncation of a C integer to `unsigned char`. */
  function AsByte(x: int): byte {
    x % 256
  }

  /** The `n` low bytes of `x` in two's complement, least significant first (a little-endian store). */
  function LittleEndian(x: int, n: nat): (r: seq<byte>)
    ensures |r| == n
    decreases n
  {
    if n == 0 then [] else [AsByte(x)] + LittleEndian(x / 256, n - 1)
  }

  /** 256 to the power `n`. */
  function Pow256(n: nat): (r: int)
    ensures r > 0
  {
    if n == 0 then 1 else 256 * Pow256(n - 1)
  }

  /** The unsigned little-endian load. */
  function Unsigned(b: seq<byte>): (r: int)
    ensures 0 <= r < Pow256(|b|)
  {
    if b == [] then 0 else b[0] + 256 * Unsigned(b[1..])
  }

  /** The two's-complement little-endian load. */
  function Signed(b: seq<byte>): int {
    var u := Unsigned(b);
    if 2 * u >= Pow256(|b|) && b != [] then u - Pow256(|b|) else u
  }

  lemma {:induction false} StoreLoad(b: seq<byte>)
    ensures LittleEndian(Unsigned(b), |b|) == b
  {
    if b == [] {
    } else {
      var u := Unsigned(b[1..]);
      assert (b[0] + 256 * u) % 256 == b[0] && (b[0] + 256 * u) / 256 == u;
      StoreLoad(b[1..]);
    }
  }

  /** A store drops exactly the multiples of 256^n. */
  lemma {:induction false} StoreWraps(x: int, k: int, n: nat)
    ensures LittleEndian(x + k * Pow256(n), n) == LittleEndian(x, n)
    decreases n
  {
    if n == 0 {
    } else {
      var m := k * Pow256(n - 1);
      assert k * Pow256(n) == 256 * m by {
        assert Pow256(n) == 256 * Pow256(n - 1);
      }
      assert (x + 256 * m) % 256 == x % 256 && (x + 256 * m) / 256 == x / 256 + m;
      StoreWraps(x / 256, k, n - 1);
    }
  }

  lemma {:induction false} StoreLoadSigned(b: seq<byte>)
    ensures LittleEndian(Signed(b), |b|) == b
  {
    StoreLoad(b);
    StoreWraps(Unsigned(b), -1, |b|);
  }

  /** A store of a value shifted left by whole bytes starts with zero bytes. */
  lemma StoreShifted(x: int, n: nat)
    ensures LittleEndian(x * 256, n + 1) == [0] + LittleEndian(x, n)
  {
    assert (x * 256) % 256 == 0 && (x * 256) / 256 == x;
  }

  /** A store of a signed byte shifted up to the top of `n + 1` bytes, loaded back. */
  lemma SignedOfTop(x: int, n: nat)
    requires -128 <= x < 128
    ensures Signed(LittleEndian(x * Pow256(n), n + 1)) == x * Pow256(n)
  {
    var p, b := Pow256(n), LittleEndian(x * Pow256(n), n + 1);
    UnsignedOfTop(x, n);
    TopByteBounds(x, p);
    assert Pow256(|b|) == 256 * p;
    assert Unsigned(b) == if x >= 0 then x * p else x * p + 256 * p;
  }

  lemma TopByteBounds(x: int, p: int)
    requires -128 <= x < 128 && p > 0
    ensures x >= 0 ==> 0 <= x * p && 2 * (x * p) < 256 * p && x % 256 == x
    ensures x < 0 ==> 2 * (x * p + 256 * p) >= 256 * p && x % 256 == x + 256 && (x + 256) * p == x * p + 256 * p
  {
    assert (x + 256) * p == x * p + 256 * p;
    ProductSign(if x >= 0 then x else x + 128, p);
    ProductSign(127 - x, p);
    assert (127 - x) * p == 127 * p - x * p;
    assert (x + 128) * p == x * p + 128 * p;
  }

  lemma ProductSign(a: int, p: int)
    requires a >= 0 && p > 0
    ensures a * p >= 0
  {
  }

  lemma {:induction false} UnsignedOfTop(x: int, n: nat)
    ensures Unsigned(LittleEndian(x * Pow256(n), n + 1)) == (x % 256) * Pow256(n)
  {
    if n == 0 {
      assert LittleEndian(x, 1) == [AsByte(x)] + LittleEndian(x / 256, 0);
    } else {
      var y := x * Pow256(n - 1);
      assert x * Pow256(n) == y * 256 by { assert Pow256(n) == 256 * Pow256(n - 1); }
      StoreShifted(y, n);
      UnsignedOfTop(x, n - 1);
      assert LittleEndian(y * 256, n + 1)[1..] == LittleEndian(y, n);
      assert 256 * ((x % 256) * Pow256(n - 1)) == (x % 256) * Pow256(n);
    }
  }

  /** Quotient and remainder are unique. */
  lemma DivModUnique(q: int, d: int, r: int)
    requires 0 <= r < d
    ensures (q * d + r) / d == q && (q * d + r) % d == r
  {
    var n := q * d + r;
    assert n == (n / d) * d + n % d;
    assert (q - n / d) * d == n % d - r;
    ProductGap(q - n / d, d);
  }

  lemma ProductGap(a: int, d: int)
    requires d > 0
    ensures a >= 1 ==> a * d >= d
    ensures a <= -1 ==> a * d <= -d
  {
    if a >= 1 {
      assert (a - 1) * d >= 0;
    } else if a <= -1 {
      assert (a + 1) * d <= 0;
    }
  }

  lemma SubSlice<T>(s: seq<T>, a: nat, n: nat, d: nat, h: nat)
    requires a + n <= |s| && d + h <= n
    ensures s[a..a + n][d..d + h] == s[a + d..a + d + h]
  {
    var l, r := s[a..a + n][d..d + h], s[a + d..a + d + h];
    assert |l| == |r| && forall j :: 0 <= j < h ==> l[j] == r[j];
  }

  lemma JoinSlices<T>(s: seq<T>, a: nat, b: nat, c: nat)
    requires a <= b <= c <= |s|
    ensures s[a..b] + s[b..c] == s[a..c]
  {
  }

  /** Copies `bytes` into `dst` starting at `at`, as memcpy does. */
  method CopyInto(dst: array<byte>, at: nat, bytes: seq<byte>)
    requires at + |bytes| <= dst.Length
    modifies dst
    ensures forall j :: at <= j < at + |bytes| ==> dst[j] == bytes[j - at]
    ensures forall j :: 0 <= j < dst.Length && !(at <= j < at + |bytes|) ==> dst[j] == old(dst[j])
  {
    forall j | at <= j < at + |bytes| {
      dst[j] := bytes[j - at];
    }
  }
}
