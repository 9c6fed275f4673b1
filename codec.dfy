/**
  Byte-level encodings shared by the ledger: fixed-width machine integers,
  their 8-byte little-endian form (as written by the `byteorder` crate),
  and lowercase base-16 text (as produced by the `hex` crate).

  A Rust `String` is stored as its UTF-8 bytes, `as_bytes()` exposes them
  unchanged and `==` compares them byte by byte, so strings are modelled
  directly as byte sequences (`Str`).
 */
module Codec {

  type Byte = b: int | 0 <= b < 256
  type Bytes = seq<Byte>

  /** A Rust `String`, as the sequence of its UTF-8 bytes. */
  type Str = Bytes

  /** The output of SHA-256: exactly 32 bytes. */
  type Digest = d: Bytes | |d| == 32 witness seq(32, _ => 0)

  const TWO_63: int := 0x8000_0000_0000_0000
  const TWO_64: int := 0x1_0000_0000_0000_0000

  type I64 = x: int | -TWO_63 <= x < TWO_63
  type U64 = x: int | 0 <= x < TWO_64

  /** The one-character string "0", used as a sentinel address and signature. */
  const ZERO_STR: Str := [0x30]

  function Pow256(w: nat): (p: nat)
    ensures p >= 1
  {
    if w == 0 then 1 else 256 * Pow256(w - 1)
  }

  function Zeros(w: nat): (r: Bytes)
    ensures |r| == w && forall i :: 0 <= i < w ==> r[i] == 0
  {
    seq(w, _ => 0)
  }

  // ---------------------------------------------------------------------
  // Little-endian fixed-width integers
  // ---------------------------------------------------------------------

  /** The `w` low-order base-256 digits of `n`, least significant first. */
  function LeBytes(n: nat, w: nat): (r: Bytes)
    ensures |r| == w
  {
    if w == 0 then [] else [n % 256] + LeBytes(n / 256, w - 1)
  }

  /** The number whose little-endian digits are `s`. */
  function LeValue(s: Bytes): nat
  {
    if s == [] then 0 else s[0] + 256 * LeValue(s[1..])
  }

  lemma {:induction false} LeValueBound(s: Bytes)
    ensures LeValue(s) < Pow256(|s|)
  {
    if s != [] {
      LeValueBound(s[1..]);
    }
  }

  /** Reading back `w` little-endian digits gives the number written, for every number that fits. */
  lemma {:induction false} LeRoundTrip(n: nat, w: nat)
    requires n < Pow256(w)
    ensures LeValue(LeBytes(n, w)) == n
  {
    if w > 0 {
      assert n / 256 < Pow256(w - 1);
      LeRoundTrip(n / 256, w - 1);
      assert LeBytes(n, w)[1..] == LeBytes(n / 256, w - 1);
    }
  }

  /** Writing the digits of what was read gives back the same bytes. */
  lemma {:induction false} LeBytesOfValue(s: Bytes)
    ensures LeBytes(LeValue(s), |s|) == s
  {
    if s != [] {
      LeBytesOfValue(s[1..]);
      assert LeValue(s) % 256 == s[0];
      assert LeValue(s) / 256 == LeValue(s[1..]);
    }
  }

  lemma Pow256Of8()
    ensures Pow256(8) == TWO_64
  {
  }

  /** `write_u64::<LittleEndian>`: the 8-byte little-endian form of an unsigned 64-bit value. */
  function LeU64(n: U64): (r: Bytes)
    ensures |r| == 8
  {
    LeBytes(n, 8)
  }

  /** Reading an unsigned 64-bit value back from 8 little-endian bytes. */
  function DecodeU64(s: Bytes): (n: U64)
    requires |s| == 8
    ensures LeU64(n) == s
  {
    LeValueBound(s);
    Pow256Of8();
    LeBytesOfValue(s);
    LeValue(s)
  }

  /** The value an i64 has as an unsigned 64-bit pattern (two's complement). */
  function TwosComplement(v: I64): (u: U64)
    ensures v >= 0 ==> u == v
    ensures v < 0 ==> u == v + TWO_64
  {
    if v < 0 then v + TWO_64 else v
  }

  /** `write_i64::<LittleEndian>`: the 8-byte little-endian two's-complement form of a signed 64-bit value. */
  function LeI64(v: I64): (r: Bytes)
    ensures |r| == 8
  {
    LeBytes(TwosComplement(v), 8)
  }

  /** Reading a signed 64-bit value back from 8 little-endian two's-complement bytes. */
  function DecodeI64(s: Bytes): (v: I64)
    requires |s| == 8
    ensures LeI64(v) == s
  {
    var u := DecodeU64(s);
    if u >= TWO_63 then u - TWO_64 else u
  }

  lemma U64RoundTrip(n: U64)
    ensures DecodeU64(LeU64(n)) == n
  {
    Pow256Of8();
    LeRoundTrip(n, 8);
  }

  /** The 8-byte encoding of an i64 decodes back to the same value. */
  lemma I64RoundTrip(v: I64)
    ensures DecodeI64(LeI64(v)) == v
  {
    Pow256Of8();
    LeRoundTrip(TwosComplement(v), 8);
  }

  /** Distinct i64 values have distinct encodings. */
  lemma I64Injective(v: I64, w: I64)
    requires LeI64(v) == LeI64(w)
    ensures v == w
  {
    I64RoundTrip(v);
    I64RoundTrip(w);
  }

  /**
    `write_i64::<LittleEndian>` into an 8-byte buffer: overwrites all eight
    bytes with the little-endian two's-complement form of `v`, least
    significant byte first.
   */
  method WriteI64Le(buf: array<Byte>, v: I64)
    requires buf.Length == 8
    modifies buf
    ensures buf[..] == LeI64(v)
  {
    var u: nat := TwosComplement(v);
    var k := 0;
    while k < 8
      invariant 0 <= k <= 8
      invariant LeI64(v) == buf[..k] + LeBytes(u, 8 - k)
    {
      buf[k] := u % 256;
      assert buf[..k + 1] == buf[..k] + [u % 256];
      u := u / 256;
      k := k + 1;
    }
    assert buf[..] == buf[..8];
  }

  // ---------------------------------------------------------------------
  // Lowercase hexadecimal text (`hex::encode`)
  // ---------------------------------------------------------------------

  /** The ASCII code of a lowercase hex digit: '0'..'9' are 0x30..0x39, 'a'..'f' are 0x61..0x66. */
  predicate IsHexDigit(c: Byte)
  {
    0x30 <= c <= 0x39 || 0x61 <= c <= 0x66
  }

  predicate IsLowerHex(s: Str)
  {
    forall i :: 0 <= i < |s| ==> IsHexDigit(s[i])
  }

  function HexDigit(n: int): (c: Byte)
    requires 0 <= n < 16
    ensures IsHexDigit(c)
  {
    if n < 10 then 0x30 + n else 0x61 + (n - 10)
  }

  function DigitValue(c: Byte): (n: int)
    requires IsHexDigit(c)
    ensures 0 <= n < 16 && HexDigit(n) == c
  {
    if c <= 0x39 then c - 0x30 else c - 0x61 + 10
  }

  /** `hex::encode`: two lowercase hex digits per byte, high nibble first. */
  function Hex(bs: Bytes): (s: Str)
    ensures |s| == 2 * |bs|
    ensures IsLowerHex(s)
  {
    if bs == [] then []
    else [HexDigit(bs[0] / 16), HexDigit(bs[0] % 16)] + Hex(bs[1..])
  }

  /** The bytes written by `Hex`, read back pairwise. */
  function Unhex(s: Str): Bytes
    requires |s| % 2 == 0 && IsLowerHex(s)
  {
    if s == [] then []
    else [16 * DigitValue(s[0]) + DigitValue(s[1])] + Unhex(s[2..])
  }

  lemma {:induction false} HexRoundTrip(bs: Bytes)
    ensures Unhex(Hex(bs)) == bs
  {
    if bs != [] {
      var s := Hex(bs);
      assert s[2..] == Hex(bs[1..]);
      assert DigitValue(s[0]) == bs[0] / 16 && DigitValue(s[1]) == bs[0] % 16;
      HexRoundTrip(bs[1..]);
    }
  }

  /** Hex text determines the bytes it encodes: equal text means equal bytes. */
  lemma HexInjective(a: Bytes, b: Bytes)
    ensures Hex(a) == Hex(b) <==> a == b
  {
    if Hex(a) == Hex(b) {
      HexRoundTrip(a);
      HexRoundTrip(b);
    }
  }
}
