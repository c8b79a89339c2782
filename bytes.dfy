/**
 * Machine-width integers, byte strings, and the little-endian and C-string
 * helpers the protocol engine relies on (the engine assumes a little-endian
 * host, so raw copies of integers produce the same bytes as these encoders).
 */
module Bytes {
  type byte = x: int | 0 <= x < 0x100
  type u16 = x: int | 0 <= x < 0x1_0000
  type u32 = x: int | 0 <= x < 0x1_0000_0000
  type Bytes = seq<byte>

  /** Value of a C expression converted to `uint16_t`. */
  function Wrap16(x: int): u16 { x % 0x1_0000 }

  /** Value of a C expression converted to `uint32_t` (or `unsigned int`). */
  function Wrap32(x: int): u32 { x % 0x1_0000_0000 }

  function LE16(x: u16): (r: Bytes)
    ensures |r| == 2
  {
    [x % 0x100, x / 0x100]
  }

  function FromLE16(b: Bytes): u16
    requires |b| == 2
  {
    b[0] as int + b[1] as int * 0x100
  }

  /** Low half first, each half little-endian. */
  function LE32(x: u32): (r: Bytes)
    ensures |r| == 4
  {
    LE16(x % 0x1_0000) + LE16(x / 0x1_0000)
  }

  function FromLE32(b: Bytes): u32
    requires |b| == 4
  {
    FromLE16(b[..2]) as int + FromLE16(b[2..]) as int * 0x1_0000
  }

  lemma LE16RoundTrip(x: u16)
    ensures FromLE16(LE16(x)) == x
  {
  }

  lemma LE16Injective(b: Bytes)
    requires |b| == 2
    ensures LE16(FromLE16(b)) == b
  {
  }

  lemma LE32RoundTrip(x: u32)
    ensures FromLE32(LE32(x)) == x
  {
  }

  lemma LE32Injective(b: Bytes)
    requires |b| == 4
    ensures LE32(FromLE32(b)) == b
  {
  }

  /** The bytes of a C string that starts at `b[0]`: everything before the first NUL. */
  function CString(b: Bytes): (r: Bytes)
    ensures |r| <= |b| && r == b[..|r|]
    ensures 0 !in r
    ensures |r| < |b| ==> b[|r|] == 0
  {
    if b == [] || b[0] == 0 then [] else [b[0]] + CString(b[1..])
  }

  /** `n` zero bytes. */
  function Zeros(n: nat): (r: Bytes)
    ensures |r| == n && forall i :: 0 <= i < n ==> r[i] == 0
  {
    if n == 0 then [] else Zeros(n - 1) + [0]
  }

  /**
   * What `strncpy(dst, src, n)` leaves in an `n`-byte destination: the string
   * at `src`, cut to `n` bytes, padded with NULs. When the string has `n` or
   * more bytes, no terminator is written.
   */
  function Strncpy(src: Bytes, n: nat): (r: Bytes)
    requires n <= |src|
    ensures |r| == n
    ensures CString(r) == CString(src[..n])
    ensures |CString(src[..n])| == n <==> 0 !in r
    ensures forall i :: |CString(src[..n])| <= i < n ==> r[i] == 0
  {
    var c := CString(src[..n]);
    CStringStopsAtNul(c, Zeros(n - |c|));
    c + Zeros(n - |c|)
  }

  lemma {:induction false} CStringStopsAtNul(c: Bytes, rest: Bytes)
    requires 0 !in c
    requires rest == [] || rest[0] == 0
    ensures CString(c + rest) == c
  {
    if c != [] {
      assert (c + rest)[1..] == c[1..] + rest;
      CStringStopsAtNul(c[1..], rest);
    } else {
      assert c + rest == rest;
    }
  }

  /** A terminator appended to a buffer does not change the C string it holds. */
  lemma {:induction false} CStringNulTerminated(b: Bytes)
    ensures CString(b + [0]) == CString(b)
  {
    if b != [] && b[0] != 0 {
      assert (b + [0])[1..] == b[1..] + [0];
      CStringNulTerminated(b[1..]);
    }
  }

  /** Cutting a buffer after the end of the C string it holds keeps that string. */
  lemma CStringPrefix(b: Bytes, n: nat)
    requires n <= |b|
    ensures |CString(b)| < n ==> CString(b[..n]) == CString(b)
    ensures |CString(b)| >= n ==> CString(b[..n]) == b[..n]
  {
    var c := CString(b);
    if |c| < n {
      CStringStopsAtNul(c, b[|c|..n]);
      assert b[..n] == c + b[|c|..n];
    } else {
      CStringStopsAtNul(b[..n], []);
      assert b[..n] + [] == b[..n];
    }
  }
}
