/**
 * The parts of Rust's `String`/`str` behaviour the user service relies on:
 * a `String` is a sequence of Unicode scalar values stored as UTF-8 bytes,
 * `len()` counts those bytes, `chars()` yields the scalar values, and
 * `String::from_utf8_lossy` decodes bytes, replacing every maximal invalid
 * subsequence by U+FFFD.
 */
module Utf8 {

  newtype byte = x: int | 0 <= x < 0x100

  type Bytes = seq<byte>

  /** U+FFFD REPLACEMENT CHARACTER */
  const Replacement: char := 0xFFFD as char

  /** `char::len_utf8` */
  function CharLen(c: char): (n: nat)
    ensures 1 <= n <= 4
    ensures n == 1 <==> c as int < 0x80
  {
    if c as int < 0x80 then 1
    else if c as int < 0x800 then 2
    else if c as int < 0x1_0000 then 3
    else 4
  }

  /** `str::len`: the number of bytes of the UTF-8 encoding. */
  function ByteLen(s: string): nat
  {
    if s == [] then 0 else CharLen(s[0]) + ByteLen(s[1..])
  }

  predicate IsAscii(s: string)
  {
    forall i :: 0 <= i < |s| ==> s[i] as int < 0x80
  }

  lemma AsciiAppend(a: string, b: string)
    requires IsAscii(a) && IsAscii(b)
    ensures IsAscii(a + b)
  {
    forall i | 0 <= i < |a + b|
      ensures (a + b)[i] as int < 0x80
    {
      if i >= |a| {
        assert (a + b)[i] == b[i - |a|];
      }
    }
  }

  /** The byte length is at least the character count, with equality exactly for ASCII text. */
  lemma {:induction false} ByteLenBounds(s: string)
    ensures |s| <= ByteLen(s) <= 4 * |s|
    ensures ByteLen(s) == |s| <==> IsAscii(s)
  {
    if s != [] {
      ByteLenBounds(s[1..]);
      if IsAscii(s[1..]) && s[0] as int < 0x80 {
        forall i | 0 <= i < |s| ensures s[i] as int < 0x80 {
          if i > 0 { assert s[i] == s[1..][i - 1]; }
        }
      }
      if IsAscii(s) {
        forall i | 0 <= i < |s[1..]| ensures s[1..][i] as int < 0x80 {
          assert s[1..][i] == s[i + 1];
        }
      }
    }
  }

  lemma {:induction false} ByteLenAppend(a: string, b: string)
    ensures ByteLen(a + b) == ByteLen(a) + ByteLen(b)
  {
    if a == [] {
      assert a + b == b;
    } else {
      assert (a + b)[1..] == a[1..] + b;
      ByteLenAppend(a[1..], b);
    }
  }

  predicate IsContinuation(b: byte)
  {
    0x80 <= b < 0xC0
  }

  /** The UTF-8 encoding of one scalar value. */
  function EncodeChar(c: char): (b: Bytes)
    ensures |b| == CharLen(c)
  {
    var n := c as int;
    if n < 0x80 then [n as byte]
    else if n < 0x800 then [(0xC0 + n / 64) as byte, (0x80 + n % 64) as byte]
    else if n < 0x1_0000 then
      [(0xE0 + n / 64 / 64) as byte, (0x80 + n / 64 % 64) as byte, (0x80 + n % 64) as byte]
    else
      [(0xF0 + n / 64 / 64 / 64) as byte, (0x80 + n / 64 / 64 % 64) as byte,
       (0x80 + n / 64 % 64) as byte, (0x80 + n % 64) as byte]
  }

  /** `String::into_bytes`: the bytes a `String` is stored as. */
  function Encode(s: string): (b: Bytes)
    ensures |b| == ByteLen(s)
  {
    if s == [] then [] else EncodeChar(s[0]) + Encode(s[1..])
  }

  /** The value carried by a multi-byte sequence whose bytes have been checked. */
  function Payload(b: byte): int
  {
    b as int % 64
  }

  /**
   * One step of `String::from_utf8_lossy`: the scalar value at the head of `b`
   * and the bytes it spans, or U+FFFD and the length of the maximal invalid
   * subsequence (a lead byte followed by the continuation bytes that were still
   * acceptable). The accepted second-byte ranges exclude overlong forms,
   * surrogates and values above U+10FFFF.
   */
  function DecodeOne(b: Bytes): (r: (char, nat))
    requires |b| > 0
    ensures 1 <= r.1 <= |b| && r.1 <= 4
  {
    var b0 := b[0] as int;
    if b0 < 0x80 then (b0 as char, 1)
    else if 0xC2 <= b0 <= 0xDF then
      if |b| < 2 || !IsContinuation(b[1]) then (Replacement, 1)
      else (((b0 - 0xC0) * 64 + Payload(b[1])) as char, 2)
    else if 0xE0 <= b0 <= 0xEF then
      var lo := if b0 == 0xE0 then 0xA0 else 0x80;
      var hi := if b0 == 0xED then 0x9F else 0xBF;
      if |b| < 2 || !(lo <= b[1] as int <= hi) then (Replacement, 1)
      else if |b| < 3 || !IsContinuation(b[2]) then (Replacement, 2)
      else (((b0 - 0xE0) * 4096 + Payload(b[1]) * 64 + Payload(b[2])) as char, 3)
    else if 0xF0 <= b0 <= 0xF4 then
      var lo := if b0 == 0xF0 then 0x90 else 0x80;
      var hi := if b0 == 0xF4 then 0x8F else 0xBF;
      if |b| < 2 || !(lo <= b[1] as int <= hi) then (Replacement, 1)
      else if |b| < 3 || !IsContinuation(b[2]) then (Replacement, 2)
      else if |b| < 4 || !IsContinuation(b[3]) then (Replacement, 3)
      else (((b0 - 0xF0) * 262144 + Payload(b[1]) * 4096 + Payload(b[2]) * 64 + Payload(b[3])) as char, 4)
    else (Replacement, 1)
  }

  /** `String::from_utf8_lossy` */
  function Lossy(b: Bytes): (s: string)
    ensures |s| <= |b|
    decreases |b|
  {
    if b == [] then []
    else
      var (c, n) := DecodeOne(b);
      [c] + Lossy(b[n..])
  }

  lemma DecodeOneEncodeChar(c: char, rest: Bytes)
    ensures DecodeOne(EncodeChar(c) + rest) == (c, CharLen(c))
  {
    var n := c as int;
    var b := EncodeChar(c) + rest;
    if n < 0x80 {
    } else if n < 0x800 {
      assert n == n / 64 * 64 + n % 64;
      assert Payload(b[1]) == n % 64;
    } else if n < 0x1_0000 {
      assert n / 64 == n / 64 / 64 * 64 + n / 64 % 64;
      assert n == n / 64 * 64 + n % 64;
      assert Payload(b[1]) == n / 64 % 64;
      assert Payload(b[2]) == n % 64;
    } else {
      assert n / 64 / 64 == n / 64 / 64 / 64 * 64 + n / 64 / 64 % 64;
      assert n / 64 == n / 64 / 64 * 64 + n / 64 % 64;
      assert n == n / 64 * 64 + n % 64;
      assert Payload(b[1]) == n / 64 / 64 % 64;
      assert Payload(b[2]) == n / 64 % 64;
      assert Payload(b[3]) == n % 64;
    }
  }

  /** Decoding what a `String` is stored as gives the `String` back, with no replacement. */
  lemma {:induction false} LossyEncode(s: string)
    ensures Lossy(Encode(s)) == s
  {
    if s != [] {
      var e := EncodeChar(s[0]);
      DecodeOneEncodeChar(s[0], Encode(s[1..]));
      assert (e + Encode(s[1..]))[|e|..] == Encode(s[1..]);
      LossyEncode(s[1..]);
    }
  }
}
