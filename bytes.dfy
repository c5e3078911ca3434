/**
 * Fixed-width integers and byte strings: Rust's `u8`, `u16` and `usize`
 * (64-bit target), byte-string literals (`b"..."`) and the lowercase
 * hexadecimal rendering of the `hex` crate (`hex::encode`).
 */
module Bytes {
  import opened Text

  /** Rust `u8`. */
  type byte = x: int | 0 <= x < 0x100

  /** Rust `u16`. */
  type u16 = x: int | 0 <= x < 0x1_0000

  /** Rust `usize` on a 64-bit target. */
  type usize = x: int | 0 <= x < 0x1_0000_0000_0000_0000

  /** The bytes of an ASCII literal, one per character. */
  function AsciiBytes(s: string): (r: seq<byte>)
    requires IsAscii(s)
    ensures |r| == |s|
    ensures forall i :: 0 <= i < |s| ==> r[i] == s[i] as int
  {
    seq(|s|, i requires 0 <= i < |s| => s[i] as int)
  }

  // ---------------------------------------------------------------------------
  // Lowercase hexadecimal

  predicate IsHexDigit(c: char) {
    '0' <= c <= '9' || 'a' <= c <= 'f'
  }

  predicate IsLowerHex(s: string) {
    forall i :: 0 <= i < |s| ==> IsHexDigit(s[i])
  }

  /** The lowercase hex digit of a nibble. */
  function HexDigit(n: nat): (c: char)
    requires n < 16
    ensures IsHexDigit(c)
  {
    if n < 10 then ('0' as int + n) as char else ('a' as int + n - 10) as char
  }

  function NibbleOf(c: char): (n: nat)
    requires IsHexDigit(c)
    ensures n < 16 && HexDigit(n) == c
  {
    if c <= '9' then c as int - '0' as int else c as int - 'a' as int + 10
  }

  /** `hex::encode`: every byte becomes two lowercase hex digits, high nibble first. */
  function HexEncode(bs: seq<byte>): (s: string)
    ensures |s| == 2 * |bs|
    ensures IsLowerHex(s)
    ensures forall i :: 0 <= i < |bs| ==> s[2 * i] == HexDigit(bs[i] / 16) && s[2 * i + 1] == HexDigit(bs[i] % 16)
  {
    if bs == [] then []
    else
      var rest := HexEncode(bs[1..]);
      assert forall i :: 1 <= i < |bs| ==> bs[i] == bs[1..][i - 1];
      [HexDigit(bs[0] / 16), HexDigit(bs[0] % 16)] + rest
  }

  /** Reads a lowercase hex string back into bytes, two digits per byte. */
  function HexDecode(s: string): (bs: seq<byte>)
    requires |s| % 2 == 0 && IsLowerHex(s)
    ensures |bs| == |s| / 2
  {
    if s == [] then [] else [NibbleOf(s[0]) * 16 + NibbleOf(s[1])] + HexDecode(s[2..])
  }

  /** `hex::encode` loses nothing: decoding its output gives the bytes back. */
  lemma {:induction false} HexRoundTrip(bs: seq<byte>)
    ensures HexDecode(HexEncode(bs)) == bs
  {
    if bs != [] {
      var s := HexEncode(bs);
      assert s[2..] == HexEncode(bs[1..]);
      HexRoundTrip(bs[1..]);
      var b := bs[0];
      assert NibbleOf(s[0]) == b / 16 && NibbleOf(s[1]) == b % 16;
    }
  }
}
