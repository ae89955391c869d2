/**
 * The block body encoding: the JSON text is turned into its UTF-8 bytes
 * (Buffer.from), the bytes into lower-case hex (toString('hex')), and back
 * with hex2ascii, which turns every pair of hex digits into the character
 * with that code, except pairs of code 0, which it skips.
 */
module HexEncoding {

  newtype byte = x: int | 0 <= x < 256

  predicate IsAscii(s: string) {
    forall i :: 0 <= i < |s| ==> s[i] as int < 128
  }

  predicate IsLowerHexDigit(c: char) {
    '0' <= c <= '9' || 'a' <= c <= 'f'
  }

  /** The digits parseInt(_, 16) accepts. */
  predicate IsHexDigit(c: char) {
    '0' <= c <= '9' || 'a' <= c <= 'f' || 'A' <= c <= 'F'
  }

  /** Text made of whole pairs of hex digits. */
  predicate IsHexText(s: string) {
    |s| % 2 == 0 && forall i :: 0 <= i < |s| ==> IsHexDigit(s[i])
  }

  function HexValue(c: char): (n: int)
    requires IsHexDigit(c)
    ensures 0 <= n < 16
  {
    if '0' <= c <= '9' then c as int - '0' as int
    else if 'a' <= c <= 'f' then c as int - 'a' as int + 10
    else c as int - 'A' as int + 10
  }

  function HexDigit(n: int): (c: char)
    requires 0 <= n < 16
    ensures IsLowerHexDigit(c) && HexValue(c) == n
  {
    if n < 10 then ('0' as int + n) as char else ('a' as int + n - 10) as char
  }

  /** The UTF-8 encoding of one Unicode scalar value. */
  function Utf8Char(c: char): (r: seq<byte>)
    ensures 1 <= |r| <= 4
    ensures |r| == 1 <==> c as int < 128
    ensures |r| == 1 ==> r[0] as int == c as int
    ensures c != '\0' ==> forall k :: 0 <= k < |r| ==> r[k] != 0
  {
    var n := c as int;
    if n < 0x80 then [n as byte]
    else if n < 0x800 then [(0xC0 + n / 64) as byte, (0x80 + n % 64) as byte]
    else if n < 0x1_0000 then
      [(0xE0 + n / 4096) as byte, (0x80 + (n / 64) % 64) as byte, (0x80 + n % 64) as byte]
    else
      [(0xF0 + n / 262144) as byte, (0x80 + (n / 4096) % 64) as byte,
       (0x80 + (n / 64) % 64) as byte, (0x80 + n % 64) as byte]
  }

  /** Text without the character U+0000. */
  predicate NulFree(s: string) {
    forall i :: 0 <= i < |s| ==> s[i] != '\0'
  }

  /** Bytes without a zero byte. */
  predicate ZeroFree(bs: seq<byte>) {
    forall i :: 0 <= i < |bs| ==> bs[i] != 0
  }

  /** Buffer.from(text): the UTF-8 bytes of a string. */
  function Utf8(s: string): (r: seq<byte>)
    ensures |r| >= |s|
    ensures |r| == |s| <==> IsAscii(s)
    ensures NulFree(s) ==> ZeroFree(r)
  {
    if s == [] then []
    else
      assert NulFree(s) ==> NulFree(s[1..]) by {
        if NulFree(s) {
          forall i | 0 <= i < |s[1..]| ensures s[1..][i] != '\0' { assert s[1..][i] == s[i + 1]; }
        }
      }
      Utf8Char(s[0]) + Utf8(s[1..])
  }

  /** Each byte read back as the character with that code (String.fromCharCode). */
  function Latin1(bs: seq<byte>): string {
    seq(|bs|, i requires 0 <= i < |bs| => (bs[i] as int) as char)
  }

  /** The bytes left once every zero byte is removed, in their order. */
  function DropZeros(bs: seq<byte>): (r: seq<byte>)
    ensures |r| <= |bs| && ZeroFree(r)
    ensures ZeroFree(bs) ==> r == bs
  {
    if bs == [] then []
    else
      assert ZeroFree(bs) ==> ZeroFree(bs[1..]) by {
        if ZeroFree(bs) {
          forall i | 0 <= i < |bs[1..]| ensures bs[1..][i] != 0 { assert bs[1..][i] == bs[i + 1]; }
        }
      }
      (if bs[0] == 0 then [] else [bs[0]]) + DropZeros(bs[1..])
  }

  /** Buffer.toString('hex'): two lower-case hex digits per byte, high nibble first. */
  function HexEncode(bs: seq<byte>): (r: string)
    ensures |r| == 2 * |bs|
    ensures forall i :: 0 <= i < |r| ==> IsLowerHexDigit(r[i])
  {
    if bs == [] then [] else HexPair(bs[0]) + HexEncode(bs[1..])
  }

  /** The two digits of one byte. */
  function HexPair(b: byte): (p: string)
    ensures |p| == 2 && IsLowerHexDigit(p[0]) && IsLowerHexDigit(p[1])
    ensures 16 * HexValue(p[0]) + HexValue(p[1]) == b as int
  {
    [HexDigit(b as int / 16), HexDigit(b as int % 16)]
  }

  /**
   * hex2ascii: every pair of hex digits becomes the character with that code,
   * except that a pair of code 0 is skipped.
   */
  function HexToAscii(h: string): (r: string)
    requires IsHexText(h)
    ensures |r| * 2 <= |h|
    ensures NulFree(r)
  {
    if h == [] then []
    else
      assert IsHexText(h[2..]) by {
        forall i | 0 <= i < |h[2..]| ensures IsHexDigit(h[2..][i]) { assert h[2..][i] == h[i + 2]; }
      }
      var code := 16 * HexValue(h[0]) + HexValue(h[1]);
      (if code == 0 then [] else [code as char]) + HexToAscii(h[2..])
  }

  /** Byte i of the input is written as the two digits at positions 2i and 2i + 1. */
  lemma {:induction false} HexEncodeBytes(bs: seq<byte>)
    ensures forall i :: 0 <= i < |bs| ==> HexEncode(bs)[2 * i..2 * i + 2] == HexPair(bs[i])
  {
    if bs != [] {
      HexEncodeBytes(bs[1..]);
      var h := HexEncode(bs);
      assert h == HexPair(bs[0]) + HexEncode(bs[1..]);
      forall i | 0 < i < |bs| ensures h[2 * i..2 * i + 2] == HexPair(bs[i]) {
        assert h[2 * i..2 * i + 2] == HexEncode(bs[1..])[2 * (i - 1)..2 * (i - 1) + 2];
      }
    }
  }

  /** The body the block constructor stores for a JSON text. */
  function EncodeBody(text: string): (body: string)
    ensures IsHexText(body) && |body| == 2 * |Utf8(text)|
    ensures forall i :: 0 <= i < |body| ==> IsLowerHexDigit(body[i])
  {
    HexEncode(Utf8(text))
  }

  lemma Latin1Append(a: seq<byte>, b: seq<byte>)
    ensures Latin1(a + b) == Latin1(a) + Latin1(b)
  {
  }

  /** Decoding the digits of one byte in front of more hex text. */
  lemma DecodePair(b: byte, rest: string)
    requires IsHexText(rest)
    ensures IsHexText(HexPair(b) + rest)
    ensures HexToAscii(HexPair(b) + rest) == Latin1(if b == 0 then [] else [b]) + HexToAscii(rest)
  {
    var h := HexPair(b) + rest;
    assert h[2..] == rest;
  }

  /**
   * Hex decoding undoes hex encoding except for zero bytes: every other byte
   * comes back, in order, as the character with its code.
   */
  lemma {:induction false} HexRoundTrip(bs: seq<byte>)
    ensures IsHexText(HexEncode(bs))
    ensures HexToAscii(HexEncode(bs)) == Latin1(DropZeros(bs))
  {
    if bs != [] {
      HexRoundTrip(bs[1..]);
      DecodePair(bs[0], HexEncode(bs[1..]));
      assert HexEncode(bs) == HexPair(bs[0]) + HexEncode(bs[1..]);
      var head: seq<byte> := if bs[0] == 0 then [] else [bs[0]];
      assert DropZeros(bs) == head + DropZeros(bs[1..]);
      Latin1Append(head, DropZeros(bs[1..]));
    }
  }

  /** For ASCII text every character is one byte, so reading the bytes back gives the text. */
  lemma {:induction false} AsciiUtf8(s: string)
    requires IsAscii(s)
    ensures Latin1(Utf8(s)) == s
  {
    if s != [] {
      assert IsAscii(s[1..]) by {
        forall i | 0 <= i < |s[1..]| ensures s[1..][i] as int < 128 { assert s[1..][i] == s[i + 1]; }
      }
      AsciiUtf8(s[1..]);
      assert Utf8(s) == Utf8Char(s[0]) + Utf8(s[1..]);
      assert Latin1(Utf8(s)) == [s[0]] + Latin1(Utf8(s[1..]));
    }
  }

  /**
   * Decoding a stored body gives back exactly the encoded text if and only if
   * that text is ASCII and free of U+0000: any other character takes several
   * UTF-8 bytes, each of which comes back as a character of its own, and
   * U+0000 is one zero byte, which hex2ascii skips.
   */
  lemma BodyRoundTrip(text: string)
    ensures HexToAscii(EncodeBody(text)) == text <==> IsAscii(text) && NulFree(text)
  {
    HexRoundTrip(Utf8(text));
    if IsAscii(text) && NulFree(text) {
      AsciiUtf8(text);
    }
  }
}
