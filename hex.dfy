/** Bytes and their lower-case hexadecimal rendering, as produced by
    Node's `Buffer.toString('hex')` for the verification-token secret. */
module Hex {

  newtype byte = x: int | 0 <= x < 256

  predicate IsHexChar(c: char) {
    '0' <= c <= '9' || 'a' <= c <= 'f'
  }

  predicate IsHexString(s: string) {
    forall i :: 0 <= i < |s| ==> IsHexChar(s[i])
  }

  function HexDigit(n: nat): (c: char)
    requires n < 16
    ensures IsHexChar(c)
  {
    if n < 10 then ('0' as int + n) as char else ('a' as int + n - 10) as char
  }

  /** The value of one hex digit; its inverse is HexDigit. */
  function HexValue(c: char): (n: nat)
    requires IsHexChar(c)
    ensures n < 16
  {
    if c <= '9' then c as int - '0' as int else c as int - 'a' as int + 10
  }

  lemma DigitOfHexValue(c: char)
    requires IsHexChar(c)
    ensures HexDigit(HexValue(c)) == c
  {
  }

  lemma HexValueOfDigit(n: nat)
    requires n < 16
    ensures HexValue(HexDigit(n)) == n
  {
  }

  /** The two digits of a byte read back to that byte. */
  lemma DigitsOfByte(b: byte)
    ensures HexValue(HexDigit(b as int / 16)) * 16 + HexValue(HexDigit(b as int % 16)) == b as int
  {
    HexValueOfDigit(b as int / 16);
    HexValueOfDigit(b as int % 16);
  }

  /** Two hex digits per byte, high nibble first. */
  function ToHex(bytes: seq<byte>): (s: string)
    ensures |s| == 2 * |bytes|
    ensures IsHexString(s)
  {
    if bytes == [] then []
    else [HexDigit(bytes[0] as int / 16), HexDigit(bytes[0] as int % 16)] + ToHex(bytes[1..])
  }

  /** The byte whose high and low nibbles the two digits name. */
  function ByteOf(hi: char, lo: char): (b: byte)
    requires IsHexChar(hi) && IsHexChar(lo)
    ensures b as int == HexValue(hi) * 16 + HexValue(lo)
  {
    (HexValue(hi) * 16 + HexValue(lo)) as byte
  }

  /** Reads a hex string back into bytes, two digits at a time. */
  function FromHex(s: string): (bytes: seq<byte>)
    requires |s| % 2 == 0 && IsHexString(s)
  {
    if s == [] then []
    else [ByteOf(s[0], s[1])] + FromHex(s[2..])
  }

  lemma FromHexCons(hi: char, lo: char, rest: string)
    requires IsHexChar(hi) && IsHexChar(lo) && |rest| % 2 == 0 && IsHexString(rest)
    ensures IsHexString([hi, lo] + rest)
    ensures FromHex([hi, lo] + rest) == [ByteOf(hi, lo)] + FromHex(rest)
  {
    var s := [hi, lo] + rest;
    assert s[2..] == rest;
  }

  /** Decoding the rendering gives back the bytes. */
  lemma {:induction false} FromHexToHex(bytes: seq<byte>)
    ensures FromHex(ToHex(bytes)) == bytes
  {
    if bytes != [] {
      var hi, lo := HexDigit(bytes[0] as int / 16), HexDigit(bytes[0] as int % 16);
      var rest := ToHex(bytes[1..]);
      assert ToHex(bytes) == [hi, lo] + rest;
      DigitsOfByte(bytes[0]);
      FromHexToHex(bytes[1..]);
      FromHexCons(hi, lo, rest);
    }
  }

  /** Rendering the decoded bytes gives back the hex string. */
  lemma {:induction false} ToHexFromHex(s: string)
    requires |s| % 2 == 0 && IsHexString(s)
    ensures ToHex(FromHex(s)) == s
  {
    if s != [] {
      ToHexFromHex(s[2..]);
      var b := FromHex(s)[0] as int;
      assert b == HexValue(s[0]) * 16 + HexValue(s[1]);
      assert b / 16 == HexValue(s[0]) && b % 16 == HexValue(s[1]);
      DigitOfHexValue(s[0]);
      DigitOfHexValue(s[1]);
      assert FromHex(s)[1..] == FromHex(s[2..]);
      assert s == [s[0], s[1]] + s[2..];
    }
  }

  /** The secret minted at registration: 16 random bytes in hex. */
  predicate IsTokenSecret(s: string) {
    |s| == 32 && IsHexString(s)
  }
}
