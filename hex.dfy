/** Lowercase hexadecimal encoding of byte strings, as Node's
    `Buffer.toString('hex')` and `Hash.digest('hex')` produce it:
    every byte becomes two digits from "0123456789abcdef", high nibble first. */
module Hex {

  newtype uint8 = x: int | 0 <= x < 256

  predicate IsLowerHexDigit(c: char) {
    '0' <= c <= '9' || 'a' <= c <= 'f'
  }

  predicate IsLowerHex(s: string) {
    forall i :: 0 <= i < |s| ==> IsLowerHexDigit(s[i])
  }

  /** The digit for a nibble value. */
  function DigitChar(n: nat): (c: char)
    requires n < 16
    ensures IsLowerHexDigit(c)
    ensures (n < 10 ==> '0' <= c <= '9') && (10 <= n ==> 'a' <= c <= 'f')
  {
    if n < 10 then ('0' as int + n) as char else ('a' as int + n - 10) as char
  }

  /** The nibble value of a digit: the inverse of DigitChar. */
  function DigitValue(c: char): (n: nat)
    requires IsLowerHexDigit(c)
    ensures n < 16 && DigitChar(n) == c
  {
    if c <= '9' then c as int - '0' as int else c as int - 'a' as int + 10
  }

  function HighNibble(b: uint8): (n: nat)
    ensures n < 16
  {
    b as int / 16
  }

  function LowNibble(b: uint8): (n: nat)
    ensures n < 16
    ensures HighNibble(b) * 16 + n == b as int
  {
    b as int % 16
  }

  function ByteToHex(b: uint8): (s: string)
    ensures |s| == 2 && IsLowerHex(s)
  {
    [DigitChar(HighNibble(b)), DigitChar(LowNibble(b))]
  }

  /** The hex text of a byte string. */
  function Encode(bs: seq<uint8>): (s: string)
    ensures |s| == 2 * |bs|
    ensures IsLowerHex(s)
  {
    if bs == [] then [] else ByteToHex(bs[0]) + Encode(bs[1..])
  }

  /** The bytes a well-formed hex text stands for: the inverse of Encode. */
  function Decode(s: string): (bs: seq<uint8>)
    requires |s| % 2 == 0 && IsLowerHex(s)
    ensures 2 * |bs| == |s|
  {
    if s == [] then []
    else [(DigitValue(s[0]) * 16 + DigitValue(s[1])) as uint8] + Decode(s[2..])
  }

  /** Byte i of the input sits at positions 2i (high nibble) and 2i+1 (low nibble). */
  lemma {:induction false} EncodeAt(bs: seq<uint8>, i: nat)
    requires i < |bs|
    ensures Encode(bs)[2 * i] == DigitChar(HighNibble(bs[i]))
    ensures Encode(bs)[2 * i + 1] == DigitChar(LowNibble(bs[i]))
  {
    if i > 0 {
      EncodeAt(bs[1..], i - 1);
    }
  }

  lemma {:induction false} DecodeEncode(bs: seq<uint8>)
    ensures Decode(Encode(bs)) == bs
  {
    if bs != [] {
      var s := Encode(bs);
      assert s[2..] == Encode(bs[1..]);
      DecodeEncode(bs[1..]);
      var b := bs[0];
      assert DigitValue(s[0]) * 16 + DigitValue(s[1]) == b as int;
    }
  }

  lemma {:induction false} EncodeDecode(s: string)
    requires |s| % 2 == 0 && IsLowerHex(s)
    ensures Encode(Decode(s)) == s
  {
    if s != [] {
      EncodeDecode(s[2..]);
      var b := (DigitValue(s[0]) * 16 + DigitValue(s[1])) as uint8;
      assert HighNibble(b) == DigitValue(s[0]) && LowNibble(b) == DigitValue(s[1]);
      assert Decode(s)[1..] == Decode(s[2..]);
    }
  }

  /** Different byte strings never share a hex text. */
  lemma EncodeInjective(a: seq<uint8>, b: seq<uint8>)
    ensures Encode(a) == Encode(b) <==> a == b
  {
    if Encode(a) == Encode(b) {
      DecodeEncode(a);
      DecodeEncode(b);
    }
  }
}
