/**
 * Bytes and their lowercase hexadecimal text (encoding/hex): the form in
 * which salts, password hashes and file digests are stored and compared.
 */
module Hex {
  import opened Wrappers

  type Byte = b: int | 0 <= b < 256
  type Bytes = seq<Byte>

  predicate IsLowerHexChar(c: char) {
    '0' <= c <= '9' || 'a' <= c <= 'f'
  }

  /** What hex.DecodeString accepts as one digit: either case. */
  predicate IsHexChar(c: char) {
    IsLowerHexChar(c) || 'A' <= c <= 'F'
  }

  predicate IsLowerHex(s: string) {
    forall i :: 0 <= i < |s| ==> IsLowerHexChar(s[i])
  }

  function HexDigit(n: nat): (c: char)
    requires n < 16
    ensures IsLowerHexChar(c)
  {
    if n < 10 then ('0' as int + n) as char else ('a' as int + n - 10) as char
  }

  function HexValue(c: char): (n: nat)
    requires IsHexChar(c)
    ensures n < 16
  {
    if '0' <= c <= '9' then c as int - '0' as int
    else if 'a' <= c <= 'f' then c as int - 'a' as int + 10
    else c as int - 'A' as int + 10
  }

  lemma HexDigitValue(n: nat)
    requires n < 16
    ensures HexValue(HexDigit(n)) == n
  {
  }

  /** hex.EncodeToString: two lowercase digits per byte, high nibble first. */
  function Encode(bs: Bytes): (s: string)
    ensures |s| == 2 * |bs|
    ensures IsLowerHex(s)
  {
    if bs == [] then ""
    else [HexDigit(bs[0] / 16), HexDigit(bs[0] % 16)] + Encode(bs[1..])
  }

  /** hex.DecodeString: None on odd length or on a character that is not a hex digit. */
  function Decode(s: string): (r: Option<Bytes>)
    ensures r.Some? ==> 2 * |r.value| == |s|
    decreases |s|
  {
    if s == [] then Some([])
    else if |s| == 1 || !IsHexChar(s[0]) || !IsHexChar(s[1]) then None
    else
      match Decode(s[2..])
      case None => None
      case Some(rest) => Some([HexValue(s[0]) * 16 + HexValue(s[1])] + rest)
  }

  /** Decoding undoes encoding. */
  lemma {:induction false} DecodeEncode(bs: Bytes)
    ensures Decode(Encode(bs)) == Some(bs)
  {
    if bs != [] {
      var s := Encode(bs);
      HexDigitValue(bs[0] / 16);
      HexDigitValue(bs[0] % 16);
      assert s[2..] == Encode(bs[1..]);
      DecodeEncode(bs[1..]);
      assert [bs[0]] + bs[1..] == bs;
    }
  }

  /** Two byte strings have the same hex text only if they are equal. */
  lemma EncodeInjective(a: Bytes, b: Bytes)
    requires Encode(a) == Encode(b)
    ensures a == b
  {
    DecodeEncode(a);
    DecodeEncode(b);
  }
}
