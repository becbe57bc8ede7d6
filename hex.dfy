/**
 * `hex::encode`: the Base16 encoding of section 8 of RFC 4648, written with
 * lowercase digits, and its inverse.
 */
module Hex {
  import opened Base

  const Digits: string := "0123456789abcdef"

  predicate IsLowerHexDigit(c: char) { '0' <= c <= '9' || 'a' <= c <= 'f' }

  predicate IsLowerHex(s: string)
  {
    forall i :: 0 <= i < |s| ==> IsLowerHexDigit(s[i])
  }

  function DigitValue(c: char): (v: Option<nat>)
    ensures v.Some? <==> IsLowerHexDigit(c)
    ensures v.Some? ==> v.value < 16 && Digits[v.value] == c
  {
    if '0' <= c <= '9' then Some(c as nat - '0' as nat)
    else if 'a' <= c <= 'f' then Some(c as nat - 'a' as nat + 10)
    else None
  }

  /** Two lowercase hex digits per byte, high nibble first. */
  function Encode(d: seq<byte>): (s: string)
    ensures |s| == 2 * |d|
    ensures IsLowerHex(s)
  {
    if d == [] then ""
    else [Digits[d[0] as nat / 16], Digits[d[0] as nat % 16]] + Encode(d[1..])
  }

  /** The bytes whose encoding is `s`, or `None` when `s` is not such an encoding. */
  function Decode(s: string): (r: Option<seq<byte>>)
    ensures r.Some? ==> 2 * |r.value| == |s|
    decreases |s|
  {
    if s == [] then Some([])
    else if |s| == 1 then None
    else
      match (DigitValue(s[0]), DigitValue(s[1]), Decode(s[2..]))
      case (Some(hi), Some(lo), Some(rest)) => Some([(16 * hi + lo) as byte] + rest)
      case _ => None
  }

  /** Decoding an encoding gives back the bytes. */
  lemma {:induction false} DecodeEncode(d: seq<byte>)
    ensures Decode(Encode(d)) == Some(d)
  {
    if d != [] {
      var s := Encode(d);
      var hi, lo := d[0] as nat / 16, d[0] as nat % 16;
      assert s[0] == Digits[hi] && s[1] == Digits[lo];
      assert DigitValue(s[0]) == Some(hi);
      assert DigitValue(s[1]) == Some(lo);
      assert s[2..] == Encode(d[1..]);
      DecodeEncode(d[1..]);
      assert [d[0]] + d[1..] == d;
    }
  }

  /** Encoding what decodes gives back the string: `Decode` accepts exactly the encodings. */
  lemma {:induction false} EncodeDecode(s: string)
    requires Decode(s).Some?
    ensures Encode(Decode(s).value) == s
    decreases |s|
  {
    if s != [] {
      var hi, lo := DigitValue(s[0]).value, DigitValue(s[1]).value;
      var rest := Decode(s[2..]).value;
      EncodeDecode(s[2..]);
      var b := (16 * hi + lo) as byte;
      assert b as nat / 16 == hi && b as nat % 16 == lo;
      assert Decode(s).value == [b] + rest;
      assert ([b] + rest)[1..] == rest;
      assert s == [s[0], s[1]] + s[2..];
    }
  }

  /** Different digests have different encodings. */
  lemma EncodeInjective(a: seq<byte>, b: seq<byte>)
    requires Encode(a) == Encode(b)
    ensures a == b
  {
    DecodeEncode(a);
    DecodeEncode(b);
  }
}
