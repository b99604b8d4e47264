/**
 Lowercase base16 (the alphabet of section 8 of RFC 4648 with lowercase
 letters), as written by Node's `Buffer.prototype.toString('hex')`.
 */
module Hex {
  import opened Options

  type byte = x: int | 0 <= x < 256

  /** The digit of a nibble: `0`-`9`, then `a`-`f`. */
  function HexChar(d: int): (c: char)
    requires 0 <= d < 16
    ensures IsHexChar(c)
  {
    if d < 10 then ('0' as int + d) as char else ('a' as int + d - 10) as char
  }

  predicate IsHexChar(c: char) {
    '0' <= c <= '9' || 'a' <= c <= 'f'
  }

  predicate IsHexString(s: string) {
    forall k | 0 <= k < |s| :: IsHexChar(s[k])
  }

  /** The value of a lowercase hex digit; uppercase and other characters are rejected. */
  function HexDigitValue(c: char): (r: Option<int>)
    ensures r.Some? <==> IsHexChar(c)
    ensures r.Some? ==> 0 <= r.value < 16 && HexChar(r.value) == c
  {
    if '0' <= c <= '9' then Some(c as int - '0' as int)
    else if 'a' <= c <= 'f' then Some(c as int - 'a' as int + 10)
    else None
  }

  /** Two characters per byte, high nibble first. */
  function Encode(bytes: seq<byte>): (s: string)
    ensures |s| == 2 * |bytes| && IsHexString(s)
  {
    if bytes == [] then ""
    else [HexChar(bytes[0] / 16), HexChar(bytes[0] % 16)] + Encode(bytes[1..])
  }

  /** The bytes of a string of lowercase hex pairs; None for an odd length or
      any other character. */
  function Decode(s: string): (r: Option<seq<byte>>)
    ensures r.Some? ==> 2 * |r.value| == |s|
    decreases |s|
  {
    if s == "" then Some([])
    else if |s| == 1 then None
    else
      match (HexDigitValue(s[0]), HexDigitValue(s[1]), Decode(s[2..]))
      case (Some(hi), Some(lo), Some(rest)) => Some([16 * hi + lo] + rest)
      case _ => None
  }

  lemma {:induction false} DecodeEncode(bytes: seq<byte>)
    ensures Decode(Encode(bytes)) == Some(bytes)
  {
    if bytes != [] {
      var s := Encode(bytes);
      assert s[2..] == Encode(bytes[1..]);
      assert HexDigitValue(s[0]) == Some(bytes[0] / 16) && HexDigitValue(s[1]) == Some(bytes[0] % 16);
      DecodeEncode(bytes[1..]);
      assert [bytes[0]] + bytes[1..] == bytes;
    }
  }

  lemma {:induction false} EncodeDecode(s: string)
    requires Decode(s).Some?
    ensures Encode(Decode(s).value) == s
    decreases |s|
  {
    if s != "" {
      EncodeDecode(s[2..]);
      var hi, lo := HexDigitValue(s[0]).value, HexDigitValue(s[1]).value;
      assert (16 * hi + lo) / 16 == hi && (16 * hi + lo) % 16 == lo;
      assert s == [s[0], s[1]] + s[2..];
    }
  }

  /** A string decodes exactly when it is an even-length lowercase hex string. */
  lemma {:induction false} DecodeDefined(s: string)
    ensures Decode(s).Some? <==> |s| % 2 == 0 && IsHexString(s)
    decreases |s|
  {
    if |s| >= 2 {
      DecodeDefined(s[2..]);
      assert IsHexString(s) <==> IsHexChar(s[0]) && IsHexChar(s[1]) && IsHexString(s[2..]) by {
        assert forall k | 2 <= k < |s| :: s[k] == s[2..][k - 2];
      }
    }
  }

  lemma EncodeInjective(a: seq<byte>, b: seq<byte>)
    requires Encode(a) == Encode(b)
    ensures a == b
  {
    DecodeEncode(a);
    DecodeEncode(b);
  }

  /** `crypto.randomBytes(32).toString('hex')` for the 32 bytes the random
      source produced: 64 lowercase hex characters that decode back to them. */
  function RandomHexString(random: seq<byte>): (s: string)
    requires |random| == 32
    ensures |s| == 64 && IsHexString(s)
    ensures Decode(s) == Some(random)
  {
    DecodeEncode(random);
    Encode(random)
  }
}
