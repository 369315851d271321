/**
 * The two string-to-bytes conversions the verifier relies on: `Buffer.from(s)`
 * (UTF-8, RFC 3629) and Node's `'hex'` digest encoding (two lower-case
 * hexadecimal digits per byte).
 */
module Encoding {
  import opened Wrappers

  newtype byte = b: int | 0 <= b < 0x100

  predicate IsAsciiChar(c: char) { c as int < 0x80 }

  predicate IsAscii(s: string) {
    forall i :: 0 <= i < |s| ==> IsAsciiChar(s[i])
  }

  /** UTF-8 encoding of one Unicode scalar value (section 3 of RFC 3629). */
  function EncodeChar(c: char): (bs: seq<byte>)
    ensures 1 <= |bs| <= 4
    ensures |bs| == 1 <==> IsAsciiChar(c)
    ensures bs[0] < 0x80 <==> IsAsciiChar(c)
    ensures IsAsciiChar(c) ==> bs[0] as int == c as int
  {
    var n := c as int;
    if n < 0x80 then [n as byte]
    else if n < 0x800 then
      [(0xC0 + n / 0x40) as byte, (0x80 + n % 0x40) as byte]
    else if n < 0x1_0000 then
      [(0xE0 + n / 0x1000) as byte, (0x80 + n / 0x40 % 0x40) as byte, (0x80 + n % 0x40) as byte]
    else
      [(0xF0 + n / 0x4_0000) as byte, (0x80 + n / 0x1000 % 0x40) as byte,
       (0x80 + n / 0x40 % 0x40) as byte, (0x80 + n % 0x40) as byte]
  }

  /** `Buffer.from(s)`: the UTF-8 bytes of a string. */
  function Utf8Encode(s: string): (bs: seq<byte>)
    ensures |bs| >= |s|
    ensures |bs| == |s| <==> IsAscii(s)
    ensures s == [] <==> bs == []
  {
    if s == [] then []
    else
      var rest := Utf8Encode(s[1..]);
      assert IsAscii(s) <==> IsAsciiChar(s[0]) && IsAscii(s[1..]) by {
        if IsAsciiChar(s[0]) && IsAscii(s[1..]) {
          forall i | 0 <= i < |s| ensures IsAsciiChar(s[i]) {
            if i > 0 { assert s[i] == s[1..][i - 1]; }
          }
        }
      }
      EncodeChar(s[0]) + rest
  }

  /** An ASCII string encodes to its own code points, one byte each. */
  lemma {:induction false} Utf8EncodeAscii(s: string)
    requires IsAscii(s)
    ensures |Utf8Encode(s)| == |s|
    ensures forall i :: 0 <= i < |s| ==> Utf8Encode(s)[i] as int == s[i] as int
  {
    if s != [] {
      assert IsAscii(s[1..]) by {
        forall i | 0 <= i < |s| - 1 ensures IsAsciiChar(s[1..][i]) { assert s[1..][i] == s[i + 1]; }
      }
      Utf8EncodeAscii(s[1..]);
      assert IsAsciiChar(s[0]);
      forall i | 0 <= i < |s| ensures Utf8Encode(s)[i] as int == s[i] as int {
        if i > 0 { assert Utf8Encode(s)[i] == Utf8Encode(s[1..])[i - 1]; }
      }
    }
  }

  /**
   * Comparing the UTF-8 bytes of any string with those of an ASCII string
   * is the same as comparing the two strings.
   */
  lemma {:induction false} Utf8MatchesAscii(s: string, t: string)
    requires IsAscii(t)
    ensures Utf8Encode(s) == Utf8Encode(t) <==> s == t
  {
    if Utf8Encode(s) == Utf8Encode(t) && t != [] {
      var bs := Utf8Encode(s);
      assert s != [];
      assert IsAsciiChar(t[0]);
      assert bs[0] == EncodeChar(t[0])[0] == EncodeChar(s[0])[0];
      assert IsAsciiChar(s[0]);
      assert s[0] == t[0] by {
        assert s[0] as int == bs[0] as int == t[0] as int;
      }
      assert Utf8Encode(s[1..]) == bs[1..] == Utf8Encode(t[1..]);
      assert IsAscii(t[1..]) by {
        forall i | 0 <= i < |t| - 1 ensures IsAsciiChar(t[1..][i]) { assert t[1..][i] == t[i + 1]; }
      }
      Utf8MatchesAscii(s[1..], t[1..]);
      assert s == [s[0]] + s[1..] && t == [t[0]] + t[1..];
    }
  }

  predicate IsLowerHexDigit(c: char) {
    '0' <= c <= '9' || 'a' <= c <= 'f'
  }

  /** Node's `digest('hex')`: two lower-case hexadecimal digits per byte, high nibble first. */
  function HexEncode(bytes: seq<byte>): (s: string)
    ensures |s| == 2 * |bytes|
    ensures forall i :: 0 <= i < |s| ==> IsLowerHexDigit(s[i])
  {
    if bytes == [] then ""
    else
      var b := bytes[0] as int;
      [HexDigit(b / 16), HexDigit(b % 16)] + HexEncode(bytes[1..])
  }

  /** The lower-case hexadecimal digit for a value below 16. */
  function HexDigit(d: nat): (c: char)
    requires d < 16
    ensures IsLowerHexDigit(c)
  {
    if d < 10 then ('0' as int + d) as char else ('a' as int + d - 10) as char
  }

  /** The value of one lower-case hexadecimal digit. */
  function HexDigitValue(c: char): (v: Option<nat>)
    ensures v.Some? <==> IsLowerHexDigit(c)
    ensures v.Some? ==> v.value < 16 && HexDigit(v.value) == c
  {
    if '0' <= c <= '9' then Some(c as int - '0' as int)
    else if 'a' <= c <= 'f' then Some(c as int - 'a' as int + 10)
    else None
  }

  /** The inverse of HexEncode: reads pairs of lower-case digits back into bytes. */
  function HexDecode(s: string): (r: Option<seq<byte>>)
    decreases |s|
  {
    if s == [] then Some([])
    else if |s| < 2 then None
    else
      match (HexDigitValue(s[0]), HexDigitValue(s[1]), HexDecode(s[2..]))
      case (Some(hi), Some(lo), Some(rest)) => Some([(hi * 16 + lo) as byte] + rest)
      case _ => None
  }

  lemma HexDigitRoundTrip(d: nat)
    requires d < 16
    ensures HexDigitValue(HexDigit(d)) == Some(d)
  {
  }

  lemma ByteNibbles(b: byte)
    ensures b as int / 16 < 16 && b as int % 16 < 16
    ensures (b as int / 16 * 16 + b as int % 16) as byte == b
  {
  }

  /** Hex encoding loses nothing: decoding gives back the bytes. */
  lemma {:induction false} HexRoundTrip(bytes: seq<byte>)
    ensures HexDecode(HexEncode(bytes)) == Some(bytes)
  {
    if bytes != [] {
      var hi, lo := bytes[0] as int / 16, bytes[0] as int % 16;
      ByteNibbles(bytes[0]);
      HexDigitRoundTrip(hi);
      HexDigitRoundTrip(lo);
      var s := HexEncode(bytes);
      assert s == [HexDigit(hi), HexDigit(lo)] + HexEncode(bytes[1..]);
      assert s[2..] == HexEncode(bytes[1..]);
      HexRoundTrip(bytes[1..]);
      assert HexDecode(s) == Some([(hi * 16 + lo) as byte] + bytes[1..]);
      assert bytes == [bytes[0]] + bytes[1..];
    }
  }

  /** Distinct byte strings have distinct hex encodings. */
  lemma HexInjective(a: seq<byte>, b: seq<byte>)
    ensures HexEncode(a) == HexEncode(b) <==> a == b
  {
    HexRoundTrip(a);
    HexRoundTrip(b);
  }
}
