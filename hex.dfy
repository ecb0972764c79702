/**
 * Lowercase hexadecimal text of a byte string (what the `hex` crate's
 * `encode` returns), and its reading.
 */
module Hex {
  import opened Wrappers
  import Utf8

  type byte = Utf8.byte

  predicate IsLowerHexDigit(c: char) {
    '0' <= c <= '9' || 'a' <= c <= 'f'
  }

  function DigitChar(d: nat): (c: char)
    requires d < 16
    ensures IsLowerHexDigit(c)
  {
    if d < 10 then ('0' as int + d) as char else ('a' as int + d - 10) as char
  }

  function DigitValue(c: char): (r: Option<nat>)
    ensures r.Some? ==> r.value < 16
  {
    if '0' <= c <= '9' then Some(c as int - '0' as int)
    else if 'a' <= c <= 'f' then Some(c as int - 'a' as int + 10)
    else None
  }

  /** Two digits per byte, high nibble first. */
  function Encode(bytes: seq<byte>): (r: string)
    ensures |r| == 2 * |bytes|
    ensures forall i :: 0 <= i < |r| ==> IsLowerHexDigit(r[i])
  {
    if |bytes| == 0 then ""
    else [DigitChar(bytes[0] / 16), DigitChar(bytes[0] % 16)] + Encode(bytes[1..])
  }

  function Decode(s: string): Option<seq<byte>> {
    if |s| == 0 then Some([])
    else if |s| == 1 then None
    else match (DigitValue(s[0]), DigitValue(s[1]), Decode(s[2..]))
      case (Some(h), Some(l), Some(rest)) => Some([h * 16 + l] + rest)
      case _ => None
  }

  lemma DigitRoundTrip(d: nat)
    requires d < 16
    ensures DigitValue(DigitChar(d)) == Some(d)
  {
  }

  /** Reading the hex text of a byte string gives the bytes back. */
  lemma {:induction false} RoundTrip(bytes: seq<byte>)
    ensures Decode(Encode(bytes)) == Some(bytes)
  {
    if |bytes| > 0 {
      var b := bytes[0];
      DigitRoundTrip(b / 16);
      DigitRoundTrip(b % 16);
      RoundTrip(bytes[1..]);
      assert Encode(bytes)[2..] == Encode(bytes[1..]);
      assert [b] + bytes[1..] == bytes;
    }
  }

  lemma DigitCanonical(c: char)
    requires DigitValue(c).Some?
    ensures DigitChar(DigitValue(c).value) == c
  {
  }

  /** The only text Decode reads as `bytes` is the lowercase hex Encode writes for them. */
  lemma {:induction false} Canonical(s: string, bytes: seq<byte>)
    requires Decode(s) == Some(bytes)
    ensures s == Encode(bytes)
  {
    if |s| > 0 {
      var h, l := DigitValue(s[0]).value, DigitValue(s[1]).value;
      var rest := Decode(s[2..]).value;
      var b := h * 16 + l;
      assert bytes == [b] + rest;
      assert b / 16 == h && b % 16 == l;
      DigitCanonical(s[0]);
      DigitCanonical(s[1]);
      Canonical(s[2..], rest);
      assert bytes[1..] == rest;
      assert s == [s[0], s[1]] + s[2..];
    }
  }
}
