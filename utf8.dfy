/**
 * UTF-8 (RFC 3629), as Rust's `str::as_bytes` exposes it: the client hands
 * the secret and the signing input to the MAC as bytes, and the form
 * serializer percent-encodes the bytes of each name and value.
 */
module Utf8 {
  import opened Wrappers

  type byte = x: int | 0 <= x < 0x100

  /** The code points a Rust `char` (and a Dafny `char`) can hold. */
  predicate IsScalarValue(n: int) {
    0 <= n < 0xD800 || 0xE000 <= n < 0x11_0000
  }

  predicate IsContinuation(b: byte) {
    0x80 <= b < 0xC0
  }

  predicate IsAscii(s: string) {
    forall i :: 0 <= i < |s| ==> s[i] as int < 0x80
  }

  /** The one to four bytes that encode `c` (RFC 3629, section 3). */
  function EncodeChar(c: char): (r: seq<byte>)
    ensures 1 <= |r| <= 4
    ensures |r| == 1 <==> c as int < 0x80
    ensures forall i :: 1 <= i < |r| ==> IsContinuation(r[i])
  {
    var n := c as int;
    if n < 0x80 then [n]
    else if n < 0x800 then [0xC0 + n / 0x40, 0x80 + n % 0x40]
    else if n < 0x1_0000 then [0xE0 + n / 0x1000, 0x80 + n / 0x40 % 0x40, 0x80 + n % 0x40]
    else [0xF0 + n / 0x4_0000, 0x80 + n / 0x1000 % 0x40, 0x80 + n / 0x40 % 0x40, 0x80 + n % 0x40]
  }

  /** The bytes of a string: the encodings of its characters, in order. */
  function Encode(s: string): (r: seq<byte>)
    ensures |s| <= |r| <= 4 * |s|
  {
    if |s| == 0 then [] else EncodeChar(s[0]) + Encode(s[1..])
  }

  /**
   * Reads one character from the front of `b`: the character and the
   * number of bytes it took, or None when the front is not the shortest
   * encoding of a scalar value.
   */
  function DecodeChar(b: seq<byte>): (r: Option<(char, nat)>)
    requires |b| >= 1
    ensures r.Some? ==> 1 <= r.value.1 <= |b|
  {
    var b0: int := b[0];
    if b0 < 0x80 then Some((b0 as char, 1))
    else if 0xC0 <= b0 < 0xE0 && |b| >= 2 && IsContinuation(b[1]) then
      var n: int := (b0 - 0xC0) * 0x40 + (b[1] as int - 0x80);
      if 0x80 <= n then Some((n as char, 2)) else None
    else if 0xE0 <= b0 < 0xF0 && |b| >= 3 && IsContinuation(b[1]) && IsContinuation(b[2]) then
      var n: int := (b0 - 0xE0) * 0x1000 + (b[1] as int - 0x80) * 0x40 + (b[2] as int - 0x80);
      if 0x800 <= n && IsScalarValue(n) then Some((n as char, 3)) else None
    else if 0xF0 <= b0 < 0xF8 && |b| >= 4 && IsContinuation(b[1]) && IsContinuation(b[2]) && IsContinuation(b[3]) then
      var n: int := (b0 - 0xF0) * 0x4_0000 + (b[1] as int - 0x80) * 0x1000 + (b[2] as int - 0x80) * 0x40 + (b[3] as int - 0x80);
      if 0x1_0000 <= n < 0x11_0000 then Some((n as char, 4)) else None
    else None
  }

  /** The string a byte sequence encodes, or None when it is not well-formed UTF-8. */
  function Decode(b: seq<byte>): Option<string>
    decreases |b|
  {
    if |b| == 0 then Some("")
    else match DecodeChar(b)
      case None => None
      case Some((c, k)) =>
        match Decode(b[k..])
        case None => None
        case Some(s) => Some([c] + s)
  }

  lemma DecodeEncodedChar(c: char, rest: seq<byte>)
    ensures DecodeChar(EncodeChar(c) + rest) == Some((c, |EncodeChar(c)|))
  {
    var n := c as int;
    var b := EncodeChar(c) + rest;
    if n < 0x80 {
    } else if n < 0x800 {
      assert (n / 0x40) * 0x40 + n % 0x40 == n;
    } else if n < 0x1_0000 {
      var q := n / 0x40;
      assert q * 0x40 + n % 0x40 == n;
      assert (q / 0x40) * 0x40 + q % 0x40 == q;
      assert q / 0x40 == n / 0x1000;
    } else {
      var q := n / 0x40;
      var p := q / 0x40;
      assert q * 0x40 + n % 0x40 == n;
      assert p * 0x40 + q % 0x40 == q;
      assert (p / 0x40) * 0x40 + p % 0x40 == p;
      assert p == n / 0x1000;
      assert p / 0x40 == n / 0x4_0000;
    }
  }

  /** Decoding the bytes of a string gives the string back. */
  lemma {:induction false} RoundTrip(s: string)
    ensures Decode(Encode(s)) == Some(s)
  {
    if |s| > 0 {
      var e := EncodeChar(s[0]);
      DecodeEncodedChar(s[0], Encode(s[1..]));
      assert (e + Encode(s[1..]))[|e|..] == Encode(s[1..]);
      RoundTrip(s[1..]);
      assert [s[0]] + s[1..] == s;
    }
  }

  /** Two strings with the same bytes are the same string. */
  lemma Injective(s: string, t: string)
    requires Encode(s) == Encode(t)
    ensures s == t
  {
    RoundTrip(s);
    RoundTrip(t);
  }

  lemma TwoByteFields(n: int, x: int, y: int)
    requires n == x * 0x40 + y && 0 <= y < 0x40
    ensures n / 0x40 == x && n % 0x40 == y
  {
  }

  lemma ThreeByteFields(n: int, x: int, y: int, z: int)
    requires n == (x * 0x40 + y) * 0x40 + z && 0 <= y < 0x40 && 0 <= z < 0x40
    ensures n / 0x1000 == x && n / 0x40 % 0x40 == y && n % 0x40 == z
  {
    TwoByteFields(n, x * 0x40 + y, z);
    TwoByteFields(x * 0x40 + y, x, y);
  }

  lemma FourByteFields(n: int, w: int, x: int, y: int, z: int)
    requires n == ((w * 0x40 + x) * 0x40 + y) * 0x40 + z
    requires 0 <= x < 0x40 && 0 <= y < 0x40 && 0 <= z < 0x40
    ensures n / 0x4_0000 == w && n / 0x1000 % 0x40 == x && n / 0x40 % 0x40 == y && n % 0x40 == z
  {
    ThreeByteFields(n, w * 0x40 + x, y, z);
    TwoByteFields(w * 0x40 + x, w, x);
    assert n / 0x4_0000 == n / 0x1000 / 0x40;
  }

  /** A well-formed first character is encoded by exactly the bytes it was read from. */
  lemma DecodeCharCanonical(b: seq<byte>, c: char, k: nat)
    requires |b| >= 1 && DecodeChar(b) == Some((c, k))
    ensures b[..k] == EncodeChar(c)
  {
    var b0: int := b[0];
    var n := c as int;
    if b0 < 0x80 {
    } else if k == 2 {
      TwoByteFields(n, b0 - 0xC0, b[1] as int - 0x80);
    } else if k == 3 {
      ThreeByteFields(n, b0 - 0xE0, b[1] as int - 0x80, b[2] as int - 0x80);
    } else {
      FourByteFields(n, b0 - 0xF0, b[1] as int - 0x80, b[2] as int - 0x80, b[3] as int - 0x80);
    }
  }

  /** The only bytes Decode reads as `s` are the bytes Encode writes for it. */
  lemma {:induction false} Canonical(b: seq<byte>, s: string)
    requires Decode(b) == Some(s)
    ensures b == Encode(s)
  {
    if |b| > 0 {
      var c, k := DecodeChar(b).value.0, DecodeChar(b).value.1;
      var rest := Decode(b[k..]).value;
      assert s == [c] + rest;
      DecodeCharCanonical(b, c, k);
      Canonical(b[k..], rest);
      assert s[1..] == rest;
      assert b == b[..k] + b[k..];
    }
  }

  /** An ASCII string is encoded one byte per character, each byte the character's code. */
  lemma {:induction false} AsciiEncode(s: string)
    requires IsAscii(s)
    ensures |Encode(s)| == |s|
    ensures forall i :: 0 <= i < |s| ==> Encode(s)[i] == s[i] as int
  {
    if |s| > 0 {
      AsciiEncode(s[1..]);
    }
  }
}
