/**
 * The `application/x-www-form-urlencoded` serializer of the WHATWG URL
 * Standard (section 5.2), as `serde_urlencoded::to_string` applies it to a
 * list of (name, value) pairs: each name and value is UTF-8 encoded and
 * percent-encoded byte by byte, a pair is written `name=value`, and pairs
 * are joined with `&` in the order given.
 *
 * Parse is a strict reader for exactly that output; the round trip
 * Parse(Serialize(p)) == Some(p) shows that the serialized text pins down
 * the list, order included.
 */
module FormUrlencoded {
  import opened Wrappers
  import Utf8
  import Separated

  type byte = Utf8.byte

  type Query = seq<(string, string)>

  /** Bytes written as themselves: ASCII alphanumerics and `*`, `-`, `.`, `_`. */
  predicate IsUnreserved(b: byte) {
    || 0x30 <= b <= 0x39
    || 0x41 <= b <= 0x5A
    || 0x61 <= b <= 0x7A
    || b == 0x2A || b == 0x2D || b == 0x2E || b == 0x5F
  }

  /** The characters serialized text is made of. */
  predicate IsSerializedChar(c: char) {
    (c as int < 0x80 && IsUnreserved(c as int)) || c == '+' || c == '%'
  }

  function UpperHexDigit(d: nat): (c: char)
    requires d < 16
    ensures IsSerializedChar(c)
  {
    "0123456789ABCDEF"[d]
  }

  function UpperHexValue(c: char): (r: Option<nat>)
    ensures r.Some? ==> r.value < 16
  {
    if '0' <= c <= '9' then Some(c as int - '0' as int)
    else if 'A' <= c <= 'F' then Some(c as int - 'A' as int + 10)
    else None
  }

  /** One byte: itself if unreserved, `+` for a space, otherwise `%` and two uppercase hex digits. */
  function SerializeByte(b: byte): (r: string)
    ensures 1 <= |r| <= 3
    ensures forall i :: 0 <= i < |r| ==> IsSerializedChar(r[i])
  {
    if IsUnreserved(b) then [b as char]
    else if b == 0x20 then "+"
    else ['%', UpperHexDigit(b / 16), UpperHexDigit(b % 16)]
  }

  /** The byte serializer: every byte in turn. */
  function ByteSerialize(bytes: seq<byte>): (r: string)
    ensures |bytes| <= |r| <= 3 * |bytes|
    ensures forall i :: 0 <= i < |r| ==> IsSerializedChar(r[i])
  {
    if |bytes| == 0 then "" else SerializeByte(bytes[0]) + ByteSerialize(bytes[1..])
  }

  /**
   * Reads one serialized byte from the front of `s`: the byte and the
   * characters it took. A `%` escape of a byte the serializer writes
   * otherwise (an unreserved byte or a space) is refused.
   */
  function ParseByte(s: string): (r: Option<(byte, nat)>)
    requires |s| >= 1
    ensures r.Some? ==> 1 <= r.value.1 <= |s|
  {
    if s[0] == '+' then Some((0x20, 1))
    else if s[0] == '%' then
      if |s| >= 3 && UpperHexValue(s[1]).Some? && UpperHexValue(s[2]).Some? then
        var b := UpperHexValue(s[1]).value * 16 + UpperHexValue(s[2]).value;
        if !IsUnreserved(b) && b != 0x20 then Some((b, 3)) else None
      else None
    else if s[0] as int < 0x80 && IsUnreserved(s[0] as int) then Some((s[0] as int, 1))
    else None
  }

  function ByteParse(s: string): Option<seq<byte>>
    decreases |s|
  {
    if |s| == 0 then Some([])
    else match ParseByte(s)
      case None => None
      case Some((b, k)) =>
        match ByteParse(s[k..])
        case None => None
        case Some(rest) => Some([b] + rest)
  }

  lemma ParseSerializedByte(b: byte, rest: string)
    ensures ParseByte(SerializeByte(b) + rest) == Some((b, |SerializeByte(b)|))
  {
    if !IsUnreserved(b) && b != 0x20 {
      var s := SerializeByte(b) + rest;
      assert UpperHexValue(s[1]) == Some(b / 16);
      assert UpperHexValue(s[2]) == Some(b % 16);
    }
  }

  lemma {:induction false} ByteRoundTrip(bytes: seq<byte>)
    ensures ByteParse(ByteSerialize(bytes)) == Some(bytes)
  {
    if |bytes| > 0 {
      var e := SerializeByte(bytes[0]);
      ParseSerializedByte(bytes[0], ByteSerialize(bytes[1..]));
      assert (e + ByteSerialize(bytes[1..]))[|e|..] == ByteSerialize(bytes[1..]);
      ByteRoundTrip(bytes[1..]);
      assert [bytes[0]] + bytes[1..] == bytes;
    }
  }

  /** A name or a value as it appears in the serialized text. */
  function EncodeString(s: string): (r: string)
    ensures '&' !in r && '=' !in r
  {
    ByteSerialize(Utf8.Encode(s))
  }

  function DecodeString(s: string): Option<string> {
    match ByteParse(s)
    case None => None
    case Some(bytes) => Utf8.Decode(bytes)
  }

  lemma StringRoundTrip(s: string)
    ensures DecodeString(EncodeString(s)) == Some(s)
  {
    ByteRoundTrip(Utf8.Encode(s));
    Utf8.RoundTrip(s);
  }

  /** `name=value`: the one `=` separates the encoded name from the encoded value. */
  function EncodePair(p: (string, string)): (r: string)
    ensures '&' !in r
    ensures Separated.Split(r, '=') == [EncodeString(p.0), EncodeString(p.1)]
  {
    var k, v := EncodeString(p.0), EncodeString(p.1);
    assert k + "=" + v == Separated.Join([k, v], '=');
    Separated.SplitJoin([k, v], '=');
    k + "=" + v
  }

  function EncodedPairs(params: Query): (r: seq<string>)
    ensures |r| == |params|
    ensures forall i :: 0 <= i < |r| ==> r[i] == EncodePair(params[i])
  {
    if |params| == 0 then [] else [EncodePair(params[0])] + EncodedPairs(params[1..])
  }

  /** The serialized list: `name=value` pairs joined with `&`, in the list's order. */
  function Serialize(params: Query): (r: string)
    ensures r == "" <==> params == []
  {
    var pairs := EncodedPairs(params);
    assert |pairs| > 0 ==> '=' in pairs[0];
    Separated.Join(pairs, '&')
  }

  function ParsePair(s: string): Option<(string, string)> {
    var kv := Separated.Split(s, '=');
    if |kv| != 2 then None
    else match (DecodeString(kv[0]), DecodeString(kv[1]))
      case (Some(k), Some(v)) => Some((k, v))
      case _ => None
  }

  function ParsePairs(parts: seq<string>): Option<Query> {
    if |parts| == 0 then Some([])
    else match (ParsePair(parts[0]), ParsePairs(parts[1..]))
      case (Some(p), Some(rest)) => Some([p] + rest)
      case _ => None
  }

  function Parse(s: string): Option<Query> {
    if s == "" then Some([]) else ParsePairs(Separated.Split(s, '&'))
  }

  lemma PairRoundTrip(p: (string, string))
    ensures ParsePair(EncodePair(p)) == Some(p)
  {
    StringRoundTrip(p.0);
    StringRoundTrip(p.1);
  }

  lemma {:induction false} PairsRoundTrip(params: Query)
    ensures ParsePairs(EncodedPairs(params)) == Some(params)
  {
    if |params| > 0 {
      PairRoundTrip(params[0]);
      PairsRoundTrip(params[1..]);
      assert EncodedPairs(params)[1..] == EncodedPairs(params[1..]);
      assert [params[0]] + params[1..] == params;
    }
  }

  /** Reading the serialized text gives back the list, in its order. */
  lemma RoundTrip(params: Query)
    ensures Parse(Serialize(params)) == Some(params)
  {
    if params != [] {
      Separated.SplitJoin(EncodedPairs(params), '&');
      PairsRoundTrip(params);
    }
  }

  /** Different lists, or the same pairs in another order, serialize differently. */
  lemma Injective(p: Query, q: Query)
    requires Serialize(p) == Serialize(q)
    ensures p == q
  {
    RoundTrip(p);
    RoundTrip(q);
  }

  /** The characters a well-formed serialized byte was read from are that byte's serialization. */
  lemma ParseByteCanonical(s: string, b: byte, k: nat)
    requires |s| >= 1 && ParseByte(s) == Some((b, k))
    ensures s[..k] == SerializeByte(b)
  {
    if s[0] == '%' {
      var h, l := UpperHexValue(s[1]).value, UpperHexValue(s[2]).value;
      assert b / 16 == h && b % 16 == l;
      assert UpperHexDigit(h) == s[1] && UpperHexDigit(l) == s[2];
    }
  }

  lemma {:induction false} ByteParseCanonical(s: string, bytes: seq<byte>)
    requires ByteParse(s) == Some(bytes)
    ensures s == ByteSerialize(bytes)
  {
    if |s| > 0 {
      var b, k := ParseByte(s).value.0, ParseByte(s).value.1;
      var rest := ByteParse(s[k..]).value;
      assert bytes == [b] + rest;
      ParseByteCanonical(s, b, k);
      ByteParseCanonical(s[k..], rest);
      assert bytes[1..] == rest;
      assert s == s[..k] + s[k..];
    }
  }

  /** The only text DecodeString reads as `t` is the encoding of `t`. */
  lemma StringCanonical(s: string, t: string)
    requires DecodeString(s) == Some(t)
    ensures s == EncodeString(t)
  {
    var bytes := ByteParse(s).value;
    ByteParseCanonical(s, bytes);
    Utf8.Canonical(bytes, t);
  }

  lemma PairCanonical(s: string, p: (string, string))
    requires ParsePair(s) == Some(p)
    ensures s == EncodePair(p)
  {
    var kv := Separated.Split(s, '=');
    Separated.JoinSplit(s, '=');
    StringCanonical(kv[0], p.0);
    StringCanonical(kv[1], p.1);
    Separated.JoinCons(kv[0], [kv[1]], '=');
    assert kv == [kv[0]] + [kv[1]];
  }

  lemma {:induction false} PairsCanonical(parts: seq<string>, q: Query)
    requires ParsePairs(parts) == Some(q)
    ensures parts == EncodedPairs(q)
  {
    if |parts| > 0 {
      var p, rest := ParsePair(parts[0]).value, ParsePairs(parts[1..]).value;
      assert q == [p] + rest;
      PairCanonical(parts[0], p);
      PairsCanonical(parts[1..], rest);
      assert q[1..] == rest;
      assert parts == [parts[0]] + parts[1..];
    }
  }

  /**
   * The only text Parse reads as `q` is the serialization of `q`: the
   * reader and the serializer are inverse bijections.
   */
  lemma Canonical(s: string, q: Query)
    requires Parse(s) == Some(q)
    ensures s == Serialize(q)
  {
    if s != "" {
      var parts := Separated.Split(s, '&');
      PairsCanonical(parts, q);
      Separated.JoinSplit(s, '&');
    }
  }

  /** Text every character of which the serializer writes as itself. */
  predicate IsPlain(s: string) {
    forall i :: 0 <= i < |s| ==> s[i] as int < 0x80 && IsUnreserved(s[i] as int)
  }

  predicate IsPlainQuery(q: Query) {
    forall i :: 0 <= i < |q| ==> IsPlain(q[i].0) && IsPlain(q[i].1)
  }

  /** `name=value` pairs joined with `&`, nothing escaped. */
  function PlainText(q: Query): string {
    if |q| == 0 then ""
    else if |q| == 1 then q[0].0 + "=" + q[0].1
    else q[0].0 + "=" + q[0].1 + "&" + PlainText(q[1..])
  }

  /** Plain text is serialized unchanged. */
  lemma {:induction false} UnreservedUnchanged(s: string)
    requires IsPlain(s)
    ensures EncodeString(s) == s
  {
    Utf8.AsciiEncode(s);
    UnreservedBytes(Utf8.Encode(s), s);
  }

  lemma {:induction false} UnreservedBytes(bytes: seq<byte>, s: string)
    requires |bytes| == |s|
    requires IsPlain(s)
    requires forall i :: 0 <= i < |s| ==> bytes[i] == s[i] as int
    ensures ByteSerialize(bytes) == s
  {
    if |s| > 0 {
      UnreservedBytes(bytes[1..], s[1..]);
      assert [s[0]] + s[1..] == s;
    }
  }

  /** On plain names and values the serializer adds only the `=` and `&` separators. */
  lemma {:induction false} SerializePlain(q: Query)
    requires IsPlainQuery(q)
    ensures Serialize(q) == PlainText(q)
  {
    if |q| > 0 {
      UnreservedUnchanged(q[0].0);
      UnreservedUnchanged(q[0].1);
      var pairs := EncodedPairs(q);
      if |q| > 1 {
        SerializePlain(q[1..]);
        assert pairs[1..] == EncodedPairs(q[1..]);
        Separated.JoinCons(pairs[0], pairs[1..], '&');
        assert [pairs[0]] + pairs[1..] == pairs;
      }
    }
  }
}
