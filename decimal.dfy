/**
 * Decimal rendering of integers as Rust's `to_string` and `format!("{}")`
 * produce it: shortest form, no padding, `-` before negative values.
 * ParseNat and ParseInt read such text back.
 */
module Decimal {
  import opened Wrappers

  predicate IsDigit(c: char) {
    '0' <= c <= '9'
  }

  predicate AllDigits(s: string) {
    forall i :: 0 <= i < |s| ==> IsDigit(s[i])
  }

  function DigitValue(c: char): (d: nat)
    requires IsDigit(c)
    ensures d < 10
  {
    c as int - '0' as int
  }

  function DigitChar(d: nat): (c: char)
    requires d < 10
    ensures IsDigit(c) && DigitValue(c) == d
  {
    ('0' as int + d) as char
  }

  /** The decimal text of a non-negative integer. */
  function NatToString(n: nat): (r: string)
    ensures |r| >= 1 && AllDigits(r)
    ensures r[0] == '0' ==> r == "0"
  {
    if n < 10 then [DigitChar(n)] else NatToString(n / 10) + [DigitChar(n % 10)]
  }

  /**
   * The decimal text of a signed integer: `-` exactly for negative values,
   * then digits with no leading zero, except for zero itself.
   */
  function IntToString(n: int): (r: string)
    ensures |r| >= 1
    ensures r[0] == '-' <==> n < 0
    ensures n < 0 ==> |r| >= 2 && AllDigits(r[1..]) && r[1] != '0'
    ensures n >= 0 ==> AllDigits(r) && (r[0] == '0' ==> r == "0")
  {
    if n < 0 then
      var m: nat := -n;
      assert NatToString(m)[0] != '0' by {
        NatToStringValue(m);
      }
      var r := "-" + NatToString(m);
      assert r[1..] == NatToString(m);
      r
    else NatToString(n)
  }

  /** The value of a run of digits, most significant first. */
  function DigitsValue(s: string): nat
    requires AllDigits(s)
  {
    if |s| == 0 then 0 else DigitsValue(s[..|s| - 1]) * 10 + DigitValue(s[|s| - 1])
  }

  /** Reads the decimal text of a natural number; a leading zero is accepted only in `0`. */
  function ParseNat(s: string): Option<nat> {
    if |s| >= 1 && AllDigits(s) && (s[0] == '0' ==> |s| == 1) then Some(DigitsValue(s)) else None
  }

  /** Reads the decimal text of an integer; `-` must be followed by a non-zero leading digit. */
  function ParseInt(s: string): Option<int> {
    if |s| >= 2 && s[0] == '-' && AllDigits(s[1..]) && s[1] != '0' then
      var v: int := 0 - DigitsValue(s[1..]) as int;
      Some(v)
    else match ParseNat(s)
      case Some(n) => Some(n)
      case None => None
  }

  lemma {:induction false} NatToStringValue(n: nat)
    ensures DigitsValue(NatToString(n)) == n
  {
    if n >= 10 {
      NatToStringValue(n / 10);
      var s := NatToString(n);
      assert s[..|s| - 1] == NatToString(n / 10);
    }
  }

  /** Reading the text of a natural number gives the number back. */
  lemma NatRoundTrip(n: nat)
    ensures ParseNat(NatToString(n)) == Some(n)
  {
    NatToStringValue(n);
  }

  /** Reading the text of an integer gives the integer back. */
  lemma IntRoundTrip(n: int)
    ensures ParseInt(IntToString(n)) == Some(n)
  {
    var s := IntToString(n);
    if n < 0 {
      var m: nat := -n;
      NatToStringValue(m);
      assert s == "-" + NatToString(m);
      assert s[1..] == NatToString(m);
      assert ParseInt(s) == Some(0 - DigitsValue(s[1..]) as int);
    } else {
      NatToStringValue(n);
      assert s == NatToString(n);
      assert s[0] != '-';
      assert ParseNat(s) == Some(n);
    }
  }

  /** A run of digits that does not start with `0` has a positive value. */
  lemma {:induction false} LeadingDigitPositive(s: string)
    requires |s| >= 1 && AllDigits(s) && s[0] != '0'
    ensures DigitsValue(s) >= 1
  {
    if |s| > 1 {
      LeadingDigitPositive(s[..|s| - 1]);
    }
  }

  /** The only text ParseNat reads as `n` is the text NatToString writes for it. */
  lemma {:induction false} NatCanonical(s: string, n: nat)
    requires ParseNat(s) == Some(n)
    ensures s == NatToString(n)
  {
    if |s| == 1 {
      assert DigitChar(DigitValue(s[0])) == s[0];
    } else {
      var p := s[..|s| - 1];
      var v := DigitsValue(p);
      assert p[0] == s[0];
      LeadingDigitPositive(p);
      assert ParseNat(p) == Some(v);
      NatCanonical(p, v);
      var d := DigitValue(s[|s| - 1]);
      assert n == v * 10 + d;
      assert n / 10 == v && n % 10 == d;
      assert DigitChar(d) == s[|s| - 1];
      assert s == p + [s[|s| - 1]];
    }
  }

  /** The only text ParseInt reads as `n` is the text IntToString writes for it. */
  lemma IntCanonical(s: string, n: int)
    requires ParseInt(s) == Some(n)
    ensures s == IntToString(n)
  {
    if |s| >= 2 && s[0] == '-' && AllDigits(s[1..]) && s[1] != '0' {
      var t := s[1..];
      var m := DigitsValue(t);
      LeadingDigitPositive(t);
      assert ParseNat(t) == Some(m);
      NatCanonical(t, m);
      assert n == 0 - m as int;
      assert s == "-" + t;
    } else {
      assert ParseNat(s) == Some(n);
      NatCanonical(s, n);
    }
  }

  /** Distinct texts never read as the same integer. */
  lemma ParseIntInjective(s: string, t: string)
    requires ParseInt(s).Some? && ParseInt(s) == ParseInt(t)
    ensures s == t
  {
    IntCanonical(s, ParseInt(s).value);
    IntCanonical(t, ParseInt(t).value);
  }
}
