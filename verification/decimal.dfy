/**
  Python's `str()` of an integer: optional `-`, then decimal digits with no
  leading zero. The client formats mouse button numbers with it. The parser
  below is its inverse: it reads back exactly the strings `str()` prints.
 */
module Decimal {
  import opened Results

  predicate IsDigit(c: char) {
    '0' <= c <= '9'
  }

  function DigitChar(d: int): (c: char)
    requires 0 <= d < 10
    ensures IsDigit(c) && c as int - '0' as int == d
  {
    ('0' as int + d) as char
  }

  /** The shape `str()` gives a non-negative integer: a non-empty run of
      digits that starts with `0` only when it is `0` itself. */
  predicate IsNumeral(s: string) {
    1 <= |s| && (forall i :: 0 <= i < |s| ==> IsDigit(s[i])) && (|s| > 1 ==> s[0] != '0')
  }

  /** The decimal digits of `n`, most significant first. */
  function NatToDecimal(n: nat): (r: string)
    ensures IsNumeral(r)
    ensures r[0] == '0' <==> n == 0
    ensures n < 10 <==> |r| == 1
    decreases n
  {
    if n < 10 then [DigitChar(n)] else NatToDecimal(n / 10) + [DigitChar(n % 10)]
  }

  /** `str(n)` for any integer `n`: a `-` only before a numeral that is not
      `0`, so `-0` and leading zeros never appear. */
  function IntToDecimal(n: int): (r: string)
    ensures 1 <= |r|
    ensures r[0] == '-' <==> n < 0
    ensures n >= 0 ==> IsNumeral(r)
    ensures n < 0 ==> IsNumeral(r[1..]) && r[1] != '0'
  {
    if n < 0 then
      var m := NatToDecimal(-n);
      assert ("-" + m)[1..] == m;
      "-" + m
    else NatToDecimal(n)
  }

  /** The value of a non-empty run of digits. */
  function DigitsValue(s: string): (v: nat)
    requires 1 <= |s| && forall i :: 0 <= i < |s| ==> IsDigit(s[i])
    ensures s[0] != '0' ==> v > 0
    ensures |s| > 1 && s[0] != '0' ==> v >= 10
    decreases |s|
  {
    assert IsDigit(s[|s| - 1]);
    var d: nat := s[|s| - 1] as int - '0' as int;
    if |s| == 1 then d
    else
      var high := s[..|s| - 1];
      assert high[0] == s[0];
      DigitsValue(high) * 10 + d
  }

  /** Reads a numeral as `str()` writes it, rejecting leading zeros. */
  function ParseNat(s: string): (r: Option<nat>)
    ensures r.Some? <==> IsNumeral(s)
  {
    if IsNumeral(s) then Some(DigitsValue(s)) else None
  }

  /** Reads an integer as `str()` writes it: `-0` is rejected like any other
      form `str()` never produces. */
  function ParseInt(s: string): (r: Option<int>)
    ensures r.Some? && |s| > 0 && s[0] == '-' ==> r.value < 0
  {
    if |s| > 0 && s[0] == '-' then
      match ParseNat(s[1..])
      case None => None
      case Some(m) => if m == 0 then None else Some(0 - m as int)
    else
      match ParseNat(s)
      case None => None
      case Some(m) => Some(m)
  }

  lemma {:induction false} DigitsValueToDecimal(n: nat)
    ensures DigitsValue(NatToDecimal(n)) == n
    decreases n
  {
    if n >= 10 {
      var s := NatToDecimal(n);
      assert s[..|s| - 1] == NatToDecimal(n / 10);
      DigitsValueToDecimal(n / 10);
    }
  }

  /** A numeral is exactly what `str()` prints for its value. */
  lemma {:induction false} NatToDecimalOfNumeral(s: string)
    requires IsNumeral(s)
    ensures NatToDecimal(DigitsValue(s)) == s
    decreases |s|
  {
    if |s| > 1 {
      var high := s[..|s| - 1];
      assert IsNumeral(high);
      NatToDecimalOfNumeral(high);
      var n := DigitsValue(s);
      var d := s[|s| - 1] as int - '0' as int;
      assert n / 10 == DigitsValue(high) && n % 10 == d;
      assert s == high + [s[|s| - 1]];
    }
  }

  lemma ParseNatToDecimal(n: nat)
    ensures ParseNat(NatToDecimal(n)) == Some(n)
  {
    DigitsValueToDecimal(n);
  }

  /** Parsing what `str()` printed gives back the integer. */
  lemma ParseIntToDecimal(n: int)
    ensures ParseInt(IntToDecimal(n)) == Some(n)
  {
    if n < 0 {
      ParseNatToDecimal(-n);
      assert IntToDecimal(n)[1..] == NatToDecimal(-n);
    } else {
      ParseNatToDecimal(n);
    }
  }

  /** ... and the parser accepts nothing else: whatever it reads as `n` is
      `str(n)`, so no other spelling of a number gets through. */
  lemma DecimalOfParseInt(s: string, n: int)
    requires ParseInt(s) == Some(n)
    ensures s == IntToDecimal(n)
  {
    if |s| > 0 && s[0] == '-' {
      NatToDecimalOfNumeral(s[1..]);
      assert s == "-" + s[1..];
    } else {
      NatToDecimalOfNumeral(s);
    }
  }

  /** So two integers never print the same. */
  lemma IntToDecimalInjective(a: int, b: int)
    requires IntToDecimal(a) == IntToDecimal(b)
    ensures a == b
  {
    ParseIntToDecimal(a);
    ParseIntToDecimal(b);
  }
}
