/** Decimal text of 32-bit integers: the parser the loader applies to the weight
    field of an edge line (Java's Integer.parseInt with radix 10) and the
    rendering the solver applies to its answer (Java's Integer.toString). */
module Decimal {
  import opened Wrappers

  const INT_MIN: int := -0x8000_0000
  const INT_MAX: int := 0x7fff_ffff

  predicate IsInt32(x: int) {
    INT_MIN <= x <= INT_MAX
  }

  predicate IsDigit(c: char) {
    '0' <= c <= '9'
  }

  predicate AllDigits(s: string) {
    forall i :: 0 <= i < |s| ==> IsDigit(s[i])
  }

  /** The value of a string of decimal digits, most significant digit first. */
  function DigitsValue(s: string): (v: nat)
    requires AllDigits(s)
  {
    if |s| == 0 then 0
    else DigitsValue(s[..|s| - 1]) * 10 + (s[|s| - 1] - '0') as int
  }

  /** Integer.parseInt(s): an optional '+' or '-' followed by at least one digit,
      whose value fits in 32 bits; anything else is a NumberFormatException,
      here None. */
  function ParseInt(s: string): (r: Option<int>)
    ensures r.Some? ==> IsInt32(r.value)
    ensures r.Some? ==> |s| > 0
    ensures r.Some? && (s[0] == '-' || s[0] == '+') ==> |s| > 1 && AllDigits(s[1..])
    ensures r.Some? && s[0] != '-' && s[0] != '+' ==> AllDigits(s)
  {
    if |s| == 0 then None
    else
      var negative := s[0] == '-';
      var digits := if s[0] == '-' || s[0] == '+' then s[1..] else s;
      if |digits| == 0 || !AllDigits(digits) then None
      else
        var v: int := if negative then -(DigitsValue(digits) as int) else DigitsValue(digits);
        if IsInt32(v) then Some(v) else None
  }

  function DigitChar(d: nat): (c: char)
    requires d < 10
    ensures IsDigit(c) && (c - '0') as int == d
  {
    ['0', '1', '2', '3', '4', '5', '6', '7', '8', '9'][d]
  }

  /** The shortest decimal text of a natural number. */
  function NatToString(n: nat): (s: string)
    ensures |s| > 0 && AllDigits(s)
  {
    if n < 10 then [DigitChar(n)]
    else NatToString(n / 10) + [DigitChar(n % 10)]
  }

  /** Integer.toString(x): a '-' for negative values, then the digits of |x|. */
  function IntToString(x: int): (s: string)
    ensures |s| > 0
    ensures x < 0 <==> s[0] == '-'
  {
    if x < 0 then "-" + NatToString(-x) else NatToString(x)
  }

  lemma {:induction false} NatToStringValue(n: nat)
    ensures DigitsValue(NatToString(n)) == n
  {
    var s := NatToString(n);
    if n >= 10 {
      NatToStringValue(n / 10);
      assert s[..|s| - 1] == NatToString(n / 10);
    }
  }

  /** Rendering then parsing gives back every 32-bit value. */
  lemma ParseIntOfIntToString(x: int)
    requires IsInt32(x)
    ensures ParseInt(IntToString(x)) == Some(x)
  {
    if x < 0 {
      ParseNegative(x);
    } else {
      ParseNonNegative(x);
    }
  }

  /** Integer.parseInt case by case: unsigned, '+' and '-' digit strings give
      their signed value when it fits in 32 bits and are refused when it does
      not; every other text is refused. */
  lemma ParseIntValue(s: string)
    ensures |s| > 0 && AllDigits(s) ==>
      ParseInt(s) == if DigitsValue(s) <= INT_MAX then Some(DigitsValue(s) as int) else None
    ensures |s| > 1 && s[0] == '+' && AllDigits(s[1..]) ==>
      ParseInt(s) == if DigitsValue(s[1..]) <= INT_MAX then Some(DigitsValue(s[1..]) as int) else None
    ensures |s| > 1 && s[0] == '-' && AllDigits(s[1..]) ==>
      ParseInt(s) == if DigitsValue(s[1..]) <= -INT_MIN then Some(-(DigitsValue(s[1..]) as int)) else None
    ensures !(|s| > 0 && AllDigits(s)) && !(|s| > 1 && (s[0] == '+' || s[0] == '-') && AllDigits(s[1..])) ==>
      ParseInt(s) == None
  {
    if |s| > 0 && AllDigits(s) {
      assert IsDigit(s[0]);
    }
  }

  /** A '-' before a digit string parses to the negated value, when it fits. */
  lemma ParseMinusDigits(t: string)
    requires |t| > 0 && AllDigits(t) && DigitsValue(t) <= -INT_MIN
    ensures ParseInt("-" + t) == Some(-(DigitsValue(t) as int))
  {
    assert ("-" + t)[1..] == t;
  }

  /** A digit string parses to its value, when it fits. */
  lemma ParsePlainDigits(t: string)
    requires |t| > 0 && AllDigits(t) && DigitsValue(t) <= INT_MAX
    ensures ParseInt(t) == Some(DigitsValue(t) as int)
  {
    assert IsDigit(t[0]);
  }

  lemma ParseNegative(x: int)
    requires INT_MIN <= x < 0
    ensures ParseInt("-" + NatToString(-x)) == Some(x)
  {
    NatToStringValue(-x);
    ParseMinusDigits(NatToString(-x));
  }

  lemma ParseNonNegative(x: int)
    requires 0 <= x <= INT_MAX
    ensures ParseInt(NatToString(x)) == Some(x)
  {
    NatToStringValue(x);
    ParsePlainDigits(NatToString(x));
  }
}
