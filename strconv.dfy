/**
 * Go's 64-bit `int` and the decimal conversion `strconv.Atoi` that the todo
 * commands apply to the ID argument. `Atoi` accepts an optional `+` or `-`
 * followed by one or more ASCII digits, and fails when the value does not fit
 * in 64 bits. `Itoa` is its inverse on every 64-bit value.
 */
module Strconv {
  import opened Wrappers

  const MinInt64: int := -0x8000_0000_0000_0000
  const MaxInt64: int := 0x7fff_ffff_ffff_ffff
  const Modulus64: int := 0x1_0000_0000_0000_0000

  /** Go's `int` on a 64-bit platform. */
  type Int64 = x: int | MinInt64 <= x <= MaxInt64

  /** Two's-complement wrap-around of an unbounded integer into 64 bits, as Go's `+` does. */
  function Wrap64(x: int): (r: Int64)
    ensures MinInt64 <= x <= MaxInt64 ==> r == x
    ensures (r - x) % Modulus64 == 0
  {
    (x - MinInt64) % Modulus64 + MinInt64
  }

  predicate IsDigit(c: char) {
    '0' <= c <= '9'
  }

  predicate AllDigits(s: string) {
    forall i :: 0 <= i < |s| ==> IsDigit(s[i])
  }

  function DigitValue(c: char): (d: nat)
    requires IsDigit(c)
    ensures d < 10
  {
    c as int - '0' as int
  }

  function DigitChar(d: nat): (c: char)
    requires d < 10
    ensures IsDigit(c) && DigitValue(c) == d
  {
    ('0' as int + d) as char
  }

  /** The value of a string of decimal digits, most significant first. */
  function DigitsValue(s: string): (v: nat)
    requires AllDigits(s)
  {
    if |s| == 0 then 0 else 10 * DigitsValue(s[..|s| - 1]) + DigitValue(s[|s| - 1])
  }

  /** `strconv.Atoi`: an optional sign, then at least one digit, then a value within 64 bits. */
  function Atoi(s: string): (r: Option<Int64>)
    ensures r.Some? ==> |s| > 0 && (IsDigit(s[0]) || s[0] == '+' || s[0] == '-')
    ensures r.Some? ==> AllDigits(s[1..])
    ensures r.Some? && r.value < 0 ==> s[0] == '-'
  {
    if |s| == 0 then None
    else
      var digits := if s[0] == '-' || s[0] == '+' then s[1..] else s;
      if |digits| == 0 || !AllDigits(digits) then None
      else
        var v: int := if s[0] == '-' then -(DigitsValue(digits) as int) else DigitsValue(digits);
        if MinInt64 <= v <= MaxInt64 then Some(v) else None
  }

  /** The shortest decimal spelling of a natural number. */
  function NatToDigits(n: nat): (s: string)
    ensures |s| > 0 && AllDigits(s)
  {
    if n < 10 then [DigitChar(n)] else NatToDigits(n / 10) + [DigitChar(n % 10)]
  }

  /** `strconv.Itoa`: a leading `-` for negative values, then the digits. */
  function Itoa(n: Int64): (s: string) {
    if n < 0 then "-" + NatToDigits(-(n as int)) else NatToDigits(n)
  }

  lemma {:induction false} DigitsValueOfNatToDigits(n: nat)
    ensures DigitsValue(NatToDigits(n)) == n
  {
    if n >= 10 {
      DigitsValueOfNatToDigits(n / 10);
      var s := NatToDigits(n);
      assert s[..|s| - 1] == NatToDigits(n / 10);
    }
  }

  /** Atoi reads back every 64-bit value that Itoa spells. */
  lemma AtoiItoa(n: Int64)
    ensures Atoi(Itoa(n)) == Some(n)
  {
    DigitsValueOfNatToDigits(if n < 0 then -(n as int) else n);
    if n < 0 {
      assert ("-" + NatToDigits(-(n as int)))[1..] == NatToDigits(-(n as int));
    }
  }

  /**
   * Every well-formed ID text is accepted with its decimal value when that
   * value fits in 64 bits, and rejected otherwise: unsigned and `+` texts up
   * to 2^63 - 1, `-` texts down to -2^63.
   */
  lemma AtoiDigits(d: string)
    requires |d| > 0 && AllDigits(d)
    ensures Atoi(d) == if DigitsValue(d) <= MaxInt64 then Some(DigitsValue(d)) else None
    ensures Atoi("+" + d) == if DigitsValue(d) <= MaxInt64 then Some(DigitsValue(d)) else None
    ensures Atoi("-" + d) == if DigitsValue(d) <= -MinInt64 then Some(-(DigitsValue(d) as int)) else None
  {
    AtoiUnsigned(d);
    AtoiPlus(d);
    AtoiMinus(d);
  }

  /** A digit string without a sign: its decimal value, when that fits. */
  lemma AtoiUnsigned(d: string)
    requires |d| > 0 && AllDigits(d)
    ensures Atoi(d) == if DigitsValue(d) <= MaxInt64 then Some(DigitsValue(d)) else None
  {
    assert IsDigit(d[0]);
    assert d[0] != '-' && d[0] != '+';
  }

  /** A digit string after `+`: the same value as without the sign. */
  lemma AtoiPlus(d: string)
    requires |d| > 0 && AllDigits(d)
    ensures Atoi("+" + d) == if DigitsValue(d) <= MaxInt64 then Some(DigitsValue(d)) else None
  {
    var s := "+" + d;
    assert s[0] == '+' && s[1..] == d;
    var v: int := DigitsValue(d);
    assert Atoi(s) == if MinInt64 <= v <= MaxInt64 then Some(v) else None;
  }

  /** A digit string after `-`: the negated value, when that fits. */
  lemma AtoiMinus(d: string)
    requires |d| > 0 && AllDigits(d)
    ensures Atoi("-" + d) == if DigitsValue(d) <= -MinInt64 then Some(-(DigitsValue(d) as int)) else None
  {
    var s := "-" + d;
    assert s[0] == '-' && s[1..] == d;
    var v: int := -(DigitsValue(d) as int);
    assert Atoi(s) == if MinInt64 <= v <= MaxInt64 then Some(v) else None;
  }

  /** Text that is not a number, an empty argument and a bare sign are all rejected. */
  lemma AtoiRejects()
    ensures Atoi("abc") == None
    ensures Atoi("") == None
    ensures Atoi("-") == None && Atoi("+") == None
    ensures Atoi("1x") == None
  {
  }

  /** The sign is optional and leading zeros are accepted. */
  lemma AtoiAccepts()
    ensures Atoi("+7") == Some(7) && Atoi("-7") == Some(-7) && Atoi("007") == Some(7)
  {
    assert DigitsValue("7") == 7;
    assert "007"[..2] == "00" && "00"[..1] == "0";
    assert DigitsValue("007") == 7;
  }
}
