/**
 * Decimal rendering of integers, as Go's strconv.Itoa produces it
 * (an optional '-' followed by the digits, no leading zeros), together with
 * a parser that recovers the integer, so that rendering is known to be
 * injective.
 */
module Decimal {
  import opened Wrappers

  predicate IsDigit(c: char) {
    '0' <= c <= '9'
  }

  predicate AllDigits(s: string) {
    forall i :: 0 <= i < |s| ==> IsDigit(s[i])
  }

  function DigitValue(c: char): nat
    requires IsDigit(c)
  {
    c as int - '0' as int
  }

  function DigitChar(d: nat): (c: char)
    requires d < 10
    ensures IsDigit(c) && DigitValue(c) == d
  {
    (d + '0' as int) as char
  }

  /** The digits of `n`, most significant first. */
  function NatDigits(n: nat): (s: string)
    ensures 1 <= |s| && AllDigits(s)
    ensures s[0] == '0' ==> n == 0
    decreases n
  {
    if n < 10 then [DigitChar(n)] else NatDigits(n / 10) + [DigitChar(n % 10)]
  }

  /** strconv.Itoa: the canonical rendering, without leading zeros. */
  function Itoa(n: int): (s: string)
    ensures 1 <= |s|
    ensures s[0] == '-' <==> n < 0
    ensures n < 0 ==> 2 <= |s| && AllDigits(s[1..])
    ensures 0 <= n ==> AllDigits(s)
    ensures 0 <= n && s[0] == '0' ==> |s| == 1
    ensures n < 0 ==> s[1] != '0'
  {
    if n < 0 then "-" + NatDigits(-n) else NatDigits(n)
  }

  /** The value of a string of decimal digits. */
  function DigitsValue(s: string): nat
    requires AllDigits(s)
  {
    if s == [] then 0 else DigitsValue(s[..|s| - 1]) * 10 + DigitValue(s[|s| - 1])
  }

  /** Reads back what Itoa writes; None for anything else. */
  function ParseDecimal(s: string): Option<int> {
    if 2 <= |s| && s[0] == '-' && AllDigits(s[1..]) then Some(-(DigitsValue(s[1..]) as int))
    else if 1 <= |s| && AllDigits(s) then Some(DigitsValue(s))
    else None
  }

  lemma {:induction false} DigitsRoundTrip(n: nat)
    ensures DigitsValue(NatDigits(n)) == n
    decreases n
  {
    if 10 <= n {
      DigitsRoundTrip(n / 10);
      var s := NatDigits(n);
      assert s[..|s| - 1] == NatDigits(n / 10);
    }
  }

  /** Parsing the rendering of `n` gives back `n`. */
  lemma ItoaRoundTrip(n: int)
    ensures ParseDecimal(Itoa(n)) == Some(n)
  {
    var s := Itoa(n);
    if n < 0 {
      assert s[1..] == NatDigits(-n);
      DigitsRoundTrip(-n);
    } else {
      DigitsRoundTrip(n);
    }
  }

  /** Distinct integers render to distinct strings. */
  lemma ItoaInjective(a: int, b: int)
    ensures Itoa(a) == Itoa(b) ==> a == b
  {
    ItoaRoundTrip(a);
    ItoaRoundTrip(b);
  }
}
