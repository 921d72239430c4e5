/** Decimal notation: `Number.prototype.toString()` on integers and
    `Number(s)` on strings made of decimal digits. */
module Decimal {

  predicate IsDigit(c: char)
  {
    '0' <= c <= '9'
  }

  predicate AllDigits(s: string)
  {
    forall i :: 0 <= i < |s| ==> IsDigit(s[i])
  }

  function DigitChar(d: nat): (c: char)
    requires d < 10
    ensures IsDigit(c) && DigitValue(c) == d
  {
    (48 + d) as char
  }

  function DigitValue(c: char): (d: nat)
    requires IsDigit(c)
    ensures d < 10
  {
    (c as int) - 48
  }

  /** `n.toString()` for a natural number: no leading zeros, "0" for zero. */
  function NatToString(n: nat): (s: string)
    ensures |s| >= 1 && AllDigits(s)
    ensures (s[0] == '0') == (n == 0)
    decreases n
  {
    if n < 10 then [DigitChar(n)] else NatToString(n / 10) + [DigitChar(n % 10)]
  }

  /** `n.toString()` for any integer: a minus sign before the digits of |n|. */
  function IntToString(n: int): (s: string)
    ensures n >= 0 ==> s == NatToString(n)
    ensures n < 0 ==> s == "-" + NatToString(-n)
  {
    if n < 0 then "-" + NatToString(-n) else NatToString(n)
  }

  /** `Number(s)` for a string of decimal digits; the empty string is 0. */
  function ParseDigits(s: string): nat
    requires AllDigits(s)
  {
    if s == [] then 0 else ParseDigits(s[..|s| - 1]) * 10 + DigitValue(s[|s| - 1])
  }

  /** Decimal digits of n, most significant first (the values behind NatToString). */
  function Digits(n: nat): (ds: seq<nat>)
    ensures |ds| == |NatToString(n)|
    ensures forall i :: 0 <= i < |ds| ==> ds[i] < 10 && NatToString(n)[i] == DigitChar(ds[i])
    decreases n
  {
    if n < 10 then [n] else Digits(n / 10) + [n % 10]
  }

  lemma {:induction false} ParseNatToString(n: nat)
    ensures ParseDigits(NatToString(n)) == n
    decreases n
  {
    if n >= 10 {
      var s := NatToString(n);
      assert s[..|s| - 1] == NatToString(n / 10);
      ParseNatToString(n / 10);
    }
  }

  /** A digit string with no '0' in it is exactly how its own value prints. */
  lemma {:induction false} NatToStringOfZeroFree(s: string)
    requires s != [] && AllDigits(s) && '0' !in s
    ensures ParseDigits(s) >= 1
    ensures NatToString(ParseDigits(s)) == s
    decreases |s|
  {
    var init := s[..|s| - 1];
    var last := s[|s| - 1];
    assert last != '0' by { assert last == s[|s| - 1]; }
    if init == [] {
      assert s == [last];
    } else {
      assert forall c :: c in init ==> c in s;
      NatToStringOfZeroFree(init);
      var x := ParseDigits(init);
      var n := x * 10 + DigitValue(last);
      assert n / 10 == x && n % 10 == DigitValue(last);
      assert DigitChar(DigitValue(last)) == last;
      assert s == init + [last];
    }
  }
}
