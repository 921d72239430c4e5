/** `Number(s)` for a string s: the StringNumericLiteral grammar of ECMAScript
    (surrounding white space, the empty string as 0, an optional sign, `Infinity`,
    decimal literals with fraction and exponent, and 0x / 0o / 0b integers).
    Values are exact rationals, not IEEE-754 doubles. */
module JsNumber {
  import opened Decimal
  import opened JsValues

  datatype Number = NaN | Infinity(negative: bool) | Finite(value: real)

  /** JavaScript WhiteSpace and LineTerminator characters. */
  predicate IsJsWhiteSpace(c: char)
  {
    var k := c as int;
    k == 0x09 || k == 0x0A || k == 0x0B || k == 0x0C || k == 0x0D || k == 0x20
    || k == 0xA0 || k == 0x1680 || (0x2000 <= k <= 0x200A) || k == 0x2028 || k == 0x2029
    || k == 0x202F || k == 0x205F || k == 0x3000 || k == 0xFEFF
  }

  function TrimStart(s: string): (r: string)
    ensures |r| <= |s| && r == s[|s| - |r|..]
    ensures r != [] ==> !IsJsWhiteSpace(r[0])
  {
    if s != [] && IsJsWhiteSpace(s[0]) then TrimStart(s[1..]) else s
  }

  function TrimEnd(s: string): (r: string)
    ensures |r| <= |s| && r == s[..|r|]
    ensures r != [] ==> !IsJsWhiteSpace(r[|r| - 1])
  {
    if s != [] && IsJsWhiteSpace(s[|s| - 1]) then TrimEnd(s[..|s| - 1]) else s
  }

  /** `s.trim()`. */
  function Trim(s: string): string
  {
    TrimEnd(TrimStart(s))
  }

  function Pow(b: nat, k: nat): (r: nat)
    ensures b >= 1 ==> r >= 1
  {
    if k == 0 then 1 else b * Pow(b, k - 1)
  }

  /** Value of a digit in radix 2, 8 or 16, or -1. */
  function RadixDigit(c: char, radix: nat): int
  {
    var v := if '0' <= c <= '9' then c as int - 48
             else if 'a' <= c <= 'f' then c as int - 87
             else if 'A' <= c <= 'F' then c as int - 55
             else -1;
    if v < radix then v else -1
  }

  /** Value of a non-empty string of radix digits, or NaN. */
  function RadixValue(s: string, radix: nat): Number
  {
    if s == [] then NaN else RadixAcc(s, radix, 0)
  }

  function RadixAcc(s: string, radix: nat, acc: nat): Number
  {
    if s == [] then Finite(acc as real)
    else
      var v := RadixDigit(s[0], radix);
      if v < 0 then NaN else RadixAcc(s[1..], radix, acc * radix + v)
  }

  /** First index of c in s, or |s|. */
  function IndexOf(s: string, c: char): (k: nat)
    ensures k <= |s| && c !in s[..k] && (k < |s| ==> s[k] == c)
  {
    if s == [] then 0
    else if s[0] == c then 0
    else
      var k := IndexOf(s[1..], c);
      assert s[..k + 1] == [s[0]] + s[1..][..k];
      k + 1
  }

  /** An optionally signed, non-empty digit string: the exponent of a literal. */
  function SignedInteger(s: string): Option<int>
  {
    if s != [] && (s[0] == '+' || s[0] == '-') then
      var u := s[1..];
      if u != [] && AllDigits(u) then Some(if s[0] == '-' then -(ParseDigits(u) as int) else ParseDigits(u))
      else None
    else if s != [] && AllDigits(s) then Some(ParseDigits(s))
    else None
  }

  function Scale(x: real, e: int): real
    decreases if e < 0 then -e else e
  {
    if e == 0 then x else if e > 0 then Scale(x * 10.0, e - 1) else Scale(x / 10.0, e + 1)
  }

  /** Where the exponent part starts: the first 'e' or 'E', or |u|. */
  function ExponentIndex(u: string): (k: nat)
    ensures k <= |u|
  {
    if IndexOf(u, 'e') < IndexOf(u, 'E') then IndexOf(u, 'e') else IndexOf(u, 'E')
  }

  /** Digits with an optional '.', at least one digit in all. */
  function Mantissa(mant: string): Option<real>
  {
    var dot := IndexOf(mant, '.');
    DecimalValue(mant[..dot], if dot < |mant| then mant[dot + 1..] else [])
  }

  /** The value of `whole.frac`, both digit strings and not both empty. */
  function DecimalValue(whole: string, frac: string): Option<real>
  {
    if !AllDigits(whole) || !AllDigits(frac) || |whole| + |frac| == 0 then None
    else Some(ParseDigits(whole) as real + (ParseDigits(frac) as real) / (Pow(10, |frac|) as real))
  }

  /** StrUnsignedDecimalLiteral other than `Infinity`: a mantissa and an
      optional exponent. */
  function UnsignedDecimal(u: string): Number
  {
    var ie := ExponentIndex(u);
    var exp := if ie < |u| then SignedInteger(u[ie + 1..]) else Some(0);
    var m := Mantissa(u[..ie]);
    if exp.None? || m.None? then NaN else Finite(Scale(m.value, exp.value))
  }

  function Unsigned(u: string): Number
  {
    if u == "Infinity" then Infinity(false) else UnsignedDecimal(u)
  }

  function Negate(n: Number): Number
  {
    match n
    case NaN => NaN
    case Infinity(neg) => Infinity(!neg)
    case Finite(v) => Finite(-v)
  }

  /** A trimmed, non-empty string. */
  function Literal(t: string): Number
  {
    if |t| >= 2 && t[0] == '0' && (t[1] == 'x' || t[1] == 'X') then RadixValue(t[2..], 16)
    else if |t| >= 2 && t[0] == '0' && (t[1] == 'o' || t[1] == 'O') then RadixValue(t[2..], 8)
    else if |t| >= 2 && t[0] == '0' && (t[1] == 'b' || t[1] == 'B') then RadixValue(t[2..], 2)
    else if t != [] && t[0] == '+' then Unsigned(t[1..])
    else if t != [] && t[0] == '-' then Negate(Unsigned(t[1..]))
    else Unsigned(t)
  }

  /** `Number(s)`. */
  function ToNumber(s: string): Number
  {
    var t := Trim(s);
    if t == [] then Finite(0.0) else Literal(t)
  }

  /** `!isNaN(Number(s))`. */
  predicate IsNumeric(s: string)
  {
    !ToNumber(s).NaN?
  }

  /** A one-character string is a number exactly when it is a digit or white space. */
  lemma NumericChar(c: char)
    ensures IsNumeric([c]) <==> IsDigit(c) || IsJsWhiteSpace(c)
  {
    if IsJsWhiteSpace(c) {
      assert TrimStart([c]) == [];
    } else if IsDigit(c) {
      NumberOfDigitChar(c);
    } else {
      NonDigitChar(c);
    }
  }

  /** A character that is neither a digit nor white space is NaN. */
  lemma NonDigitChar(c: char)
    requires !IsDigit(c) && !IsJsWhiteSpace(c)
    ensures ToNumber([c]) == NaN
  {
    assert TrimStart([c]) == [c];
    assert TrimEnd([c]) == [c];
    LiteralOfChar(c);
  }

  lemma LiteralOfChar(c: char)
    requires !IsDigit(c)
    ensures Literal([c]) == NaN
  {
    var t := [c];
    assert |t| == 1 && t[0] == c;
    if c == '+' || c == '-' {
      assert t[1..] == [];
      UnsignedEmpty();
      assert Unsigned(t[1..]) == NaN;
    } else {
      UnsignedNonDigit(c);
      assert t != "Infinity";
    }
  }

  /** A sign with nothing after it is not a number. */
  lemma UnsignedEmpty()
    ensures UnsignedDecimal([]) == NaN
  {
    assert ExponentIndex([]) == 0;
    assert IndexOf([], '.') == 0;
  }

  lemma UnsignedNonDigit(c: char)
    requires !IsDigit(c)
    ensures UnsignedDecimal([c]) == NaN
  {
    var s := [c];
    var ie := ExponentIndex(s);
    if c == 'e' || c == 'E' {
      assert ie == 0;
      assert s[..0] == [];
      assert IndexOf([], '.') == 0;
    } else {
      assert ie == 1;
      assert s[..1] == s;
      if c == '.' {
        assert IndexOf(s, '.') == 0;
        assert s[1..] == [];
      } else {
        assert IndexOf(s, '.') == 1;
        assert !AllDigits(s);
      }
    }
  }

  lemma DigitsNotWhite(s: string)
    requires AllDigits(s)
    ensures TrimStart(s) == s && TrimEnd(s) == s
  {
    if s != [] {
      assert !IsJsWhiteSpace(s[0]) && !IsJsWhiteSpace(s[|s| - 1]);
    }
  }

  lemma IndexOfAbsent(s: string, c: char)
    requires AllDigits(s) && !IsDigit(c)
    ensures IndexOf(s, c) == |s|
  {
  }

  /** A non-empty digit string has its decimal value. */
  lemma NumberOfDigits(s: string)
    requires s != [] && AllDigits(s)
    ensures ToNumber(s) == Finite(ParseDigits(s) as real)
  {
    DigitsNotWhite(s);
    assert Trim(s) == s;
    LiteralOfDigits(s);
    UnsignedDigits(s);
  }

  /** A digit string has no radix prefix, sign or `Infinity`. */
  lemma LiteralOfDigits(s: string)
    requires s != [] && AllDigits(s)
    ensures Literal(s) == UnsignedDecimal(s)
  {
    assert IsDigit(s[0]);
    assert |s| >= 2 ==> IsDigit(s[1]);
    assert s != "Infinity" by { assert IsDigit(s[0]); }
  }

  lemma UnsignedDigits(s: string)
    requires AllDigits(s) && s != []
    ensures UnsignedDecimal(s) == Finite(ParseDigits(s) as real)
  {
    IndexOfAbsent(s, 'e');
    IndexOfAbsent(s, 'E');
    assert ExponentIndex(s) == |s|;
    assert s[..|s|] == s;
    MantissaDigits(s);
    assert Scale(ParseDigits(s) as real, 0) == ParseDigits(s) as real;
  }

  lemma MantissaDigits(s: string)
    requires AllDigits(s) && s != []
    ensures Mantissa(s) == Some(ParseDigits(s) as real)
  {
    IndexOfAbsent(s, '.');
    assert s[..|s|] == s;
    WholeNumber(s);
  }

  lemma WholeNumber(s: string)
    requires AllDigits(s) && s != []
    ensures DecimalValue(s, []) == Some(ParseDigits(s) as real)
  {
    assert AllDigits([]) && ParseDigits([]) == 0 && Pow(10, 0) == 1;
  }

  /** `Number(c)` for one digit character. */
  lemma NumberOfDigitChar(c: char)
    requires IsDigit(c)
    ensures ToNumber([c]) == Finite(DigitValue(c) as real)
  {
    NumberOfDigits([c]);
    assert [c][..0] == [];
  }

  /** `Number('')` is 0. */
  lemma NumberOfEmpty()
    ensures ToNumber([]) == Finite(0.0)
  {
    assert Trim([]) == [];
  }
}
