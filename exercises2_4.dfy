/** Level 2, file 2.4: counting divisors up to the square root, a primality
    test, and removing the even digits of a number. */
module Exercises2_4 {
  import opened Decimal
  import opened Sequences
  import opened Divisibility
  import opened JsNumber

  // ---------------------------------------------------------------------------
  // number of divisors

  /** How many divisors of n up to k lie below, and at, the square root. */
  function BelowCount(n: int, k: int): nat { |Filter(DivisorsUpTo(n, k), BelowRoot(n))| }
  function AtCount(n: int, k: int): nat { |Filter(DivisorsUpTo(n, k), AtRoot(n))| }

  /** i grows while `i <= Math.sqrt(num)`, that is while i * i <= num; each
      divisor i counts itself and num / i, and once when they coincide
      (`i === num / i`). A negative num has a NaN root, so nothing is counted. */
  method CountDivisors(num: int) returns (res: int)
    ensures res == (if num <= 0 then 0 else |Divisors(num)|)
  {
    res := 0;
    if num <= 0 {
      return;
    }
    var i := 1;
    while i * i <= num
      invariant 1 <= i && (i - 1) * (i - 1) <= num
      invariant res == 2 * BelowCount(num, i - 1) + AtCount(num, i - 1)
      decreases num - i
    {
      CountStep(num, i);
      RootBelow(num, i);
      if num % i == 0 {
        res := res + 2;
        if i * i == num {
          res := res - 1;
        }
      }
      i := i + 1;
    }
    CountEnd(num, i);
    DivisorCountByPairs(num);
  }

  lemma CountStep(num: int, i: int)
    requires i >= 1
    ensures BelowCount(num, i) == BelowCount(num, i - 1) + (if num % i == 0 && i * i < num then 1 else 0)
    ensures AtCount(num, i) == AtCount(num, i - 1) + (if num % i == 0 && i * i == num then 1 else 0)
  {
    var j := DivisorsUpTo(num, i - 1);
    var last := if num % i == 0 then [i] else [];
    assert DivisorsUpTo(num, i) == j + last;
    FilterAppend(j, last, BelowRoot(num));
    FilterAppend(j, last, AtRoot(num));
    FilterOne(last, i, BelowRoot(num), num % i == 0);
    FilterOne(last, i, AtRoot(num), num % i == 0);
  }

  lemma FilterOne(last: seq<int>, i: int, p: int -> bool, b: bool)
    requires last == if b then [i] else []
    ensures |Filter(last, p)| == if b && p(i) then 1 else 0
  {
    if b {
      assert last[1..] == [];
    }
  }

  lemma CountEnd(num: int, i: int)
    requires num >= 1 && i >= 1 && i * i > num && (i - 1) * (i - 1) <= num
    ensures BelowCount(num, i - 1) == |SmallDivisors(num)|
    ensures AtCount(num, i - 1) == |RootDivisors(num)|
  {
    var k := i - 1;
    RootBelow(num, k);
    forall d | d > k ensures !BelowRoot(num)(d) && !AtRoot(num)(d) {
      SquareAbove(num, i, d);
    }
    FilterDivisorsBelow(num, k, num, BelowRoot(num));
    FilterDivisorsBelow(num, k, num, AtRoot(num));
  }

  lemma RootBelow(num: int, k: int)
    requires num >= 1 && k >= 0 && k * k <= num
    ensures k <= num
  {
    if k > num {
      MulStrict(num, k, k);
      MulMono(1, k, num);
      assert false;
    }
  }

  lemma SquareAbove(num: int, i: int, d: int)
    requires i >= 1 && i * i > num && d >= i
    ensures d * d > num
  {
    MulMono(i, d, d);
    MulMono(i, d, i);
  }

  // ---------------------------------------------------------------------------
  // isPrime

  /** Reference: at least 2 and no divisor strictly between 1 and itself. */
  predicate Prime(n: int)
  {
    n >= 2 && forall d :: 2 <= d < n ==> n % d != 0
  }

  predicate NoDivisorFrom2To(n: int, k: int)
  {
    forall d :: 2 <= d < k ==> n % d != 0
  }

  method IsPrime(num: int) returns (b: bool)
    ensures b <==> Prime(num)
  {
    if num < 2 {
      return false;
    }
    var i := 2;
    while i * i <= num
      invariant 2 <= i <= num && NoDivisorFrom2To(num, i)
      decreases num - i
    {
      if num % i == 0 {
        return false;
      }
      i := i + 1;
      if i > num {
        MulStrict(num, i - 1, i - 1);
        MulMono(1, num, num);
      }
    }
    RootSuffices(num, i);
    return true;
  }

  /** A divisor above the square root comes with one below it, so testing up
      to the root decides primality. */
  lemma RootSuffices(n: int, i: int)
    requires n >= 2 && i >= 2 && i * i > n && NoDivisorFrom2To(n, i)
    ensures Prime(n)
  {
    forall d | 2 <= d < n ensures n % d != 0 {
      if n % d == 0 && d >= i {
        // d lies above the root, so its co-divisor is a divisor below i
        PairedDivisors(n, d);
        var e := n / d;
        MulMono(i, d, d);
        MulMono(i, d, i);
        PairedDivisors(n, e);
        SquareLess(e, i);
        assert false;
      }
    }
  }

  lemma SquareLess(a: int, b: int)
    requires 0 <= a && 0 <= b && a * a < b * b
    ensures a < b
  {
    if a >= b {
      MulMono(b, a, a);
      MulMono(b, a, b);
      assert false;
    }
  }

  lemma PrimeExamples()
    ensures Prime(2) && !Prime(10) && Prime(17) && !Prime(1) && !Prime(0)
  {
    assert 10 % 2 == 0;
    NoDivisorTo5();
    RootSuffices(17, 5);
  }

  lemma NoDivisorTo5()
    ensures NoDivisorFrom2To(17, 5)
  {
    forall d | 2 <= d < 5 ensures 17 % d != 0 {
      assert d == 2 || d == 3 || d == 4;
    }
  }

  // ---------------------------------------------------------------------------
  // removing even digits

  /** `Number(el) % 2 !== 0`: true for odd digits, and also for a character whose
      number is NaN, such as '-'. */
  predicate OddTest(c: char)
  {
    var n := ToNumber([c]);
    !(n.Finite? && n.value == n.value.Floor as real && n.value.Floor % 2 == 0)
  }

  function RemoveEvenDigits(num: int): (kept: string)
  {
    Filter(IntToString(num), OddTest)
  }

  /** What the function returns: `Number` of the kept characters. */
  function RemoveEvenDigitsValue(num: int): Number
  {
    ToNumber(RemoveEvenDigits(num))
  }

  lemma OddTestDigit(c: char)
    requires IsDigit(c)
    ensures OddTest(c) <==> DigitValue(c) % 2 == 1
  {
    NumberOfDigitChar(c);
    assert (DigitValue(c) as real).Floor == DigitValue(c);
  }

  /** A lone minus sign is not a number. */
  lemma NumberOfMinus()
    ensures ToNumber("-") == NaN
  {
    assert Trim("-") == "-";
    assert "-"[1..] == [];
    UnsignedEmpty();
  }

  lemma OddTestMinus()
    ensures OddTest('-')
  {
    NumberOfMinus();
  }

  predicate OddDigit(c: char) { IsDigit(c) && DigitValue(c) % 2 == 1 }

  lemma {:induction false} FilterOnDigits(s: string)
    requires AllDigits(s)
    ensures Filter(s, OddTest) == Filter(s, OddDigit)
  {
    if s != [] {
      FilterOnDigits(s[1..]);
      OddTestDigit(s[0]);
    }
  }

  /** For a number that is not negative only odd digits are kept and the value
      is the number they spell (0 when every digit is even). */
  lemma RemoveEvenDigitsOfNatural(num: nat)
    ensures RemoveEvenDigits(num) == Filter(NatToString(num), OddDigit)
    ensures AllDigits(RemoveEvenDigits(num))
    ensures RemoveEvenDigitsValue(num) == Finite(ParseDigits(RemoveEvenDigits(num)) as real)
  {
    var s := NatToString(num);
    FilterOnDigits(s);
    OddDigitsAreDigits(s);
    ValueOfDigits(Filter(s, OddDigit));
  }

  lemma OddDigitsAreDigits(s: string)
    ensures AllDigits(Filter(s, OddDigit))
  {
    var r := Filter(s, OddDigit);
    FilterMembers(s, OddDigit);
    assert forall i :: 0 <= i < |r| ==> r[i] in r;
  }

  lemma ValueOfDigits(r: string)
    requires AllDigits(r)
    ensures ToNumber(r) == Finite(ParseDigits(r) as real)
  {
    if r == [] {
      NumberOfEmpty();
    } else {
      NumberOfDigits(r);
    }
  }

  /** A negative number keeps its '-' in front of its odd digits. */
  lemma RemoveEvenDigitsOfNegative(num: int)
    requires num < 0
    ensures RemoveEvenDigits(num) == "-" + Filter(NatToString(-num), OddDigit)
  {
    OddTestMinus();
    var s := NatToString(-num);
    assert IntToString(num) == "-" + s;
    FilterStep("-" + s, OddTest);
    assert ("-" + s)[1..] == s;
    FilterOnDigits(s);
  }

  /** A negative number whose digits are all even leaves only "-", which is NaN. */
  lemma RemoveEvenDigitsAllEvenNegative(num: int)
    requires num < 0 && Filter(NatToString(-num), OddDigit) == []
    ensures RemoveEvenDigitsValue(num) == NaN
  {
    RemoveEvenDigitsOfNegative(num);
    assert "-" + [] == "-";
    NumberOfMinus();
  }
}
