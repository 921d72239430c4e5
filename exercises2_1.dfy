/** Level 2, file 2.1: today's weekday name, seconds as days, truncating a
    string, and the sum of the divisors of a number (a loop and a recursion). */
module Exercises2_1 {
  import opened JsValues
  import opened Divisibility
  import opened Calendar

  // ---------------------------------------------------------------------------
  // returnDay

  const MsPerDay: int := 86400000

  /** `new Date(t).getDay()` for a moment given as milliseconds since
      1970-01-01 00:00 in local time; that day was a Thursday (4). */
  function Weekday(t: int): (d: int)
    ensures 0 <= d < 7
  {
    (t / MsPerDay + 4) % 7
  }

  /** `returnDay(days)` at the local moment `now`, which stands for the clock. */
  function ReturnDay(days: seq<string>, now: int): Option<string>
  {
    var day := Weekday(now);
    if day < |days| then Some(days[day]) else None
  }

  /** A day later the next name of the week is returned, Saturday wrapping
      around to Sunday. */
  lemma ReturnDayNext(now: int)
    ensures ReturnDay(WeekdayNames, now + MsPerDay) == Some(WeekdayNames[(Weekday(now) + 1) % 7])
  {
    assert (now + MsPerDay) / MsPerDay == now / MsPerDay + 1;
  }

  lemma ReturnDayEpoch()
    ensures ReturnDay(WeekdayNames, 0) == Some("Четверг")
  {
  }

  // ---------------------------------------------------------------------------
  // secondsToDays

  const SecondsInADay: real := 86400.0

  function SecondsToDays(seconds: real): real
  {
    seconds / SecondsInADay
  }

  /** Multiplying back by the length of a day gives the seconds again. */
  lemma SecondsToDaysInverse(seconds: real)
    ensures SecondsToDays(seconds) * SecondsInADay == seconds
    ensures seconds >= SecondsInADay ==> SecondsToDays(seconds) >= 1.0
  {
  }

  lemma SecondsToDaysExamples()
    ensures SecondsToDays(86400.0) == 1.0
    ensures SecondsToDays(172800.0) == 2.0
    ensures 1.0 < SecondsToDays(90000.0) < 1.05
  {
  }

  // ---------------------------------------------------------------------------
  // truncateString

  /** What `truncateString` throws for a bad string and for a bad length. */
  const NotAString: Error := InvalidArgument("Второй параметр должен быть строкой")
  const NotALength: Error := InvalidArgument("Первый параметр должен быть положительным числом")

  /** The string check comes first, then the length check; either failure
      throws. */
  function TruncateString(length: Value, str: Value): (r: Result<string>)
    ensures !str.Str? ==> r == Err(NotAString)
    ensures str.Str? && !(length.Num? && length.n >= 0) ==> r == Err(NotALength)
    ensures str.Str? && length.Num? && length.n >= 0 ==>
              r.Ok? && |r.value| == (if |str.s| > length.n then length.n else |str.s|)
              && r.value == str.s[..|r.value|]
  {
    if !str.Str? then Err(NotAString)
    else if !length.Num? || length.n < 0 then Err(NotALength)
    else if |str.s| > length.n then Ok(str.s[..length.n])
    else Ok(str.s)
  }

  /** Truncating a truncated string to the same length changes nothing. */
  lemma TruncateIdempotent(n: nat, s: string)
    ensures TruncateString(Num(n), Str(s)).Ok?
    ensures TruncateString(Num(n), Str(TruncateString(Num(n), Str(s)).value)) == TruncateString(Num(n), Str(s))
  {
  }

  lemma TruncateExamples()
    ensures TruncateString(Num(5), Str("Привет, мир!")) == Ok("Приве")
    ensures TruncateString(Num(10), Str("Hello")) == Ok("Hello")
    ensures TruncateString(Num(0), Str("Test")) == Ok("")
  {
    assert "Привет, мир!"[..5] == "Приве";
  }

  // ---------------------------------------------------------------------------
  // getSumOfDivisorsWhile

  lemma SumAppend(s: seq<int>, x: int)
    ensures Sum(s + [x]) == Sum(s) + x
  {
    assert (s + [x])[..|s + [x]| - 1] == s;
  }

  /** The divisors up to k add up to those up to k - 1, plus k when it divides. */
  lemma SumUpToStep(num: int, k: int)
    requires k >= 1
    ensures Sum(DivisorsUpTo(num, k)) == Sum(DivisorsUpTo(num, k - 1)) + (if num % k == 0 then k else 0)
  {
    var p := DivisorsUpTo(num, k - 1);
    if num % k == 0 {
      assert DivisorsUpTo(num, k) == p + [k];
      SumAppend(p, k);
    } else {
      assert DivisorsUpTo(num, k) == p + [];
      assert p + [] == p;
    }
  }

  /** What the loop version throws for a number below 1. */
  const NotPositive: Error := InvalidArgument("Число должно быть положительным")

  method GetSumOfDivisorsWhile(num: int) returns (r: Result<int>)
    ensures num <= 0 ==> r == Err(NotPositive)
    ensures num > 0 ==> r == Ok(Sum(Divisors(num)))
  {
    if num <= 0 {
      return Err(NotPositive);
    }
    var divisor := 1;
    var sum := 0;
    while divisor <= num
      invariant 1 <= divisor <= num + 1
      invariant sum == Sum(DivisorsUpTo(num, divisor - 1))
    {
      SumUpToStep(num, divisor);
      if num % divisor == 0 {
        sum := sum + divisor;
      }
      divisor := divisor + 1;
    }
    return Ok(sum);
  }

  /** Every number from 2 up has 1 and itself among its divisors. */
  lemma {:induction false} SumOfDivisorsBound(num: int)
    requires num >= 2
    ensures Sum(Divisors(num)) >= num + 1
  {
    SumUpToStep(num, num);
    SumAtLeastOne(num, num - 1);
  }

  lemma {:induction false} SumAtLeastOne(num: int, k: int)
    requires 1 <= k
    ensures Sum(DivisorsUpTo(num, k)) >= 1
  {
    SumUpToStep(num, k);
    if k > 1 {
      SumAtLeastOne(num, k - 1);
    } else {
      assert DivisorsUpTo(num, 0) == [];
    }
  }

  // ---------------------------------------------------------------------------
  // f(num, divisor = 1, res = 0)

  /** The recursive version. `num % divisor === 0` is false for a zero divisor
      (the remainder is NaN) and otherwise holds exactly when divisor divides
      num, whatever the signs. */
  function F(num: int, divisor: int, res: int): int
    decreases num - divisor
  {
    if divisor > num then res
    else F(num, divisor + 1, if divisor != 0 && num % divisor == 0 then res + divisor else res)
  }

  /** From divisor d on, the recursion adds the divisors of num from d to num. */
  lemma {:induction false} FSum(num: int, d: int, res: int)
    requires 1 <= d <= num + 1
    ensures F(num, d, res) == res + Sum(Divisors(num)) - Sum(DivisorsUpTo(num, d - 1))
    decreases num - d
  {
    if d <= num {
      FSum(num, d + 1, if num % d == 0 then res + d else res);
      SumUpToStep(num, d);
    }
  }

  /** `f(num)` is the sum of the divisors; it answers 0 where the loop throws. */
  lemma FIsSumOfDivisors(num: int)
    ensures F(num, 1, 0) == (if num >= 1 then Sum(Divisors(num)) else 0)
  {
    if num >= 1 {
      FSum(num, 1, 0);
      assert DivisorsUpTo(num, 0) == [];
    }
  }
}
