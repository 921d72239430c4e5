/** Level 2, file 2.2: the sum of the digits of a number (a reduce and a loop),
    removing the zeros from a number, the days left in the current month, and
    the names of yesterday, today and tomorrow. */
module Exercises2_2 {
  import opened JsValues
  import opened Decimal
  import opened Sequences
  import opened JsNumber
  import opened Calendar

  // ---------------------------------------------------------------------------
  // digit sums

  /** Arithmetic reference: the sum of the decimal digits of n. */
  function DigitSum(n: nat): nat
    decreases n
  {
    if n < 10 then n else DigitSum(n / 10) + n % 10
  }

  /** `a + b` on numbers: NaN absorbs everything. */
  function Plus(a: Number, b: Number): Number
  {
    if a.Finite? && b.Finite? then Finite(a.value + b.value) else NaN
  }

  /** `s.split('').reduce((acc, item) => acc += Number(item), 0)`. */
  function ReduceDigits(s: string): Number
  {
    if s == [] then Finite(0.0) else Plus(ReduceDigits(s[..|s| - 1]), ToNumber([s[|s| - 1]]))
  }

  /** `parseInt(value)` for a one-character string. */
  function ParseIntChar(c: char): (r: Number)
    ensures r.NaN? <==> !IsDigit(c)
  {
    if IsDigit(c) then Finite(DigitValue(c) as real) else NaN
  }

  /** What the reduce version logs for `num`. */
  function DigitSumByReduce(num: int): Number
  {
    ReduceDigits(IntToString(num))
  }

  /** The loop version: `for (let value of num.toString()) res += parseInt(value)`. */
  method DigitSumByLoop(num: int) returns (res: Number)
    ensures res == (if num >= 0 then Finite(DigitSum(num) as real) else NaN)
  {
    var s := IntToString(num);
    res := Finite(0.0);
    for k := 0 to |s|
      invariant res == ReduceChars(s[..k])
    {
      assert s[..k + 1][..k] == s[..k];
      res := Plus(res, ParseIntChar(s[k]));
    }
    assert s[..|s|] == s;
    LoopSum(num);
  }

  /** Reference for the loop: parseInt of every character, added up. */
  function ReduceChars(s: string): Number
  {
    if s == [] then Finite(0.0) else Plus(ReduceChars(s[..|s| - 1]), ParseIntChar(s[|s| - 1]))
  }

  lemma {:induction false} NaNStays(s: string, t: string)
    requires ReduceChars(s).NaN?
    ensures ReduceChars(s + t).NaN?
    decreases |t|
  {
    if t == [] {
      assert s + t == s;
    } else {
      var u := t[..|t| - 1];
      NaNStays(s, u);
      assert (s + t)[..|s + t| - 1] == s + u;
    }
  }

  /** Adding up the digit characters of `n.toString()` gives the digit sum. */
  lemma {:induction false} CharsOfDecimal(n: nat)
    ensures ReduceChars(NatToString(n)) == Finite(DigitSum(n) as real)
    decreases n
  {
    var s := NatToString(n);
    if n >= 10 {
      CharsOfDecimal(n / 10);
      assert s[..|s| - 1] == NatToString(n / 10);
    } else {
      assert s[..0] == [];
    }
  }

  /** On digits, `Number(item)` and `parseInt(value)` agree. */
  lemma {:induction false} ReduceDigitsIsReduceChars(s: string)
    requires AllDigits(s)
    ensures ReduceDigits(s) == ReduceChars(s)
  {
    if s != [] {
      ReduceDigitsIsReduceChars(s[..|s| - 1]);
      NumberOfDigitChar(s[|s| - 1]);
    }
  }

  lemma LoopSum(num: int)
    ensures ReduceChars(IntToString(num)) == (if num >= 0 then Finite(DigitSum(num) as real) else NaN)
  {
    if num >= 0 {
      CharsOfDecimal(num);
    } else {
      var s := IntToString(num);
      assert s == "-" + NatToString(-num);
      assert ReduceChars("-").NaN? by { assert "-"[..0] == []; }
      NaNStays("-", NatToString(-num));
    }
  }

  /** After a leading '-', `Number(item)` and `parseInt(value)` still add up
      the same way: both are NaN for the '-'. */
  lemma {:induction false} ReduceMinusDigits(d: string)
    requires AllDigits(d)
    ensures ReduceDigits("-" + d) == ReduceChars("-" + d)
    decreases |d|
  {
    var s := "-" + d;
    if d == [] {
      assert s == "-" && s[..0] == [];
      NonDigitChar('-');
    } else {
      var d' := d[..|d| - 1];
      assert s[..|s| - 1] == "-" + d';
      assert ReduceDigits("-" + d') == ReduceChars("-" + d') by { ReduceMinusDigits(d'); }
      NumberOfDigitChar(s[|s| - 1]);
    }
  }

  /** The reduce and the loop log the same value: the digit sum, and NaN for
      a negative number, whose '-' is not a number. */
  lemma DigitSumVersionsAgree(num: int)
    ensures DigitSumByReduce(num) == (if num >= 0 then Finite(DigitSum(num) as real) else NaN)
  {
    if num >= 0 {
      CharsOfDecimal(num);
      ReduceDigitsIsReduceChars(NatToString(num));
    } else {
      assert IntToString(num) == "-" + NatToString(-num);
      ReduceMinusDigits(NatToString(-num));
      LoopSum(num);
    }
  }

  lemma DigitSumExample()
    ensures DigitSum(1568) == 20
  {
    assert DigitSum(15) == 6 by { assert 15 / 10 == 1 && 15 % 10 == 5; }
    assert DigitSum(156) == 12 by { assert 156 / 10 == 15 && 156 % 10 == 6; }
    assert 1568 / 10 == 156 && 1568 % 10 == 8;
  }

  // ---------------------------------------------------------------------------
  // removing zeros

  predicate NotZeroChar(c: char) { c != '0' }

  /** Keeps the characters of `num.toString()` other than '0' and reads the
      result back with `Number`. */
  method RemoveZeros(num: int) returns (digits: string, res: Number)
    ensures digits == Filter(IntToString(num), NotZeroChar)
    ensures res == ToNumber(digits)
  {
    var s := IntToString(num);
    digits := "";
    for k := 0 to |s|
      invariant digits == Filter(s[..k], NotZeroChar)
    {
      assert s[..k + 1] == s[..k] + [s[k]];
      FilterAppend(s[..k], [s[k]], NotZeroChar);
      if s[k] != '0' {
        digits := digits + [s[k]];
      }
    }
    assert s[..|s|] == s;
    res := ToNumber(digits);
  }

  /** For a number that is not negative the result is the number written with
      its non-zero digits, in order; zero itself gives 0. */
  lemma RemoveZerosValue(num: nat)
    ensures var r := Filter(NatToString(num), NotZeroChar);
            AllDigits(r) && ToNumber(r) == Finite(ParseDigits(r) as real)
    ensures var r := Filter(NatToString(num), NotZeroChar);
            (r == [] <==> num == 0) && (r != [] ==> NatToString(ParseDigits(r)) == r)
  {
    var r := Filter(NatToString(num), NotZeroChar);
    RemoveZerosDigits(num);
    if r == [] {
      NumberOfEmpty();
    } else {
      NumberOfDigits(r);
      NatToStringOfZeroFree(r);
    }
  }

  lemma RemoveZerosDigits(num: nat)
    ensures var r := Filter(NatToString(num), NotZeroChar);
            AllDigits(r) && '0' !in r && (r == [] <==> num == 0)
  {
    var s := NatToString(num);
    var r := Filter(s, NotZeroChar);
    FilterMembers(s, NotZeroChar);
    assert forall i :: 0 <= i < |r| ==> r[i] in r;
    if num == 0 {
      assert s == "0";
      FilterStep(s, NotZeroChar);
      assert s[1..] == [];
    } else {
      assert s[0] in s && NotZeroChar(s[0]);
    }
  }

  /** No zero is left: removing zeros again changes nothing. */
  lemma RemoveZerosIdempotent(num: nat)
    ensures var r := Filter(NatToString(num), NotZeroChar);
            r != [] ==> AllDigits(r) && Filter(NatToString(ParseDigits(r)), NotZeroChar) == r
  {
    var r := Filter(NatToString(num), NotZeroChar);
    RemoveZerosDigits(num);
    if r != [] {
      NatToStringOfZeroFree(r);
      AllPass(r);
    }
  }

  lemma {:induction false} AllPass(r: string)
    requires '0' !in r
    ensures Filter(r, NotZeroChar) == r
  {
    if r != [] {
      assert r[0] in r && r == [r[0]] + r[1..];
      assert forall c :: c in r[1..] ==> c in r;
      AllPass(r[1..]);
    }
  }

  // ---------------------------------------------------------------------------
  // days left in the current month

  /** `new Date(year, month + 1, 0).getDate() - today.getDate()` for today's
      local date (month counted from 0), which stands for the clock. */
  function DaysRemaining(year: int, month: int, day: int): int
  {
    MakeDate(year, month + 1, 0).day - day
  }

  /** From year 100 on, day 0 of the next month is the last day of this one:
      the answer counts the days after today, 0 on the last day. */
  lemma DaysRemainingValue(year: int, month: int, day: int)
    requires year >= 100 && 0 <= month < 12 && 1 <= day <= DaysInMonth(year, month + 1)
    ensures DaysRemaining(year, month, day) == DaysInMonth(year, month + 1) - day
    ensures 0 <= DaysRemaining(year, month, day) <= 30
    ensures DaysRemaining(year, month, day) == 0 <==> day == DaysInMonth(year, month + 1)
  {
    DayZeroIsLastDay(year, month);
  }

  // ---------------------------------------------------------------------------
  // getAdjacentDays

  datatype Adjacent = Adjacent(next: string, curr: string, prev: string)

  /** `today` is `new Date().getDay()`, which lies in 0..6. */
  function GetAdjacentDays(today: int): Adjacent
    requires 0 <= today <= 6
  {
    var prevDay := if today == 0 then 6 else today - 1;
    var nextDay := if today == 6 then 0 else today + 1;
    Adjacent(WeekdayNames[nextDay], WeekdayNames[today], WeekdayNames[prevDay])
  }

  /** Yesterday and tomorrow are one step back and forward around the week,
      and neither is today. */
  lemma AdjacentDaysCyclic(today: int)
    requires 0 <= today <= 6
    ensures GetAdjacentDays(today).prev == WeekdayNames[(today + 6) % 7]
    ensures GetAdjacentDays(today).next == WeekdayNames[(today + 1) % 7]
    ensures GetAdjacentDays(today).curr == WeekdayNames[today]
    ensures GetAdjacentDays(today).prev != GetAdjacentDays(today).curr
    ensures GetAdjacentDays(today).next != GetAdjacentDays(today).curr
    ensures GetAdjacentDays((today + 1) % 7).prev == GetAdjacentDays(today).curr
  {
    var prevDay := if today == 0 then 6 else today - 1;
    var nextDay := if today == 6 then 0 else today + 1;
    assert prevDay == (today + 6) % 7 && nextDay == (today + 1) % 7;
    WeekdayNamesDistinct(prevDay, today);
    WeekdayNamesDistinct(nextDay, today);
  }
}
