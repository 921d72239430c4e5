/** Level 2, file 2.6: date validity by reconstruction, initials of words,
    divisor lists and seconds split into days, hours, minutes and seconds. */
module Exercises2_6 {
  import opened JsValues
  import opened Decimal
  import opened Strings
  import opened Divisibility
  import opened JsNumber
  import opened Calendar

  // ---------------------------------------------------------------------------
  // isValidDate

  /** Field i of `dateString.split('-').map(Number)`; a missing field is
      `undefined`, which is falsy just as NaN is. */
  function Field(parts: seq<string>, i: nat): Number
  {
    if i < |parts| then ToNumber(parts[i]) else NaN
  }

  /** `!x` for a number: NaN and 0 are falsy. */
  predicate NumberFalsy(x: Number)
  {
    x.NaN? || x == Finite(0.0)
  }

  predicate IsInteger(x: Number)
  {
    x.Finite? && x.value == x.value.Floor as real
  }

  /** `new Date(year, month - 1, day)` shows the same year, month and day. A
      non-integer or infinite field can never match, and a date outside the
      time range of `Date` is invalid. */
  predicate Reconstructs(year: Number, month: Number, day: Number)
  {
    IsInteger(year) && IsInteger(month) && IsInteger(day)
    && ReconstructsAt(year.value.Floor, month.value.Floor, day.value.Floor)
  }

  /** The same on integer fields, month counted from 1. */
  predicate ReconstructsAt(y: int, m: int, d: int)
  {
    var date := MakeDate(y, m - 1, d);
    InRange(date) && date == Date(y, m - 1, d)
  }

  /** The three fields are truthy and reconstruct. */
  predicate ValidFields(year: Number, month: Number, day: Number)
  {
    !(NumberFalsy(year) || NumberFalsy(month) || NumberFalsy(day))
    && Reconstructs(year, month, day)
  }

  predicate IsValidDate(dateString: string)
  {
    var parts := Split(dateString, '-');
    ValidFields(Field(parts, 0), Field(parts, 1), Field(parts, 2))
  }

  /** On integer fields, reconstruction is a question about `MakeDate`. */
  lemma ReconstructsInts(y: int, m: int, d: int)
    ensures Reconstructs(Finite(y as real), Finite(m as real), Finite(d as real)) <==> ReconstructsAt(y, m, d)
  {
    var year, month, day := Finite(y as real), Finite(m as real), Finite(d as real);
    IntegerOfInt(y);
    IntegerOfInt(m);
    IntegerOfInt(d);
    assert Reconstructs(year, month, day) == ReconstructsAt(year.value.Floor, month.value.Floor, day.value.Floor);
  }

  lemma IntegerOfInt(x: int)
    ensures IsInteger(Finite(x as real)) && Finite(x as real).value.Floor == x
  {
  }

  /** From year 100 on, integer fields reconstruct exactly when they name a
      real day of the Gregorian calendar. */
  lemma ReconstructsIff(y: int, m: int, d: int)
    requires 100 <= y <= 275759
    ensures Reconstructs(Finite(y as real), Finite(m as real), Finite(d as real))
        <==> 1 <= m <= 12 && 1 <= d <= DaysInMonth(y, m)
  {
    ReconstructsInts(y, m, d);
    assert MakeDate(y, m - 1, d) == Normalize(y, m - 1, d);
    NormalizeFixed(y, m - 1, d);
    if 1 <= m <= 12 && 1 <= d <= DaysInMonth(y, m) {
      InRangeYears(Date(y, m - 1, d));
    }
  }

  /** Years 0 to 99 become 1900 to 1999, so they never reconstruct. */
  lemma TwoDigitYearsRejected(y: int, m: int, d: int)
    requires 0 <= y <= 99
    ensures !Reconstructs(Finite(y as real), Finite(m as real), Finite(d as real))
  {
    ReconstructsInts(y, m, d);
    assert MakeDate(y, m - 1, d) == Normalize(1900 + y, m - 1, d);
    if Normalize(1900 + y, m - 1, d) == Date(y, m - 1, d) {
      NormalizeKeepsYear(1900 + y, m - 1, d, y);
    }
  }

  /** A '-'-free prefix is the first piece of the split. */
  lemma SplitCons(a: string, rest: string)
    requires '-' !in a
    ensures Split(a + "-" + rest, '-') == [a] + Split(rest, '-')
  {
    assert a + "-" + rest == a + ("-" + rest);
    SplitAppend(a, "-" + rest, '-');
    assert ("-" + rest)[1..] == rest;
    assert a + [] == a;
  }

  lemma SplitSingle(a: string)
    requires '-' !in a
    ensures Split(a, '-') == [a]
  {
    SplitAppend(a, [], '-');
    assert a + [] == a;
  }

  lemma SplitThree(ys: string, ms: string, ds: string)
    requires '-' !in ys && '-' !in ms && '-' !in ds
    ensures Split(ys + "-" + ms + "-" + ds, '-') == [ys, ms, ds]
  {
    assert ys + "-" + ms + "-" + ds == ys + "-" + (ms + "-" + ds);
    SplitCons(ys, ms + "-" + ds);
    SplitCons(ms, ds);
    SplitSingle(ds);
  }

  /** The date is judged on its first three fields; any further '-' parts are
      ignored. */
  lemma ExtraPartsIgnored(ys: string, ms: string, ds: string, rest: string)
    requires '-' !in ys && '-' !in ms && '-' !in ds
    ensures IsValidDate(ys + "-" + ms + "-" + ds + "-" + rest) == IsValidDate(ys + "-" + ms + "-" + ds)
  {
    var s := ys + "-" + ms + "-" + ds + "-" + rest;
    assert s == ys + "-" + (ms + "-" + (ds + "-" + rest));
    SplitCons(ys, ms + "-" + (ds + "-" + rest));
    SplitCons(ms, ds + "-" + rest);
    SplitCons(ds, rest);
    SplitThree(ys, ms, ds);
  }

  /** year-month-day with '-'-free parts is judged on the numbers of the parts. */
  lemma IsValidDateOfParts(ys: string, ms: string, ds: string)
    requires '-' !in ys && '-' !in ms && '-' !in ds
    ensures IsValidDate(ys + "-" + ms + "-" + ds) == ValidFields(ToNumber(ys), ToNumber(ms), ToNumber(ds))
  {
    SplitThree(ys, ms, ds);
  }

  lemma ValidFieldsIff(y: int, m: int, d: int)
    requires 100 <= y <= 275759 && m >= 0 && d >= 0
    ensures ValidFields(Finite(y as real), Finite(m as real), Finite(d as real))
        <==> 1 <= m <= 12 && 1 <= d <= DaysInMonth(y, m)
  {
    ReconstructsIff(y, m, d);
  }

  /** Three digit strings: a valid date exactly when month and day name a day
      of that year's calendar, for years 100 to 275759. */
  lemma IsValidDateDigits(ys: string, ms: string, ds: string)
    requires ys != [] && ms != [] && ds != [] && AllDigits(ys) && AllDigits(ms) && AllDigits(ds)
    requires 100 <= ParseDigits(ys) <= 275759
    ensures IsValidDate(ys + "-" + ms + "-" + ds)
        <==> 1 <= ParseDigits(ms) <= 12 && 1 <= ParseDigits(ds) <= DaysInMonth(ParseDigits(ys), ParseDigits(ms))
  {
    NoDash(ys);
    NoDash(ms);
    NoDash(ds);
    IsValidDateOfParts(ys, ms, ds);
    NumberOfDigits(ys);
    NumberOfDigits(ms);
    NumberOfDigits(ds);
    ValidFieldsIff(ParseDigits(ys), ParseDigits(ms), ParseDigits(ds));
  }

  lemma NoDash(s: string)
    requires AllDigits(s)
    ensures '-' !in s
  {
    assert !IsDigit('-');
  }

  /** A field that is missing, not a number, or zero makes the date invalid. */
  lemma FalsyFieldRejected(dateString: string, i: nat)
    requires i < 3 && NumberFalsy(Field(Split(dateString, '-'), i))
    ensures !IsValidDate(dateString)
  {
    var parts := Split(dateString, '-');
    assert i == 0 || i == 1 || i == 2;
  }

  lemma ValidDateExample(ys: string, ms: string, ds: string)
    requires ys == "2025" && ms == "01" && ds == "18"
    ensures IsValidDate(ys + "-" + ms + "-" + ds)
  {
    assert AllDigits(ys) && AllDigits(ms) && AllDigits(ds);
    ParseFour('2', '0', '2', '5');
    ParseTwo('0', '1');
    ParseTwo('1', '8');
    IsValidDateDigits(ys, ms, ds);
  }

  /** February has no 30th. */
  lemma InvalidDayExample(ys: string, ms: string, ds: string)
    requires ys == "2025" && ms == "02" && ds == "30"
    ensures !IsValidDate(ys + "-" + ms + "-" + ds)
  {
    assert AllDigits(ys) && AllDigits(ms) && AllDigits(ds);
    ParseFour('2', '0', '2', '5');
    ParseTwo('0', '2');
    ParseTwo('3', '0');
    IsValidDateDigits(ys, ms, ds);
  }

  /** There is no 13th month. */
  lemma InvalidMonthExample(ys: string, ms: string, ds: string)
    requires ys == "2025" && ms == "13" && ds == "01"
    ensures !IsValidDate(ys + "-" + ms + "-" + ds)
  {
    assert AllDigits(ys) && AllDigits(ms) && AllDigits(ds);
    ParseFour('2', '0', '2', '5');
    ParseTwo('1', '3');
    ParseTwo('0', '1');
    IsValidDateDigits(ys, ms, ds);
  }

  lemma ParseTwo(a: char, b: char)
    requires IsDigit(a) && IsDigit(b)
    ensures ParseDigits([a, b]) == DigitValue(a) * 10 + DigitValue(b)
  {
    assert [a][..0] == [];
    assert ParseDigits([a]) == DigitValue(a);
    assert [a, b][..1] == [a];
  }

  lemma ParseFour(a: char, b: char, c: char, d: char)
    requires IsDigit(a) && IsDigit(b) && IsDigit(c) && IsDigit(d)
    ensures ParseDigits([a, b, c, d]) == ((DigitValue(a) * 10 + DigitValue(b)) * 10 + DigitValue(c)) * 10 + DigitValue(d)
  {
    assert [a, b, c, d][..3] == [a, b, c];
    assert [a, b, c][..2] == [a, b];
    ParseTwo(a, b);
    assert ParseDigits([a, b, c]) == (DigitValue(a) * 10 + DigitValue(b)) * 10 + DigitValue(c);
  }

  /** A string without white space that starts with a letter from a to d is
      not a number. */
  lemma LetterIsNaN(ys: string)
    requires ys != [] && 'a' <= ys[0] <= 'd'
    requires forall i :: 0 <= i < |ys| ==> !IsJsWhiteSpace(ys[i])
    ensures ToNumber(ys) == NaN
  {
    NotWhiteTrim(ys);
    var ie := ExponentIndex(ys);
    assert ie >= 1;
    var mant := ys[..ie];
    assert IndexOf(mant, '.') >= 1;
    assert mant[..IndexOf(mant, '.')][0] == ys[0];
  }

  /** So a year part such as "abcd" makes the date invalid. */
  lemma LetterYearRejected(ys: string, rest: string)
    requires ys != [] && 'a' <= ys[0] <= 'd' && '-' !in ys
    requires forall i :: 0 <= i < |ys| ==> !IsJsWhiteSpace(ys[i])
    ensures !IsValidDate(ys + "-" + rest)
  {
    SplitCons(ys, rest);
    LetterIsNaN(ys);
  }

  lemma {:induction false} NotWhiteTrim(s: string)
    requires forall i :: 0 <= i < |s| ==> !IsJsWhiteSpace(s[i])
    ensures Trim(s) == s
  {
    assert TrimStart(s) == s;
    if s != [] {
      assert TrimEnd(s) == s;
    }
  }

  // ---------------------------------------------------------------------------
  // initials

  /** `words.map(word => word[0].toUpperCase()).join('')`: an empty word has no
      first character, and `undefined.toUpperCase()` throws. */
  function InitialsOf(words: seq<string>): (r: Result<string>)
  {
    if words == [] then Ok([])
    else if words[0] == [] then Err(UpperOfUndefined)
    else
      match InitialsOf(words[1..])
      case Ok(rest) => Ok([Upper(words[0][0])] + rest)
      case Err(e) => Err(e)
  }

  /** The function as written splits the empty string `res`, not its argument. */
  function InitialsAsWritten(str: string): Result<string>
  {
    var res := "";
    InitialsOf(Split(res, ' '))
  }

  /** The intended function: one upper-cased initial per space-separated word. */
  function Initials(str: string): Result<string>
  {
    InitialsOf(Split(str, ' '))
  }

  /** As written it throws the same TypeError whatever the argument. */
  lemma InitialsAsWrittenAlwaysFails(str: string)
    ensures InitialsAsWritten(str) == Err(UpperOfUndefined)
  {
    assert Split("", ' ') == [[]];
  }

  /** It fails exactly when some word is empty, and otherwise gives the
      upper-cased first letter of each word, in order. */
  lemma {:induction false} InitialsOfSpec(words: seq<string>)
    ensures InitialsOf(words).Ok? <==> forall i :: 0 <= i < |words| ==> words[i] != []
    ensures InitialsOf(words).Ok? ==>
              var r := InitialsOf(words).value;
              |r| == |words| && forall i :: 0 <= i < |words| ==> r[i] == Upper(words[i][0])
  {
    if words != [] {
      var tail := words[1..];
      InitialsOfSpec(tail);
      assert forall i :: 1 <= i < |words| ==> words[i] == tail[i - 1];
      if words[0] != [] && InitialsOf(tail).Ok? {
        var rest := InitialsOf(tail).value;
        var r := [Upper(words[0][0])] + rest;
        assert InitialsOf(words) == Ok(r);
        assert forall i :: 1 <= i < |words| ==> r[i] == rest[i - 1];
      }
    }
  }

  /** Words joined by single spaces give back their initials. */
  lemma InitialsOfJoined(words: seq<string>)
    requires |words| >= 1
    requires forall i :: 0 <= i < |words| ==> words[i] != [] && ' ' !in words[i]
    ensures Initials(JoinWith(words, " ")).Ok?
    ensures var r := Initials(JoinWith(words, " ")).value;
            |r| == |words| && forall i :: 0 <= i < |words| ==> r[i] == Upper(words[i][0])
  {
    assert " " == [' '];
    SplitJoin(words, ' ');
    InitialsOfSpec(words);
  }

  /** Leading, trailing or doubled spaces make an empty word, so it throws. */
  lemma InitialsSpaceFails(a: string, b: string)
    ensures Initials(a + "  " + b).Err?
    ensures Initials(" " + a).Err?
  {
    InitialsOfSpec(Split(a + "  " + b, ' '));
    EmptyPieceOfDoubleSpace(a, b);
    InitialsOfSpec(Split(" " + a, ' '));
    assert (" " + a)[1..] == a;
  }

  lemma {:induction false} EmptyPieceOfDoubleSpace(a: string, b: string)
    ensures exists i :: 1 <= i < |Split(a + "  " + b, ' ')| && Split(a + "  " + b, ' ')[i] == []
    decreases |a|
  {
    var s := a + "  " + b;
    if a == [] {
      assert s == [' '] + ([' '] + b);
      var inner := Split([' '] + b, ' ');
      assert inner == [[]] + Split(b, ' ') by { SplitOnSeparator(b, ' '); }
      assert Split(s, ' ') == [[]] + inner by { SplitOnSeparator([' '] + b, ' '); }
      assert Split(s, ' ')[1] == [];
    } else {
      assert s == [a[0]] + (a[1..] + "  " + b);
      EmptyPieceOfDoubleSpace(a[1..], b);
      var rest := Split(a[1..] + "  " + b, ' ');
      var i :| 1 <= i < |rest| && rest[i] == [];
      if a[0] == ' ' {
        assert Split(s, ' ') == [[]] + rest by { SplitOnSeparator(a[1..] + "  " + b, ' '); }
        assert Split(s, ' ')[i + 1] == rest[i];
      } else {
        assert Split(s, ' ') == [[a[0]] + rest[0]] + rest[1..] by { SplitOnOther(a[0], a[1..] + "  " + b, ' '); }
        assert Split(s, ' ')[i] == rest[i];
      }
    }
  }

  lemma InitialsExample(words: seq<string>)
    requires words == ["Сделайте", "функцию,", "которая", "параметром"]
    ensures Initials(JoinWith(words, " ")) == Ok("СФКП")
  {
    assert forall i :: 0 <= i < |words| ==> words[i] != [] && ' ' !in words[i];
    InitialsOfJoined(words);
    var r := Initials(JoinWith(words, " ")).value;
    assert words[0][0] == 'С' && words[1][0] == 'ф' && words[2][0] == 'к' && words[3][0] == 'п';
    assert r[0] == 'С' && r[1] == 'Ф' && r[2] == 'К' && r[3] == 'П';
    assert r == "СФКП";
  }

  // ---------------------------------------------------------------------------
  // replaceWithDivisors

  /** The callback: pushes every i in 1..num that divides num. */
  method DivisorList(num: int) returns (divisors: seq<int>)
    ensures divisors == Divisors(num)
  {
    divisors := [];
    var i := 1;
    while i <= num
      invariant 1 <= i && (num >= 0 ==> i <= num + 1) && (num < 0 ==> i == 1)
      invariant divisors == DivisorsUpTo(num, i - 1)
      decreases num - i
    {
      if num % i == 0 {
        divisors := divisors + [i];
      }
      i := i + 1;
    }
  }

  /** `numbers.map(...)`: each number becomes the ascending list of its divisors. */
  method ReplaceWithDivisors(numbers: seq<int>) returns (result: seq<seq<int>>)
    ensures |result| == |numbers|
    ensures forall k :: 0 <= k < |numbers| ==> result[k] == Divisors(numbers[k])
  {
    result := [];
    for k := 0 to |numbers|
      invariant |result| == k
      invariant forall j :: 0 <= j < k ==> result[j] == Divisors(numbers[j])
    {
      var divisors := DivisorList(numbers[k]);
      result := result + [divisors];
    }
  }

  /** The list holds exactly the divisors of n from 1 to n, ascending, and is
      empty for n <= 0. */
  lemma DivisorsSpec(n: int)
    ensures forall d :: d in Divisors(n) <==> 1 <= d <= n && n % d == 0
    ensures forall i, j :: 0 <= i < j < |Divisors(n)| ==> Divisors(n)[i] < Divisors(n)[j]
    ensures n <= 0 ==> Divisors(n) == []
  {
  }

  lemma DivisorsExample()
    ensures Divisors(6) == [1, 2, 3, 6]
  {
    assert DivisorsUpTo(6, 3) == [1, 2, 3];
  }

  // ---------------------------------------------------------------------------
  // convertSeconds

  datatype Duration = Duration(d: int, h: int, m: int, s: int)

  /** JavaScript's `%`: the remainder takes the sign of the dividend. */
  function JsRem(a: int, b: int): int
    requires b > 0
  {
    if a >= 0 then a % b else -((-a) % b)
  }

  /** `Math.floor` of a quotient by a positive divisor is Dafny's `/`. */
  function ConvertSeconds(seconds: int): Duration
  {
    Duration(seconds / (24 * 60 * 60),
             JsRem(seconds, 24 * 60 * 60) / (60 * 60),
             JsRem(seconds, 60 * 60) / 60,
             JsRem(seconds, 60))
  }

  /** For a natural number of seconds the parts add back up, and hours,
      minutes and seconds stay below 24, 60 and 60. */
  lemma ConvertSecondsSpec(seconds: nat)
    ensures var r := ConvertSeconds(seconds);
            r.d * 86400 + r.h * 3600 + r.m * 60 + r.s == seconds
            && 0 <= r.h < 24 && 0 <= r.m < 60 && 0 <= r.s < 60 && r.d >= 0
  {
    var q, r := seconds / 86400, seconds % 86400;
    var h, r2 := r / 3600, r % 3600;
    assert seconds % 3600 == r2 by {
      assert seconds == q * 86400 + h * 3600 + r2;
      assert seconds == (q * 24 + h) * 3600 + r2;
    }
    var m, s := r2 / 60, r2 % 60;
    assert seconds % 60 == s by {
      assert seconds == ((q * 24 + h) * 60 + m) * 60 + s;
    }
  }

  /** The representation is unique: a split with these bounds that adds up to
      the seconds is the one returned. */
  lemma ConvertSecondsUnique(seconds: nat, r: Duration)
    requires r.d >= 0 && 0 <= r.h < 24 && 0 <= r.m < 60 && 0 <= r.s < 60
    requires r.d * 86400 + r.h * 3600 + r.m * 60 + r.s == seconds
    ensures ConvertSeconds(seconds) == r
  {
    ConvertSecondsSpec(seconds);
    var c := ConvertSeconds(seconds);
    var t, u := r.h * 3600 + r.m * 60 + r.s, c.h * 3600 + c.m * 60 + c.s;
    assert 0 <= t < 86400 && 0 <= u < 86400;
    assert r.d == c.d by {
      if r.d < c.d { MulMono(r.d + 1, c.d, 86400); }
      if c.d < r.d { MulMono(c.d + 1, r.d, 86400); }
    }
  }

  lemma ConvertSecondsExample()
    ensures ConvertSeconds(1234567) == Duration(14, 6, 56, 7)
  {
  }
}
