/** Level 2, file 2.5: digit-string and fraction checks, the second largest
    value, and two ways of building an integer range. */
module Exercises2_5 {
  import opened JsValues
  import opened Decimal
  import opened Strings
  import opened Sequences
  import opened Sorting
  import opened JsNumber

  // ---------------------------------------------------------------------------
  // isNumber

  /** `str.split('').every(char => !isNaN(Number(char)))`. */
  predicate IsNumberString(str: string)
  {
    forall i :: 0 <= i < |str| ==> IsNumeric([str[i]])
  }

  /** The `isNumber` test accepts exactly the strings of digits and white space, the
      empty string included. */
  lemma IsNumberStringChars(str: string)
    ensures IsNumberString(str) <==> forall i :: 0 <= i < |str| ==> IsDigit(str[i]) || IsJsWhiteSpace(str[i])
  {
    forall i | 0 <= i < |str| {
      NumericChar(str[i]);
    }
  }

  /** The sample string of digits passes; so does the empty string. */
  lemma IsNumberExample()
    ensures IsNumberString("465464844")
    ensures IsNumberString("")
  {
    var s := "465464844";
    assert AllDigits(s);
    DigitsAreNumber(s);
  }

  lemma DigitsAreNumber(s: string)
    requires AllDigits(s)
    ensures IsNumberString(s)
  {
    IsNumberStringChars(s);
  }

  lemma LetterIsNotNumber(s: string, i: nat)
    requires i < |s| && 'a' <= s[i] <= 'z'
    ensures !IsNumberString(s)
  {
    NumericChar(s[i]);
  }

  // ---------------------------------------------------------------------------
  // isFraction

  /** `str.includes('/') && str.split('/').length === 2 &&
      str.split('/').every(part => !isNaN(Number(part)))`. */
  predicate IsFraction(str: string)
  {
    '/' in str && |Split(str, '/')| == 2 && forall i :: 0 <= i < |Split(str, '/')| ==> IsNumeric(Split(str, '/')[i])
  }

  /** With exactly one slash, the string is a fraction iff both sides are
      numbers (either side may be empty, which `Number` reads as 0). */
  lemma FractionParts(a: string, b: string)
    requires '/' !in a && '/' !in b
    ensures IsFraction(a + "/" + b) <==> IsNumeric(a) && IsNumeric(b)
  {
    var s := a + "/" + b;
    SplitJoin([a, b], '/');
    assert JoinWith([a, b], "/") == s by {
      assert [a, b][1..] == [b];
    }
    assert s[|a|] == '/';
  }

  /** A fraction has exactly one slash and is its two parts around it. */
  lemma FractionSplits(str: string)
    requires IsFraction(str)
    ensures Count(str, '/') == 1
    ensures var parts := Split(str, '/');
            str == parts[0] + "/" + parts[1] && '/' !in parts[0] && '/' !in parts[1]
  {
    var parts := Split(str, '/');
    SplitShape(str, '/');
    JoinSplit(str, '/');
    assert parts[1..] == [parts[1]];
  }

  lemma FractionExample()
    ensures IsFraction("5/2")
  {
    NumberOfDigitChar('5');
    NumberOfDigitChar('2');
    assert "5/2" == "5" + "/" + "2";
    FractionParts("5", "2");
  }

  /** Empty parts count as 0, so "/" and "5/" are fractions. */
  lemma EmptyPartsExample()
    ensures IsFraction("/") && IsFraction("5/")
  {
    SlashAloneExample();
    TrailingSlashExample();
  }

  lemma SlashAloneExample()
    ensures IsFraction("/")
  {
    NumberOfEmpty();
    assert "/" == [] + "/" + [];
    FractionParts([], []);
  }

  lemma TrailingSlashExample()
    ensures IsFraction("5/")
  {
    NumberOfDigitChar('5');
    NumberOfEmpty();
    assert "5/" == "5" + "/" + [];
    FractionParts("5", []);
  }

  lemma TwoSlashesExample()
    ensures !IsFraction("1/2/3")
  {
    SplitShape("1/2/3", '/');
    assert Count("1/2/3", '/') == 2;
  }

  // ---------------------------------------------------------------------------
  // getSecondLargest

  /** The comparator `(a, b) => b - a`: a may come before b when b - a <= 0. */
  predicate DescLe(a: int, b: int) { b - a <= 0 }

  lemma DescLeTotal()
    ensures Total(DescLe)
  {
  }

  /** Descending numeric sort. */
  function SortDesc(s: seq<int>): (r: seq<int>)
    ensures multiset(r) == multiset(s) && SortedBy(r, DescLe)
  {
    DescLeTotal();
    Sort(s, DescLe)
  }

  /** `[...new Set(array)].sort((a, b) => b - a)`, then the second entry, or
      null when there is none. */
  function GetSecondLargest(arr: seq<int>): Option<int>
  {
    var uniqueSorted := SortDesc(SetSpread(arr));
    if |uniqueSorted| > 1 then Some(uniqueSorted[1]) else None
  }

  lemma {:induction false} SortedDescPairs(u: seq<int>, i: nat, j: nat)
    requires SortedBy(u, DescLe) && i <= j < |u|
    ensures u[j] <= u[i]
    decreases j - i
  {
    if i < j {
      SortedDescPairs(u, i + 1, j);
      assert DescLe(u[i], u[i + 1]);
    }
  }

  lemma {:induction false} DistinctMultiset(d: seq<int>, x: int)
    requires Distinct(d)
    ensures multiset(d)[x] <= 1
  {
    if d != [] {
      assert d == [d[0]] + d[1..];
      assert Distinct(d[1..]) by {
        forall i, j | 0 <= i < j < |d[1..]| ensures d[1..][i] != d[1..][j] {
          assert d[1..][i] == d[i + 1] && d[1..][j] == d[j + 1];
        }
      }
      DistinctMultiset(d[1..], x);
      if x == d[0] {
        assert x !in d[1..] by {
          forall k | 0 <= k < |d[1..]| ensures d[1..][k] != x {
            assert d[1..][k] == d[k + 1];
          }
        }
      }
    }
  }

  /** The de-duplicated, sorted array holds the same values as the array. */
  lemma SortedSetMembers(arr: seq<int>)
    ensures forall x :: x in SortDesc(SetSpread(arr)) <==> x in arr
    ensures Distinct(SetSpread(arr))
  {
    var d := SetSpread(arr);
    SetSpreadIsDedupe(arr);
    var u := SortDesc(d);
    forall x ensures x in u <==> x in arr {
      assert x in u <==> x in multiset(u);
      assert x in d <==> x in multiset(d);
    }
  }

  lemma SortedSetHead(arr: seq<int>)
    requires |SortDesc(SetSpread(arr))| > 1
    ensures SortDesc(SetSpread(arr))[0] > SortDesc(SetSpread(arr))[1]
  {
    var d := SetSpread(arr);
    var u := SortDesc(d);
    SortedSetMembers(arr);
    SortedDescPairs(u, 0, 1);
    DistinctMultiset(d, u[0]);
    assert u == [u[0], u[1]] + u[2..];
    assert u[0] == u[1] ==> multiset(u)[u[0]] >= 2;
  }

  /** null exactly when the array holds fewer than two distinct values;
      otherwise the largest value strictly below the maximum. */
  lemma SecondLargestSpec(arr: seq<int>)
    ensures GetSecondLargest(arr).None? <==> forall x, y :: x in arr && y in arr ==> x == y
    ensures GetSecondLargest(arr).Some? ==>
              var v := GetSecondLargest(arr).value;
              v in arr && exists m :: m in arr && v < m && forall x :: x in arr ==> x <= m && (x != m ==> x <= v)
  {
    var u := SortDesc(SetSpread(arr));
    SortedSetMembers(arr);
    if |u| > 1 {
      var m := u[0];
      var v := u[1];
      SortedSetHead(arr);
      forall x | x in arr ensures x <= m && (x != m ==> x <= v) {
        var k :| 0 <= k < |u| && u[k] == x;
        SortedDescPairs(u, 0, k);
        if k >= 1 {
          SortedDescPairs(u, 1, k);
        }
      }
      assert m in arr && v in arr;
    } else {
      forall x, y | x in arr && y in arr ensures x == y {
        assert x in u && y in u;
      }
    }
  }

  /** The sample array gives 8. */
  lemma SecondLargestExample(arr: seq<int>)
    requires arr == [1, 3, 2, 6, 8, 6, 11]
    ensures GetSecondLargest(arr) == Some(8)
  {
    SecondLargestUnique(arr, 11, 8);
  }

  /** The value `SecondLargestSpec` describes is determined by the array. */
  lemma SecondLargestUnique(arr: seq<int>, m: int, v: int)
    requires m in arr && v in arr && v < m
    requires forall x :: x in arr ==> x <= m && (x != m ==> x <= v)
    ensures GetSecondLargest(arr) == Some(v)
  {
    SecondLargestSpec(arr);
  }

  // ---------------------------------------------------------------------------
  // the integer range

  /** `Array.from({ length: max - min + 1 }, (_, i) => min + i)`: a negative
      length is clamped to 0. */
  function RangeFrom(min: int, max: int): seq<int>
  {
    seq(if max - min + 1 > 0 then max - min + 1 else 0, i => min + i)
  }

  /** The for-loop version pushing min, min + 1, ..., max. */
  method RangeLoop(min: int, max: int) returns (res: seq<int>)
    ensures res == RangeFrom(min, max)
  {
    res := [];
    var i := min;
    while i <= max
      invariant min <= i && (min <= max + 1 ==> i <= max + 1) && (min > max ==> i == min)
      invariant res == seq(i - min, k => min + k)
      decreases max - i
    {
      res := res + [i];
      i := i + 1;
    }
  }

  /** The range holds exactly the integers from min to max, ascending, and is
      empty when min > max. */
  lemma RangeSpec(min: int, max: int)
    ensures |RangeFrom(min, max)| == if min <= max then max - min + 1 else 0
    ensures forall x :: x in RangeFrom(min, max) <==> min <= x <= max
    ensures forall i, j :: 0 <= i < j < |RangeFrom(min, max)| ==> RangeFrom(min, max)[i] < RangeFrom(min, max)[j]
  {
    var r := RangeFrom(min, max);
    forall x | min <= x <= max ensures x in r {
      assert r[x - min] == x;
    }
  }

  lemma RangeExample()
    ensures RangeFrom(2, 12) == [2, 3, 4, 5, 6, 7, 8, 9, 10, 11, 12]
  {
  }
}
