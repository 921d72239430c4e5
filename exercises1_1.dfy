/** Level 1, file 1.1: ascending digits, removing empty elements in place,
    sorting every sub-array, and trimming the longer of two arrays. */
module Exercises1_1 {
  import opened JsValues
  import opened Decimal
  import opened Sequences
  import opened Sorting

  // ---------------------------------------------------------------------------
  // isDigitsAscending

  /** Every character is smaller than every later one. */
  predicate StrictlyAscending(s: string)
  {
    forall i, j :: 0 <= i < j < |s| ==> s[i] < s[j]
  }

  /** Compares each character of `number.toString()` with the one before it and
      answers false at the first that is not greater. A minus sign takes part
      in the comparison like any other character. */
  method IsDigitsAscending(number: int) returns (b: bool)
    ensures b <==> StrictlyAscending(IntToString(number))
  {
    var numStr := IntToString(number);
    var i := 1;
    while i < |numStr|
      invariant 1 <= i <= |numStr| || (|numStr| <= 1 && i == 1)
      invariant forall a, c :: 0 <= a < c < i && c < |numStr| ==> numStr[a] < numStr[c]
    {
      if numStr[i] <= numStr[i - 1] {
        return false;
      }
      i := i + 1;
    }
    return true;
  }

  lemma AscendingExample12345()
    ensures StrictlyAscending(IntToString(12345))
  {
    assert NatToString(12) == "12";
    assert NatToString(123) == "123";
    assert NatToString(1234) == "1234";
    assert NatToString(12345) == "12345";
  }

  lemma AscendingExample12341()
    ensures !StrictlyAscending(IntToString(12341))
  {
    assert NatToString(12) == "12";
    assert NatToString(123) == "123";
    assert NatToString(1234) == "1234";
    assert NatToString(12341) == "12341";
    assert "12341"[0] == "12341"[4];
  }

  lemma AscendingExample1357()
    ensures StrictlyAscending(IntToString(1357))
  {
    assert NatToString(13) == "13";
    assert NatToString(135) == "135";
    assert NatToString(1357) == "1357";
  }

  lemma AscendingExample9876()
    ensures !StrictlyAscending(IntToString(9876))
  {
    assert NatToString(98) == "98";
    assert NatToString(987) == "987";
    assert NatToString(9876) == "9876";
    assert "9876"[0] > "9876"[1];
  }

  /** The '-' of a negative number sorts below every digit, so the sign never
      decides the answer. */
  lemma SignIgnored(n: int)
    requires n > 0
    ensures StrictlyAscending(IntToString(-n)) <==> StrictlyAscending(IntToString(n))
  {
    var s := NatToString(n);
    SignPrefix(s);
  }

  lemma SignPrefix(s: string)
    requires AllDigits(s)
    ensures StrictlyAscending("-" + s) <==> StrictlyAscending(s)
  {
    var t := "-" + s;
    assert forall k :: 0 <= k < |s| ==> t[k + 1] == s[k];
    if StrictlyAscending(s) {
      forall i, j | 0 <= i < j < |t| ensures t[i] < t[j] {
        if i == 0 {
          assert IsDigit(s[j - 1]);
        } else {
          assert s[i - 1] < s[j - 1];
        }
      }
    }
    if StrictlyAscending(t) {
      forall i, j | 0 <= i < j < |s| ensures s[i] < s[j] {
        assert t[i + 1] < t[j + 1];
      }
    }
  }

  /** A single digit is ascending. */
  lemma SingleDigit(n: int)
    requires 0 <= n < 10
    ensures StrictlyAscending(IntToString(n))
  {
    assert |NatToString(n)| == 1;
  }

  // ---------------------------------------------------------------------------
  // delEmptyEl: forEach with splice

  /** What `arr.forEach((e, i) => { if (!e) arr.splice(i, 1) })` leaves: the
      callback walks the indices of the original length, so after a removal the
      element that slides into the freed index is never looked at and stays. */
  function Cleaned(s: seq<Value>): (r: seq<Value>)
    ensures |r| <= |s|
  {
    if s == [] then []
    else if Falsy(s[0]) then (if |s| == 1 then [] else [s[1]] + Cleaned(s[2..]))
    else [s[0]] + Cleaned(s[1..])
  }

  lemma CleanedTruthyHead(s: seq<Value>)
    requires s != [] && !Falsy(s[0])
    ensures Cleaned(s) == [s[0]] + Cleaned(s[1..])
  {
  }

  lemma CleanedFalsyHead(s: seq<Value>)
    requires |s| > 1 && Falsy(s[0])
    ensures Cleaned(s) == [s[1]] + Cleaned(s[2..])
  {
  }

  /** One visited element that stays: the walk moves past it. */
  lemma CleanedKeep(orig: seq<Value>, j: nat, done: seq<Value>, goal: seq<Value>)
    requires j < |orig| && !Falsy(orig[j]) && done + Cleaned(orig[j..]) == goal
    ensures (done + [orig[j]]) + Cleaned(orig[j + 1..]) == goal
    ensures done + orig[j..] == (done + [orig[j]]) + orig[j + 1..]
  {
    var rest := orig[j..];
    assert rest[0] == orig[j] && rest[1..] == orig[j + 1..];
    CleanedTruthyHead(rest);
    var tail := Cleaned(orig[j + 1..]);
    assert (done + [orig[j]]) + tail == done + ([orig[j]] + tail);
    assert rest == [orig[j]] + orig[j + 1..];
  }

  /** One removed element with a successor: the successor slides into its
      index and is passed over. */
  lemma CleanedSkip(orig: seq<Value>, j: nat, done: seq<Value>, goal: seq<Value>)
    requires j + 1 < |orig| && Falsy(orig[j]) && done + Cleaned(orig[j..]) == goal
    ensures (done + [orig[j + 1]]) + Cleaned(orig[j + 2..]) == goal
    ensures done + orig[j + 1..] == (done + [orig[j + 1]]) + orig[j + 2..]
  {
    var rest := orig[j..];
    assert rest[0] == orig[j] && rest[1] == orig[j + 1] && rest[2..] == orig[j + 2..];
    CleanedFalsyHead(rest);
    var tail := Cleaned(orig[j + 2..]);
    assert (done + [orig[j + 1]]) + tail == done + ([orig[j + 1]] + tail);
    assert orig[j + 1..] == [orig[j + 1]] + orig[j + 2..];
  }

  /** The array as the walk sees it: the kept prefix, then the unvisited rest. */
  lemma SliceAround(items: seq<Value>, done: seq<Value>, orig: seq<Value>, j: nat)
    requires j < |orig| && items == done + orig[j..]
    ensures |done| < |items| && items[|done|] == orig[j]
    ensures items[..|done|] == done && items[|done| + 1..] == orig[j + 1..]
  {
    assert orig[j..] == [orig[j]] + orig[j + 1..];
  }

  /** The last element removed: the walk runs past the end of the array. */
  lemma CleanedLast(orig: seq<Value>, j: nat, done: seq<Value>, goal: seq<Value>)
    requires j + 1 == |orig| && Falsy(orig[j]) && done + Cleaned(orig[j..]) == goal
    ensures done == goal && done + orig[j + 1..] == done
  {
    assert orig[j..] == [orig[j]];
  }

  /** The state of the forEach walk before it visits index i: while i is
      still inside the array, the array is `done` (the values kept at indices
      below i) followed by the unvisited original values from j on; once the
      array has become shorter than i, it is the final result. */
  ghost predicate WalkInv(orig: seq<Value>, goal: seq<Value>, i: nat, items: seq<Value>, done: seq<Value>, j: nat)
  {
    j <= |orig|
    && (i <= |items| ==> |done| == i && i <= j && items == done + orig[j..] && done + Cleaned(orig[j..]) == goal)
    && (i > |items| ==> items == done && done == goal)
  }

  /** The callback at index i, on an array that still reaches index i. */
  lemma VisitStep(orig: seq<Value>, goal: seq<Value>, i: nat, items: seq<Value>, done: seq<Value>, j: nat)
      returns (done': seq<Value>, j': nat)
    requires WalkInv(orig, goal, i, items, done, j) && i < |items|
    ensures WalkInv(orig, goal, i + 1, if Falsy(items[i]) then items[..i] + items[i + 1..] else items, done', j')
  {
    SliceAround(items, done, orig, j);
    if Falsy(items[i]) {
      assert items[..i] + items[i + 1..] == done + orig[j + 1..];
      if j + 1 < |orig| {
        CleanedSkip(orig, j, done, goal);
        done', j' := done + [orig[j + 1]], j + 2;
      } else {
        CleanedLast(orig, j, done, goal);
        done', j' := done, j + 1;
      }
    } else {
      CleanedKeep(orig, j, done, goal);
      done', j' := done + [orig[j]], j + 1;
    }
  }

  /** The callback is not called for an index the array no longer has. */
  lemma WalkPastEnd(orig: seq<Value>, goal: seq<Value>, i: nat, items: seq<Value>, done: seq<Value>, j: nat)
    requires WalkInv(orig, goal, i, items, done, j) && i >= |items|
    ensures WalkInv(orig, goal, i + 1, items, done, j)
  {
    if i == |items| {
      assert orig[j..] == [];
    }
  }

  lemma WalkEnd(orig: seq<Value>, goal: seq<Value>, items: seq<Value>, done: seq<Value>, j: nat)
    requires WalkInv(orig, goal, |orig|, items, done, j)
    ensures items == goal
  {
    if |orig| <= |items| {
      assert orig[j..] == [];
    }
  }

  /** Runs the forEach loop on the shared array and returns that same array. */
  method DelEmptyEl(arr: JsArray) returns (r: JsArray)
    modifies arr
    ensures r == arr
    ensures arr.items == Cleaned(old(arr.items))
  {
    ghost var orig := arr.items;
    ghost var goal := Cleaned(orig);
    ghost var done: seq<Value> := [];
    ghost var j := 0;
    var n := |arr.items|;
    var i := 0;
    while i < n
      invariant 0 <= i <= n && n == |orig|
      invariant WalkInv(orig, goal, i, arr.items, done, j)
    {
      if i < |arr.items| {
        ghost var before := arr.items;
        var e := arr.items[i];
        if Falsy(e) {
          arr.RemoveAt(i);
        }
        done, j := VisitStep(orig, goal, i, before, done, j);
      } else {
        WalkPastEnd(orig, goal, i, arr.items, done, j);
      }
      i := i + 1;
    }
    WalkEnd(orig, goal, arr.items, done, j);
    return arr;
  }

  predicate Truthy(v: Value) { !Falsy(v) }

  /** No truthy element is lost, and their order is kept. */
  lemma {:induction false} CleanedKeepsTruthy(s: seq<Value>)
    ensures Filter(Cleaned(s), Truthy) == Filter(s, Truthy)
  {
    if s != [] {
      if Falsy(s[0]) {
        if |s| > 1 {
          CleanedKeepsTruthy(s[2..]);
          assert s[1..][1..] == s[2..];
        }
      } else {
        CleanedKeepsTruthy(s[1..]);
      }
    }
  }

  /** Only elements of the input remain, never more often than before. */
  lemma {:induction false} CleanedSubMultiset(s: seq<Value>)
    ensures multiset(Cleaned(s)) <= multiset(s)
  {
    if s != [] {
      if Falsy(s[0]) {
        if |s| > 1 {
          CleanedSubMultiset(s[2..]);
          assert multiset(s) == multiset{s[0]} + (multiset{s[1]} + multiset(s[2..])) by {
            assert s == [s[0]] + ([s[1]] + s[2..]);
          }
          assert multiset(Cleaned(s)) == multiset{s[1]} + multiset(Cleaned(s[2..])) by {
            CleanedFalsyHead(s);
          }
          SubMultisetGrow(multiset(Cleaned(s[2..])), multiset(s[2..]), multiset{s[1]}, multiset{s[0]});
        }
      } else {
        CleanedSubMultiset(s[1..]);
        assert multiset(s) == multiset{s[0]} + multiset(s[1..]) by {
          assert s == [s[0]] + s[1..];
        }
        assert multiset(Cleaned(s)) == multiset{s[0]} + multiset(Cleaned(s[1..])) by {
          CleanedTruthyHead(s);
        }
        SubMultisetGrow(multiset(Cleaned(s[1..])), multiset(s[1..]), multiset{s[0]}, multiset{});
      }
    }
  }

  lemma SubMultisetGrow<T>(a: multiset<T>, b: multiset<T>, c: multiset<T>, d: multiset<T>)
    requires a <= b
    ensures c + a <= d + (c + b)
  {
  }

  /** Without two falsy elements side by side every falsy one is removed. */
  lemma {:induction false} CleanedIsFilter(s: seq<Value>)
    requires forall i :: 0 < i < |s| ==> Truthy(s[i - 1]) || Truthy(s[i])
    ensures Cleaned(s) == Filter(s, Truthy)
  {
    if s != [] {
      if Falsy(s[0]) {
        if |s| > 1 {
          assert Truthy(s[1]);
          CleanedIsFilter(s[2..]);
          assert s[1..][1..] == s[2..];
        }
      } else {
        CleanedIsFilter(s[1..]);
      }
    }
  }

  lemma DelEmptyElExamples()
    ensures Cleaned([Num(1), Str(""), Num(2), Num(3), Str(""), Num(5)]) == [Num(1), Num(2), Num(3), Num(5)]
    ensures Cleaned([Str(""), Str("")]) == [Str("")]
  {
    var s := [Num(1), Str(""), Num(2), Num(3), Str(""), Num(5)];
    assert s[1..][1..] == s[2..];
    assert s[2..][1..] == s[3..];
    assert s[3..][1..][1..] == s[5..];
  }

  /** The state of the filtering walk: the values kept so far, followed by
      the original values from j on. */
  ghost predicate FilterInv(orig: seq<Value>, goal: seq<Value>, items: seq<Value>, done: seq<Value>, j: nat)
  {
    j <= |orig| && items == done + orig[j..] && done + Filter(orig[j..], Truthy) == goal
  }

  /** A falsy value at index |done| is removed from the array. */
  lemma FilterDrop(orig: seq<Value>, goal: seq<Value>, items: seq<Value>, done: seq<Value>, j: nat)
    requires FilterInv(orig, goal, items, done, j) && |done| < |items| && Falsy(items[|done|])
    ensures FilterInv(orig, goal, items[..|done|] + items[|done| + 1..], done, j + 1)
  {
    SliceAround(items, done, orig, j);
    var rest := orig[j..];
    assert rest[0] == orig[j] && rest[1..] == orig[j + 1..];
    FilterStep(rest, Truthy);
  }

  /** A truthy value at index |done| is kept and passed. */
  lemma FilterPass(orig: seq<Value>, goal: seq<Value>, items: seq<Value>, done: seq<Value>, j: nat)
    requires FilterInv(orig, goal, items, done, j) && |done| < |items| && !Falsy(items[|done|])
    ensures FilterInv(orig, goal, items, done + [items[|done|]], j + 1)
  {
    SliceAround(items, done, orig, j);
    var rest := orig[j..];
    assert rest[0] == orig[j] && rest[1..] == orig[j + 1..];
    FilterStep(rest, Truthy);
    var tail := Filter(orig[j + 1..], Truthy);
    assert (done + [orig[j]]) + tail == done + ([orig[j]] + tail);
    assert items == (done + [orig[j]]) + orig[j + 1..];
  }

  /** The loop that removes every falsy element: it moves on only past an
      element it keeps. */
  method DelFalsyEl(arr: JsArray) returns (r: JsArray)
    modifies arr
    ensures r == arr
    ensures arr.items == Filter(old(arr.items), Truthy)
  {
    ghost var orig := arr.items;
    ghost var goal := Filter(orig, Truthy);
    ghost var done: seq<Value> := [];
    ghost var j := 0;
    var i := 0;
    while i < |arr.items|
      invariant |done| == i && FilterInv(orig, goal, arr.items, done, j)
      decreases |orig| - j
    {
      ghost var before := arr.items;
      if Falsy(arr.items[i]) {
        arr.RemoveAt(i);
        FilterDrop(orig, goal, before, done, j);
      } else {
        FilterPass(orig, goal, before, done, j);
        done := done + [before[i]];
        i := i + 1;
      }
      j := j + 1;
    }
    assert orig[j..] == [];
    return arr;
  }

  // ---------------------------------------------------------------------------
  // array2.filter(item => item !== '')

  predicate NotEmptyString(v: Value) { !(v.Str? && |v.s| == 0) }

  function WithoutEmptyStrings(s: seq<Value>): seq<Value>
  {
    Filter(s, NotEmptyString)
  }

  /** The filter drops exactly the empty strings. */
  lemma WithoutEmptyStringsCount(s: seq<Value>, v: Value)
    ensures multiset(WithoutEmptyStrings(s))[v] == if v == Str("") then 0 else multiset(s)[v]
  {
    FilterCount(s, NotEmptyString, v);
  }

  lemma WithoutEmptyStringsExample()
    ensures WithoutEmptyStrings([Num(1), Str(""), Num(2), Num(3), Str(""), Num(5)]) == [Num(1), Num(2), Num(3), Num(5)]
  {
    var s := [Num(1), Str(""), Num(2), Num(3), Str(""), Num(5)];
    var p := NotEmptyString;
    FilterStep(s[5..], p);
    assert s[5..][1..] == [];
    FilterStep(s[4..], p);
    assert s[4..][1..] == s[5..];
    FilterStep(s[3..], p);
    assert s[3..][1..] == s[4..];
    FilterStep(s[2..], p);
    assert s[2..][1..] == s[3..];
    FilterStep(s[1..], p);
    assert s[1..][1..] == s[2..];
    FilterStep(s, p);
  }

  // ---------------------------------------------------------------------------
  // sortArr: every sub-array sorted in place with (a, b) => a - b

  /** The comparator `(a, b) => a - b` read as "a may come first". */
  predicate NumLe(a: int, b: int) { a - b <= 0 }

  lemma NumLeTotal()
    ensures Total(NumLe)
  {
  }

  predicate SortedInts(s: seq<int>) { SortedBy(s, NumLe) }

  /** Numeric ascending sort of a sequence. */
  function SortInts(s: seq<int>): (r: seq<int>)
    ensures multiset(r) == multiset(s) && SortedInts(r)
  {
    NumLeTotal();
    Sort(s, NumLe)
  }

  /** `element.sort((a, b) => a - b)`: the engine's sort leaves the elements in
      ascending order; the order it reaches them in is not part of the model. */
  method SortInPlace(a: array<int>)
    modifies a
    ensures a[..] == SortInts(old(a[..]))
  {
    var sorted := SortInts(a[..]);
    for k := 0 to a.Length
      invariant a[..k] == sorted[..k]
      invariant a[k..] == old(a[k..])
    {
      a[k] := sorted[k];
      assert a[..k + 1] == sorted[..k + 1];
    }
    assert a[..] == a[..a.Length];
  }

  /** `arr.forEach(element => element.sort(...))`. Sub-arrays may be shared:
      each one ends sorted and holds the values it held before. */
  method SortArr(arr: array<array<int>>) returns (r: array<array<int>>)
    modifies set k | 0 <= k < arr.Length :: arr[k]
    ensures r == arr
    ensures forall k :: 0 <= k < arr.Length ==> SortedInts(arr[k][..])
    ensures forall k :: 0 <= k < arr.Length ==> multiset(arr[k][..]) == multiset(old(arr[k][..]))
  {
    for i := 0 to arr.Length
      invariant forall k :: 0 <= k < i ==> SortedInts(arr[k][..])
      invariant forall k :: 0 <= k < arr.Length ==> multiset(arr[k][..]) == multiset(old(arr[k][..]))
    {
      SortInPlace(arr[i]);
    }
    return arr;
  }

  /** `array.map(subArray => subArray.sort(...))`: a new outer array whose
      entries are the very sub-arrays of the input, each now sorted. */
  method SortArrByMap(arr: array<array<int>>) returns (r: array<array<int>>)
    modifies set k | 0 <= k < arr.Length :: arr[k]
    ensures fresh(r) && r.Length == arr.Length
    ensures forall k :: 0 <= k < arr.Length ==> r[k] == arr[k]
    ensures forall k :: 0 <= k < arr.Length ==> SortedInts(arr[k][..])
    ensures forall k :: 0 <= k < arr.Length ==> multiset(arr[k][..]) == multiset(old(arr[k][..]))
  {
    r := new array<int>[arr.Length](k requires 0 <= k < arr.Length reads arr => arr[k]);
    var same := SortArr(arr);
  }

  // ---------------------------------------------------------------------------
  // arr2 = arr2.slice(0, Math.min(arr1.length, arr2.length))

  /** The new `arr2`: only `arr2` is cut back; `arr1` is left as it is. */
  function TrimSecond<T>(arr1: seq<T>, arr2: seq<T>): (r: seq<T>)
    ensures |r| == if |arr1| < |arr2| then |arr1| else |arr2|
    ensures r == arr2[..|r|]
  {
    var minLength := if |arr1| < |arr2| then |arr1| else |arr2|;
    arr2[..minLength]
  }

  /** The lengths become equal exactly when `arr2` was not the shorter one. */
  lemma TrimSecondEqualizes<T>(arr1: seq<T>, arr2: seq<T>)
    ensures |TrimSecond(arr1, arr2)| == |arr1| <==> |arr1| <= |arr2|
  {
  }

  lemma TrimSecondExample()
    ensures TrimSecond([1, 2, 3], [1, 2, 3, 4, 5]) == [1, 2, 3]
  {
  }
}
