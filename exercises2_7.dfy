/** Level 2, file 2.7: sorting the words of a text, two array intersections,
    a random generator that never repeats its last value, and the cyclic
    successor of an element. */
module Exercises2_7 {
  import opened JsValues
  import opened Strings
  import opened Sequences
  import opened Sorting

  // ---------------------------------------------------------------------------
  // sortWordsAlphabetically

  /** Lexicographic order by code point, standing for `localeCompare`. */
  predicate StrLe(a: string, b: string)
    decreases |a|
  {
    a == [] || (b != [] && (a[0] < b[0] || (a[0] == b[0] && StrLe(a[1..], b[1..]))))
  }

  lemma {:induction false} StrLeEither(a: string, b: string)
    ensures StrLe(a, b) || StrLe(b, a)
    decreases |a|
  {
    if a != [] && b != [] && a[0] == b[0] {
      StrLeEither(a[1..], b[1..]);
    }
  }

  lemma StrLeTotal()
    ensures Total(StrLe)
  {
    forall a: string, b: string ensures StrLe(a, b) || StrLe(b, a) {
      StrLeEither(a, b);
    }
  }

  /** The words of the text, sorted. */
  function SortedWords(text: string): (sorted: seq<string>)
    ensures multiset(sorted) == multiset(Split(text, ' ')) && SortedBy(sorted, StrLe)
  {
    StrLeTotal();
    Sort(Split(text, ' '), StrLe)
  }

  /** `text.split(' ').sort((a, b) => a.localeCompare(b)).join(' ')`. */
  function SortWordsAlphabetically(text: string): string
  {
    JoinWith(SortedWords(text), " ")
  }

  /** The result splits back into the same words, now in order. */
  lemma SortWordsSpec(text: string)
    ensures Split(SortWordsAlphabetically(text), ' ') == SortedWords(text)
    ensures multiset(Split(SortWordsAlphabetically(text), ' ')) == multiset(Split(text, ' '))
    ensures SortedBy(Split(SortWordsAlphabetically(text), ' '), StrLe)
  {
    var words := Split(text, ' ');
    var sorted := SortedWords(text);
    SplitShape(text, ' ');
    forall i | 0 <= i < |sorted| ensures ' ' !in sorted[i] {
      assert sorted[i] in multiset(words);
      var j :| 0 <= j < |words| && words[j] == sorted[i];
    }
    assert |sorted| == |multiset(sorted)| == |multiset(words)| == |words|;
    assert " " == [' '];
    SplitJoin(sorted, ' ');
  }

  // ---------------------------------------------------------------------------
  // common elements

  /** The test `element => array.includes(element)`, or `set.has(element)`. */
  function In<T(==)>(values: seq<T>): T -> bool
  {
    x => x in values
  }

  /** `array1.filter(element => array2.includes(element))`. */
  function CommonElements<T(==)>(first: seq<T>, second: seq<T>): seq<T>
  {
    Filter(first, In(second))
  }

  /** `[...new Set(array1.filter(element => array2.includes(element)))]`. */
  function GetCommonElementsUnique<T(==)>(first: seq<T>, second: seq<T>): seq<T>
  {
    SetSpread(CommonElements(first, second))
  }

  /** `array1.filter(element => new Set(array2).has(element))`. */
  function GetCommonElementsOptimized<T(==)>(first: seq<T>, second: seq<T>): seq<T>
  {
    var set2 := SetSpread(second);
    Filter(first, In(set2))
  }

  lemma {:induction false} FilterSame<T>(s: seq<T>, p: T -> bool, q: T -> bool)
    requires forall x :: x in s ==> p(x) == q(x)
    ensures Filter(s, p) == Filter(s, q)
  {
    if s != [] {
      assert forall x :: x in s[1..] ==> x in s;
      FilterSame(s[1..], p, q);
    }
  }

  /** The optimized version computes the same array as the plain filter. */
  lemma OptimizedIsCommon<T>(first: seq<T>, second: seq<T>)
    ensures GetCommonElementsOptimized(first, second) == CommonElements(first, second)
  {
    var set2 := SetSpread(second);
    SetSpreadIsDedupe(second);
    FilterSame(first, In(set2), In(second));
  }

  /** It keeps every element of array1 found in array2, with its duplicates,
      in array1's order. */
  lemma CommonSpec<T>(first: seq<T>, second: seq<T>)
    ensures forall x :: x in CommonElements(first, second) <==> x in first && x in second
    ensures forall x :: multiset(CommonElements(first, second))[x] == if x in second then multiset(first)[x] else 0
  {
    FilterMembers(first, In(second));
    forall x ensures multiset(CommonElements(first, second))[x] == if x in second then multiset(first)[x] else 0 {
      FilterCount(first, In(second), x);
    }
  }

  /** The unique version is the optimized one without repeats. */
  lemma UniqueIsDedupedCommon<T>(first: seq<T>, second: seq<T>)
    ensures GetCommonElementsUnique(first, second) == Dedupe(GetCommonElementsOptimized(first, second))
  {
    OptimizedIsCommon(first, second);
    SetSpreadIsDedupe(CommonElements(first, second));
  }

  /** It holds each common value once, in order of first occurrence in first. */
  lemma UniqueSpec<T>(first: seq<T>, second: seq<T>)
    ensures forall x :: x in GetCommonElementsUnique(first, second) <==> x in first && x in second
    ensures Distinct(GetCommonElementsUnique(first, second))
    ensures forall i, j :: 0 <= i < j < |GetCommonElementsUnique(first, second)| ==>
              FindIndex(first, GetCommonElementsUnique(first, second)[i]) < FindIndex(first, GetCommonElementsUnique(first, second)[j])
  {
    var c := CommonElements(first, second);
    var u := GetCommonElementsUnique(first, second);
    UniqueIsDedupedCommon(first, second);
    OptimizedIsCommon(first, second);
    CommonSpec(first, second);
    forall i, j | 0 <= i < j < |u| ensures FindIndex(first, u[i]) < FindIndex(first, u[j]) {
      DedupeKeepsFirstOccurrenceOrder(c, i, j);
      FirstIndexOrder(first, In(second), u[i], u[j]);
    }
  }

  /** Filtering keeps the relative order of first occurrences. */
  lemma {:induction false} FirstIndexOrder<T>(s: seq<T>, p: T -> bool, a: T, b: T)
    requires a in Filter(s, p) && b in Filter(s, p)
    requires FindIndex(Filter(s, p), a) < FindIndex(Filter(s, p), b)
    ensures FindIndex(s, a) < FindIndex(s, b)
  {
    FilterMembers(s, p);
    var f := Filter(s, p);
    if s[0] == a {
    } else if s[0] == b {
      assert false;
    } else {
      var tail := Filter(s[1..], p);
      if p(s[0]) {
        assert f == [s[0]] + tail;
        assert FindIndex(f, a) == FindIndex(tail, a) + 1;
        assert FindIndex(f, b) == FindIndex(tail, b) + 1;
      } else {
        assert f == tail;
      }
      FilterMembers(s[1..], p);
      FirstIndexOrder(s[1..], p, a, b);
    }
  }

  lemma UniqueExample(a1: seq<int>, a2: seq<int>)
    requires a1 == [1, 2, 2, 3] && a2 == [2, 3, 3, 4]
    ensures GetCommonElementsUnique(a1, a2) == [2, 3]
  {
    CommonExample(a1, a2);
    var c := CommonElements(a1, a2);
    SetSpreadIsDedupe(c);
    DedupeExample(c);
  }

  lemma CommonExample(a1: seq<int>, a2: seq<int>)
    requires a1 == [1, 2, 2, 3] && a2 == [2, 3, 3, 4]
    ensures CommonElements(a1, a2) == [2, 2, 3]
  {
    FilterStep(a1, In(a2));
    FilterStep(a1[1..], In(a2));
    FilterStep(a1[2..], In(a2));
    FilterStep(a1[3..], In(a2));
    assert a1[1..][1..] == a1[2..] && a1[2..][1..] == a1[3..] && a1[3..][1..] == [];
  }

  lemma DedupeExample(c: seq<int>)
    requires c == [2, 2, 3]
    ensures Dedupe(c) == [2, 3]
  {
    assert c[..2] == [2, 2];
    assert c[..2][..1] == [2];
    assert c[..2][..1][..0] == [];
  }

  lemma OptimizedExample(b1: seq<int>, b2: seq<int>)
    requires b1 == [1, 2, 3, 4] && b2 == [3, 4, 5, 6]
    ensures GetCommonElementsOptimized(b1, b2) == [3, 4]
  {
    OptimizedIsCommon(b1, b2);
    FilterStep(b1, In(b2));
    FilterStep(b1[1..], In(b2));
    FilterStep(b1[2..], In(b2));
    FilterStep(b1[3..], In(b2));
    assert b1[1..][1..] == b1[2..] && b1[2..][1..] == b1[3..] && b1[3..][1..] == [];
  }

  // ---------------------------------------------------------------------------
  // createRandomGenerator

  /** `Math.floor(u * 100)` for a value u of `Math.random()`. */
  function Draw(u: real): int
  {
    (u * 100.0).Floor
  }

  /** Index of the first draw whose number differs from the last one returned. */
  function FirstNew(draws: seq<real>, last: Option<int>): (k: nat)
    ensures k <= |draws|
    ensures forall i :: 0 <= i < k ==> Some(Draw(draws[i])) == last
    ensures k < |draws| ==> Some(Draw(draws[k])) != last
  {
    if draws == [] then 0
    else if Some(Draw(draws[0])) != last then 0
    else 1 + FirstNew(draws[1..], last)
  }

  /** The state the closure keeps: the number it returned last, null at first. */
  class RandomGenerator {
    var lastNumber: Option<int>

    constructor ()
      ensures lastNumber == None
    {
      lastNumber := None;
    }

    /** The do-while loop draws until the number differs from `lastNumber`;
        `draws` holds the successive values of `Math.random()`, and one of them
        must give a new number for the loop to end. */
    method GenerateRandom(draws: seq<real>) returns (newNumber: int)
      requires forall i :: 0 <= i < |draws| ==> 0.0 <= draws[i] < 1.0
      requires FirstNew(draws, lastNumber) < |draws|
      modifies this
      ensures newNumber == Draw(draws[FirstNew(draws, old(lastNumber))])
      ensures 0 <= newNumber <= 99
      ensures Some(newNumber) != old(lastNumber)
      ensures lastNumber == Some(newNumber)
    {
      var i := 0;
      newNumber := Draw(draws[i]);
      while Some(newNumber) == lastNumber
        invariant 0 <= i < |draws| && i <= FirstNew(draws, lastNumber)
        invariant newNumber == Draw(draws[i])
        decreases FirstNew(draws, lastNumber) - i
      {
        i := i + 1;
        newNumber := Draw(draws[i]);
      }
      DrawRange(draws[i]);
      lastNumber := Some(newNumber);
    }
  }

  /** Every number the generator can return lies in 0..99. */
  lemma DrawRange(u: real)
    requires 0.0 <= u < 1.0
    ensures 0 <= Draw(u) <= 99
  {
    assert 0.0 <= u * 100.0 < 100.0;
  }

  // ---------------------------------------------------------------------------
  // func: the element after n, cyclically

  /** `a.findIndex(num => num === n)`, then the next element, or `a[0]` when n
      is the last element. When n is absent the index is -1, so `a[0]` again. */
  function Func(a: seq<Value>, n: Value): Value
  {
    var temp := FindIndex(a, n);
    if temp == |a| - 1 then At(a, 0) else At(a, temp + 1)
  }

  /** For an element of a, the successor of its first occurrence, wrapping
      around at the end. */
  lemma FuncCyclic(a: seq<Value>, n: Value)
    requires n in a
    ensures FindIndex(a, n) < |a| - 1 ==> Func(a, n) == a[FindIndex(a, n) + 1]
    ensures FindIndex(a, n) == |a| - 1 ==> Func(a, n) == a[0]
  {
  }

  lemma FuncAbsent(a: seq<Value>, n: Value)
    requires n !in a
    ensures Func(a, n) == At(a, 0)
  {
  }

  lemma FuncExamples(a: seq<Value>)
    requires a == [Num(1), Num(2), Num(3), Num(4), Num(5)]
    ensures Func(a, Num(3)) == Num(4) && Func(a, Num(5)) == Num(1) && Func(a, Num(1)) == Num(2)
  {
    assert FindIndex(a, Num(3)) == 2 by { assert a[2] == Num(3) && Num(3) !in a[..2]; }
    assert FindIndex(a, Num(5)) == 4 by { assert a[4] == Num(5) && Num(5) !in a[..4]; }
    assert FindIndex(a, Num(1)) == 0;
  }
}
