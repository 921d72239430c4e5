/** Array helpers shared by several exercises: `filter`, `findIndex`,
    the loop-and-`includes` de-duplication and `[...new Set(a)]`. */
module Sequences {

  /** `s.filter(p)`. */
  function Filter<T>(s: seq<T>, p: T -> bool): (r: seq<T>)
    ensures |r| <= |s|
  {
    if s == [] then [] else (if p(s[0]) then [s[0]] else []) + Filter(s[1..], p)
  }

  /** The filter keeps exactly the elements that pass the test. */
  lemma {:induction false} FilterMembers<T>(s: seq<T>, p: T -> bool)
    ensures forall x :: x in Filter(s, p) ==> x in s && p(x)
    ensures forall x :: x in s && p(x) ==> x in Filter(s, p)
  {
    if s != [] {
      FilterMembers(s[1..], p);
    }
  }

  lemma FilterStep<T>(s: seq<T>, p: T -> bool)
    requires s != []
    ensures Filter(s, p) == (if p(s[0]) then [s[0]] else []) + Filter(s[1..], p)
  {
  }

  lemma {:induction false} FilterCount<T>(s: seq<T>, p: T -> bool, x: T)
    ensures multiset(Filter(s, p))[x] == if p(x) then multiset(s)[x] else 0
  {
    if s != [] {
      var head := if p(s[0]) then [s[0]] else [];
      assert multiset(Filter(s, p)) == multiset(head) + multiset(Filter(s[1..], p)) by {
        FilterStep(s, p);
      }
      assert multiset(s) == multiset([s[0]]) + multiset(s[1..]) by {
        assert s == [s[0]] + s[1..];
      }
      FilterCount(s[1..], p, x);
    }
  }

  lemma {:induction false} FilterAppend<T>(s: seq<T>, t: seq<T>, p: T -> bool)
    ensures Filter(s + t, p) == Filter(s, p) + Filter(t, p)
  {
    if s != [] {
      assert (s + t)[1..] == s[1..] + t;
      FilterAppend(s[1..], t, p);
    } else {
      assert s + t == t;
    }
  }

  lemma {:induction false} FilterNone<T>(s: seq<T>, p: T -> bool)
    requires forall x :: x in s ==> !p(x)
    ensures Filter(s, p) == []
  {
    if s != [] {
      assert s[0] in s;
      assert forall x :: x in s[1..] ==> x in s;
      FilterNone(s[1..], p);
    }
  }

  /** No value occurs twice. */
  predicate Distinct<T(==)>(s: seq<T>)
  {
    forall i, j :: 0 <= i < j < |s| ==> s[i] != s[j]
  }

  /** `s.findIndex(x => x === v)`: the first index holding v, or -1. */
  function FindIndex<T(==)>(s: seq<T>, v: T): (k: int)
    ensures -1 <= k < |s|
    ensures k == -1 <==> v !in s
    ensures k >= 0 ==> s[k] == v && v !in s[..k]
  {
    if s == [] then -1
    else if s[0] == v then 0
    else
      var k := FindIndex(s[1..], v);
      assert k >= 0 ==> s[..k + 1] == [s[0]] + s[1..][..k];
      if k == -1 then -1 else k + 1
  }

  /** The first index is the same in any prefix that already holds v. */
  lemma FindIndexPrefix<T>(s: seq<T>, n: nat, v: T)
    requires n <= |s| && v in s[..n]
    ensures FindIndex(s[..n], v) == FindIndex(s, v)
  {
    var a, b := FindIndex(s[..n], v), FindIndex(s, v);
    assert s[..n][..a] == s[..a];
    assert forall k :: 0 <= k < a ==> s[k] != v by {
      forall k | 0 <= k < a ensures s[k] != v { assert s[..a][k] == s[k]; }
    }
    assert forall k :: 0 <= k < b ==> s[k] != v by {
      forall k | 0 <= k < b ensures s[k] != v { assert s[..b][k] == s[k]; }
    }
  }

  /** The loop de-duplication: keep each value at its first occurrence. */
  function Dedupe<T(==)>(s: seq<T>): (r: seq<T>)
    ensures forall x :: x in r ==> x in s
    ensures forall x :: x in s ==> x in r
    ensures Distinct(r)
    ensures |r| <= |s|
  {
    if s == [] then []
    else
      var d := Dedupe(s[..|s| - 1]);
      var x := s[|s| - 1];
      assert s == s[..|s| - 1] + [x];
      if x in d then d else d + [x]
  }

  /** Dedupe lists values in the order of their first occurrence in s. */
  lemma {:induction false} DedupeKeepsFirstOccurrenceOrder<T>(s: seq<T>, i: nat, j: nat)
    requires i < j < |Dedupe(s)|
    ensures FindIndex(s, Dedupe(s)[i]) < FindIndex(s, Dedupe(s)[j])
  {
    var n := |s| - 1;
    var init := s[..n];
    var d := Dedupe(init);
    var r := Dedupe(s);
    assert s == init + [s[n]];
    if j < |d| {
      assert r[i] == d[i] && r[j] == d[j];
      DedupeKeepsFirstOccurrenceOrder(init, i, j);
      FindIndexPrefix(s, n, d[i]);
      FindIndexPrefix(s, n, d[j]);
    } else {
      assert r == d + [s[n]] && r[j] == s[n] && s[n] !in init;
      assert r[i] == d[i] && d[i] in init;
      FindIndexPrefix(s, n, d[i]);
    }
  }

  /** A sequence without repeats is its own de-duplication. */
  lemma {:induction false} DedupeOfDistinct<T>(s: seq<T>)
    requires Distinct(s)
    ensures Dedupe(s) == s
  {
    if s != [] {
      var init := s[..|s| - 1];
      assert Distinct(init);
      DedupeOfDistinct(init);
      assert s[|s| - 1] !in init;
      assert s == init + [s[|s| - 1]];
    }
  }

  lemma DedupeIdempotent<T>(s: seq<T>)
    ensures Dedupe(Dedupe(s)) == Dedupe(s)
  {
    DedupeOfDistinct(Dedupe(s));
  }

  /** Adding the values of s, in order, to a JavaScript Set that already holds acc
      (a Set iterates in insertion order, and adding a present value does nothing). */
  function SetAddAll<T(==)>(acc: seq<T>, s: seq<T>): seq<T>
    decreases |s|
  {
    if s == [] then acc
    else SetAddAll(if s[0] in acc then acc else acc + [s[0]], s[1..])
  }

  /** `[...new Set(s)]`. */
  function SetSpread<T(==)>(s: seq<T>): seq<T>
  {
    SetAddAll([], s)
  }

  /** Adding one value at the end of s is one step of the Set. */
  lemma DedupeSnoc<T>(p: seq<T>, x: T)
    ensures Dedupe(p + [x]) == if x in Dedupe(p) then Dedupe(p) else Dedupe(p) + [x]
  {
    var q := p + [x];
    assert q[..|q| - 1] == p;
    assert q[|q| - 1] == x;
  }

  lemma SetAddAllStep<T>(acc: seq<T>, s: seq<T>)
    requires s != []
    ensures SetAddAll(acc, s) == SetAddAll(if s[0] in acc then acc else acc + [s[0]], s[1..])
  {
  }

  lemma {:induction false} SetAddAllDedupe<T>(p: seq<T>, s: seq<T>)
    ensures SetAddAll(Dedupe(p), s) == Dedupe(p + s)
    decreases |s|
  {
    if s == [] {
      assert p + s == p;
    } else {
      var x, p' := s[0], p + [s[0]];
      var d := Dedupe(p);
      var d' := if x in d then d else d + [x];
      assert SetAddAll(d, s) == SetAddAll(d', s[1..]) by { SetAddAllStep(d, s); }
      assert Dedupe(p') == d' by { DedupeSnoc(p, x); }
      assert p' + s[1..] == p + s;
      SetAddAllDedupe(p', s[1..]);
    }
  }

  /** The Set-based de-duplication gives exactly the loop de-duplication. */
  lemma SetSpreadIsDedupe<T>(s: seq<T>)
    ensures SetSpread(s) == Dedupe(s)
  {
    SetAddAllDedupe([], s);
    assert [] + s == s;
  }
}
