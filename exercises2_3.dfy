/** Level 2, file 2.3: removing duplicates (a loop with `includes` and a Set),
    removing adjacent repeats, and the minimum and maximum of an array. */
module Exercises2_3 {
  import opened JsValues
  import opened Sequences
  import opened JsNumber

  // ---------------------------------------------------------------------------
  // duplicates

  /** `if (!res.includes(arr[i])) res.push(arr[i])` for every index. */
  method RemoveDuplicates(arr: seq<Value>) returns (res: seq<Value>)
    ensures res == Dedupe(arr)
  {
    res := [];
    for i := 0 to |arr|
      invariant res == Dedupe(arr[..i])
    {
      assert arr[..i + 1][..i] == arr[..i];
      if arr[i] !in res {
        res := res + [arr[i]];
      }
    }
    assert arr[..|arr|] == arr;
  }

  // ---------------------------------------------------------------------------
  // adjacent repeats

  /** What the loop has pushed once i has reached k: `arr[i - 1]` is kept when
      `arr[i]` differs from it, and `arr[arr.length]` is undefined. */
  function Kept(s: seq<Value>, k: nat): seq<Value>
    requires k <= |s|
  {
    if k == 0 then [] else Kept(s, k - 1) + (if At(s, k) != s[k - 1] then [s[k - 1]] else [])
  }

  function RemoveAdjacent(s: seq<Value>): seq<Value>
  {
    Kept(s, |s|)
  }

  method RemoveAdjacentLoop(arr: seq<Value>) returns (res: seq<Value>)
    ensures res == RemoveAdjacent(arr)
  {
    res := [];
    var i := 1;
    while i <= |arr|
      invariant 1 <= i <= |arr| + 1
      invariant res == Kept(arr, i - 1)
    {
      if At(arr, i) != arr[i - 1] {
        res := res + [arr[i - 1]];
      }
      i := i + 1;
    }
  }

  predicate NoAdjacentEqual(s: seq<Value>)
  {
    forall i :: 0 < i < |s| ==> s[i - 1] != s[i]
  }

  /** The last value kept before index k - 1 differs from s[k - 1]. */
  lemma {:induction false} KeptLast(s: seq<Value>, k: nat)
    requires 1 <= k <= |s|
    ensures Kept(s, k - 1) != [] ==> Kept(s, k - 1)[|Kept(s, k - 1)| - 1] != s[k - 1]
  {
    if k >= 2 {
      KeptLast(s, k - 1);
    }
  }

  lemma {:induction false} KeptNoAdjacent(s: seq<Value>, k: nat)
    requires k <= |s|
    ensures NoAdjacentEqual(Kept(s, k))
  {
    if k > 0 {
      KeptNoAdjacent(s, k - 1);
      KeptLast(s, k);
    }
  }

  /** Kept values stay kept as the loop goes on, and come from the array. */
  lemma {:induction false} KeptGrows(s: seq<Value>, j: nat, k: nat)
    requires j < k <= |s| && At(s, j + 1) != s[j]
    ensures s[j] in Kept(s, k)
  {
    if k > j + 1 {
      KeptGrows(s, j, k - 1);
    }
  }

  lemma {:induction false} KeptFromArray(s: seq<Value>, k: nat, x: Value)
    requires k <= |s| && x in Kept(s, k)
    ensures x in s[..k]
  {
    if k > 0 {
      if x in Kept(s, k - 1) {
        KeptFromArray(s, k - 1, x);
        assert s[..k - 1] == s[..k][..k - 1];
      } else {
        assert x == s[k - 1];
      }
    }
  }

  /** Each value but undefined survives: the last copy of every run is kept,
      except a final run of undefined, which equals `arr[arr.length]`. */
  lemma {:induction false} RunEndKept(s: seq<Value>, i: nat)
    requires i < |s| && s[i] != Undefined
    ensures s[i] in RemoveAdjacent(s)
    decreases |s| - i
  {
    if At(s, i + 1) != s[i] {
      KeptGrows(s, i, |s|);
    } else {
      RunEndKept(s, i + 1);
    }
  }

  /** No two neighbours are equal, every value but undefined is kept, and
      nothing new appears. */
  lemma RemoveAdjacentSpec(s: seq<Value>)
    ensures NoAdjacentEqual(RemoveAdjacent(s))
    ensures forall i :: 0 <= i < |s| && s[i] != Undefined ==> s[i] in RemoveAdjacent(s)
    ensures forall x :: x in RemoveAdjacent(s) ==> x in s
  {
    KeptNoAdjacent(s, |s|);
    forall i | 0 <= i < |s| && s[i] != Undefined ensures s[i] in RemoveAdjacent(s) {
      RunEndKept(s, i);
    }
    forall x | x in RemoveAdjacent(s) ensures x in s {
      KeptFromArray(s, |s|, x);
      assert s[..|s|] == s;
    }
  }

  /** The final undefined is not pushed: the step that reads `arr[arr.length]`
      compares it with another undefined. */
  lemma TrailingUndefinedDropped(s: seq<Value>)
    ensures RemoveAdjacent(s + [Undefined]) == Kept(s + [Undefined], |s|)
  {
  }

  /** One element for each maximal run of equal neighbours, in order: an
      element is dropped exactly when the next one equals it. */
  function Collapse(s: seq<Value>): seq<Value>
  {
    if |s| <= 1 then s
    else if s[0] == s[1] then Collapse(s[1..])
    else [s[0]] + Collapse(s[1..])
  }

  /** Prepending a value adds one step at the front of the loop. */
  lemma {:induction false} KeptCons(a: Value, t: seq<Value>, k: nat)
    requires 1 <= k <= |t| + 1
    ensures Kept([a] + t, k) == (if At(t, 0) != a then [a] else []) + Kept(t, k - 1)
  {
    var s := [a] + t;
    assert At(s, 1) == At(t, 0);
    if k > 1 {
      KeptCons(a, t, k - 1);
      assert At(s, k) == At(t, k - 1) && s[k - 1] == t[k - 2];
    }
  }

  lemma RemoveAdjacentCons(a: Value, t: seq<Value>)
    ensures RemoveAdjacent([a] + t) == (if At(t, 0) != a then [a] else []) + RemoveAdjacent(t)
  {
    KeptCons(a, t, |t| + 1);
  }

  /** The loop keeps one element of every run; only a final run of undefined
      is lost, because its last element equals `arr[arr.length]`. */
  lemma {:induction false} RemoveAdjacentIsCollapse(s: seq<Value>)
    ensures Collapse(s) == RemoveAdjacent(s) + (if s != [] && s[|s| - 1] == Undefined then [Undefined] else [])
    ensures s == [] || s[|s| - 1] != Undefined ==> RemoveAdjacent(s) == Collapse(s)
    decreases |s|
  {
    if s != [] {
      var a, t := s[0], s[1..];
      assert s == [a] + t;
      RemoveAdjacentCons(a, t);
      if t != [] {
        RemoveAdjacentIsCollapse(t);
        assert t[|t| - 1] == s[|s| - 1] && At(t, 0) == s[1];
      }
    }
  }

  /** n copies of v. */
  function Repeat(v: Value, n: nat): (r: seq<Value>)
    ensures |r| == n && forall i :: 0 <= i < n ==> r[i] == v
  {
    if n == 0 then [] else [v] + Repeat(v, n - 1)
  }

  /** ns[i] copies of vs[i], one run after another. */
  function Runs(vs: seq<Value>, ns: seq<nat>): seq<Value>
    requires |vs| == |ns|
  {
    if vs == [] then [] else Repeat(vs[0], ns[0]) + Runs(vs[1..], ns[1..])
  }

  predicate Positive(ns: seq<nat>)
  {
    forall i :: 0 <= i < |ns| ==> ns[i] >= 1
  }

  /** Runs of positive length begin with the first value and end with the last. */
  lemma {:induction false} RunsEnds(vs: seq<Value>, ns: seq<nat>)
    requires |vs| == |ns| && vs != [] && Positive(ns)
    ensures Runs(vs, ns) != [] && Runs(vs, ns)[0] == vs[0]
    ensures Runs(vs, ns)[|Runs(vs, ns)| - 1] == vs[|vs| - 1]
    decreases |vs|
  {
    var r := Repeat(vs[0], ns[0]);
    if |vs| > 1 {
      RunsEnds(vs[1..], ns[1..]);
    } else {
      assert Runs(vs, ns) == r + [];
    }
  }

  lemma {:induction false} CollapseRun(v: Value, n: nat, t: seq<Value>)
    requires n >= 1 && (t == [] || t[0] != v)
    ensures Collapse(Repeat(v, n) + t) == [v] + Collapse(t)
    decreases n
  {
    var s := Repeat(v, n) + t;
    if n == 1 {
      assert s == [v] + t;
      assert s[1..] == t;
    } else {
      assert s[1..] == Repeat(v, n - 1) + t;
      CollapseRun(v, n - 1, t);
    }
  }

  /** Runs of distinct neighbouring values collapse to those values: one per
      run, in order, so a value that comes back after another survives. */
  lemma {:induction false} CollapseRuns(vs: seq<Value>, ns: seq<nat>)
    requires |vs| == |ns| && NoAdjacentEqual(vs) && Positive(ns)
    ensures Collapse(Runs(vs, ns)) == vs
    decreases |vs|
  {
    if vs != [] {
      var rest := Runs(vs[1..], ns[1..]);
      assert NoAdjacentEqual(vs[1..]) && Positive(ns[1..]) by {
        assert forall i :: 0 < i < |vs| - 1 ==> vs[1..][i - 1] == vs[i] && vs[1..][i] == vs[i + 1];
        assert forall i :: 0 <= i < |ns| - 1 ==> ns[1..][i] == ns[i + 1];
      }
      if |vs| > 1 {
        RunsEnds(vs[1..], ns[1..]);
        assert rest[0] == vs[1] && vs[1] != vs[0];
      }
      CollapseRun(vs[0], ns[0], rest);
      CollapseRuns(vs[1..], ns[1..]);
      assert vs == [vs[0]] + vs[1..];
    }
  }

  /** The loop on runs of distinct neighbouring values gives one value per
      run, unless the last run is of undefined. */
  lemma RemoveAdjacentOfRuns(vs: seq<Value>, ns: seq<nat>)
    requires |vs| == |ns| && NoAdjacentEqual(vs) && Positive(ns)
    requires vs == [] || vs[|vs| - 1] != Undefined
    ensures RemoveAdjacent(Runs(vs, ns)) == vs
  {
    CollapseRuns(vs, ns);
    if vs != [] {
      RunsEnds(vs, ns);
    }
    RemoveAdjacentIsCollapse(Runs(vs, ns));
  }

  const AdjacentSample: seq<Value> :=
    [Num(1), Num(2), Num(2), Num(3), Num(3), Num(3), Num(4), Num(4), Num(5), Num(2), Num(2)]

  const SampleValues: seq<Value> := [Num(1), Num(2), Num(3), Num(4), Num(5), Num(2)]
  const SampleLengths: seq<nat> := [1, 2, 3, 2, 1, 2]

  /** The sample is six runs, the last of 2s. */
  lemma SampleRuns()
    ensures Runs(SampleValues, SampleLengths) == AdjacentSample
  {
    assert Repeat(Num(2), 2) == [Num(2), Num(2)];
    assert Repeat(Num(3), 3) == [Num(3), Num(3), Num(3)];
    assert Repeat(Num(4), 2) == [Num(4), Num(4)];
  }

  lemma SampleShape()
    ensures NoAdjacentEqual(SampleValues) && Positive(SampleLengths)
  {
  }

  /** The sample: the runs collapse and the trailing 2s survive as one 2. */
  lemma RemoveAdjacentExample(s: seq<Value>)
    requires s == AdjacentSample
    ensures RemoveAdjacent(s) == [Num(1), Num(2), Num(3), Num(4), Num(5), Num(2)]
  {
    SampleRuns();
    SampleShape();
    RemoveAdjacentOfRuns(SampleValues, SampleLengths);
  }

  // ---------------------------------------------------------------------------
  // minimum and maximum

  function SeqMin(s: seq<int>): (m: int)
    requires s != []
    ensures m in s && forall x :: x in s ==> m <= x
  {
    if |s| == 1 then s[0]
    else
      var m := SeqMin(s[1..]);
      assert forall x :: x in s ==> x == s[0] || x in s[1..];
      if s[0] < m then s[0] else m
  }

  function SeqMax(s: seq<int>): (m: int)
    requires s != []
    ensures m in s && forall x :: x in s ==> x <= m
  {
    if |s| == 1 then s[0]
    else
      var m := SeqMax(s[1..]);
      assert forall x :: x in s ==> x == s[0] || x in s[1..];
      if s[0] > m then s[0] else m
  }

  datatype MinMax = MinMax(min: Option<int>, max: Option<int>)

  /** The loop version: both start at `arr[0]`, which is undefined (None) for
      an empty array, and the loop then leaves them so. */
  method MinMaxLoop(arr: seq<int>) returns (r: MinMax)
    ensures arr == [] ==> r == MinMax(None, None)
    ensures arr != [] ==> r == MinMax(Some(SeqMin(arr)), Some(SeqMax(arr)))
  {
    if arr == [] {
      return MinMax(None, None);
    }
    var min := arr[0];
    var max := arr[0];
    for i := 0 to |arr|
      invariant min in arr && max in arr
      invariant forall k :: 0 <= k < i ==> min <= arr[k] <= max
    {
      if min > arr[i] {
        min := arr[i];
      }
      if max < arr[i] {
        max := arr[i];
      }
    }
    MinMaxUnique(arr, min, max);
    return MinMax(Some(min), Some(max));
  }

  lemma MinMaxUnique(arr: seq<int>, min: int, max: int)
    requires arr != [] && min in arr && max in arr
    requires forall k :: 0 <= k < |arr| ==> min <= arr[k] <= max
    ensures min == SeqMin(arr) && max == SeqMax(arr)
  {
    var a, b := SeqMin(arr), SeqMax(arr);
    var i :| 0 <= i < |arr| && arr[i] == a;
    var j :| 0 <= j < |arr| && arr[j] == b;
  }

  /** One step of `Math.min`: the argument replaces the running value when it
      is smaller. */
  function MinStep(acc: Number, x: int): Number
  {
    match acc
    case Finite(v) => if (x as real) < v then Finite(x as real) else acc
    case Infinity(negative) => if negative then acc else Finite(x as real)
    case NaN => NaN
  }

  /** One step of `Math.max`: the argument replaces the running value when it
      is larger. */
  function MaxStep(acc: Number, x: int): Number
  {
    match acc
    case Finite(v) => if (x as real) > v then Finite(x as real) else acc
    case Infinity(negative) => if negative then Finite(x as real) else acc
    case NaN => NaN
  }

  function MinFold(acc: Number, arr: seq<int>): Number
    decreases |arr|
  {
    if arr == [] then acc else MinFold(MinStep(acc, arr[0]), arr[1..])
  }

  function MaxFold(acc: Number, arr: seq<int>): Number
    decreases |arr|
  {
    if arr == [] then acc else MaxFold(MaxStep(acc, arr[0]), arr[1..])
  }

  /** `Math.min(...arr)`: the arguments from left to right, starting from
      Infinity. */
  function MathMin(arr: seq<int>): Number
  {
    MinFold(Infinity(false), arr)
  }

  /** `Math.max(...arr)`: the arguments from left to right, starting from
      -Infinity. */
  function MathMax(arr: seq<int>): Number
  {
    MaxFold(Infinity(true), arr)
  }

  lemma SeqMinUnique(s: seq<int>, m: int)
    requires m in s && forall x :: x in s ==> m <= x
    ensures m == SeqMin(s)
  {
  }

  lemma SeqMaxUnique(s: seq<int>, m: int)
    requires m in s && forall x :: x in s ==> x <= m
    ensures m == SeqMax(s)
  {
  }

  /** From a finite running value m, the fold ends at the minimum of m and
      the arguments. */
  lemma {:induction false} MinFoldFinite(m: int, arr: seq<int>)
    ensures MinFold(Finite(m as real), arr) == Finite(SeqMin([m] + arr) as real)
    decreases |arr|
  {
    if arr == [] {
      assert [m] + arr == [m];
    } else {
      var m' := if arr[0] < m then arr[0] else m;
      assert MinStep(Finite(m as real), arr[0]) == Finite(m' as real);
      MinFoldFinite(m', arr[1..]);
      var s, s' := [m] + arr, [m'] + arr[1..];
      var r := SeqMin(s');
      assert forall x :: x in s ==> x == m || x == arr[0] || x in arr[1..] by {
        assert arr == [arr[0]] + arr[1..];
      }
      assert r in s by {
        assert r == m' || r in arr[1..];
        assert arr == [arr[0]] + arr[1..];
      }
      assert forall x :: x in arr[1..] ==> x in s';
      SeqMinUnique(s, r);
    }
  }

  /** From a finite running value m, the fold ends at the maximum of m and
      the arguments. */
  lemma {:induction false} MaxFoldFinite(m: int, arr: seq<int>)
    ensures MaxFold(Finite(m as real), arr) == Finite(SeqMax([m] + arr) as real)
    decreases |arr|
  {
    if arr == [] {
      assert [m] + arr == [m];
    } else {
      var m' := if arr[0] > m then arr[0] else m;
      assert MaxStep(Finite(m as real), arr[0]) == Finite(m' as real);
      MaxFoldFinite(m', arr[1..]);
      var s, s' := [m] + arr, [m'] + arr[1..];
      var r := SeqMax(s');
      assert forall x :: x in s ==> x == m || x == arr[0] || x in arr[1..] by {
        assert arr == [arr[0]] + arr[1..];
      }
      assert r in s by {
        assert r == m' || r in arr[1..];
        assert arr == [arr[0]] + arr[1..];
      }
      assert forall x :: x in arr[1..] ==> x in s';
      SeqMaxUnique(s, r);
    }
  }

  /** `Math.min`/`Math.max` find the extremes that `MinMaxLoop` returns on a
      non-empty array; on an empty one the loop leaves undefined while they
      give Infinity and -Infinity. */
  lemma MinMaxVersionsAgree(arr: seq<int>)
    ensures arr != [] ==> MathMin(arr) == Finite(SeqMin(arr) as real) && MathMax(arr) == Finite(SeqMax(arr) as real)
    ensures arr == [] ==> MathMin(arr) == Infinity(false) && MathMax(arr) == Infinity(true)
  {
    if arr != [] {
      assert MinStep(Infinity(false), arr[0]) == Finite(arr[0] as real);
      assert MaxStep(Infinity(true), arr[0]) == Finite(arr[0] as real);
      MinFoldFinite(arr[0], arr[1..]);
      MaxFoldFinite(arr[0], arr[1..]);
      assert [arr[0]] + arr[1..] == arr;
    }
  }

  lemma MinMaxExample()
    ensures SeqMin([3, 4, 45, 6, 1, 343, 38, 86, 9, -1]) == -1
    ensures SeqMax([3, 4, 45, 6, 1, 343, 38, 86, 9, -1]) == 343
  {
    var s := [3, 4, 45, 6, 1, 343, 38, 86, 9, -1];
    assert s[9] == -1 && s[5] == 343;
    assert forall x :: x in s ==> -1 <= x <= 343;
    MinMaxUnique(s, -1, 343);
  }
}
