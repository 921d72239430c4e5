/** Level 1, file 1.10: every element repeated twice, three ways. */
module Exercises1_10 {
  import opened JsValues

  /** Each element followed by a copy of itself. */
  function Doubled<T>(s: seq<T>): (r: seq<T>)
    ensures |r| == 2 * |s|
  {
    if s == [] then [] else [s[0], s[0]] + Doubled(s[1..])
  }

  /** Position i of the doubled array holds element i / 2. */
  lemma {:induction false} DoubledIndex<T>(s: seq<T>)
    ensures forall i :: 0 <= i < |Doubled(s)| ==> Doubled(s)[i] == s[i / 2]
  {
    if s != [] {
      DoubledIndex(s[1..]);
      var rest := Doubled(s[1..]);
      assert Doubled(s) == [s[0], s[0]] + rest;
      forall i | 2 <= i < |Doubled(s)| ensures Doubled(s)[i] == s[i / 2] {
        assert Doubled(s)[i] == rest[i - 2];
        assert (i - 2) / 2 == i / 2 - 1;
      }
    }
  }

  lemma DoubledStep<T>(s: seq<T>, k: nat)
    requires k < |s|
    ensures Doubled(s[k..]) == [s[k], s[k]] + Doubled(s[k + 1..])
  {
    assert s[k..][1..] == s[k + 1..];
  }

  /** Inserting a copy of element i in front of itself doubles it. */
  lemma InsertStep<T>(orig: seq<T>, i: nat, items: seq<T>)
    requires i < |orig| && items == orig[..i + 1] + Doubled(orig[i + 1..])
    ensures i < |items| && items[i] == orig[i]
    ensures items[..i] + [items[i]] + items[i..] == orig[..i] + Doubled(orig[i..])
  {
    DoubledStep(orig, i);
    assert orig[..i + 1] == orig[..i] + [orig[i]];
    assert items[..i] == orig[..i];
    assert items[i..] == [orig[i]] + Doubled(orig[i + 1..]);
  }

  /** `for (i = arr.length - 1; i >= 0; i--) arr.splice(i, 0, arr[i])`: walking
      from the back, every element is inserted again in front of itself. */
  method DoubleInPlace(arr: JsArray)
    modifies arr
    ensures arr.items == Doubled(old(arr.items))
  {
    ghost var orig := arr.items;
    var i := |arr.items| - 1;
    while i >= 0
      invariant -1 <= i < |orig|
      invariant arr.items == orig[..i + 1] + Doubled(orig[i + 1..])
    {
      InsertStep(orig, i, arr.items);
      arr.InsertAt(i, arr.items[i]);
      i := i - 1;
    }
    assert orig[..0] == [] && orig[0..] == orig;
  }

  /** `s.flatMap(f)`. */
  function FlatMap<T, U>(s: seq<T>, f: T -> seq<U>): seq<U>
  {
    if s == [] then [] else f(s[0]) + FlatMap(s[1..], f)
  }

  /** `arr1.flatMap(el => [el, el])` is the same doubling. */
  lemma {:induction false} FlatMapDoubles<T>(s: seq<T>)
    ensures FlatMap(s, (el: T) => [el, el]) == Doubled(s)
  {
    if s != [] {
      FlatMapDoubles(s[1..]);
    }
  }

  /** `s.reduce((acc, el) => acc.concat([el, el]), acc)`. */
  function ReduceConcat<T>(acc: seq<T>, s: seq<T>): seq<T>
    decreases |s|
  {
    if s == [] then acc else ReduceConcat(acc + [s[0], s[0]], s[1..])
  }

  lemma {:induction false} ReduceConcatDoubles<T>(acc: seq<T>, s: seq<T>)
    ensures ReduceConcat(acc, s) == acc + Doubled(s)
    decreases |s|
  {
    if s != [] {
      ReduceConcatDoubles(acc + [s[0], s[0]], s[1..]);
      assert (acc + [s[0], s[0]]) + Doubled(s[1..]) == acc + ([s[0], s[0]] + Doubled(s[1..]));
    }
  }

  /** The three versions agree on every array. */
  lemma ThreeWaysAgree<T>(s: seq<T>)
    ensures ReduceConcat([], s) == FlatMap(s, (el: T) => [el, el]) == Doubled(s)
  {
    ReduceConcatDoubles([], s);
    FlatMapDoubles(s);
    assert [] + Doubled(s) == Doubled(s);
  }
}
