/** Level 2, file 2.8: a random element of an array, and a picker that never
    returns the same element twice in a row. */
module Exercises2_8 {
  import opened JsValues

  /** `Math.floor(u * length)` for a value u of `Math.random()`. */
  function RandomIndex(u: real, length: nat): int
  {
    (u * length as real).Floor
  }

  lemma RandomIndexInRange(u: real, length: nat)
    requires 0.0 <= u < 1.0 && length >= 1
    ensures 0 <= RandomIndex(u, length) < length
  {
    assert 0.0 <= u * length as real < length as real;
  }

  /** `arr[Math.floor(Math.random() * arr.length)]` for the draw u. */
  function Pick(arr: seq<Value>, u: real): (v: Value)
    requires |arr| >= 1 && 0.0 <= u < 1.0
    ensures v in arr
  {
    RandomIndexInRange(u, |arr|);
    arr[RandomIndex(u, |arr|)]
  }

  /** What the first `getRandomElement` throws. */
  const NotAnArray: Error := InvalidArgument("Введите непустой массив")

  /** The first `getRandomElement`: throws unless given a non-empty array,
      otherwise the element at the drawn index. */
  function GetRandomElement(input: Value, u: real): (r: Result<Value>)
    requires 0.0 <= u < 1.0
    ensures r.Err? <==> !input.Arr? || |input.elems| == 0
    ensures r.Err? ==> r.error == NotAnArray
    ensures r.Ok? ==> r.value == Pick(input.elems, u) && r.value in input.elems
  {
    if !input.Arr? || |input.elems| == 0 then Err(NotAnArray)
    else Ok(Pick(input.elems, u))
  }

  predicate Draws(draws: seq<real>)
  {
    forall i :: 0 <= i < |draws| ==> 0.0 <= draws[i] < 1.0
  }

  /** Index of the first draw that picks an element other than `last`. */
  function FirstOther(arr: seq<Value>, draws: seq<real>, last: Value): (k: nat)
    requires Draws(draws) && |arr| >= 1
    ensures k <= |draws|
    ensures forall i :: 0 <= i < k ==> Pick(arr, draws[i]) == last
    ensures k < |draws| ==> Pick(arr, draws[k]) != last
  {
    if draws == [] then 0
    else if Pick(arr, draws[0]) != last then 0
    else 1 + FirstOther(arr, draws[1..], last)
  }

  /** The closure of the second `getRandomElement`: the array it was made
      with and the element it returned last, null at first. */
  class NoRepeatPicker {
    const arr: seq<Value>
    var lastElement: Value

    constructor (arr: seq<Value>)
      ensures this.arr == arr && lastElement == Null
    {
      this.arr := arr;
      lastElement := Null;
    }

    /** null for an empty array, leaving `lastElement` alone. Otherwise the
        do-while loop draws indices until the element differs from
        `lastElement`; `draws` holds the successive values of `Math.random()`,
        and one of them must pick such an element for the loop to end. */
    method Next(draws: seq<real>) returns (randomElement: Value)
      requires Draws(draws)
      requires |arr| >= 1 ==> FirstOther(arr, draws, lastElement) < |draws|
      modifies this
      ensures |arr| == 0 ==> randomElement == Null && lastElement == old(lastElement)
      ensures |arr| >= 1 ==>
                randomElement == Pick(arr, draws[FirstOther(arr, draws, old(lastElement))])
                && randomElement in arr
                && randomElement != old(lastElement)
                && lastElement == randomElement
    {
      if |arr| == 0 {
        return Null;
      }
      var i := 0;
      randomElement := Pick(arr, draws[i]);
      while randomElement == lastElement
        invariant 0 <= i < |draws| && i <= FirstOther(arr, draws, lastElement)
        invariant randomElement == Pick(arr, draws[i])
        decreases FirstOther(arr, draws, lastElement) - i
      {
        i := i + 1;
        randomElement := Pick(arr, draws[i]);
      }
      lastElement := randomElement;
    }
  }

  /** The loop can end only if the array holds some value other than
      `lastElement`: with every element equal to it, no draw ever differs. */
  lemma {:induction false} NoOtherNeverEnds(arr: seq<Value>, draws: seq<real>, last: Value)
    requires Draws(draws) && |arr| >= 1
    requires forall i :: 0 <= i < |arr| ==> arr[i] == last
    ensures FirstOther(arr, draws, last) == |draws|
  {
    if draws != [] {
      assert Draws(draws[1..]) by {
        forall i | 0 <= i < |draws[1..]| ensures 0.0 <= draws[1..][i] < 1.0 {
          assert draws[1..][i] == draws[i + 1];
        }
      }
      NoOtherNeverEnds(arr, draws[1..], last);
    }
  }

  /** On the first call `lastElement` is null, so any element other than null
      can be returned; a null element is always drawn again. */
  lemma FirstCallNotNull(arr: seq<Value>, draws: seq<real>)
    requires Draws(draws) && |arr| >= 1 && FirstOther(arr, draws, Null) < |draws|
    ensures Pick(arr, draws[FirstOther(arr, draws, Null)]) != Null
  {
  }
}
