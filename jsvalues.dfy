/** JavaScript values as the exercises use them, and the error/absence wrappers
    that replace thrown exceptions and `null` results. */
module JsValues {

  /** A JavaScript value. Numbers are integers only: no exercise in the model
      depends on fractional numbers, NaN or Infinity as array elements. */
  datatype Value =
    | Num(n: int)
    | Str(s: string)
    | Bool(b: bool)
    | Null
    | Undefined
    | Arr(elems: seq<Value>)

  /** JavaScript truthiness: `!v` holds exactly for these values. */
  predicate Falsy(v: Value)
  {
    match v
    case Num(n) => n == 0
    case Str(s) => |s| == 0
    case Bool(b) => !b
    case Null => true
    case Undefined => true
    case Arr(_) => false
  }

  /** `a[i]`: out-of-range reads give `undefined`. */
  function At(a: seq<Value>, i: int): (v: Value)
    ensures 0 <= i < |a| ==> v == a[i]
    ensures !(0 <= i < |a|) ==> v == Undefined
  {
    if 0 <= i < |a| then a[i] else Undefined
  }

  datatype Option<+T> = None | Some(value: T)

  /** What a thrown `Error` or `TypeError` becomes. */
  datatype Error =
    | TypeError(reason: string)
    | InvalidArgument(reason: string)

  datatype Result<+T> = Ok(value: T) | Err(error: Error)

  /** What calling `toUpperCase` on `undefined` throws. */
  const UpperOfUndefined: Error := TypeError("Cannot read properties of undefined (reading 'toUpperCase')")

  /** A JavaScript array object: a mutable, resizable list of values that
      several names can share. */
  class JsArray {
    var items: seq<Value>

    constructor (init: seq<Value>)
      ensures items == init
    {
      items := init;
    }

    /** `splice(i, 1)` on an index that holds an element. */
    method RemoveAt(i: nat)
      requires i < |items|
      modifies this
      ensures items == old(items[..i]) + old(items[i + 1..])
    {
      items := items[..i] + items[i + 1..];
    }

    /** `splice(i, 0, v)` on an index from 0 to the length. */
    method InsertAt(i: nat, v: Value)
      requires i <= |items|
      modifies this
      ensures items == old(items[..i]) + [v] + old(items[i..])
    {
      items := items[..i] + [v] + items[i..];
    }
  }
}
