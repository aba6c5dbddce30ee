/** Shared value types: an optional (possibly absent) argument, the failure signals of the
    name and file code, and the result of an operation that may fail with one of them. */
module Common {

  /** A value that may be absent: a null argument or a null list entry. */
  datatype Option<T> = None | Some(value: T)

  /** An optional parameter with a default: JavaScript applies the default only when the
      argument is left out (undefined); an explicit null reaches the callee as null. */
  datatype Argument<T> = Omitted | Null | Given(value: T)

  /** The values of a list none of whose entries is null. */
  function Values<T>(cs: seq<Option<T>>): (r: seq<T>)
    requires forall k :: 0 <= k < |cs| ==> cs[k].Some?
    ensures |r| == |cs| && forall k :: 0 <= k < |cs| ==> r[k] == cs[k].value
    decreases |cs|
  {
    if cs == [] then [] else [cs[0].value] + Values(cs[1..])
  }

  /** The failure signals the code raises. The first three are the classes of the
      contract layer; RangeError and Error are the built-in JavaScript errors that the
      earlier iterations throw. */
  datatype Exception =
    | IllegalArgumentException   // a precondition was violated by the caller
    | InvalidStateException      // an object invariant does not hold
    | MethodFailedException      // a postcondition does not hold
    | RangeError                 // an index out of range (iterations b02 and b03)
    | Error                      // the plain Error of b02 StringArrayName.getComponent

  /** The outcome of a call that returns a value or throws. */
  datatype Result<T> = Ok(value: T) | Err(error: Exception)

  /** The outcome of a call that returns nothing or throws. */
  datatype Outcome = Pass | Fail(error: Exception)
}
