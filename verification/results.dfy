/** Failure-carrying values shared by the catalog model. */
module Results {

  /** The exceptions of the modelled code that a caller can observe. */
  datatype Error =
    /** Python's IndexError: a subscript past either end of a list or tuple. */
    | IndexError
    /** Python's OverflowError: a number too large for a double, or a float result out of range. */
    | OverflowError

  /**
    * The answer of a reader that may find nothing to read: the parsers of displayed sizes, the
    * percent-decoder and the UTF-8 decoder. IsFailure, PropagateFailure and Extract let `:-`
    * pass a None straight on.
    */
  datatype Option<+T> = None | Some(value: T) {
    predicate IsFailure() { None? }

    function PropagateFailure<U>(): Option<U>
      requires None?
    { None }

    function Extract(): T
      requires Some?
    { value }
  }

  /** The outcome of a call that either returns a value or raises. */
  datatype Result<+T> = Success(value: T) | Failure(error: Error) {
    predicate IsFailure() {
      Failure?
    }

    function PropagateFailure<U>(): Result<U>
      requires Failure?
    {
      Failure(error)
    }

    function Extract(): T
      requires Success?
    {
      value
    }
  }

  /** Python's subscript s[i] on a list or tuple: a negative i counts from the end. */
  function PyIndex<T>(s: seq<T>, i: int): (r: Result<T>)
    ensures r.Success? <==> -|s| <= i < |s|
    ensures 0 <= i < |s| ==> r == Success(s[i])
    ensures -|s| <= i < 0 ==> r == Success(s[|s| + i])
  {
    if 0 <= i < |s| then Success(s[i])
    else if -|s| <= i < 0 then Success(s[|s| + i])
    else Failure(IndexError)
  }
}
