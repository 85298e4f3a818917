/** Failure-compatible carriers for the library's two synchronous errors:
    a missing matrix argument and an out-of-range slice argument. */
module Failures {

  /** A possibly-null reference: `None` stands for a null argument. */
  datatype Option<+T> = None | Some(value: T)

  /** The slice argument an out-of-range failure names. The failure does not
      say which axis it came from, only whether a skip or a take was at fault. */
  datatype Param = Skip | Take

  datatype Error =
    | NullArgument(name: string)
    | OutOfRange(param: Param)

  /** The outcome of an eagerly validated call: either the value it produces
      or the error raised before anything is produced. */
  datatype Result<+T> = Ok(value: T) | Err(error: Error) {

    predicate IsFailure() {
      Err?
    }

    function PropagateFailure<U>(): Result<U>
      requires Err?
    {
      Err(error)
    }

    function Extract(): T
      requires Ok?
    {
      value
    }
  }

  /** The null guard every public operation runs first: a null argument fails
      with an error carrying the parameter's name, anything else passes through. */
  function CheckNotNull<T>(arg: Option<T>, name: string): (r: Result<T>)
    ensures r.Err? <==> arg.None?
    ensures r.Err? ==> r.error == NullArgument(name)
    ensures r.Ok? ==> r.value == arg.value
  {
    match arg
    case None => Err(NullArgument(name))
    case Some(v) => Ok(v)
  }
}
