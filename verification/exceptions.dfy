/** The failure vocabulary of the container. Each constructor of `Exception`
    stands for one .NET exception type that the modelled operations raise. */
module Exceptions {

  datatype Exception =
    | IndexOutOfRange     // IndexOutOfRangeException
    | ArgumentOutOfRange  // ArgumentOutOfRangeException
    | ArgumentInvalid     // ArgumentException, raised by Array.Copy on a too-short array
    | ArgumentNull        // ArgumentNullException, raised by Array.Copy on a null array
    | NullReference       // NullReferenceException

  /** A possibly-null reference. */
  datatype Option<+T> = None | Some(value: T)

  /** The outcome of a read: a value, or the exception it raised. */
  datatype Result<+T> = Ok(value: T) | Fail(error: Exception)

  /** The outcome of a mutating call: the receiver's state once the call is
      over, and whether it returned normally or threw. Some calls mutate
      their receiver before they throw, so a thrown call carries a state too. */
  datatype Call<+S> = Returned(state: S) | Threw(state: S, error: Exception)
}
