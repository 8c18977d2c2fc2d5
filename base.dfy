/** Values shared by the model of SemaphoreSlim and of SemaphoreSlimThrottle:
    the 32-bit integer the .NET code counts with, and the exceptions it raises. */
module Base {

  const MinInt32: int := -0x8000_0000
  const MaxInt32: int := 0x7fff_ffff

  /** .NET `int`: every field, argument and return value of the throttle has this width. */
  newtype int32 = x: int | -0x8000_0000 <= x < 0x8000_0000

  /** The exceptions a release or a construction can raise. */
  datatype Error =
    | ArgumentOutOfRange   // ArgumentOutOfRangeException
    | SemaphoreFull        // SemaphoreFullException

  /** A call that either returns a value or raises an exception. */
  datatype Result<T> = Ok(value: T) | Err(error: Error)

  /** What a state-changing operation on a modelled value returns, and the state it leaves behind
      (also when it raises: an exception does not undo what was already committed). */
  datatype Outcome<S> = Outcome(result: Result<int>, state: S)

  /** A 32-bit result seen as a mathematical one. */
  function Widen(r: Result<int32>): Result<int> {
    match r
    case Ok(v) => Ok(v as int)
    case Err(e) => Err(e)
  }

  /** `r + k` when `r` is a returned value; exceptions pass through unchanged. */
  function Shift(r: Result<int>, k: int): Result<int> {
    match r
    case Ok(v) => Ok(v + k)
    case Err(e) => Err(e)
  }
}
