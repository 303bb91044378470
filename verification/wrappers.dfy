/** Failure-carrying datatypes shared by every decoder of the model.

- `Option<T>` for a value that may be absent (a cache slot, a hole).
- `Result<T>` for the driver's `Result<T, c_int>` returns: an errno on failure.
- `Decoded<T>` for a byte-level decode that reports how many bytes it consumed,
  or that the input ended first.
- `Outcome<T>` for an operation that may abort with a panic instead of returning.
 */
module Wrappers {

  datatype Option<+T> = None | Some(value: T)

  /** The errno values the decoder hands back to the file-operation layer. */
  const ENOENT: int := 2
  /** `ENOATTR` as defined by the FreeBSD C library. */
  const ENOATTR: int := 87

  datatype Result<+T> = Ok(value: T) | Err(errno: int)

  /** A decode that either consumed `consumed` bytes or ran off the end of its input. */
  datatype Decoded<+T> = Done(value: T, consumed: nat) | UnexpectedEnd

  /** The source aborts (an `assert!`, an `expect`, an `unwrap` of a failed decode)
      instead of returning: `Panics` records that the operation never returns. */
  datatype Outcome<+T> = Returns(result: T) | Panics

  /** Replace one errno by another, letting every other result through. */
  function TranslateErrno<T>(r: Result<T>, from: int, to: int): (r': Result<T>)
    ensures r.Ok? ==> r' == r
    ensures r.Err? && r.errno == from ==> r' == Err(to)
    ensures r.Err? && r.errno != from ==> r' == r
  {
    match r
    case Ok(_) => r
    case Err(e) => if e == from then Err(to) else r
  }
}
