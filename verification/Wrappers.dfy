/** The two result shapes every other module uses: a value that may be absent,
    and an operation that either answers or refuses with a code. */
module Wrappers {

  datatype Option<+T> = None | Some(value: T)

  datatype Result<+T, +E> = Ok(value: T) | Err(error: E)

  /** The first refusal of two checks made in order. */
  function FirstOf<E>(first: Option<E>, second: Option<E>): Option<E> {
    if first.Some? then first else second
  }
}
