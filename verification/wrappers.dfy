/** The optional value used where the original program uses a null reference. */
module Wrappers {

  datatype Option<+T> = None | Some(value: T) {

    /** What a null check with a fallback yields: the held value, else `fallback`. */
    function UnwrapOr(fallback: T): T {
      if Some? then value else fallback
    }
  }
}
