/** The optional value used where the Python code writes `None`. */
module Wrappers {
  datatype Option<T> = None | Some(value: T)
  {
    /** The value, or d in place of `None` (the `if x is None: x = d` idiom). */
    function UnwrapOr(d: T): T
    {
      if Some? then value else d
    }
  }
}
