/** Nullable values of the source (`T?`, `int?`, `string?`) become `Option`. */
module Wrappers {
  datatype Option<+T> = None | Some(value: T)
  {
    /** C#'s `x ?? fallback`. */
    function GetOr(fallback: T): T
    {
      if Some? then value else fallback
    }
  }
}
