/** The optional value used wherever the source yields `undefined` or an absent JSON field. */
module Wrappers {

  datatype Option<T> = None | Some(value: T) {

    /** The JavaScript `value ?? fallback`: the value when present, otherwise the fallback. */
    function GetOr(fallback: T): T
    {
      match this
      case Some(v) => v
      case None => fallback
    }
  }
}
