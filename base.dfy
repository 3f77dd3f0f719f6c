/** Small value helpers shared by the modules of the model. */
module Base {

  /** A value that may be absent (an optional property, an unset environment variable). */
  datatype Option<T> = None | Some(value: T) {

    /** The value, or `default` when absent: lodash `get(obj, key, default)` and `??`. */
    function GetOr(default: T): T
    {
      if Some? then value else default
    }
  }

  /** JavaScript `Math.min` on two integers. */
  function Min(a: int, b: int): int
  {
    if a < b then a else b
  }
}
