/** Optional values: a nullable SQL argument or column, a std::optional field. */
module Prelude {
  datatype Option<+T> = None | Some(value: T) {
    /** COALESCE(this, fallback). */
    function GetOr(fallback: T): T {
      match this
      case Some(v) => v
      case None => fallback
    }

    /** The right-biased merge of two optional assignments: `this` wins where it is present. */
    function OrElse(earlier: Option<T>): Option<T> {
      if this.Some? then this else earlier
    }
  }

  function Min(a: int, b: int): int {
    if a <= b then a else b
  }
}
