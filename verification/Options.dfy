/** A value that may be absent: SQL NULL, a missing value, or a failed lookup. */
module Options {
  datatype Option<+T> = None | Some(value: T) {
    /** SQL's COALESCE(column, fallback). */
    function Or(fallback: T): T {
      if Some? then value else fallback
    }

    /** SQL's COALESCE(column, other) where the second argument may be NULL too. */
    function OrElse(other: Option<T>): Option<T> {
      if Some? then this else other
    }
  }
}
