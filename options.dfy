/** The optional value the source writes as `Optional[...]` / `None`. */
module Options {

  datatype Option<+T> = None | Some(value: T) {

    /** The value, or `default` when absent (Python's `d.get(k, default)`). */
    function GetOr(default: T): T {
      match this
      case Some(v) => v
      case None => default
    }
  }
}
