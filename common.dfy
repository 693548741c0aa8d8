/** Types shared by every part of the directory lister's model. */
module Common {

  /** One more than the largest Rust `u64`. */
  const U64Limit: int := 0x1_0000_0000_0000_0000

  /** Rust's `u64`: sizes reported by the file system and the running total. */
  type U64 = x: int | 0 <= x < U64Limit

  /** Rust's `Option`. */
  datatype Option<+T> = None | Some(value: T) {

    /** `unwrap_or`: the value held, or `default` when there is none. */
    function GetOr(default: T): T {
      match this
      case Some(v) => v
      case None => default
    }
  }
}
