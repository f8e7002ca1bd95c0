/** Null-able values, results and the failures the inventory service can raise. */
module Common {

  /** A Java reference that may be null: `None` stands for null. */
  datatype Option<+T> = None | Some(value: T) {
    function GetOr(default: T): T {
      match this
      case Some(v) => v
      case None => default
    }
  }

  /** The outcome of an operation that may throw. */
  datatype Result<+T> = Ok(value: T) | Err(error: Failure)

  /**
   * The exceptions the core can raise:
   * - NotFound: `queryForObject` found no row (EmptyResultDataAccessException);
   * - DuplicateKey: an INSERT collided with an existing primary key;
   * - NullId: an INSERT supplied null for the primary-key column;
   * - NullPointer: the price comparator met a null price.
   */
  datatype Failure = NotFound | DuplicateKey | NullId | NullPointer
}
