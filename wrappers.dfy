/** The optional value used wherever a PHP function answers `false` or an absent entry. */
module Wrappers {

  datatype Option<+T> = None | Some(value: T)

  /** The value, or the given default when there is none. */
  function GetOr<T>(o: Option<T>, default: T): T
  {
    match o
    case Some(v) => v
    case None => default
  }
}
