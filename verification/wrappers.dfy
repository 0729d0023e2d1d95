/** Failure-aware value wrappers shared by every module of the calendar model. */
module Wrappers {

  /** An optional value: the absence of a result, a missing parameter or an invalid
      luxon DateTime. */
  datatype Option<+T> = None | Some(value: T) {
    function GetOr(default: T): T {
      match this
      case Some(v) => v
      case None => default
    }
  }

  /** A stored event field as the browser keeps it in JSON: absent or falsy (`undefined`,
      `null`, ""), present but not parseable (e.g. the string "Invalid DateTime"),
      or present with a well-formed value. */
  datatype Field<+T> = Missing | Malformed | Present(value: T) {
    /** JavaScript truthiness of the stored string. */
    predicate Truthy() { !Missing? }

    /** The value a luxon parse of the field yields (None when invalid). */
    function Parsed(): Option<T> {
      match this
      case Present(v) => Some(v)
      case _ => None
    }
  }

  /** Success or a named error. */
  datatype Result<+R, +E> = Success(value: R) | Failure(error: E)
}
