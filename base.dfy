/** Shared vocabulary of the clinic backend: optional values, identifiers,
    timestamps, roles, and JavaScript truthiness of request fields. */
module Base {

  /** A value that may be absent: an optional JSON field or a nullable column. */
  datatype Option<+T> = None | Some(value: T) {
    function GetOr(default: T): T {
      match this
      case Some(v) => v
      case None => default
    }
  }

  /** Record identifiers (uuid strings in the database). */
  type Id = string

  /** A timestamp, in milliseconds, as JavaScript's Date holds it. */
  type Time = int

  /** User roles are plain strings in the user table. */
  type Role = string

  const ADMIN: Role := "ADMIN"
  const DOCTOR: Role := "DOCTOR"

  /** JavaScript truthiness of an optional string field of a request:
      an absent field and the empty string are both falsy. */
  predicate Present(s: Option<string>) {
    s.Some? && s.value != ""
  }
}
