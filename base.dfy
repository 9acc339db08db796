/** Shared vocabulary of the backend: identifiers, roles and the caller
    identity that the JWT middleware attaches to every authenticated request. */
module Base {

  datatype Option<T> = None | Some(value: T)

  /** The two roles of the user schema. */
  datatype Role = Admin | Intern

  /** Opaque document identifiers (Mongo ObjectIds). */
  type UserId = nat
  type SeatId = nat

  /** What the auth middleware decodes from the token: `req.user.id` and `req.user.role`. */
  datatype Caller = Caller(id: UserId, role: Role)
}
