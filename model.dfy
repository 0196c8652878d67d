/** The values every layer shares: the user record, the tagged stand-in for a
    serialized Java object, and the exceptions the code raises. */
module Model {

  datatype Option<+T> = None | Some(value: T)

  datatype Result<+R, +E> = Success(value: R) | Failure(error: E)

  /** Java's `int`, the type of the configured port. */
  type Int32 = x: int | -0x8000_0000 <= x <= 0x7fff_ffff

  /** The record the service persists under its e-mail address
      (the `User` DTO: email, first name, last name). */
  datatype User = User(email: string, firstname: string, lastname: string)

  /** The runtime class of a stored object; equality of tags stands for
      `Class.isInstance`. */
  datatype TypeTag = UserClass | StringClass | OtherClass(name: string)

  /** A serializable object, with its full field state. */
  datatype Value =
    | UserObject(user: User)
    | StringObject(text: string)
    | OtherObject(className: string, state: seq<int>)

  function TagOf(v: Value): TypeTag
  {
    match v
    case UserObject(_) => UserClass
    case StringObject(_) => StringClass
    case OtherObject(c, _) => OtherClass(c)
  }

  /** The exceptions the modelled code throws or lets escape. */
  datatype Exception =
    | IllegalArgument(expected: TypeTag)  // "Object is not <expected>" from the type check
    | UnreadableStream                    // IOException / ClassNotFoundException while reading an object
    | RuntimeFailure(message: string)     // new RuntimeException(message)
    | Wrapped(cause: Exception)           // new RuntimeException(cause)
    | IndexOutOfBounds                    // substring(0, 1) of an empty command
}
