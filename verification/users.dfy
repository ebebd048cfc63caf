/** The two record types the service stores: users and the email projection. */
module Users {
  import opened Errors

  newtype byte = x: int | 0 <= x < 0x100

  type Bytes = seq<byte>

  /** A user record; `passwordHash` is `None` when the Go slice is nil. */
  datatype User = User(
    username: string,
    email: string,
    passwordHash: Option<Bytes>,
    image: string,
    bio: string)

  /** Go's zero `User`, also what a missing item unmarshals to. */
  const ZeroUser: User := User("", "", None, "", "")

  /** A projection record linking an email to the username that owns it. */
  datatype EmailUser = EmailUser(email: string, username: string)

  /** The bytes of a hash; like `bytes.Equal`, a nil hash and an empty one read the same. */
  function HashBytes(h: Option<Bytes>): Bytes {
    match h
    case None => []
    case Some(b) => b
  }
}
