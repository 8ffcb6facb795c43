/** The persisted user record of package authpb. */
module AuthPb {
  import opened Types

  /** A user as stored in the `authUsers` bucket: its name and its hashed password. */
  datatype User = User(name: Bytes, password: Bytes)

  /**
   * `User.Marshal`: the record's canonical encoding, which may fail with an
   * error text. The wire format is generated code and stays abstract.
   */
  type Marshaller = User -> Result<Bytes, string>
}
