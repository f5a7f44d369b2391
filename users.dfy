/** The one entity, and the JSON library seen from outside. */
module Users {
  import opened Wrappers

  /** A user row; `id` is absent in client-submitted payloads. */
  datatype User = User(id: Option<int>, name: string, email: string)

  /**
   * The serde_json calls the handlers make, as opaque functions:
   * `from_str::<User>`, `to_string(&User)` and `to_string(&Vec<User>)`.
   * Their JSON syntax is not modelled.
   */
  datatype Codec = Codec(
    decode: string -> Option<User>,
    encodeUser: User -> Option<string>,
    encodeUsers: seq<User> -> Option<string>)
}
