/**
 * The five request handlers over the store. Each maps the outcome of
 * parsing and of its store call to a reply; the predicates beside them
 * state that mapping, and the methods are proved to meet it.
 */
module Handlers {
  import opened Wrappers
  import opened Decimal
  import opened Request
  import opened Users
  import opened Store
  import opened Response

  const InternalErrorText: string := "Internal Error"
  const NotFoundText: string := "404 NOT FOUND"
  const UpdatedText: string := "User updated successfully"
  const DeletedText: string := "User deleted successfully"
  const DeleteFailedText: string := "Unable to delete user"

  /** The store's contents are as they were before the call. */
  twostate predicate Kept(db: UserStore)
    reads db
  {
    db.rows == old(db.rows) && db.order == old(db.order) && db.nextId == old(db.nextId)
  }

  /** The user a row of the table deserialises to. */
  function UserOf(id: int, row: Row): User
  {
    User(Some(id), row.name, row.email)
  }

  /** The reply for a serialisation result: the JSON text, or an internal error. */
  function Serialised(json: Option<string>): (reply: Reply)
    ensures reply.status == Ok <==> json.Some?
    ensures json.Some? ==> reply.content == json.value
    ensures json.None? ==> reply.content == InternalErrorText
  {
    match json
    case None => Reply(InternalError, InternalErrorText)
    case Some(text) => Reply(Ok, text)
  }

  /**
   * Create: a body that does not decode is an internal error; a failed insert
   * is an internal error carrying the store's message; otherwise exactly one
   * new row, under a fresh id, holds the decoded name and email, and the
   * reply is that row serialised ("" if serialising fails). Failures change
   * nothing.
   */
  twostate predicate Posted(db: UserStore, request: string, codec: Codec, storeError: Option<string>, reply: Reply)
    reads db
  {
    match codec.decode(RequestBody(request))
    case None => reply == Reply(InternalError, InternalErrorText) && Kept(db)
    case Some(u) =>
      match storeError
      case Some(e) => reply == Reply(InternalError, "Error: " + e) && Kept(db)
      case None =>
        var id := old(db.nextId);
        && id !in old(db.rows)
        && db.rows == old(db.rows)[id := Row(u.name, u.email)]
        && db.order == old(db.order) + [id]
        && db.nextId == id + 1
        && reply == Reply(Ok, UnwrapOr(codec.encodeUser(User(Some(id), u.name, u.email)), ""))
  }

  method HandlePost(db: UserStore, request: string, codec: Codec, storeError: Option<string>) returns (reply: Reply)
    requires db.Valid()
    modifies db
    ensures db.Valid()
    ensures Posted(db, request, codec, storeError, reply)
  {
    var decoded := codec.decode(RequestBody(request));
    if decoded.None? {
      return Reply(InternalError, InternalErrorText);
    }
    var body := decoded.value;
    var inserted := db.Insert(body.name, body.email, storeError);
    if inserted.Failure? {
      return Reply(InternalError, "Error: " + inserted.error);
    }
    var id := inserted.value;
    // The re-read of the new row; its failure (a panic) is not modelled.
    var row := db.Fetch(id, false);
    var user := UserOf(id, row.value);
    reply := Reply(Ok, UnwrapOr(codec.encodeUser(user), ""));
  }

  /**
   * Read one: an id that does not parse as an i32 is an internal error; a
   * missing row or a failed query is not-found; otherwise the row serialised,
   * or an internal error if serialising fails.
   */
  predicate GotOne(db: UserStore, request: string, codec: Codec, storeError: Option<string>, reply: Reply)
    reads db
  {
    match ParseI32(UserId(request))
    case None => reply == Reply(InternalError, InternalErrorText)
    case Some(id) =>
      if storeError.Some? || id !in db.rows then reply == Reply(NotFound, NotFoundText)
      else reply == Serialised(codec.encodeUser(UserOf(id, db.rows[id])))
  }

  method HandleGet(db: UserStore, request: string, codec: Codec, storeError: Option<string>) returns (reply: Reply)
    requires db.Valid()
    ensures GotOne(db, request, codec, storeError, reply)
  {
    var id := ParseI32(UserId(request));
    if id.None? {
      return Reply(InternalError, InternalErrorText);
    }
    var row := db.Fetch(id.value, storeError.Some?);
    if row.None? {
      return Reply(NotFound, NotFoundText);
    }
    var json := codec.encodeUser(UserOf(id.value, row.value));
    if json.None? {
      return Reply(InternalError, InternalErrorText);
    }
    reply := Reply(Ok, json.value);
  }

  /**
   * Read all: a failed query or a failed serialisation is an internal error;
   * otherwise every row, in scan order, serialised as one list.
   */
  predicate GotAll(db: UserStore, codec: Codec, storeError: Option<string>, reply: Reply)
    reads db
    requires db.Valid()
  {
    if storeError.Some? then reply == Reply(InternalError, InternalErrorText)
    else reply == Serialised(codec.encodeUsers(db.Listing()))
  }

  method HandleGetAll(db: UserStore, codec: Codec, storeError: Option<string>) returns (reply: Reply)
    requires db.Valid()
    ensures GotAll(db, codec, storeError, reply)
  {
    var users := db.FetchAll(storeError.Some?);
    if users.None? {
      return Reply(InternalError, InternalErrorText);
    }
    var json := codec.encodeUsers(users.value);
    if json.None? {
      return Reply(InternalError, InternalErrorText);
    }
    reply := Reply(Ok, json.value);
  }

  /**
   * Update: an id that does not parse or a body that does not decode is an
   * internal error and changes nothing; a failed update is an internal error;
   * otherwise the reply is success whether or not the id exists, and only
   * that row's name and email change (its id is kept).
   */
  twostate predicate Put(db: UserStore, request: string, codec: Codec, storeError: Option<string>, reply: Reply)
    reads db
  {
    match (ParseI32(UserId(request)), codec.decode(RequestBody(request)))
    case (None, _) => reply == Reply(InternalError, InternalErrorText) && Kept(db)
    case (_, None) => reply == Reply(InternalError, InternalErrorText) && Kept(db)
    case (Some(id), Some(u)) =>
      if storeError.Some? then reply == Reply(InternalError, InternalErrorText) && Kept(db)
      else
        && reply == Reply(Ok, UpdatedText)
        && db.order == old(db.order) && db.nextId == old(db.nextId)
        && db.rows == if id in old(db.rows) then old(db.rows)[id := Row(u.name, u.email)] else old(db.rows)
  }

  method HandlePut(db: UserStore, request: string, codec: Codec, storeError: Option<string>) returns (reply: Reply)
    requires db.Valid()
    modifies db
    ensures db.Valid()
    ensures Put(db, request, codec, storeError, reply)
  {
    var id := ParseI32(UserId(request));
    var body := codec.decode(RequestBody(request));
    if id.None? || body.None? {
      return Reply(InternalError, InternalErrorText);
    }
    var ok := db.Update(id.value, body.value.name, body.value.email, storeError.Some?);
    if !ok {
      return Reply(InternalError, InternalErrorText);
    }
    reply := Reply(Ok, UpdatedText);
  }

  /**
   * Delete: an id that does not parse is an internal error with its own
   * message; a failed delete is an internal error; otherwise the reply is
   * success whether or not the id exists, that id is gone and every other
   * row is kept.
   */
  twostate predicate Deleted(db: UserStore, request: string, storeError: Option<string>, reply: Reply)
    reads db
  {
    match ParseI32(UserId(request))
    case None => reply == Reply(InternalError, DeleteFailedText) && Kept(db)
    case Some(id) =>
      if storeError.Some? then reply == Reply(InternalError, InternalErrorText) && Kept(db)
      else
        && reply == Reply(Ok, DeletedText)
        && db.rows == old(db.rows) - {id}
        && db.order == Without(old(db.order), id)
        && db.nextId == old(db.nextId)
  }

  method HandleDelete(db: UserStore, request: string, storeError: Option<string>) returns (reply: Reply)
    requires db.Valid()
    modifies db
    ensures db.Valid()
    ensures Deleted(db, request, storeError, reply)
  {
    var id := ParseI32(UserId(request));
    if id.None? {
      return Reply(InternalError, DeleteFailedText);
    }
    var ok := db.Delete(id.value, storeError.Some?);
    if !ok {
      return Reply(InternalError, InternalErrorText);
    }
    reply := Reply(Ok, DeletedText);
  }
}
