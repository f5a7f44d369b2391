/**
 * `handle_client` after the read: route the request text, run the chosen
 * handler against the store, and write the status line followed by the
 * content.
 */
module Server {
  import opened Wrappers
  import opened Text
  import opened Decimal
  import opened Request
  import opened Users
  import opened Store
  import opened Response
  import opened Handlers
  import opened Router

  const NoRouteText: string := "This route does not exists on our service"

  /** Returns the reply the match produced and the bytes written for it. */
  method HandleClient(db: UserStore, request: string, codec: Codec, storeError: Option<string>)
    returns (reply: Reply, written: string)
    requires db.Valid()
    modifies db
    ensures db.Valid()
    ensures written == StatusLine(reply.status) + reply.content
    ensures match RouteOf(request)
      case Preflight => reply == Reply(Ok, "") && Kept(db)
      case Create => Posted(db, request, codec, storeError, reply)
      case ReadOne => GotOne(db, request, codec, storeError, reply) && Kept(db)
      case ReadAll => GotAll(db, codec, storeError, reply) && Kept(db)
      case Update => Put(db, request, codec, storeError, reply)
      case Delete => Deleted(db, request, storeError, reply)
      case NoRoute => reply == Reply(NotFound, NoRouteText) && Kept(db)
  {
    match RouteOf(request) {
      case Preflight =>
        reply := Reply(Ok, "");
      case Create =>
        reply := HandlePost(db, request, codec, storeError);
      case ReadOne =>
        reply := HandleGet(db, request, codec, storeError);
      case ReadAll =>
        reply := HandleGetAll(db, codec, storeError);
      case Update =>
        reply := HandlePut(db, request, codec, storeError);
      case Delete =>
        reply := HandleDelete(db, request, storeError);
      case NoRoute =>
        reply := Reply(NotFound, NoRouteText);
    }
    written := Wire(reply);
  }

  /**
   * Create, read, list, update, read, delete and read again on a fresh
   * table, each request going through `HandleClient` with a store that does
   * not fail; `line` is the rest of each request line (such as " HTTP/1.1").
   * The created user gets id 1; reading it back gives the decoded name and
   * email; the list holds that one user; the update is visible to the next
   * read and keeps the id; after the delete the id is not found.
   */
  method CrudScenario(codec: Codec, line: string, created: string, changed: string, u1: User, u2: User)
    returns (replies: seq<Reply>)
    requires RequestLineRest(line)
    requires codec.decode(created) == Some(u1) && codec.decode(changed) == Some(u2)
    requires !Contains(created, BlankLine) && !Contains(changed, BlankLine)
    ensures |replies| == 7
    ensures replies[0] == Reply(Ok, UnwrapOr(codec.encodeUser(User(Some(1), u1.name, u1.email)), ""))
    ensures replies[1] == Serialised(codec.encodeUser(User(Some(1), u1.name, u1.email)))
    ensures replies[2] == Serialised(codec.encodeUsers([User(Some(1), u1.name, u1.email)]))
    ensures replies[3] == Reply(Ok, UpdatedText)
    ensures replies[4] == Serialised(codec.encodeUser(User(Some(1), u2.name, u2.email)))
    ensures replies[5] == Reply(Ok, DeletedText)
    ensures replies[6] == Reply(NotFound, NotFoundText)
  {
    var db, first := CreateReadList(codec, line, created, u1);
    var second := UpdateReadDeleteRead(db, codec, line, changed, u2);
    replies := first + second;
  }

  /** The first half: create on a fresh table, read the new user back, list. */
  method CreateReadList(codec: Codec, line: string, created: string, u1: User)
    returns (db: UserStore, replies: seq<Reply>)
    requires RequestLineRest(line)
    requires codec.decode(created) == Some(u1) && !Contains(created, BlankLine)
    ensures fresh(db) && db.Valid() && 1 in db.rows
    ensures |replies| == 3
    ensures replies[0] == Reply(Ok, UnwrapOr(codec.encodeUser(User(Some(1), u1.name, u1.email)), ""))
    ensures replies[1] == Serialised(codec.encodeUser(User(Some(1), u1.name, u1.email)))
    ensures replies[2] == Serialised(codec.encodeUsers([User(Some(1), u1.name, u1.email)]))
  {
    db := new UserStore();
    var r0 := CreateStep(db, line, codec, created, u1);
    assert db.rows == map[1 := Row(u1.name, u1.email)] && db.order == [1];
    var r1 := ReadStep(db, line, codec);
    var r2 := ListStep(db, line, codec);
    assert db.Listing() == [User(Some(1), u1.name, u1.email)];
    replies := [r0, r1, r2];
  }

  /** The second half: update an existing id 1, read it, delete it, read again. */
  method UpdateReadDeleteRead(db: UserStore, codec: Codec, line: string, changed: string, u2: User)
    returns (replies: seq<Reply>)
    requires db.Valid() && 1 in db.rows && RequestLineRest(line)
    requires codec.decode(changed) == Some(u2) && !Contains(changed, BlankLine)
    modifies db
    ensures |replies| == 4
    ensures replies[0] == Reply(Ok, UpdatedText)
    ensures replies[1] == Serialised(codec.encodeUser(User(Some(1), u2.name, u2.email)))
    ensures replies[2] == Reply(Ok, DeletedText)
    ensures replies[3] == Reply(NotFound, NotFoundText)
  {
    var r3 := UpdateStep(db, line, codec, changed, u2);
    var r4 := ReadStep(db, line, codec);
    var r5 := DeleteStep(db, line, codec);
    var r6 := ReadStep(db, line, codec);
    replies := [r3, r4, r5, r6];
  }

  /** `POST` with a body that decodes to `u`, on a store that does not fail. */
  method CreateStep(db: UserStore, line: string, codec: Codec, body: string, u: User) returns (reply: Reply)
    requires db.Valid() && RequestLineRest(line)
    requires codec.decode(body) == Some(u) && !Contains(body, BlankLine)
    modifies db
    ensures db.Valid()
    ensures reply == Reply(Ok, UnwrapOr(codec.encodeUser(User(Some(old(db.nextId)), u.name, u.email)), ""))
    ensures db.rows == old(db.rows)[old(db.nextId) := Row(u.name, u.email)]
    ensures db.order == old(db.order) + [old(db.nextId)] && db.nextId == old(db.nextId) + 1
  {
    PostRequest(line, body);
    var written;
    reply, written := HandleClient(db, CreatePrefix + line + BlankLine + body, codec, None);
  }

  /** `GET` of id 1 on a store that does not fail. */
  method ReadStep(db: UserStore, line: string, codec: Codec) returns (reply: Reply)
    requires db.Valid() && RequestLineRest(line)
    modifies db
    ensures db.Valid() && Kept(db)
    ensures reply == if 1 in db.rows then Serialised(codec.encodeUser(UserOf(1, db.rows[1])))
                     else Reply(NotFound, NotFoundText)
  {
    ParseOne();
    GetOneRequest(line);
    var written;
    reply, written := HandleClient(db, ReadOnePrefix + "1" + line + BlankLine, codec, None);
  }

  /** `GET` of the whole list on a store that does not fail. */
  method ListStep(db: UserStore, line: string, codec: Codec) returns (reply: Reply)
    requires db.Valid() && RequestLineRest(line)
    modifies db
    ensures db.Valid() && Kept(db)
    ensures reply == Serialised(codec.encodeUsers(db.Listing()))
  {
    ListRequest(line);
    var written;
    reply, written := HandleClient(db, ReadAllPrefix + line + BlankLine, codec, None);
  }

  /** `PUT` of id 1 with a body that decodes to `u`, on a store that does not fail. */
  method UpdateStep(db: UserStore, line: string, codec: Codec, body: string, u: User) returns (reply: Reply)
    requires db.Valid() && RequestLineRest(line)
    requires codec.decode(body) == Some(u) && !Contains(body, BlankLine)
    modifies db
    ensures db.Valid()
    ensures reply == Reply(Ok, UpdatedText)
    ensures db.rows == if 1 in old(db.rows) then old(db.rows)[1 := Row(u.name, u.email)] else old(db.rows)
    ensures db.order == old(db.order) && db.nextId == old(db.nextId)
  {
    ParseOne();
    PutRequest(line, body);
    var written;
    reply, written := HandleClient(db, UpdatePrefix + "1" + line + BlankLine + body, codec, None);
  }

  /** `DELETE` of id 1 on a store that does not fail. */
  method DeleteStep(db: UserStore, line: string, codec: Codec) returns (reply: Reply)
    requires db.Valid() && RequestLineRest(line)
    modifies db
    ensures db.Valid()
    ensures reply == Reply(Ok, DeletedText)
    ensures db.rows == old(db.rows) - {1}
    ensures db.order == Without(old(db.order), 1) && db.nextId == old(db.nextId)
  {
    ParseOne();
    DeleteRequest(line);
    var written;
    reply, written := HandleClient(db, DeletePrefix + "1" + line + BlankLine, codec, None);
  }

  /**
   * What may follow the id or the path up to the blank line: nothing, or
   * text starting with whitespace (" HTTP/1.1", then any header lines),
   * in which no blank line starts.
   */
  predicate RequestLineRest(line: string)
  {
    (line == [] || IsWhitespace(line[0])) && !Contains(line + "\r\n\r", BlankLine)
  }

  /** The id `1` parses. */
  lemma ParseOne()
    ensures ParseI32("1") == Some(1)
  {
    ParseShow(1);
    assert ShowInt(1) == "1";
  }

  /** A request for id 1 on a user route has the id text "1". */
  lemma IdOne(verb: string, prefix: string, line: string, rest: string)
    requires '/' !in verb && prefix == verb + UsersPath
    requires RequestLineRest(line)
    ensures UserId(prefix + "1" + line + BlankLine + rest) == "1"
  {
    var tail := line + BlankLine + rest;
    assert prefix + "1" + line + BlankLine + rest == verb + UsersPath + "1" + tail;
    assert tail[0] == (if line == [] then '\r' else line[0]);
    UserIdOfRoute(verb, "1", tail);
  }

  /** The route prefixes after the method word. */
  lemma RoutePrefixes()
    ensures ReadOnePrefix == "GET" + UsersPath
    ensures UpdatePrefix == "PUT" + UsersPath
    ensures DeletePrefix == "DELETE" + UsersPath
  {
  }

  /** A create request routes to the create handler and carries `body`. */
  lemma PostRequest(line: string, body: string)
    requires RequestLineRest(line)
    requires !Contains(body, BlankLine)
    ensures var post := CreatePrefix + line + BlankLine + body;
      RouteOf(post) == Create && RequestBody(post) == body
  {
    var head := CreatePrefix + line;
    var post := head + BlankLine + body;
    PrefixKeepsNoBlank(CreatePrefix, line + "\r\n\r");
    assert head + "\r\n\r" == CreatePrefix + (line + "\r\n\r");
    BodyAfterHead(head, body);
    assert post[..|CreatePrefix|] == CreatePrefix;
    assert post[..|OptionsPrefix|] != OptionsPrefix by { assert post[..|OptionsPrefix|][0] == 'P'; }
  }

  /** The single-user read of id 1. */
  lemma GetOneRequest(line: string)
    requires RequestLineRest(line)
    ensures var getOne := ReadOnePrefix + "1" + line + BlankLine;
      RouteOf(getOne) == ReadOne && UserId(getOne) == "1"
  {
    var getOne := ReadOnePrefix + "1" + line + BlankLine;
    assert getOne[..|ReadOnePrefix|] == ReadOnePrefix;
    ReadOneShadowsReadAll(getOne);
    RoutePrefixes();
    IdOne("GET", ReadOnePrefix, line, "");
    assert getOne + "" == getOne;
  }

  /** The list request. */
  lemma ListRequest(line: string)
    requires RequestLineRest(line)
    ensures RouteOf(ReadAllPrefix + line + BlankLine) == ReadAll
  {
    var list := ReadAllPrefix + line + BlankLine;
    assert list[..|ReadAllPrefix|] == ReadAllPrefix;
    assert list[|ReadAllPrefix|] == (if line == [] then '\r' else line[0]);
    assert list[..|ReadOnePrefix|] != ReadOnePrefix by {
      if |ReadOnePrefix| <= |list| { assert list[..|ReadOnePrefix|][19] == list[19]; }
    }
    ReadAllExactly(list);
  }

  /** A request with the update prefix routes to the update handler. */
  lemma PutRoutes(rest: string)
    ensures RouteOf(UpdatePrefix + rest) == Update
  {
    var put := UpdatePrefix + rest;
    assert put[..|UpdatePrefix|] == UpdatePrefix;
    assert put[..|OptionsPrefix|][0] == 'P';
    assert put[..|CreatePrefix|][1] == 'U';
    assert put[..|ReadOnePrefix|][0] == 'P';
    assert put[..|ReadAllPrefix|][0] == 'P';
  }

  /** The update of id 1 with `body`. */
  lemma PutRequest(line: string, body: string)
    requires RequestLineRest(line)
    requires !Contains(body, BlankLine)
    ensures var put := UpdatePrefix + "1" + line + BlankLine + body;
      RouteOf(put) == Update && UserId(put) == "1" && RequestBody(put) == body
  {
    var head := UpdatePrefix + "1" + line;
    var put := head + BlankLine + body;
    assert put == UpdatePrefix + ("1" + line + BlankLine + body);
    PutRoutes("1" + line + BlankLine + body);
    PrefixKeepsNoBlank(UpdatePrefix + "1", line + "\r\n\r");
    assert head + "\r\n\r" == UpdatePrefix + "1" + (line + "\r\n\r");
    BodyAfterHead(head, body);
    RoutePrefixes();
    IdOne("PUT", UpdatePrefix, line, body);
  }

  /** A request with the delete prefix routes to the delete handler. */
  lemma DeleteRoutes(rest: string)
    ensures RouteOf(DeletePrefix + rest) == Delete
  {
    var delete := DeletePrefix + rest;
    assert delete[..|DeletePrefix|] == DeletePrefix;
    assert delete[..|OptionsPrefix|][0] == 'D';
    assert delete[..|CreatePrefix|][0] == 'D';
    assert delete[..|ReadOnePrefix|][0] == 'D';
    assert delete[..|ReadAllPrefix|][0] == 'D';
    assert delete[..|UpdatePrefix|][0] == 'D';
  }

  /** The delete of id 1. */
  lemma DeleteRequest(line: string)
    requires RequestLineRest(line)
    ensures var delete := DeletePrefix + "1" + line + BlankLine;
      RouteOf(delete) == Delete && UserId(delete) == "1"
  {
    var delete := DeletePrefix + "1" + line + BlankLine;
    assert delete == DeletePrefix + ("1" + line + BlankLine);
    DeleteRoutes("1" + line + BlankLine);
    RoutePrefixes();
    IdOne("DELETE", DeletePrefix, line, "");
    assert delete + "" == delete;
  }
}
