# User CRUD server: request handling model

This project is a Dafny model of the hand-written HTTP handling in
`backend/src/main.rs` of a small Rust server. The server offers create, read,
list, update and delete on one `users` table, under the paths
`/api/rust/users`. Every connection is served the same way:

1. The request text is routed by prefix tests tried in a fixed order.
2. The chosen handler gets the id from the path (`get_user_id`) and/or the
   JSON body (`get_user_request_body`).
3. The handler runs its query against the table (two for create: the
   INSERT and the re-read of the new row). The preflight and no-route
   answers run none.
4. It answers with one of three fixed status lines plus a body.

The model covers that pipeline, starting from the request text:

- `text.dfy` (`Text`): Rust's `str::split` with a string pattern, as a
  left-to-right scan with non-overlapping matches. Also `split_whitespace().next()`,
  with Rust's `char::is_whitespace` (Unicode White_Space). Lemmas state the
  round trip with `Join`, that no piece contains the separator, how pieces
  are counted, and how a split proceeds past a known first match.
- `decimal.dfy` (`Decimal`): `str::parse::<i32>()`. It takes an optional sign,
  then one or more ASCII digits, and checks the i32 range. It is proved to
  undo decimal rendering for every i32.
- `request.dfy` (`Request`): `get_user_id` and the text that
  `get_user_request_body` hands to the decoder.
- `users.dfy` (`Users`): the `User` record. It also has `Codec`, which stands
  for serde_json as three opaque function values (decode a user, encode a
  user, encode a list). The JSON syntax is not modelled.
- `store.dfy` (`Store`): the table as the class `UserStore`. Its fields are
  a map from id to (name, email), the ids in scan order, and the next value
  of the id sequence. The methods are the INSERT, SELECT, UPDATE and DELETE
  statements the handlers issue. Each takes a failure flag that stands for an
  sqlx error.
- `response.dfy` (`Response`): the three status-line constants and the bytes
  written (`status_line + content`). They are proved to determine the reply.
- `handlers.dfy` (`Handlers`): the five handlers as methods on the store. A
  predicate beside each states the reply and the new table for every
  parse/store outcome.
- `router.dfy` (`Router`): the routing cascade. It is proved equal to
  first-match dispatch over a route table. Lemmas cover the `OPTIONS` arm,
  the single-user route shadowing the list route, and fall-through.
- `server.dfy` (`Server`): `handle_client` from the request text to the
  written bytes. It also has an end-to-end create/read/list/update/read/delete/read run on a
  fresh table.

Two behaviours of the code that a reader may not expect:

- The body text is the last piece of a forward split on `\r\n\r\n`. Matches
  are taken left to right and do not overlap. A request that ends in a
  blank line gets an empty body unless a match the left-to-right scan takes
  overlaps that final blank line. For example, `"\r\n" + "\r\n\r\n"` leaves `"\r\n"`
  (`Request.OverlappingTerminator`).
- A request line with no id, such as `GET /api/rust/users/ HTTP/1.1`, gives
  the id text `"HTTP"`, not `""` (`Request.MissingIdTakesNextWord`). The
  reply is the same either way, because the parse fails.

## Model

| member | source | states |
|---|---|---|
| `Text.StartsWithIff` | backend/src/main.rs:76-81 | `str::starts_with`, as `Text.StartsWith` defines it: true exactly when the prefix fits and the text is that prefix followed by the rest |
| `Text.Split` | backend/src/main.rs:58-64 | `split` yields at least one piece, and the first piece is a prefix of the text |
| `Text.SplitLast` | backend/src/main.rs:63 | `split(sep).last()`, with `Text.Last` as `Iterator::last`: the split always has a last piece, so `unwrap_or_default` never applies; that piece is a suffix of the text with no separator, and is the whole text exactly when the separator does not occur |
| `Text.SplitJoin` | backend/src/main.rs:58-64 | joining the pieces with the separator gives back the original text |
| `Text.SplitPiecesFree` | backend/src/main.rs:58-64 | no piece contains the separator |
| `Text.SplitSingleIff` | backend/src/main.rs:58-64 | there is exactly one piece iff the separator does not occur, and that piece is the whole text |
| `Text.SplitAfterFirst` | backend/src/main.rs:58-64 | when no match starts before `h`'s end, `split(h + sep + b)` is `h` followed by the pieces of `b` |
| `Text.SplitCount` | backend/src/main.rs:59 | splitting on one character gives one more piece than there are occurrences |
| `Text.SplitFirstExtends` | backend/src/main.rs:59 | a separator-free prefix stays in the first piece |
| `Text.SkipWhitespace` | backend/src/main.rs:59 | drops exactly the leading whitespace |
| `Text.TokenPrefix` | backend/src/main.rs:59 | the longest whitespace-free prefix |
| `Text.FirstToken` | backend/src/main.rs:59 | `split_whitespace().next()`: a whitespace-free token after only whitespace, followed by the end or whitespace; empty iff the text is all whitespace |
| `Text.FirstTokenOf` | backend/src/main.rs:59 | a nonempty word followed by nothing or whitespace is the first token |
| `Wrappers.UnwrapOr` | backend/src/main.rs:59-63 | `unwrap_or_default`: the value when present, else the default |
| `Decimal.ParseI32` | backend/src/main.rs:117 | `parse::<i32>` succeeds only with a value in the i32 range, on text starting with a sign or digit |
| `Decimal.ShowNat` | backend/src/main.rs:117 | decimal rendering is nonempty and all digits |
| `Decimal.DigitsValueOfShow` | backend/src/main.rs:117 | the digits of `n` are worth `n` |
| `Decimal.ShowIntShape` | backend/src/main.rs:117 | a rendering has a sign exactly for negatives, then digits worth the magnitude |
| `Decimal.ParseShow` | backend/src/main.rs:117 | every i32 parses back from its decimal rendering |
| `Decimal.ParseOutOfRange` | backend/src/main.rs:117 | the rendering of a value outside i32 does not parse |
| `Decimal.DigitsValueAfterZeros` | backend/src/main.rs:117 | leading zeros do not change the value of a digit string |
| `Decimal.DigitsNormalForm` | backend/src/main.rs:117 | every digit string is some leading zeros followed by the rendering of its value |
| `Decimal.ParseSound` | backend/src/main.rs:117 | every accepted text is an allowed sign, leading zeros and the digits of the magnitude |
| `Decimal.ParseComplete` | backend/src/main.rs:117 | every i32 is accepted behind any allowed sign (`+` or none for positives, `-` for negatives, any for 0) and any number of leading zeros |
| `Decimal.ParseExactly` | backend/src/main.rs:117 | `s` parses to `v` iff `v` is an i32 and `s` is an allowed sign, leading zeros and the digits of abs(v); every other text is an error |
| `Decimal.ParseRejectsNonDigitEnd` | backend/src/main.rs:117 | a text ending in a non-digit, such as "1a" or "1 ", never parses |
| `Request.PathSegment4` | backend/src/main.rs:59 | `split("/").nth(4).unwrap_or_default()` contains no `/` |
| `Request.UserId` | backend/src/main.rs:58-60 | the id text never contains whitespace or `/` |
| `Request.RequestBody` | backend/src/main.rs:62-64 | the text handed to the decoder never contains a blank line |
| `Request.UserIdFewSlashes` | backend/src/main.rs:58-60 | fewer than four `/` (fewer than five pieces) gives the empty id |
| `Request.UserIdOfRoute` | backend/src/main.rs:58-60 | for `verb /api/rust/users/ID` followed by nothing or whitespace, the id text is exactly `ID` |
| `Request.MissingIdTakesNextWord` | backend/src/main.rs:58-60 | with the id missing, the next word (such as `HTTP` of `HTTP/1.1`) becomes the id text |
| `Request.SplitRoute` | backend/src/main.rs:59 | the route prefix accounts for exactly the first four pieces |
| `Request.BodyIsTail` | backend/src/main.rs:62-64 | the decoded text is a suffix of the request with no blank line; it is the whole request iff there is no blank line, and otherwise what precedes it ends in one |
| `Request.BodyAfterHead` | backend/src/main.rs:62-64 | head + blank line + body, with the blank line the first one and a body containing no blank line, decodes exactly the body (`""` for an empty body) |
| `Request.BodyAfterBlank` | backend/src/main.rs:62-64 | past a first blank line, the decoded text is decided by what follows it alone |
| `Request.PrefixKeepsNoBlank` | backend/src/main.rs:62-64 | text without carriage returns put in front cannot start a blank line |
| `Request.OverlappingTerminator` | backend/src/main.rs:63 | `"\r\n\r\n\r\n"` decodes `"\r\n"`, since matches do not overlap |
| `Store.Without` | backend/src/main.rs:202-205 | removing an id from the scan order keeps every other id and keeps it duplicate-free |
| `Store.DistinctCardinality` | backend/src/main.rs:148 | a duplicate-free id list is as long as its set of ids |
| `Store.UserStore.constructor` | backend/src/main.rs:45-56 | an empty table whose id sequence starts at 1 |
| `Store.UserStore.Listing` | backend/src/main.rs:148 | a full scan returns one user per row, in scan order, each with its id, name and email |
| `Store.UserStore.Insert` | backend/src/main.rs:97-104 | INSERT draws a fresh id and adds exactly that row; a failure returns the error and changes nothing |
| `Store.UserStore.Fetch` | backend/src/main.rs:125-133 | SELECT by id returns the row iff the id is present and the query does not fail |
| `Store.UserStore.FetchAll` | backend/src/main.rs:148-154 | SELECT all returns the full listing unless the query fails |
| `Store.UserStore.Update` | backend/src/main.rs:180-184 | UPDATE succeeds whether or not the id exists; only that row's name and email change |
| `Store.UserStore.Delete` | backend/src/main.rs:202-205 | DELETE succeeds whether or not the id exists; exactly that id is removed |
| `Response.StatusLine` | backend/src/main.rs:19-21 | each outcome's constant is an HTTP/1.1 status line carrying its code: 200, 404 or 500 |
| `Response.StatusLineFirst` | backend/src/main.rs:19-21 | a status line followed by any content reads back as that status and that content, because the three lines differ at the code |
| `Response.Wire` | backend/src/main.rs:85 | the written bytes `status_line + content` read back as the same status and content |
| `Response.WireInjective` | backend/src/main.rs:85 | different replies are written as different bytes |
| `Handlers.Serialised` | backend/src/main.rs:135-143 | OK with the JSON text iff serialising succeeds, else internal error "Internal Error" |
| `Handlers.HandlePost` | backend/src/main.rs:91-113 | decode failure gives (500, "Internal Error") and no change; insert failure gives (500, "Error: " + message) and no change; otherwise one new row under a fresh id holds the decoded name and email, and the reply is that row serialised ("" if serialising fails) |
| `Handlers.HandleGet` | backend/src/main.rs:115-145 | unparsable id gives (500, "Internal Error"); absent id or query failure gives (404, "404 NOT FOUND"); otherwise the row serialised; the table is never changed |
| `Handlers.HandleGetAll` | backend/src/main.rs:147-165 | query or serialisation failure gives (500, "Internal Error"); otherwise every row serialised as one list |
| `Handlers.HandlePut` | backend/src/main.rs:167-191 | id or body failure gives (500, "Internal Error") and no change; otherwise (200, "User updated successfully") even for an absent id, with only that row's name and email changed |
| `Handlers.HandleDelete` | backend/src/main.rs:193-212 | unparsable id gives (500, "Unable to delete user"); store failure gives (500, "Internal Error"); otherwise (200, "User deleted successfully"), that id removed and every other row kept |
| `Router.FirstMatch` | backend/src/main.rs:75-83 | the chosen entry is one whose prefix matches, with no earlier entry matching; none is chosen only when no entry matches |
| `Router.RouteOf` | backend/src/main.rs:75-83 | a handler is chosen only for a request that starts with that handler's prefix |
| `Router.RouteOfIsFirstMatch` | backend/src/main.rs:75-83 | the guard cascade is first-match dispatch over the six-entry route table |
| `Router.OptionsAlwaysPreflight` | backend/src/main.rs:76 | any request starting with `OPTIONS` gets the empty OK reply route |
| `Router.ReadOnePrefixExtendsReadAll` | backend/src/main.rs:78-79 | the single-user prefix extends the list prefix |
| `Router.ReadOneShadowsReadAll` | backend/src/main.rs:78-79 | a request starting `GET /api/rust/users/` always goes to the single-user handler |
| `Router.ReadAllExactly` | backend/src/main.rs:78-79 | the list handler is reached iff the request has the list prefix but not the single-user prefix |
| `Router.NoRouteExactly` | backend/src/main.rs:82 | no route iff none of the six prefixes matches |
| `Router.SwappedOrderHidesReadOne` | backend/src/main.rs:78-79 | with the two GET arms swapped, the single-user route could never be chosen |
| `Server.HandleClient` | backend/src/main.rs:75-85 | the bytes written are the status line followed by the content; per route, the reply and new table are those of the handler; OPTIONS gives (200, "") and no match gives (404, "This route does not exists on our service"), both with no change |
| `Server.CrudScenario` | backend/src/main.rs:91-212 | on a fresh table, with requests carrying any request-line rest and header lines: create gets id 1, read returns it, the list holds just it, update then read shows the new values under the same id, delete then read is 404 |
| `Server.CreateStep` | backend/src/main.rs:91-113 | a create request, with any request-line rest and header lines, adds the decoded row under the next id and replies with it serialised |
| `Server.ReadStep` | backend/src/main.rs:115-145 | a read of id 1, with any request-line rest and header lines, returns the row serialised or 404, changing nothing |
| `Server.ListStep` | backend/src/main.rs:147-165 | a list request, with any request-line rest and header lines, returns the serialised listing, changing nothing |
| `Server.UpdateStep` | backend/src/main.rs:167-191 | an update of id 1, with any request-line rest and header lines, reports success and changes only row 1 |
| `Server.DeleteStep` | backend/src/main.rs:193-212 | a delete of id 1, with any request-line rest and header lines, reports success and removes row 1 |
| `Server.IdOne` | backend/src/main.rs:58-60 | the id text of a request for id 1 is "1", whatever request-line rest and header lines follow |
| `Server.PostRequest` | backend/src/main.rs:77 | a `POST /api/rust/users` request with header lines routes to create and decodes its body |
| `Server.GetOneRequest` | backend/src/main.rs:78 | a `GET /api/rust/users/1` request with header lines routes to the single-user handler with id text "1" |
| `Server.ListRequest` | backend/src/main.rs:79 | a `GET /api/rust/users` request followed by nothing or by whitespace, then any header lines, routes to the list handler |
| `Server.PutRoutes` | backend/src/main.rs:80 | any request with the PUT prefix routes to update |
| `Server.PutRequest` | backend/src/main.rs:80 | a `PUT /api/rust/users/1` request with header lines routes to update with id text "1" and decodes its body |
| `Server.DeleteRoutes` | backend/src/main.rs:81 | any request with the DELETE prefix routes to delete |
| `Server.DeleteRequest` | backend/src/main.rs:81 | a `DELETE /api/rust/users/1` request with header lines routes to delete with id text "1" |

## Left out

- Socket I/O: the listener, the accept loop, the single 1024-byte `read`, `from_utf8_lossy` and `write_all`. The model starts from the request text and ends at the bytes to write. Truncation of long requests is therefore not modelled.
- The async runtime and `await`: the server handles one connection at a time, and the model runs each handler to completion.
- Configuration and start-up: `dotenv`, `DATABASE_URL`, pool connection and migrations. The constructor stands for a freshly migrated, empty table.
- SQL and sqlx row mapping: the table is a map plus a scan order. Every query error is a caller-supplied failure flag. Only the insert uses the error's text, as `"Error: " + message`.
- serde_json: decoding and encoding are opaque functions in `Codec`; JSON syntax is not modelled.
- `eprintln!` logging: it has no effect on replies.
- Store.UserStore.Insert: the id sequence is an unbounded counter. Exhausting the i32 serial sequence is not modelled separately; it is one more insert failure, covered by the failure flag. A failed insert also leaves the counter unchanged, whereas a real sequence may skip a value.
- Handlers.HandlePost: the second query (the re-read at lines 106-110) is modelled as returning the inserted row. The `.unwrap()` panic it would cause on a store error is not modelled.
- Store.UserStore.Listing: the table's natural scan order is unspecified. The model takes insertion order, with deleted ids removed.
- The `_request` argument of `handle_get_all_request` is unused in the source and is omitted from `Handlers.HandleGetAll`.
