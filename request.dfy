/**
 * The two request-text helpers: `get_user_id` and the text that
 * `get_user_request_body` hands to the JSON decoder.
 */
module Request {
  import opened Text

  /** The separator between the header block and the body. */
  const BlankLine: string := "\r\n\r\n"

  /** The collection path every user route shares, after the verb word. */
  const UsersPath: string := " /api/rust/users/"

  /**
   * `request.split("/").nth(4).unwrap_or_default()`: the fifth `/`-separated
   * piece of the request, or "" when there are fewer than five.
   */
  function PathSegment4(request: string): (seg: string)
    ensures !Contains(seg, "/")
  {
    var pieces := Split(request, "/");
    SplitPiecesFree(request, "/");
    if |pieces| > 4 then pieces[4] else ""
  }

  /**
   * `get_user_id`: the first whitespace-delimited token of the fifth
   * `/`-separated piece. It never contains whitespace or `/`.
   */
  function UserId(request: string): (id: string)
    ensures NoWhitespace(id)
    ensures '/' !in id
  {
    var seg := PathSegment4(request);
    TokenWithoutSlash(seg);
    FirstToken(seg)
  }

  /** A token taken from text without `/` has none either. */
  lemma TokenWithoutSlash(seg: string)
    requires !Contains(seg, "/")
    ensures '/' !in FirstToken(seg)
  {
    var lead := |seg| - |SkipWhitespace(seg)|;
    SliceWithoutSlash(seg, lead, FirstToken(seg));
  }

  lemma SliceWithoutSlash(seg: string, lead: nat, t: string)
    requires lead + |t| <= |seg| && seg[lead..lead + |t|] == t
    requires !Contains(seg, "/")
    ensures '/' !in t
  {
    forall k | 0 <= k < |t| ensures t[k] != '/' {
      assert seg[lead + k..lead + k + 1] == [t[k]];
      assert !OccursAt(seg, "/", lead + k);
    }
  }

  /**
   * The text `get_user_request_body` decodes:
   * `request.split("\r\n\r\n").last().unwrap_or_default()`.
   */
  function RequestBody(request: string): (body: string)
    ensures !Contains(body, BlankLine)
  {
    SplitPiecesFree(request, BlankLine);
    Last(Split(request, BlankLine))
  }

  /** A request with fewer than four `/` characters has the empty id. */
  lemma UserIdFewSlashes(request: string)
    requires CountChar(request, '/') < 4
    ensures UserId(request) == ""
  {
    SplitCount(request, '/');
  }

  /**
   * The id in a route: for a verb word without `/`, a nonempty id free of
   * `/` and whitespace, followed by nothing or by whitespace (the
   * ` HTTP/1.1` of the request line, or the line break),
   * `UserId(verb + " /api/rust/users/" + id + rest) == id`.
   */
  lemma UserIdOfRoute(verb: string, id: string, rest: string)
    requires '/' !in verb
    requires id != [] && NoWhitespace(id) && '/' !in id
    requires rest == [] || IsWhitespace(rest[0])
    ensures UserId(verb + UsersPath + id + rest) == id
  {
    var request := verb + UsersPath + id + rest;
    assert request == verb + UsersPath + (id + rest);
    SplitRoute(verb, id + rest);
    assert PathSegment4(request) == Split(id + rest, "/")[0];
    SplitFirstExtends(id, rest, '/');
    var after := Split(rest, "/")[0];
    assert StartsWith(rest, after);
    assert after == [] || IsWhitespace(after[0]);
    FirstTokenOf(id, after);
  }

  /**
   * With the id missing, the fifth piece is the text up to the next `/`, and
   * its first token is whatever word follows: for the request line
   * `GET /api/rust/users/ HTTP/1.1` the id text is "HTTP", not "".
   */
  lemma MissingIdTakesNextWord(verb: string, word: string, rest: string)
    requires '/' !in verb
    requires word != [] && NoWhitespace(word) && '/' !in word
    ensures UserId(verb + UsersPath + " " + word + "/" + rest) == word
  {
    var piece := " " + word;
    var tail := piece + ("/" + rest);
    assert verb + UsersPath + " " + word + "/" + rest == verb + UsersPath + tail;
    SplitRoute(verb, tail);
    SplitFirstExtends(piece, "/" + rest, '/');
    assert ("/" + rest)[..1] == "/";
    assert Split("/" + rest, "/")[0] == "";
    assert PathSegment4(verb + UsersPath + tail) == piece;
    assert SkipWhitespace(piece) == SkipWhitespace(word) == word;
    FirstTokenOf(word, "");
    assert word + "" == word;
  }

  /** The route prefix contributes exactly four `/`-separated pieces. */
  lemma SplitRoute(verb: string, tail: string)
    requires '/' !in verb
    ensures Split(verb + UsersPath + tail, "/") == [verb + " ", "api", "rust", "users"] + Split(tail, "/")
  {
    RouteWords(verb, tail);
    SplitWords(verb + " ", "api", "rust", "users", tail);
  }

  lemma RouteWords(verb: string, tail: string)
    ensures verb + UsersPath + tail == (verb + " ") + "/" + "api" + "/" + "rust" + "/" + "users" + "/" + tail
  {
  }

  /** Four words without `/`, each followed by `/`, are the first four pieces. */
  lemma SplitWords(a: string, b: string, c: string, d: string, tail: string)
    requires '/' !in a && '/' !in b && '/' !in c && '/' !in d
    ensures Split(a + "/" + b + "/" + c + "/" + d + "/" + tail, "/") == [a, b, c, d] + Split(tail, "/")
  {
    var t := c + "/" + d + "/" + tail;
    var rest := Split(tail, "/");
    SplitTwo(c, d, tail);
    SplitTwo(a, b, t);
    RegroupFour(a, b, c, d, tail);
    assert [a, b] + ([c, d] + rest) == [a, b, c, d] + rest;
  }

  /** Two words without `/`, each followed by `/`, are the first two pieces. */
  lemma SplitTwo(a: string, b: string, tail: string)
    requires '/' !in a && '/' !in b
    ensures Split(a + "/" + b + "/" + tail, "/") == [a, b] + Split(tail, "/")
  {
    var t := b + "/" + tail;
    var rest := Split(tail, "/");
    SplitWord(b, tail);
    SplitWord(a, t);
    RegroupTwo(a, b, tail);
    assert [a] + ([b] + rest) == [a, b] + rest;
  }

  lemma RegroupTwo(a: string, b: string, tail: string)
    ensures a + "/" + b + "/" + tail == a + "/" + (b + "/" + tail)
  {
  }

  lemma RegroupFour(a: string, b: string, c: string, d: string, tail: string)
    ensures a + "/" + b + "/" + c + "/" + d + "/" + tail == a + "/" + b + "/" + (c + "/" + d + "/" + tail)
  {
  }

  /** A word without `/` followed by `/` is the first piece. */
  lemma SplitWord(w: string, t: string)
    requires '/' !in w
    ensures Split(w + "/" + t, "/") == [w] + Split(t, "/")
  {
    NoSlashIn(w);
    SplitAfterFirst(w, "/", t);
  }

  lemma NoSlashIn(w: string)
    requires '/' !in w
    ensures !Contains(w + "/"[..0], "/")
  {
    assert w + "/"[..0] == w;
    forall j | 0 <= j <= |w| - 1 ensures !OccursAt(w, "/", j) {
      assert w[j..j + 1][0] == w[j];
    }
  }

  /**
   * The body is a suffix of the request containing no blank line; it is the
   * whole request when there is no blank line, and otherwise what precedes
   * it ends with one.
   */
  lemma BodyIsTail(request: string)
    ensures var body := RequestBody(request);
      && |body| <= |request|
      && request[|request| - |body|..] == body
      && !Contains(body, BlankLine)
      && (!Contains(request, BlankLine) <==> body == request)
      && (Contains(request, BlankLine) ==> EndsWithBlank(request[..|request| - |body|]))
  {
    SplitLast(request, BlankLine);
    var pieces := Split(request, BlankLine);
    var body := RequestBody(request);
    SplitSingleIff(request, BlankLine);
    if |pieces| > 1 {
      SplitJoin(request, BlankLine);
      JoinLast(pieces, BlankLine);
      var head := Join(pieces[..|pieces| - 1], BlankLine);
      assert request == head + BlankLine + body;
      assert request[..|request| - |body|] == head + BlankLine;
    }
  }

  predicate EndsWithBlank(s: string)
  {
    |BlankLine| <= |s| && s[|s| - |BlankLine|..] == BlankLine
  }

  /**
   * A request made of a head, the blank line and a body, where the blank line
   * after the head is the first one (none starts inside the head) and the
   * body holds none, yields exactly that body; an empty body gives "".
   */
  lemma BodyAfterHead(head: string, body: string)
    requires !Contains(head + "\r\n\r", BlankLine)
    requires !Contains(body, BlankLine)
    ensures RequestBody(head + BlankLine + body) == body
  {
    assert BlankLine[..|BlankLine| - 1] == "\r\n\r";
    SplitAfterFirst(head, BlankLine, body);
    SplitSingleIff(body, BlankLine);
  }

  /**
   * Text without carriage returns put in front of `rest` cannot start a blank
   * line, so `rest` alone decides whether one occurs.
   */
  lemma PrefixKeepsNoBlank(p: string, rest: string)
    requires '\r' !in p
    requires !Contains(rest, BlankLine)
    ensures !Contains(p + rest, BlankLine)
  {
    var x := p + rest;
    forall j | 0 <= j <= |x| - |BlankLine| ensures !OccursAt(x, BlankLine, j) {
      if j < |p| {
        assert x[j..j + 4][0] == x[j] == p[j];
      } else {
        assert x[j..j + 4] == rest[j - |p|..j - |p| + 4];
        assert !OccursAt(rest, BlankLine, j - |p|);
      }
    }
  }

  /**
   * Past a first blank line, the body is decided by what follows it: a head
   * in which no blank line starts is skipped whole.
   */
  lemma BodyAfterBlank(head: string, rest: string)
    requires !Contains(head + "\r\n\r", BlankLine)
    ensures RequestBody(head + BlankLine + rest) == RequestBody(rest)
  {
    assert BlankLine[..|BlankLine| - 1] == "\r\n\r";
    SplitAfterFirst(head, BlankLine, rest);
    var pieces := Split(rest, BlankLine);
    assert Last([head] + pieces) == Last(pieces);
  }

  /**
   * Ending in a blank line is not enough for an empty body: the scan takes
   * matches left to right without overlap, so a line break followed by the
   * blank line leaves "\r\n" as the last piece.
   */
  lemma OverlappingTerminator()
    ensures RequestBody("\r\n" + BlankLine) == "\r\n"
  {
    var s := "\r\n" + BlankLine;
    assert s[..4] == BlankLine;
    assert s[4..] == "\r\n";
    assert Split("\r\n", BlankLine) == ["\r\n"];
    assert Split(s, BlankLine) == [""] + ["\r\n"];
  }
}
