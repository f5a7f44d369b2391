/** The three fixed status lines and the bytes written back on the connection. */
module Response {
  import opened Wrappers
  import opened Text

  datatype Status = Ok | NotFound | InternalError

  /** The first line of `OkResponse`; the CORS and content-type headers follow it. */
  const OkStatusLine: string := "HTTP/1.1 200 OK\r\n"
  const OkResponse: string := OkStatusLine + "Content-Type: application/json\r\nAccess-Control-Allow-Origin: *\r\nAccess-Control-Allow-Methods: GET, POST, PUT, DELETE\r\nAccess-Control-Allow-Headers: Content-Type\r\n\r\n"
  const NotFoundResponse: string := "HTTP/1.1 404 NOT FOUND\r\n\r\n"
  const InternalErrorResponse: string := "HTTP/1.1 500 INTERNAL ERROR\r\n\r\n"

  /** The status code each outcome's status line carries. */
  function Code(status: Status): string
  {
    match status
    case Ok => "200"
    case NotFound => "404"
    case InternalError => "500"
  }

  /**
   * The status-line constant of each outcome (it includes the headers and the
   * blank line): an HTTP/1.1 status line with the outcome's code.
   */
  function StatusLine(status: Status): (line: string)
    ensures |line| > 12 && line[..9] == "HTTP/1.1 " && line[9..12] == Code(status)
  {
    match status
    case Ok =>
      assert OkResponse[..12] == OkStatusLine[..12];
      OkResponse
    case NotFound => NotFoundResponse
    case InternalError =>
      assert InternalErrorResponse[9] == '5' && InternalErrorResponse[10] == '0' && InternalErrorResponse[11] == '0';
      InternalErrorResponse
  }

  /** What a handler returns: the outcome and the body text. */
  datatype Reply = Reply(status: Status, content: string)

  /**
   * `format!("{}{}", status_line, content)`: the bytes written to the client.
   * They determine the reply: a client reads back the same status and content.
   */
  function Wire(reply: Reply): (bytes: string)
    ensures ReadWire(bytes) == Some(reply)
  {
    StatusLineFirst(reply.status, reply.content);
    StatusLine(reply.status) + reply.content
  }

  /** How a client reads the written bytes back: the status line, then the body. */
  function ReadWire(bytes: string): Option<Reply>
  {
    if StartsWith(bytes, OkResponse) then Some(Reply(Ok, bytes[|OkResponse|..]))
    else if StartsWith(bytes, NotFoundResponse) then Some(Reply(NotFound, bytes[|NotFoundResponse|..]))
    else if StartsWith(bytes, InternalErrorResponse) then Some(Reply(InternalError, bytes[|InternalErrorResponse|..]))
    else None
  }

  /**
   * The three status lines differ at the status code, so none is a prefix of
   * text written after another: the status line and the content are recovered.
   */
  lemma StatusLineFirst(status: Status, content: string)
    ensures ReadWire(StatusLine(status) + content) == Some(Reply(status, content))
  {
    var line := StatusLine(status);
    var bytes := line + content;
    assert bytes[..|line|] == line;
    assert bytes[|line|..] == content;
    assert bytes[9] == line[9];
    assert OkResponse[9] == OkStatusLine[9] == '2';
    assert NotFoundResponse[9] == '4';
    assert InternalErrorResponse[9] == '5';
    if status != Ok {
      assert !StartsWith(bytes, OkResponse) by {
        if |OkResponse| <= |bytes| { assert bytes[..|OkResponse|][9] == bytes[9]; }
      }
    }
    if status == InternalError {
      assert !StartsWith(bytes, NotFoundResponse) by {
        assert bytes[..|NotFoundResponse|][9] == bytes[9];
      }
    }
  }

  /** Different replies are written as different bytes. */
  lemma WireInjective(a: Reply, b: Reply)
    requires Wire(a) == Wire(b)
    ensures a == b
  {
    assert ReadWire(Wire(a)) == Some(a) && ReadWire(Wire(b)) == Some(b);
  }
}
