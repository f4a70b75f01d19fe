/**
 The request-handling pipeline of a minimal HTTP/1.1 file server: one raw
 request message in, at most one response string out.

 The filesystem is a map from absolute path to what lives there, and the
 MIME lookup by file name is a parameter (`mime`), so every step is a total
 function. A Python exception that the server does not catch is the
 `Crashed` outcome: `main` only closes the connection in a `finally`
 clause, so such an exception ends the server loop.
 */
module HttpServer {
  import opened Text

  const CRLF: string := "\r\n"
  const StatusLinePrefix: string := "HTTP/1.1 "

  /** The directory every request target is appended to. */
  const Root: string := "/home/jordan/webroot"

  /** The Python exceptions the pipeline can raise. */
  datatype Error =
    | IndexError           // a token list too short for `r[0]` or `r[1]`
    | ValueError(reason: string)
    | TypeError            // `str + None` for an unknown MIME type, or a NUL byte in a path

  datatype Result<+T> = Ok(value: T) | Err(error: Error)

  /** What a path names on disk: a directory with its entries in listing order, or a file. */
  datatype Node = Directory(entries: seq<string>) | RegularFile(bytes: string)

  /** Paths that are neither directory nor file are absent from the map. */
  type FileSystem = map<string, Node>

  /** The MIME type guessed from a target's extension, `None` when unknown. */
  type MimeOracle = string -> Option<string>

  /** The body and the content-type header line `get_content` returns. */
  datatype Content = Content(body: string, header: string)

  /** The method and target of a request line. */
  datatype Request = Request(verb: string, uri: string)

  /** What one call of the handler does: send one response, or raise. */
  datatype Outcome = NoResponse | Sent(response: string) | Crashed(error: Error)

  /** A header line as `get_content` formats it: it starts with its own CRLF. */
  function ContentTypeHeader(mimetype: string): (h: string)
    ensures CRLF <= h && h[|CRLF|..] == "Content-Type: " + mimetype
  {
    CRLF + "Content-Type: " + mimetype
  }

  /** `get_request`: the text of the message before its first CRLF. */
  function GetRequest(message: string): (line: string)
    ensures line <= message && !Contains(line, CRLF)
    ensures Contains(message, CRLF) ==> line + CRLF <= message
    ensures !Contains(message, CRLF) ==> line == message
  {
    SplitPiecesFree(message, CRLF);
    FindIffContains(message, CRLF);
    Split(message, CRLF)[0]
  }

  /** A CRLF-free prefix followed by CRLF (or the whole CRLF-free message) is
      exactly what `GetRequest` returns. */
  lemma GetRequestUnique(message: string, line: string)
    requires !Contains(line, CRLF)
    requires line + CRLF <= message || line == message
    ensures GetRequest(message) == line
  {
    if line == message {
    } else {
      forall k | 0 <= k < |line|
        ensures !OccursAt(message, CRLF, k)
      {
        if k + 2 <= |line| {
          assert message[k..k + 2] == line[k..k + 2];
          assert !OccursAt(line, CRLF, k);
        } else {
          assert message[k + 1] == (line + CRLF)[|line|] == '\r';
        }
      }
      assert message[|line|..|line| + 2] == CRLF;
      FindIs(message, CRLF, |line|);
      assert message[..|line|] == line;
    }
  }

  /** A string without a carriage return holds no CRLF: the CRLF instance of
      `NoLeadNoOccurrence`, which the callers about request and status lines share. */
  lemma NoCarriageReturn(s: string)
    requires '\r' !in s
    ensures !Contains(s, CRLF)
  {
    NoLeadNoOccurrence(s, CRLF);
  }

  /** `split_request`: the request line split at every single space. The
      pieces hold no space and joined with one space they give the line back. */
  function SplitRequest(line: string): (tokens: seq<string>)
    ensures |tokens| >= 1
    ensures forall t :: t in tokens ==> ' ' !in t
    ensures Join(tokens, " ") == line
  {
    SplitOnCharPieces(line, ' ');
    JoinSplit(line, " ");
    Split(line, " ")
  }

  /** `get_method`: token 0; an empty list raises `IndexError`. */
  function GetMethod(tokens: seq<string>): (r: Result<string>)
    ensures r.Ok? <==> |tokens| >= 1
    ensures r.Ok? ==> r.value == tokens[0]
    ensures r.Err? ==> r.error == IndexError
  {
    if |tokens| >= 1 then Ok(tokens[0]) else Err(IndexError)
  }

  /** `get_uri`: token 1; a list shorter than two raises `IndexError`. */
  function GetUri(tokens: seq<string>): (r: Result<string>)
    ensures r.Ok? <==> |tokens| >= 2
    ensures r.Ok? ==> r.value == tokens[1]
    ensures r.Err? ==> r.error == IndexError
  {
    if |tokens| >= 2 then Ok(tokens[1]) else Err(IndexError)
  }

  /** `check_method`: only the exact token GET is accepted. */
  function CheckMethod(m: string): (r: Result<bool>)
    ensures r.Ok? <==> m == "GET"
    ensures r.Err? ==> r.error == ValueError("Invalid method")
  {
    if m == "GET" then Ok(true) else Err(ValueError("Invalid method"))
  }

  /** Lines 27-30 of `handle`: first line, tokens, method, target. */
  function ParseRequest(message: string): (r: Result<Request>)
    ensures r.Ok? <==> ' ' in GetRequest(message)
    ensures r.Ok? ==> (var tokens := SplitRequest(GetRequest(message));
                       |tokens| >= 2 && r.value == Request(tokens[0], tokens[1]))
    ensures r.Err? ==> r.error == IndexError
  {
    var tokens := SplitRequest(GetRequest(message));
    SplitTokenCount(GetRequest(message));
    match GetMethod(tokens)
    case Err(e) => Err(e)
    case Ok(verb) =>
      match GetUri(tokens)
      case Err(e) => Err(e)
      case Ok(uri) => Ok(Request(verb, uri))
  }

  /** A request line has at least two tokens exactly when it holds a space. */
  lemma SplitTokenCount(line: string)
    ensures |SplitRequest(line)| >= 2 <==> ' ' in line
  {
    SplitSingleIff(line, " ");
    ContainsChar(line, ' ');
  }

  /** `get_content`: resolve `Root + uri`. A NUL byte in the path makes the
      `os.stat` inside `os.path.isdir` raise `TypeError`, which `isdir` does not
      catch. Otherwise a directory gives its entries joined by CRLF as plain
      text; a file gives its bytes with the type guessed from the target, and
      an unknown type raises `TypeError`; anything else raises `ValueError`. */
  function GetContent(fs: FileSystem, mime: MimeOracle, uri: string): (r: Result<Content>)
    ensures '\0' in uri ==> r == Err(TypeError)
    ensures r.Ok? <==> '\0' !in uri && Root + uri in fs && (fs[Root + uri].RegularFile? ==> mime(uri).Some?)
    ensures '\0' !in uri && Root + uri !in fs ==> r == Err(ValueError("404 File not found"))
    ensures '\0' !in uri && Root + uri in fs && fs[Root + uri].Directory? ==>
      r == Ok(Content(Join(fs[Root + uri].entries, CRLF), ContentTypeHeader("text/plain")))
    ensures '\0' !in uri && Root + uri in fs && fs[Root + uri].RegularFile? ==>
      r == match mime(uri)
           case Some(t) => Ok(Content(fs[Root + uri].bytes, ContentTypeHeader(t)))
           case None => Err(TypeError)
  {
    var path := Root + uri;
    // The root holds no NUL, so the path holds one exactly when the target does.
    if '\0' in uri then
      Err(TypeError)
    else if path in fs && fs[path].Directory? then
      Ok(Content(Join(fs[path].entries, CRLF), ContentTypeHeader("text/plain")))
    else if path in fs && fs[path].RegularFile? then
      match mime(uri)
      case None => Err(TypeError)
      case Some(t) => Ok(Content(fs[path].bytes, ContentTypeHeader(t)))
    else
      Err(ValueError("404 File not found"))
  }

  /** Resolution consults only the path `Root + uri`, taken verbatim, and the
      type guessed for `uri`: two filesystems and MIME tables that agree there
      give the same result. */
  lemma GetContentLocal(fs1: FileSystem, mime1: MimeOracle, fs2: FileSystem, mime2: MimeOracle, uri: string)
    requires Root + uri in fs1 <==> Root + uri in fs2
    requires Root + uri in fs1 ==> fs1[Root + uri] == fs2[Root + uri]
    requires mime1(uri) == mime2(uri)
    ensures GetContent(fs1, mime1, uri) == GetContent(fs2, mime2, uri)
  {
  }

  /** A CRLF-free piece, then CRLF, is split off as the first piece. A piece may
      hold a lone carriage return: the CRLF after it still comes first. */
  lemma SplitConsCrlf(t: string, rest: string)
    requires !Contains(t, CRLF)
    ensures Split(t + CRLF + rest, CRLF) == [t] + Split(rest, CRLF)
  {
    var s := t + CRLF + rest;
    forall k | 0 <= k < |t|
      ensures !OccursAt(s, CRLF, k)
    {
      if k + 2 <= |t| {
        assert s[k..k + 2] == t[k..k + 2];
        assert !OccursAt(t, CRLF, k);
      } else {
        assert s[k + 1] == '\r';
      }
    }
    assert s[|t|..|t| + 2] == CRLF;
    FindIs(s, CRLF, |t|);
    assert s[..|t|] == t;
    assert s[|t| + 2..] == rest;
  }

  /** `'\r\n'.join(entries)` splits back at CRLF into the entries, in order,
      whenever there is at least one entry and none holds a CRLF. */
  lemma {:induction false} SplitJoinCrlf(entries: seq<string>)
    requires |entries| > 0
    requires forall e :: e in entries ==> !Contains(e, CRLF)
    ensures Split(Join(entries, CRLF), CRLF) == entries
    decreases |entries|
  {
    var head := entries[0];
    assert head in entries;
    if |entries| == 1 {
      SplitSingleIff(head, CRLF);
      assert entries == [head];
    } else {
      var tail := entries[1..];
      forall e | e in tail
        ensures !Contains(e, CRLF)
      {
        assert e in entries;
      }
      SplitJoinCrlf(tail);
      assert Join(entries, CRLF) == head + CRLF + Join(tail, CRLF);
      SplitConsCrlf(head, Join(tail, CRLF));
      assert entries == [head] + tail;
    }
  }

  /** `build_response`: status line, header, blank line, body. */
  function BuildResponse(status: string, header: string, body: string): (response: string)
    ensures StatusLinePrefix + status + header <= response
    ensures response[|StatusLinePrefix + status + header|..] == CRLF + CRLF + body
  {
    StatusLinePrefix + status + header + CRLF + CRLF + body
  }

  /** The first line of a built response is its status line, whenever the
      status has no carriage return and the header is empty or starts with CRLF. */
  lemma StatusLineOf(status: string, header: string, body: string)
    requires '\r' !in status
    requires header == [] || CRLF <= header
    ensures GetRequest(BuildResponse(status, header, body)) == StatusLinePrefix + status
  {
    var line := StatusLinePrefix + status;
    var response := BuildResponse(status, header, body);
    assert response == line + (header + CRLF + CRLF + body);
    if header == [] {
      assert response == line + CRLF + (CRLF + body);
    } else {
      assert header == CRLF + header[2..];
      assert response == line + CRLF + (header[2..] + CRLF + CRLF + body);
    }
    NoCarriageReturn(line);
    GetRequestUnique(response, line);
  }

  const OkStatus: string := "200 OK"
  const NotFoundStatus: string := "404 Not found"
  const NotAllowedStatus: string := "405 Method not allowed"

  /** The status lines `handle` can send. */
  const StatusLines: set<string> :=
    {StatusLinePrefix + OkStatus, StatusLinePrefix + NotFoundStatus, StatusLinePrefix + NotAllowedStatus}

  /** A response with an empty header and the status phrase as its body, as
      `handle` sends for 404 and 405. */
  function ErrorResponse(status: string): (response: string)
    requires status == NotFoundStatus || status == NotAllowedStatus
    ensures GetRequest(response) == StatusLinePrefix + status
  {
    StatusLineOf(status, "", status);
    BuildResponse(status, "", status)
  }

  /** A 200 response carrying what `get_content` produced. */
  function OkResponse(c: Content): (response: string)
    requires c.header == [] || CRLF <= c.header
    ensures GetRequest(response) == StatusLinePrefix + OkStatus
  {
    StatusLineOf(OkStatus, c.header, c.body);
    BuildResponse(OkStatus, c.header, c.body)
  }

  /** `handle`: one response per handled message, with one of three status lines. */
  function Handle(message: string, fs: FileSystem, mime: MimeOracle): (o: Outcome)
    ensures !o.NoResponse?
    ensures o.Sent? ==> GetRequest(o.response) in StatusLines
  {
    match ParseRequest(message)
    case Err(e) => Crashed(e)
    case Ok(request) =>
      match CheckMethod(request.verb)
      case Err(ValueError(_)) => Sent(ErrorResponse(NotAllowedStatus))
      case Err(e) => Crashed(e)
      case Ok(_) =>
        match GetContent(fs, mime, request.uri)
        case Err(ValueError(_)) => Sent(ErrorResponse(NotFoundStatus))
        case Err(e) => Crashed(e)
        case Ok(c) => Sent(OkResponse(c))
  }

  /** `receive`: an empty read produces no response; anything else is handled. */
  function Receive(message: string, fs: FileSystem, mime: MimeOracle): (o: Outcome)
    ensures o.NoResponse? <==> |message| == 0
    ensures |message| > 0 ==> o == Handle(message, fs, mime)
  {
    if |message| > 0 then Handle(message, fs, mime) else NoResponse
  }
}
