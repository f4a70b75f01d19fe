/**
 What a client reading a response sees, and what the server sends for each
 kind of request: a file, a directory, a missing target, an unknown file
 type, a method other than GET, and a request line without a space.
 */
module EndToEnd {
  import opened Text
  import opened HttpServer

  const BlankLine: string := "\r\n\r\n"

  /** The body as a client reads it: everything after the first blank line. */
  function ResponseBody(response: string): string
  {
    match Find(response, BlankLine)
    case None => []
    case Some(i) => response[i + |BlankLine|..]
  }

  /** Every carriage return in `h` is followed, two places on and still inside
      `h`, by something other than a carriage return: so no blank line starts in `h`. */
  predicate CarriageReturnsFollowed(h: string)
  {
    forall k :: 0 <= k < |h| && h[k] == '\r' ==> k + 2 < |h| && h[k + 2] != '\r'
  }

  /** The first blank line of `head + BlankLine + body` is the one after `head`,
      so a client reads back exactly `body`. */
  lemma BodyAfterHead(head: string, body: string)
    requires CarriageReturnsFollowed(head)
    ensures ResponseBody(head + BlankLine + body) == body
  {
    var s := head + BlankLine + body;
    forall k | 0 <= k < |head|
      ensures !OccursAt(s, BlankLine, k)
    {
      if head[k] == '\r' {
        assert s[k..k + 4][2] == head[k + 2];
      } else {
        assert s[k..k + 4][0] == head[k];
      }
    }
    assert s[|head|..|head| + 4] == BlankLine;
    FindIs(s, BlankLine, |head|);
    assert s[|head| + 4..] == body;
  }

  /** A head made of CR-free text, one CRLF, and non-empty CR-free text. */
  lemma HeadWithOneHeader(a: string, c: string)
    requires '\r' !in a && '\r' !in c && |c| > 0 && c[0] != '\r'
    ensures CarriageReturnsFollowed(a + CRLF + c)
  {
    var h := a + CRLF + c;
    forall k | 0 <= k < |h|
      ensures h[k] == '\r' ==> k + 2 < |h| && h[k + 2] != '\r'
    {
      if k < |a| {
        assert h[k] == a[k];
      } else if k == |a| {
        assert h[k + 2] == c[0];
      } else if k == |a| + 1 {
        assert h[k] == '\n';
      } else {
        assert h[k] == c[k - |a| - 2];
      }
    }
  }

  /** A client reads back the body of any response `handle` can build: the
      status has no carriage return and the header is empty or a content-type
      line whose type has none. */
  lemma {:induction false} ReadBackBody(status: string, mimetype: Option<string>, body: string)
    requires '\r' !in status
    requires mimetype.Some? ==> '\r' !in mimetype.value
    ensures var header := if mimetype.Some? then ContentTypeHeader(mimetype.value) else [];
            ResponseBody(BuildResponse(status, header, body)) == body
  {
    var a := StatusLinePrefix + status;
    assert '\r' !in StatusLinePrefix;
    if mimetype.Some? {
      var c := "Content-Type: " + mimetype.value;
      assert '\r' !in "Content-Type: ";
      assert c[0] == 'C';
      HeadWithOneHeader(a, c);
      assert BuildResponse(status, ContentTypeHeader(mimetype.value), body) == (a + CRLF + c) + BlankLine + body;
      BodyAfterHead(a + CRLF + c, body);
    } else {
      assert BuildResponse(status, [], body) == a + BlankLine + body;
      BodyAfterHead(a, body);
    }
  }

  /** The 404 response as `handle` builds it, spelled out as the unit test expects it. */
  lemma NotFoundText()
    ensures BuildResponse(NotFoundStatus, "", NotFoundStatus) == "HTTP/1.1 404 Not found\r\n\r\n404 Not found"
  {
    assert BuildResponse(NotFoundStatus, "", NotFoundStatus)
        == (StatusLinePrefix + NotFoundStatus) + (CRLF + CRLF + NotFoundStatus);
    NotFoundPieces();
  }

  /** The two halves of `NotFoundText`, kept apart so that the solver compares
      one short literal at a time. */
  lemma NotFoundPieces()
    ensures StatusLinePrefix + NotFoundStatus == "HTTP/1.1 404 Not found"
    ensures CRLF + CRLF + NotFoundStatus == "\r\n\r\n404 Not found"
  {
  }

  /** The 405 response as `handle` builds it, spelled out as the unit test expects it. */
  lemma NotAllowedText()
    ensures BuildResponse(NotAllowedStatus, "", NotAllowedStatus)
            == "HTTP/1.1 405 Method not allowed" + "\r\n\r\n405 Method not allowed"
  {
    assert BuildResponse(NotAllowedStatus, "", NotAllowedStatus)
        == (StatusLinePrefix + NotAllowedStatus) + (CRLF + CRLF + NotAllowedStatus);
    NotAllowedStatusLine();
    NotAllowedTail();
  }

  /** The status line of `NotAllowedText`, kept apart for the same reason as
      `NotFoundPieces`. */
  lemma NotAllowedStatusLine()
    ensures StatusLinePrefix + NotAllowedStatus == "HTTP/1.1 405 Method not allowed"
  {
  }

  /** The blank line and body of `NotAllowedText`, kept apart likewise. */
  lemma NotAllowedTail()
    ensures CRLF + CRLF + NotAllowedStatus == "\r\n\r\n405 Method not allowed"
  {
  }

  /** A first line `verb uri` followed by nothing or by a space and anything
      parses to that method and target, with or without a version. */
  lemma {:induction false} ParseFirstLine(message: string, verb: string, uri: string, tail: string)
    requires GetRequest(message) == verb + " " + uri + tail
    requires ' ' !in verb && ' ' !in uri
    requires tail == [] || tail[0] == ' '
    ensures ParseRequest(message) == Ok(Request(verb, uri))
  {
    assert GetRequest(message) == verb + " " + (uri + tail);
    SplitCons(verb, " ", uri + tail);
    if tail == [] {
      assert uri + tail == uri;
      SplitWhole(uri, " ");
    } else {
      assert uri + tail == uri + " " + tail[1..];
      SplitCons(uri, " ", tail[1..]);
    }
  }

  /** A request message whose first line is `verb uri version`. */
  function RequestMessage(verb: string, uri: string, version: string, rest: string): string
  {
    verb + " " + uri + " " + version + CRLF + rest
  }

  /** Method and target hold no space, and the line holds no carriage return. */
  predicate WellFormed(verb: string, uri: string, version: string)
  {
    ' ' !in verb && ' ' !in uri && '\r' !in verb && '\r' !in uri && '\r' !in version
  }

  /** Parsing a well-formed request line yields its method and target exactly;
      this discharges the parsing premise of the lemmas below. */
  lemma {:induction false} ParseWellFormed(verb: string, uri: string, version: string, rest: string)
    requires WellFormed(verb, uri, version)
    ensures ParseRequest(RequestMessage(verb, uri, version, rest)) == Ok(Request(verb, uri))
  {
    var line := verb + " " + uri + " " + version;
    NoCarriageReturn(line);
    assert RequestMessage(verb, uri, version, rest) == line + CRLF + rest;
    GetRequestUnique(RequestMessage(verb, uri, version, rest), line);
    assert line == verb + " " + uri + (" " + version);
    ParseFirstLine(RequestMessage(verb, uri, version, rest), verb, uri, " " + version);
  }

  /** A GET for an existing file sends 200 with the file's type and exact bytes;
      a client reads the bytes back unchanged. */
  lemma {:induction false} ServesFile(message: string, uri: string, fs: FileSystem, mime: MimeOracle)
    requires ParseRequest(message) == Ok(Request("GET", uri)) && '\0' !in uri
    requires Root + uri in fs && fs[Root + uri].RegularFile? && mime(uri).Some?
    ensures Handle(message, fs, mime)
            == Sent(BuildResponse(OkStatus, ContentTypeHeader(mime(uri).value), fs[Root + uri].bytes))
    ensures '\r' !in mime(uri).value ==> ResponseBody(Handle(message, fs, mime).response) == fs[Root + uri].bytes
  {
    if '\r' !in mime(uri).value {
      ReadBackBody(OkStatus, mime(uri), fs[Root + uri].bytes);
    }
  }

  /** A GET for a directory sends 200, plain text, its entries joined by CRLF;
      when no entry holds a CRLF a client splits the body back into the
      entries, in listing order. */
  lemma {:induction false} ListsDirectory(message: string, uri: string, fs: FileSystem, mime: MimeOracle)
    requires ParseRequest(message) == Ok(Request("GET", uri)) && '\0' !in uri
    requires Root + uri in fs && fs[Root + uri].Directory?
    ensures Handle(message, fs, mime)
            == Sent(BuildResponse(OkStatus, ContentTypeHeader("text/plain"), Join(fs[Root + uri].entries, CRLF)))
    ensures var entries := fs[Root + uri].entries;
            |entries| > 0 && (forall e :: e in entries ==> !Contains(e, CRLF)) ==>
              Split(ResponseBody(Handle(message, fs, mime).response), CRLF) == entries
  {
    var entries := fs[Root + uri].entries;
    ReadBackBody(OkStatus, Some("text/plain"), Join(entries, CRLF));
    if |entries| > 0 && (forall e :: e in entries ==> !Contains(e, CRLF)) {
      SplitJoinCrlf(entries);
    }
  }

  /** A GET for a target that is neither directory nor file sends exactly the 404 response. */
  lemma MissingIsNotFound(message: string, uri: string, fs: FileSystem, mime: MimeOracle)
    requires ParseRequest(message) == Ok(Request("GET", uri)) && '\0' !in uri
    requires Root + uri !in fs
    ensures Handle(message, fs, mime) == Sent(BuildResponse(NotFoundStatus, "", NotFoundStatus))
  {
  }

  /** A GET for a file whose type is unknown raises the uncaught `TypeError`. */
  lemma UnknownTypeCrashes(message: string, uri: string, fs: FileSystem, mime: MimeOracle)
    requires ParseRequest(message) == Ok(Request("GET", uri))
    requires Root + uri in fs && fs[Root + uri].RegularFile? && mime(uri).None?
    ensures Handle(message, fs, mime) == Crashed(TypeError)
  {
  }

  /** A GET whose target holds a NUL byte raises the uncaught `TypeError`,
      whatever the filesystem holds. */
  lemma NulTargetCrashes(message: string, uri: string, fs: FileSystem, mime: MimeOracle)
    requires ParseRequest(message) == Ok(Request("GET", uri)) && '\0' in uri
    ensures Handle(message, fs, mime) == Crashed(TypeError)
  {
  }

  /** Any parsed method other than GET gets exactly the 405 response, whatever
      the filesystem and the MIME table hold. */
  lemma NotGetIsNotAllowed(message: string, fs: FileSystem, mime: MimeOracle)
    requires ParseRequest(message).Ok? && ParseRequest(message).value.verb != "GET"
    ensures Handle(message, fs, mime) == Sent(BuildResponse(NotAllowedStatus, "", NotAllowedStatus))
  {
  }

  /** A first line without a space has one token, so `get_uri` raises
      `IndexError` before the method is checked, for every method. */
  lemma SpacelessLineCrashes(message: string, fs: FileSystem, mime: MimeOracle)
    requires ' ' !in GetRequest(message)
    ensures Handle(message, fs, mime) == Crashed(IndexError)
  {
  }
}
