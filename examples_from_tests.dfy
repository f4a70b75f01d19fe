/**
 The concrete cases of the repository's unit tests, as consequences of the
 general lemmas.
 */
module SourceExamples {
  import opened Text
  import opened HttpServer

  /** Only the first line of a multi-line message is kept. */
  lemma GetRequestExample()
    ensures GetRequest("GET /directory/file.html HTTP/1.1\r\ntextthat\r\ndoesntmatter")
            == "GET /directory/file.html HTTP/1.1"
  {
    var line := "GET /directory/file.html HTTP/1.1";
    assert '\r' !in line;
    NoCarriageReturn(line);
    ExampleMessage();
    GetRequestUnique(line + CRLF + "textthat\r\ndoesntmatter", line);
  }

  /** The test message as `GetRequestUnique` sees it: the line, CRLF, the rest.
      Kept apart so that the solver compares the literals on their own. */
  lemma ExampleMessage()
    ensures "GET /directory/file.html HTTP/1.1" + CRLF + "textthat\r\ndoesntmatter"
            == "GET /directory/file.html HTTP/1.1\r\ntextthat\r\ndoesntmatter"
  {
  }

  /** A request line with two single spaces splits into exactly three tokens. */
  lemma SplitRequestExample()
    ensures SplitRequest("GET /directory/file.html HTTP/1.1") == ["GET", "/directory/file.html", "HTTP/1.1"]
  {
    ExampleLine();
    SplitCons("GET", " ", "/directory/file.html" + " " + "HTTP/1.1");
    SplitCons("/directory/file.html", " ", "HTTP/1.1");
    SplitWhole("HTTP/1.1", " ");
  }

  /** The test line as `SplitCons` sees it, kept apart like `ExampleMessage`. */
  lemma ExampleLine()
    ensures "GET" + " " + ("/directory/file.html" + " " + "HTTP/1.1") == "GET /directory/file.html HTTP/1.1"
  {
  }

  /** GET passes; POST, PUT, DELETE and an arbitrary phrase raise `ValueError`.
      The unit tests hand `check_method` whole token lists, which are never
      equal to the string `GET`; these are the method strings `handle` passes. */
  lemma CheckMethodExamples()
    ensures CheckMethod("GET") == Ok(true)
    ensures CheckMethod("POST").Err? && CheckMethod("PUT").Err? && CheckMethod("DELETE").Err?
    ensures CheckMethod("not even a method") == Err(ValueError("Invalid method"))
  {
  }
}
