# A verified model of a minimal HTTP/1.1 file server's request pipeline

The server reads one message from a connection and keeps its first line,
the text before the first CRLF. It splits that line at every single space
and takes token 0 as the method and token 1 as the target. Only `GET` is
accepted. The target is appended verbatim to the root
`/home/jordan/webroot`. A directory there is answered with its entries
joined by CRLF as `text/plain`. A file is answered with its bytes and the
type guessed from the target's extension. A path that names neither is
answered with 404, and a method other than GET with 405. A target whose
type is unknown, or which holds a NUL byte, raises `TypeError`, which
nothing catches. The response is
`"HTTP/1.1 " + status + header + CRLF + CRLF + body`.

The model is pure: every step is a Dafny function, and the properties are
lemmas.

- `text.dfy` (module `Text`) models the Python string operations the
  server relies on. These are `find` with a non-empty separator, `split(sep)`
  (split at every occurrence, keeping empty pieces) and `join`. It proves
  that split and join are inverse to each other.
- `http_server.dfy` (module `HttpServer`) holds the pipeline functions and
  the exceptions they raise.
  - The filesystem is a map from path to `Directory(entries)` or
    `RegularFile(bytes)`; a path missing from the map is neither.
  - The MIME lookup is a function parameter from target to an optional type.
  - A Python exception that nothing catches is the outcome `Crashed(error)`.
    The server loop guards its body with `try`/`finally` only, so such an
    exception also ends the loop.
- `end_to_end.dfy` (module `EndToEnd`) defines what a client reads from a
  response: the status line is the first line, and the body is everything
  after the first blank line. It proves what the server sends for each kind
  of request.
- `examples_from_tests.dfy` (module `SourceExamples`) derives the concrete
  cases of the unit tests from the general lemmas.

Notes on how the model reads the code:

- A map cannot name a path as both a directory and a file. The
  directory-first `if`/`elif` order of `get_content` is kept, but the two
  branches can never both apply.
- `get_request` returns the text before the first CRLF. That is not always
  the longest prefix free of CRLF: for `"a\r\nb"` the prefix `"a\r"` has no
  CRLF either. The model states the exact property instead. The line has no
  CRLF, and the line followed by CRLF is a prefix of the message
  (`GetRequest`). Any line with that property is the one returned
  (`GetRequestUnique`).
- `get_uri` runs before `check_method`. So a first line without a space
  raises `IndexError` even when its method is not GET, and no 405 is sent.
- For a file with an unknown type, `mimetypes.guess_type` gives `None`.
  The concatenation on line 77 then raises `TypeError`, which `handle` does
  not catch. No fallback type is invented: the model follows the code.
- The server is Python 2 code. There `os.stat` rejects a path holding a NUL
  byte with `TypeError`, and `os.path.isdir` catches only `os.error`. So a
  target with a NUL byte raises `TypeError` from line 73, before any
  filesystem lookup, and the server stops.
- The unit tests for `check_method` (http_server_test.py:42-59) do not test
  method strings. `test_get` only asserts that the function object is
  truthy, and the other tests pass whole token lists, which are never equal
  to `GET`. `SourceExamples.CheckMethodExamples` states the outcomes on the
  method strings that `handle` passes instead.

## Model

| member | source | states |
|---|---|---|
| `Text.Split` | http_server.py:52-53 | `str.split(sep)` always returns at least one piece |
| `Text.SplitPiecesFree` | http_server.py:52-53 | no piece of a split contains the separator |
| `Text.JoinSplit` | http_server.py:52-53 | joining the pieces with the separator rebuilds the input exactly |
| `Text.SplitJoin` | http_server.py:52-53 | splitting a join of pieces that lack the separator's first character returns those pieces |
| `Text.SplitCons` | http_server.py:52-53 | a piece free of the separator's first character, then the separator, is split off as the first piece |
| `Text.SplitSingleIff` | http_server.py:52-53 | a split gives a single piece exactly when the separator does not occur, and that piece is the whole input |
| `HttpServer.GetRequest` | http_server.py:48-49 | the line is a CRLF-free prefix of the message; followed by CRLF it is a prefix whenever the message holds a CRLF; without a CRLF it is the whole message |
| `HttpServer.GetRequestUnique` | http_server.py:48-49 | any CRLF-free prefix followed by CRLF (or the whole CRLF-free message) is the line `get_request` returns |
| `SourceExamples.GetRequestExample` | http_server_test.py:8-12 | the test message's first line is `GET /directory/file.html HTTP/1.1` |
| `HttpServer.SplitRequest` | http_server.py:52-53 | at least one token; no token holds a space; the tokens joined with one space give the line back |
| `SourceExamples.SplitRequestExample` | http_server_test.py:14-18 | the test line splits into exactly `GET`, `/directory/file.html`, `HTTP/1.1` |
| `HttpServer.GetMethod` | http_server.py:56-57 | token 0 when there is one, `IndexError` otherwise |
| `HttpServer.GetUri` | http_server.py:60-61 | token 1 when there are two tokens, `IndexError` otherwise |
| `HttpServer.SplitTokenCount` | http_server.py:52-61 | a line has at least two tokens exactly when it holds a space |
| `HttpServer.ParseRequest` | http_server.py:27-30 | method and target are found exactly when the first line holds a space, and then they are tokens 0 and 1 of the split first line; otherwise `IndexError` |
| `EndToEnd.ParseFirstLine` | http_server.py:27-30 | a first line `M T`, alone or followed by a space and anything, with space-free `M` and `T`, gives method `M` and target `T` |
| `EndToEnd.ParseWellFormed` | http_server.py:27-30 | for a message `M T V` CRLF rest with space-free `M`, `T` and no carriage return in the line, the method is `M` and the target `T` |
| `HttpServer.CheckMethod` | http_server.py:64-68 | succeeds exactly for `GET`; any other method raises `ValueError("Invalid method")` |
| `SourceExamples.CheckMethodExamples` | http_server.py:64-68 | on the method strings `handle` passes: GET passes; POST, PUT, DELETE and an arbitrary phrase raise `ValueError` |
| `HttpServer.ContentTypeHeader` | http_server.py:75-77 | the header starts with its own CRLF, followed by `Content-Type: ` and the type |
| `HttpServer.GetContent` | http_server.py:71-82 | a target holding a NUL byte raises `TypeError`; otherwise it succeeds exactly when `Root + uri` is a directory or a file of known type; a directory gives its entries joined by CRLF as `text/plain`; a file gives its exact bytes and guessed type; an unknown type raises `TypeError`; an absent path raises `ValueError` |
| `HttpServer.GetContentLocal` | http_server.py:71-77 | resolution depends only on what lives at `Root + uri` (the target taken verbatim) and on the type guessed for the target |
| `Text.JoinCons` | http_server.py:74 | `sep.join` puts exactly one separator between a leading piece and the join of the rest |
| `HttpServer.SplitConsCrlf` | http_server.py:74 | a piece with no CRLF in it, then CRLF, is split off at CRLF as the first piece, even when it holds a lone carriage return |
| `HttpServer.SplitJoinCrlf` | http_server.py:74 | a non-empty listing joined with CRLF, whose entries hold no CRLF, splits back at CRLF into the same entries in the same order |
| `HttpServer.BuildResponse` | http_server.py:85-86 | the response starts with `HTTP/1.1 `, the status and the header, followed by a blank line and the body |
| `HttpServer.StatusLineOf` | http_server.py:85-86 | the first line of a built response is `HTTP/1.1 ` plus the status, when the header is empty or starts with CRLF |
| `EndToEnd.ReadBackBody` | http_server.py:85-86 | a client that reads past the first blank line gets back exactly the body, for an empty header or a content-type header whose type holds no carriage return |
| `EndToEnd.NotFoundText` | http_server_test.py:109-113 | the 404 response is exactly `HTTP/1.1 404 Not found\r\n\r\n404 Not found` |
| `EndToEnd.NotAllowedText` | http_server_test.py:115-120 | the 405 response is exactly `HTTP/1.1 405 Method not allowed\r\n\r\n405 Method not allowed` |
| `HttpServer.ErrorResponse` | http_server.py:34-41 | the 404 and 405 responses have the status line `HTTP/1.1 ` plus their own status |
| `HttpServer.OkResponse` | http_server.py:44 | a 200 response has the status line `HTTP/1.1 200 OK` |
| `HttpServer.Handle` | http_server.py:26-45 | handling a message ends in one sent response or in an escaping exception, never in silence; every response sent has one of the three status lines 200, 404, 405 |
| `EndToEnd.NotGetIsNotAllowed` | http_server.py:31-36 | any parsed method other than GET gets the 405 response, whatever the filesystem and MIME table hold |
| `EndToEnd.ServesFile` | http_server.py:37-45 | any message that parses to GET and a NUL-free target naming a file of known type gets 200 with that type's header and the file's exact bytes, and a client reads those bytes back |
| `EndToEnd.ListsDirectory` | http_server.py:37-45 | any message that parses to GET and a NUL-free target naming a directory gets 200, `text/plain`, the entries joined by CRLF; a client splitting the body at CRLF gets the entries back in listing order |
| `EndToEnd.MissingIsNotFound` | http_server.py:38-42 | any message that parses to GET and a NUL-free target that is neither a directory nor a file gets exactly the 404 response |
| `EndToEnd.UnknownTypeCrashes` | http_server.py:76-77 | any message that parses to GET and a file whose type is unknown ends in the uncaught `TypeError` |
| `EndToEnd.NulTargetCrashes` | http_server.py:72-73 | any message that parses to GET and a target holding a NUL byte ends in the uncaught `TypeError`, whatever the filesystem holds |
| `EndToEnd.SpacelessLineCrashes` | http_server.py:27-30 | a first line without a space ends in the uncaught `IndexError`, whatever its method |
| `HttpServer.Receive` | http_server.py:18-23 | an empty read sends nothing; any other message is handled |

## Left out

- `main` (http_server.py:6-15) is not modelled: socket creation, bind, listen, the endless accept loop and close are network I/O.
- `receive` is modelled only as its emptiness check. `recv(1024)` is I/O: the message given to `Receive` is whatever the read returned.
- `send_response` (`sendall`) is I/O. The model returns the response it would send.
- The filesystem calls (`os.path.isdir`, `os.path.isfile`, `os.listdir`, `open`, `read`) become the map. An `IOError` from a file that exists but cannot be read (line 78) is not modelled, and neither is the `OSError` that `os.listdir` raises for a directory that exists but cannot be listed (line 74). Both would escape `handle` uncaught.
- `mimetypes.guess_type` becomes the MIME parameter, so the concrete table (`.png` to `image/png` and so on) is not modelled.
- Python 2 draws no line between text and bytes. Every message, body and response is one `seq<char>`.
- EndToEnd.ServesFile: the body read-back is proved only when the guessed type holds no carriage return. A type with a CRLF in it could put a blank line inside the header.
- EndToEnd.ListsDirectory: splitting the body back into entries is proved only for a non-empty listing whose names hold no CRLF. An empty listing reads back as one empty piece, and a name holding CRLF reads back as two entries.
- EndToEnd.ParseWellFormed: stated only for first lines without a carriage return that end in a CRLF. `EndToEnd.ParseFirstLine` covers any first line, with or without a version and a CRLF, and `HttpServer.ParseRequest` states the tokens for every message.
