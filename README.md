# c_web_server: the per-connection request pipeline, in Dafny

This project models `processRequest` and `process_http_header_request` in
`server.c`, the part of a small threaded HTTP/1.1 server that handles one
connection. The handler does the following:

1. It receives chunks until one holds the blank-line terminator `"\r\n\r\n"`.
2. It cuts each chunk into lines with `strtok(buff, "\r\n")`.
3. It takes the path from the first line. The line must start with `"GET "`.
   The parser strips that and the 9-character version token at the end, and
   refuses any path that contains `".."`.
4. It feeds every other line to the header dictionary.
5. It prefixes the path with `web`, with `"/"` mapped to `"/index.html"`.
   The result lies inside the directory `web/` only when the path starts
   with `'/'`. The parser does not require that.
6. It picks a status: 501 when there is no path, 404 when the file does not
   open, 200 otherwise.
7. It picks the content type from the extension after the last `'.'`, and
   echoes `Keep-Alive` or `close` in the `Connection` header.
8. It builds the response by successive appends: the status line,
   `Content-Type`, `Content-Length`, `Connection`, a blank line, then the body.

Modules, one per layer of the handler:

- `Wrappers`: `Option`, standing for a pointer that may be NULL.
- `Text`: the C string routines the handler uses, stated over `string`:
  - `strstr` (`Find`, `Contains`);
  - `strrchr` (`LastIndexOf`);
  - `strcasecmp` (`EqualsIgnoreCase`);
  - `%d` (`NatToDecimal`), with its inverse `DecimalValue`.
- `RequestLine`: `process_http_header_request`.
- `Lines`: the `strtok` split (`SplitLines`, and the loop `Tokenize`), and the
  per-chunk completion test `IsDone`.
- `Response`: the status table, the content-type chain, the `Connection`
  value, the digit-count loop (`CountDigits`) and the appends (`BuildResponse`).
- `Server`: target resolution and status selection (`Resolve`), the receive
  loop (`ReceiveRest`) and the whole handler (`ProcessRequest`).
  `ProcessRequest` is proved equal to the specification function `Serve`.

Parts of the handler's environment become parameters:

- Receives are a sequence of chunks. Each chunk is the C string left in the
  buffer. Running out of chunks stands for a failed `recv`, after which the
  handler exits without a response.
- The files that `fopen` can open are a `map` from name to contents.
- `dictionary_parse` comes from `libdictionary.h`, which is not part of this
  model. It is a function parameter `(Headers, string) -> Headers`.
  `dictionary_get` is a map lookup.

Where the code leaves behaviour undefined, the model makes a fixed choice:

- A first chunk with no line at all gives no path, so the answer is 501. The
  code passes NULL to `strncmp`.
- A file name with no `'.'` gets `text/plain`. The code passes the NULL from
  `strrchr` to `strcmp`.
- A missing `Connection` header gives `close`. The code passes NULL to
  `strcasecmp`.
- A 404 advertises `Content-Length: 0`. The code leaves `fileLength`
  uninitialised.
- Every response other than 200 has an empty body. The code calls `fread` on
  a NULL or uninitialised `FILE*`.
- The resolved name is `"web" + path`. The code `strcat`s onto a buffer from
  `malloc` that was never zeroed.

Where the code departs from HTTP/1.1 as RFC 9110 and RFC 9112 define it, or
from its own unused constants, the model follows the code:

- The header section ends at the first empty line (section 2.1 of RFC 9112).
  The completion test looks at the newest chunk only, because each `recv`
  overwrites the buffer. So a terminator split across two chunks is not seen.
  `Lines.TerminatorAcrossChunksMissed` shows such a pair of chunks.
- The version token of the request line (section 3 of RFC 9112) is stripped
  by length and never checked.
- A GET request-target in origin form starts with `'/'` (section 3.2.1 of
  RFC 9112). The code accepts any path without `".."`, and a path such as
  `_priv/key` resolves to `web_priv/key`, outside `web/`.
  `Server.UnrootedPathLeavesRoot` shows this.
- Field names are case-insensitive (section 5.1 of RFC 9110). The code looks
  up the key `"Connection"` exactly as written, and compares only its value
  ignoring case.
- The fixed 404 and 501 HTML bodies (`server.c:21-22`) are never sent.
- A 501 advertises `Content-Length: 15`, the length of "Not Implemented".
  The body that follows is undefined in the code, and the model sends none
  (see the choice for responses other than 200 above). Either way the
  advertised length is the length of the reason phrase `HTTP_501_STRING`,
  not of any body sent. That goes against the message length rules of
  section 6.3 of RFC 9112.

## Model

| member | source | states |
|---|---|---|
| `RequestLine.ParseRequestLine` | server.c:42-69 | A line not starting with "GET " gives NULL. An accepted path is the line minus its first 4 and last 9 characters, so its length is the line's length minus 13. An accepted path never holds two consecutive dots. The only reason a long-enough GET line is refused is a ".." in its path. |
| `RequestLine.ParseRecoversPath` | server.c:52-58 | Round trip: "GET " + path + any 9-character version is parsed back to exactly that path, when the path has no line break and no "..". The version token is not inspected. |
| `RequestLine.TraversalRefused` | server.c:60-66 | Two consecutive dots anywhere in the path part of a GET line make the parser return NULL. |
| `RequestLine.DotDotMeansContains` | server.c:62 | `strstr(filename, "..")` finds a match exactly when two consecutive characters of the name are both '.'. |
| `RequestLine.LineBreakAssertionMeansNoLineBreaks` | server.c:48-50 | The intended assertion (no "\n" and no "\r" found in the line) holds exactly when the line holds no CR and no LF. |
| `RequestLine.SwappedAssertionChecksNothing` | server.c:48-50 | As written, the assertions hold for every line that starts with "GET ". A line holding an LF passes them. |
| `RequestLine.ShortLineUnderflows` | server.c:52-58 | As written, "GET /" passes the method check and gets a filename length of -8. The model refuses it. |
| `Text.Find` | server.c:180-182 | `strstr`: a result is an occurrence with no earlier one, and NULL is returned exactly when the pattern occurs nowhere. |
| `Text.LastIndexOf` | server.c:291 | `strrchr`: a result holds the character and no later index does. NULL means the character does not occur. |
| `Text.EqualsIgnoreCase` | server.c:330 | `strcasecmp(a, b) == 0` holds exactly when the two strings are equal once every ASCII upper-case letter in both is lowered. |
| `Text.NatToDecimal` | server.c:326 | `%d` of a non-negative number: at least one digit, all digits, a leading '0' only for zero, one digit exactly below 10. |
| `Text.DecimalRoundTrip` | server.c:326 | Reading the `%d` digits back gives the number that was written. |
| `Lines.SplitLines` | server.c:185-193 | Every token `strtok(…, "\r\n")` yields is non-empty and holds no CR and no LF. |
| `Lines.SplitLinesKeepsText` | server.c:185-193 | The tokens, joined in order, are the buffer with its CRs and LFs removed. Nothing else is lost or reordered. |
| `Lines.SplitLinesAround` | server.c:185-193 | No token spans a CR or LF. Splitting `a + [delimiter] + b` gives the tokens of `a` followed by those of `b`. |
| `Lines.Tokenize` | server.c:185-193 | The `strtok` loop (skip delimiters, read to the next one) returns exactly `SplitLines` of the buffer. |
| `Lines.TokenEnd` | server.c:185-193 | The scan for the end of a token stops at the first CR or LF after its first character, or at the end of the buffer, and passes no delimiter on the way. |
| `Lines.IsDone` | server.c:206 | The completion test `strstr(buff, "\r\n\r\n") != NULL` holds exactly when the terminator occurs somewhere in the chunk. The first chunk gets the same test at line 181. |
| `Lines.TerminatorAcrossChunksMissed` | server.c:205-221 | A chunk ending in "\r\n\r" followed by the chunk "\n" is not complete by the per-chunk test, though the two together contain "\r\n\r\n". |
| `Response.Lookup` | server.c:329 | `dictionary_get` returns NULL exactly when the key is absent. Otherwise it returns the value stored under that exact key. |
| `Response.ConnectionValue` | server.c:328-336 | The value is "Keep-Alive" or "close". It is "Keep-Alive" exactly when the request's `Connection` value equals "Keep-Alive" ignoring case. |
| `Response.KeepAliveAnyCase` | server.c:329-333 | A request value "keep-alive" is answered with "Keep-Alive". |
| `Response.Extension` | server.c:290-291 | The extension is the suffix of the file name that starts with a '.' and holds no other '.', so it starts at the last '.'. It is absent exactly when the name holds no '.'. |
| `Response.ContentType` | server.c:286-303 | Every status other than 200 gets "text/html". The result is always one of the five types. |
| `Response.ContentTypeFollowsTable` | server.c:287-303 | For 200, the chain agrees with the table .html/.css/.jpg/.png → text/html/text/css/image/jpeg/image/png, and gives "text/plain" for every other extension. |
| `Response.ContentTypeBySuffix` | server.c:290-300 | A 200 file named stem + one of the four extensions gets that extension's type, whatever dots the stem holds. |
| `Response.ContentTypeWithoutDot` | server.c:291-302 | A 200 file name with no '.' gets "text/plain". |
| `Response.CountDigits` | server.c:317-323 | The loop ends with `intLength` equal to the number of characters `%d` writes for a non-negative `fileLength`, so 1 for 0. It ends with 0 for a negative one. |
| `Response.StatusLineAllocation` | server.c:306-310 | The corrected status-line buffer size is exactly the status line's length plus its NUL. |
| `Response.StatusLineOverflows` | server.c:306-310 | As written, the status line and its NUL are 3 bytes longer than the buffer, for every status. |
| `Response.StatusLineOk` | server.c:306-310 | The 200 status line is "HTTP/1.1 200 OK" followed by CRLF. |
| `Response.StatusLineNotFound` | server.c:306-310 | The 404 status line is "HTTP/1.1 404 Not Found" followed by CRLF. |
| `Response.StatusLineNotImplemented` | server.c:306-310 | The 501 status line is "HTTP/1.1 501 Not Implemented" followed by CRLF. |
| `Response.BuildResponse` | server.c:305-347 | The appends produce exactly the status line, `Content-Type`, `Content-Length`, `Connection`, a blank line, then the body. The contract says nothing about buffer sizes. The body asserts that the status line fits the corrected allocation `StatusLineAllocation`, not the source's, and that the `Content-Length` line fits the size computed from `CountDigits`. |
| `Response.HeadRoundTrip` | server.c:306-340 | The head ends with "\r\n\r\n". Splitting it back into lines gives the status line and the three header lines in order. The `Content-Length` digits read back as the length written. |
| `Server.Resolve` | server.c:238-284 | 501 exactly when there is no path, with length 15. 200 exactly when "web" + path (with "/" → "/index.html") is among the files, and then the body is that file and the length is its size. Otherwise 404. |
| `Server.TargetName` | server.c:249-258 | The name handed to `fopen` starts with "web". The rest is the path itself, except that the path "/" gives "web/index.html". |
| `Server.RequestPath` | server.c:185-186 | A first chunk with no line gives no path, and so does a first line that does not start with "GET ". A first line that starts with "GET ", has at least 13 characters and holds no ".." between them gives exactly the text between "GET " and its last 9 characters. This holds whatever ends the line: CR, LF, CRLF or the end of the chunk. Every returned path has that form. |
| `Server.FirstDoneFrom` | server.c:205-221 | Gives the first chunk from index k on that holds the terminator. None means no chunk from k on holds one. |
| `Server.ChunksRead` | server.c:173-221 | The handler reads up to and including the first chunk holding the terminator. No earlier chunk holds one. None means no chunk does. |
| `Server.AddHeaderLines` | server.c:189-193 | The `dictionary_parse` loop leaves the dictionary as the parser applied to each line in turn. |
| `Server.ReceiveRest` | server.c:195-231 | The receive loop after an incomplete first chunk feeds the lines of every chunk up to the completing one to the dictionary. It fails exactly when no chunk completes. |
| `Server.AnswerRequest` | server.c:233-347 | Status, content type, `Connection` value and appends produce the response that `Respond` specifies. |
| `Server.ProcessRequest` | server.c:163-347 | The whole handler returns exactly `Serve` of the received chunks. |
| `Server.TokensPassLineBreakAssertion` | server.c:184-186 | Every line `strtok` hands out, the first included, passes the intended no-CR, no-LF check. |
| `Server.RespondWithoutPath` | server.c:238-245 | With no path the response is the 501 head with `Content-Length: 15` and no body, whatever files exist. |
| `Server.UnsupportedRequestIs501` | server.c:238-245 | A non-GET first line, a path with "..", or an empty first chunk is answered "HTTP/1.1 501 Not Implemented". The response is the same for every set of files, so no file is consulted. |
| `Server.ExistingFileIsServed` | server.c:272-347 | When the file opens, the response starts "HTTP/1.1 200 OK" and ends with exactly the file's contents. Its head splits into 4 lines, the third is `Content-Length` with the body's size, and those digits read back as that size. |
| `Server.MissingFileIs404` | server.c:263-271 | When the file does not open, the response is the 404 head with "text/html", `Content-Length: 0` and no body. |
| `Server.NoTerminatorNoResponse` | server.c:196-221 | When no chunk ever holds the terminator, the receives fail first and no response is sent. |
| `Server.FirstLineYieldsPath` | server.c:249-258 | A first chunk opening with "GET " + path + a 9-character version and CRLF yields that path. The path "/" is served from "web/index.html". |
| `Server.RootedPathStaysUnderRoot` | server.c:255-258 | A path that starts with '/' and holds no ".." becomes a name that starts with "web/" and holds no "..". This includes "/", which becomes "web/index.html". |
| `Server.AcceptedRootedPathStaysUnderRoot` | server.c:60-66 | Every path accepted from a first line that starts with '/' is served from inside "web/". |
| `Server.UnrootedPathLeavesRoot` | server.c:42-68 | The ".." check alone does not keep requests inside "web/". The first line "GET _priv/key HTTP/1.1" is accepted with path "_priv/key", and the name handed to `fopen` is "web_priv/key", outside "web/". |

## Findings

| source | as written | input that shows it | evidently intended | confidence | as-written member | corrected member |
|---|---|---|---|---|---|---|
| server.c:49-50 | `strstr("\n", request)` has its arguments swapped. It looks for the request inside "\n", so the assertions hold for every line that starts with "GET ". | "GET /a\nb HTTP/1.1" passes both assertions | `strstr(request, "\n") == NULL` and the same for "\r" | not executed; high | `RequestLine.SwappedAssertionChecksNothing` | `Server.TokensPassLineBreakAssertion` |
| server.c:53-58 | `len = strlen(request) - 4 - 9` has no lower bound check | "GET /" gives len = -8, which then goes to `malloc` and `strncpy` | refuse a line shorter than the 13 characters it strips | not executed; high | `RequestLine.ShortLineUnderflows` | `RequestLine.ParseRequestLine` |
| server.c:307-310 | the status-line buffer holds strlen(reason) + 8 + 4 + 1 bytes | any request: "HTTP/1.1 200 OK\r\n" plus NUL is 18 bytes in a 15-byte buffer | room for two spaces, the 3-digit code and CRLF: + 7 + 1 | not executed; high | `Response.StatusLineOverflows` | `Response.StatusLineAllocation` |

The corrected assertion is `RequestLine.LineBreakAssertion`. It is the
precondition of `ParseRequestLine`, and it is discharged for every line
`strtok` yields.

## Left out

- `RequestLine.ParseRequestLine`: keeps the code's acceptance of a path that
  does not start with `'/'` (`server.c:42-68`). The name handed to `fopen` is
  then `"web"` followed by that path, a sibling of `web/` and not a file inside
  it, so the `".."` check (`server.c:60-66`) does not confine requests to the
  document root. The model proves containment only for paths that start with
  `'/'` (`Server.RootedPathStaysUnderRoot`) and exhibits the escape
  (`Server.UnrootedPathLeavesRoot`). It does not switch to a parser that
  requires the leading `'/'`.
- The listen socket, address resolution, the accept loop and the queue of
  thread handles in `main` (`server.c:73-160`) are left out. They are socket
  setup and concurrency with no request logic.
- `recv`, `send`, `pthread_exit` and `printf` are left out. They are I/O.
  Receives are a sequence of chunks, and a failed receive is the end of that
  sequence.
- `fopen`, `fseek`, `ftell`, `rewind` and `fread` are left out. They are file
  I/O. The openable files and their contents are a map.
- The internals of `dictionary_parse` and `dictionary_get` are left out. They
  live in `libdictionary.h`, which is not part of this model. The model does
  not claim any split of a line into key and value, nor a duplicate-key
  policy.
- `malloc`, `realloc` and `free` bookkeeping is left out. Strings are
  sequences, and buffer sizes appear only as the two allocation checks in
  `BuildResponse`.
- `Server.ProcessRequest`: does not model the 250-byte receive buffer
  (`server.c:169-170`). A `recv` that fills all 250 bytes (`server.c:174`,
  `199`, `216`) leaves no NUL, so `strstr` and `strtok` read past the array.
  Any request longer than 250 bytes hits this. The model takes each chunk as
  an unbounded, properly terminated string.
- `Lines.Tokenize`: `strtok` keeps its position in one static variable shared
  by the whole process. Every handler thread (`server.c:156`, `185-229`)
  uses it, so two connections handled at once can corrupt each other's
  split. `Tokenize == SplitLines`, and so `ProcessRequest == Serve`, hold only
  when no other thread is inside `strtok`.
- `Server.ProcessRequest`: does not model the stale bytes a shorter `recv`
  leaves in the buffer after an earlier chunk. Each chunk is taken as a fresh
  C string.
- `Server.ProcessRequest`: does not model a `recv` that returns 0 on a closed
  connection. The source's loop tests only for -1 and keeps re-reading. The
  model treats the end of the chunks as a failed receive.
- `Server.ProcessRequest`: interleaves `strtok` and `dictionary_parse` as
  "split the chunk, then parse each line in order". The dictionary sees the
  same lines in the same order.
- `Response.BuildResponse`: the body is the file's contents in full. The
  source appends `strlen(read)` bytes from the `fileLength`-byte buffer that
  `malloc` returned (`server.c:343-347`). That buffer is not NUL-terminated.
  A body holding a NUL byte is cut at the first one. A body with no NUL makes
  `strlen` read past the buffer, and bytes that are not the file's get
  appended. `send` also includes the terminating NUL, which the model leaves
  off.
- `Response.BuildResponse`: `sprintf` with the response as both destination
  and source argument is taken as an append. The overlap is undefined in C.
- `Server.Resolve`: lengths are unbounded. A file of 2^31 bytes or more,
  whose `ftell` result would not fit the `int fileLength`, is not modelled.
