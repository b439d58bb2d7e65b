/**
 * `processRequest`, the per-connection handler: it reads chunks until one
 * holds the blank-line terminator, takes the path from the first line, feeds
 * every other line to the header dictionary, prefixes the path with "web",
 * picks the status, the content type and the `Connection` value, and builds
 * the response. Receives, the file system and the header-line parser of the
 * dictionary library come in as parameters.
 */
module Server {
  import opened Wrappers
  import opened Text
  import opened RequestLine
  import opened Lines
  import opened Response

  /** What `dictionary_parse` does with one header line; its library is not part of this model. */
  type HeaderParser = (Headers, string) -> Headers

  /** The files `fopen` can open, by name, with their contents. */
  type Files = map<string, string>

  const DocumentRoot := "web"
  const RootPath := "/"
  const DefaultDocument := "/index.html"

  /**
   * The name handed to `fopen`: "web" followed by the path, "/" standing for
   * "/index.html". It lies inside the directory "web/" only when the path
   * starts with '/' (see `RootedPathStaysUnderRoot`).
   */
  function TargetName(path: string): (name: string)
    ensures |DocumentRoot| <= |name| && name[..|DocumentRoot|] == DocumentRoot
    ensures path != RootPath ==> name[|DocumentRoot|..] == path
    ensures path == RootPath ==> name == "web/index.html"
  {
    DocumentRoot + (if path == RootPath then DefaultDocument else path)
  }

  /** What the handler settles on before it writes anything: status, file name, advertised length, body. */
  datatype Target = Target(status: Status, fileName: string, fileLength: nat, body: string)

  /**
   * Status selection: no path gives 501 with the length of "Not Implemented";
   * a path whose file does not open gives 404; otherwise 200 with the file's
   * length and contents.
   */
  function Resolve(path: Option<string>, files: Files): (t: Target)
    ensures t.status == NotImplemented <==> path.None?
    ensures t.status == Ok <==> path.Some? && TargetName(path.value) in files
    ensures path.Some? ==> t.fileName == TargetName(path.value)
    ensures t.status == Ok ==> t.body == files[t.fileName] && t.fileLength == |t.body|
    ensures t.status == NotImplemented ==> t.fileLength == |Reason(NotImplemented)| && t.body == []
    ensures t.status == NotFound ==> t.fileLength == 0 && t.body == []
  {
    match path
    case None => Target(NotImplemented, "", |Reason(NotImplemented)|, [])
    case Some(p) =>
      var name := TargetName(p);
      if name in files then Target(Ok, name, |files[name]|, files[name])
      else Target(NotFound, name, 0, [])
  }

  /** The response for a parsed request. */
  function Respond(path: Option<string>, headers: Headers, files: Files): string {
    var t := Resolve(path, files);
    Head(t.status, ContentType(t.status, t.fileName), t.fileLength, ConnectionValue(headers)) + t.body
  }

  /**
   * The path the first chunk asks for: its first `strtok` line handed to the
   * request-line parser, NULL when the chunk holds no line at all.
   */
  function RequestPath(first: string): (path: Option<string>)
    ensures SplitLines(first) == [] ==> path.None?
    ensures SplitLines(first) != [] && !StartsWithGet(SplitLines(first)[0]) ==> path.None?
    ensures path.Some? ==> SplitLines(first) != [] && |SplitLines(first)[0]| >= |GetToken| + VersionLength
    ensures path.Some? ==> (var line := SplitLines(first)[0];
      line == GetToken + path.value + line[|line| - VersionLength..] && NoDotDot(path.value))
    ensures SplitLines(first) != [] ==> (var line := SplitLines(first)[0];
      StartsWithGet(line) && |line| >= |GetToken| + VersionLength &&
      NoDotDot(line[|GetToken|..|line| - VersionLength]) ==>
        path == Some(line[|GetToken|..|line| - VersionLength]))
  {
    var lines := SplitLines(first);
    if lines == [] then None
    else
      LineBreakAssertionMeansNoLineBreaks(lines[0]);
      ParseRequestLine(lines[0])
  }

  /** The dictionary after `dictionary_parse` has seen each of `lines` in turn. */
  function ApplyHeaders(parse: HeaderParser, dict: Headers, lines: seq<string>): Headers
    decreases |lines|
  {
    if lines == [] then dict else ApplyHeaders(parse, parse(dict, lines[0]), lines[1..])
  }

  lemma {:induction false} ApplyHeadersAppend(parse: HeaderParser, dict: Headers, a: seq<string>, b: seq<string>)
    ensures ApplyHeaders(parse, dict, a + b) == ApplyHeaders(parse, ApplyHeaders(parse, dict, a), b)
    decreases |a|
  {
    if a != [] {
      ApplyHeadersAppend(parse, parse(dict, a[0]), a[1..], b);
      assert (a + b)[1..] == a[1..] + b;
    } else {
      assert a + b == b;
    }
  }

  /** The lines of several chunks, each chunk split on its own. */
  function AllLines(chunks: seq<string>): seq<string>
    decreases |chunks|
  {
    if chunks == [] then [] else AllLines(chunks[..|chunks| - 1]) + SplitLines(chunks[|chunks| - 1])
  }

  /** One more chunk's lines go after those of the chunks before it. */
  lemma HeaderLinesStep(chunks: seq<string>, k: nat)
    requires 1 <= k < |chunks|
    ensures HeaderLines(chunks, k + 1) == HeaderLines(chunks, k) + SplitLines(chunks[k])
  {
    assert chunks[1..k + 1][..k - 1] == chunks[1..k];
    assert AllLines(chunks[1..k + 1]) == AllLines(chunks[1..k]) + SplitLines(chunks[k]);
  }

  function Drop1(lines: seq<string>): seq<string> {
    if lines == [] then [] else lines[1..]
  }

  /** The index of the first chunk at or after `k` that holds the terminator. */
  function FirstDoneFrom(chunks: seq<string>, k: nat): (r: Option<nat>)
    ensures r.Some? ==> k <= r.value < |chunks| && IsDone(chunks[r.value])
    ensures r.Some? ==> forall j :: k <= j < r.value ==> !IsDone(chunks[j])
    ensures r.None? ==> forall j :: k <= j < |chunks| ==> !IsDone(chunks[j])
    decreases |chunks| - k
  {
    if k >= |chunks| then None
    else if IsDone(chunks[k]) then Some(k)
    else FirstDoneFrom(chunks, k + 1)
  }

  /**
   * How many of the chunks the handler receives before it answers: up to and
   * including the first that holds the terminator. `None` when the receives
   * run out first, i.e. a receive fails and the handler exits without a response.
   */
  function ChunksRead(chunks: seq<string>): (r: Option<nat>)
    ensures r.Some? ==> 1 <= r.value <= |chunks| && IsDone(chunks[r.value - 1])
    ensures r.Some? ==> forall j :: 0 <= j < r.value - 1 ==> !IsDone(chunks[j])
    ensures r.None? ==> forall j :: 0 <= j < |chunks| ==> !IsDone(chunks[j])
  {
    if chunks == [] then None
    else if IsDone(chunks[0]) then Some(1)
    else
      match FirstDoneFrom(chunks, 1)
      case Some(k) => Some(k + 1)
      case None => None
  }

  /** Every line the dictionary sees: all of the first chunk's but its first, then all of the later chunks'. */
  function HeaderLines(chunks: seq<string>, n: nat): seq<string>
    requires 1 <= n <= |chunks|
  {
    Drop1(SplitLines(chunks[0])) + AllLines(chunks[1..n])
  }

  /** The dictionary once the handler has read all it reads. */
  function RequestHeaders(chunks: seq<string>, parse: HeaderParser): Headers
    requires ChunksRead(chunks).Some?
  {
    ApplyHeaders(parse, map[], HeaderLines(chunks, ChunksRead(chunks).value))
  }

  /** The whole handler as a function of the received chunks: the response it sends, `None` for none. */
  function Serve(chunks: seq<string>, parse: HeaderParser, files: Files): Option<string> {
    if ChunksRead(chunks).None? then None
    else Some(Respond(RequestPath(chunks[0]), RequestHeaders(chunks, parse), files))
  }

  /** The `dictionary_parse` loop over the lines of one chunk. */
  method AddHeaderLines(dict: Headers, lines: seq<string>, parse: HeaderParser) returns (d: Headers)
    ensures d == ApplyHeaders(parse, dict, lines)
  {
    d := dict;
    var j := 0;
    while j < |lines|
      invariant 0 <= j <= |lines|
      invariant ApplyHeaders(parse, d, lines[j..]) == ApplyHeaders(parse, dict, lines)
      decreases |lines| - j
    {
      assert lines[j..][1..] == lines[j + 1..];
      d := parse(d, lines[j]);
      j := j + 1;
    }
  }

  /**
   * The second half of the receive phase, entered when the first chunk held
   * no terminator: receive, and while the chunk just received holds no
   * terminator, feed all its lines to the dictionary and receive again; then
   * feed the lines of the chunk that ended the loop. `None` when a receive
   * fails, modelled as running out of chunks.
   */
  method ReceiveRest(chunks: seq<string>, parse: HeaderParser, firstDict: Headers) returns (result: Option<Headers>)
    requires |chunks| >= 1 && !IsDone(chunks[0])
    requires firstDict == ApplyHeaders(parse, map[], Drop1(SplitLines(chunks[0])))
    ensures result.None? <==> ChunksRead(chunks).None?
    ensures result.Some? ==> result.value == RequestHeaders(chunks, parse)
  {
    var k := 1;
    if k >= |chunks| {
      return None;
    }
    var dict := firstDict;
    var buff := chunks[k];
    assert HeaderLines(chunks, k) == Drop1(SplitLines(chunks[0])) + [];
    assert Drop1(SplitLines(chunks[0])) + [] == Drop1(SplitLines(chunks[0]));
    while !Contains(buff, Terminator)
      invariant 1 <= k < |chunks| && buff == chunks[k]
      invariant FirstDoneFrom(chunks, k) == FirstDoneFrom(chunks, 1)
      invariant dict == ApplyHeaders(parse, map[], HeaderLines(chunks, k))
      decreases |chunks| - k
    {
      var tokens := Tokenize(buff);
      ApplyHeadersAppend(parse, map[], HeaderLines(chunks, k), tokens);
      HeaderLinesStep(chunks, k);
      dict := AddHeaderLines(dict, tokens, parse);
      k := k + 1;
      if k >= |chunks| {
        return None;
      }
      buff := chunks[k];
    }
    var tokens := Tokenize(buff);
    ApplyHeadersAppend(parse, map[], HeaderLines(chunks, k), tokens);
    HeaderLinesStep(chunks, k);
    dict := AddHeaderLines(dict, tokens, parse);
    assert ChunksRead(chunks) == Some(k + 1);
    result := Some(dict);
  }

  /** Status, content type, `Connection` value and the appends that build the response. */
  method AnswerRequest(fileName: Option<string>, dict: Headers, files: Files) returns (text: string)
    ensures text == Respond(fileName, dict, files)
  {
    var target := Resolve(fileName, files);
    var contentType := ContentType(target.status, target.fileName);
    var connection := ConnectionValue(dict);
    text := BuildResponse(target.status, contentType, target.fileLength, connection, target.body);
  }

  /**
   * `processRequest` from the first receive to the assembled response.
   * `chunks` are the successive receives; running out of them stands for a
   * failed receive, after which no response is sent.
   */
  method ProcessRequest(chunks: seq<string>, parse: HeaderParser, files: Files) returns (response: Option<string>)
    ensures response == Serve(chunks, parse, files)
  {
    if |chunks| == 0 {
      return None;
    }
    var buff := chunks[0];
    var done := Contains(buff, Terminator);

    var tokens := Tokenize(buff);
    var fileName: Option<string> := None;
    if tokens != [] {
      LineBreakAssertionMeansNoLineBreaks(tokens[0]);
      fileName := ParseRequestLine(tokens[0]);
    }
    assert fileName == RequestPath(chunks[0]);
    var dict := AddHeaderLines(map[], Drop1(tokens), parse);

    if !done {
      var rest := ReceiveRest(chunks, parse, dict);
      if rest.None? {
        return None;
      }
      dict := rest.value;
    } else {
      assert ChunksRead(chunks) == Some(1);
      assert HeaderLines(chunks, 1) == Drop1(tokens) + [];
      assert Drop1(tokens) + [] == Drop1(tokens);
    }

    var text := AnswerRequest(fileName, dict, files);
    response := Some(text);
  }

  // ---- Properties of the whole handler ----

  /** Every line `strtok` hands out passes the intended no-CR, no-LF check of the request-line parser. */
  lemma TokensPassLineBreakAssertion(buff: string)
    ensures forall k :: 0 <= k < |SplitLines(buff)| ==> LineBreakAssertion(SplitLines(buff)[k])
  {
    var tokens := SplitLines(buff);
    forall k | 0 <= k < |tokens| ensures LineBreakAssertion(tokens[k]) {
      LineBreakAssertionMeansNoLineBreaks(tokens[k]);
    }
  }

  lemma ResponseFieldsHaveNoLineBreaks(status: Status, fileName: string, headers: Headers)
    ensures NoLineBreaks(ContentType(status, fileName))
    ensures NoLineBreaks(ConnectionValue(headers))
  {
    var t, v := ContentType(status, fileName), ConnectionValue(headers);
    FieldValuesHaveNoLineBreaks();
    // Case split only: it hands the solver each possible value in turn.
    if t == "text/html" {} else if t == "text/css" {} else if t == "image/jpeg" {} else if t == "image/png" {}
    if v == KeepAlive {}
  }

  /** With no usable path the answer is 501 with `Content-Length: 15`, and no file is consulted. */
  lemma RespondWithoutPath(headers: Headers, files: Files)
    ensures Respond(None, headers, files) == Head(NotImplemented, ErrorType, 15, ConnectionValue(headers))
  {
  }

  /**
   * A request whose first line is not a GET, or whose path holds "..", is
   * answered with 501 "Not Implemented" and `Content-Length: 15`, and the
   * answer is the same whatever files exist: no file is consulted.
   */
  lemma UnsupportedRequestIs501(chunks: seq<string>, parse: HeaderParser, files: Files, other: Files)
    requires ChunksRead(chunks).Some?
    requires var lines := SplitLines(chunks[0]);
      lines == [] || !StartsWithGet(lines[0]) ||
      (|lines[0]| >= |GetToken| + VersionLength && !NoDotDot(lines[0][|GetToken|..|lines[0]| - VersionLength]))
    ensures Serve(chunks, parse, files) == Serve(chunks, parse, other)
    ensures Serve(chunks, parse, files) == Some(Head(NotImplemented, ErrorType, 15, ConnectionValue(RequestHeaders(chunks, parse))))
    ensures var r := Serve(chunks, parse, files).value;
      |r| >= |StatusLine(NotImplemented)| && r[..|StatusLine(NotImplemented)|] == "HTTP/1.1 501 Not Implemented\r\n"
  {
    assert RequestPath(chunks[0]).None?;
    var headers := RequestHeaders(chunks, parse);
    RespondWithoutPath(headers, files);
    RespondWithoutPath(headers, other);
    ResponseParts(NotImplemented, ErrorType, 15, ConnectionValue(headers), []);
    assert Head(NotImplemented, ErrorType, 15, ConnectionValue(headers)) + [] == Head(NotImplemented, ErrorType, 15, ConnectionValue(headers));
    StatusLineNotImplemented();
  }

  /**
   * A GET whose resolved file opens is answered with 200, and the response
   * ends with exactly the file's contents; re-reading the head line by line
   * finds `Content-Length` third, and its digits read back as the number of
   * body bytes that follow.
   */
  lemma ExistingFileIsServed(chunks: seq<string>, parse: HeaderParser, files: Files, path: string)
    requires ChunksRead(chunks).Some? && RequestPath(chunks[0]) == Some(path)
    requires TargetName(path) in files
    ensures var r := Serve(chunks, parse, files).value;
      var body := files[TargetName(path)];
      |body| <= |r| && r[|r| - |body|..] == body &&
      |StatusLine(Ok)| <= |r| && r[..|StatusLine(Ok)|] == "HTTP/1.1 200 OK\r\n" &&
      var head := r[..|r| - |body|];
      |SplitLines(head)| == 4 &&
      SplitLines(head)[2] == ContentLengthName + NatToDecimal(|body|) &&
      DecimalValue(NatToDecimal(|body|)) == |body|
  {
    var name := TargetName(path);
    var body := files[name];
    var headers := RequestHeaders(chunks, parse);
    var contentType := ContentType(Ok, name);
    var connection := ConnectionValue(headers);
    assert Serve(chunks, parse, files).value == Head(Ok, contentType, |body|, connection) + body;
    ResponseFieldsHaveNoLineBreaks(Ok, name, headers);
    ResponseParts(Ok, contentType, |body|, connection, body);
    HeadRoundTrip(Ok, contentType, |body|, connection);
    StatusLineOk();
  }

  /** A GET whose resolved file does not open is answered with 404, `Content-Length: 0` and no body. */
  lemma MissingFileIs404(chunks: seq<string>, parse: HeaderParser, files: Files, path: string)
    requires ChunksRead(chunks).Some? && RequestPath(chunks[0]) == Some(path)
    requires TargetName(path) !in files
    ensures Serve(chunks, parse, files) == Some(Head(NotFound, ErrorType, 0, ConnectionValue(RequestHeaders(chunks, parse))))
    ensures var r := Serve(chunks, parse, files).value;
      |r| >= |StatusLine(NotFound)| && r[..|StatusLine(NotFound)|] == "HTTP/1.1 404 Not Found\r\n"
  {
    var headers := RequestHeaders(chunks, parse);
    var head := Head(NotFound, ErrorType, 0, ConnectionValue(headers));
    assert Respond(Some(path), headers, files) == head + [];
    assert head + [] == head;
    ResponseParts(NotFound, ErrorType, 0, ConnectionValue(headers), []);
    StatusLineNotFound();
  }

  /** Receives that never bring a terminator get no response. */
  lemma NoTerminatorNoResponse(chunks: seq<string>, parse: HeaderParser, files: Files)
    requires forall j :: 0 <= j < |chunks| ==> !IsDone(chunks[j])
    ensures Serve(chunks, parse, files).None?
  {
  }

  /**
   * A first chunk that opens with "GET " + path + a 9-character version and
   * CRLF yields that path, whatever follows; for the path "/" the file asked
   * for is "web/index.html".
   */
  lemma {:induction false} FirstLineYieldsPath(path: string, version: string, rest: string)
    requires NoLineBreaks(path) && NoLineBreaks(version)
    requires NoDotDot(path) && |version| == VersionLength
    ensures RequestPath(GetToken + path + version + CRLF + rest) == Some(path)
    ensures path == RootPath ==> TargetName(path) == "web/index.html"
  {
    var line := GetToken + path + version;
    ParseRecoversPath(path, version);
    LineBreakAssertionMeansNoLineBreaks(line);
    SplitLinesLineThenRest(line, rest);
  }

  /** `name` lies inside the directory "web/": it starts with "web/" and holds no "..". */
  predicate UnderDocumentRoot(name: string) {
    |name| > |DocumentRoot| && name[..|DocumentRoot| + 1] == DocumentRoot + RootPath && NoDotDot(name)
  }

  /** A path that starts with '/' and holds no ".." resolves to a name inside "web/". */
  lemma RootedPathStaysUnderRoot(path: string)
    requires |path| > 0 && path[0] == '/' && NoDotDot(path)
    ensures UnderDocumentRoot(TargetName(path))
  {
    var rest := if path == RootPath then DefaultDocument else path;
    var name := TargetName(path);
    assert name == DocumentRoot + rest;
    assert NoDotDot(rest) by {
      if path == RootPath {
        forall i | 0 <= i < |rest| - 1 ensures !(rest[i] == '.' && rest[i + 1] == '.') {
        }
      }
    }
    forall i | 0 <= i < |name| - 1 ensures !(name[i] == '.' && name[i + 1] == '.') {
      if i >= |DocumentRoot| {
        assert name[i] == rest[i - |DocumentRoot|] && name[i + 1] == rest[i + 1 - |DocumentRoot|];
      }
    }
  }

  /**
   * Every path the handler accepts from a first line, when it starts with '/',
   * is served from inside "web/".
   */
  lemma AcceptedRootedPathStaysUnderRoot(first: string)
    requires RequestPath(first).Some?
    requires |RequestPath(first).value| > 0 && RequestPath(first).value[0] == '/'
    ensures UnderDocumentRoot(TargetName(RequestPath(first).value))
  {
    RootedPathStaysUnderRoot(RequestPath(first).value);
  }

  /**
   * The ".." check does not keep a request inside "web/": the path "_priv/key"
   * is accepted, and the name handed to `fopen` is "web_priv/key", which lies
   * beside the directory "web/", not inside it.
   */
  lemma UnrootedPathLeavesRoot()
    ensures RequestPath(GetToken + "_priv/key" + " HTTP/1.1" + CRLF + CRLF) == Some("_priv/key")
    ensures TargetName("_priv/key") == "web_priv/key"
    ensures !UnderDocumentRoot(TargetName("_priv/key"))
  {
    var path, version := "_priv/key", " HTTP/1.1";
    assert NoLineBreaks(path) && NoLineBreaks(version);
    assert NoDotDot(path);
    FirstLineYieldsPath(path, version, CRLF);
    assert TargetName(path)[3] == '_';
  }
}
