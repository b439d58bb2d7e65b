/**
 * The response half of `processRequest`: the status codes and reason phrases,
 * the content-type table, the `Connection` echo, the digit-count loop and the
 * assembly of the response by successive appends.
 */
module Response {
  import opened Wrappers
  import opened Text
  import opened Lines

  datatype Status = Ok | NotFound | NotImplemented

  function Code(status: Status): nat {
    match status
    case Ok => 200
    case NotFound => 404
    case NotImplemented => 501
  }

  function Reason(status: Status): string {
    match status
    case Ok => "OK"
    case NotFound => "Not Found"
    case NotImplemented => "Not Implemented"
  }

  /** The request headers as the header dictionary holds them. */
  type Headers = map<string, string>

  /** `dictionary_get`: the value stored under exactly `key`, NULL when there is none. */
  function Lookup(headers: Headers, key: string): (value: Option<string>)
    ensures value.None? <==> key !in headers
    ensures value.Some? ==> (key, value.value) in headers.Items
  {
    if key in headers then Some(headers[key]) else None
  }

  const KeepAlive := "Keep-Alive"
  const Close := "close"

  /**
   * The value of the response's `Connection` header: "Keep-Alive" when the
   * request's `Connection` value equals it ignoring case, "close" otherwise,
   * a missing header included.
   */
  function ConnectionValue(headers: Headers): (v: string)
    ensures v == KeepAlive || v == Close
    ensures v == KeepAlive <==> "Connection" in headers && EqualsIgnoreCase(headers["Connection"], KeepAlive)
  {
    match Lookup(headers, "Connection")
    case Some(value) => if EqualsIgnoreCase(value, KeepAlive) then KeepAlive else Close
    case None => Close
  }

  /** A lower-case "keep-alive" from the client is echoed as "Keep-Alive". */
  lemma KeepAliveAnyCase(headers: Headers)
    requires "Connection" in headers && headers["Connection"] == "keep-alive"
    ensures ConnectionValue(headers) == KeepAlive
  {
    assert EqualsIgnoreCase("keep-alive", KeepAlive) by {
      forall i | 0 <= i < |KeepAlive| ensures Lower("keep-alive"[i]) == Lower(KeepAlive[i]) {
        if i == 0 { assert Lower('K') == 'k'; }
        if i == 5 { assert Lower('A') == 'a'; }
      }
    }
  }

  /** The extensions the content-type chain recognises. */
  const MimeTypes: map<string, string> :=
    map[".html" := "text/html", ".css" := "text/css", ".jpg" := "image/jpeg", ".png" := "image/png"]
  /** The type of every response that is not 200. */
  const ErrorType := "text/html"
  /** The type of a 200 response whose extension is not in the table. */
  const FallbackType := "text/plain"

  /** The text from the last '.' of `fileName` on (`strrchr`), `None` when there is no '.'. */
  function Extension(fileName: string): (ext: Option<string>)
    ensures ext.Some? ==> |ext.value| >= 1 && ext.value[0] == '.'
    ensures ext.Some? ==> |ext.value| <= |fileName| && fileName[|fileName| - |ext.value|..] == ext.value
    ensures ext.Some? ==> forall j :: 1 <= j < |ext.value| ==> ext.value[j] != '.'
    ensures ext.None? <==> forall j :: 0 <= j < |fileName| ==> fileName[j] != '.'
  {
    match LastIndexOf(fileName, '.')
    case Some(i) => Some(fileName[i..])
    case None => None
  }

  /**
   * The content-type chain: consulted only for status 200, on the extension
   * after the last '.' of the resolved file name.
   */
  function ContentType(status: Status, fileName: string): (t: string)
    ensures status != Ok ==> t == ErrorType
    ensures t in {"text/html", "text/css", "image/jpeg", "image/png", "text/plain"}
  {
    if status != Ok then ErrorType
    else
      match Extension(fileName)
      case None => FallbackType
      case Some(ext) =>
        if ext == ".html" then "text/html"
        else if ext == ".css" then "text/css"
        else if ext == ".jpg" then "image/jpeg"
        else if ext == ".png" then "image/png"
        else FallbackType
  }

  /** For a 200 response the chain agrees with the extension table, with "text/plain" for the rest. */
  lemma ContentTypeFollowsTable(fileName: string)
    ensures ContentType(Ok, fileName) ==
      match Extension(fileName)
      case Some(ext) => if ext in MimeTypes then MimeTypes[ext] else FallbackType
      case None => FallbackType
  {
  }

  /** A file named stem + one of the four extensions gets that extension's type, whatever dots the stem holds. */
  lemma ContentTypeBySuffix(stem: string, ext: string)
    requires ext in MimeTypes
    ensures ContentType(Ok, stem + ext) == MimeTypes[ext]
  {
    var name := stem + ext;
    assert ext[0] == '.' && forall j :: 1 <= j < |ext| ==> ext[j] != '.';
    assert name[|stem|] == '.';
    var i := LastIndexOf(name, '.').value;
    assert i == |stem|;
    assert name[i..] == ext;
  }

  /** A file name with no '.' at all is served as "text/plain". */
  lemma ContentTypeWithoutDot(fileName: string)
    requires forall j :: 0 <= j < |fileName| ==> fileName[j] != '.'
    ensures ContentType(Ok, fileName) == FallbackType
  {
  }

  /**
   * The digit-count loop that sizes the `Content-Length` line: the number of
   * characters `%d` writes for a non-negative `fileLength`, so 1 for zero.
   */
  method CountDigits(fileLength: int) returns (intLength: nat)
    ensures fileLength >= 0 ==> intLength == |NatToDecimal(fileLength)|
    ensures fileLength < 0 ==> intLength == 0
  {
    intLength := 0;
    var i := fileLength;
    while i > 0
      invariant fileLength <= 0 ==> i == fileLength && intLength == 0
      invariant fileLength > 0 ==> i >= 0
      invariant fileLength > 0 && i > 0 ==> intLength + |NatToDecimal(i)| == |NatToDecimal(fileLength)|
      invariant fileLength > 0 && i == 0 ==> intLength == |NatToDecimal(fileLength)|
      decreases i
    {
      intLength := intLength + 1;
      i := i / 10;
    }
    if fileLength == 0 {
      intLength := 1;
    }
  }

  const Version := "HTTP/1.1"
  const CRLF := "\r\n"
  const ContentTypeName := "Content-Type: "
  const ContentLengthName := "Content-Length: "
  const ConnectionName := "Connection: "

  /** The status line without its CRLF: version, code and reason phrase. */
  function StatusText(status: Status): string {
    Version + " " + NatToDecimal(Code(status)) + " " + Reason(status)
  }

  /** The status line, terminator included. */
  function StatusLine(status: Status): string {
    StatusText(status) + CRLF
  }

  /** Everything the response holds before the body. */
  function Head(status: Status, contentType: string, length: nat, connection: string): string {
    StatusLine(status)
    + ContentTypeName + contentType + CRLF
    + ContentLengthName + NatToDecimal(length) + CRLF
    + ConnectionName + connection + CRLF
    + CRLF
  }

  /** The corrected size of the status-line buffer: reason, version, two spaces, a 3-digit code, CRLF and NUL. */
  function StatusLineAllocation(status: Status): (n: nat)
    ensures n == |StatusLine(status)| + 1
  {
    |Reason(status)| + |Version| + 7 + 1
  }

  /**
   * The response built by appends: status line, `Content-Type`,
   * `Content-Length` (with its buffer sized by the digit count),
   * `Connection`, a blank line, then the body.
   */
  method BuildResponse(status: Status, contentType: string, fileLength: nat, connection: string, body: string)
    returns (response: string)
    ensures response == Head(status, contentType, fileLength, connection) + body
  {
    var t := Version;
    var capacity := StatusLineAllocation(status);
    response := t + " " + NatToDecimal(Code(status)) + " " + Reason(status) + CRLF;
    assert |response| + 1 <= capacity;

    t := ContentTypeName;
    response := response + t + contentType + CRLF;

    t := ContentLengthName;
    var intLength := CountDigits(fileLength);
    capacity := |response| + |t| + intLength + 2 + 1;
    response := response + t + NatToDecimal(fileLength) + CRLF;
    assert |response| + 1 <= capacity;

    t := ConnectionName;
    response := response + t + connection + CRLF;

    response := response + CRLF;

    response := response + body;
  }

  lemma NoLineBreaksAppend(a: string, b: string)
    requires NoLineBreaks(a) && NoLineBreaks(b)
    ensures NoLineBreaks(a + b)
  {
    assert forall i :: 0 <= i < |b| ==> (a + b)[|a| + i] == b[i];
  }

  lemma SplitLinesLineThenRest(line: string, rest: string)
    requires line != [] && NoLineBreaks(line)
    ensures SplitLines(line + CRLF + rest) == [line] + SplitLines(rest)
  {
    assert line + CRLF + rest == line + ['\r'] + (['\n'] + rest);
    SplitLinesAround(line, '\r', ['\n'] + rest);
    SplitLinesAround([], '\n', rest);
    assert [] + ['\n'] + rest == ['\n'] + rest;
    SplitLinesOfLine(line);
  }

  /** Four non-empty lines, each followed by CRLF, then a blank line, split back into those four lines. */
  lemma {:induction false} SplitLinesOfFourLines(l1: string, l2: string, l3: string, l4: string)
    requires l1 != [] && l2 != [] && l3 != [] && l4 != []
    requires NoLineBreaks(l1) && NoLineBreaks(l2) && NoLineBreaks(l3) && NoLineBreaks(l4)
    ensures SplitLines(l1 + CRLF + (l2 + CRLF + (l3 + CRLF + (l4 + CRLF + CRLF)))) == [l1, l2, l3, l4]
  {
    assert SplitLines(CRLF) == [] by {
      SplitLinesAround([], '\r', "\n");
      SplitLinesAround([], '\n', []);
      assert [] + ['\r'] + "\n" == CRLF;
      assert [] + ['\n'] + [] == "\n";
    }
    SplitLinesLineThenRest(l4, CRLF);
    SplitLinesLineThenRest(l3, l4 + CRLF + CRLF);
    SplitLinesLineThenRest(l2, l3 + CRLF + (l4 + CRLF + CRLF));
    SplitLinesLineThenRest(l1, l2 + CRLF + (l3 + CRLF + (l4 + CRLF + CRLF)));
  }

  /** The appends of a head, regrouped line by line. */
  lemma Regroup(s: string, n2: string, v2: string, n3: string, v3: string, n4: string, v4: string, e: string)
    ensures s + n2 + v2 + e + n3 + v3 + e + n4 + v4 + e + e
         == s + (n2 + v2 + e + (n3 + v3 + e + (n4 + v4 + e + e)))
  {
    calc {
      s + n2 + v2 + e + n3 + v3 + e + n4 + v4 + e + e;
      s + (n2 + v2 + e) + (n3 + v3 + e) + (n4 + v4 + e + e);
      s + (n2 + v2 + e + (n3 + v3 + e + (n4 + v4 + e + e)));
    }
  }

  /** The head, written as its four lines each followed by CRLF, then the blank line. */
  lemma HeadAsLines(status: Status, contentType: string, length: nat, connection: string)
    ensures Head(status, contentType, length, connection)
         == StatusText(status) + CRLF
            + (ContentTypeName + contentType + CRLF
            + (ContentLengthName + NatToDecimal(length) + CRLF
            + (ConnectionName + connection + CRLF + CRLF)))
  {
    Regroup(StatusLine(status), ContentTypeName, contentType, ContentLengthName, NatToDecimal(length),
      ConnectionName, connection, CRLF);
  }

  lemma EndsWithBlankLine(p: string)
    ensures var s := p + CRLF + CRLF; |s| >= 4 && s[|s| - 4..] == Terminator
  {
    var s := p + CRLF + CRLF;
    assert s[|s| - 4..] == CRLF + CRLF;
  }

  lemma StatusTextHasNoLineBreaks(status: Status)
    ensures StatusText(status) != [] && NoLineBreaks(StatusText(status))
  {
    var digits := NatToDecimal(Code(status));
    NoLineBreaksAppend(Version + " ", digits);
    NoLineBreaksAppend(Version + " " + digits, " " + Reason(status));
    assert Version + " " + digits + " " + Reason(status) == Version + " " + digits + (" " + Reason(status));
  }

  lemma FieldNamesHaveNoLineBreaks()
    ensures NoLineBreaks(ContentTypeName) && NoLineBreaks(ContentLengthName) && NoLineBreaks(ConnectionName)
  {
  }

  lemma FieldValuesHaveNoLineBreaks()
    ensures NoLineBreaks("text/html") && NoLineBreaks("text/css") && NoLineBreaks("image/jpeg")
    ensures NoLineBreaks("image/png") && NoLineBreaks("text/plain")
    ensures NoLineBreaks(KeepAlive) && NoLineBreaks(Close)
  {
  }

  /** The four lines of a head are non-empty and hold no line break when the two free-text values hold none. */
  lemma HeadLinesHaveNoLineBreaks(status: Status, contentType: string, length: nat, connection: string)
    requires NoLineBreaks(contentType) && NoLineBreaks(connection)
    ensures StatusText(status) != [] && NoLineBreaks(StatusText(status))
    ensures NoLineBreaks(ContentTypeName + contentType)
    ensures NoLineBreaks(ContentLengthName + NatToDecimal(length))
    ensures NoLineBreaks(ConnectionName + connection)
  {
    StatusTextHasNoLineBreaks(status);
    FieldNamesHaveNoLineBreaks();
    NoLineBreaksAppend(ContentTypeName, contentType);
    NoLineBreaksAppend(ContentLengthName, NatToDecimal(length));
    NoLineBreaksAppend(ConnectionName, connection);
  }

  /**
   * Re-reading the head of a response line by line gives back the status line
   * and the three header lines in order, and the `Content-Length` digits read
   * back as the length that was written; the head ends with the blank-line
   * terminator, so the body starts right after it.
   */
  lemma {:induction false} HeadRoundTrip(status: Status, contentType: string, length: nat, connection: string)
    requires NoLineBreaks(contentType) && NoLineBreaks(connection)
    ensures var head := Head(status, contentType, length, connection);
      |head| >= 4 && head[|head| - 4..] == Terminator
    ensures SplitLines(Head(status, contentType, length, connection)) ==
      [ StatusText(status),
        ContentTypeName + contentType,
        ContentLengthName + NatToDecimal(length),
        ConnectionName + connection ]
    ensures DecimalValue(NatToDecimal(length)) == length
  {
    EndsWithBlankLine(StatusLine(status)
      + ContentTypeName + contentType + CRLF
      + ContentLengthName + NatToDecimal(length) + CRLF
      + ConnectionName + connection);
    HeadAsLines(status, contentType, length, connection);
    HeadLinesHaveNoLineBreaks(status, contentType, length, connection);
    SplitLinesOfFourLines(StatusText(status), ContentTypeName + contentType,
      ContentLengthName + NatToDecimal(length), ConnectionName + connection);
    DecimalRoundTrip(length);
  }

  lemma StatusLineFrom(status: Status, code: string)
    requires NatToDecimal(Code(status)) == code
    ensures StatusLine(status) == Version + " " + code + " " + Reason(status) + CRLF
  {
  }

  /** The 200 status line as it goes on the wire. */
  lemma StatusLineOk()
    ensures StatusLine(Ok) == "HTTP/1.1 200 OK\r\n"
  {
    assert NatToDecimal(Code(Ok)) == "200" by { CodeDigits(); }
    StatusLineFrom(Ok, "200");
  }

  /** The 404 status line as it goes on the wire. */
  lemma StatusLineNotFound()
    ensures StatusLine(NotFound) == "HTTP/1.1 404 Not Found\r\n"
  {
    assert NatToDecimal(Code(NotFound)) == "404" by { CodeDigits(); }
    StatusLineFrom(NotFound, "404");
  }

  /** The 501 status line as it goes on the wire. */
  lemma StatusLineNotImplemented()
    ensures StatusLine(NotImplemented) == "HTTP/1.1 501 Not Implemented\r\n"
  {
    assert NatToDecimal(Code(NotImplemented)) == "501" by { CodeDigits(); }
    StatusLineFrom(NotImplemented, "501");
  }

  lemma CodeDigits()
    ensures NatToDecimal(200) == "200" && NatToDecimal(404) == "404" && NatToDecimal(501) == "501"
  {
    assert NatToDecimal(2) == "2" && NatToDecimal(4) == "4" && NatToDecimal(5) == "5";
    assert NatToDecimal(20) == NatToDecimal(2) + "0";
    assert NatToDecimal(40) == NatToDecimal(4) + "0";
    assert NatToDecimal(50) == NatToDecimal(5) + "0";
    assert NatToDecimal(200) == NatToDecimal(20) + "0";
    assert NatToDecimal(404) == NatToDecimal(40) + "4";
    assert NatToDecimal(501) == NatToDecimal(50) + "1";
  }

  /** A response is its head followed by its body, and the head starts with the status line. */
  lemma ResponseParts(status: Status, contentType: string, length: nat, connection: string, body: string)
    ensures var head := Head(status, contentType, length, connection);
      var r := head + body;
      |StatusLine(status)| <= |head| && |body| <= |r| &&
      r[..|r| - |body|] == head && r[|r| - |body|..] == body &&
      r[..|StatusLine(status)|] == StatusLine(status)
  {
    var head := Head(status, contentType, length, connection);
    HeadAsLines(status, contentType, length, connection);
    var rest := ContentTypeName + contentType + CRLF
      + (ContentLengthName + NatToDecimal(length) + CRLF
      + (ConnectionName + connection + CRLF + CRLF));
    assert head + body == StatusLine(status) + (rest + body);
  }

  // ---- Finding: the status-line buffer as written ----

  /** The size the source allocates for the status line: reason, "HTTP/1.1", 4, NUL. */
  function StatusLineAllocationAsWritten(status: Status): nat {
    |Reason(status)| + |Version| + 4 + 1
  }

  /** For every status the status line and its NUL are 3 bytes longer than that buffer. */
  lemma StatusLineOverflows(status: Status)
    ensures |StatusLine(status)| + 1 == StatusLineAllocationAsWritten(status) + 3
  {
  }
}
