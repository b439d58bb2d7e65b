/**
 * The request-line parser `process_http_header_request`: it accepts a line
 * that starts with "GET ", cuts off those 4 characters and the 9 characters of
 * " HTTP/1.1" at the end, and refuses any path that contains "..".
 */
module RequestLine {
  import opened Wrappers
  import opened Text

  /** The method token the parser accepts, space included. */
  const GetToken := "GET "
  /** How many characters the parser strips from the end of the line (" HTTP/1.1"). */
  const VersionLength := 9

  predicate StartsWithGet(request: string) {
    |request| >= |GetToken| && request[..|GetToken|] == GetToken
  }

  /** No two consecutive '.' characters, i.e. no parent-directory step. */
  predicate NoDotDot(path: string) {
    forall i :: 0 <= i < |path| - 1 ==> !(path[i] == '.' && path[i + 1] == '.')
  }

  lemma DotDotMeansContains(path: string)
    ensures !Contains(path, "..") <==> NoDotDot(path)
  {
    if !NoDotDot(path) {
      var i :| 0 <= i < |path| - 1 && path[i] == '.' && path[i + 1] == '.';
      assert OccursAt(path, "..", i);
    }
    if Contains(path, "..") {
      var i := Find(path, "..").value;
      assert path[i..i + 2] == "..";
      assert path[i] == '.' && path[i + 1] == '.';
    }
  }

  /**
   * The check the source's two assertions evidently intend: the line handed to
   * the parser holds no LF and no CR (its doc comment asks callers for that).
   */
  predicate LineBreakAssertion(request: string) {
    !Contains(request, "\n") && !Contains(request, "\r")
  }

  lemma LineBreakAssertionMeansNoLineBreaks(request: string)
    ensures LineBreakAssertion(request) <==> NoLineBreaks(request)
  {
    ContainsChar(request, '\n');
    ContainsChar(request, '\r');
  }

  /**
   * `process_http_header_request`: `None` stands for the NULL it returns for an
   * unsupported line. A line shorter than the 13 characters it strips is
   * refused here; the source computes a negative length for it.
   */
  function ParseRequestLine(request: string): (path: Option<string>)
    requires LineBreakAssertion(request)
    ensures !StartsWithGet(request) ==> path.None?
    ensures path.Some? ==> |path.value| == |request| - |GetToken| - VersionLength
    ensures path.Some? ==> request == GetToken + path.value + request[|request| - VersionLength..]
    ensures path.Some? ==> NoDotDot(path.value)
    ensures path.None? && StartsWithGet(request) && |request| >= |GetToken| + VersionLength ==>
              !NoDotDot(request[|GetToken|..|request| - VersionLength])
  {
    if !StartsWithGet(request) then None
    else if |request| < |GetToken| + VersionLength then None
    else
      var filename := request[|GetToken|..|request| - VersionLength];
      DotDotMeansContains(filename);
      if Contains(filename, "..") then None else Some(filename)
  }

  /**
   * Round trip: a path with no line break and no "..", framed as
   * "GET " + path + a 9-character version token, is parsed back to that path.
   * The version token itself is never inspected.
   */
  lemma {:induction false} ParseRecoversPath(path: string, version: string)
    requires NoLineBreaks(path) && NoLineBreaks(version)
    requires NoDotDot(path) && |version| == VersionLength
    ensures LineBreakAssertion(GetToken + path + version)
    ensures ParseRequestLine(GetToken + path + version) == Some(path)
  {
    var request := GetToken + path + version;
    assert NoLineBreaks(request) by {
      forall i | 0 <= i < |request| ensures !IsLineBreak(request[i]) {
        if i < |GetToken| {
          assert request[i] == GetToken[i];
        } else if i < |GetToken| + |path| {
          assert request[i] == path[i - |GetToken|];
        } else {
          assert request[i] == version[i - |GetToken| - |path|];
        }
      }
    }
    LineBreakAssertionMeansNoLineBreaks(request);
    assert request[..|GetToken|] == GetToken;
    assert request[|GetToken|..|request| - VersionLength] == path;
    DotDotMeansContains(path);
  }

  /** Any path with a parent-directory step is refused, whatever the rest of the line. */
  lemma TraversalRefused(request: string, i: nat)
    requires LineBreakAssertion(request) && StartsWithGet(request)
    requires |request| >= |GetToken| + VersionLength
    requires |GetToken| <= i && i + 1 < |request| - VersionLength
    requires request[i] == '.' && request[i + 1] == '.'
    ensures ParseRequestLine(request).None?
  {
    var filename := request[|GetToken|..|request| - VersionLength];
    assert filename[i - |GetToken|] == '.' && filename[i - |GetToken| + 1] == '.';
  }

  // ---- Findings: the code as written ----

  /**
   * The two assertions as written: `strstr("\n", request)` searches for the
   * whole request inside the one-character string "\n", the arguments of
   * `strstr` being swapped.
   */
  predicate LineBreakAssertionAsWritten(request: string) {
    !Contains("\n", request) && !Contains("\r", request)
  }

  /**
   * The assertions as written pass for every line the parser gets past its
   * first check, and so for the line "GET /a\nb HTTP/1.1" that holds an LF.
   */
  lemma SwappedAssertionChecksNothing(request: string)
    requires StartsWithGet(request)
    ensures LineBreakAssertionAsWritten(request)
    ensures LineBreakAssertionAsWritten("GET /a\nb HTTP/1.1") && !LineBreakAssertion("GET /a\nb HTTP/1.1")
  {
    assert OccursAt("GET /a\nb HTTP/1.1", "\n", 6) by {
      assert "GET /a\nb HTTP/1.1"[6..7] == "\n";
    }
  }

  /** The filename length as the source computes it, with no lower bound. */
  function PathLengthAsWritten(request: string): int {
    |request| - 4 - 9
  }

  /** "GET /" passes the method check and yields a negative length to `malloc`/`strncpy`. */
  lemma ShortLineUnderflows()
    ensures StartsWithGet("GET /") && LineBreakAssertion("GET /")
    ensures PathLengthAsWritten("GET /") == -8
    ensures ParseRequestLine("GET /").None?
  {
    LineBreakAssertionMeansNoLineBreaks("GET /");
  }
}
