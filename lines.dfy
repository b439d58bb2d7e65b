/**
 * How the request handler cuts a received chunk into lines: `strtok` with the
 * delimiter set {CR, LF}, which drops empty tokens, and the completion test
 * `strstr(buff, "\r\n\r\n") != NULL` applied to one chunk.
 */
module Lines {
  import opened Text

  /** The blank-line terminator of an HTTP header section. */
  const Terminator := "\r\n\r\n"

  /** Length of the run of non-delimiters at the front of `s`. */
  function TokenLength(s: string): (n: nat)
    ensures n <= |s|
    ensures forall k :: 0 <= k < n ==> !IsLineBreak(s[k])
    ensures n == |s| || IsLineBreak(s[n])
    decreases |s|
  {
    if s == [] || IsLineBreak(s[0]) then 0 else 1 + TokenLength(s[1..])
  }

  /**
   * The tokens `strtok(s, "\r\n")` returns one call after another: the maximal
   * runs of characters other than CR and LF, in order, empty runs skipped.
   */
  function SplitLines(s: string): (tokens: seq<string>)
    ensures forall k :: 0 <= k < |tokens| ==> tokens[k] != [] && NoLineBreaks(tokens[k])
    decreases |s|
  {
    if s == [] then []
    else if IsLineBreak(s[0]) then SplitLines(s[1..])
    else
      var n := TokenLength(s);
      [s[..n]] + SplitLines(s[n..])
  }

  /** `s` with every CR and LF removed. */
  function RemoveLineBreaks(s: string): string
    decreases |s|
  {
    if s == [] then []
    else (if IsLineBreak(s[0]) then [] else [s[0]]) + RemoveLineBreaks(s[1..])
  }

  function Concat(tokens: seq<string>): string
    decreases |tokens|
  {
    if tokens == [] then [] else tokens[0] + Concat(tokens[1..])
  }

  lemma {:induction false} RemoveLineBreaksPrefix(s: string, n: nat)
    requires n <= |s| && forall k :: 0 <= k < n ==> !IsLineBreak(s[k])
    ensures RemoveLineBreaks(s) == s[..n] + RemoveLineBreaks(s[n..])
    decreases n
  {
    if n > 0 {
      RemoveLineBreaksPrefix(s[1..], n - 1);
      assert s[1..][n - 1..] == s[n..];
      assert [s[0]] + s[1..][..n - 1] == s[..n];
    }
  }

  /** Splitting loses nothing but the delimiters: the tokens, put back together, are `s` without CR and LF. */
  lemma {:induction false} SplitLinesKeepsText(s: string)
    ensures Concat(SplitLines(s)) == RemoveLineBreaks(s)
    decreases |s|
  {
    if s != [] {
      if IsLineBreak(s[0]) {
        SplitLinesKeepsText(s[1..]);
      } else {
        var n := TokenLength(s);
        SplitLinesKeepsText(s[n..]);
        RemoveLineBreaksPrefix(s, n);
        var tokens := SplitLines(s);
        assert tokens[0] == s[..n] && tokens[1..] == SplitLines(s[n..]);
      }
    }
  }

  /** A token never spans a delimiter: splitting around one CR or LF splits the two sides independently. */
  lemma {:induction false} SplitLinesAround(a: string, c: char, b: string)
    requires IsLineBreak(c)
    ensures SplitLines(a + [c] + b) == SplitLines(a) + SplitLines(b)
    decreases |a|
  {
    if a == [] {
      assert a + [c] + b == [c] + b;
      SplitLinesSkipFront(c, b);
    } else if IsLineBreak(a[0]) {
      SplitLinesAround(a[1..], c, b);
      AroundAfterBreak(a, c, b);
    } else {
      SplitLinesAround(a[TokenLength(a)..], c, b);
      AroundAfterToken(a, c, b);
    }
  }

  /** A delimiter at the front is skipped. */
  lemma SplitLinesSkipFront(c: char, rest: string)
    requires IsLineBreak(c)
    ensures SplitLines([c] + rest) == SplitLines(rest)
  {
    assert ([c] + rest)[1..] == rest;
  }

  lemma AroundAfterBreak(a: string, c: char, b: string)
    requires a != [] && IsLineBreak(a[0])
    requires SplitLines(a[1..] + [c] + b) == SplitLines(a[1..]) + SplitLines(b)
    ensures SplitLines(a + [c] + b) == SplitLines(a) + SplitLines(b)
  {
    assert (a + [c] + b)[1..] == a[1..] + [c] + b;
  }

  lemma AroundAfterToken(a: string, c: char, b: string)
    requires IsLineBreak(c) && a != [] && !IsLineBreak(a[0])
    requires SplitLines(a[TokenLength(a)..] + [c] + b) == SplitLines(a[TokenLength(a)..]) + SplitLines(b)
    ensures SplitLines(a + [c] + b) == SplitLines(a) + SplitLines(b)
  {
    var n := TokenLength(a);
    var token, rest := a[..n], a[n..];
    var t := rest + [c] + b;
    CutAt(a, n, c, b);
    assert t[0] == (if n < |a| then a[n] else c);
    SplitLinesTokenThen(token, t);
    SplitLinesTokenThen(token, rest);
    ConcatAssoc([token], SplitLines(rest), SplitLines(b));
  }

  /** Cutting `a` at `n`, on its own and in front of `[c] + b`. */
  lemma CutAt<T>(a: seq<T>, n: nat, c: T, b: seq<T>)
    requires n <= |a|
    ensures a == a[..n] + a[n..]
    ensures a + [c] + b == a[..n] + (a[n..] + [c] + b)
  {
  }

  lemma ConcatAssoc<T>(x: seq<T>, y: seq<T>, z: seq<T>)
    ensures x + (y + z) == x + y + z
  {
  }

  /** A non-empty text without CR or LF is a single token. */
  lemma SplitLinesOfLine(line: string)
    requires line != [] && NoLineBreaks(line)
    ensures SplitLines(line) == [line]
  {
    var n := TokenLength(line);
    assert n == |line|;
    assert line[..n] == line;
    assert line[n..] == [];
  }

  /** A delimiter in front of the rest is skipped. */
  lemma SplitLinesSkip(s: string, pos: nat)
    requires pos < |s| && IsLineBreak(s[pos])
    ensures SplitLines(s[pos..]) == SplitLines(s[pos + 1..])
  {
    assert s[pos..][1..] == s[pos + 1..];
  }

  /** The front run of non-delimiters ends exactly at the first delimiter. */
  lemma {:induction false} TokenLengthIs(s: string, n: nat)
    requires n <= |s| && (forall k :: 0 <= k < n ==> !IsLineBreak(s[k]))
    requires n == |s| || IsLineBreak(s[n])
    ensures TokenLength(s) == n
    decreases n
  {
    if n > 0 {
      TokenLengthIs(s[1..], n - 1);
    }
  }

  /** A maximal run of non-delimiters at `pos` is the next token. */
  lemma SplitLinesToken(s: string, pos: nat, end: nat)
    requires pos < end <= |s|
    requires forall k :: pos <= k < end ==> !IsLineBreak(s[k])
    requires end == |s| || IsLineBreak(s[end])
    ensures SplitLines(s[pos..]) == [s[pos..end]] + SplitLines(s[end..])
  {
    var rest := s[pos..];
    var n := end - pos;
    TokenLengthIs(rest, n);
    assert rest[..n] == s[pos..end];
    assert rest[n..] == s[end..];
  }

  /** A token followed by the end of the text or a delimiter stands alone. */
  lemma SplitLinesTokenThen(token: string, rest: string)
    requires token != [] && NoLineBreaks(token)
    requires rest == [] || IsLineBreak(rest[0])
    ensures SplitLines(token + rest) == [token] + SplitLines(rest)
  {
    var s := token + rest;
    assert forall k :: 0 <= k < |token| ==> s[k] == token[k];
    SplitLinesToken(s, 0, |token|);
    assert s[0..] == s && s[0..|token|] == token && s[|token|..] == rest;
  }

  /**
   * The `strtok` loop: each call skips the delimiters in front of the next
   * token, then reads up to the next delimiter or the end of the buffer.
   */
  method Tokenize(buff: string) returns (tokens: seq<string>)
    ensures tokens == SplitLines(buff)
  {
    tokens := [];
    var pos := 0;
    while pos < |buff|
      invariant 0 <= pos <= |buff|
      invariant tokens + SplitLines(buff[pos..]) == SplitLines(buff)
      decreases |buff| - pos
    {
      if IsLineBreak(buff[pos]) {
        SplitLinesSkip(buff, pos);
        pos := pos + 1;
      } else {
        var end := TokenEnd(buff, pos);
        SplitLinesToken(buff, pos, end);
        ConcatAssoc(tokens, [buff[pos..end]], SplitLines(buff[end..]));
        tokens := tokens + [buff[pos..end]];
        pos := end;
      }
    }
    assert buff[pos..] == [];
  }

  /** The scan for the end of a token that starts at `pos`: the first delimiter after it, or the end of the buffer. */
  method TokenEnd(buff: string, pos: nat) returns (end: nat)
    requires pos < |buff|
    ensures pos < end <= |buff|
    ensures forall k :: pos < k < end ==> !IsLineBreak(buff[k])
    ensures end == |buff| || IsLineBreak(buff[end])
  {
    end := pos + 1;
    while end < |buff| && !IsLineBreak(buff[end])
      invariant pos < end <= |buff|
      invariant forall k :: pos < k < end ==> !IsLineBreak(buff[k])
      decreases |buff| - end
    {
      end := end + 1;
    }
  }

  /** The completion test of the receive loop, applied to the chunk just received. */
  predicate IsDone(chunk: string): (done: bool)
    ensures done <==> Occurs(chunk, Terminator)
  {
    Contains(chunk, Terminator)
  }

  /**
   * The test looks at one chunk only: a terminator whose "\r\n\r" ends one
   * chunk and whose "\n" starts the next is not seen in either.
   */
  lemma TerminatorAcrossChunksMissed()
    ensures !IsDone("Host: a\r\n\r") && !IsDone("\n")
    ensures IsDone("Host: a\r\n\r" + "\n")
  {
    var a := "Host: a\r\n\r";
    assert OccursAt(a + "\n", Terminator, 7);
    forall j ensures !OccursAt(a, Terminator, j) {
      if 0 <= j <= 6 {
        assert a[j] != '\r';
      }
    }
  }
}
