/**
Which streams are answered as a bad request: exactly those whose first line is complete and is no request line. A
request line is what the grammar of messages says it is, so this is the other direction of its being accepted.
*/
module HttpRejection {
  import opened CStrings
  import opened SourceVersion
  import opened HttpRequest
  import opened HttpChunking
  import opened HttpSplitBody
  import opened HttpGrammar

  /** A method, blanks, a target, blanks and the protocol version. */
  ghost predicate IsRequestLine(line: string) {
    exists m: Message :: ValidMessage(m) && line == RequestLineText(m)
  }

  // ---------- Only request lines are accepted ----------

  /** From i on, p holds text up to a NUL at n; p ends in two NULs. */
  ghost predicate TextFrom(p: string, i: nat, n: nat) {
    && i <= n && TerminatedPrefix(p, n) && p[n] == NUL
    && forall k :: i <= k < n ==> p[k] != NUL && p[k] != '\r' && p[k] != '\n'
  }

  /** What CutToken finds is a token and the blank behind it. */
  lemma TokenFound(p: string, i: nat, n: nat)
    requires TextFrom(p, i, n)
    ensures var (p1, r) := CutToken(p, i);
            r.Some? ==>
              var e := r.value - 1;
              && i <= e < n && p1 == p[e := NUL] && IsBlank(p[e]) && TextFrom(p1, e + 1, n)
              && IsToken(p[i..e]) && CStr(p1, i) == p[i..e]
  {
    hide CStr;
    var blank := StrPbrkBlank(p, i);
    if blank.Some? {
      var e := blank.value;
      BlankBefore(p, i, n);
      var p1 := p[e := NUL];
      StrEndIs(p1, i, e);
      assert p1[i..e] == p[i..e];
    }
  }

  lemma {:induction false} BlankBefore(p: string, i: nat, n: nat)
    requires i <= n < |p| && p[n] == NUL
    ensures StrPbrkBlank(p, i).Some? ==> StrPbrkBlank(p, i).value < n
    decreases n - i
  {
    if i < n {
      BlankBefore(p, i + 1, n);
    }
  }

  lemma BlanksSkipped(p: string, i: nat, n: nat)
    requires TextFrom(p, i, n)
    ensures i <= NextToken(p, i) <= n && TextFrom(p, NextToken(p, i), n)
    ensures forall k :: i <= k < NextToken(p, i) ==> IsBlank(p[k])
  {
  }

  lemma NoSchemeAt(p: string, q: nat, scheme: string)
    requires q < |p| && p[q] == '/' && scheme in {"http://", "https://"}
    ensures !StartsIgnoringCase(CStr(p, q), scheme)
  {
    assert CStr(p, q)[0] == '/';
    NotScheme(CStr(p, q), scheme);
  }

  lemma SchemeThenHost(s: string, n: nat)
    requires n <= |s| && IsScheme(s[..n]) && '/' !in s[n..]
    ensures IsAuthority(s)
  {
  }

  /** The scheme at u, if any, and where the path after it begins. */
  lemma AfterScheme(p: string, u: nat, end: nat, scheme: string)
    requires UrlAt(p, u, end) && scheme in {"http://", "https://"}
    requires StartsIgnoringCase(CStr(p, u), scheme)
    ensures u + |scheme| <= end
    ensures var q := StrChr(p, u + |scheme|, '/');
            q.Some? ==> q.value < end && IsAuthority(p[u..q.value]) && p[q.value] == '/'
  {
    hide StartsIgnoringCase, SameIgnoringCase, IsAuthority, StrEnd;
    StrEndIs(p, u, end);
    SchemeFits(p[u..end], scheme);
    var q := StrChr(p, u + |scheme|, '/');
    if q.Some? {
      assert q.value < end;
      assert p[u..q.value][..|scheme|] == p[u..end][..|scheme|];
      assert '/' !in p[u..q.value][|scheme|..];
      SchemeThenHost(p[u..q.value], |scheme|);
    }
  }

  lemma SchemeFits(s: string, scheme: string)
    requires StartsIgnoringCase(s, scheme) && scheme in {"http://", "https://"}
    ensures |scheme| <= |s| && IsScheme(s[..|scheme|])
  {
  }

  /** What SkipAuthority passes over is an authority. */
  lemma AuthorityFound(p: string, u: nat, end: nat)
    requires UrlAt(p, u, end)
    requires SkipAuthority(p, u).Some? && SkipAuthority(p, u).value < |p| && p[SkipAuthority(p, u).value] == '/'
    ensures var q := SkipAuthority(p, u).value; u <= q < end && IsAuthority(p[u..q])
  {
    hide StartsIgnoringCase, IsAuthority, CStr;
    var q := SkipAuthority(p, u).value;
    AuthorityBeforeEnd(p, u, end);
    if StartsIgnoringCase(CStr(p, u), "http://") {
      AfterScheme(p, u, end, "http://");
      var q1 := StrChr(p, u + 7, '/').value;
      NoSchemeAt(p, q1, "https://");
      assert q == q1;
    } else if StartsIgnoringCase(CStr(p, u), "https://") {
      AfterScheme(p, u, end, "https://");
    } else {
      assert p[u..q] == "";
      NoAuthority();
    }
  }

  lemma NoAuthority()
    ensures IsAuthority("")
  {
  }

  /** The end of an accepted line. */
  lemma FinishFound(p: string, post: bool, u: nat, e: nat, n: nat) returns (q: nat, v: nat)
    requires u <= e && TextFrom(p, e + 1, n) && UrlAt(p, u, e) && FinishRequestLine(p, post, u, e + 1).ok
    ensures u <= q < e < v <= n < |p| && IsAuthority(p[u..q]) && p[q] == '/'
    ensures SameIgnoringCase(p[v..n], "HTTP/1.1")
    ensures forall k :: e < k < v ==> IsBlank(p[k])
  {
    hide SameIgnoringCase, SkipAuthority, NextToken, IsAuthority, StrCatAt, StrEnd;
    v := NextToken(p, e + 1);
    BlanksSkipped(p, e + 1, n);
    StrEndIs(p, v, n);
    q := SkipAuthority(p, u).value;
    AuthorityFound(p, u, e);
  }

  /** What follows the method of an accepted line: target and version, as places in p. */
  lemma TargetFound(p: string, post: bool, i: nat, n: nat) returns (u: nat, q: nat, e: nat, v: nat)
    requires TextFrom(p, i, n) && ParseTarget(p, post, i).ok
    ensures i <= u <= q < e < v <= n < |p| && IsAuthority(p[u..q]) && p[q] == '/' && IsToken(p[u..e])
    ensures SameIgnoringCase(p[v..n], "HTTP/1.1")
    ensures (forall k :: i <= k < u ==> IsBlank(p[k])) && (forall k :: e <= k < v ==> IsBlank(p[k]))
  {
    hide CutToken, NextToken, FinishRequestLine, IsAuthority, IsToken, SameIgnoringCase, CStr;
    u := NextToken(p, i);
    BlanksSkipped(p, i, n);
    TokenFound(p, u, n);
    var p1 := CutToken(p, u).0;
    e := CutToken(p, u).1.value - 1;
    q, v := FinishFound(p1, post, u, e, n);
    assert p1[u..q] == p[u..q] && p1[v..n] == p[v..n];
    BlanksKept(p, p1, e, e + 1, v);
  }

  lemma BlanksKept(p: string, p1: string, e: nat, i: nat, j: nat)
    requires e < i <= j <= |p| && p1 == p[e := NUL] && forall k :: i <= k < j ==> IsBlank(p1[k])
    ensures forall k :: i <= k < j ==> IsBlank(p[k])
  {
    forall k | i <= k < j
      ensures IsBlank(p[k])
    {
      assert p1[k] == p[k];
    }
  }

  lemma MethodFound(p: string, n: nat) returns (b: nat)
    requires TextFrom(p, 0, n) && ParseRequestLine(p, 0).ok
    ensures b < n < |p| && IsBlank(p[b]) && IsToken(p[..b])
    ensures SameIgnoringCase(p[..b], "GET") || SameIgnoringCase(p[..b], "POST")
    ensures TextFrom(p[b := NUL], b + 1, n)
    ensures ParseTarget(p[b := NUL], SameIgnoringCase(p[..b], "POST"), b + 1).ok
  {
    hide CutToken, CStr, SameIgnoringCase, ParseTarget, IsToken;
    TokenFound(p, 0, n);
    b := CutToken(p, 0).1.value - 1;
    assert p[0..b] == p[..b];
  }

  /** An accepted line is a request line up to its first NUL. */
  lemma AcceptedOnly(p: string, n: nat)
    requires TextFrom(p, 0, n) && ParseRequestLine(p, 0).ok
    ensures IsRequestLine(p[..n])
  {
    hide ParseRequestLine, ParseTarget, SameIgnoringCase, IsAuthority;
    var b := MethodFound(p, n);
    var p1 := p[b := NUL];
    var u, q, e, v := TargetFound(p1, SameIgnoringCase(p[..b], "POST"), b + 1, n);
    assert p1[u..q] == p[u..q] && p1[u..e] == p[u..e] && p1[v..n] == p[v..n];
    BlanksKept(p, p1, b, b + 1, u);
    BlanksKept(p, p1, b, e, v);
    PiecesAreValid(p, b, u, q, e, v, n);
  }

  lemma PiecesAreValid(p: string, b: nat, u: nat, q: nat, e: nat, v: nat, n: nat)
    requires b < u <= q < e < v <= n <= |p|
    requires (SameIgnoringCase(p[..b], "GET") || SameIgnoringCase(p[..b], "POST")) && IsToken(p[..b])
    requires IsAuthority(p[u..q]) && p[q] == '/' && IsToken(p[u..e]) && SameIgnoringCase(p[v..n], "HTTP/1.1")
    requires forall k :: b <= k < u || e <= k < v ==> IsBlank(p[k])
    ensures IsRequestLine(p[..n])
  {
    hide SameIgnoringCase, IsAuthority, IsToken, IsTarget, IsGap;
    var m := Message(p[..b], p[b..u], Target(p[u..q], p[q..e]), p[e..v], p[v..n], [], "");
    PiecesOfTarget(p, u, q, e);
    GapOf(p, b, u);
    GapOf(p, e, v);
    VersionIsToken(p[v..n]);
    assert ValidMessage(m);
    assert p[..n] == RequestLineText(m);
  }

  lemma PiecesOfTarget(p: string, u: nat, q: nat, e: nat)
    requires u <= q < e <= |p| && IsAuthority(p[u..q]) && p[q] == '/' && IsToken(p[u..e])
    ensures IsTarget(Target(p[u..q], p[q..e]))
  {
    hide IsAuthority;
    assert forall k :: u <= k < e ==> p[u..e][k - u] == p[k];
  }

  lemma GapOf(p: string, i: nat, j: nat)
    requires i < j <= |p| && forall k :: i <= k < j ==> IsBlank(p[k])
    ensures IsGap(p[i..j])
  {
  }

  lemma VersionIsToken(s: string)
    requires SameIgnoringCase(s, "HTTP/1.1")
    ensures IsToken(s)
  {
    forall i | 0 <= i < |s|
      ensures s[i] != '\r' && s[i] != '\n' && s[i] != NUL && !IsBlank(s[i])
    {
      assert LowerChar(s[i]) == LowerChar("HTTP/1.1"[i]);
    }
  }

  /** A line is accepted exactly if it is a request line, up to its first NUL. */
  lemma AcceptedExactly(line: string)
    requires NoLineEnd(line)
    ensures ParseRequestLine(line + TAIL, 0).ok <==> IsRequestLine(CStr(line, 0))
  {
    hide ParseRequestLine, ValidMessage, RequestLineText, TextFrom, CStr;
    var p, n := line + TAIL, StrEnd(line, 0);
    LineAndTail(line);
    if ParseRequestLine(p, 0).ok {
      AcceptedOnly(p, n);
    }
    if IsRequestLine(CStr(line, 0)) {
      var m: Message :| ValidMessage(m) && CStr(line, 0) == RequestLineText(m);
      RequestLineAccepted(m, p[n..]);
    }
  }

  lemma LineAndTail(line: string)
    requires NoLineEnd(line)
    ensures var p, n := line + TAIL, StrEnd(line, 0);
            && TextFrom(p, 0, n) && p[..n] == CStr(line, 0) && IsTail(p[n..]) && p == CStr(line, 0) + p[n..]
  {
    var p, n := line + TAIL, StrEnd(line, 0);
    assert p[..n] == line[..n] == CStr(line, 0);
    forall k | 0 <= k < n
      ensures p[k] != NUL && p[k] != '\r' && p[k] != '\n'
    {
      assert p[k] == line[k];
    }
  }

  // ---------- What the first line decides ----------

  /** The first line moves the parser on to the headers, or ends in a bad request. */
  lemma FirstLineStep(line: string, rest: string)
    requires NoLineEnd(line)
    ensures var r := LineStep(Feed(FRESH, line + CRLF + rest));
            if ParseRequestLine(line + TAIL, 0).ok then r.Again? && r.conn.phase == Header
            else r.Stop? && r.outcome == BadRequest
  {
    hide ParseRequestLine, HandleHeader;
    var s, next := Feed(FRESH, line + CRLF + rest), |line| + 2;
    assert s.data[0..next] == line + CRLF;
    ScanText(s.data, 0, line);
    assert TerminateLine(s.data, next)[..next] == line + TAIL;
  }

  /** Behind the first line nothing is a bad request. */
  lemma {:induction false} NeverBad(ver: Version, s: Conn)
    requires Inv(s) && s.phase != RequestLine
    ensures Process(ver, s).0.phase != RequestLine && Process(ver, s).1 != BadRequest
    decreases |s.data| - s.checked
  {
    hide HandleRequestLine, CStr, ScanLine;
    match TakeStep(ver, s)
    case Again(t) => NeverBad(ver, t);
    case Stop(t, o) =>
  }

  lemma WholeRunBad(ver: Version, line: string, rest: string)
    requires NoLineEnd(line)
    ensures WholeRun(ver, line + CRLF + rest).1 == BadRequest <==> !IsRequestLine(CStr(line, 0))
  {
    hide LineStep, ContentStep, IsRequestLine, ParseRequestLine, CStr;
    FirstLineStep(line, rest);
    AcceptedExactly(line);
    var s := Feed(FRESH, line + CRLF + rest);
    if LineStep(s).Again? {
      NeverBad(ver, LineStep(s).conn);
    }
  }

  // ---------- Any split ----------

  lemma {:induction false} RunNeverBad(ver: Version, s: Conn, chunks: seq<string>)
    requires Inv(s) && s.phase != RequestLine
    ensures Run(ver, s, chunks).1 != BadRequest
    decreases |chunks|
  {
    hide Process;
    if chunks != [] {
      FeedInv(s, chunks[0]);
      NeverBad(ver, Feed(s, chunks[0]));
      RunNeverBad(ver, Process(ver, Feed(s, chunks[0])).0, chunks[1..]);
    }
  }

  lemma {:induction false} BadAlike(s: Conn, chunks: seq<string>)
    requires Settled(s)
    ensures Run(AsWritten, s, chunks).1 == BadRequest <==> Run(Repaired, s, chunks).1 == BadRequest
    decreases |chunks|
  {
    hide Process, Resumable, ConsumedAsLine;
    if chunks != [] {
      var s1 := Feed(s, chunks[0]);
      FeedKeeps(s, chunks[0]);
      OneCall(s1);
      var (t, o) := Process(Repaired, s1);
      if o == NoRequest {
        if t.phase == Content {
          RunNeverBad(Repaired, t, chunks[1..]);
          RunNeverBad(AsWritten, Process(AsWritten, s1).0, chunks[1..]);
        } else {
          SettledAfter(s1);
          BadAlike(t, chunks[1..]);
        }
      }
    }
  }

  /**
  In both versions and under every split: a stream whose first line is complete is answered as a bad request exactly
  if that line, up to its first NUL, is no request line.
  */
  lemma BadRequestExactly(ver: Version, line: string, rest: string, chunks: seq<string>)
    requires NoLineEnd(line) && Stream(chunks) == line + CRLF + rest
    ensures Run(ver, FRESH, chunks).1 == BadRequest <==> !IsRequestLine(CStr(line, 0))
  {
    hide Process, Settled, IsRequestLine, CStr, NoLineEnd;
    WholeRunBad(Repaired, line, rest);
    ChunkingIndependence(chunks);
    FreshSettled();
    BadAlike(FRESH, chunks);
  }

  /** The stream begins with a line that ends in CR LF, and this line is no request line. */
  ghost predicate BeginsWrongly(stream: string) {
    exists n :: 0 <= n && n + 2 <= |stream| && NoLineEnd(stream[..n]) && stream[n..n + 2] == CRLF
                && !IsRequestLine(CStr(stream[..n], 0))
  }

  lemma {:induction false} LineFound(d: string, i: nat)
    requires i <= |d| && NoLineEnd(d[..i]) && ScanLine(d, i).Line?
    ensures var n := ScanLine(d, i).next - 2; NoLineEnd(d[..n]) && d[n..n + 2] == CRLF
    decreases |d| - i
  {
    if d[i] != '\r' {
      assert d[..i + 1] == d[..i] + [d[i]];
      LineFound(d, i + 1);
    }
  }

  lemma NoLineYet(s: Conn)
    requires Inv(s) && s.phase != Content && !ScanLine(s.data, s.checked).Line?
    ensures Process(Repaired, s).1 == NoRequest
  {
  }

  lemma SplitAt(d: string, n: nat)
    requires n + 2 <= |d| && d[n..n + 2] == CRLF
    ensures d == d[..n] + CRLF + d[n + 2..]
  {
  }

  /** For every sequence of reads and both versions: the answer is a bad request exactly if the stream begins so. */
  lemma BadExactly(ver: Version, chunks: seq<string>)
    ensures Run(ver, FRESH, chunks).1 == BadRequest <==> BeginsWrongly(Stream(chunks))
  {
    hide Process, Settled, IsRequestLine, CStr, NoLineEnd, ScanLine;
    var d := Stream(chunks);
    if BeginsWrongly(d) {
      var n :| 0 <= n && n + 2 <= |d| && NoLineEnd(d[..n]) && d[n..n + 2] == CRLF
               && !IsRequestLine(CStr(d[..n], 0));
      SplitAt(d, n);
      BadRequestExactly(ver, d[..n], d[n + 2..], chunks);
    } else if ScanLine(d, 0).Line? {
      var n := ScanLine(d, 0).next - 2;
      EmptyHasNoLineEnd();
      assert d[..0] == "";
      LineFound(d, 0);
      SplitAt(d, n);
      BadRequestExactly(ver, d[..n], d[n + 2..], chunks);
    } else {
      assert "" + d == d;
      NoLineYet(Feed(FRESH, d));
      ChunkingIndependence(chunks);
      FreshSettled();
      BadAlike(FRESH, chunks);
    }
  }

  lemma EmptyHasNoLineEnd()
    ensures NoLineEnd("")
  {
  }
}
