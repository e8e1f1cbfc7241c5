/**
Independence of how the bytes of a request were split into reads.
*/
module HttpChunking {
  import opened CStrings
  import opened SourceVersion
  import opened HttpRequest

  /** process_read after each read, until it returns something other than NO_REQUEST. */
  function Run(ver: Version, s: Conn, chunks: seq<string>): (r: (Conn, Outcome))
    requires Inv(s)
    ensures Inv(r.0)
    decreases |chunks|
  {
    if chunks == [] then (s, NoRequest)
    else
      var (s1, o) := Process(ver, Feed(s, chunks[0]));
      if o != NoRequest then (s1, o) else Run(ver, s1, chunks[1..])
  }

  /** All the bytes of a sequence of reads. */
  function Stream(chunks: seq<string>): string {
    if chunks == [] then "" else chunks[0] + Stream(chunks[1..])
  }

  /** One run over the whole stream. */
  function WholeRun(ver: Version, stream: string): (r: (Conn, Outcome)) {
    Process(ver, Feed(FRESH, stream))
  }

  // ---------- What a scan sees when more bytes arrive ----------

  lemma {:induction false} ScanMore(d: string, c: string, i: nat)
    requires i <= |d|
    ensures !ScanLine(d, i).Open? ==> ScanLine(d + c, i) == ScanLine(d, i)
    ensures ScanLine(d, i).Open? ==> ScanLine(d + c, i) == ScanLine(d + c, ScanLine(d, i).pos)
    decreases |d| - i
  {
    if i < |d| && d[i] != '\r' && d[i] != '\n' {
      ScanMore(d, c, i + 1);
    }
  }

  lemma {:induction false} ScanFromStop(d: string, i: nat)
    requires i <= |d|
    ensures !ScanLine(d, i).Line? ==> ScanLine(d, ScanLine(d, i).pos) == ScanLine(d, i)
    decreases |d| - i
  {
    if i < |d| && d[i] != '\r' && d[i] != '\n' {
      ScanFromStop(d, i + 1);
    }
  }

  lemma TerminateMore(d: string, c: string, next: nat)
    requires 2 <= next <= |d|
    ensures TerminateLine(d + c, next) == TerminateLine(d, next) + c
    ensures (d + c)[..next] == d[..next]
    ensures TerminateLine(d + c, next)[..next] == TerminateLine(d, next)[..next]
    ensures TerminateLine(d + c, next)[next..] == TerminateLine(d, next)[next..] + c
  {
  }

  // ---------- The URL stays what the request line said ----------

  /** The URL's C string ends before the current line. */
  ghost predicate UrlEnded(s: Conn)
    requires Inv(s)
  {
    s.phase != RequestLine ==> StrEnd(s.data, s.url) < s.start
  }

  lemma UrlKept(d: string, d': string, url: nat, start: nat)
    requires url < start <= |d| && start <= |d'| && d[..start] == d'[..start]
    requires StrEnd(d, url) < start
    ensures StrEnd(d', url) < start && CStr(d', url) == CStr(d, url)
  {
    var e := StrEnd(d, url);
    forall k | url <= k <= e
      ensures d[k] == d'[k]
    {
      assert d[..start][k] == d'[..start][k];
    }
    StrEndIs(d', url, e);
  }

  lemma StepKeepsUrl(ver: Version, s: Conn)
    requires Inv(s) && UrlEnded(s)
    ensures var t := TakeStep(ver, s).conn;
            UrlEnded(t) && (s.phase != RequestLine ==> CStr(t.data, t.url) == CStr(s.data, s.url))
  {
    if s.phase == RequestLine {
      RequestLineEndsUrl(s);
    } else {
      StepWritesLater(ver, s);
      UrlKept(s.data, TakeStep(ver, s).conn.data, s.url, s.start);
    }
  }

  lemma RequestLineEndsUrl(s: Conn)
    requires Inv(s) && s.phase == RequestLine
    ensures UrlEnded(LineStep(s).conn)
  {
    hide ParseRequestLine, CStr, StrEnd, ScanLine, HandleHeader, HandleRequestLine;
    var t := LineStep(s).conn;
    if t.phase != RequestLine {
      assert t.data[t.start - 1] == NUL;
    }
  }

  /** After the request line, no step writes before the current line. */
  lemma StepWritesLater(ver: Version, s: Conn)
    requires Inv(s) && s.phase != RequestLine
    ensures var t := TakeStep(ver, s).conn;
            && t.phase != RequestLine && t.url == s.url && s.start <= t.start
            && t.data[..s.start] == s.data[..s.start]
  {
    hide ParseRequestLine, CStr, HandleRequestLine, ScanLine;
    ScanStop(s.data, s.checked);
  }

  // ---------- One step with more bytes behind it ----------

  /** In the body phase, the cursor is still where the body starts. */
  ghost predicate Resumable(s: Conn)
    requires Inv(s)
  {
    UrlEnded(s) && (s.phase == Content ==> s.start == s.checked)
  }

  lemma StepResumable(ver: Version, s: Conn)
    requires Inv(s) && Resumable(s) && (s.phase == Content ==> ver == Repaired)
    ensures Resumable(TakeStep(ver, s).conn)
  {
    hide ParseRequestLine, CStr;
    StepKeepsUrl(ver, s);
  }

  lemma FeedKeeps(s: Conn, c: string)
    requires Inv(s)
    ensures Inv(Feed(s, c)) && (UrlEnded(s) ==> UrlEnded(Feed(s, c))) && (Resumable(s) ==> Resumable(Feed(s, c)))
  {
    if s.phase != RequestLine && UrlEnded(s) {
      assert (s.data + c)[..s.start] == s.data[..s.start];
      UrlKept(s.data, s.data + c, s.url, s.start);
    }
  }

  ghost predicate SameProgress(a: Conn, b: Conn) {
    a.phase == b.phase && a.checked == b.checked && a.contentLength == b.contentLength
  }

  lemma RequestLineMore(s: Conn, c: string, next: nat)
    requires Inv(s) && s.phase == RequestLine
    requires s.checked + 2 <= next <= |s.data| && Inv(Feed(s, c))
    ensures var (t, o) := HandleRequestLine(s, next);
            HandleRequestLine(Feed(s, c), next) == (Feed(t, c), o)
  {
    hide ParseRequestLine, TerminateLine;
    var d := TerminateLine(s.data, next);
    TerminateMore(s.data, c, next);
    TerminatedLine(s.data, next, s.start);
    var r := ParseRequestLine(d[..next], s.start);
    assert r.bytes + (d[next..] + c) == r.bytes + d[next..] + c;
  }

  lemma HeaderMore(s: Conn, c: string, next: nat)
    requires Inv(s) && UrlEnded(s) && s.phase == Header
    requires s.checked + 2 <= next <= |s.data| && Inv(Feed(s, c))
    ensures var (t, o) := HandleHeader(s, next);
            HandleHeader(Feed(s, c), next) == (Feed(t, c), o)
  {
    hide CStr, ConnectionHeader, LengthHeader;
    var d := TerminateLine(s.data, next);
    TerminateMore(s.data, c, next);
    UrlKept(s.data, d, s.url, s.start);
    UrlKept(d, d + c, s.url, s.start);
  }

  /** A line is handled alike whatever follows it in the buffer. */
  lemma HandleLineMore(s: Conn, c: string, next: nat)
    requires Inv(s) && UrlEnded(s) && s.phase != Content
    requires s.checked + 2 <= next <= |s.data|
    ensures Inv(Feed(s, c))
    ensures var (t, o) := HandleLine(s, next);
            HandleLine(Feed(s, c), next) == (Feed(t, c), o)
  {
    hide HandleRequestLine, HandleHeader, UrlEnded;
    if s.phase == RequestLine {
      RequestLineMore(s, c, next);
    } else {
      HeaderMore(s, c, next);
    }
  }

  lemma HandleLineAnywhere(s: Conn, j: nat, next: nat)
    requires Inv(s) && Inv(s.(checked := j)) && s.phase != Content
    requires s.checked + 2 <= next <= |s.data| && j + 2 <= next
    ensures HandleLine(s.(checked := j), next) == HandleLine(s, next)
  {
    hide ParseRequestLine, CStr, ConnectionHeader, LengthHeader, TerminateLine;
  }

  /** The step depends on where the scan ends, not on where it begins. */
  lemma CursorMoved(s: Conn, j: nat)
    requires Inv(s) && Inv(s.(checked := j)) && s.phase != Content
    requires ScanLine(s.data, j) == ScanLine(s.data, s.checked)
    ensures LineStep(s.(checked := j)) == LineStep(s)
  {
    hide HandleLine;
    ScanStop(s.data, s.checked);
    ScanStop(s.data, j);
    if ScanLine(s.data, j).Line? {
      HandleLineAnywhere(s, j, ScanLine(s.data, j).next);
    }
  }

  lemma LineStepMore(s: Conn, c: string)
    requires Inv(s) && UrlEnded(s) && s.phase != Content
    ensures Inv(Feed(s, c))
    ensures match LineStep(s)
            case Again(t) => LineStep(Feed(s, c)) == Again(Feed(t, c))
            case Stop(t, o) =>
              if o == NoRequest then t.phase == s.phase && LineStep(Feed(t, c)) == LineStep(Feed(s, c))
              else LineStep(Feed(s, c)) == Stop(Feed(t, c), o)
  {
    hide HandleLine, ScanLine, TerminateLine, LineHandled;
    ScanMore(s.data, c, s.checked);
    ScanStop(s.data, s.checked);
    match ScanLine(s.data, s.checked)
    case Line(next) => HandleLineMore(s, c, next);
    case Open(j) => CursorMoved(Feed(s, c), j);
    case Bad(j) =>
      ScanFromStop(s.data, s.checked);
      ScanMore(s.data, c, j);
  }

  lemma TerminatedBodyMore(d: string, c: string, end: nat, url: nat, start: nat)
    requires url < start <= end <= |d| && StrEnd(d, url) < start
    ensures TerminateBody(d + c, end)[..end] == TerminateBody(d, end)[..end]
    ensures CStr(TerminateBody(d + c, end), url) == CStr(TerminateBody(d, end), url)
  {
    hide TerminateBody, CStr, StrEnd;
    assert (d + c)[..end] == d[..end];
    PrefixOf(TerminateBody(d, end), d, end, start);
    PrefixOf(TerminateBody(d + c, end), d, end, start);
    UrlKept(d, TerminateBody(d, end), url, start);
    UrlKept(d, TerminateBody(d + c, end), url, start);
  }

  lemma PrefixOf(a: string, b: string, end: nat, start: nat)
    requires start <= end <= |a| && end <= |b| && a[..end] == b[..end]
    ensures a[..start] == b[..start]
  {
    assert a[..start] == a[..end][..start];
    assert b[..start] == b[..end][..start];
  }

  lemma FinishBodyMore(s: Conn, c: string)
    requires Inv(s) && UrlEnded(s) && s.phase == Content && s.start == s.checked
    requires |s.data| >= s.checked + s.contentLength && Inv(Feed(s, c))
    ensures FinishBody(Feed(s, c), s.start).1 == FinishBody(s, s.start).1
    ensures SameProgress(FinishBody(Feed(s, c), s.start).0, FinishBody(s, s.start).0)
  {
    hide CStr, TerminateBody, StrEnd;
    var end := s.start + s.contentLength;
    if s.contentLength >= 0 && end < READ_BUFFER_SIZE {
      TerminatedBodyMore(s.data, c, end, s.url, s.start);
    }
  }

  lemma ContentStepMore(s: Conn, c: string)
    requires Inv(s) && UrlEnded(s) && s.phase == Content && s.start == s.checked && Inv(Feed(s, c))
    ensures var r := ContentStep(Repaired, s);
            r.Stop? &&
            if r.outcome == NoRequest then r.conn == s
            else
              var rc := ContentStep(Repaired, Feed(s, c));
              rc.Stop? && rc.outcome == r.outcome && SameProgress(rc.conn, r.conn)
  {
    hide ScanLine, FinishBody, UrlEnded, SameProgress;
    if |s.data| >= s.checked + s.contentLength {
      FinishBodyMore(s, c);
    }
  }

  // ---------- A whole run of the parser with more bytes behind it ----------

  /** A request that is complete stays the same, and one that is not is taken up where it was left. */
  lemma {:induction false} ProcessMore(s: Conn, c: string)
    requires Inv(s) && Resumable(s) && Inv(Feed(s, c)) && Inv(Feed(Process(Repaired, s).0, c))
    ensures Resumable(Process(Repaired, s).0)
    ensures var (t, o) := Process(Repaired, s);
            if o == NoRequest then Process(Repaired, Feed(s, c)) == Process(Repaired, Feed(t, c))
            else Process(Repaired, Feed(s, c)).1 == o && SameProgress(Process(Repaired, Feed(s, c)).0, t)
    decreases |s.data| - s.checked
  {
    hide LineStep, ContentStep;
    FeedKeeps(s, c);
    StepResumable(Repaired, s);
    if s.phase == Content {
      ContentStepMore(s, c);
    } else {
      LineStepMore(s, c);
      match LineStep(s)
      case Again(t) => ProcessMore(t, c);
      case Stop(t, o) =>
    }
  }

  lemma FeedTwice(s: Conn, a: string, b: string)
    ensures Feed(Feed(s, a), b) == Feed(s, a + b)
    ensures Feed(s, "") == s
  {
    assert s.data + a + b == s.data + (a + b);
    assert s.data + "" == s.data;
  }

  /** A state that is left behind when process_read has returned NO_REQUEST. */
  ghost predicate Settled(s: Conn) {
    Inv(s) && Resumable(s) && Process(Repaired, s).1 == NoRequest
  }

  lemma SettledAfter(s: Conn)
    requires Inv(s) && Resumable(s) && Process(Repaired, s).1 == NoRequest
    ensures Settled(Process(Repaired, s).0)
  {
    hide TakeStep;
    ProcessMore(s, "");
    FeedTwice(s, "", "");
    FeedTwice(Process(Repaired, s).0, "", "");
  }

  lemma {:induction false} RunIsProcess(s: Conn, chunks: seq<string>)
    requires Settled(s)
    ensures Inv(Feed(s, Stream(chunks)))
    ensures Run(Repaired, s, chunks).1 == Process(Repaired, Feed(s, Stream(chunks))).1
    decreases |chunks|
  {
    hide TakeStep;
    FeedKeeps(s, Stream(chunks));
    if chunks == [] {
      FeedTwice(s, "", "");
    } else {
      var s1, rest := Feed(s, chunks[0]), Stream(chunks[1..]);
      FeedTwice(s, chunks[0], rest);
      FeedKeeps(s, chunks[0]);
      ProcessMore(s1, rest);
      if Process(Repaired, s1).1 == NoRequest {
        SettledAfter(s1);
        RunIsProcess(Process(Repaired, s1).0, chunks[1..]);
      }
    }
  }

  lemma FreshSettled()
    ensures Settled(FRESH)
  {
  }

  /** However the bytes were split, the outcome is that of one run over all of them. */
  lemma ChunkingIndependence(chunks: seq<string>)
    ensures Run(Repaired, FRESH, chunks).1 == WholeRun(Repaired, Stream(chunks)).1
  {
    hide Process, Run, Settled;
    FreshSettled();
    RunIsProcess(FRESH, chunks);
  }
}
