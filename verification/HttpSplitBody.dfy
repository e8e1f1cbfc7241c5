/**
The parser as it is written: when a read ends inside the body, the bytes of the body that have arrived are
scanned for line ends and the cursor moves into the body. This module shows exactly when that matters.
*/
module HttpSplitBody {
  import opened CStrings
  import opened SourceVersion
  import opened HttpRequest
  import opened HttpChunking

  /** Whether the line scanner, started on this nonempty first part of a body, consumes any of it. */
  predicate ConsumedAsLine(part: string) {
    && part != ""
    && part[0] != '\n'
    && !(part[0] == '\r' && (|part| == 1 || part[1] != '\n'))
  }

  /** Whether a read that ends after n bytes leaves a part of the body that the scanner consumes. */
  predicate CutsBody(stream: string, bodyStart: nat, bodyEnd: nat, n: nat)
    requires bodyEnd <= |stream|
  {
    bodyStart < n < bodyEnd && ConsumedAsLine(stream[bodyStart..n])
  }

  // ---------- Bytes that have not been parsed ----------

  lemma LineKeepsTail(s: Conn, next: nat)
    requires Inv(s) && s.phase != Content && s.checked + 2 <= next <= |s.data|
    ensures HandleLine(s, next).0.data[next..] == s.data[next..]
  {
    hide ParseRequestLine, CStr;
    var d := TerminateLine(s.data, next);
    assert d[next..] == s.data[next..];
    if s.phase == RequestLine {
      var r := ParseRequestLine(d[..next], s.start);
      assert (r.bytes + d[next..])[next..] == d[next..];
    }
  }

  lemma TailFrom(a: string, b: string, i: nat, j: nat)
    requires i <= j <= |a| == |b| && a[i..] == b[i..]
    ensures a[j..] == b[j..]
  {
    assert a[j..] == a[i..][j - i..];
    assert b[j..] == b[i..][j - i..];
  }

  /** Apart from the NUL that ends a complete body, bytes at and after the cursor are never written. */
  lemma {:induction false} UnparsedUntouched(s: Conn)
    requires Inv(s)
    ensures var (t, o) := Process(Repaired, s);
            o == NoRequest ==> t.data[t.checked..] == s.data[t.checked..]
    decreases |s.data| - s.checked
  {
    hide HandleLine, CStr;
    match TakeStep(Repaired, s)
    case Again(t) =>
      ScanStop(s.data, s.checked);
      LineKeepsTail(s, t.checked);
      UnparsedUntouched(t);
      var (u, o) := Process(Repaired, t);
      if o == NoRequest {
        TailFrom(s.data, t.data, t.checked, u.checked);
      }
    case Stop(t, o) =>
  }

  // ---------- One call of the code as written ----------

  /** The same as the repaired code, unless it stops inside a body of which the scanner consumes a part. */
  lemma {:induction false} OneCall(s: Conn)
    requires Inv(s) && Resumable(s)
    ensures var (t, o) := Process(Repaired, s);
            var (u, p) := Process(AsWritten, s);
            if o == NoRequest && t.phase == Content && ConsumedAsLine(t.data[t.checked..]) then
              p == NoRequest && u.phase == Content && u.checked > t.checked && u.contentLength == t.contentLength
            else u == t && p == o
    decreases |s.data| - s.checked
  {
    hide HandleLine, CStr;
    StepResumable(Repaired, s);
    if s.phase == Content {
      ContentCall(s);
    } else {
      match LineStep(s)
      case Again(t) => OneCall(t);
      case Stop(t, o) =>
        LineStepPhase(s);
    }
  }

  lemma LineStepPhase(s: Conn)
    requires Inv(s) && s.phase != Content
    ensures LineStep(s).Stop? ==> LineStep(s).conn.phase != Content
  {
    hide ParseRequestLine, CStr;
  }

  lemma ContentCall(s: Conn)
    requires Inv(s) && Resumable(s) && s.phase == Content
    ensures var (u, p) := Process(AsWritten, s);
            if s.contentLength > |s.data| - s.checked && ConsumedAsLine(s.data[s.checked..]) then
              p == NoRequest && u.phase == Content && u.checked > s.checked && u.contentLength == s.contentLength
            else (u, p) == Process(Repaired, s)
  {
    hide LineStep, ContentStep, ConsumedAsLine, UrlEnded;
    IncompleteStep(s);
    if s.contentLength > |s.data| - s.checked && ContentStep(AsWritten, s).Again? {
      StaysIncomplete(ContentStep(AsWritten, s).conn);
    }
  }

  lemma IncompleteStep(s: Conn)
    requires Inv(s) && s.start == s.checked && s.phase == Content
    ensures ContentStep(Repaired, s).Stop?
    ensures if s.contentLength > |s.data| - s.checked then
              && ContentStep(Repaired, s) == Stop(s, NoRequest)
              && var r := ContentStep(AsWritten, s);
                 && r.conn.phase == Content && r.conn.contentLength == s.contentLength
                 && (r.Stop? ==> r.outcome == NoRequest)
                 && if ConsumedAsLine(s.data[s.checked..]) then r.conn.checked > s.checked
                    else r == Stop(s, NoRequest)
            else ContentStep(AsWritten, s) == ContentStep(Repaired, s)
  {
    hide FinishBody, ScanLine, ConsumedAsLine;
    if s.contentLength > |s.data| - s.checked {
      ScanStart(s.data, s.checked);
    }
  }

  lemma ScanStart(d: string, i: nat)
    requires i <= |d| && (i == 0 || d[i - 1] != '\r')
    ensures ConsumedAsLine(d[i..]) <==> (ScanLine(d, i).Line? || ScanLine(d, i).pos > i)
  {
    if i < |d| && d[i] != '\r' && d[i] != '\n' {
      ScanStop(d, i + 1);
    }
  }

  /** Scanning a body does not complete it: the cursor only moves away from its start. */
  lemma {:induction false} StaysIncomplete(s: Conn)
    requires Inv(s) && s.phase == Content && s.contentLength > |s.data| - s.checked
    ensures var (u, p) := Process(AsWritten, s);
            p == NoRequest && u.phase == Content && u.contentLength == s.contentLength && u.checked >= s.checked
    decreases |s.data| - s.checked
  {
    hide CStr;
    match ContentStep(AsWritten, s)
    case Again(t) => StaysIncomplete(t);
    case Stop(t, o) =>
  }

  lemma {:induction false} StuckRun(s: Conn, chunks: seq<string>)
    requires Inv(s) && s.phase == Content && s.contentLength > |s.data| + |Stream(chunks)| - s.checked
    ensures Run(AsWritten, s, chunks).1 == NoRequest
    decreases |chunks|
  {
    hide TakeStep;
    if chunks != [] {
      var s1 := Feed(s, chunks[0]);
      FeedInv(s, chunks[0]);
      StaysIncomplete(s1);
      StuckRun(Process(AsWritten, s1).0, chunks[1..]);
    }
  }

  lemma FeedInv(s: Conn, c: string)
    requires Inv(s)
    ensures Inv(Feed(s, c))
  {
  }

  // ---------- Where the body starts ----------

  lemma {:induction false} NextLineEnd(d: string, c: string, i: nat)
    requires i <= |d|
    ensures ScanLine(d, i).Open? && ScanLine(d + c, i).Line? ==> ScanLine(d + c, i).next > |d|
    ensures ScanLine(d, i).Bad? ==> ScanLine(d + c, i).Bad?
    decreases |d| - i
  {
    if i < |d| && d[i] != '\r' && d[i] != '\n' {
      NextLineEnd(d, c, i + 1);
    }
  }

  /** If the headers are not complete yet, the body starts after everything received so far. */
  lemma BodyIsLater(s: Conn, c: string)
    requires Inv(s) && Settled(s) && s.phase != Content
    requires Inv(Feed(s, c))
    requires LineStep(s).Stop?
    ensures var (w, o) := Process(Repaired, Feed(s, c));
            w.phase == Content ==> w.checked > |s.data|
  {
    hide HandleLine;
    NextLineEnd(s.data, c, s.checked);
    ScanStop(s.data, s.checked);
    LineStepPhase(Feed(s, c));
  }

  /** Once in the body, the repaired parser stays at its start. */
  lemma BodyIsHere(s: Conn, c: string)
    requires Inv(s) && Resumable(s) && s.phase == Content && Inv(Feed(s, c))
    ensures SameProgress(Process(Repaired, Feed(s, c)).0, s)
  {
    hide CStr;
  }

  lemma {:induction false} SettledStops(s: Conn)
    requires Inv(s)
    ensures var (t, o) := Process(Repaired, s);
            o == NoRequest && t.phase != Content ==> LineStep(t).Stop?
    decreases |s.data| - s.checked
  {
    hide HandleLine, CStr;
    match TakeStep(Repaired, s)
    case Again(t) => SettledStops(t);
    case Stop(t, o) => ScanFromStop(s.data, s.checked); ScanStop(s.data, s.checked);
  }

  lemma {:induction false} CompleteBody(s: Conn)
    requires Inv(s)
    ensures var (t, o) := Process(Repaired, s);
            t.phase == Content ==> (o == NoRequest <==> |s.data| < t.checked + t.contentLength)
    decreases |s.data| - s.checked
  {
    hide HandleLine, CStr;
    match TakeStep(Repaired, s)
    case Again(t) => CompleteBody(t);
    case Stop(t, o) => if s.phase != Content { LineStepPhase(s); }
  }

  // ---------- A run of the code as written ----------

  /** No read before the last one ends in the body with a part of it that the scanner consumes. */
  ghost predicate NoCut(stream: string, bodyStart: nat, bodyEnd: nat, received: nat, chunks: seq<string>)
    requires bodyEnd <= |stream|
    decreases |chunks|
  {
    |chunks| > 1 ==>
      var n := received + |chunks[0]|;
      !CutsBody(stream, bodyStart, bodyEnd, n) && NoCut(stream, bodyStart, bodyEnd, n, chunks[1..])
  }

  lemma {:induction false} NoCutDependsOnBody(stream: string, stream': string, bodyStart: nat, bodyEnd: nat,
                                                received: nat, chunks: seq<string>)
    requires bodyStart <= bodyEnd <= |stream| == |stream'| && stream[bodyStart..] == stream'[bodyStart..]
    ensures NoCut(stream, bodyStart, bodyEnd, received, chunks) == NoCut(stream', bodyStart, bodyEnd, received, chunks)
    decreases |chunks|
  {
    if |chunks| > 1 {
      var n := received + |chunks[0]|;
      if bodyStart < n < bodyEnd {
        assert stream[bodyStart..n] == stream[bodyStart..][..n - bodyStart];
        assert stream'[bodyStart..n] == stream'[bodyStart..][..n - bodyStart];
      }
      NoCutDependsOnBody(stream, stream', bodyStart, bodyEnd, n, chunks[1..]);
    }
  }

  /** A request that has been found complete and has a body. */
  ghost predicate HasBody(r: (Conn, Outcome)) {
    && r.1 != NoRequest && r.0.phase == Content && r.0.contentLength > 0
    && |r.0.data| >= r.0.checked + r.0.contentLength
  }

  /** What is known between one read, which left t, and the rest of the run. */
  lemma AfterOneRead(s1: Conn, t: Conn, rest: string)
    requires Inv(s1) && Resumable(s1) && Process(Repaired, s1) == (t, NoRequest)
    requires Inv(Feed(t, rest)) && HasBody(Process(Repaired, Feed(t, rest)))
    ensures var (w, o) := Process(Repaired, Feed(t, rest));
            var stream := s1.data + rest;
            && (t.phase == Content ==> SameProgress(w, t))
            && w.checked + w.contentLength <= |stream|
            && (CutsBody(stream, w.checked, w.checked + w.contentLength, |s1.data|) <==>
                t.phase == Content && ConsumedAsLine(t.data[t.checked..]))
            && stream[w.checked..] == (t.data + rest)[w.checked..]
  {
    hide TakeStep, ConsumedAsLine, LineStep;
    SettledAfter(s1);
    SettledStops(s1);
    CompleteBody(s1);
    UnparsedUntouched(s1);
    var b := Process(Repaired, Feed(t, rest)).0.checked;
    TailAppended(s1.data, t.data, rest, t.checked, b);
    if t.phase == Content {
      BodyIsHere(t, rest);
      if b < |s1.data| {
        assert (s1.data + rest)[b..|s1.data|] == s1.data[b..];
      } else {
        assert t.data[t.checked..] == "";
        NothingConsumed();
      }
    } else {
      BodyIsLater(t, rest);
    }
  }

  lemma NothingConsumed()
    ensures !ConsumedAsLine("")
  {
  }

  lemma TailAppended(d: string, d': string, rest: string, i: nat, b: nat)
    requires i <= |d| == |d'| && d[i..] == d'[i..] && i <= b <= |d| + |rest|
    ensures (d + rest)[b..] == (d' + rest)[b..]
  {
    if b <= |d| {
      assert d[b..] == d[i..][b - i..];
      assert d'[b..] == d'[i..][b - i..];
      assert (d + rest)[b..] == d[b..] + rest;
      assert (d' + rest)[b..] == d'[b..] + rest;
    } else {
      assert (d + rest)[b..] == rest[b - |d|..];
      assert (d' + rest)[b..] == rest[b - |d|..];
    }
  }

  /**
  How the outcome of a run of the code as written relates to the result r of one run over all the bytes:
  it is the same, unless the request has a body and a read cuts it; and a request that nothing follows is
  then never found complete.
  */
  ghost predicate AgreesUnlessCut(stream: string, received: nat, chunks: seq<string>,
                                  r: (Conn, Outcome), outcome: Outcome) {
    if HasBody(r) then
      var start, end := r.0.checked, r.0.checked + r.0.contentLength;
      && end <= |stream|
      && (NoCut(stream, start, end, received, chunks) ==> outcome == r.1)
      && (!NoCut(stream, start, end, received, chunks) && |stream| == end ==> outcome == NoRequest)
    else outcome == r.1
  }

  /** One read, which left t, in front of a run. */
  lemma AgreesStep(s1: Conn, t: Conn, chunks: seq<string>, outcome: Outcome)
    requires chunks != [] && |s1.data| >= |chunks[0]|
    requires Inv(s1) && Resumable(s1) && Process(Repaired, s1) == (t, NoRequest)
    requires Inv(Feed(t, Stream(chunks[1..])))
    requires var r := Process(Repaired, Feed(t, Stream(chunks[1..])));
             if t.phase == Content && ConsumedAsLine(t.data[t.checked..]) then
               if HasBody(r) then
                 |t.data| + |Stream(chunks[1..])| == r.0.checked + r.0.contentLength ==> outcome == NoRequest
               else outcome == r.1
             else AgreesUnlessCut(t.data + Stream(chunks[1..]), |t.data|, chunks[1..], r, outcome)
    ensures AgreesUnlessCut(s1.data + Stream(chunks[1..]), |s1.data| - |chunks[0]|, chunks,
                            Process(Repaired, Feed(t, Stream(chunks[1..]))), outcome)
  {
    hide TakeStep, ConsumedAsLine, CutsBody, Process;
    var rest := Stream(chunks[1..]);
    var r := Process(Repaired, Feed(t, rest));
    if HasBody(r) {
      AfterOneRead(s1, t, rest);
      NoCutDependsOnBody(s1.data + rest, t.data + rest, r.0.checked, r.0.checked + r.0.contentLength,
                         |s1.data|, chunks[1..]);
      if |chunks| == 1 {
        NothingLeft(s1, t);
      }
    }
  }

  lemma NothingLeft(s1: Conn, t: Conn)
    requires Inv(s1) && Resumable(s1) && Process(Repaired, s1) == (t, NoRequest)
    ensures Inv(Feed(t, "")) && Process(Repaired, Feed(t, "")).1 == NoRequest
  {
    hide TakeStep;
    SettledAfter(s1);
    FeedTwice(t, "", "");
  }

  /** The run of the code as written, from a state that the repaired code leaves behind. */
  lemma {:induction false} RunAsWritten(s: Conn, chunks: seq<string>)
    requires Settled(s) && Inv(Feed(s, Stream(chunks)))
    ensures AgreesUnlessCut(s.data + Stream(chunks), |s.data|, chunks,
                            Process(Repaired, Feed(s, Stream(chunks))), Run(AsWritten, s, chunks).1)
    decreases |chunks|
  {
    hide TakeStep, ConsumedAsLine, AgreesUnlessCut, HasBody, Process, Resumable;
    if chunks == [] {
      FeedTwice(s, "", "");
      EmptyRun(s);
    } else {
      var c, rest := chunks[0], Stream(chunks[1..]);
      var s1 := Feed(s, c);
      FeedTwice(s, c, rest);
      FeedKeeps(s, c);
      ProcessMore(s1, rest);
      OneCall(s1);
      var (t, o) := Process(Repaired, s1);
      assert s.data + Stream(chunks) == s1.data + rest;
      if o != NoRequest {
        CompleteAtOnce(s1, chunks);
      } else {
        SettledAfter(s1);
        FeedKeeps(t, rest);
        if t.phase == Content && ConsumedAsLine(t.data[t.checked..]) {
          LeftInBody(s1, t, chunks[1..]);
        } else {
          RunAsWritten(t, chunks[1..]);
        }
        AgreesStep(s1, t, chunks, Run(AsWritten, s, chunks).1);
      }
    }
  }

  lemma EmptyRun(s: Conn)
    requires Inv(Feed(s, "")) && Settled(s)
    ensures AgreesUnlessCut(s.data + "", |s.data|, [], Process(Repaired, Feed(s, "")), NoRequest)
  {
    hide TakeStep, Process, Resumable, NoCut;
    FeedTwice(s, "", "");
  }

  lemma CompleteAtOnce(s1: Conn, chunks: seq<string>)
    requires chunks != [] && |s1.data| >= |chunks[0]|
    requires Inv(s1) && Resumable(s1) && Inv(Feed(s1, Stream(chunks[1..]))) && Process(Repaired, s1).1 != NoRequest
    ensures AgreesUnlessCut(s1.data + Stream(chunks[1..]), |s1.data| - |chunks[0]|, chunks,
                            Process(Repaired, Feed(s1, Stream(chunks[1..]))), Process(Repaired, s1).1)
  {
    hide *;
    var rest := Stream(chunks[1..]);
    FeedKeeps(Process(Repaired, s1).0, rest);
    ProcessMore(s1, rest);
    FinishedHasBody(s1, rest);
    CompleteAgrees(s1.data + rest, |s1.data|, chunks, Process(Repaired, s1), Process(Repaired, Feed(s1, rest)));
  }

  lemma CompleteAgrees(stream: string, received: nat, chunks: seq<string>, r: (Conn, Outcome), r': (Conn, Outcome))
    requires chunks != [] && |chunks[0]| <= received <= |stream| && |r.0.data| == received
    requires r.1 == r'.1 && SameProgress(r'.0, r.0) && (HasBody(r) <==> HasBody(r'))
    ensures AgreesUnlessCut(stream, received - |chunks[0]|, chunks, r', r.1)
  {
    hide CutsBody, NoCut;
    if HasBody(r) {
      var end := r.0.checked + r.0.contentLength;
      NoCutAtEnd(stream, r.0.checked, end, received - |chunks[0]|, chunks);
    }
  }

  lemma FinishedHasBody(s1: Conn, rest: string)
    requires Inv(s1) && Resumable(s1) && Inv(Feed(s1, rest)) && Process(Repaired, s1).1 != NoRequest
    ensures HasBody(Process(Repaired, s1)) <==> HasBody(Process(Repaired, Feed(s1, rest)))
  {
    hide TakeStep;
    ProcessMore(s1, rest);
    CompleteBody(s1);
    CompleteBody(Feed(s1, rest));
  }

  /** After a cut body the code as written needs more bytes than the request has. */
  lemma LeftInBody(s1: Conn, t: Conn, chunks: seq<string>)
    requires Inv(s1) && Resumable(s1) && Process(Repaired, s1) == (t, NoRequest)
    requires t.phase == Content && ConsumedAsLine(t.data[t.checked..])
    requires Inv(Feed(t, Stream(chunks)))
    ensures var r := Process(Repaired, Feed(t, Stream(chunks)));
            if HasBody(r) then
              |t.data| + |Stream(chunks)| == r.0.checked + r.0.contentLength ==>
              Run(AsWritten, Process(AsWritten, s1).0, chunks).1 == NoRequest
            else Run(AsWritten, Process(AsWritten, s1).0, chunks).1 == r.1
  {
    hide TakeStep, ConsumedAsLine;
    SettledAfter(s1);
    OneCall(s1);
    CompleteBody(s1);
    BodyIsHere(t, Stream(chunks));
    CompleteBody(Feed(t, Stream(chunks)));
    var u := Process(AsWritten, s1).0;
    if |t.data| + |Stream(chunks)| <= t.checked + t.contentLength {
      StuckRun(u, chunks);
    }
  }

  lemma {:induction false} NoCutAtEnd(stream: string, bodyStart: nat, bodyEnd: nat,
                                        received: nat, chunks: seq<string>)
    requires chunks != [] && received + |chunks[0]| >= bodyEnd && bodyEnd <= |stream|
    ensures NoCut(stream, bodyStart, bodyEnd, received, chunks)
    decreases |chunks|
  {
    if |chunks| > 1 {
      NoCutAtEnd(stream, bodyStart, bodyEnd, received + |chunks[0]|, chunks[1..]);
    }
  }

  /**
  The code as written, split in any way. On a stream that begins with a complete request that has a body it
  gives the outcome of one run over the whole stream if no read cuts the body; when nothing follows the
  request, a cut body means that the request never completes. On every other stream the split is irrelevant.
  */
  lemma AsWrittenIndependence(chunks: seq<string>)
    ensures AgreesUnlessCut(Stream(chunks), 0, chunks,
                            WholeRun(AsWritten, Stream(chunks)), Run(AsWritten, FRESH, chunks).1)
  {
    hide TakeStep, CutsBody;
    FreshSettled();
    FeedKeeps(FRESH, Stream(chunks));
    OneCall(Feed(FRESH, Stream(chunks)));
    assert "" + Stream(chunks) == Stream(chunks);
    RunAsWritten(FRESH, chunks);
  }
}
