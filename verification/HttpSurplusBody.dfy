/**
What the code as written hands over when a read ends inside the body, exactly, also when bytes follow the request.

After a read that leaves the body incomplete, the next line start is the cursor, and the cursor is where the line
scanner stops. A later read completes the body if the announced length has arrived behind the cursor, and then the
body is taken from the line start.
*/
module HttpSurplusBody {
  import opened CStrings
  import opened SourceVersion
  import opened HttpRequest
  import opened HttpChunking
  import opened HttpSplitBody

  /** Positions count from where the body starts. */
  datatype Call = More(bytes: string, start: nat, checked: nat) | Found(start: nat, window: string)

  /** One call of process_read, for a body of n bytes of which d has arrived. */
  function BodyCall(d: string, start: nat, checked: nat, n: nat): (r: Call)
    requires start <= checked <= |d| && n > 0
    ensures r.More? ==> r.start <= r.checked <= |r.bytes| == |d|
    decreases |d| - checked
  {
    if |d| >= checked + n then Found(start, CStr(d[..start + n], start))
    else
      match ScanLine(d, checked)
      case Open(j) => More(d, checked, j)
      case Bad(j) => More(d, checked, j)
      case Line(next) => BodyCall(TerminateLine(d, next), checked, next, n)
  }

  datatype BodyEnd = Waiting | Done(start: nat, window: string)

  /** A call after each of the parts in which the body, and what follows it, arrives. */
  function BodyRun(bytes: string, start: nat, checked: nat, n: nat, parts: seq<string>): BodyEnd
    requires start <= checked <= |bytes| && n > 0
    decreases |parts|, 0
  {
    if parts == [] then Waiting else AfterCall(BodyCall(bytes + parts[0], start, checked, n), n, parts[1..])
  }

  function AfterCall(c: Call, n: nat, parts: seq<string>): BodyEnd
    requires n > 0 && (c.More? ==> c.start <= c.checked <= |c.bytes|)
    decreases |parts|, 1
  {
    match c
    case Found(text, window) => Done(text, window)
    case More(d, s, ck) => BodyRun(d, s, ck, n, parts)
  }

  function WholeBody(n: nat, parts: seq<string>): BodyEnd
    requires n > 0
  {
    BodyRun("", 0, 0, n, parts)
  }

  function FirstPart(n: nat, part: string): (c: Call)
    requires n > 0
    ensures c.More? ==> c.start <= c.checked <= |c.bytes|
  {
    BodyCall(part, 0, 0, n)
  }

  /** The parts in which the bytes from the b-th on arrive, when received bytes have gone before. */
  function BodyParts(b: nat, received: nat, chunks: seq<string>): seq<string>
    requires received <= b
    decreases |chunks|
  {
    if chunks == [] then []
    else if received + |chunks[0]| < b then BodyParts(b, received + |chunks[0]|, chunks[1..])
    else [chunks[0][b - received..]] + chunks[1..]
  }

  /** What do_request is called with, if the body begins at b. */
  function BodyOutcome(s: Conn, b: nat, n: nat, r: BodyEnd): Outcome
    requires s.url <= |s.data|
  {
    match r
    case Waiting => NoRequest
    case Done(start, window) =>
      if b + start + n >= READ_BUFFER_SIZE then StrayTerminator
      else Request(s.post, CStr(s.data, s.url), s.keepAlive, Some(window))
  }

  // ---------- One call ----------

  /** A line end in the body is found where it is found in the buffer. */
  lemma {:induction false} ScanShift(d: string, b: nat, i: nat)
    requires b <= i <= |d| && (i > 0 ==> d[i - 1] != '\r')
    ensures match ScanLine(d[b..], i - b)
            case Open(j) => ScanLine(d, i) == Open(b + j)
            case Bad(j) => ScanLine(d, i) == Bad(b + j)
            case Line(next) => ScanLine(d, i) == Line(b + next) && i + 2 <= b + next
    decreases |d| - i
  {
    if i < |d| && d[i] != '\r' && d[i] != '\n' {
      ScanShift(d, b, i + 1);
    }
  }

  lemma SliceOfSlice(d: string, lo: nat, hi: nat, i: nat, e: nat)
    requires lo <= hi <= |d| && i <= e <= hi - lo
    ensures d[lo..hi][i..e] == d[lo + i..lo + e]
  {
    var x, y := d[lo..hi][i..e], d[lo + i..lo + e];
    forall k | 0 <= k < e - i
      ensures x[k] == y[k]
    {
      assert x[k] == d[lo..hi][i + k];
    }
  }

  lemma CStrShift(d: string, b: nat, i: nat, end: nat)
    requires b <= i <= end <= |d|
    ensures CStr(d[b..][..end - b], i - b) == CStr(d[..end], i)
  {
    var e := StrEnd(d[..end], i);
    StrEndIs(d[b..][..end - b], i - b, e - b);
    SliceOfSlice(d, b, end, i - b, e - b);
    SliceOfSlice(d, 0, end, i, e);
    assert d[b..][..end - b] == d[b..end];
  }

  lemma TerminateShift(d: string, b: nat, next: nat)
    requires b + 2 <= next <= |d|
    ensures TerminateLine(d, next)[b..] == TerminateLine(d[b..], next - b)
    ensures TerminateLine(d, next)[..b] == d[..b]
  {
  }

  /** The connection is in its body, which begins at b behind the URL. */
  ghost predicate InBodyFrom(s: Conn, b: nat) {
    && Inv(s) && s.phase == Content && s.contentLength > 0
    && b <= s.start && s.url < b && StrEnd(s.data, s.url) < b
  }

  /** s has gone on to t without touching what is in front of the body. */
  ghost predicate WentOn(s: Conn, t: Conn, b: nat) {
    && InBodyFrom(t, b) && |t.data| >= |s.data| >= b
    && t == s.(data := t.data, start := t.start, checked := t.checked)
    && CStr(t.data, t.url) == CStr(s.data, s.url)
  }

  lemma Untouched(s: Conn, t: Conn, b: nat)
    requires InBodyFrom(s, b) && Inv(t) && t == s.(data := t.data, start := t.start, checked := t.checked)
    requires |t.data| >= |s.data| && t.data[..b] == s.data[..b] && b <= t.start
    ensures WentOn(s, t, b)
  {
    hide CStr, StrEnd;
    UrlKept(s.data, t.data, s.url, b);
  }

  lemma FoundOutcome(s: Conn, b: nat)
    requires InBodyFrom(s, b) && |s.data| >= s.checked + s.contentLength
    ensures var n, text := s.contentLength, s.start - b;
            FinishBody(s.(start := s.checked), s.start).1 ==
            BodyOutcome(s, b, n, Done(text, CStr(s.data[b..][..text + n], text)))
  {
    hide CStr, StrEnd;
    var end := s.start + s.contentLength;
    CStrShift(s.data, b, s.start, end);
    var d := TerminateBody(s.data, end);
    assert d[..b] == d[..end][..b] == s.data[..b];
    UrlKept(s.data, d, s.url, b);
  }

  /** One step of the code as written in an incomplete body. */
  lemma IncompleteAt(s: Conn, b: nat)
    requires InBodyFrom(s, b) && |s.data| < s.checked + s.contentLength
    ensures var r := TakeStep(AsWritten, s);
            && WentOn(s, r.conn, b) && r.conn.start == s.checked
            && (r.Stop? ==> r.outcome == NoRequest)
            && match ScanLine(s.data[b..], s.checked - b)
               case Open(j) => r.Stop? && r.conn.checked == b + j && r.conn.data == s.data
               case Bad(j) => r.Stop? && r.conn.checked == b + j && r.conn.data == s.data
               case Line(next) =>
                 && r.Again? && r.conn.checked == b + next
                 && r.conn.data[b..] == TerminateLine(s.data[b..], next)
  {
    hide FinishBody, CStr, StrEnd, ScanLine, TerminateLine;
    ScanShift(s.data, b, s.checked);
    var t := TakeStep(AsWritten, s).conn;
    if ScanLine(s.data, s.checked).Line? {
      TerminateShift(s.data, b, ScanLine(s.data, s.checked).next);
    }
    Untouched(s, t, b);
  }

  lemma SameOutcome(s: Conn, t: Conn, b: nat, n: nat, r: BodyEnd)
    requires s.url <= |s.data| && t.url <= |t.data| && CStr(s.data, s.url) == CStr(t.data, t.url)
    requires s.post == t.post && s.keepAlive == t.keepAlive
    ensures BodyOutcome(s, b, n, r) == BodyOutcome(t, b, n, r)
  {
  }

  lemma CompleteAt(s: Conn, b: nat)
    requires InBodyFrom(s, b) && |s.data| >= s.checked + s.contentLength
    ensures var n, text := s.contentLength, s.start - b;
            Process(AsWritten, s).1 == BodyOutcome(s, b, n, Done(text, CStr(s.data[b..][..text + n], text)))
  {
    hide FinishBody, CStr, StrEnd, BodyOutcome;
    FoundOutcome(s, b);
  }

  /** What the call of process_read makes of s, if BodyCall makes c of it. */
  ghost predicate CallAgrees(s: Conn, b: nat, c: Call)
    requires InBodyFrom(s, b)
  {
    var (t, o) := Process(AsWritten, s);
    match c
    case Found(text, window) => o == BodyOutcome(s, b, s.contentLength, Done(text, window))
    case More(d, st, ck) =>
      o == NoRequest && WentOn(s, t, b) && t.data[b..] == d && t.start == b + st && t.checked == b + ck
  }

  /** The call of process_read is the one that BodyCall describes. */
  lemma {:induction false} CallIs(s: Conn, b: nat)
    requires InBodyFrom(s, b)
    ensures CallAgrees(s, b, BodyCall(s.data[b..], s.start - b, s.checked - b, s.contentLength))
    decreases |s.data| - s.checked
  {
    hide TakeStep, CStr, StrEnd, ScanLine, TerminateLine, BodyOutcome, InBodyFrom, WentOn;
    InBodyFacts(s, b);
    if |s.data| >= s.checked + s.contentLength {
      CompleteAt(s, b);
    } else {
      IncompleteAt(s, b);
      var t := TakeStep(AsWritten, s).conn;
      WentOnFacts(s, t, b);
      if TakeStep(AsWritten, s).Again? {
        CallIs(t, b);
        CallFromHere(s, t, b, BodyCall(t.data[b..], t.start - b, t.checked - b, s.contentLength));
      }
    }
  }

  lemma InBodyFacts(s: Conn, b: nat)
    requires InBodyFrom(s, b)
    ensures Inv(s) && s.phase == Content && s.contentLength > 0 && b <= s.start && s.url < b <= |s.data|
  {
  }

  lemma WentOnFacts(s: Conn, t: Conn, b: nat)
    requires WentOn(s, t, b)
    ensures InBodyFrom(t, b) && t.contentLength == s.contentLength && |t.data| >= |s.data|
  {
  }

  lemma CallFromHere(s: Conn, t: Conn, b: nat, c: Call)
    requires InBodyFrom(s, b) && WentOn(s, t, b) && CallAgrees(t, b, c)
    requires Process(AsWritten, s) == Process(AsWritten, t)
    ensures CallAgrees(s, b, c)
  {
    hide Process, CStr, StrEnd;
  }

  /** A run that starts in the body. */
  lemma {:induction false} RunInBody(s: Conn, b: nat, chunks: seq<string>)
    requires InBodyFrom(s, b)
    ensures Run(AsWritten, s, chunks).1 ==
            BodyOutcome(s, b, s.contentLength,
                        BodyRun(s.data[b..], s.start - b, s.checked - b, s.contentLength, chunks))
    decreases |chunks|
  {
    hide Process, CStr, StrEnd, BodyCall, BodyOutcome, InBodyFrom;
    InBodyFacts(s, b);
    if chunks == [] {
      AnsweredIfFound(s, b, s.contentLength, Waiting);
    } else {
      var s1 := Feed(s, chunks[0]);
      Fed(s, b, chunks[0]);
      CallIs(s1, b);
      var t := Process(AsWritten, s1).0;
      OutcomeKept(s, s1, b);
      var c := BodyCall(s1.data[b..], s.start - b, s.checked - b, s.contentLength);
      var end := AfterCall(c, s.contentLength, chunks[1..]);
      SameOutcome(s, s1, b, s.contentLength, end);
      if c.More? {
        WentOnFacts(s1, t, b);
        OutcomeKept(s1, t, b);
        SameOutcome(s1, t, b, s.contentLength, end);
        RunInBody(t, b, chunks[1..]);
      } else {
        AnsweredIfFound(s1, b, s.contentLength, end);
      }
    }
  }

  lemma AnsweredIfFound(s: Conn, b: nat, n: nat, r: BodyEnd)
    requires s.url <= |s.data|
    ensures BodyOutcome(s, b, n, r) == NoRequest <==> r == Waiting
  {
  }

  lemma OutcomeKept(s: Conn, t: Conn, b: nat)
    requires s.url < b <= |s.data| && WentOn(s, t, b)
    ensures t.url <= |t.data| && CStr(s.data, s.url) == CStr(t.data, t.url)
    ensures s.post == t.post && s.keepAlive == t.keepAlive
  {
    hide CStr, StrEnd;
  }

  lemma Fed(s: Conn, b: nat, c: string)
    requires InBodyFrom(s, b)
    ensures WentOn(s, Feed(s, c), b) && InBodyFrom(Feed(s, c), b) && Feed(s, c).data[b..] == s.data[b..] + c
  {
    hide CStr, StrEnd;
    assert Feed(s, c).data[..b] == s.data[..b];
    Untouched(s, Feed(s, c), b);
  }

  // ---------- Up to the body ----------

  /** The code as written comes to the body like the repaired code, and goes on from there. */
  lemma {:induction false} ThroughHeaders(s: Conn)
    requires Inv(s) && Resumable(s)
    requires Process(Repaired, s).1 == NoRequest && Process(Repaired, s).0.phase == Content
    ensures Process(AsWritten, s) == Process(AsWritten, Process(Repaired, s).0)
    decreases |s.data| - s.checked
  {
    hide HandleLine, CStr, ScanLine, FinishBody;
    StepResumable(Repaired, s);
    if s.phase != Content {
      match LineStep(s)
      case Again(t) => ThroughHeaders(t);
      case Stop(t, o) => LineStepPhase(s);
    }
  }

  /** The body of the whole stream begins where the repaired code stands when it has come to the body. */
  lemma BodyBegins(s1: Conn, t: Conn, rest: string)
    requires Inv(s1) && Resumable(s1) && Process(Repaired, s1) == (t, NoRequest) && t.phase == Content
    requires Inv(Feed(t, rest)) && HasBody(Process(Repaired, Feed(t, rest)))
    ensures var w := Process(Repaired, Feed(t, rest)).0;
            && InBodyFrom(t, w.checked) && t.start == t.checked == w.checked
            && t.contentLength == w.contentLength && t.data[w.checked..] == s1.data[w.checked..]
            && w.url <= |w.data| && t.post == w.post && t.keepAlive == w.keepAlive
            && CStr(t.data, t.url) == CStr(w.data, w.url)
  {
    hide TakeStep, CStr, StrEnd;
    SettledAfter(s1);
    BodyIsHere(t, rest);
    UnparsedUntouched(s1);
    FeedKeeps(t, rest);
    FinishedFrom(Feed(t, rest), t);
  }

  lemma FinishedFrom(s: Conn, t: Conn)
    requires Inv(s) && Resumable(s) && s.phase == Content && HasBody(Process(Repaired, s))
    requires Inv(t) && Resumable(t) && t.phase == Content && |t.data| <= |s.data| && s.data[..|t.data|] == t.data
    requires t == s.(data := t.data)
    ensures var w := Process(Repaired, s).0;
            && w.url <= |w.data| && t.post == w.post && t.keepAlive == w.keepAlive
            && CStr(t.data, t.url) == CStr(w.data, w.url)
  {
    hide CStr, StrEnd, FinishBody;
    var w := Process(Repaired, s).0;
    FinishKeeps(s.(start := s.checked), s.start);
    assert t.data[..t.start] == s.data[..t.start] == w.data[..t.start];
    UrlKept(t.data, w.data, t.url, t.start);
  }

  lemma FinishKeeps(s: Conn, text: nat)
    requires Inv(s) && s.phase == Content && text <= s.checked
    requires |s.data| >= s.checked + s.contentLength
    ensures var w := FinishBody(s, text).0;
            w == s.(data := w.data) && w.data[..text] == s.data[..text] && |w.data| == |s.data|
  {
    hide CStr;
    if s.contentLength >= 0 {
      var end := text + s.contentLength;
      var d := TerminateBody(s.data, end);
      assert d[..text] == d[..end][..text];
    }
  }

  lemma PartsOf(b: nat, data: string, c: string, t: string, rest: seq<string>)
    requires |data| <= b <= |data + c| && t == (data + c)[b..]
    ensures BodyParts(b, |data|, [c] + rest) == [t] + rest
  {
    assert ([c] + rest)[1..] == rest;
    assert (data + c)[b..] == c[b - |data|..];
  }

  /** The run of the code as written, from a state in front of the body. */
  lemma {:induction false} RunFromHeaders(s: Conn, chunks: seq<string>)
    requires Settled(s) && s.phase != Content && LineStep(s).Stop? && Inv(Feed(s, Stream(chunks)))
    requires HasBody(Process(Repaired, Feed(s, Stream(chunks))))
    ensures var w := Process(Repaired, Feed(s, Stream(chunks))).0;
            && |s.data| <= w.checked && w.url <= |w.data|
            && Run(AsWritten, s, chunks).1 ==
               BodyOutcome(w, w.checked, w.contentLength,
                           WholeBody(w.contentLength, BodyParts(w.checked, |s.data|, chunks)))
    decreases |chunks|
  {
    hide TakeStep, LineStep, CStr, StrEnd, Process, Resumable, WholeBody, BodyParts, BodyOutcome, HasBody;
    BodyIsLaterHere(s, Stream(chunks));
    if chunks == [] {
      NoBodyYet(s);
    } else {
      var c, rest := chunks[0], Stream(chunks[1..]);
      var s1 := Feed(s, c);
      FeedTwice(s, c, rest);
      FeedKeeps(s, c);
      FeedKeeps(s, Stream(chunks));
      ProcessMore(s1, rest);
      OneCall(s1);
      var (t, o) := Process(Repaired, s1);
      if o != NoRequest {
        AtOnce(s, s1, chunks);
      } else {
        SettledAfter(s1);
        FeedKeeps(t, rest);
        if t.phase == Content {
          EnterBody(s, s1, t, chunks);
        } else {
          SettledStops(s1);
          BodyIsLaterHere(t, rest);
          RunFromHeaders(t, chunks[1..]);
          PartsLater(Process(Repaired, Feed(t, rest)).0.checked, |s.data|, chunks);
        }
      }
    }
  }

  lemma BodyIsLaterHere(s: Conn, more: string)
    requires Settled(s) && s.phase != Content && LineStep(s).Stop? && Inv(Feed(s, more))
    requires HasBody(Process(Repaired, Feed(s, more)))
    ensures |s.data| < Process(Repaired, Feed(s, more)).0.checked
  {
    hide LineStep, Process;
    BodyIsLater(s, more);
  }

  lemma CompletedHere(s: Conn)
    requires Inv(s) && Resumable(s) && s.phase == Content && HasBody(Process(Repaired, s))
    ensures var (w, o) := Process(Repaired, s);
            && w.url <= |w.data| && w.checked + w.contentLength <= |s.data| && s.checked <= w.checked
            && o == BodyOutcome(w, w.checked, w.contentLength,
                                Done(0, CStr(s.data[w.checked..][..w.contentLength], 0)))
  {
    hide CStr, StrEnd, FinishBody, BodyOutcome;
    var w := Process(Repaired, s).0;
    FinishKeeps(s.(start := s.checked), s.start);
    FinishedFrom(s, s);
    FoundOutcome(s, s.start);
    SameOutcome(s, w, s.start, s.contentLength, Done(0, CStr(s.data[w.checked..][..w.contentLength], 0)));
  }

  /** A body that is complete is handed over from its start. */
  lemma {:induction false} CompletedBody(s: Conn)
    requires Inv(s) && Resumable(s) && HasBody(Process(Repaired, s))
    ensures var (w, o) := Process(Repaired, s);
            && w.url <= |w.data| && w.checked + w.contentLength <= |s.data|
            && s.checked <= w.checked
            && o == BodyOutcome(w, w.checked, w.contentLength,
                                Done(0, CStr(s.data[w.checked..][..w.contentLength], 0)))
    decreases |s.data| - s.checked
  {
    hide HandleLine, CStr, StrEnd, FinishBody, ScanLine;
    StepResumable(Repaired, s);
    if s.phase == Content {
      CompletedHere(s);
    } else {
      match LineStep(s)
      case Again(t) =>
        CompletedBody(t);
        ScanStop(s.data, s.checked);
        LineKeepsTail(s, t.checked);
        TailFrom(s.data, t.data, t.checked, Process(Repaired, t).0.checked);
      case Stop(t, o) => LineStepPhase(s);
    }
  }

  /** The body is complete after the first read that brings any of it. */
  lemma AtOnce(s: Conn, s1: Conn, chunks: seq<string>)
    requires Settled(s) && s.phase != Content && chunks != [] && s1 == Feed(s, chunks[0])
    requires Inv(s1) && Resumable(s1) && Process(Repaired, s1).1 != NoRequest
    requires Feed(s, Stream(chunks)) == Feed(s1, Stream(chunks[1..])) && Inv(Feed(s, Stream(chunks)))
    requires Resumable(Feed(s, Stream(chunks))) && HasBody(Process(Repaired, Feed(s, Stream(chunks))))
    requires |s.data| <= Process(Repaired, Feed(s, Stream(chunks))).0.checked
    ensures var w := Process(Repaired, Feed(s, Stream(chunks))).0;
            && w.url <= |w.data|
            && Process(Repaired, s1).1 ==
               BodyOutcome(w, w.checked, w.contentLength,
                           WholeBody(w.contentLength, BodyParts(w.checked, |s.data|, chunks)))
  {
    hide TakeStep, Process, CStr, Resumable, WholeBody, FirstPart, BodyParts, BodyOutcome;
    var rest := Stream(chunks[1..]);
    var all := Feed(s, Stream(chunks));
    var w := Process(Repaired, all).0;
    var b, n := w.checked, w.contentLength;
    ProcessMore(s1, rest);
    FinishedHasBody(s1, rest);
    CompletedBody(all);
    var part := s1.data[b..];
    assert chunks == [chunks[0]] + chunks[1..];
    PartsOf(b, s.data, chunks[0], part, chunks[1..]);
    SamePart(s1.data, rest, b, n);
    FirstCall(n, part, chunks[1..]);
    FirstComplete(n, part);
  }

  lemma SamePart(d: string, rest: string, b: nat, n: nat)
    requires b + n <= |d|
    ensures (d + rest)[b..][..n] == d[b..][..n]
  {
  }

  lemma FirstComplete(n: nat, part: string)
    requires 0 < n <= |part|
    ensures FirstPart(n, part) == Found(0, CStr(part[..n], 0))
  {
    hide CStr;
  }

  /** The first read that brings some of the body leaves it incomplete. */
  lemma EnterBody(s: Conn, s1: Conn, t: Conn, chunks: seq<string>)
    requires Inv(s) && chunks != [] && s1 == Feed(s, chunks[0])
    requires Inv(s1) && Resumable(s1) && Process(Repaired, s1) == (t, NoRequest) && t.phase == Content
    requires Inv(Feed(t, Stream(chunks[1..]))) && HasBody(Process(Repaired, Feed(t, Stream(chunks[1..]))))
    requires |s.data| <= Process(Repaired, Feed(t, Stream(chunks[1..]))).0.checked
    ensures var w := Process(Repaired, Feed(t, Stream(chunks[1..]))).0;
            && w.url <= |w.data|
            && Run(AsWritten, s, chunks).1 ==
               BodyOutcome(w, w.checked, w.contentLength,
                           WholeBody(w.contentLength, BodyParts(w.checked, |s.data|, chunks)))
  {
    hide TakeStep, Process, CStr, StrEnd, Resumable, HasBody, BodyOutcome, WholeBody, Run, BodyParts, InBodyFrom;
    var rest := Stream(chunks[1..]);
    var w := Process(Repaired, Feed(t, rest)).0;
    var b := w.checked;
    ThroughHeaders(s1);
    BodyBegins(s1, t, rest);
    InBodyFacts(t, b);
    assert chunks == [chunks[0]] + chunks[1..];
    PartsOf(b, s.data, chunks[0], t.data[b..], chunks[1..]);
    RunOn(s, t, b, chunks[0], chunks[1..]);
    SameOutcome(t, w, b, w.contentLength, WholeBody(w.contentLength, [t.data[b..]] + chunks[1..]));
  }

  /** The call that comes to the body, and the calls after it. */
  lemma RunOn(s: Conn, t: Conn, b: nat, c: string, rest: seq<string>)
    requires Inv(s) && InBodyFrom(t, b) && t.start == t.checked == b
    requires Process(AsWritten, Feed(s, c)) == Process(AsWritten, t)
    ensures t.url <= |t.data|
    ensures Run(AsWritten, s, [c] + rest).1 ==
            BodyOutcome(t, b, t.contentLength, WholeBody(t.contentLength, [t.data[b..]] + rest))
  {
    hide *;
    InBodyFacts(t, b);
    CallIsFirst(t, b);
    RunStep(s, c, rest);
    FirstCall(t.contentLength, t.data[b..], rest);
    AfterFirst(t, b, FirstPart(t.contentLength, t.data[b..]), rest);
  }

  lemma CallIsFirst(t: Conn, b: nat)
    requires InBodyFrom(t, b) && t.start == t.checked == b
    ensures CallAgrees(t, b, FirstPart(t.contentLength, t.data[b..]))
  {
    hide CallAgrees, InBodyFrom, BodyCall;
    InBodyFacts(t, b);
    CallIs(t, b);
  }

  /** What the run does after a call that c describes. */
  lemma AfterFirst(t: Conn, b: nat, c: Call, rest: seq<string>)
    requires InBodyFrom(t, b) && CallAgrees(t, b, c) && (c.More? ==> c.start <= c.checked <= |c.bytes|)
    ensures t.url <= |t.data|
    ensures var (u, o) := Process(AsWritten, t);
            BodyOutcome(t, b, t.contentLength, AfterCall(c, t.contentLength, rest)) ==
            if o != NoRequest then o else Run(AsWritten, u, rest).1
  {
    hide Process, CStr, StrEnd, BodyOutcome, InBodyFrom, Run, BodyRun, Inv, WentOn;
    InBodyFacts(t, b);
    var u := Process(AsWritten, t).0;
    var end := AfterCall(c, t.contentLength, rest);
    if c.More? {
      WentOnFacts(t, u, b);
      OutcomeKept(t, u, b);
      SameOutcome(t, u, b, t.contentLength, end);
      RunInBody(u, b, rest);
    } else {
      AnsweredIfFound(t, b, t.contentLength, end);
    }
  }

  lemma RunStep(s: Conn, c: string, rest: seq<string>)
    requires Inv(s)
    ensures Inv(Feed(s, c))
    ensures var (t, o) := Process(AsWritten, Feed(s, c));
            Run(AsWritten, s, [c] + rest) == if o != NoRequest then (t, o) else Run(AsWritten, t, rest)
  {
    hide Process;
    assert ([c] + rest)[1..] == rest;
  }

  lemma FirstCall(n: nat, part: string, rest: seq<string>)
    requires n > 0
    ensures WholeBody(n, [part] + rest) == AfterCall(FirstPart(n, part), n, rest)
  {
    hide BodyCall;
    assert "" + part == part && ([part] + rest)[1..] == rest;
  }

  lemma PartsLater(b: nat, received: nat, chunks: seq<string>)
    requires chunks != [] && received + |chunks[0]| < b
    ensures BodyParts(b, received, chunks) == BodyParts(b, received + |chunks[0]|, chunks[1..])
  {
  }

  lemma NoBodyYet(s: Conn)
    requires Settled(s) && Inv(Feed(s, ""))
    ensures !HasBody(Process(Repaired, Feed(s, "")))
  {
    hide TakeStep;
    FeedTwice(s, "", "");
  }

  // ---------- The code as written, exactly ----------

  /** The body that should be handed over. */
  function TrueBody(stream: string, b: nat, n: nat): string
    requires b + n <= |stream|
  {
    CStr(stream[b..][..n], 0)
  }

  /**
  The code as written, on every stream that begins with a complete request that has a body, split in any way: the
  outcome is the one that the cursors over the body lead to.
  */
  lemma AsWrittenExactly(chunks: seq<string>)
    requires HasBody(WholeRun(AsWritten, Stream(chunks)))
    ensures var (w, o) := WholeRun(AsWritten, Stream(chunks));
            && w.url <= |w.data| && w.checked + w.contentLength <= |Stream(chunks)|
            && o == BodyOutcome(w, w.checked, w.contentLength,
                                Done(0, TrueBody(Stream(chunks), w.checked, w.contentLength)))
            && Run(AsWritten, FRESH, chunks).1 ==
               BodyOutcome(w, w.checked, w.contentLength,
                           WholeBody(w.contentLength, BodyParts(w.checked, 0, chunks)))
  {
    hide TakeStep, CStr, Process, WholeBody, BodyParts, BodyOutcome;
    FreshSettled();
    FreshStops();
    FeedKeeps(FRESH, Stream(chunks));
    OneCall(Feed(FRESH, Stream(chunks)));
    assert "" + Stream(chunks) == Stream(chunks);
    CompletedBody(Feed(FRESH, Stream(chunks)));
    RunFromHeaders(FRESH, chunks);
  }

  lemma FreshStops()
    ensures LineStep(FRESH).Stop?
  {
  }

  /**
  So it is right if and only if some read completes the body and the window that is handed over means the same. A
  window at the start of the body does.
  */
  lemma AsWrittenRightExactly(chunks: seq<string>)
    requires HasBody(WholeRun(AsWritten, Stream(chunks)))
    ensures var (w, o) := WholeRun(AsWritten, Stream(chunks));
            var end := WholeBody(w.contentLength, BodyParts(w.checked, 0, chunks));
            && w.checked + w.contentLength <= |Stream(chunks)|
            && (Run(AsWritten, FRESH, chunks).1 == o <==>
               end.Done? && (w.checked + w.contentLength >= READ_BUFFER_SIZE ||
                             (w.checked + end.start + w.contentLength < READ_BUFFER_SIZE &&
                              end.window == TrueBody(Stream(chunks), w.checked, w.contentLength))))
            && (Run(AsWritten, FRESH, chunks).1 == NoRequest <==> end.Waiting?)
  {
    hide Process, CStr, WholeBody, BodyParts, HasBody;
    AsWrittenExactly(chunks);
  }

  // ---------- Bodies without line ends ----------

  lemma {:induction false} ScanText(d: string, i: nat)
    requires i <= |d| && NoLineEnd(d)
    ensures ScanLine(d, i) == Open(|d|)
    decreases |d| - i
  {
    if i < |d| {
      ScanText(d, i + 1);
    }
  }

  /** Where the parts in front of the k-th end. */
  function EndOf(parts: seq<string>, k: nat): nat
    requires k <= |parts|
  {
    if k == 0 then 0 else |parts[0]| + EndOf(parts[1..], k - 1)
  }

  lemma {:induction false} TextRun(bytes: string, start: nat, n: nat, parts: seq<string>, k: nat)
    requires n > 0 && start <= |bytes| && k < |parts| && |parts[k]| >= n
    requires NoLineEnd(bytes) && forall j :: 0 <= j < k ==> |parts[j]| < n && NoLineEnd(parts[j])
    ensures var o := if k == 0 then start else |bytes| + EndOf(parts, k - 1);
            && o + n <= |bytes + Stream(parts)|
            && BodyRun(bytes, start, |bytes|, n, parts) == Done(o, CStr((bytes + Stream(parts))[..o + n], o))
    decreases |parts|
  {
    hide CStr, ScanLine;
    var d := bytes + parts[0];
    assert bytes + Stream(parts) == d + Stream(parts[1..]);
    if k == 0 {
      assert (bytes + Stream(parts))[..start + n] == d[..start + n];
    } else {
      ScanText(d, |bytes|);
      TextRun(d, |bytes|, n, parts[1..], k - 1);
      assert BodyCall(d, start, |bytes|, n) == More(d, |bytes|, |d|);
    }
  }

  /**
  If the parts in front of the k-th have no line ends and are shorter than the body, and the k-th is not, then that
  one completes the body, and what is handed over begins two reads earlier.
  */
  lemma TextBody(n: nat, parts: seq<string>, k: nat)
    requires n > 0 && k < |parts| && |parts[k]| >= n
    requires forall j :: 0 <= j < k ==> |parts[j]| < n && NoLineEnd(parts[j])
    ensures var o := if k == 0 then 0 else EndOf(parts, k - 1);
            && o + n <= |Stream(parts)|
            && WholeBody(n, parts) == Done(o, CStr(Stream(parts)[..o + n], o))
  {
    hide BodyRun, CStr;
    TextRun("", 0, n, parts, k);
    assert "" + Stream(parts) == Stream(parts);
  }

  lemma {:induction false} TextRunWaits(bytes: string, start: nat, n: nat, parts: seq<string>)
    requires n > 0 && start <= |bytes| && NoLineEnd(bytes)
    requires forall j :: 0 <= j < |parts| ==> |parts[j]| < n && NoLineEnd(parts[j])
    ensures BodyRun(bytes, start, |bytes|, n, parts) == Waiting
    decreases |parts|
  {
    hide CStr, ScanLine;
    if parts != [] {
      var d := bytes + parts[0];
      ScanText(d, |bytes|);
      TextRunWaits(d, |bytes|, n, parts[1..]);
      assert BodyCall(d, start, |bytes|, n) == More(d, |bytes|, |d|);
    }
  }

  /** And if no part is as long as the body, it never completes. */
  lemma TextBodyWaits(n: nat, parts: seq<string>)
    requires n > 0 && forall j :: 0 <= j < |parts| ==> |parts[j]| < n && NoLineEnd(parts[j])
    ensures WholeBody(n, parts) == Waiting
  {
    hide BodyRun;
    TextRunWaits("", 0, n, parts);
  }

  /**
  A request is answered rightly although its body was cut, if the cut part has no line end and the next read
  brings at least as many bytes as the whole body has.
  */
  lemma RightAfterOneCut(chunks: seq<string>, part: string, next: string, rest: seq<string>)
    requires HasBody(WholeRun(AsWritten, Stream(chunks)))
    requires var w := WholeRun(AsWritten, Stream(chunks)).0;
             && BodyParts(w.checked, 0, chunks) == [part, next] + rest
             && |part| < w.contentLength <= |next| && NoLineEnd(part)
    ensures Run(AsWritten, FRESH, chunks).1 == WholeRun(AsWritten, Stream(chunks)).1
  {
    hide Process, CStr, WholeBody, BodyParts, HasBody, BodyOutcome;
    var w := WholeRun(AsWritten, Stream(chunks)).0;
    var parts := [part, next] + rest;
    AsWrittenExactly(chunks);
    TextBody(w.contentLength, parts, 1);
    PartsSpell(w.checked, 0, chunks);
    WindowIs(Stream(parts), Stream(chunks), w.checked, w.contentLength);
  }

  lemma WindowIs(tail: string, stream: string, b: nat, n: nat)
    requires b + n <= |stream| && tail == stream[b..]
    ensures CStr(tail[..n], 0) == TrueBody(stream, b, n)
  {
  }

  lemma {:induction false} PartsSpell(b: nat, received: nat, chunks: seq<string>)
    requires received <= b <= received + |Stream(chunks)|
    ensures Stream(BodyParts(b, received, chunks)) == Stream(chunks)[b - received..]
    decreases |chunks|
  {
    if chunks != [] {
      if received + |chunks[0]| < b {
        PartsSpell(b, received + |chunks[0]|, chunks[1..]);
        assert Stream(chunks)[b - received..] == Stream(chunks[1..])[b - (received + |chunks[0]|)..];
      } else {
        var part := chunks[0][b - received..];
        assert ([part] + chunks[1..])[1..] == chunks[1..];
        assert Stream(chunks)[b - received..] == part + Stream(chunks[1..]);
      }
    }
  }
}
