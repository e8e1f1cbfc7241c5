/**
What a client can rely on: which sequences of reads lead to which outcome.
*/
module HttpDelivery {
  import opened CStrings
  import opened SourceVersion
  import opened HttpRequest
  import opened HttpChunking
  import opened HttpSplitBody
  import opened HttpGrammar

  /** A valid message that fits the buffer is understood, however it is split and whatever follows it. */
  lemma DeliveredMessage(m: Message, extra: string, chunks: seq<string>)
    requires ValidMessage(m) && |Text(m)| < READ_BUFFER_SIZE && Stream(chunks) == Text(m) + extra
    ensures Run(Repaired, FRESH, chunks).1 == Meaning(m)
  {
    hide ValidMessage, Text, Meaning, Process;
    ChunkingIndependence(chunks);
    MessageAccepted(Repaired, m, extra);
  }

  /** So is every request line with complete headers, under every split: what it leads to depends on the length only. */
  lemma DeliveredHead(m: Message, rest: string, chunks: seq<string>)
    requires ValidHead(m) && Stream(chunks) == HeadText(m) + rest
    ensures Run(Repaired, FRESH, chunks).1 ==
            Completed(SameIgnoringCase(m.method_, "POST"), PathOf(m), KeepAlive(m.headers, false), |HeadText(m)|,
                      BodyLength(m.headers, 0), rest)
  {
    hide Process, ValidHead, Completed, KeepAlive, BodyLength, HeadText;
    ChunkingIndependence(chunks);
    HeadDecides(Repaired, m, rest);
  }

  /** The code as written does so too when the message has no body, or arrives without its body being cut. */
  lemma DeliveredAsWritten(m: Message, extra: string, chunks: seq<string>)
    requires ValidMessage(m) && |Text(m)| < READ_BUFFER_SIZE && Stream(chunks) == Text(m) + extra
    requires m.body == "" || NoCut(Stream(chunks), |Text(m)| - |m.body|, |Text(m)|, 0, chunks)
    ensures Run(AsWritten, FRESH, chunks).1 == Meaning(m)
  {
    hide ValidMessage, Text, Process, NoCut, BodyLength, KeepAlive;
    AsWrittenIndependence(chunks);
    MessageAccepted(AsWritten, m, extra);
    if m.body != "" {
      assert HasBody(WholeRun(AsWritten, Stream(chunks)));
    } else {
      BodyMeansSome(AsWritten, Stream(chunks));
    }
  }

  lemma BodyMeansSome(ver: Version, stream: string)
    ensures var r := WholeRun(ver, stream);
            HasBody(r) && r.1.Request? ==> r.1.body.Some?
  {
    ContentOutcome(ver, Feed(FRESH, stream));
  }

  lemma {:induction false} ContentOutcome(ver: Version, s: Conn)
    requires Inv(s)
    ensures var (t, o) := Process(ver, s);
            t.phase == Content && o.Request? ==> o.body.Some?
    decreases |s.data| - s.checked
  {
    hide ParseRequestLine, CStr, ScanLine;
    match TakeStep(ver, s)
    case Again(t) => ContentOutcome(ver, t);
    case Stop(t, o) =>
  }

  /**
  Every valid message with a body can be delivered so that the code as written never answers it: any read
  that ends in the body after a character that is no line end loses the request.
  */
  lemma LostBody(m: Message, n: nat)
    requires ValidMessage(m) && |Text(m)| < READ_BUFFER_SIZE
    requires 0 < n < |m.body| && ConsumedAsLine(m.body[..n])
    ensures var cut := |Text(m)| - |m.body| + n;
            Run(AsWritten, FRESH, [Text(m)[..cut], Text(m)[cut..]]).1 == NoRequest
  {
    hide ValidMessage, Process, BodyLength, KeepAlive, HeaderText, RequestLineText, ConsumedAsLine;
    var text, start := Text(m), |Text(m)| - |m.body|;
    var chunks := [text[..start + n], text[start + n..]];
    assert Stream(chunks[1..]) == text[start + n..];
    assert Stream(chunks) == text;
    assert text + "" == text && m.body + "" == m.body;
    AsWrittenIndependence(chunks);
    MessageAccepted(AsWritten, m, "");
    assert text[start..start + n] == m.body[..n];
    assert HasBody(WholeRun(AsWritten, text));
    assert CutsBody(text, start, |text|, start + n);
    assert !NoCut(text, start, |text|, 0, chunks);
  }

  // ---------- Lines that end wrongly ----------

  /** A line feed without a carriage return, or a carriage return with something else behind it. */
  predicate BadLineEnd(s: string) {
    s == "\n" || (|s| == 2 && s[0] == '\r' && s[1] != '\n')
  }

  function Lines(headers: seq<string>): string {
    if headers == [] then "" else headers[0] + CRLF + Lines(headers[1..])
  }

  lemma {:induction false} ScanBadLine(d: string, i: nat, text: string, bad: string)
    requires IsText(text) && BadLineEnd(bad) && At(d, i, text + bad)
    requires i == 0 || d[i - 1] != '\r'
    ensures ScanLine(d, i).Bad?
    decreases |text|
  {
    var n := |text| + |bad|;
    assert d[i..i + n][|text|..] == bad;
    assert d[i..i + n][|text|] == bad[0] && (|bad| == 2 ==> d[i..i + n][|text| + 1] == bad[1]);
    if text != "" {
      assert d[i..i + n][0] == text[0];
      assert d[i + 1..i + n] == d[i..i + n][1..] == text[1..] + bad;
      ScanBadLine(d, i + 1, text[1..], bad);
    }
  }

  lemma BadLineStops(ver: Version, s: Conn, text: string, bad: string, rest: string)
    requires s.phase != Content && AtLineStart(s, text + bad + rest) && IsText(text) && BadLineEnd(bad)
    ensures Process(ver, s).1 == NoRequest
  {
    hide HandleLine, IsText, UrlEnded, ContentStep;
    assert s.data[s.checked..s.checked + |text| + |bad|] == s.data[s.checked..][..|text| + |bad|] == text + bad;
    ScanBadLine(s.data, s.checked, text, bad);
  }

  lemma {:induction false} BadHeaderStops(ver: Version, s: Conn, headers: seq<string>, text: string, bad: string,
                                           rest: string)
    requires s.phase == Header && AtLineStart(s, Lines(headers) + (text + bad + rest))
    requires IsText(text) && BadLineEnd(bad)
    requires forall i :: 0 <= i < |headers| ==> headers[i] != "" && IsText(headers[i])
    ensures Process(ver, s).1 == NoRequest
    decreases |headers|
  {
    hide HandleLine, IsText, UrlEnded, Process, BadLineEnd;
    if headers == [] {
      assert Lines(headers) + (text + bad + rest) == text + bad + rest;
      BadLineStops(ver, s, text, bad, rest);
    } else {
      var more := Lines(headers[1..]) + (text + bad + rest);
      assert Lines(headers) + (text + bad + rest) == headers[0] + CRLF + more;
      OneHeader(ver, s, headers[0], more);
      BadHeaderStops(ver, HandleLine(s, s.checked + |headers[0]| + 2).0, headers[1..], text, bad, rest);
    }
  }

  /** A request line that ends wrongly never completes, in either version, under any split. */
  lemma BadRequestLineNeverCompletes(ver: Version, text: string, bad: string, rest: string, chunks: seq<string>)
    requires IsText(text) && BadLineEnd(bad) && Stream(chunks) == text + bad + rest
    ensures Run(ver, FRESH, chunks).1 == NoRequest
  {
    hide Process, BadLineEnd, IsText;
    BadLineStops(ver, Feed(FRESH, Stream(chunks)), text, bad, rest);
    SplitIrrelevant(ver, chunks);
  }

  /** The same for a header line, after a valid request line and any number of well-formed headers. */
  lemma BadHeaderNeverCompletes(ver: Version, m: Message, text: string, bad: string, rest: string, chunks: seq<string>)
    requires ValidMessage(m) && IsText(text) && BadLineEnd(bad)
    requires Stream(chunks) == RequestLineText(m) + CRLF + (Lines(m.headers) + (text + bad + rest))
    ensures Run(ver, FRESH, chunks).1 == NoRequest
  {
    hide LineStep, ContentStep, BadLineEnd, IsText, RequestLineText, IsTarget, IsToken, IsGap,
         SameIgnoringCase, UrlEnded;
    var more := Lines(m.headers) + (text + bad + rest);
    RequestLineTaken(m, more);
    BadHeaderStops(ver, LineStep(Feed(FRESH, Stream(chunks))).conn, m.headers, text, bad, rest);
    SplitIrrelevant(ver, chunks);
  }

  lemma SplitIrrelevant(ver: Version, chunks: seq<string>)
    requires WholeRun(ver, Stream(chunks)).1 == NoRequest
    ensures Run(ver, FRESH, chunks).1 == NoRequest
  {
    hide Process;
    match ver
    case Repaired => ChunkingIndependence(chunks);
    case AsWritten => AsWrittenIndependence(chunks);
  }
}
