/**
The incremental HTTP request parser as a function of the connection state: a cursor that looks for line
ends in the received bytes, the rewriting of a request line inside the buffer, and the three-state machine
that is re-entered after every read.

As written, the source parses a partly received body as if it were header lines; repaired, it returns when
the body is not complete yet.
*/
module HttpRequest {
  import opened CStrings
  import opened SourceVersion

  datatype Phase = RequestLine | Header | Content

  /**
  What processing the received bytes ends in. Request carries what is handed to do_request.
  StrayTerminator is the case in which the NUL that ends the body would be stored outside the part of the
  buffer that follows the headers; the source does not check for it and nothing is claimed about what follows.
  */
  datatype Outcome =
    | NoRequest
    | BadRequest
    | StrayTerminator
    | Request(post: bool, url: string, keepAlive: bool, body: Option<string>)

  const READ_BUFFER_SIZE: nat := 2048
  const DEFAULT_PAGE := "judge.html"

  /** data is m_read_buf up to m_read_idx; checked, start and url are m_checked_idx, m_start_line and m_url. */
  datatype Conn = Conn(data: string, checked: nat, start: nat, phase: Phase,
                       post: bool, url: nat, contentLength: int, keepAlive: bool)

  const FRESH := Conn("", 0, 0, RequestLine, false, 0, 0, false)

  ghost predicate Inv(s: Conn) {
    && s.start <= s.checked <= |s.data|
    && (s.phase != RequestLine ==> s.url < s.start)
    && (s.checked == 0 || s.data[s.checked - 1] != '\r')
    && (s.phase == Content ==> s.contentLength != 0)
  }

  /** A read appends what it received. */
  function Feed(s: Conn, bytes: string): Conn {
    s.(data := s.data + bytes)
  }

  // ---------- Looking for the end of a line ----------

  /** Line(next): a complete line was found and next is the position after its two terminators. */
  datatype LineScan = Open(pos: nat) | Bad(pos: nat) | Line(next: nat)

  function ScanLine(d: string, i: nat): (r: LineScan)
    requires i <= |d|
    ensures r.Line? ==> i < r.next <= |d| && 2 <= r.next
    ensures !r.Line? ==> i <= r.pos <= |d|
    decreases |d| - i
  {
    if i == |d| then Open(i)
    else if d[i] == '\r' then
      if i + 1 == |d| then Open(i) else if d[i + 1] == '\n' then Line(i + 2) else Bad(i)
    else if d[i] == '\n' then
      if i > 1 && d[i - 1] == '\r' then Line(i + 1) else Bad(i)
    else ScanLine(d, i + 1)
  }

  predicate NoLineEnd(s: string) {
    '\r' !in s && '\n' !in s
  }

  function TerminateLine(d: string, next: nat): (r: string)
    requires 2 <= next <= |d|
    ensures |r| == |d|
  {
    d[next - 2 := NUL][next - 1 := NUL]
  }

  // ---------- The request line ----------

  /** The rewritten bytes, whether the line was accepted, and what was found in it. */
  datatype ParsedLine = ParsedLine(bytes: string, ok: bool, post: bool, url: nat)

  /** Skips "http://host" and then "https://host"; None stands for a null m_url. */
  function SkipAuthority(p: string, u: nat): (r: Option<nat>)
    requires u <= |p|
    ensures r.Some? ==> u <= r.value <= |p|
  {
    var u1 := if StartsIgnoringCase(CStr(p, u), "http://") then StrChr(p, u + 7, '/') else Some(u);
    if u1.None? then None
    else if StartsIgnoringCase(CStr(p, u1.value), "https://") then StrChr(p, u1.value + 8, '/')
    else u1
  }

  /** p is the buffer up to m_checked_idx, so that p ends in the two NULs that replaced CR LF. */
  ghost predicate TerminatedPrefix(p: string, text: nat) {
    text + 2 <= |p| && p[|p| - 2] == NUL && p[|p| - 1] == NUL
  }

  /** Cuts off a token: the blank after it becomes a NUL, and the position after that blank is returned. */
  function CutToken(p: string, text: nat): (r: (string, Option<nat>))
    requires TerminatedPrefix(p, text)
    ensures |r.0| == |p| && TerminatedPrefix(r.0, text)
    ensures r.1.Some? ==> text < r.1.value && TerminatedPrefix(r.0, r.1.value) && UrlAt(r.0, text, r.1.value - 1)
  {
    var blank := StrPbrkBlank(p, text);
    if blank.None? then (p, None) else (p[blank.value := NUL], Some(blank.value + 1))
  }

  /** Skips blanks; the NULs at the end of p stop the scan. */
  function NextToken(p: string, i: nat): (r: nat)
    requires TerminatedPrefix(p, i)
    ensures i <= r && TerminatedPrefix(p, r)
  {
    SkipBlanks(p, i)
  }

  ghost predicate WellFormedParse(p: string, r: ParsedLine) {
    r.url < |p| == |r.bytes| && r.bytes[|p| - 1] == NUL
  }

  function ParseRequestLine(p: string, text: nat): (r: ParsedLine)
    requires TerminatedPrefix(p, text)
    ensures WellFormedParse(p, r)
  {
    hide CutToken, CStr, SameIgnoringCase, ParseTarget;
    var (p1, rest) := CutToken(p, text);
    if rest.None? then ParsedLine(p1, false, false, 0) else
    var post := SameIgnoringCase(CStr(p1, text), "POST");
    if !SameIgnoringCase(CStr(p1, text), "GET") && !post then ParsedLine(p1, false, false, 0) else
    ParseTarget(p1, post, rest.value)
  }

  function ParseTarget(p: string, post: bool, rest: nat): (r: ParsedLine)
    requires TerminatedPrefix(p, rest)
    ensures WellFormedParse(p, r)
  {
    hide CutToken, NextToken, FinishRequestLine;
    var url := NextToken(p, rest);
    var (p1, version) := CutToken(p, url);
    if version.None? then ParsedLine(p1, false, false, 0) else
    FinishRequestLine(p1, post, url, version.value)
  }

  /** url is followed by a NUL at version - 1; the protocol version is after the blanks from version on. */
  function FinishRequestLine(p: string, post: bool, url: nat, version: nat): (r: ParsedLine)
    requires url < version && TerminatedPrefix(p, version)
    requires UrlAt(p, url, version - 1)
    ensures WellFormedParse(p, r)
  {
    hide NextToken, SkipAuthority, CStr, SameIgnoringCase, StrCatAt, StrEnd;
    var v := NextToken(p, version);
    if !SameIgnoringCase(CStr(p, v), "HTTP/1.1") then ParsedLine(p, false, false, 0) else
    var path := SkipAuthority(p, url);
    if path.None? || path.value == |p| || p[path.value] != '/' then ParsedLine(p, false, false, 0)
    else if StrEnd(p, path.value) == path.value + 1 then
      DefaultPageFits(p, url, version - 1, v, path.value);
      ParsedLine(StrCatAt(p, path.value + 1, DEFAULT_PAGE), true, post, path.value)
    else ParsedLine(p, true, post, path.value)
  }

  ghost predicate UrlAt(p: string, url: nat, end: nat) {
    url <= end < |p| && p[end] == NUL && forall k :: url <= k < end ==> p[k] != NUL
  }

  /** Appending the default page to a URL that reduces to "/" stays inside the bytes already parsed. */
  lemma DefaultPageFits(p: string, url: nat, urlEnd: nat, v: nat, path: nat)
    requires UrlAt(p, url, urlEnd) && urlEnd < v <= |p| && TerminatedPrefix(p, urlEnd)
    requires SameIgnoringCase(CStr(p, v), "HTTP/1.1")
    requires SkipAuthority(p, url) == Some(path) && StrEnd(p, path) == path + 1
    ensures path + 1 + |DEFAULT_PAGE| < |p|
  {
    assert |CStr(p, v)| == 8;
    AuthorityBeforeEnd(p, url, urlEnd);
  }

  lemma AuthorityBeforeEnd(p: string, url: nat, urlEnd: nat)
    requires UrlAt(p, url, urlEnd)
    ensures SkipAuthority(p, url).Some? ==> SkipAuthority(p, url).value <= urlEnd
  {
    StrEndIs(p, url, urlEnd);
    var u := if StartsIgnoringCase(CStr(p, url), "http://") then StrChr(p, url + 7, '/') else Some(url);
    if u.Some? {
      assert u.value <= urlEnd;
      StrEndIs(p, u.value, urlEnd);
    }
  }

  // ---------- Header lines ----------

  function ConnectionHeader(line: string, keepAlive: bool): bool {
    if StartsIgnoringCase(line, "Connection:")
    then keepAlive || SameIgnoringCase(line[SkipBlanks(line, 11)..], "keep-alive")
    else keepAlive
  }

  function LengthHeader(line: string, contentLength: int): int {
    if !StartsIgnoringCase(line, "Connection:") && StartsIgnoringCase(line, "Content-length:")
    then AToInt(line[15..])
    else contentLength
  }

  // ---------- The state machine ----------

  ghost predicate LineHandled(s: Conn, next: nat, t: Conn)
    requires 0 < next <= |s.data|
  {
    Inv(t) && t.start == t.checked == next && |t.data| == |s.data| && t.data[next - 1] == NUL
  }

  /** The connection after its request line, rewritten to r, has been parsed. */
  function AfterRequestLine(s: Conn, d: string, r: ParsedLine, next: nat): (t: (Conn, Outcome))
    requires Inv(s) && s.phase == RequestLine
    requires 0 < next <= |d| == |s.data| && WellFormedParse(d[..next], r)
    ensures LineHandled(s, next, t.0)
  {
    var s1 := s.(data := r.bytes + d[next..], checked := next, start := next);
    if r.ok then (s1.(phase := Header, post := r.post, url := r.url), NoRequest) else (s1, BadRequest)
  }

  lemma TerminatedLine(d: string, next: nat, text: nat)
    requires text + 2 <= next <= |d|
    ensures TerminatedPrefix(TerminateLine(d, next)[..next], text)
  {
  }

  /** One complete line, ending before next, in the request-line phase. */
  function HandleRequestLine(s: Conn, next: nat): (r: (Conn, Outcome))
    requires Inv(s) && s.phase == RequestLine
    requires s.checked + 2 <= next <= |s.data|
    ensures LineHandled(s, next, r.0)
  {
    hide ParseRequestLine, AfterRequestLine, TerminateLine, WellFormedParse, TerminatedPrefix, LineHandled;
    var d := TerminateLine(s.data, next);
    TerminatedLine(s.data, next, s.start);
    AfterRequestLine(s, d, ParseRequestLine(d[..next], s.start), next)
  }

  /** One complete line, ending before next, in the header phase. */
  function HandleHeader(s: Conn, next: nat): (r: (Conn, Outcome))
    requires Inv(s) && s.phase == Header
    requires s.checked + 2 <= next <= |s.data|
    ensures LineHandled(s, next, r.0)
  {
    var d := TerminateLine(s.data, next);
    var line := CStr(d[..next], s.start);
    var s1 := s.(data := d, checked := next, start := next);
    if line != "" then
      (s1.(keepAlive := ConnectionHeader(line, s.keepAlive),
           contentLength := LengthHeader(line, s.contentLength)), NoRequest)
    else if s.contentLength != 0 then (s1.(phase := Content), NoRequest)
    else (s1, Request(s.post, CStr(d, s.url), s.keepAlive, None))
  }

  function HandleLine(s: Conn, next: nat): (r: (Conn, Outcome))
    requires Inv(s) && s.phase != Content
    requires s.checked + 2 <= next <= |s.data|
    ensures LineHandled(s, next, r.0)
  {
    if s.phase == RequestLine then HandleRequestLine(s, next) else HandleHeader(s, next)
  }

  /** The NUL after the body is stored behind the received bytes if the body is the last of them. */
  function TerminateBody(d: string, end: nat): (r: string)
    requires end <= |d|
    ensures |r| == |d| && r[..end] == d[..end]
    ensures end < |d| ==> r[end] == NUL && r[end + 1..] == d[end + 1..]
  {
    if end < |d| then d[end := NUL] else d
  }

  /** The body is terminated in place and handed over. */
  function FinishBody(s: Conn, text: nat): (r: (Conn, Outcome))
    requires Inv(s) && s.phase == Content && text <= s.checked
    requires |s.data| >= s.checked + s.contentLength
    ensures Inv(r.0) && |r.0.data| == |s.data|
    ensures r.1 != NoRequest
  {
    var end := text + s.contentLength;
    if s.contentLength < 0 || end >= READ_BUFFER_SIZE then (s, StrayTerminator)
    else
      var d := TerminateBody(s.data, end);
      (s.(data := d), Request(s.post, CStr(d, s.url), s.keepAlive, Some(CStr(d[..end], text))))
  }

  /** Again: the loop of process_read goes round; Stop: it returns. */
  datatype Step = Again(conn: Conn) | Stop(conn: Conn, outcome: Outcome)

  ghost predicate Advances(s: Conn, r: Step) {
    && Inv(r.conn) && |r.conn.data| == |s.data| && s.checked <= r.conn.checked
    && (r.Again? ==> s.checked < r.conn.checked)
  }

  function LineStep(s: Conn): (r: Step)
    requires Inv(s) && s.phase != Content
    ensures Advances(s, r)
  {
    ScanStop(s.data, s.checked);
    match ScanLine(s.data, s.checked)
    case Open(j) => Stop(s.(checked := j), NoRequest)
    case Bad(j) => Stop(s.(checked := j), NoRequest)
    case Line(next) =>
      var (s1, o) := HandleLine(s, next);
      if o == NoRequest then Again(s1) else Stop(s1, o)
  }

  function ContentStep(ver: Version, s: Conn): (r: Step)
    requires Inv(s) && s.phase == Content
    ensures Advances(s, r)
  {
    var s1 := s.(start := s.checked);
    if |s.data| >= s.checked + s.contentLength then
      var (s2, o) := FinishBody(s1, s.start);
      Stop(s2, o)
    else if ver == Repaired then Stop(s1, NoRequest)
    else
      ScanStop(s.data, s.checked);
      match ScanLine(s.data, s.checked)
      case Open(j) => Stop(s1.(checked := j), NoRequest)
      case Bad(j) => Stop(s1.(checked := j), NoRequest)
      case Line(next) => Again(s1.(data := TerminateLine(s.data, next), checked := next))
  }

  function TakeStep(ver: Version, s: Conn): (r: Step)
    requires Inv(s)
    ensures Advances(s, r)
  {
    if s.phase == Content then ContentStep(ver, s) else LineStep(s)
  }

  /** process_read: everything that can be done with the bytes received so far. */
  function Process(ver: Version, s: Conn): (r: (Conn, Outcome))
    requires Inv(s)
    ensures Inv(r.0) && |r.0.data| == |s.data| && s.checked <= r.0.checked
    decreases |s.data| - s.checked
  {
    match TakeStep(ver, s)
    case Again(s1) => Process(ver, s1)
    case Stop(s1, o) => (s1, o)
  }

  lemma ScanStop(d: string, i: nat)
    requires i <= |d| && (i == 0 || d[i - 1] != '\r')
    ensures var r := ScanLine(d, i);
            if r.Line? then i + 2 <= r.next && d[r.next - 2] == '\r'
            else r.pos == 0 || d[r.pos - 1] != '\r'
    decreases |d| - i
  {
    if i < |d| && d[i] != '\r' && d[i] != '\n' {
      ScanStop(d, i + 1);
    }
  }
}
