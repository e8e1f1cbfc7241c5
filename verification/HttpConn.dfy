/**
The request parser in the form the server runs it: one object per connection, whose buffer is edited in place
and whose cursors are moved by loops. Every method is tied to the functions of HttpRequest.
*/
module HttpConn {
  import opened CStrings
  import opened SourceVersion
  import opened HttpRequest
  import opened HttpChunking

  datatype LineStatus = LineOk | LineBad | LineOpen

  /** What recv reports: some bytes, an orderly shutdown, nothing to read at the moment, or an error. */
  datatype Received = Bytes(bytes: string) | Shutdown | WouldBlock | Error

  /** The bytes delivered before recv first reports something else. */
  function Delivered(results: seq<Received>): string {
    if results == [] || !results[0].Bytes? then "" else results[0].bytes + Delivered(results[1..])
  }

  /** recv never returns more than it was asked for, and asked for nothing it returns 0. */
  ghost predicate FitsRoom(results: seq<Received>, room: nat) {
    && results != []
    && if results[0].Bytes? then 0 < |results[0].bytes| <= room && FitsRoom(results[1..], room - |results[0].bytes|)
       else true
  }

  function Ending(results: seq<Received>): Received
    requires exists k :: 0 <= k < |results| && !results[k].Bytes?
  {
    if results[0].Bytes? then
      assert exists k :: 0 <= k < |results[1..]| && !results[1..][k].Bytes? by {
        var k :| 0 <= k < |results| && !results[k].Bytes?;
        assert results[1..][k - 1] == results[k];
      }
      Ending(results[1..])
    else results[0]
  }

  /** The first report that is not bytes. */
  ghost predicate StopsAt(results: seq<Received>, k: nat) {
    k < |results| && !results[k].Bytes? && forall j :: 0 <= j < k ==> results[j].Bytes?
  }

  /** The bytes of the first k reports. */
  function FirstBytes(results: seq<Received>, k: nat): seq<string>
    requires k <= |results| && forall j :: 0 <= j < k ==> results[j].Bytes?
  {
    seq(k, j requires 0 <= j < k => results[j].bytes)
  }

  /** The loop of read ends with the first report that is not bytes, and has delivered what came before it. */
  lemma {:induction false} EndsAt(results: seq<Received>, k: nat)
    requires StopsAt(results, k)
    ensures Ending(results) == results[k] && Delivered(results) == Stream(FirstBytes(results, k))
  {
    if k > 0 {
      EndsAt(results[1..], k - 1);
      assert FirstBytes(results, k)[1..] == FirstBytes(results[1..], k - 1);
    }
  }

  class HttpConn {
    const readBuf: array<char>
    var readIdx: int
    var checkedIdx: nat
    var startLine: nat
    var checkState: Phase
    var post: bool
    var url: nat
    var contentLength: int
    var linger: bool

    /** The parser state as a value. */
    ghost function View(): Conn
      reads this, readBuf
      requires 0 <= readIdx <= readBuf.Length
    {
      Conn(readBuf[..readIdx], checkedIdx, startLine, checkState, post, url, contentLength, linger)
    }

    ghost predicate Valid()
      reads this, readBuf
    {
      && readBuf.Length == READ_BUFFER_SIZE
      && 0 <= readIdx <= readBuf.Length
      && Inv(View())
    }

    constructor ()
      ensures Valid() && View() == FRESH && fresh(readBuf)
    {
      readBuf := new char[READ_BUFFER_SIZE](_ => NUL);
      readIdx, checkedIdx, startLine := 0, 0, 0;
      checkState, post, url, contentLength, linger := RequestLine, false, 0, 0, false;
    }

    /** init: the object is made ready for the next request. */
    method Reset()
      requires readBuf.Length == READ_BUFFER_SIZE
      modifies this, readBuf
      ensures Valid() && View() == FRESH
      ensures forall k :: 0 <= k < readBuf.Length ==> readBuf[k] == NUL
    {
      readIdx, checkedIdx, startLine := 0, 0, 0;
      checkState, post, url, contentLength, linger := RequestLine, false, 0, 0, false;
      forall k | 0 <= k < readBuf.Length {
        readBuf[k] := NUL;
      }
    }

    /** recv stores what it delivers behind what has been received before. */
    method Store(bytes: string)
      requires Valid() && readIdx + |bytes| <= READ_BUFFER_SIZE
      modifies this`readIdx, readBuf
      ensures Valid() && View() == Feed(old(View()), bytes)
    {
      ghost var before := readBuf[..readIdx];
      forall k | 0 <= k < |bytes| {
        readBuf[readIdx + k] := bytes[k];
      }
      readIdx := readIdx + |bytes|;
      assert readBuf[..readIdx] == before + bytes;
    }

    /**
    read: one recv when level triggered, and recv until it has nothing more to deliver when edge triggered. A
    failed recv of the first kind is subtracted from m_read_idx; the caller then closes the connection.
    */
    method Read(edgeTriggered: bool, results: seq<Received>) returns (ok: bool)
      requires Valid()
      requires FitsRoom(results, READ_BUFFER_SIZE - readIdx)
      requires edgeTriggered ==> exists k :: 0 <= k < |results| && !results[k].Bytes?
      modifies this`readIdx, readBuf
      ensures ok || edgeTriggered ==> Valid()
      ensures old(readIdx) >= READ_BUFFER_SIZE ==> !ok && Valid() && View() == old(View())
      ensures old(readIdx) < READ_BUFFER_SIZE && !edgeTriggered && results[0].Bytes? ==>
                ok && View() == Feed(old(View()), results[0].bytes)
      ensures old(readIdx) < READ_BUFFER_SIZE && !edgeTriggered && !results[0].Bytes? ==>
                && !ok && readBuf[..] == old(readBuf[..])
                && readIdx == old(readIdx) - if results[0].Shutdown? then 0 else 1
      ensures old(readIdx) < READ_BUFFER_SIZE && edgeTriggered ==>
                ok == (Ending(results) == WouldBlock) && View() == Feed(old(View()), Delivered(results))
      ensures old(readIdx) < READ_BUFFER_SIZE && edgeTriggered ==>
                forall k: nat :: StopsAt(results, k) ==>
                  ok == results[k].WouldBlock? && View() == Feed(old(View()), Stream(FirstBytes(results, k)))
    {
      if readIdx >= READ_BUFFER_SIZE {
        return false;
      }
      if !edgeTriggered {
        if results[0].Bytes? {
          Store(results[0].bytes);
          return true;
        }
        if !results[0].Shutdown? {
          readIdx := readIdx - 1;
        }
        return false;
      }
      var left := results;
      while left[0].Bytes?
        invariant Valid() && left != []
        invariant FitsRoom(left, READ_BUFFER_SIZE - readIdx)
        invariant exists k :: 0 <= k < |left| && !left[k].Bytes?
        invariant Ending(left) == Ending(results)
        invariant Feed(View(), Delivered(left)) == Feed(old(View()), Delivered(results))
        decreases |left|
      {
        FeedTwice(View(), left[0].bytes, Delivered(left[1..]));
        Store(left[0].bytes);
        ghost var k :| 0 <= k < |left| && !left[k].Bytes?;
        assert left[1..][k - 1] == left[k];
        left := left[1..];
      }
      FeedTwice(View(), "", "");
      forall k: nat | StopsAt(results, k)
        ensures Ending(results) == results[k] && Delivered(results) == Stream(FirstBytes(results, k))
      {
        EndsAt(results, k);
      }
      return left[0] == WouldBlock;
    }

    /** The two characters that end a line become NULs. */
    method PutTerminators(i: nat, ghost d: string)
      requires i + 2 <= readIdx <= readBuf.Length && d == readBuf[..readIdx]
      modifies readBuf
      ensures readBuf[..readIdx] == TerminateLine(d, i + 2)
    {
      readBuf[i], readBuf[i + 1] := NUL, NUL;
    }

    /** parse_line */
    method ParseLine() returns (status: LineStatus)
      requires Valid()
      modifies this`checkedIdx, readBuf
      ensures readBuf.Length == READ_BUFFER_SIZE && 0 <= readIdx <= readBuf.Length
      ensures match ScanLine(old(readBuf[..readIdx]), old(checkedIdx))
              case Open(j) => status == LineOpen && View() == old(View()).(checked := j)
              case Bad(j) => status == LineBad && View() == old(View()).(checked := j)
              case Line(next) =>
                && status == LineOk
                && View() == old(View()).(data := TerminateLine(old(readBuf[..readIdx]), next), checked := next)
    {
      hide TerminateLine;
      ghost var d := readBuf[..readIdx];
      while checkedIdx < readIdx
        invariant checkedIdx <= readIdx && readBuf[..readIdx] == d
        invariant ScanLine(d, checkedIdx) == ScanLine(d, old(checkedIdx))
      {
        var temp := readBuf[checkedIdx];
        assert temp == d[checkedIdx];
        if temp == '\r' {
          if checkedIdx + 1 == readIdx {
            return LineOpen;
          } else if readBuf[checkedIdx + 1] == '\n' {
            assert d[checkedIdx + 1] == '\n';
            PutTerminators(checkedIdx, d);
            checkedIdx := checkedIdx + 2;
            return LineOk;
          }
          assert d[checkedIdx + 1] != '\n';
          return LineBad;
        } else if temp == '\n' {
          if checkedIdx > 1 && readBuf[checkedIdx - 1] == '\r' {
            assert d[checkedIdx - 1] == '\r';
            PutTerminators(checkedIdx - 1, d);
            checkedIdx := checkedIdx + 1;
            return LineOk;
          }
          return LineBad;
        }
        checkedIdx := checkedIdx + 1;
      }
      return LineOpen;
    }

    /** strcat onto the string that ends at e; what is written stays below m_checked_idx. */
    method StrCat(e: nat, s: string)
      requires e + |s| < checkedIdx <= readIdx <= readBuf.Length
      modifies readBuf
      ensures readBuf[..checkedIdx] == StrCatAt(old(readBuf[..checkedIdx]), e, s)
      ensures readBuf[checkedIdx..] == old(readBuf[checkedIdx..])
    {
      var k := 0;
      while k < |s|
        invariant 0 <= k <= |s|
        invariant forall j :: 0 <= j < readBuf.Length ==>
                    readBuf[j] == if e <= j < e + k then s[j - e] else old(readBuf[j])
      {
        readBuf[e + k] := s[k];
        k := k + 1;
      }
      readBuf[e + |s|] := NUL;
    }

    /** A token is cut off by a NUL in place of the blank behind it; rest is the position after it. */
    method Cut(text: nat) returns (rest: Option<nat>)
      requires checkedIdx <= readIdx <= readBuf.Length && TerminatedPrefix(readBuf[..checkedIdx], text)
      modifies readBuf
      ensures (readBuf[..checkedIdx], rest) == CutToken(old(readBuf[..checkedIdx]), text)
      ensures readBuf[checkedIdx..] == old(readBuf[checkedIdx..])
    {
      var blank := StrPbrkBlank(readBuf[..checkedIdx], text);
      if blank.None? {
        return None;
      }
      readBuf[blank.value] := NUL;
      return Some(blank.value + 1);
    }

    /** parse_request_line; only bytes below m_checked_idx change, and m_url is set when the line is accepted. */
    method ParseRequestLineInPlace(text: nat) returns (accepted: bool)
      requires checkedIdx <= readIdx <= readBuf.Length && TerminatedPrefix(readBuf[..checkedIdx], text)
      modifies this`post, this`url, this`checkState, readBuf
      ensures readBuf[checkedIdx..] == old(readBuf[checkedIdx..])
      ensures Recorded(ParseRequestLine(old(readBuf[..checkedIdx]), text), accepted)
    {
      hide SameIgnoringCase, CStr, ParseTarget;
      var rest := Cut(text);
      if rest.None? {
        return false;
      }
      var method_ := CStr(readBuf[..checkedIdx], text);
      var isPost := false;
      if SameIgnoringCase(method_, "GET") {
        GetIsNotPost(method_);
      } else if SameIgnoringCase(method_, "POST") {
        isPost := true;
      } else {
        return false;
      }
      accepted := ParseTargetInPlace(isPost, rest.value);
    }

    /** The second part of parse_request_line, from the blanks behind the method on. */
    method ParseTargetInPlace(isPost: bool, rest: nat) returns (accepted: bool)
      requires checkedIdx <= readIdx <= readBuf.Length && TerminatedPrefix(readBuf[..checkedIdx], rest)
      modifies this`post, this`url, this`checkState, readBuf
      ensures readBuf[checkedIdx..] == old(readBuf[checkedIdx..])
      ensures Recorded(ParseTarget(old(readBuf[..checkedIdx]), isPost, rest), accepted)
    {
      hide SameIgnoringCase, CStr, StrCatAt, SkipAuthority, StrEnd, CutToken;
      var target := NextToken(readBuf[..checkedIdx], rest);
      var version := Cut(target);
      if version.None? {
        return false;
      }
      var v := NextToken(readBuf[..checkedIdx], version.value);
      if !SameIgnoringCase(CStr(readBuf[..checkedIdx], v), "HTTP/1.1") {
        return false;
      }
      var path := SkipAuthority(readBuf[..checkedIdx], target);
      if path.None? || path.value == checkedIdx || readBuf[path.value] != '/' {
        return false;
      }
      if StrEnd(readBuf[..checkedIdx], path.value) == path.value + 1 {
        DefaultPageFits(readBuf[..checkedIdx], target, version.value - 1, v, path.value);
        StrCat(path.value + 1, DEFAULT_PAGE);
      }
      post, url, checkState := isPost, path.value, Header;
      return true;
    }

    /** The parse result r is what the buffer and the fields say now. */
    twostate predicate Recorded(r: ParsedLine, accepted: bool)
      requires checkedIdx <= readBuf.Length
      reads this, readBuf
    {
      && accepted == r.ok && readBuf[..checkedIdx] == r.bytes
      && if r.ok then post == r.post && url == r.url && checkState == Header
         else post == old(post) && url == old(url) && checkState == old(checkState)
    }

    /** One header line: what it says about the connection and the length of the body. */
    method ParseHeaders(text: nat) returns (ret: Outcome)
      requires Valid() && checkState == Header && text <= checkedIdx && url <= readIdx
      modifies this`linger, this`contentLength, this`checkState
      ensures var line := CStr(readBuf[..checkedIdx], text);
              if line != "" then
                && ret == NoRequest && checkState == Header
                && linger == ConnectionHeader(line, old(linger))
                && contentLength == LengthHeader(line, old(contentLength))
              else
                && linger == old(linger) && contentLength == old(contentLength)
                && if contentLength != 0 then ret == NoRequest && checkState == Content
                   else ret == Request(post, CStr(readBuf[..readIdx], url), linger, None) && checkState == Header
    {
      hide CStr, AToInt;
      var line := CStr(readBuf[..checkedIdx], text);
      if line == "" {
        if contentLength != 0 {
          checkState := Content;
          return NoRequest;
        }
        return DoRequest(None);
      } else if StartsIgnoringCase(line, "Connection:") {
        var value := line[SkipBlanks(line, 11)..];
        if SameIgnoringCase(value, "keep-alive") {
          linger := true;
        }
      } else if StartsIgnoringCase(line, "Content-length:") {
        contentLength := AToInt(line[15..]);
      }
      return NoRequest;
    }

    /** What do_request is called with. */
    function DoRequest(body: Option<string>): Outcome
      requires url <= readIdx <= readBuf.Length
      reads this, readBuf
    {
      Request(post, CStr(readBuf[..readIdx], url), linger, body)
    }

    /** pares_content; the check against the end of the buffer is not in the source, see StrayTerminator. */
    method ParseContent(text: nat) returns (ret: Outcome)
      requires Valid() && checkState == Content && text <= checkedIdx
      modifies readBuf
      ensures Valid()
      ensures if readIdx >= contentLength + checkedIdx
              then (View(), ret) == FinishBody(old(View()), text)
              else ret == NoRequest && View() == old(View())
    {
      hide CStr;
      if readIdx >= contentLength + checkedIdx {
        var end := text + contentLength;
        if contentLength < 0 || end >= readBuf.Length {
          return StrayTerminator;
        }
        ghost var d := readBuf[..readIdx];
        readBuf[end] := NUL;
        assert readBuf[..readIdx] == TerminateBody(d, end);
        assert readBuf[..end] == d[..end];
        return DoRequest(Some(CStr(readBuf[..end], text)));
      }
      return NoRequest;
    }

    /** A complete line in front of m_checked_idx is taken up; the text of the line starts at text. */
    method TakeLine(text: nat) returns (ret: Outcome)
      requires readBuf.Length == READ_BUFFER_SIZE && checkState != Content
      requires startLine == checkedIdx <= readIdx <= readBuf.Length && text < checkedIdx
      requires checkState == Header ==> url <= text
      requires TerminatedPrefix(View().data[..checkedIdx], text)
      modifies this`post, this`url, this`checkState, this`linger, this`contentLength, readBuf
      ensures readBuf.Length == READ_BUFFER_SIZE && 0 <= readIdx <= readBuf.Length
      ensures (View(), ret) == LineTaken(old(View()), text)
    {
      hide CStr, ParseRequestLine, ConnectionHeader, LengthHeader;
      ghost var tail := readBuf[checkedIdx..];
      assert readBuf[..readIdx][..checkedIdx] == readBuf[..checkedIdx];
      assert tail[..readIdx - checkedIdx] == readBuf[..readIdx][checkedIdx..];
      if checkState == RequestLine {
        var accepted := ParseRequestLineInPlace(text);
        assert readBuf[..readIdx] == readBuf[..checkedIdx] + tail[..readIdx - checkedIdx];
        return if accepted then NoRequest else BadRequest;
      }
      assert readBuf[checkedIdx - 1] == NUL;
      ret := ParseHeaders(text);
    }

    /** What process_read still has to do leads to goal, when it goes round with this line status. */
    ghost predicate LeadsTo(ver: Version, lineStatus: LineStatus, goal: (Conn, Outcome))
      reads this, readBuf
    {
      && Valid()
      && match lineStatus
         case LineOk => Process(ver, View()) == goal
         case LineOpen => checkState == Content && ver == AsWritten && ScanOn(View()) == goal
         case LineBad => false
    }

    /** The part of process_read's loop body for the request-line and header states. */
    method LineRound(ghost ver: Version, ghost s: Conn) returns (ret: Outcome)
      requires readBuf.Length == READ_BUFFER_SIZE && 0 <= readIdx <= readBuf.Length && checkState != Content
      requires Inv(s) && ScanLine(s.data, s.checked) == Line(checkedIdx)
      requires View() == s.(data := TerminateLine(s.data, checkedIdx), checked := checkedIdx)
      modifies this`startLine, this`post, this`url, this`checkState, this`linger, this`contentLength, readBuf
      ensures Valid() && checkedIdx > s.checked
      ensures if ret == NoRequest then Process(ver, View()) == Process(ver, s) else (View(), ret) == Process(ver, s)
    {
      hide HandleLine, FinishBody, Process, ScanOn, LineTaken, TerminateLine, TerminatedPrefix;
      RoundOfProcess(ver, s);
      LineTakenIs(s, checkedIdx);
      var text := startLine;
      startLine := checkedIdx;
      assert readBuf[..checkedIdx] == readBuf[..readIdx][..checkedIdx];
      ret := TakeLine(text);
    }

    /** The part of process_read's loop body for the content state; more says whether the loop goes round. */
    method ContentRound(ghost ver: Version, returnInBody: bool) returns (ret: Outcome, more: bool)
      requires Valid() && checkState == Content && returnInBody == (ver == Repaired)
      modifies this`startLine, readBuf
      ensures Valid() && checkedIdx == old(checkedIdx) && checkState == Content
      ensures if more then LeadsTo(ver, LineOpen, Process(ver, old(View())))
              else (View(), ret) == Process(ver, old(View()))
    {
      hide FinishBody, Process, ScanOn;
      RoundOfProcess(ver, View());
      var text := startLine;
      startLine := checkedIdx;
      ret := ParseContent(text);
      more := ret == NoRequest && !returnInBody;
    }

    /**
    process_read. As written, the loop goes on to look for lines in a body that is not complete; the repaired
    loop returns instead.
    */
    method ProcessRead(ghost ver: Version, returnInBody: bool) returns (ret: Outcome)
      requires Valid()
      requires returnInBody == (ver == Repaired)
      modifies this`checkedIdx, this`startLine, this`checkState, this`post, this`url, this`contentLength,
               this`linger, readBuf
      ensures Valid()
      ensures (View(), ret) == Process(ver, old(View()))
    {
      hide Process, ScanOn, ScanLine, TerminateLine;
      ghost var goal := Process(ver, View());
      var lineStatus := LineOk;
      while true
        invariant LeadsTo(ver, lineStatus, goal)
        decreases readIdx - checkedIdx, if lineStatus == LineOk then 1 else 0
      {
        ghost var s := View();
        if !(checkState == Content && lineStatus == LineOk) {
          if lineStatus == LineOpen {
            ScanOnIs(s);
          } else {
            RoundOfProcess(ver, s);
          }
          lineStatus := ParseLine();
          if lineStatus != LineOk {
            return NoRequest;
          }
        }
        if checkState != Content {
          ret := LineRound(ver, s);
          if ret != NoRequest {
            return;
          }
        } else {
          var more;
          ret, more := ContentRound(ver, returnInBody);
          if !more {
            return;
          }
          lineStatus := LineOpen;
        }
      }
    }
  }

  /** HandleLine, after the line end has been replaced and the cursors have been moved behind it. */
  ghost function LineTaken(s: Conn, text: nat): (Conn, Outcome)
    requires s.checked <= |s.data| && TerminatedPrefix(s.data[..s.checked], text)
    requires s.phase != RequestLine ==> s.url <= |s.data|
  {
    var d, next := s.data, s.checked;
    if s.phase == RequestLine then
      var r := ParseRequestLine(d[..next], text);
      var s1 := s.(data := r.bytes + d[next..]);
      if r.ok then (s1.(phase := Header, post := r.post, url := r.url), NoRequest) else (s1, BadRequest)
    else
      var line := CStr(d[..next], text);
      if line != "" then
        (s.(keepAlive := ConnectionHeader(line, s.keepAlive),
            contentLength := LengthHeader(line, s.contentLength)), NoRequest)
      else if s.contentLength != 0 then (s.(phase := Content), NoRequest)
      else (s, Request(s.post, CStr(d, s.url), s.keepAlive, None))
  }

  lemma LineTakenIs(s: Conn, next: nat)
    requires Inv(s) && s.phase != Content && s.checked + 2 <= next <= |s.data|
    ensures var d := TerminateLine(s.data, next);
            var t := s.(data := d, checked := next, start := next);
            && TerminatedPrefix(d[..next], s.start) && (t.phase != RequestLine ==> t.url < s.start)
            && LineTaken(t, s.start) == HandleLine(s, next)
  {
    hide ParseRequestLine, CStr, ConnectionHeader, LengthHeader, TerminateLine;
    TerminatedLine(s.data, next, s.start);
  }

  /** process_read, unfolded by one round of its loop. */
  lemma RoundOfProcess(ver: Version, s: Conn)
    requires Inv(s)
    ensures s.phase != Content ==>
              match ScanLine(s.data, s.checked)
              case Line(next) =>
                && s.checked + 2 <= next
                && var (t, o) := HandleLine(s, next);
                   Process(ver, s) == if o == NoRequest then Process(ver, t) else (t, o)
              case Open(j) => Process(ver, s) == (s.(checked := j), NoRequest) && Inv(s.(checked := j))
              case Bad(j) => Process(ver, s) == (s.(checked := j), NoRequest) && Inv(s.(checked := j))
    ensures s.phase == Content ==>
              var s1 := s.(start := s.checked);
              && Inv(s1)
              && Process(ver, s) ==
                 if |s.data| >= s.checked + s.contentLength then FinishBody(s1, s.start)
                 else if ver == Repaired then (s1, NoRequest)
                 else ScanOn(s1)
  {
    hide HandleLine, FinishBody;
    ScanStop(s.data, s.checked);
  }

  lemma ScanOnIs(s: Conn)
    requires Inv(s) && s.phase == Content
    ensures match ScanLine(s.data, s.checked)
            case Line(next) =>
              var t := s.(data := TerminateLine(s.data, next), checked := next);
              s.checked + 2 <= next && Inv(t) && ScanOn(s) == Process(AsWritten, t)
            case Open(j) => ScanOn(s) == (s.(checked := j), NoRequest) && Inv(s.(checked := j))
            case Bad(j) => ScanOn(s) == (s.(checked := j), NoRequest) && Inv(s.(checked := j))
  {
    ScanStop(s.data, s.checked);
  }

  /** The rest of process_read as written, in a body that is not complete. */
  ghost function ScanOn(s: Conn): (Conn, Outcome)
    requires Inv(s) && s.phase == Content
  {
    ScanStop(s.data, s.checked);
    match ScanLine(s.data, s.checked)
    case Open(j) => (s.(checked := j), NoRequest)
    case Bad(j) => (s.(checked := j), NoRequest)
    case Line(next) => Process(AsWritten, s.(data := TerminateLine(s.data, next), checked := next))
  }

  lemma GetIsNotPost(s: string)
    requires SameIgnoringCase(s, "GET")
    ensures !SameIgnoringCase(s, "POST")
  {
  }
}
