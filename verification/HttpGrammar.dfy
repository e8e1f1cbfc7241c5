/**
What the parser accepts, stated from the other side: a message is written out as bytes, and parsing the
bytes gives the message back. Together with the independence of splitting, this says what every sequence
of reads that delivers a message leads to.
*/
module HttpGrammar {
  import opened CStrings
  import opened SourceVersion
  import opened HttpRequest
  import opened HttpChunking
  import opened HttpSplitBody

  const CRLF := "\r\n"

  /** authority is empty, or a scheme and a host before the path. */
  datatype Target = Target(authority: string, path: string)

  datatype Message = Message(method_: string, gap1: string, target: Target, gap2: string, version: string,
                             headers: seq<string>, body: string)

  predicate IsGap(s: string) {
    s != "" && forall i :: 0 <= i < |s| ==> IsBlank(s[i])
  }

  /** No character that ends a line or a C string. */
  predicate IsText(s: string) {
    forall i :: 0 <= i < |s| ==> s[i] != '\r' && s[i] != '\n' && s[i] != NUL
  }

  predicate IsToken(s: string) {
    IsText(s) && forall i :: 0 <= i < |s| ==> !IsBlank(s[i])
  }

  predicate IsScheme(s: string) {
    SameIgnoringCase(s, "http://") || SameIgnoringCase(s, "https://")
  }

  predicate IsAuthority(s: string) {
    s == "" || exists n | 0 <= n <= |s| :: IsScheme(s[..n]) && '/' !in s[n..]
  }

  predicate IsTarget(t: Target) {
    && IsAuthority(t.authority) && IsToken(t.authority)
    && t.path != "" && t.path[0] == '/' && IsToken(t.path)
  }

  ghost predicate ValidMessage(m: Message) {
    && (SameIgnoringCase(m.method_, "GET") || SameIgnoringCase(m.method_, "POST")) && IsToken(m.method_)
    && IsGap(m.gap1) && IsTarget(m.target) && IsGap(m.gap2)
    && SameIgnoringCase(m.version, "HTTP/1.1") && IsToken(m.version)
    && (forall i :: 0 <= i < |m.headers| ==> m.headers[i] != "" && IsText(m.headers[i]))
    && |m.body| == BodyLength(m.headers, 0)
  }

  function RequestLineText(m: Message): string {
    m.method_ + m.gap1 + (m.target.authority + m.target.path) + m.gap2 + m.version
  }

  function HeaderText(headers: seq<string>): string {
    if headers == [] then CRLF else headers[0] + CRLF + HeaderText(headers[1..])
  }

  function Text(m: Message): string {
    RequestLineText(m) + CRLF + HeaderText(m.headers) + m.body
  }

  // ---------- What a message means ----------

  function BodyLength(headers: seq<string>, n: int): int {
    if headers == [] then n else BodyLength(headers[1..], LengthHeader(headers[0], n))
  }

  function KeepAlive(headers: seq<string>, k: bool): bool {
    if headers == [] then k else KeepAlive(headers[1..], ConnectionHeader(headers[0], k))
  }

  function PathOf(m: Message): string {
    if m.target.path == "/" then "/" + DEFAULT_PAGE else m.target.path
  }

  function Meaning(m: Message): Outcome {
    Request(SameIgnoringCase(m.method_, "POST"), PathOf(m), KeepAlive(m.headers, false),
            if m.body == "" then None else Some(CStr(m.body, 0)))
  }

  // ---------- The request line ----------

  lemma {:induction false} StrPbrkBlankIs(d: string, i: nat, e: nat)
    requires i <= e < |d| && IsBlank(d[e])
    requires forall k :: i <= k < e ==> !IsBlank(d[k]) && d[k] != NUL
    ensures StrPbrkBlank(d, i) == Some(e)
    decreases e - i
  {
    if i < e {
      StrPbrkBlankIs(d, i + 1, e);
    }
  }

  lemma {:induction false} SkipBlanksIs(d: string, i: nat, e: nat)
    requires i <= e < |d| && !IsBlank(d[e])
    requires forall k :: i <= k < e ==> IsBlank(d[k])
    ensures SkipBlanks(d, i) == e
    decreases e - i
  {
    if i < e {
      SkipBlanksIs(d, i + 1, e);
    }
  }

  lemma {:induction false} StrChrIs(d: string, i: nat, c: char, e: nat)
    requires i <= e < |d| && d[e] == c && c != NUL
    requires forall k :: i <= k < e ==> d[k] != c && d[k] != NUL
    ensures StrChr(d, i, c) == Some(e)
    decreases e - i
  {
    if i < e {
      StrChrIs(d, i + 1, c, e);
    }
  }

  lemma NotScheme(s: string, scheme: string)
    requires s != "" && s[0] == '/' && scheme in {"http://", "https://"}
    ensures !StartsIgnoringCase(s, scheme)
  {
    if |s| >= |scheme| {
      assert s[..|scheme|][0] == s[0];
    }
  }

  lemma SchemesDiffer(s: string, n: nat)
    requires n <= |s| && IsScheme(s[..n])
    ensures if SameIgnoringCase(s[..n], "http://") then n == 7 && StartsIgnoringCase(s, "http://")
            else n == 8 && StartsIgnoringCase(s, "https://") && !StartsIgnoringCase(s, "http://")
  {
    if !SameIgnoringCase(s[..n], "http://") {
      assert s[..n][4] == s[..7][4] == s[4];
    }
  }

  /** The text at u in p is a target, and it is followed by a NUL. */
  ghost predicate TargetAt(p: string, u: nat, t: Target) {
    var end := u + |t.authority| + |t.path|;
    && IsTarget(t) && end < |p| && p[u..end] == t.authority + t.path && p[end] == NUL
  }

  lemma TargetStrings(p: string, u: nat, t: Target)
    requires TargetAt(p, u, t)
    ensures CStr(p, u) == t.authority + t.path
    ensures CStr(p, u + |t.authority|) == t.path && StrEnd(p, u + |t.authority|) == u + |t.authority| + |t.path|
    ensures forall k :: 0 <= k < |t.authority| ==> p[u + k] == t.authority[k]
    ensures p[u + |t.authority|] == '/'
  {
    var whole := t.authority + t.path;
    var a, end := |t.authority|, u + |whole|;
    forall k | u <= k < end
      ensures p[k] == whole[k - u] && p[k] != NUL
    {
      assert p[u..end][k - u] == whole[k - u];
    }
    StrEndIs(p, u, end);
    assert p[u + a..end] == t.path;
    StrEndIs(p, u + a, end);
  }

  /** The scheme and the host are skipped, and the path is found behind them. */
  lemma AuthoritySkipped(p: string, u: nat, t: Target)
    requires TargetAt(p, u, t)
    ensures SkipAuthority(p, u) == Some(u + |t.authority|)
  {
    hide CStr, StartsIgnoringCase, SameIgnoringCase;
    var whole, a := t.authority + t.path, |t.authority|;
    TargetStrings(p, u, t);
    NotScheme(t.path, "https://");
    if a == 0 {
      assert whole == t.path;
      NotScheme(t.path, "http://");
    } else {
      var n := SchemeLength(t.authority);
      assert whole[..n] == t.authority[..n];
      SchemesDiffer(whole, n);
      forall k | u + n <= k < u + a
        ensures p[k] != '/' && p[k] != NUL
      {
        assert t.authority[n..][k - u - n] == p[k];
      }
      StrChrIs(p, u + n, '/', u + a);
    }
  }

  lemma SchemeLength(s: string) returns (n: nat)
    requires s != "" && IsAuthority(s)
    ensures n <= |s| && IsScheme(s[..n]) && '/' !in s[n..]
  {
    n :| 0 <= n <= |s| && IsScheme(s[..n]) && '/' !in s[n..];
  }

  lemma TokenCut(p: string, i: nat, token: string)
    requires TerminatedPrefix(p, i) && IsToken(token) && i + |token| < |p|
    requires p[i..i + |token|] == token && IsBlank(p[i + |token|])
    ensures CutToken(p, i) == (p[i + |token| := NUL], Some(i + |token| + 1))
  {
    forall k | i <= k < i + |token|
      ensures p[k] == token[k - i]
    {
      assert p[i..i + |token|][k - i] == token[k - i];
    }
    StrPbrkBlankIs(p, i, i + |token|);
  }

  /** The gap began with the blank that became a NUL. */
  lemma GapSkipped(p: string, i: nat, gap: string)
    requires IsGap(gap) && i + |gap| < |p| && p[i + 1..i + |gap|] == gap[1..] && !IsBlank(p[i + |gap|])
    ensures SkipBlanks(p, i + 1) == i + |gap|
  {
    forall k | i + 1 <= k < i + |gap|
      ensures p[k] == gap[k - i]
    {
      assert p[i + 1..i + |gap|][k - i - 1] == gap[1..][k - i - 1];
    }
    SkipBlanksIs(p, i + 1, i + |gap|);
  }

  /** p holds text at position i. */
  ghost predicate At(p: string, i: nat, text: string) {
    i + |text| <= |p| && p[i..i + |text|] == text
  }

  lemma NonBlankStart(p: string, i: nat, token: string)
    requires At(p, i, token) && token != "" && IsToken(token)
    ensures i < |p| && !IsBlank(p[i]) && p[i] != NUL
  {
    assert p[i] == token[0];
  }

  lemma AtKept(p: string, e: nat, c: char, i: nat, text: string)
    requires At(p, i, text) && e < |p| && (e < i || i + |text| <= e)
    ensures At(p[e := c], i, text)
  {
  }

  /** What is in a line from its first NUL on, after its line end has become two NULs: at least these two. */
  predicate IsTail(s: string) {
    |s| >= 2 && s[0] == NUL && s[|s| - 2] == NUL && s[|s| - 1] == NUL
  }

  const TAIL := [NUL, NUL]

  /** The request line of a message, after its line end has become two NULs. */
  function Terminated(m: Message, tail: string): string {
    RequestLineText(m) + tail
  }

  /** What follows the method and its gap. */
  function TargetOn(m: Message, tail: string): string {
    m.target.authority + m.target.path + m.gap2 + m.version + tail
  }

  lemma FourParts(a: string, b: string, c: string, e: string)
    ensures var d := a + b + c + e;
            At(d, 0, a) && At(d, |a|, b) && At(d, |a| + |b|, c) && At(d, |a| + |b| + |c|, e)
  {
  }

  lemma Regrouped(a: string, b: string, c: string, d: string, e: string, f: string)
    ensures (a + b + c + d + e) + f == a + b + (c + d + e + f)
  {
  }

  lemma EndsInNuls(p: string, head: string, tail: string, i: nat)
    requires IsTail(tail) && p == head + tail && i <= |head|
    ensures TerminatedPrefix(p, i)
  {
  }

  lemma Layout(m: Message, tail: string)
    requires IsTail(tail)
    ensures Terminated(m, tail) == m.method_ + m.gap1 + TargetOn(m, tail)
    ensures var t, d := m.target.authority + m.target.path, TargetOn(m, tail);
            && At(d, 0, t) && At(d, |t|, m.gap2) && At(d, |t| + |m.gap2|, m.version)
            && At(d, |t| + |m.gap2| + |m.version|, tail)
            && TerminatedPrefix(Terminated(m, tail), |m.method_| + |m.gap1|)
  {
    hide At, IsTail, TerminatedPrefix;
    var t := m.target.authority + m.target.path;
    FourParts(t, m.gap2, m.version, tail);
    Regrouped(m.method_, m.gap1, t, m.gap2, m.version, tail);
    EndsInNuls(Terminated(m, tail), RequestLineText(m), tail, |m.method_| + |m.gap1|);
  }

  lemma AtTail(p: string, i: nat, text: string)
    requires At(p, i, text) && text != ""
    ensures p[i + 1..i + |text|] == text[1..] && p[i] == text[0]
  {
    assert p[i + 1..i + |text|] == p[i..i + |text|][1..];
    assert p[i..i + |text|][0] == p[i];
  }

  lemma MethodCut(p: string, method_: string, gap: string, rest: string)
    requires IsToken(method_) && IsGap(gap) && rest != "" && !IsBlank(rest[0])
    requires p == method_ + gap + rest && TerminatedPrefix(p, |method_| + |gap|)
    ensures var a, u := |method_|, |method_| + |gap|;
            && TerminatedPrefix(p, 0)
            && CutToken(p, 0) == (p[a := NUL], Some(a + 1)) && CStr(p[a := NUL], 0) == method_
            && SkipBlanks(p[a := NUL], a + 1) == u
            && p[a := NUL][u..] == rest
  {
    var a, u := |method_|, |method_| + |gap|;
    assert At(p, 0, method_) && At(p, a, gap);
    AtTail(p, a, gap);
    TokenCut(p, 0, method_);
    var p1 := p[a := NUL];
    assert forall k :: 0 <= k < a ==> p1[k] == method_[k];
    StrEndIs(p1, 0, a);
    assert p1[..a] == method_;
    assert p1[u] == rest[0];
    assert p1[a + 1..u] == p[a + 1..u];
    GapSkipped(p1, a, gap);
  }

  lemma AtInRest(p: string, i: nat, j: nat, text: string)
    requires i <= |p| && At(p[i..], j, text)
    ensures At(p, i + j, text)
  {
    assert p[i + j..i + j + |text|] == p[i..][j..j + |text|];
  }

  lemma TextAt(p: string, i: nat, text: string)
    requires At(p, i, text) && IsToken(text) && i + |text| < |p| && p[i + |text|] == NUL
    ensures CStr(p, i) == text
  {
    assert forall k :: i <= k < i + |text| ==> p[k] == p[i..i + |text|][k - i];
    StrEndIs(p, i, i + |text|);
  }

  lemma TargetIsToken(t: Target)
    requires IsTarget(t)
    ensures IsToken(t.authority + t.path) && t.path != ""
  {
    hide IsAuthority;
  }

  lemma TargetCut(p: string, u: nat, t: Target, gap: string, version: string)
    requires IsTarget(t) && IsGap(gap) && IsToken(version) && version != ""
    requires var w := t.authority + t.path;
             && At(p, u, w) && At(p, u + |w|, gap) && At(p, u + |w| + |gap|, version)
             && u + |w| + |gap| + |version| + 2 <= |p| && p[u + |w| + |gap| + |version|] == NUL
             && TerminatedPrefix(p, u)
    ensures var e := u + |t.authority| + |t.path|;
            var p2 := p[e := NUL];
            && CutToken(p, u) == (p2, Some(e + 1)) && TerminatedPrefix(p2, e + 1)
            && NextToken(p2, e + 1) == e + |gap| && CStr(p2, e + |gap|) == version
            && TargetAt(p2, u, t)
  {
    hide IsTarget, IsToken, CStr;
    var w := t.authority + t.path;
    var e, v := u + |w|, u + |w| + |gap|;
    TargetIsToken(t);
    AtTail(p, e, gap);
    TokenCut(p, u, w);
    var p2 := p[e := NUL];
    AtKept(p, e, NUL, v, version);
    NonBlankStart(p2, v, version);
    assert p2[e + 1..v] == p[e + 1..v];
    GapSkipped(p2, e, gap);
    TextAt(p2, v, version);
    AtKept(p, e, NUL, u, w);
  }

  ghost predicate Accepted(r: ParsedLine, post: bool, t: Target, url: nat) {
    && r.ok && r.post == post && r.url == url < |r.bytes|
    && CStr(r.bytes, r.url) == if t.path == "/" then "/" + DEFAULT_PAGE else t.path
  }

  lemma DefaultPageText(p: string, path: nat)
    requires path + 1 + |DEFAULT_PAGE| < |p| && p[path] == '/'
    ensures CStr(StrCatAt(p, path + 1, DEFAULT_PAGE), path) == "/" + DEFAULT_PAGE
  {
    var r := StrCatAt(p, path + 1, DEFAULT_PAGE);
    var end := path + 1 + |DEFAULT_PAGE|;
    assert r[path..end] == "/" + DEFAULT_PAGE;
    forall k | path <= k < end
      ensures r[k] != NUL
    {
      assert r[path..end][k - path] != NUL;
    }
    StrEndIs(r, path, end);
  }

  /** The rest of the line, once the URL has been cut off. */
  lemma TargetAccepted(p: string, post: bool, u: nat, t: Target, v: nat)
    requires var end := u + |t.authority| + |t.path|;
             && TargetAt(p, u, t) && TerminatedPrefix(p, end + 1)
             && NextToken(p, end + 1) == v && SameIgnoringCase(CStr(p, v), "HTTP/1.1")
    ensures UrlAt(p, u, u + |t.authority| + |t.path|)
    ensures Accepted(FinishRequestLine(p, post, u, u + |t.authority| + |t.path| + 1), post, t, u + |t.authority|)
  {
    hide SameIgnoringCase, SkipAuthority, NextToken, IsTarget, CStr, StrCatAt, StrEnd;
    AuthoritySkipped(p, u, t);
    TargetStrings(p, u, t);
    TargetEnds(p, u, t);
    var path := u + |t.authority|;
    TargetHasPath(t);
    if |t.path| == 1 {
      DefaultPageFits(p, u, path + 1, v, path);
      DefaultPageText(p, path);
    }
  }

  lemma TargetHasPath(t: Target)
    requires IsTarget(t)
    ensures t.path != "" && (t.path == "/" <==> |t.path| == 1)
  {
    hide IsAuthority, IsToken;
  }

  lemma TargetEnds(p: string, u: nat, t: Target)
    requires TargetAt(p, u, t)
    ensures UrlAt(p, u, u + |t.authority| + |t.path|)
  {
    var end := u + |t.authority| + |t.path|;
    forall k | u <= k < end
      ensures p[k] != NUL
    {
      assert p[u..end][k - u] == (t.authority + t.path)[k - u];
    }
  }

  lemma AtFits(p: string, i: nat, text: string)
    requires At(p, i, text)
    ensures i + |text| <= |p|
  {
  }

  lemma TargetParts(p: string, u: nat, m: Message, tail: string)
    requires ValidMessage(m) && IsTail(tail) && TerminatedPrefix(p, u) && p[u..] == TargetOn(m, tail)
    ensures var w := m.target.authority + m.target.path;
            var end := u + |w| + |m.gap2| + |m.version|;
            && At(p, u, w) && At(p, u + |w|, m.gap2) && At(p, u + |w| + |m.gap2|, m.version)
            && end + 2 <= |p| && p[end] == NUL && m.version != ""
  {
    hide IsTarget, IsToken, IsGap, TargetOn, At;
    var w := m.target.authority + m.target.path;
    var end := u + |w| + |m.gap2| + |m.version|;
    Layout(m, tail);
    AtInRest(p, u, 0, w);
    AtInRest(p, u, |w|, m.gap2);
    AtInRest(p, u, |w| + |m.gap2|, m.version);
    AtInRest(p, u, |w| + |m.gap2| + |m.version|, tail);
    AtTail(p, end, tail);
    AtFits(p, end, tail);
  }

  lemma TargetOnAccepted(p: string, post: bool, i: nat, u: nat, m: Message, tail: string)
    requires ValidMessage(m) && IsTail(tail) && TerminatedPrefix(p, i) && TerminatedPrefix(p, u)
    requires SkipBlanks(p, i) == u && p[u..] == TargetOn(m, tail)
    ensures Accepted(ParseTarget(p, post, i), post, m.target, u + |m.target.authority|)
  {
    hide *;
    PartsOf(m);
    TargetParts(p, u, m, tail);
    TargetCut(p, u, m.target, m.gap2, m.version);
    var e := u + |m.target.authority| + |m.target.path|;
    TargetAccepted(p[e := NUL], post, u, m.target, e + |m.gap2|);
    ParseByTarget(p, post, i, u, p[e := NUL], e + 1);
  }

  lemma PartsOf(m: Message)
    requires ValidMessage(m)
    ensures IsTarget(m.target) && IsGap(m.gap2) && IsToken(m.version) && SameIgnoringCase(m.version, "HTTP/1.1")
  {
    hide IsTarget, IsGap, IsToken, SameIgnoringCase;
  }

  lemma ParseByTarget(p: string, post: bool, i: nat, u: nat, p1: string, version: nat)
    requires TerminatedPrefix(p, i) && SkipBlanks(p, i) == u && TerminatedPrefix(p, u)
    requires CutToken(p, u) == (p1, Some(version))
    ensures u < version && TerminatedPrefix(p1, version) && UrlAt(p1, u, version - 1)
    ensures ParseTarget(p, post, i) == FinishRequestLine(p1, post, u, version)
  {
    hide CutToken, FinishRequestLine, SkipBlanks, UrlAt;
    NextTokenIs(p, i);
  }

  lemma NextTokenIs(p: string, i: nat)
    requires TerminatedPrefix(p, i)
    ensures NextToken(p, i) == SkipBlanks(p, i)
  {
  }

  lemma ParseByMethod(p: string, p1: string, rest: nat)
    requires TerminatedPrefix(p, 0) && CutToken(p, 0) == (p1, Some(rest))
    requires SameIgnoringCase(CStr(p1, 0), "GET") || SameIgnoringCase(CStr(p1, 0), "POST")
    ensures ParseRequestLine(p, 0) == ParseTarget(p1, SameIgnoringCase(CStr(p1, 0), "POST"), rest)
  {
    hide SameIgnoringCase, CStr, ParseTarget;
  }

  /** The method is cut off, and the target is found behind the blanks. */
  lemma MethodTaken(m: Message, tail: string)
    requires ValidMessage(m) && IsTail(tail)
    ensures var p := Terminated(m, tail); |m.method_| < |p| && TerminatedPrefix(p, 0)
    ensures var p := Terminated(m, tail);
            var p1, i, u := p[|m.method_| := NUL], |m.method_| + 1, |m.method_| + |m.gap1|;
            && CutToken(p, 0) == (p1, Some(i)) && TerminatedPrefix(p1, 0)
            && TerminatedPrefix(p1, i) && TerminatedPrefix(p1, u)
            && SkipBlanks(p1, i) == u && p1[u..] == TargetOn(m, tail) && CStr(p1, 0) == m.method_
            && (SameIgnoringCase(m.method_, "GET") || SameIgnoringCase(m.method_, "POST"))
  {
    hide SameIgnoringCase, CStr, RequestLineText, CutToken, SkipBlanks, Terminated, IsTarget, IsToken, IsGap,
         TargetOn, At;
    Layout(m, tail);
    TargetIsToken(m.target);
    NonBlankStart(TargetOn(m, tail), 0, m.target.authority + m.target.path);
    assert |TargetOn(m, tail)| > 0;
    MethodCut(Terminated(m, tail), m.method_, m.gap1, TargetOn(m, tail));
  }

  /**
  Every valid request line is accepted, and the URL that is found in the buffer is the path of the message. What
  follows a NUL in the line does not matter.
  */
  lemma RequestLineAccepted(m: Message, tail: string)
    requires ValidMessage(m) && IsTail(tail)
    ensures TerminatedPrefix(Terminated(m, tail), 0)
    ensures Accepted(ParseRequestLine(Terminated(m, tail), 0), SameIgnoringCase(m.method_, "POST"), m.target,
                     |m.method_| + |m.gap1| + |m.target.authority|)
  {
    hide *;
    MethodTaken(m, tail);
    var p := Terminated(m, tail);
    var p1 := p[|m.method_| := NUL];
    TargetOnAccepted(p1, SameIgnoringCase(m.method_, "POST"), |m.method_| + 1, |m.method_| + |m.gap1|, m, tail);
    ParseByMethod(p, p1, |m.method_| + 1);
  }

  /**
  Where the default page ends in the buffer: the bytes that stay free between its NUL and the next unparsed
  byte are as many as there are blanks in front of the protocol version, less one. With one blank there is
  no slack at all.
  */
  lemma DefaultPageSlack(m: Message)
    requires ValidMessage(m) && m.target.path == "/"
    ensures TerminatedPrefix(Terminated(m, TAIL), 0)
    ensures var r := ParseRequestLine(Terminated(m, TAIL), 0);
            r.ok && |r.bytes| - (r.url + 1 + |DEFAULT_PAGE| + 1) == |m.gap2| - 1
  {
    hide ParseRequestLine, IsTarget, IsGap, IsToken;
    RequestLineAccepted(m, TAIL);
    assert WellFormedParse(Terminated(m, TAIL), ParseRequestLine(Terminated(m, TAIL), 0));
  }

  // ---------- The lines of a message ----------

  lemma {:induction false} ScanText(d: string, i: nat, text: string)
    requires NoLineEnd(text) && At(d, i, text + CRLF)
    ensures ScanLine(d, i) == Line(i + |text| + 2)
    decreases |text|
  {
    assert d[i..i + |text| + 2][|text|] == '\r';
    assert d[i..i + |text| + 2][|text| + 1] == '\n';
    if text != "" {
      assert d[i..i + |text| + 2][0] == text[0];
      assert d[i + 1..i + |text| + 2] == d[i..i + |text| + 2][1..] == text[1..] + CRLF;
      ScanText(d, i + 1, text[1..]);
    }
  }

  lemma TextHasNoLineEnd(s: string)
    requires IsText(s)
    ensures NoLineEnd(s)
  {
  }

  lemma {:induction false} CStrShift(d: string, i: nat)
    requires i <= |d|
    ensures CStr(d, i) == CStr(d[i..], 0)
  {
    var e := StrEnd(d, i);
    assert forall k :: 0 <= k < e - i ==> d[i..][k] == d[i + k];
    StrEndIs(d[i..], 0, e - i);
    assert d[i..][..e - i] == d[i..e];
  }

  /** What is in front of the unparsed bytes. */
  ghost predicate AtLineStart(s: Conn, rest: string) {
    Inv(s) && UrlEnded(s) && s.start == s.checked && s.data[s.checked..] == rest
  }

  lemma LineHere(s: Conn, line: string, rest: string)
    requires AtLineStart(s, line + CRLF + rest) && IsText(line)
    ensures var next := s.checked + |line| + 2;
            && ScanLine(s.data, s.checked) == Line(next) && s.data[next..] == rest
            && CStr(TerminateLine(s.data, next)[..next], s.start) == line
  {
    hide CStr, UrlEnded;
    var i, n := s.checked, |line|;
    var next := i + n + 2;
    assert s.data[i..next] == s.data[i..][..n + 2] == line + CRLF;
    TextHasNoLineEnd(line);
    ScanText(s.data, i, line);
    var p := TerminateLine(s.data, next)[..next];
    assert s.data[i..i + n] == s.data[i..][..n] == line;
    assert p[i..i + n] == s.data[i..i + n];
    forall k | i <= k < i + n
      ensures p[k] != NUL
    {
      assert p[i..i + n][k - i] == line[k - i];
    }
    StrEndIs(p, i, i + n);
    assert s.data[next..] == s.data[i..][n + 2..] == rest;
  }

  lemma HeaderTaken(s: Conn, line: string, rest: string)
    requires s.phase == Header && AtLineStart(s, line + CRLF + rest) && IsText(line)
    ensures var next := s.checked + |line| + 2;
            && ScanLine(s.data, s.checked) == Line(next)
            && CStr(TerminateLine(s.data, next)[..next], s.start) == line
            && var t := HandleLine(s, next).0;
               AtLineStart(t, rest) && t.url == s.url && CStr(t.data, t.url) == CStr(s.data, s.url)
  {
    hide ConnectionHeader, LengthHeader, CStr, HandleRequestLine, ScanLine, IsText, UrlEnded;
    var next := s.checked + |line| + 2;
    LineHere(s, line, rest);
    LineKeepsTail(s, next);
    StepKeepsUrl(Repaired, s);
  }

  /** The body phase was reached with rest unparsed and a body of n characters announced. */
  ghost predicate InBody(t: Conn, size: nat, rest: string, n: int) {
    |t.data| == size && t.phase == Content && t.checked + |rest| == size && t.contentLength == n
  }

  /**
  What a request with this many bytes in front of its body and a length of n leads to, if rest is what has arrived
  behind them. The NUL behind the body has to fit the buffer.
  */
  function Completed(post: bool, url: string, keepAlive: bool, start: nat, n: int, rest: string): Outcome {
    if n == 0 then Request(post, url, keepAlive, None)
    else if n < 0 then StrayTerminator
    else if |rest| < n then NoRequest
    else if start + n >= READ_BUFFER_SIZE then StrayTerminator
    else Request(post, url, keepAlive, Some(CStr(rest[..n], 0)))
  }

  /** What handling the rest of a message leads to. */
  function Result(s: Conn, headers: seq<string>, rest: string): Outcome
    requires Inv(s) && s.phase == Header && |rest| <= |s.data|
  {
    Completed(s.post, CStr(s.data, s.url), KeepAlive(headers, s.keepAlive), |s.data| - |rest|,
              BodyLength(headers, s.contentLength), rest)
  }

  lemma OneHeader(ver: Version, s: Conn, line: string, rest: string)
    requires s.phase == Header && AtLineStart(s, line + CRLF + rest) && line != "" && IsText(line)
    ensures var t := HandleLine(s, s.checked + |line| + 2).0;
            && AtLineStart(t, rest) && t.phase == Header && Process(ver, s) == Process(ver, t)
            && t.url == s.url && CStr(t.data, t.url) == CStr(s.data, s.url) && t.post == s.post
            && t.keepAlive == ConnectionHeader(line, s.keepAlive)
            && t.contentLength == LengthHeader(line, s.contentLength) && |t.data| == |s.data|
  {
    hide ConnectionHeader, LengthHeader, ScanLine, CStr, IsText, HandleRequestLine, UrlEnded, TerminateLine,
         ContentStep;
    HeaderTaken(s, line, rest);
  }

  lemma {:induction false} HeadersAccepted(ver: Version, s: Conn, headers: seq<string>, rest: string)
    requires s.phase == Header && AtLineStart(s, HeaderText(headers) + rest)
    requires forall i :: 0 <= i < |headers| ==> headers[i] != "" && IsText(headers[i])
    ensures |rest| <= |s.data| && Process(ver, s).1 == Result(s, headers, rest)
    ensures var n := BodyLength(headers, s.contentLength);
            0 < n <= |rest| ==> InBody(Process(ver, s).0, |s.data|, rest, n)
    decreases |headers|
  {
    hide ConnectionHeader, LengthHeader, CStr, IsText, HandleLine, Process, UrlEnded, Completed;
    TailFits(s, HeaderText(headers), rest);
    if headers == [] {
      assert HeaderText(headers) + rest == CRLF + rest;
      BlankLine(ver, s, rest);
    } else {
      var more := HeaderText(headers[1..]) + rest;
      assert HeaderText(headers) + rest == headers[0] + CRLF + more;
      OneHeader(ver, s, headers[0], more);
      HeadersAccepted(ver, HandleLine(s, s.checked + |headers[0]| + 2).0, headers[1..], rest);
    }
  }

  lemma TailFits(s: Conn, head: string, rest: string)
    requires AtLineStart(s, head + rest)
    ensures |rest| <= |s.data|
  {
  }

  lemma EmptyIsText()
    ensures IsText("")
  {
  }

  /** The blank line: the request is complete, or its body follows. */
  lemma BlankStep(ver: Version, s: Conn, rest: string)
    requires s.phase == Header && AtLineStart(s, CRLF + rest)
    ensures var t := HandleLine(s, s.checked + 2).0;
            && AtLineStart(t, rest) && |t.data| == |s.data|
            && t.post == s.post && t.keepAlive == s.keepAlive && t.contentLength == s.contentLength
            && CStr(t.data, t.url) == CStr(s.data, s.url)
            && if s.contentLength == 0 then
                 Process(ver, s).1 == Request(s.post, CStr(s.data, s.url), s.keepAlive, None)
               else t.phase == Content && Process(ver, s) == Process(ver, t)
  {
    hide ConnectionHeader, LengthHeader, ScanLine, CStr, HandleRequestLine, UrlEnded, TerminateLine, ContentStep;
    assert CRLF + rest == "" + CRLF + rest;
    EmptyIsText();
    HeaderTaken(s, "", rest);
  }

  lemma BlankLine(ver: Version, s: Conn, rest: string)
    requires s.phase == Header && AtLineStart(s, CRLF + rest) && |rest| <= |s.data|
    ensures Process(ver, s).1 == Result(s, [], rest)
    ensures 0 < s.contentLength <= |rest| ==> InBody(Process(ver, s).0, |s.data|, rest, s.contentLength)
  {
    hide CStr, HandleLine, Process, UrlEnded, Completed, InBody;
    BlankStep(ver, s, rest);
    NoBody(s.post, CStr(s.data, s.url), s.keepAlive, |s.data| - |rest|, rest);
    if s.contentLength != 0 {
      BodyTaken(ver, HandleLine(s, s.checked + 2).0, rest);
    }
  }

  lemma NoBody(post: bool, url: string, keepAlive: bool, start: nat, rest: string)
    ensures Completed(post, url, keepAlive, start, 0, rest) == Request(post, url, keepAlive, None)
  {
  }

  lemma BodyTaken(ver: Version, t: Conn, rest: string)
    requires t.phase == Content && AtLineStart(t, rest)
    ensures Process(ver, t).1 ==
            Completed(t.post, CStr(t.data, t.url), t.keepAlive, t.checked, t.contentLength, rest)
    ensures 0 < t.contentLength <= |rest| ==> InBody(Process(ver, t).0, |t.data|, rest, t.contentLength)
  {
    hide ScanLine, CStr, LineStep, TerminateBody, StrEnd;
    var end := t.checked + t.contentLength;
    if t.contentLength > |rest| {
      StaysIncomplete(t);
    } else if t.contentLength > 0 && end < READ_BUFFER_SIZE {
      var d := TerminateBody(t.data, end);
      PrefixOf(d, t.data, end, t.start);
      UrlKept(t.data, d, t.url, t.start);
      CStrShift(d[..end], t.checked);
      assert d[..end][t.checked..] == t.data[..end][t.checked..] == t.data[t.checked..][..t.contentLength];
    }
  }

  lemma RequestLineTaken(m: Message, rest: string)
    requires ValidMessage(m)
    ensures var s := Feed(FRESH, RequestLineText(m) + CRLF + rest);
            match LineStep(s)
            case Again(t) =>
              && t.phase == Header && AtLineStart(t, rest) && t.contentLength == 0 && !t.keepAlive
              && t.post == SameIgnoringCase(m.method_, "POST") && CStr(t.data, t.url) == PathOf(m)
              && |t.data| == |s.data|
            case _ => false
  {
    hide SameIgnoringCase, ParseRequestLine, CStr, StrEnd, RequestLineText, IsText, HandleHeader;
    var line := RequestLineText(m);
    var s := Feed(FRESH, line + CRLF + rest);
    var next := |line| + 2;
    LineIsText(m);
    TextHasNoLineEnd(line);
    assert s.data[0..next] == line + CRLF;
    ScanText(s.data, 0, line);
    var d := TerminateLine(s.data, next);
    assert d[..next] == Terminated(m, TAIL);
    RequestLineAccepted(m, TAIL);
    var r := ParseRequestLine(Terminated(m, TAIL), 0);
    assert d[next..] == rest;
    var t := HandleLine(s, next).0;
    assert t.data == r.bytes + rest && t.data[..next] == r.bytes;
    LastNul(r.bytes, r.url);
    UrlKept(r.bytes, t.data, r.url, next);
  }

  lemma LastNul(p: string, i: nat)
    requires i < |p| && p[|p| - 1] == NUL
    ensures StrEnd(p, i) < |p|
  {
  }

  lemma LineIsText(m: Message)
    requires ValidMessage(m)
    ensures IsText(RequestLineText(m))
  {
  }

  ghost predicate ValidHead(m: Message) {
    && ValidMessage(m.(headers := [], body := ""))
    && forall i :: 0 <= i < |m.headers| ==> m.headers[i] != "" && IsText(m.headers[i])
  }

  function HeadText(m: Message): string {
    RequestLineText(m) + CRLF + HeaderText(m.headers)
  }

  /**
  What every stream leads to that begins with a request line and complete header lines, whatever length these announce
  and whatever follows them.
  */
  lemma HeadDecides(ver: Version, m: Message, rest: string)
    requires ValidHead(m)
    ensures WholeRun(ver, HeadText(m) + rest).1 ==
            Completed(SameIgnoringCase(m.method_, "POST"), PathOf(m), KeepAlive(m.headers, false), |HeadText(m)|,
                      BodyLength(m.headers, 0), rest)
  {
    hide CStr, ScanLine, RequestLineText, SameIgnoringCase, LengthHeader, ConnectionHeader, IsTarget, IsGap, IsToken,
         LineStep, ContentStep, HeaderText, IsText, UrlEnded, BodyLength, KeepAlive, Completed;
    var line := m.(headers := [], body := "");
    var more := HeaderText(m.headers) + rest;
    LineOfHead(m, rest);
    RequestLineTaken(line, more);
    var t := LineStep(Feed(FRESH, RequestLineText(line) + CRLF + more)).conn;
    HeadersAccepted(ver, t, m.headers, rest);
  }

  lemma LineOfHead(m: Message, rest: string)
    ensures var line := m.(headers := [], body := "");
            && HeadText(m) + rest == RequestLineText(line) + CRLF + (HeaderText(m.headers) + rest)
            && PathOf(line) == PathOf(m)
  {
    hide HeaderText;
  }

  /**
  Every valid message that fits the buffer is parsed to what it means, whatever follows it.
  */
  lemma MessageAccepted(ver: Version, m: Message, extra: string)
    requires ValidMessage(m) && |Text(m)| < READ_BUFFER_SIZE
    ensures WholeRun(ver, Text(m) + extra).1 == Meaning(m)
    ensures m.body != "" ==>
              InBody(WholeRun(ver, Text(m) + extra).0, |Text(m)| + |extra|, m.body + extra, |m.body|)
  {
    hide CStr, ScanLine, RequestLineText, SameIgnoringCase, LengthHeader, ConnectionHeader, IsTarget, IsGap, IsToken,
         LineStep, ContentStep, HeaderText, IsText, UrlEnded;
    var rest := HeaderText(m.headers) + (m.body + extra);
    assert Text(m) + extra == RequestLineText(m) + CRLF + rest;
    var s := Feed(FRESH, RequestLineText(m) + CRLF + rest);
    assert "" + (Text(m) + extra) == Text(m) + extra == s.data;
    RequestLineTaken(m, rest);
    var t := LineStep(s).conn;
    HeadersAccepted(ver, t, m.headers, m.body + extra);
    assert (m.body + extra)[..|m.body|] == m.body;
  }
}
