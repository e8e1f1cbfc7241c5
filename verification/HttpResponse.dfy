/**
What process_write puts in front of a file or an error page, and that the length and the connection header
it announces are those of the bytes that follow, as this server's own header parser would read them.
*/
module HttpResponse {
  import opened CStrings
  import opened HttpRequest
  import opened HttpGrammar

  const WRITE_BUFFER_SIZE: nat := 1024
  const INT_MAX: int := 0x7FFF_FFFF

  datatype HttpCode =
    | NoRequestCode | GetRequest | BadRequestCode | NoResource
    | ForbiddenRequest | FileRequest | InternalError | ClosedConnection

  const ERROR_403_FORM := "You not have permission to get file from this server.\n"
  const ERROR_404_FORM := "The requested file was not found on this server.\n"
  const ERROR_500_FORM := "There was an unusual problem serving the reqeusted file.\n"
  const EMPTY_PAGE := "<html><body></body></html>"

  function Digit(n: nat): char
    requires n < 10
  {
    '0' + n as char
  }

  /** %d of a number that is not negative */
  function Decimal(n: nat): (s: string)
    ensures s != ""
  {
    if n < 10 then [Digit(n)] else Decimal(n / 10) + [Digit(n % 10)]
  }

  function StatusLine(status: nat, title: string): string {
    "HTTP/1.1 " + Decimal(status) + " " + title + CRLF
  }

  function LengthLine(n: nat): string {
    "Content-Length:" + Decimal(n)
  }

  function LingerLine(linger: bool): string {
    "Connection:" + if linger then "keep-alive" else "close"
  }

  /** The status of the answer to a code, its title, and the page that is sent with it if there is no file. */
  function PageOf(code: HttpCode): (nat, string, string) {
    match code
    case InternalError => (500, "Internal", ERROR_500_FORM)
    case ForbiddenRequest => (403, "Forbidden", ERROR_403_FORM)
    case FileRequest => (200, "OK", "")
    case _ => (404, "Not Found", ERROR_404_FORM)
  }

  /** The codes that are answered; for the others, and for an empty file, the connection is closed. */
  predicate Answered(code: HttpCode, fileSize: nat) {
    code.InternalError? || code.BadRequestCode? || code.ForbiddenRequest? || (code.FileRequest? && fileSize != 0)
  }

  /** The size of the part of the answer that follows the headers. */
  function PayloadSize(code: HttpCode, fileSize: nat): nat {
    if code.FileRequest? then fileSize else |PageOf(code).2|
  }

  /** The contents of the write buffer. */
  function ResponseText(code: HttpCode, fileSize: nat, linger: bool): string {
    var (status, title, page) := PageOf(code);
    StatusLine(status, title)
    + (LengthLine(PayloadSize(code, fileSize)) + CRLF) + (LingerLine(linger) + CRLF) + CRLF + page
  }

  // ---------- Numbers ----------

  predicate AllDigits(s: string) {
    forall i :: 0 <= i < |s| ==> IsDigit(s[i])
  }

  lemma {:induction false} DigitsValueAppend(s: string, c: char, acc: nat)
    requires AllDigits(s) && IsDigit(c)
    ensures DigitsValue(s + [c], acc) == 10 * DigitsValue(s, acc) + (c - '0') as nat
    decreases |s|
  {
    if s == "" {
      assert (s + [c])[1..] == "";
    } else {
      assert (s + [c])[1..] == s[1..] + [c];
      DigitsValueAppend(s[1..], c, 10 * acc + (s[0] - '0') as nat);
    }
  }

  lemma {:induction false} DecimalValue(n: nat)
    ensures AllDigits(Decimal(n)) && DigitsValue(Decimal(n), 0) == n
  {
    if n < 10 {
      assert Decimal(n)[1..] == "";
    } else {
      DecimalValue(n / 10);
      DigitsValueAppend(Decimal(n / 10), Digit(n % 10), 0);
    }
  }

  lemma {:induction false} DecimalLength(n: nat, digits: nat, bound: nat)
    requires digits >= 1 && n < bound && bound <= Pow10(digits)
    ensures |Decimal(n)| <= digits
    decreases digits
  {
    if n >= 10 {
      DecimalLength(n / 10, digits - 1, Pow10(digits - 1));
    }
  }

  function Pow10(n: nat): nat {
    if n == 0 then 1 else 10 * Pow10(n - 1)
  }

  lemma DecimalFits(n: nat)
    requires n <= INT_MAX
    ensures |Decimal(n)| <= 10
  {
    assert Pow10(10) == 10_000_000_000;
    DecimalLength(n, 10, Pow10(10));
  }

  lemma LengthLineRead(n: nat, k: int)
    requires n <= INT_MAX
    ensures LengthHeader(LengthLine(n), k) == n
    ensures forall b :: ConnectionHeader(LengthLine(n), b) == b
  {
    var line := LengthLine(n);
    DecimalValue(n);
    assert line[..15] == "Content-Length:";
    assert line[15..] == Decimal(n);
    assert line[..11][2] == 'n' && LowerChar("Connection:"[3]) == 'n' && line[..11][3] == 't';
    assert IsDigit(Decimal(n)[0]);
  }

  lemma LingerLineRead(linger: bool, k: int)
    ensures ConnectionHeader(LingerLine(linger), false) == linger
    ensures LengthHeader(LingerLine(linger), k) == k
  {
    var line := LingerLine(linger);
    assert line[..11] == "Connection:";
    var value := if linger then "keep-alive" else "close";
    assert line[11] == value[0];
    assert SkipBlanks(line, 11) == 11;
    assert line[11..] == value;
  }

  /**
  The bytes of an answer are a status line, two headers, a blank line and a payload; reading the headers with
  the server's own parser gives the size of the payload and what was decided about the connection.
  */
  lemma Framing(code: HttpCode, file: string, linger: bool)
    requires Answered(code, |file|) && PayloadSize(code, |file|) <= INT_MAX
    ensures var (status, title, page) := PageOf(code);
            var payload := if code.FileRequest? then file else page;
            var headers := [LengthLine(PayloadSize(code, |file|)), LingerLine(linger)];
            && ResponseText(code, |file|, linger) + (if code.FileRequest? then file else "")
               == StatusLine(status, title) + HeaderText(headers) + payload
            && BodyLength(headers, 0) == |payload|
            && KeepAlive(headers, false) == linger
  {
    hide LengthLine, LingerLine, StatusLine, BodyLength, KeepAlive, HeaderText, ResponseText;
    var n := PayloadSize(code, |file|);
    HeadersRead(n, linger);
    ResponseIs(code, |file|, linger);
  }

  lemma ResponseIs(code: HttpCode, fileSize: nat, linger: bool)
    ensures var (status, title, page) := PageOf(code);
            ResponseText(code, fileSize, linger) ==
            StatusLine(status, title) + HeaderText([LengthLine(PayloadSize(code, fileSize)), LingerLine(linger)]) + page
  {
    hide LengthLine, LingerLine, StatusLine, HeaderText, PageOf, PayloadSize;
    var n := PayloadSize(code, fileSize);
    var (status, title, page) := PageOf(code);
    HeaderTextOfTwo(LengthLine(n), LingerLine(linger));
    Regrouped(StatusLine(status, title), LengthLine(n) + CRLF, LingerLine(linger) + CRLF, CRLF);
  }

  lemma Regrouped(a: string, b: string, c: string, d: string)
    ensures a + b + c + d == a + (b + c + d)
  {
  }

  lemma HeadersRead(n: nat, linger: bool)
    requires n <= INT_MAX
    ensures BodyLength([LengthLine(n), LingerLine(linger)], 0) == n
    ensures KeepAlive([LengthLine(n), LingerLine(linger)], false) == linger
  {
    hide LengthLine, LingerLine, LengthHeader, ConnectionHeader;
    var headers := [LengthLine(n), LingerLine(linger)];
    LengthLineRead(n, 0);
    LingerLineRead(linger, n);
    assert headers[1..] == [LingerLine(linger)] && headers[1..][1..] == [];
    assert BodyLength(headers[1..], n) == BodyLength(headers[1..][1..], n) == n;
    assert KeepAlive(headers[1..], false) == KeepAlive(headers[1..][1..], linger);
  }

  lemma HeaderTextOfTwo(a: string, b: string)
    ensures HeaderText([a, b]) == (a + CRLF) + (b + CRLF) + CRLF
  {
    assert [a, b][1..] == [b] && [b][1..] == [];
    assert HeaderText([b]) == b + CRLF + CRLF;
  }

  // ---------- The answer read back ----------

  /**
  The bytes are a first line, as the scanner of this server finds it, header lines and a blank line, and a payload;
  the header lines announce its length and whether the connection is kept.
  */
  ghost predicate ReadsAs(wire: string, first: string, headers: seq<string>, linger: bool, payload: string) {
    && wire == first + CRLF + (HeaderText(headers) + payload) && ScanLine(wire, 0) == Line(|first| + 2)
    && (forall i :: 0 <= i < |headers| ==> headers[i] != "" && IsText(headers[i]))
    && BodyLength(headers, 0) == |payload| && KeepAlive(headers, false) == linger
    && |headers| == 2 && HeadersSay(headers[0], headers[1], |payload|, linger)
  }

  /** The two header lines, as any client may read them. */
  ghost predicate HeadersSay(first: string, second: string, n: nat, linger: bool) {
    && |first| > 15 && first[..15] == "Content-Length:"
    && AllDigits(first[15..]) && DigitsValue(first[15..], 0) == n
    && second == if linger then "Connection:keep-alive" else "Connection:close"
  }

  /** What a status line consists of: the version, the number of the status in three digits, and its title. */
  ghost predicate IsStatusLine(line: string, status: nat, title: string) {
    && |line| == 13 + |title| && line[..9] == "HTTP/1.1 " && line[12] == ' ' && line[13..] == title
    && AllDigits(line[9..12]) && DigitsValue(line[9..12], 0) == status
  }

  /** What goes out for an answer: the write buffer, and the file behind it if there is one. */
  function Wire(code: HttpCode, file: string, linger: bool): string {
    ResponseText(code, |file|, linger) + (if code.FileRequest? then file else "")
  }

  /** The answer to each code, read back from the bytes. */
  lemma AnswerRead(code: HttpCode, file: string, linger: bool) returns (first: string, headers: seq<string>)
    requires Answered(code, |file|) && PayloadSize(code, |file|) <= INT_MAX
    ensures code.InternalError? ==>
              && IsStatusLine(first, 500, "Internal")
              && ReadsAs(Wire(code, file, linger), first, headers, linger,
                         "There was an unusual problem serving the reqeusted file.\n")
    ensures code.BadRequestCode? ==>
              && IsStatusLine(first, 404, "Not Found")
              && ReadsAs(Wire(code, file, linger), first, headers, linger,
                         "The requested file was not found on this server.\n")
    ensures code.ForbiddenRequest? ==>
              && IsStatusLine(first, 403, "Forbidden")
              && ReadsAs(Wire(code, file, linger), first, headers, linger,
                         "You not have permission to get file from this server.\n")
    ensures code.FileRequest? ==>
              && IsStatusLine(first, 200, "OK")
              && ReadsAs(Wire(code, file, linger), first, headers, linger, file)
  {
    hide DigitsValue, AllDigits, ResponseText, StatusLine, ScanLine, HeaderText, LengthLine, LingerLine, BodyLength,
         KeepAlive, ReadsAs, IsStatusLine, Decimal;
    var (status, title, page) := PageOf(code);
    StatusRead(status, title);
    first, headers := Framed(code, file, linger);
  }

  lemma StatusRead(status: nat, title: string)
    requires 100 <= status < 1000
    ensures IsStatusLine("HTTP/1.1 " + Decimal(status) + " " + title, status, title)
  {
    hide DigitsValue, AllDigits;
    var line := "HTTP/1.1 " + Decimal(status) + " " + title;
    DecimalValue(status);
    ThreeDigits(status);
    assert line[9..12] == Decimal(status);
  }

  lemma ThreeDigits(n: nat)
    requires 100 <= n < 1000
    ensures |Decimal(n)| == 3
  {
    assert |Decimal(n / 100)| == 1 && |Decimal(n / 10)| == 2;
  }

  lemma Framed(code: HttpCode, file: string, linger: bool) returns (first: string, headers: seq<string>)
    requires Answered(code, |file|) && PayloadSize(code, |file|) <= INT_MAX
    ensures var (status, title, page) := PageOf(code);
            && first == "HTTP/1.1 " + Decimal(status) + " " + title
            && ReadsAs(Wire(code, file, linger), first, headers, linger, if code.FileRequest? then file else page)
  {
    hide LengthLine, LingerLine, BodyLength, KeepAlive, HeaderText, NoLineEnd, IsText, ResponseText, Decimal, ScanLine,
         PageOf, PayloadSize, Answered, HeadersSay;
    var (status, title, page) := PageOf(code);
    first := "HTTP/1.1 " + Decimal(status) + " " + title;
    headers := [LengthLine(PayloadSize(code, |file|)), LingerLine(linger)];
    Framing(code, file, linger);
    TitleHasNoLineEnd(code);
    FirstHasNoLineEnd(status, title);
    HeadersAreText(PayloadSize(code, |file|), linger);
    LinesSay(PayloadSize(code, |file|), linger);
    PayloadIs(code, file);
    FirstLineOf(Wire(code, file, linger), first, HeaderText(headers), if code.FileRequest? then file else page);
  }

  lemma PayloadIs(code: HttpCode, file: string)
    ensures PayloadSize(code, |file|) == |if code.FileRequest? then file else PageOf(code).2|
  {
    hide PageOf;
  }

  lemma FirstLineOf(wire: string, first: string, headers: string, payload: string)
    requires wire == first + CRLF + headers + payload && NoLineEnd(first)
    ensures wire == first + CRLF + (headers + payload) && ScanLine(wire, 0) == Line(|first| + 2)
  {
    hide ScanLine, NoLineEnd;
    assert wire == (first + CRLF) + (headers + payload);
    assert wire[0..|first| + 2] == first + CRLF;
    ScanText(wire, 0, first);
  }

  lemma TitleHasNoLineEnd(code: HttpCode)
    ensures NoLineEnd(PageOf(code).1)
  {
  }

  lemma FirstHasNoLineEnd(status: nat, title: string)
    requires NoLineEnd(title)
    ensures NoLineEnd("HTTP/1.1 " + Decimal(status) + " " + title)
  {
    hide DigitsValue, Decimal;
    DecimalValue(status);
    assert NoLineEnd("HTTP/1.1 ") && NoLineEnd(Decimal(status)) && NoLineEnd(" ");
  }

  lemma LinesSay(n: nat, linger: bool)
    ensures HeadersSay(LengthLine(n), LingerLine(linger), n, linger)
  {
    hide DigitsValue, AllDigits;
    DecimalValue(n);
    assert LengthLine(n)[15..] == Decimal(n);
  }

  lemma HeadersAreText(n: nat, linger: bool)
    ensures IsText(LengthLine(n)) && LengthLine(n) != "" && IsText(LingerLine(linger)) && LingerLine(linger) != ""
  {
    hide DigitsValue;
    DecimalValue(n);
  }
}
