/**
What header lines mean, independently of how the parser reads them: a field has a name, in any case, optional
blanks, and a decimal number or a word. Writing fields out as lines and parsing these gives back what they mean.
*/
module HttpFields {
  import opened CStrings
  import opened SourceVersion
  import opened HttpRequest
  import opened HttpChunking
  import opened HttpSplitBody
  import opened HttpGrammar
  import opened HttpResponse

  /**
  A length has an optional sign, and anything but a digit may follow its digits. Other is any line that begins with
  neither of the two names.
  */
  datatype Field =
    | LengthField(name: string, blanks: string, sign: string, n: nat, more: string)
    | ConnectionField(name: string, blanks: string, word: string)
    | Other(line: string)

  const CONNECTION := "Connection:"
  const CONTENT_LENGTH := "Content-length:"

  predicate AllBlank(s: string) {
    forall i :: 0 <= i < |s| ==> IsBlank(s[i])
  }

  function Signed(sign: string, n: nat): int {
    if sign == "-" then -(n as int) else n
  }

  predicate IsSign(sign: string) {
    sign == "" || sign == "+" || sign == "-"
  }

  predicate EndsNumber(more: string) {
    more == "" || !IsDigit(more[0])
  }

  predicate ValidField(f: Field) {
    match f
    case LengthField(name, blanks, sign, n, more) =>
      && SameIgnoringCase(name, CONTENT_LENGTH) && IsText(name) && AllBlank(blanks) && IsSign(sign)
      && -INT_MAX - 1 <= Signed(sign, n) <= INT_MAX && IsText(more) && EndsNumber(more)
    case ConnectionField(name, blanks, word) =>
      && SameIgnoringCase(name, CONNECTION) && IsText(name) && AllBlank(blanks)
      && IsText(word) && (word != "" ==> !IsBlank(word[0]))
    case Other(line) =>
      && line != "" && IsText(line)
      && !StartsIgnoringCase(line, CONNECTION) && !StartsIgnoringCase(line, CONTENT_LENGTH)
  }

  function LineOf(f: Field): string {
    match f
    case LengthField(name, blanks, sign, n, more) => name + (blanks + (sign + (Decimal(n) + more)))
    case ConnectionField(name, blanks, word) => name + blanks + word
    case Other(line) => line
  }

  function LinesOf(fields: seq<Field>): seq<string> {
    if fields == [] then [] else [LineOf(fields[0])] + LinesOf(fields[1..])
  }

  /** The number of the last length field, and n if there is none. */
  function MeantLength(fields: seq<Field>, n: int): int {
    if fields == [] then n
    else MeantLength(fields[1..], if fields[0].LengthField? then Signed(fields[0].sign, fields[0].n) else n)
  }

  /** Whether some connection field says keep-alive. */
  ghost predicate MeansKeepAlive(fields: seq<Field>) {
    exists i :: 0 <= i < |fields| && fields[i].ConnectionField? && SameIgnoringCase(fields[i].word, "keep-alive")
  }

  // ---------- One field ----------

  lemma NameStarts(name: string, rest: string, lit: string)
    requires SameIgnoringCase(name, lit)
    ensures StartsIgnoringCase(name + rest, lit) && (name + rest)[|lit|..] == rest && (name + rest)[..|lit|] == name
  {
  }

  lemma LengthIsNotConnection(name: string, rest: string)
    requires SameIgnoringCase(name, CONTENT_LENGTH)
    ensures !StartsIgnoringCase(name + rest, CONNECTION)
  {
    assert LowerChar(name[2]) == 'n' && LowerChar(name[3]) == 't';
    assert (name + rest)[..|CONNECTION|][3] == name[3];
    assert LowerChar(CONNECTION[3]) == 'n';
  }

  lemma {:induction false} DigitsThen(s: string, more: string, acc: nat)
    requires AllDigits(s) && EndsNumber(more)
    ensures DigitsValue(s + more, acc) == DigitsValue(s, acc)
    decreases |s|
  {
    if s == "" {
      assert s + more == more;
    } else {
      assert (s + more)[1..] == s[1..] + more;
      DigitsThen(s[1..], more, 10 * acc + (s[0] - '0') as nat);
    }
  }

  lemma SignThenDigits(sign: string, n: nat, more: string)
    requires IsSign(sign) && EndsNumber(more)
    ensures AToInt(sign + (Decimal(n) + more)) == ToInt32(Saturate(Signed(sign, n)))
  {
    hide ToInt32, Saturate, DigitsValue, Decimal;
    var digits := Decimal(n) + more;
    DecimalValue(n);
    DigitsThen(Decimal(n), more, 0);
    assert IsDigit(digits[0]) && digits[0] == Decimal(n)[0];
    if sign == "" {
      assert sign + digits == digits;
    } else {
      assert (sign + digits)[1..] == digits;
    }
  }

  lemma {:induction false} BlanksThen(blanks: string, rest: string)
    requires AllBlank(blanks)
    ensures AToInt(blanks + rest) == AToInt(rest)
    decreases |blanks|
  {
    if blanks == "" {
      assert blanks + rest == rest;
    } else {
      assert (blanks + rest)[1..] == blanks[1..] + rest;
      BlanksThen(blanks[1..], rest);
    }
  }

  /**
  Any number, as it is read: itself if it fits an int, otherwise what is left of it in 32 bits, where numbers that do
  not fit a long are cut to the nearest long first.
  */
  lemma NumberRead(blanks: string, sign: string, n: nat, more: string)
    requires AllBlank(blanks) && IsSign(sign) && EndsNumber(more)
    ensures var v, r := Signed(sign, n), AToInt(blanks + (sign + (Decimal(n) + more)));
            && -INT_MAX - 1 <= r <= INT_MAX
            && (-INT_MAX - 1 <= v <= INT_MAX ==> r == v)
            && (-LONG_MAX - 1 <= v <= LONG_MAX ==> (r - v) % 0x1_0000_0000 == 0)
            && (v > LONG_MAX ==> r == -1) && (v < -LONG_MAX - 1 ==> r == 0)
  {
    hide AToInt, Decimal;
    BlanksThen(blanks, sign + (Decimal(n) + more));
    SignThenDigits(sign, n, more);
  }

  lemma {:induction false} SkipsTo(d: string, i: nat, e: nat)
    requires i <= e <= |d| && (forall k :: i <= k < e ==> IsBlank(d[k])) && (e < |d| ==> !IsBlank(d[e]))
    ensures SkipBlanks(d, i) == e
    decreases e - i
  {
    if i < e {
      SkipsTo(d, i + 1, e);
    }
  }

  lemma BlanksThenWord(name: string, blanks: string, word: string)
    requires AllBlank(blanks) && (word != "" ==> !IsBlank(word[0]))
    ensures var line := name + (blanks + word);
            SkipBlanks(line, |name|) == |name| + |blanks| && line[|name| + |blanks|..] == word
  {
    hide SkipBlanks;
    SkipsTo(name + (blanks + word), |name|, |name| + |blanks|);
  }

  lemma LengthRead(f: Field, k: int, b: bool)
    requires ValidField(f) && f.LengthField?
    ensures LengthHeader(LineOf(f), k) == Signed(f.sign, f.n) && ConnectionHeader(LineOf(f), b) == b
  {
    hide SameIgnoringCase, AToInt, Decimal, Signed;
    var rest := f.blanks + (f.sign + (Decimal(f.n) + f.more));
    NameStarts(f.name, rest, CONTENT_LENGTH);
    LengthIsNotConnection(f.name, rest);
    NumberRead(f.blanks, f.sign, f.n, f.more);
  }

  lemma ConnectionRead(name: string, blanks: string, word: string, b: bool)
    requires ValidField(ConnectionField(name, blanks, word))
    ensures forall k :: LengthHeader(LineOf(ConnectionField(name, blanks, word)), k) == k
    ensures ConnectionHeader(LineOf(ConnectionField(name, blanks, word)), b) ==
            (b || SameIgnoringCase(word, "keep-alive"))
  {
    hide SkipBlanks;
    assert name + blanks + word == name + (blanks + word);
    NameStarts(name, blanks + word, CONNECTION);
    BlanksThenWord(name, blanks, word);
  }

  /** Each field is read as what it means. */
  lemma FieldRead(f: Field, n: int, b: bool)
    requires ValidField(f)
    ensures LengthHeader(LineOf(f), n) == if f.LengthField? then Signed(f.sign, f.n) else n
    ensures ConnectionHeader(LineOf(f), b) == (b || (f.ConnectionField? && SameIgnoringCase(f.word, "keep-alive")))
  {
    hide LengthHeader, ConnectionHeader, SameIgnoringCase, LineOf;
    match f
    case LengthField(_, _, _, _, _) => LengthRead(f, n, b);
    case ConnectionField(name, blanks, word) => ConnectionRead(name, blanks, word, b);
    case Other(line) => OtherRead(line, n, b);
  }

  lemma OtherRead(line: string, n: int, b: bool)
    requires ValidField(Other(line))
    ensures LengthHeader(LineOf(Other(line)), n) == n && ConnectionHeader(LineOf(Other(line)), b) == b
  {
  }

  // ---------- All of them ----------

  lemma {:induction false} FieldsRead(fields: seq<Field>, n: int, b: bool)
    requires forall i :: 0 <= i < |fields| ==> ValidField(fields[i])
    ensures BodyLength(LinesOf(fields), n) == MeantLength(fields, n)
    ensures KeepAlive(LinesOf(fields), b) == (b || MeansKeepAlive(fields))
    decreases |fields|
  {
    hide LineOf, LengthHeader, ConnectionHeader, SameIgnoringCase, ValidField;
    if fields != [] {
      var f, lines := fields[0], LinesOf(fields);
      assert lines[0] == LineOf(f) && lines[1..] == LinesOf(fields[1..]);
      FieldRead(f, n, b);
      FieldsRead(fields[1..], LengthHeader(LineOf(f), n), ConnectionHeader(LineOf(f), b));
      KeepAliveSplit(fields);
    }
  }

  lemma KeepAliveSplit(fields: seq<Field>)
    requires fields != []
    ensures MeansKeepAlive(fields) <==>
            || (fields[0].ConnectionField? && SameIgnoringCase(fields[0].word, "keep-alive"))
            || MeansKeepAlive(fields[1..])
  {
    hide SameIgnoringCase;
    if MeansKeepAlive(fields) {
      var i :| 0 <= i < |fields| && fields[i].ConnectionField? && SameIgnoringCase(fields[i].word, "keep-alive");
      assert i > 0 ==> fields[1..][i - 1] == fields[i];
    }
  }

  lemma {:induction false} LinesAreText(fields: seq<Field>)
    requires forall i :: 0 <= i < |fields| ==> ValidField(fields[i])
    ensures forall i :: 0 <= i < |LinesOf(fields)| ==> LinesOf(fields)[i] != "" && IsText(LinesOf(fields)[i])
    decreases |fields|
  {
    hide IsText, LineOf, ValidField;
    if fields != [] {
      LineIsText(fields[0]);
      LinesAreText(fields[1..]);
    }
  }

  lemma LineIsText(f: Field)
    requires ValidField(f)
    ensures LineOf(f) != "" && IsText(LineOf(f))
  {
    if f.LengthField? {
      DecimalValue(f.n);
      hide Decimal;
      assert forall i :: 0 <= i < |Decimal(f.n)| ==> IsDigit(Decimal(f.n)[i]);
    }
  }

  /** A request: what its client means by it. */
  datatype Client = Client(message: Message, fields: seq<Field>)

  ghost predicate ValidClient(c: Client) {
    && (SameIgnoringCase(c.message.method_, "GET") || SameIgnoringCase(c.message.method_, "POST"))
    && IsToken(c.message.method_) && IsGap(c.message.gap1) && IsTarget(c.message.target) && IsGap(c.message.gap2)
    && SameIgnoringCase(c.message.version, "HTTP/1.1") && IsToken(c.message.version)
    && (forall i :: 0 <= i < |c.fields| ==> ValidField(c.fields[i]))
    && c.message.headers == LinesOf(c.fields)
    && |c.message.body| == MeantLength(c.fields, 0)
  }

  /**
  Every request that fits the buffer is understood as its client means it: method, path, the number in the last
  length field as the length of the body, and keep-alive if some connection field says so, under every split and
  whatever follows it.
  */
  lemma ClientUnderstood(c: Client, extra: string, chunks: seq<string>)
    requires ValidClient(c) && |Text(c.message)| < READ_BUFFER_SIZE && Stream(chunks) == Text(c.message) + extra
    ensures var m := c.message;
            Run(Repaired, FRESH, chunks).1 ==
            Request(SameIgnoringCase(m.method_, "POST"), PathOf(m), MeansKeepAlive(c.fields),
                    if m.body == "" then None else Some(CStr(m.body, 0)))
  {
    hide Process, Text, SameIgnoringCase, IsTarget, IsToken, IsGap, CStr, LinesOf, IsText, Run, Stream, MeansKeepAlive,
         MeantLength, ValidField, BodyLength, KeepAlive;
    FieldsRead(c.fields, 0, false);
    LinesAreText(c.fields);
    ChunkingIndependence(chunks);
    MessageAccepted(Repaired, c.message, extra);
  }
}
