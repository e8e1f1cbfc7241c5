/**
The C library string functions that the HTTP parser calls, as functions on a character buffer and a
position in it. A C string is the run of characters from a position up to the first NUL; the end of the
buffer stands for the NULs with which the buffer was cleared.
*/
module CStrings {

  datatype Option<+T> = None | Some(value: T)

  const NUL: char := '\0'

  predicate IsBlank(c: char) {
    c == ' ' || c == '\t'
  }

  /** Position of the NUL that ends the C string starting at i. */
  function StrEnd(d: string, i: nat): (e: nat)
    requires i <= |d|
    ensures i <= e <= |d|
    ensures forall k :: i <= k < e ==> d[k] != NUL
    ensures e < |d| ==> d[e] == NUL
    decreases |d| - i
  {
    if i == |d| || d[i] == NUL then i else StrEnd(d, i + 1)
  }

  function CStr(d: string, i: nat): (s: string)
    requires i <= |d|
    ensures NUL !in s
  {
    d[i..StrEnd(d, i)]
  }

  /** strpbrk(d + i, " \t"), as a position in d */
  function StrPbrkBlank(d: string, i: nat): (r: Option<nat>)
    requires i <= |d|
    ensures r.Some? ==> i <= r.value < |d| && IsBlank(d[r.value])
    ensures r.Some? ==> forall k :: i <= k < r.value ==> !IsBlank(d[k]) && d[k] != NUL
    decreases |d| - i
  {
    if i == |d| || d[i] == NUL then None
    else if IsBlank(d[i]) then Some(i)
    else StrPbrkBlank(d, i + 1)
  }

  /** d + i + strspn(d + i, " \t"), as a position in d */
  function SkipBlanks(d: string, i: nat): (r: nat)
    requires i <= |d|
    ensures i <= r <= |d|
    ensures forall k :: i <= k < r ==> IsBlank(d[k])
    ensures r < |d| ==> !IsBlank(d[r])
    decreases |d| - i
  {
    if i == |d| || !IsBlank(d[i]) then i else SkipBlanks(d, i + 1)
  }

  /** strchr(d + i, c) for a character c other than NUL */
  function StrChr(d: string, i: nat, c: char): (r: Option<nat>)
    requires i <= |d|
    ensures r.Some? ==> i <= r.value < |d| && d[r.value] == c
    ensures r.Some? ==> forall k :: i <= k < r.value ==> d[k] != c && d[k] != NUL
    decreases |d| - i
  {
    if i == |d| then None
    else if d[i] == c then Some(i)
    else if d[i] == NUL then None
    else StrChr(d, i + 1, c)
  }

  function LowerChar(c: char): char {
    if 'A' <= c <= 'Z' then c + ('a' - 'A') else c
  }

  /** strcasecmp(s, lit) == 0 */
  predicate SameIgnoringCase(s: string, lit: string) {
    |s| == |lit| && forall k :: 0 <= k < |s| ==> LowerChar(s[k]) == LowerChar(lit[k])
  }

  /** strncasecmp(s, lit, strlen(lit)) == 0 */
  predicate StartsIgnoringCase(s: string, lit: string) {
    |s| >= |lit| && SameIgnoringCase(s[..|lit|], lit)
  }

  /** strcat(d + i, s) when the string at i ends at e: s and a NUL are written from e on. */
  function StrCatAt(d: string, e: nat, s: string): (r: string)
    requires e + |s| < |d|
    ensures |r| == |d|
    ensures r[|d| - 1] == if e + |s| + 1 == |d| then NUL else d[|d| - 1]
  {
    d[..e] + s + [NUL] + d[e + |s| + 1..]
  }

  predicate IsSpace(c: char) {
    c == ' ' || '\t' <= c <= '\r'
  }

  predicate IsDigit(c: char) {
    '0' <= c <= '9'
  }

  function DigitsValue(s: string, acc: nat): nat {
    if s == "" || !IsDigit(s[0]) then acc
    else DigitsValue(s[1..], 10 * acc + (s[0] - '0') as nat)
  }

  const LONG_MAX: int := 0x7FFF_FFFF_FFFF_FFFF

  /** (int)atol(s): leading space, an optional sign, digits, saturation to long, truncation to 32 bits */
  function AToInt(s: string): int {
    if s != "" && IsSpace(s[0]) then AToInt(s[1..])
    else if s != "" && s[0] == '-' then ToInt32(Saturate(-(DigitsValue(s[1..], 0) as int)))
    else if s != "" && s[0] == '+' then ToInt32(Saturate(DigitsValue(s[1..], 0)))
    else ToInt32(Saturate(DigitsValue(s, 0)))
  }

  function Saturate(n: int): int {
    if n > LONG_MAX then LONG_MAX else if n < -LONG_MAX - 1 then -LONG_MAX - 1 else n
  }

  function ToInt32(n: int): int {
    (n + 0x8000_0000) % 0x1_0000_0000 - 0x8000_0000
  }

  lemma StrEndIs(d: string, i: nat, e: nat)
    requires i <= e <= |d|
    requires forall k :: i <= k < e ==> d[k] != NUL
    requires e < |d| ==> d[e] == NUL
    ensures StrEnd(d, i) == e
    ensures CStr(d, i) == d[i..e]
  {
  }
}
