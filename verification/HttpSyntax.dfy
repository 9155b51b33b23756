/** Character classes, limits and failure categories shared by the HTTP request components. */
module HttpSyntax {

  const CRLF := "\r\n"

  /** The blank line after a head, with the ending of the line before it. */
  const HEAD_END := "\r\n\r\n"

  datatype ErrorCode =
    | RequestLineTooLarge | HeadersTooLarge | TooManyHeaders | BodyTooLarge | InvalidLineEnding
    | MalformedRequestLine | InvalidMethod | UnsupportedMethod | InvalidRequestTarget
    | UnsupportedHttpVersion | MalformedHeader | FoldedHeader | MissingHost | DuplicateHost
    | InvalidHost | InvalidContentLength | DuplicateContentLength | UnsupportedTransferEncoding
    | InvalidTransferEncoding | ConflictingMessageLength | MalformedChunk | ChunkMetadataTooLarge
    | InvalidTrailer | TrailersTooLarge | IncompleteBody | MalformedHttpVersion

  datatype ParseError = ParseError(code: ErrorCode, offset: nat)

  datatype Limits = Limits(
    maxRequestLineBytes: nat, maxHeaderBytes: nat, maxHeaderCount: nat, maxBodyBytes: nat,
    maxChunkLineBytes: nat, maxChunkMetadataBytes: nat, maxTrailerBytes: nat, maxTrailerCount: nat)

  predicate IsDigit(c: char) {
    '0' <= c <= '9'
  }

  predicate IsHexDigit(c: char) {
    IsDigit(c) || 'A' <= c <= 'F' || 'a' <= c <= 'f'
  }

  predicate IsTokenChar(c: char) {
    IsDigit(c) || 'A' <= c <= 'Z' || 'a' <= c <= 'z' || c in "!#$%&'*+-.^_`|~"
  }

  const DELIMITERS := "\"(),/:;<=>?@[\\]{}"

  /** Tokens consist of the visible ASCII characters that are not delimiters (section 5.6.2 of RFC 9110). */
  lemma TokenCharsExactly(c: char)
    ensures IsTokenChar(c) <==> '!' <= c <= '~' && c !in DELIMITERS
  {
  }

  /** Horizontal tab, visible ASCII or an opaque byte above ASCII; never CR or LF. */
  predicate IsFieldValueByte(c: char) {
    c == '\t' || (' ' <= c && c != 0x7F as char)
  }

  /** No control character but the tab may stand in a field value. */
  lemma FieldValueBytesExactly(c: char)
    ensures IsFieldValueByte(c) <==> c == '\t' || !(c as int <= 31 || c as int == 127)
  {
  }

  predicate IsSpace(c: char) {
    c == ' ' || c == '\t'
  }

  /** Digits, hexadecimal digits and blanks, one by one. */
  lemma ClassesExactly(c: char)
    ensures IsDigit(c) <==> c in {'0', '1', '2', '3', '4', '5', '6', '7', '8', '9'}
    ensures IsHexDigit(c) <==> IsDigit(c) || Lower(c) in {'a', 'b', 'c', 'd', 'e', 'f'}
    ensures IsSpace(c) <==> c as int == 32 || c as int == 9
  {
  }

  /** Without the blanks in front. */
  function TrimLeft(s: string): (r: string)
    ensures |r| <= |s|
  {
    if s != "" && IsSpace(s[0]) then TrimLeft(s[1..]) else s
  }

  /** Without the blanks at the end. */
  function TrimRight(s: string): (r: string)
    ensures |r| <= |s|
  {
    if s != "" && IsSpace(s[|s| - 1]) then TrimRight(s[..|s| - 1]) else s
  }

  predicate Blank(s: string) {
    forall i :: 0 <= i < |s| ==> IsSpace(s[i])
  }

  lemma {:induction false} LeftTrims(before: string, rest: string)
    requires Blank(before) && rest != "" && !IsSpace(rest[0])
    ensures TrimLeft(before + rest) == rest
    decreases |before|
  {
    if before == "" {
      assert before + rest == rest;
    } else {
      LeftTrims(before[1..], rest);
      assert (before + rest)[1..] == before[1..] + rest;
    }
  }

  lemma {:induction false} LeftSplit(s: string) returns (k: nat)
    ensures k <= |s| && Blank(s[..k]) && TrimLeft(s) == s[k..] && (k < |s| ==> !IsSpace(s[k]))
  {
    k := 0;
    if s != "" && IsSpace(s[0]) {
      k := LeftSplit(s[1..]);
      assert s[..k + 1] == [s[0]] + s[1..][..k];
      assert s[1..][k..] == s[k + 1..];
      k := k + 1;
    }
  }

  function Lower(c: char): char {
    if 'A' <= c <= 'Z' then c + 32 as char else c
  }

  function LowerAll(s: string): (r: string)
    ensures |r| == |s| && forall i :: 0 <= i < |s| ==> r[i] == Lower(s[i])
  {
    seq(|s|, i requires 0 <= i < |s| => Lower(s[i]))
  }

  const UPPER := "ABCDEFGHIJKLMNOPQRSTUVWXYZ"
  const LOWER := "abcdefghijklmnopqrstuvwxyz"

  /** Only the 26 letters have two cases. */
  lemma LowerExactly(c: char, i: nat)
    requires i < 26
    ensures |UPPER| == |LOWER| == 26 && Lower(UPPER[i]) == LOWER[i] == Lower(LOWER[i])
    ensures Lower(c) != c <==> 'A' <= c <= 'Z'
    ensures 'A' <= c <= 'Z' ==> UPPER[c as int - 'A' as int] == c
  {
    LettersInOrder(i);
    if 'A' <= c <= 'Z' {
      LettersInOrder(c as int - 'A' as int);
    }
  }

  lemma LettersInOrder(i: nat)
    requires i < 26
    ensures UPPER[i] as int == 'A' as int + i && LOWER[i] as int == 'a' as int + i
  {
  }

  predicate EqualIgnoreCase(a: string, b: string) {
    |a| == |b| && forall i :: 0 <= i < |a| ==> Lower(a[i]) == Lower(b[i])
  }

  /** Texts are equal ignoring case when their lower-case forms are equal. */
  lemma EqualIgnoreCaseExactly(a: string, b: string)
    ensures EqualIgnoreCase(a, b) <==> LowerAll(a) == LowerAll(b)
  {
    if LowerAll(a) == LowerAll(b) {
      assert forall i :: 0 <= i < |a| ==> LowerAll(a)[i] == Lower(a[i]) == Lower(b[i]);
    }
  }

  predicate AllToken(s: string) {
    forall i :: 0 <= i < |s| ==> IsTokenChar(s[i])
  }

  predicate AllFieldValue(s: string) {
    forall i :: 0 <= i < |s| ==> IsFieldValueByte(s[i])
  }

  /** A line body: neither of the two line-ending bytes occurs in it. */
  predicate NoBreaks(s: string) {
    forall i :: 0 <= i < |s| ==> s[i] != '\r' && s[i] != '\n'
  }

  /** Position of the first `c` at or after `from`, or the length of the text. */
  function IndexOf(s: string, c: char, from: nat := 0): (i: nat)
    requires from <= |s|
    ensures from <= i <= |s|
    ensures i < |s| ==> s[i] == c
    ensures forall k :: from <= k < i ==> s[k] != c
    decreases |s| - from
  {
    if from == |s| || s[from] == c then from else IndexOf(s, c, from + 1)
  }
}
