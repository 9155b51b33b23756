/** The grammar helpers of the chunked decoder: sizes, extensions and trailers. */
module ChunkGrammar {
  import opened Basics
  import opened HttpSyntax
  import opened Numerals

  // ---------------------------------------------------------------- chunk sizes (std::from_chars, base 16)

  predicate AllHex(s: string) {
    forall i :: 0 <= i < |s| ==> IsHexDigit(s[i])
  }

  function HexValue(s: string): nat
    requires AllHex(s)
  {
    Value(Hexadecimal, s)
  }

  /** Length of the longest run of hexadecimal digits at the start. */
  function HexPrefix(s: string): (n: nat)
    ensures n <= |s| && AllHex(s[..n])
    ensures n < |s| ==> !IsHexDigit(s[n])
  {
    if s == "" || !IsHexDigit(s[0]) then 0
    else
      var n := 1 + HexPrefix(s[1..]);
      assert s[..n] == [s[0]] + s[1..][..n - 1];
      n
  }

  // ---------------------------------------------------------------- chunk extensions

  function SkipToken(t: string): (r: string)
    ensures |r| <= |t|
  {
    if t != "" && IsTokenChar(t[0]) then SkipToken(t[1..]) else t
  }

  /** What follows the closing quote of a quoted string whose opening quote is already consumed. */
  function SkipQuoted(t: string): (r: Option<string>)
    ensures r.Some? ==> |r.value| < |t|
    decreases |t|
  {
    if t == "" then None
    else if t[0] == '"' then Some(t[1..])
    else if t[0] == '\\' then
      if |t| == 1 || !IsFieldValueByte(t[1]) then None else SkipQuoted(t[2..])
    else if !IsFieldValueByte(t[0]) then None
    else SkipQuoted(t[1..])
  }

  /** What follows the optional value of an extension whose name is already consumed. */
  function SkipValue(t: string): (r: Option<string>)
    ensures r.Some? ==> |r.value| <= |t|
  {
    var d := TrimLeft(t);
    if d == "" || d[0] != '=' then Some(t)
    else
      var e := TrimLeft(d[1..]);
      if e == "" then None
      else if e[0] == '"' then SkipQuoted(e[1..])
      else if SkipToken(e) == e then None
      else Some(SkipToken(e))
  }

  /** What follows one complete extension, separator included. */
  function SkipExtension(t: string): (r: Option<string>)
    ensures r.Some? ==> |r.value| < |t|
  {
    var a := TrimLeft(t);
    if a == "" || a[0] != ';' then None
    else
      var b := TrimLeft(a[1..]);
      if SkipToken(b) == b then None else SkipValue(SkipToken(b))
  }

  predicate ValidExtensions(t: string)
    decreases |t|
  {
    t == "" || (SkipExtension(t).Some? && ValidExtensions(SkipExtension(t).value))
  }

  /** The size a chunk line announces: a hexadecimal number in range, then valid extensions. */
  function ChunkSize(line: string): Option<nat> {
    var n := HexPrefix(line);
    if n == 0 || HexValue(line[..n]) > SIZE_MAX || !ValidExtensions(line[n..]) then None
    else Some(HexValue(line[..n]))
  }

  // ---------------------------------------------------------------- trailers

  const FORBIDDEN_TRAILERS := [
    "content-length", "transfer-encoding", "host", "connection", "trailer", "te", "authorization",
    "proxy-authorization", "cookie", "expect", "upgrade", "content-encoding", "content-type", "content-range"]

  predicate ValidTrailer(line: string) {
    var colon := IndexOf(line, ':');
    && 0 < colon < |line|
    && AllToken(line[..colon])
    && LowerAll(line[..colon]) !in FORBIDDEN_TRAILERS
    && AllFieldValue(line[colon + 1..])
  }

  // ---------------------------------------------------------------- the loops of the program

  method SkipWhitespace(text: string) returns (rest: string)
    ensures rest == TrimLeft(text)
  {
    rest := text;
    while rest != "" && IsSpace(rest[0])
      invariant TrimLeft(rest) == TrimLeft(text)
      decreases |rest|
    {
      rest := rest[1..];
    }
  }

  method TakeToken(text: string) returns (taken: bool, rest: string)
    ensures rest == SkipToken(text) && taken == (rest != text)
  {
    rest := text;
    var count := 0;
    while rest != "" && IsTokenChar(rest[0])
      invariant SkipToken(rest) == SkipToken(text)
      invariant |rest| + count == |text| && (count == 0 ==> rest == text)
      decreases |rest|
    {
      rest := rest[1..];
      count := count + 1;
    }
    taken := count != 0;
  }

  /** The view starts at the opening quote. */
  method TakeQuoted(text: string) returns (taken: bool, rest: string)
    requires text != "" && text[0] == '"'
    ensures taken == SkipQuoted(text[1..]).Some?
    ensures taken ==> rest == SkipQuoted(text[1..]).value
  {
    rest := text[1..];
    while rest != ""
      invariant SkipQuoted(rest) == SkipQuoted(text[1..])
      decreases |rest|
    {
      var byte := rest[0];
      var tail := rest[1..];
      if byte == '"' {
        return true, tail;
      }
      if byte == '\\' {
        if tail == "" {
          return false, tail;
        }
        byte := tail[0];
        tail := tail[1..];
      }
      if !IsFieldValueByte(byte) {
        return false, tail;
      }
      assert rest[0] == '\\' ==> tail == rest[2..];
      rest := tail;
    }
    return false, rest;
  }

  /** One round of the extension loop. */
  method TakeExtension(input: string) returns (taken: bool, rest: string)
    ensures taken == SkipExtension(input).Some?
    ensures taken ==> rest == SkipExtension(input).value
  {
    rest := SkipWhitespace(input);
    if rest == "" || rest[0] != ';' {
      return false, rest;
    }
    rest := SkipWhitespace(rest[1..]);
    taken, rest := TakeToken(rest);
    if !taken {
      return false, rest;
    }
    var afterName := SkipWhitespace(rest);
    if afterName != "" && afterName[0] == '=' {
      rest := SkipWhitespace(afterName[1..]);
      if rest == "" {
        return false, rest;
      }
      if rest[0] == '"' {
        taken, rest := TakeQuoted(rest);
      } else {
        taken, rest := TakeToken(rest);
      }
    }
  }

  method CheckExtensions(input: string) returns (valid: bool)
    ensures valid == ValidExtensions(input)
  {
    var text := input;
    while text != ""
      invariant ValidExtensions(text) == ValidExtensions(input)
      decreases |text|
    {
      var taken, rest := TakeExtension(text);
      if !taken {
        return false;
      }
      text := rest;
    }
    return true;
  }

  // ---------------------------------------------------------------- facts used by the decoder

  lemma NoBreaksCons(t: string)
    requires t != ""
    ensures NoBreaks(t) <==> t[0] != '\r' && t[0] != '\n' && NoBreaks(t[1..])
  {
    if t[0] != '\r' && t[0] != '\n' && NoBreaks(t[1..]) {
      forall i | 0 <= i < |t| ensures t[i] != '\r' && t[i] != '\n' {
        if i > 0 { assert t[i] == t[1..][i - 1]; }
      }
    }
  }

  lemma {:induction false} SkippedSpace(t: string)
    ensures NoBreaks(TrimLeft(t)) ==> NoBreaks(t)
  {
    if t != "" && IsSpace(t[0]) {
      SkippedSpace(t[1..]);
      NoBreaksCons(t);
    }
  }

  lemma {:induction false} SkippedToken(t: string)
    ensures NoBreaks(SkipToken(t)) ==> NoBreaks(t)
  {
    if t != "" && IsTokenChar(t[0]) {
      SkippedToken(t[1..]);
      NoBreaksCons(t);
    }
  }

  lemma {:induction false} SkippedQuoted(t: string)
    requires SkipQuoted(t).Some?
    ensures NoBreaks(SkipQuoted(t).value) ==> NoBreaks(t)
    decreases |t|
  {
    NoBreaksCons(t);
    if t[0] == '\\' {
      SkippedQuoted(t[2..]);
      NoBreaksCons(t[1..]);
      assert t[1..][1..] == t[2..];
    } else if t[0] != '"' {
      SkippedQuoted(t[1..]);
    }
  }

  lemma SkippedValue(t: string)
    requires SkipValue(t).Some?
    ensures NoBreaks(SkipValue(t).value) ==> NoBreaks(t)
  {
    var d := TrimLeft(t);
    if d != "" && d[0] == '=' {
      var e := TrimLeft(d[1..]);
      if e[0] == '"' {
        SkippedQuoted(e[1..]);
        NoBreaksCons(e);
      } else {
        SkippedToken(e);
      }
      SkippedSpace(d[1..]);
      NoBreaksCons(d);
      SkippedSpace(t);
    }
  }

  lemma SkippedExtension(t: string)
    requires SkipExtension(t).Some?
    ensures NoBreaks(SkipExtension(t).value) ==> NoBreaks(t)
  {
    var a := TrimLeft(t);
    var b := TrimLeft(a[1..]);
    SkippedValue(SkipToken(b));
    SkippedToken(b);
    SkippedSpace(a[1..]);
    NoBreaksCons(a);
    SkippedSpace(t);
  }

  /** Valid extensions never contain a line break and never start with a hexadecimal digit. */
  lemma {:induction false} ExtensionsAreOneLine(t: string)
    requires ValidExtensions(t)
    ensures NoBreaks(t)
    ensures t != "" ==> !IsHexDigit(t[0])
    decreases |t|
  {
    if t != "" {
      ExtensionsAreOneLine(SkipExtension(t).value);
      SkippedExtension(t);
    }
  }

  lemma TrailerIsOneLine(line: string)
    requires ValidTrailer(line)
    ensures line != "" && NoBreaks(line)
  {
    var colon := IndexOf(line, ':');
    forall i | 0 <= i < |line| ensures line[i] != '\r' && line[i] != '\n' {
      if i < colon {
        assert line[i] == line[..colon][i];
      } else if i > colon {
        assert line[i] == line[colon + 1..][i - colon - 1];
      }
    }
  }

  /** The size field and the extensions of a chunk line are separated where the digits end. */
  lemma {:induction false} SizeSplits(size: string, extension: string)
    requires AllHex(size) && (extension != "" ==> !IsHexDigit(extension[0]))
    ensures HexPrefix(size + extension) == |size|
    ensures (size + extension)[..|size|] == size && (size + extension)[|size|..] == extension
  {
    if size == "" {
      assert size + extension == extension;
    } else {
      assert (size + extension)[1..] == size[1..] + extension;
      SizeSplits(size[1..], extension);
    }
  }
}
