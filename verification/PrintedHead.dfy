/**
 The other direction of head parsing: every head a client may write, with any blanks around its field
 values, is parsed to exactly the method, target and fields it was written from.
 */
module PrintedHead {
  import opened Basics
  import opened HttpSyntax
  import opened Numerals
  import opened RequestHead

  /** A field as it is written: blanks may surround the value. */
  datatype Written = Written(name: string, before: string, value: string, after: string) {
    function Line(): string {
      name + ":" + (before + (value + after))
    }

    function Meaning(): Field {
      Field(name, value)
    }
  }

  predicate Trimmed(s: string) {
    s != "" ==> !IsSpace(s[0]) && !IsSpace(s[|s| - 1])
  }

  predicate WellWritten(w: Written) {
    w.name != "" && AllToken(w.name) && Blank(w.before) && Blank(w.after) && Trimmed(w.value) && AllFieldValue(w.value)
  }

  function MethodToken(verb: Method): string {
    match verb
    case Get => "GET"
    case Head => "HEAD"
    case Post => "POST"
    case Put => "PUT"
    case Delete => "DELETE"
    case Options => "OPTIONS"
  }

  /** Lines with their endings. */
  function LineText(lines: seq<string>): string {
    if lines == [] then "" else lines[0] + (CRLF + LineText(lines[1..]))
  }

  function Lines(ws: seq<Written>): (lines: seq<string>)
    ensures |lines| == |ws| && forall i :: 0 <= i < |ws| ==> lines[i] == ws[i].Line()
  {
    seq(|ws|, i requires 0 <= i < |ws| => ws[i].Line())
  }

  function FieldText(ws: seq<Written>): string {
    LineText(Lines(ws))
  }

  function RequestLineText(verb: Method, target: string, version: string): string {
    MethodToken(verb) + " " + target + " " + version
  }

  function HeadText(verb: Method, target: string, version: string, ws: seq<Written>): string {
    RequestLineText(verb, target, version) + CRLF + (FieldText(ws) + CRLF)
  }

  function Meanings(ws: seq<Written>): (fields: seq<Field>)
    ensures |fields| == |ws|
  {
    if ws == [] then [] else [ws[0].Meaning()] + Meanings(ws[1..])
  }

  // ---- One field line ----

  lemma {:induction false} BlankTrims(s: string)
    requires Blank(s)
    ensures TrimLeft(s) == ""
  {
    if s != "" {
      BlankTrims(s[1..]);
    }
  }

  lemma {:induction false} RightTrims(text: string, after: string)
    requires Blank(after) && (text == "" || !IsSpace(text[|text| - 1]))
    ensures TrimRight(text + after) == text
    decreases |after|
  {
    if after == "" {
      assert text + after == text;
    } else {
      RightTrims(text, after[..|after| - 1]);
      assert (text + after)[..|text + after| - 1] == text + after[..|after| - 1];
    }
  }

  /** Blanks around a value are dropped, the value itself is not touched. */
  lemma ValueSurvives(w: Written)
    requires WellWritten(w)
    ensures TrimRight(TrimLeft(w.before + (w.value + w.after))) == w.value
  {
    if w.value == "" {
      assert w.before + (w.value + w.after) == w.before + w.after;
      assert Blank(w.before + w.after);
      BlankTrims(w.before + w.after);
    } else {
      LeftTrims(w.before, w.value + w.after);
      RightTrims(w.value, w.after);
    }
  }

  /** The first colon of a written field ends its name. */
  lemma NameEndsAtColon(name: string, rest: string)
    requires name != "" && AllToken(name)
    ensures var line := name + ":" + rest;
      IndexOf(line, ':') == |name| && line[..|name|] == name && line[|name| + 1..] == rest && !IsSpace(line[0])
  {
    var line := name + ":" + rest;
    assert line[|name|] == ':';
    assert forall i :: 0 <= i < |name| ==> line[i] == name[i] && IsTokenChar(name[i]);
    assert IndexOf(line, ':') == |name|;
  }

  lemma FieldLineParses(w: Written, lineStart: nat)
    requires WellWritten(w)
    ensures w.Line() != ""
    ensures ParseField(w.Line(), lineStart).Ok? && ParseField(w.Line(), lineStart).value.field == w.Meaning()
  {
    NameEndsAtColon(w.name, w.before + (w.value + w.after));
    ValueSurvives(w);
  }

  lemma LineHasNoBreak(w: Written)
    requires WellWritten(w)
    ensures NoBreaks(w.Line())
  {
    assert NoBreaks(w.name) && NoBreaks(w.before) && NoBreaks(w.value) && NoBreaks(w.after);
  }

  // ---- Which fields a head may carry ----

  /** `length` and `chunked` are what the fields say about the body. */
  ghost predicate Framed(g: Grammar, limits: Limits, fields: seq<Field>, length: Option<nat>, chunked: bool) {
    && |fields| <= limits.maxHeaderCount
    && CountNamed(fields, "Host") == 1
    && CountNamed(fields, "Content-Length") == (if length.Some? then 1 else 0)
    && CountNamed(fields, "Transfer-Encoding") == (if chunked then 1 else 0)
    && !(length.Some? && chunked)
    && (length.Some? ==> length.value <= limits.maxBodyBytes)
    && forall i :: 0 <= i < |fields| ==> FieldAgrees(g, fields[i], length)
  }

  ghost predicate FieldAgrees(g: Grammar, f: Field, length: Option<nat>) {
    && (EqualIgnoreCase(f.name, "Host") ==> f.value != "" && g.validHost(f.value))
    && (EqualIgnoreCase(f.name, "Content-Length") ==>
          length.Some? && length.value <= SIZE_MAX && Denotes(Decimal, f.value, length.value))
    && (EqualIgnoreCase(f.name, "Transfer-Encoding") ==> EqualIgnoreCase(f.value, "chunked"))
  }

  /** The accumulated state after the first `i` fields. */
  predicate After(fields: seq<Field>, length: Option<nat>, i: nat, st: HeaderState)
    requires i <= |fields|
  {
    var seen := fields[..i];
    && st.headers == seen
    && CountNamed(seen, "Host") == (if st.hostSeen then 1 else 0)
    && CountNamed(seen, "Content-Length") == (if st.bodySize.Some? then 1 else 0)
    && CountNamed(seen, "Transfer-Encoding") == (if st.transferEncoding.Some? then 1 else 0)
    && (st.bodySize.Some? ==> st.bodySize == length)
    && (st.transferEncoding.Some? ==> EqualIgnoreCase(st.transferEncoding.value.value, "chunked"))
  }

  lemma {:induction false} CountGrows(fields: seq<Field>, i: nat, name: string)
    requires i <= |fields|
    ensures CountNamed(fields[..i], name) <= CountNamed(fields, name)
    decreases |fields|
  {
    if i < |fields| {
      CountGrows(fields[..|fields| - 1], i, name);
      assert fields[..|fields| - 1][..i] == fields[..i];
    } else {
      assert fields[..i] == fields;
    }
  }

  lemma OneMoreCounted(fields: seq<Field>, i: nat, name: string)
    requires i < |fields|
    ensures CountNamed(fields[..i + 1], name)
         == CountNamed(fields[..i], name) + if EqualIgnoreCase(fields[i].name, name) then 1 else 0
    ensures CountNamed(fields[..i + 1], name) <= CountNamed(fields, name)
  {
    assert fields[..i + 1][..i] == fields[..i];
    CountGrows(fields, i + 1, name);
  }

  lemma ApplyAgrees(
      g: Grammar, limits: Limits, fields: seq<Field>, length: Option<nat>, chunked: bool, i: nat,
      p: ParsedField, st: HeaderState)
    requires i < |fields| && Framed(g, limits, fields, length, chunked) && After(fields, length, i, st)
    requires p.field == fields[i]
    ensures ApplyField(g, limits, p, st).Ok? && After(fields, length, i + 1, ApplyField(g, limits, p, st).value)
  {
    OneMoreCounted(fields, i, "Host");
    OneMoreCounted(fields, i, "Content-Length");
    OneMoreCounted(fields, i, "Transfer-Encoding");
    assert FieldAgrees(g, fields[i], length);
    if length.Some? {
      LengthIsWritten(fields[i].value, length.value);
    }
    assert fields[..i + 1] == fields[..i] + [fields[i]];
    assert |"Host"| == 4 && |"Content-Length"| == 14 && |"Transfer-Encoding"| == 17;
  }

  lemma FinishAgrees(
      g: Grammar, limits: Limits, fields: seq<Field>, length: Option<nat>, chunked: bool, st: HeaderState,
      start: nat, end: nat)
    requires Framed(g, limits, fields, length, chunked) && After(fields, length, |fields|, st)
    ensures FinishHeaders(st, start, end)
         == Parsed(Section(fields, end + 2, if length.Some? then length.value else 0, chunked))
  {
    assert fields[..|fields|] == fields;
  }

  // ---- The section and the head ----

  lemma {:induction false} HeaderScanFinds(text: string, start: nat, limit: nat, i: nat, end: nat)
    requires start <= i <= end && end + 2 <= |text| && NoBreaksIn(text, i, end) && text[end..end + 2] == CRLF
    requires end + 2 - start <= limit
    ensures ScanHeaderLine(text, start, limit, i) == LineEnd(end)
    decreases end - i
  {
    assert text[end] == text[end..end + 2][0] && text[end + 1] == text[end..end + 2][1];
    if i < end {
      HeaderScanFinds(text, start, limit, i + 1, end);
    }
  }

  lemma {:induction false} RequestScanFinds(text: string, limit: nat, i: nat, end: nat)
    requires i <= end <= limit && end + 2 <= |text| && NoBreaksIn(text, i, end) && text[end..end + 2] == CRLF
    ensures ScanRequestLine(text, limit, i) == LineEnd(end)
    decreases end - i
  {
    assert text[end] == text[end..end + 2][0] && text[end + 1] == text[end..end + 2][1];
    if i < end {
      RequestScanFinds(text, limit, i + 1, end);
    }
  }

  /** A line and its ending at a known position of the text. */
  lemma LineAt(text: string, start: nat, limit: nat, at: nat, line: string, rest: string)
    requires start <= at <= |text| && text[at..] == line + (CRLF + rest) && NoBreaks(line)
    requires at + |line| + 2 - start <= limit
    ensures at + |line| + 2 <= |text| && ScanHeaderLine(text, start, limit, at) == LineEnd(at + |line|)
    ensures text[at..at + |line|] == line && text[at + |line| + 2..] == rest
  {
    var end := at + |line|;
    var tail := text[at..];
    assert forall k :: at <= k < end ==> text[k] == tail[k - at] == line[k - at];
    assert text[end..end + 2] == tail[|line|..|line| + 2] == CRLF;
    assert text[at..end] == tail[..|line|] == line;
    assert text[end + 2..] == tail[|line| + 2..] == rest;
    HeaderScanFinds(text, start, limit, at, end);
  }

  predicate AllWellWritten(ws: seq<Written>) {
    forall i :: 0 <= i < |ws| ==> WellWritten(ws[i])
  }

  lemma {:induction false} MeaningAt(ws: seq<Written>, i: nat)
    requires i < |ws|
    ensures Meanings(ws)[i] == ws[i].Meaning()
  {
    if i > 0 {
      MeaningAt(ws[1..], i - 1);
    }
  }

  /** One nonempty line of the section. */
  lemma SectionLine(
      read: Reader, limits: Limits, text: string, start: nat, at: nat, line: string, st: HeaderState,
      after: HeaderState)
    requires start <= at && line != "" && at + |line| + 2 <= |text| && text[at..at + |line|] == line
    requires ScanHeaderLine(text, start, limits.maxHeaderBytes, at) == LineEnd(at + |line|)
    requires read(line, at, st) == Ok(after)
    ensures ParseHeaders(read, limits, text, start, at, st)
         == ParseHeaders(read, limits, text, start, at + |line| + 2, after)
  {
  }

  /** The blank line that ends it. */
  lemma SectionEnd(read: Reader, limits: Limits, text: string, start: nat, at: nat, st: HeaderState)
    requires start <= at && ScanHeaderLine(text, start, limits.maxHeaderBytes, at) == LineEnd(at)
    ensures ParseHeaders(read, limits, text, start, at, st) == FinishHeaders(st, start, at)
  {
  }

  /** A written field in its place, read into the state. */
  lemma {:induction false} FieldReads(
      g: Grammar, limits: Limits, ws: seq<Written>, length: Option<nat>, chunked: bool, i: nat, at: nat,
      st: HeaderState)
      returns (after: HeaderState)
    requires AllWellWritten(ws) && Framed(g, limits, Meanings(ws), length, chunked)
    requires i < |ws| && After(Meanings(ws), length, i, st)
    ensures ws[i].Line() != "" && ReadLine(g, limits, ws[i].Line(), at, st) == Ok(after)
    ensures After(Meanings(ws), length, i + 1, after)
  {
    FieldLineParses(ws[i], at);
    MeaningAt(ws, i);
    var p := ParseField(ws[i].Line(), at).value;
    ApplyAgrees(g, limits, Meanings(ws), length, chunked, i, p, st);
    after := ApplyField(g, limits, p, st).value;
  }

  predicate GoodLines(lines: seq<string>) {
    forall i :: 0 <= i < |lines| ==> lines[i] != "" && NoBreaks(lines[i])
  }

  lemma LineTextStep(lines: seq<string>, i: nat, tail: string)
    requires i < |lines|
    ensures LineText(lines[i..]) + tail == lines[i] + (CRLF + (LineText(lines[i + 1..]) + tail))
    ensures |LineText(lines[i..])| == |lines[i]| + 2 + |LineText(lines[i + 1..])|
  {
    assert lines[i..][1..] == lines[i + 1..];
  }

  /** States `P` by line number that the reader moves through, whatever the position of the line. */
  ghost predicate Guides(read: Reader, lines: seq<string>, P: (nat, HeaderState) -> bool) {
    forall i: nat, at: nat, st :: i < |lines| && P(i, st) ==>
      read(lines[i], at, st).Ok? && P(i + 1, read(lines[i], at, st).value)
  }

  /** One line, read where it was written. */
  lemma LineReads(
      read: Reader, limits: Limits, lines: seq<string>,
      text: string, start: nat, at: nat, i: nat, st: HeaderState, rest: string)
    requires i < |lines| && lines[i] != "" && NoBreaks(lines[i]) && read(lines[i], at, st).Ok?
    requires start <= at <= |text| && text[at..] == LineText(lines[i..]) + (CRLF + rest)
    requires at + |LineText(lines[i..])| + 2 - start <= limits.maxHeaderBytes
    ensures var next := at + |lines[i]| + 2;
      && next <= |text| && text[next..] == LineText(lines[i + 1..]) + (CRLF + rest)
      && next + |LineText(lines[i + 1..])| == at + |LineText(lines[i..])|
      && ParseHeaders(read, limits, text, start, at, st)
         == ParseHeaders(read, limits, text, start, next, read(lines[i], at, st).value)
  {
    LineTextStep(lines, i, CRLF + rest);
    LineAt(text, start, limits.maxHeaderBytes, at, lines[i], LineText(lines[i + 1..]) + (CRLF + rest));
    SectionLine(read, limits, text, start, at, lines[i], st, read(lines[i], at, st).value);
  }

  lemma BlankReads(read: Reader, limits: Limits, text: string, start: nat, at: nat, st: HeaderState, rest: string)
    requires start <= at <= |text| && text[at..] == CRLF + rest && at + 2 - start <= limits.maxHeaderBytes
    ensures ParseHeaders(read, limits, text, start, at, st) == FinishHeaders(st, start, at)
  {
    assert text[at..] == "" + (CRLF + rest);
    LineAt(text, start, limits.maxHeaderBytes, at, "", rest);
    SectionEnd(read, limits, text, start, at, st);
  }

  /** Reading the lines from the `i`-th on, and then the blank line. */
  lemma {:induction false} LinesRead(
      read: Reader, limits: Limits, lines: seq<string>, P: (nat, HeaderState) -> bool,
      text: string, start: nat, at: nat, i: nat, st: HeaderState, rest: string) returns (last: HeaderState)
    requires GoodLines(lines) && Guides(read, lines, P) && i <= |lines| && P(i, st)
    requires start <= at <= |text| && text[at..] == LineText(lines[i..]) + (CRLF + rest)
    requires at + |LineText(lines[i..])| + 2 - start <= limits.maxHeaderBytes
    ensures P(|lines|, last)
    ensures ParseHeaders(read, limits, text, start, at, st) == FinishHeaders(last, start, at + |LineText(lines[i..])|)
    decreases |lines| - i
  {
    if i == |lines| {
      assert LineText(lines[i..]) + (CRLF + rest) == CRLF + rest;
      BlankReads(read, limits, text, start, at, st, rest);
      last := st;
    } else {
      LineReads(read, limits, lines, text, start, at, i, st, rest);
      var next, after := at + |lines[i]| + 2, read(lines[i], at, st).value;
      last := LinesRead(read, limits, lines, P, text, start, next, i + 1, after, rest);
    }
  }

  lemma {:induction false} FramedGuides(
      g: Grammar, limits: Limits, ws: seq<Written>, length: Option<nat>, chunked: bool,
      P: (nat, HeaderState) -> bool)
    requires AllWellWritten(ws) && Framed(g, limits, Meanings(ws), length, chunked)
    requires P == ((i: nat, s: HeaderState) => i <= |ws| && After(Meanings(ws), length, i, s))
    ensures Guides(LineReader(g, limits), Lines(ws), P) && GoodLines(Lines(ws))
  {
    var read := LineReader(g, limits);
    forall i: nat, at: nat, st | i < |ws| && P(i, st)
      ensures read(Lines(ws)[i], at, st).Ok? && P(i + 1, read(Lines(ws)[i], at, st).value)
    {
      var after := FieldReads(g, limits, ws, length, chunked, i, at, st);
    }
    forall i | 0 <= i < |ws| ensures Lines(ws)[i] != "" && NoBreaks(Lines(ws)[i]) {
      LineHasNoBreak(ws[i]);
    }
  }

  function SectionOf(ws: seq<Written>, start: nat, length: Option<nat>, chunked: bool): Outcome<Section> {
    Parsed(Section(Meanings(ws), start + |FieldText(ws)| + 2, if length.Some? then length.value else 0, chunked))
  }

  /** A written section, for any reader that its fields guide. */
  lemma {:induction false} SectionParses(
      g: Grammar, read: Reader, limits: Limits, ws: seq<Written>, length: Option<nat>, chunked: bool,
      P: (nat, HeaderState) -> bool, text: string, start: nat, rest: string)
    requires Framed(g, limits, Meanings(ws), length, chunked) && GoodLines(Lines(ws)) && Guides(read, Lines(ws), P)
    requires P == ((i: nat, s: HeaderState) => i <= |ws| && After(Meanings(ws), length, i, s))
    requires start <= |text| && text[start..] == FieldText(ws) + (CRLF + rest)
    requires |FieldText(ws)| + 2 <= limits.maxHeaderBytes
    ensures ParseHeaders(read, limits, text, start, start, EMPTY_STATE) == SectionOf(ws, start, length, chunked)
  {
    var lines := Lines(ws);
    assert Meanings(ws)[..0] == [] && lines[0..] == lines;
    var last := LinesRead(read, limits, lines, P, text, start, start, 0, EMPTY_STATE, rest);
    FinishAgrees(g, limits, Meanings(ws), length, chunked, last, start, start + |FieldText(ws)|);
  }

  predicate NoSpace(s: string) {
    forall i :: 0 <= i < |s| ==> s[i] != ' '
  }

  lemma MethodParses(verb: Method)
    ensures ParseMethod(MethodToken(verb)) == Ok(verb) && NoSpace(MethodToken(verb)) && NoBreaks(MethodToken(verb))
  {
  }

  /** HTTP/1.1 to HTTP/1.9. */
  predicate SupportedVersion(version: string) {
    |version| == 8 && version[..7] == "HTTP/1." && '1' <= version[7] <= '9'
  }

  lemma VersionShape(version: string)
    requires SupportedVersion(version)
    ensures VersionError(version).None? && NoSpace(version) && NoBreaks(version)
  {
    assert forall i :: 0 <= i < 7 ==> version[i] == version[..7][i] == "HTTP/1."[i];
    assert version[..5] == version[..7][..5] == "HTTP/";
  }

  lemma ThreeSlices(a: string, b: string, c: string)
    ensures var line := a + " " + b + " " + c;
      var second := |a| + 1 + |b|;
      && |line| == second + 1 + |c| && line[|a|] == ' ' && line[second] == ' '
      && line[..|a|] == a && line[|a| + 1..second] == b && line[second + 1..] == c
  {
    var line, second := a + " " + b + " " + c, |a| + 1 + |b|;
    assert line == a + (" " + b + " " + c);
    assert line[second + 1..] == c;
    assert line[|a| + 1..second] == b;
  }

  /** Three parts without blanks, separated by single blanks, are found where they are. */
  lemma ThreeParts(a: string, b: string, c: string)
    requires NoSpace(a) && NoSpace(b) && NoSpace(c)
    ensures var line := a + " " + b + " " + c;
      var second := |a| + 1 + |b|;
      && IndexOf(line, ' ') == |a| && IndexOf(line, ' ', |a| + 1) == second && IndexOf(line, ' ', second + 1) == |line|
      && |line| == second + 1 + |c| && line[..|a|] == a && line[|a| + 1..second] == b && line[second + 1..] == c
  {
    var line, second := a + " " + b + " " + c, |a| + 1 + |b|;
    ThreeSlices(a, b, c);
    assert forall k :: 0 <= k < |a| ==> line[k] == line[..|a|][k];
    assert forall k :: |a| < k < second ==> line[k] == line[|a| + 1..second][k - |a| - 1];
    assert forall k :: second < k < |line| ==> line[k] == line[second + 1..][k - second - 1];
  }

  lemma RequestLineParses(g: Grammar, verb: Method, target: string, version: string, t: Target)
    requires NoSpace(target) && SupportedVersion(version)
    requires g.parseTarget(target, verb, |MethodToken(verb)| + 1) == Ok(t)
    ensures ParseRequestLine(g, RequestLineText(verb, target, version)) == Ok((verb, t))
  {
    MethodParses(verb);
    VersionShape(version);
    SpacedLineParses(g, MethodToken(verb), verb, target, version, t);
  }

  lemma SpacedLineParses(g: Grammar, token: string, verb: Method, target: string, version: string, t: Target)
    requires NoSpace(token) && NoSpace(target) && NoSpace(version) && version != ""
    requires ParseMethod(token) == Ok(verb) && VersionError(version).None?
    requires g.parseTarget(target, verb, |token| + 1) == Ok(t)
    ensures ParseRequestLine(g, token + " " + target + " " + version) == Ok((verb, t))
  {
    ThreeParts(token, target, version);
  }

  /**
   Every head within the limits whose target the target grammar accepts, whose version is an HTTP/1
   minor version other than 0, and whose fields are framed unambiguously, is parsed to its own meaning
   and consumed exactly, whatever follows it.
   */
  lemma {:induction false} HeadRoundTrip(
      g: Grammar, limits: Limits, verb: Method, target: string, version: string, t: Target,
      ws: seq<Written>, length: Option<nat>, chunked: bool, rest: string)
    requires NoSpace(target) && NoBreaks(target) && SupportedVersion(version)
    requires g.parseTarget(target, verb, |MethodToken(verb)| + 1) == Ok(t)
    requires AllWellWritten(ws) && Framed(g, limits, Meanings(ws), length, chunked)
    requires |RequestLineText(verb, target, version)| <= limits.maxRequestLineBytes
    requires |FieldText(ws)| + 2 <= limits.maxHeaderBytes
    ensures ParseHead(g, limits, HeadText(verb, target, version, ws) + rest)
         == Parsed(HeadMeaning(verb, t, ws, length, chunked, |HeadText(verb, target, version, ws)|))
  {
    var line := RequestLineText(verb, target, version);
    RequestLineParses(g, verb, target, version, t);
    LineTextHasNoBreak(verb, target, version);
    FramedHead(g, limits, line, verb, t, ws, length, chunked, rest);
  }

  /** What a written head of that size means. */
  function HeadMeaning(
      verb: Method, t: Target, ws: seq<Written>, length: Option<nat>, chunked: bool, size: nat): RequestHead {
    RequestHead(verb, t.routing, EffectiveFields(Meanings(ws), t.authority), size,
                if length.Some? then length.value else 0, chunked)
  }

  /** The same for any request line that means what it should. */
  lemma {:induction false} FramedHead(
      g: Grammar, limits: Limits, line: string, verb: Method, t: Target,
      ws: seq<Written>, length: Option<nat>, chunked: bool, rest: string)
    requires NoBreaks(line) && |line| <= limits.maxRequestLineBytes && ParseRequestLine(g, line) == Ok((verb, t))
    requires AllWellWritten(ws) && Framed(g, limits, Meanings(ws), length, chunked)
    requires |FieldText(ws)| + 2 <= limits.maxHeaderBytes
    ensures ParseHead(g, limits, line + CRLF + (FieldText(ws) + CRLF) + rest)
         == Parsed(HeadMeaning(verb, t, ws, length, chunked, |line + CRLF + (FieldText(ws) + CRLF)|))
  {
    var P := (i: nat, s: HeaderState) => i <= |ws| && After(Meanings(ws), length, i, s);
    FramedGuides(g, limits, ws, length, chunked, P);
    WrittenHead(g, LineReader(g, limits), limits, line, verb, t, ws, length, chunked, P, rest);
    ParseHeadIs(g, limits, line + CRLF + (FieldText(ws) + CRLF) + rest);
    SectionMeaning(line, verb, t, ws, length, chunked);
  }

  lemma SectionMeaning(line: string, verb: Method, t: Target, ws: seq<Written>, length: Option<nat>, chunked: bool)
    ensures FromSection(verb, t, SectionOf(ws, |line| + 2, length, chunked).value)
         == HeadMeaning(verb, t, ws, length, chunked, |line + CRLF + (FieldText(ws) + CRLF)|)
  {
  }

  lemma {:induction false} ParseHeadIs(g: Grammar, limits: Limits, text: string)
    ensures ParseHead(g, limits, text) == ParseHeadWith(g, LineReader(g, limits), limits, text)
  {
  }

  /** And for any reader that the fields guide. */
  lemma {:induction false} WrittenHead(
      g: Grammar, read: Reader, limits: Limits, line: string, verb: Method, t: Target,
      ws: seq<Written>, length: Option<nat>, chunked: bool, P: (nat, HeaderState) -> bool, rest: string)
    requires NoBreaks(line) && |line| <= limits.maxRequestLineBytes && ParseRequestLine(g, line) == Ok((verb, t))
    requires Framed(g, limits, Meanings(ws), length, chunked) && GoodLines(Lines(ws)) && Guides(read, Lines(ws), P)
    requires P == ((i: nat, s: HeaderState) => i <= |ws| && After(Meanings(ws), length, i, s))
    requires |FieldText(ws)| + 2 <= limits.maxHeaderBytes
    ensures ParseHeadWith(g, read, limits, line + CRLF + (FieldText(ws) + CRLF) + rest)
         == Parsed(FromSection(verb, t, SectionOf(ws, |line| + 2, length, chunked).value))
  {
    var text := line + CRLF + (FieldText(ws) + CRLF) + rest;
    assert text[|line| + 2..] == FieldText(ws) + (CRLF + rest);
    SectionParses(g, read, limits, ws, length, chunked, P, text, |line| + 2, rest);
    HeadFromText(g, read, limits, line, FieldText(ws) + CRLF, rest, verb, t,
                 SectionOf(ws, |line| + 2, length, chunked).value);
  }

  function FromSection(verb: Method, t: Target, s: Section): RequestHead {
    RequestHead(verb, t.routing, EffectiveFields(s.headers, t.authority), s.bodyStart, s.bodySize, s.chunked)
  }

  lemma {:induction false} HeadFromText(
      g: Grammar, read: Reader, limits: Limits, line: string, section: string, rest: string,
      verb: Method, t: Target, s: Section)
    requires NoBreaks(line) && |line| <= limits.maxRequestLineBytes && ParseRequestLine(g, line) == Ok((verb, t))
    requires ParseHeaders(read, limits, line + CRLF + section + rest, |line| + 2, |line| + 2, EMPTY_STATE) == Parsed(s)
    ensures ParseHeadWith(g, read, limits, line + CRLF + section + rest)
         == Parsed(FromSection(verb, t, s))
  {
    LineFirst(line, section, rest, limits.maxRequestLineBytes);
    HeadFromParts(g, read, limits, line + CRLF + section + rest, |line|, verb, t, s);
  }

  lemma LineFirst(line: string, section: string, rest: string, limit: nat)
    requires NoBreaks(line) && |line| <= limit
    ensures var text := line + CRLF + section + rest;
      && text[..|line|] == line && text[|line| + 2..] == section + rest
      && ScanRequestLine(text, limit, 0) == LineEnd(|line|)
  {
    var text := line + CRLF + section + rest;
    assert text[|line|..|line| + 2] == CRLF;
    assert forall k :: 0 <= k < |line| ==> text[k] == line[k];
    RequestScanFinds(text, limit, 0, |line|);
  }

  lemma {:induction false} HeadFromParts(
      g: Grammar, read: Reader, limits: Limits, text: string, end: nat, verb: Method, t: Target, s: Section)
    requires end + 2 <= |text| && ScanRequestLine(text, limits.maxRequestLineBytes, 0) == LineEnd(end)
    requires ParseRequestLine(g, text[..end]) == Ok((verb, t))
    requires ParseHeaders(read, limits, text, end + 2, end + 2, EMPTY_STATE) == Parsed(s)
    ensures ParseHeadWith(g, read, limits, text)
         == Parsed(FromSection(verb, t, s))
  {
  }

  lemma LineTextHasNoBreak(verb: Method, target: string, version: string)
    requires NoBreaks(target) && SupportedVersion(version)
    ensures NoBreaks(RequestLineText(verb, target, version))
  {
    MethodParses(verb);
    VersionShape(version);
  }
}
