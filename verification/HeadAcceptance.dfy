/**
 The parser accepts nothing else: whatever input yields a head starts with a head that was written
 properly, and the result is that head's own meaning.
 */
module HeadAcceptance {
  import opened Basics
  import opened HttpSyntax
  import opened RequestHead
  import opened PrintedHead

  /** A head as a client writes it, with what its parts stand for. */
  datatype Draft = Draft(
    verb: Method, target: string, version: string, meaning: Target,
    fields: seq<Written>, length: Option<nat>, chunked: bool)

  function DraftText(d: Draft): string {
    HeadText(d.verb, d.target, d.version, d.fields)
  }

  function DraftMeaning(d: Draft): RequestHead {
    HeadMeaning(d.verb, d.meaning, d.fields, d.length, d.chunked, |DraftText(d)|)
  }

  /** Request line and fields are well formed, within the limits and unambiguous about the body. */
  ghost predicate Proper(g: Grammar, limits: Limits, d: Draft) {
    ProperLine(g, limits, d) && ProperFields(g, limits, d)
  }

  predicate ProperLine(g: Grammar, limits: Limits, d: Draft) {
    && NoSpace(d.target) && NoBreaks(d.target) && SupportedVersion(d.version)
    && g.parseTarget(d.target, d.verb, |MethodToken(d.verb)| + 1) == Ok(d.meaning)
    && |RequestLineText(d.verb, d.target, d.version)| <= limits.maxRequestLineBytes
  }

  ghost predicate ProperFields(g: Grammar, limits: Limits, d: Draft) {
    && AllWellWritten(d.fields) && Framed(g, limits, Meanings(d.fields), d.length, d.chunked)
    && |FieldText(d.fields)| + 2 <= limits.maxHeaderBytes
  }

  // ---- The request line ----

  lemma MethodIsWritten(token: string)
    requires ParseMethod(token).Ok?
    ensures MethodToken(ParseMethod(token).value) == token
  {
  }

  lemma PartOfLine(line: string, from: nat, to: nat)
    requires from <= to <= |line| && NoBreaks(line) && forall k :: from <= k < to ==> line[k] != ' '
    ensures NoSpace(line[from..to]) && NoBreaks(line[from..to])
  {
  }

  lemma LineIsWritten(g: Grammar, line: string) returns (target: string, version: string)
    requires NoBreaks(line) && ParseRequestLine(g, line).Ok?
    ensures var (verb, t) := ParseRequestLine(g, line).value;
      && line == RequestLineText(verb, target, version)
      && NoSpace(target) && NoBreaks(target) && SupportedVersion(version)
      && g.parseTarget(target, verb, |MethodToken(verb)| + 1) == Ok(t)
  {
    var first := IndexOf(line, ' ');
    var second := IndexOf(line, ' ', first + 1);
    target, version := line[first + 1..second], line[second + 1..];
    MethodIsWritten(line[..first]);
    VersionIsSupported(version);
    PartOfLine(line, first + 1, second);
    ThreeSplit(line, first, second);
  }

  lemma VersionIsSupported(version: string)
    requires VersionError(version).None?
    ensures SupportedVersion(version)
  {
    assert version[..7] == version[..5] + [version[5]] + [version[6]];
    assert version[..7] == "HTTP/1.";
  }

  lemma ThreeSplit(line: string, first: nat, second: nat)
    requires first < second < |line| && line[first] == line[second] == ' '
    ensures line == line[..first] + " " + line[first + 1..second] + " " + line[second + 1..]
  {
  }

  // ---- One field ----

  lemma {:induction false} RightSplit(s: string) returns (k: nat)
    ensures k <= |s| && Blank(s[k..]) && TrimRight(s) == s[..k] && (k > 0 ==> !IsSpace(s[k - 1]))
    decreases |s|
  {
    k := |s|;
    if s != "" && IsSpace(s[|s| - 1]) {
      var front := s[..|s| - 1];
      k := RightSplit(front);
      SuffixGrows(s, k);
      assert front[..k] == s[..k];
    }
  }

  lemma SuffixGrows(s: string, k: nat)
    requires s != "" && k < |s|
    ensures s[k..] == s[..|s| - 1][k..] + [s[|s| - 1]]
  {
  }

  /** A value between its blanks. */
  lemma ValueSplit(s: string) returns (before: string, value: string, after: string)
    ensures s == before + (value + after) && value == TrimRight(TrimLeft(s))
    ensures Blank(before) && Blank(after) && Trimmed(value)
  {
    var k := LeftSplit(s);
    var rest := s[k..];
    var n := RightSplit(rest);
    before, value, after := s[..k], rest[..n], rest[n..];
    assert rest == value + after;
  }

  /** The parts of a field line that was parsed. */
  lemma FieldParts(line: string, at: nat) returns (name: string, rest: string)
    requires ParseField(line, at).Ok?
    ensures line == name + ":" + rest && name != "" && AllToken(name)
    ensures var f := ParseField(line, at).value.field;
      f.name == name && f.value == TrimRight(TrimLeft(rest)) && AllFieldValue(f.value)
  {
    var colon := IndexOf(line, ':');
    name, rest := line[..colon], line[colon + 1..];
    assert line == line[..colon] + [line[colon]] + line[colon + 1..];
  }

  lemma FieldIsWritten(line: string, at: nat) returns (w: Written)
    requires ParseField(line, at).Ok?
    ensures WellWritten(w) && w.Line() == line && w.Meaning() == ParseField(line, at).value.field
  {
    var name, rest := FieldParts(line, at);
    var before, value, after := ValueSplit(rest);
    w := Written(name, before, value, after);
  }

  // ---- The state of the section ----

  /** What a recorded field has done to the state. */
  predicate Agrees(g: Grammar, f: Field, st: HeaderState) {
    && (EqualIgnoreCase(f.name, "Host") ==> f.value != "" && g.validHost(f.value))
    && (EqualIgnoreCase(f.name, "Content-Length") ==> st.bodySize.Some? && ParseLength(f.value) == st.bodySize)
    && (EqualIgnoreCase(f.name, "Transfer-Encoding") ==>
          st.transferEncoding.Some? && st.transferEncoding.value.value == f.value)
  }

  predicate Recorded(g: Grammar, limits: Limits, st: HeaderState) {
    Tallied(limits, st) && forall i :: 0 <= i < |st.headers| ==> Agrees(g, st.headers[i], st)
  }

  lemma {:induction false} NoneNamed(fields: seq<Field>, name: string, i: nat)
    requires CountNamed(fields, name) == 0 && i < |fields|
    ensures !EqualIgnoreCase(fields[i].name, name)
    decreases |fields|
  {
    if i < |fields| - 1 {
      NoneNamed(fields[..|fields| - 1], name, i);
    }
  }

  /** A field keeps agreeing as long as the state only gains facts about names not seen before. */
  lemma StillAgrees(g: Grammar, f: Field, st: HeaderState, next: HeaderState)
    requires Agrees(g, f, st)
    requires next.bodySize == st.bodySize || !EqualIgnoreCase(f.name, "Content-Length")
    requires next.transferEncoding == st.transferEncoding || !EqualIgnoreCase(f.name, "Transfer-Encoding")
    ensures Agrees(g, f, next)
  {
  }

  lemma NewFieldAgrees(g: Grammar, limits: Limits, p: ParsedField, st: HeaderState)
    requires ApplyField(g, limits, p, st).Ok?
    ensures var next := ApplyField(g, limits, p, st).value;
      && next.headers == st.headers + [p.field] && Agrees(g, p.field, next)
      && (next.bodySize == st.bodySize || st.bodySize.None?)
      && (next.transferEncoding == st.transferEncoding || st.transferEncoding.None?)
  {
    assert |"Host"| == 4 && |"Content-Length"| == 14 && |"Transfer-Encoding"| == 17;
  }

  lemma ReadLineRecorded(g: Grammar, limits: Limits, line: string, at: nat, st: HeaderState)
    requires line != "" && Recorded(g, limits, st) && ReadLine(g, limits, line, at, st).Ok?
    ensures Recorded(g, limits, ReadLine(g, limits, line, at, st).value)
    ensures ParseField(line, at).Ok?
    ensures ReadLine(g, limits, line, at, st).value.headers == st.headers + [ParseField(line, at).value.field]
  {
    ReadLineTallied(g, limits, line, at, st);
    var p, next := ParseField(line, at).value, ReadLine(g, limits, line, at, st).value;
    NewFieldAgrees(g, limits, p, st);
    forall i | 0 <= i < |next.headers| ensures Agrees(g, next.headers[i], next) {
      if i < |st.headers| {
        OldFieldAgrees(g, limits, st, next, i);
      }
    }
  }

  lemma OldFieldAgrees(g: Grammar, limits: Limits, st: HeaderState, next: HeaderState, i: nat)
    requires Recorded(g, limits, st) && i < |st.headers|
    requires next.bodySize == st.bodySize || st.bodySize.None?
    requires next.transferEncoding == st.transferEncoding || st.transferEncoding.None?
    ensures Agrees(g, st.headers[i], next)
  {
    if st.bodySize.None? {
      NoneNamed(st.headers, "Content-Length", i);
    }
    if st.transferEncoding.None? {
      NoneNamed(st.headers, "Transfer-Encoding", i);
    }
    StillAgrees(g, st.headers[i], st, next);
  }

  lemma RecordedIsFramed(g: Grammar, limits: Limits, st: HeaderState, start: nat, end: nat)
    requires Recorded(g, limits, st) && FinishHeaders(st, start, end).Parsed?
    ensures Framed(g, limits, st.headers, st.bodySize, st.transferEncoding.Some?)
  {
    forall i | 0 <= i < |st.headers| ensures FieldAgrees(g, st.headers[i], st.bodySize) {
      assert Agrees(g, st.headers[i], st);
      if st.bodySize.Some? {
        LengthIsWritten(st.headers[i].value, st.bodySize.value);
      }
    }
  }

  // ---- The section ----

  lemma {:induction false} LineTextSnoc(lines: seq<string>, line: string)
    ensures LineText(lines + [line]) == LineText(lines) + (line + CRLF)
    decreases |lines|
  {
    if lines == [] {
      assert [] + [line] == [line] && [line][1..] == [];
      assert LineText([line]) == line + (CRLF + "");
    } else {
      LineTextSnoc(lines[1..], line);
      assert (lines + [line])[1..] == lines[1..] + [line];
    }
  }

  lemma FieldTextSnoc(ws: seq<Written>, w: Written)
    ensures FieldText(ws + [w]) == FieldText(ws) + (w.Line() + CRLF)
  {
    assert Lines(ws + [w]) == Lines(ws) + [w.Line()];
    LineTextSnoc(Lines(ws), w.Line());
  }

  lemma {:induction false} MeaningsSnoc(ws: seq<Written>, w: Written)
    ensures Meanings(ws + [w]) == Meanings(ws) + [w.Meaning()]
    decreases |ws|
  {
    if ws == [] {
      assert [] + [w] == [w] && [w][1..] == [];
    } else {
      MeaningsSnoc(ws[1..], w);
      assert (ws + [w])[1..] == ws[1..] + [w];
    }
  }

  /** Each line that the reader takes in a state of `P` extends what was written, and `P` goes on. */
  ghost predicate Explains(read: Reader, P: (seq<Written>, HeaderState) -> bool) {
    forall ws, line, at: nat, st :: line != "" && P(ws, st) && read(line, at, st).Ok? ==>
      ExplainsLine(P, ws, line, read(line, at, st).value)
  }

  ghost predicate ExplainsLine(
      P: (seq<Written>, HeaderState) -> bool, ws: seq<Written>, line: string, next: HeaderState) {
    exists w: Written :: w.Line() == line && P(ws + [w], next)
  }

  lemma SpanGrows(text: string, start: nat, at: nat, end: nat)
    requires start <= at <= end && end + 2 <= |text| && text[end..end + 2] == CRLF
    ensures text[start..end + 2] == text[start..at] + (text[at..end] + CRLF)
  {
    assert text[start..end + 2] == text[start..at] + (text[at..end] + text[end..end + 2]);
  }

  /** One more line of the text is one more written field. */
  lemma WrittenGrows(
      P: (seq<Written>, HeaderState) -> bool, text: string, start: nat, at: nat, end: nat,
      ws: seq<Written>, next: HeaderState)
      returns (longer: seq<Written>)
    requires start <= at <= end && end + 2 <= |text| && text[end..end + 2] == CRLF
    requires text[start..at] == FieldText(ws) && ExplainsLine(P, ws, text[at..end], next)
    ensures P(longer, next) && text[start..end + 2] == FieldText(longer)
  {
    var w: Written :| w.Line() == text[at..end] && P(ws + [w], next);
    FieldTextSnoc(ws, w);
    SpanGrows(text, start, at, end);
    longer := ws + [w];
  }

  /** A parsed section starts with a line that ends it or that the reader takes. */
  lemma ParsedStep(read: Reader, limits: Limits, text: string, start: nat, at: nat, st: HeaderState) returns (end: nat)
    requires start <= at && ParseHeaders(read, limits, text, start, at, st).Parsed?
    ensures at <= end && end + 2 <= |text| && end + 2 <= start + limits.maxHeaderBytes && text[end..end + 2] == CRLF
    ensures end == at ==> ParseHeaders(read, limits, text, start, at, st) == FinishHeaders(st, start, end)
    ensures end > at ==>
      && read(text[at..end], at, st).Ok?
      && ParseHeaders(read, limits, text, start, at, st)
         == ParseHeaders(read, limits, text, start, end + 2, read(text[at..end], at, st).value)
  {
    HeaderLineFacts(text, start, limits.maxHeaderBytes, at);
    end := ScanHeaderLine(text, start, limits.maxHeaderBytes, at).at;
  }

  /** A section that was parsed, read as written fields and the blank line after them. */
  lemma {:induction false} SectionIsWritten(
      read: Reader, limits: Limits, P: (seq<Written>, HeaderState) -> bool,
      text: string, start: nat, at: nat, st: HeaderState, ws: seq<Written>, goal: Outcome<Section>)
      returns (all: seq<Written>, last: HeaderState, end: nat)
    requires Explains(read, P) && P(ws, st)
    requires start <= at <= |text| && text[start..at] == FieldText(ws)
    requires ParseHeaders(read, limits, text, start, at, st) == goal && goal.Parsed?
    ensures P(all, last) && start <= end && end + 2 <= |text| && end + 2 <= start + limits.maxHeaderBytes
    ensures text[start..end] == FieldText(all) && text[end..end + 2] == CRLF
    ensures goal == FinishHeaders(last, start, end)
    decreases |text| - at
  {
    end := ParsedStep(read, limits, text, start, at, st);
    all, last := ws, st;
    if end > at {
      var next := read(text[at..end], at, st).value;
      assert ExplainsLine(P, ws, text[at..end], next);
      var longer := WrittenGrows(P, text, start, at, end, ws, next);
      all, last, end := SectionIsWritten(read, limits, P, text, start, end + 2, next, longer, goal);
    }
  }

  /** Written fields and the state that reading them leads to. */
  predicate Reached(g: Grammar, limits: Limits, ws: seq<Written>, st: HeaderState) {
    AllWellWritten(ws) && st.headers == Meanings(ws) && Recorded(g, limits, st)
  }

  lemma ReachedExplains(g: Grammar, limits: Limits, P: (seq<Written>, HeaderState) -> bool)
    requires P == ((ws: seq<Written>, st: HeaderState) => Reached(g, limits, ws, st))
    ensures Explains(LineReader(g, limits), P)
  {
    var read := LineReader(g, limits);
    forall ws, line, at: nat, st | line != "" && P(ws, st) && read(line, at, st).Ok?
      ensures ExplainsLine(P, ws, line, read(line, at, st).value)
    {
      var w := OneMoreReached(g, limits, ws, line, at, st);
      assert P(ws + [w], read(line, at, st).value);
    }
  }

  lemma OneMoreReached(g: Grammar, limits: Limits, ws: seq<Written>, line: string, at: nat, st: HeaderState)
      returns (w: Written)
    requires line != "" && Reached(g, limits, ws, st) && ReadLine(g, limits, line, at, st).Ok?
    ensures w.Line() == line && Reached(g, limits, ws + [w], ReadLine(g, limits, line, at, st).value)
  {
    ReadLineRecorded(g, limits, line, at, st);
    w := FieldIsWritten(line, at);
    MeaningsSnoc(ws, w);
  }

  lemma SectionIsProper(g: Grammar, limits: Limits, text: string, start: nat)
      returns (ws: seq<Written>, length: Option<nat>, chunked: bool)
    requires start <= |text| && ParseHeaders(LineReader(g, limits), limits, text, start, start, EMPTY_STATE).Parsed?
    ensures AllWellWritten(ws) && Framed(g, limits, Meanings(ws), length, chunked)
    ensures |FieldText(ws)| + 2 <= limits.maxHeaderBytes && FieldText(ws) + CRLF <= text[start..]
  {
    var P := (ws: seq<Written>, st: HeaderState) => Reached(g, limits, ws, st);
    ReachedExplains(g, limits, P);
    var all, last, end := SectionFromStart(LineReader(g, limits), limits, P, text, start);
    RecordedIsFramed(g, limits, last, start, end);
    ws, length, chunked := all, last.bodySize, last.transferEncoding.Some?;
  }

  lemma SectionFromStart(read: Reader, limits: Limits, P: (seq<Written>, HeaderState) -> bool, text: string, start: nat)
      returns (all: seq<Written>, last: HeaderState, end: nat)
    requires Explains(read, P) && P([], EMPTY_STATE)
    requires start <= |text| && ParseHeaders(read, limits, text, start, start, EMPTY_STATE).Parsed?
    ensures P(all, last) && FinishHeaders(last, start, end).Parsed?
    ensures |FieldText(all)| + 2 <= limits.maxHeaderBytes && FieldText(all) + CRLF <= text[start..]
  {
    assert text[start..start] == FieldText([]);
    var goal := ParseHeaders(read, limits, text, start, start, EMPTY_STATE);
    all, last, end := SectionIsWritten(read, limits, P, text, start, start, EMPTY_STATE, [], goal);
    assert text[start..][..end + 2 - start] == text[start..end] + text[end..end + 2];
  }

  lemma LinePart(g: Grammar, limits: Limits, text: string, end: nat)
      returns (verb: Method, target: string, version: string, t: Target)
    requires end <= |text| && end <= limits.maxRequestLineBytes && NoBreaksIn(text, 0, end)
    requires ParseRequestLine(g, text[..end]).Ok?
    ensures text[..end] == RequestLineText(verb, target, version)
    ensures NoSpace(target) && NoBreaks(target) && SupportedVersion(version)
    ensures g.parseTarget(target, verb, |MethodToken(verb)| + 1) == Ok(t)
  {
    var line := text[..end];
    target, version := LineIsWritten(g, line);
    verb, t := ParseRequestLine(g, line).value.0, ParseRequestLine(g, line).value.1;
  }

  /** The head of a parsed input, with its request line and its section read on their own. */
  lemma HeadSplits(g: Grammar, limits: Limits, text: string)
      returns (end: nat, ws: seq<Written>, length: Option<nat>, chunked: bool)
    requires ParseHead(g, limits, text).Parsed?
    ensures end + 2 <= |text| && end <= limits.maxRequestLineBytes && NoBreaksIn(text, 0, end)
    ensures text[end..end + 2] == CRLF
    ensures ParseRequestLine(g, text[..end]).Ok?
    ensures AllWellWritten(ws) && Framed(g, limits, Meanings(ws), length, chunked)
    ensures |FieldText(ws)| + 2 <= limits.maxHeaderBytes && FieldText(ws) + CRLF <= text[end + 2..]
  {
    var s;
    end, s := HeadParts(g, limits, text);
    ws, length, chunked := SectionIsProper(g, limits, text, end + 2);
  }

  /** Whatever was parsed as a head was written as one. */
  lemma HeadIsWritten(g: Grammar, limits: Limits, text: string) returns (d: Draft)
    requires ParseHead(g, limits, text).Parsed?
    ensures Proper(g, limits, d) && DraftText(d) <= text
  {
    var end, ws, length, chunked := HeadSplits(g, limits, text);
    d := DraftOf(g, limits, text, end, ws, length, chunked);
  }

  lemma DraftOf(
      g: Grammar, limits: Limits, text: string, end: nat, ws: seq<Written>, length: Option<nat>, chunked: bool)
      returns (d: Draft)
    requires end + 2 <= |text| && end <= limits.maxRequestLineBytes && NoBreaksIn(text, 0, end)
    requires text[end..end + 2] == CRLF
    requires ParseRequestLine(g, text[..end]).Ok?
    requires AllWellWritten(ws) && Framed(g, limits, Meanings(ws), length, chunked)
    requires |FieldText(ws)| + 2 <= limits.maxHeaderBytes && FieldText(ws) + CRLF <= text[end + 2..]
    ensures Proper(g, limits, d) && DraftText(d) <= text
  {
    var verb, target, version, t := LinePart(g, limits, text, end);
    d := Draft(verb, target, version, t, ws, length, chunked);
    HeadTextFits(text, end, RequestLineText(verb, target, version), FieldText(ws) + CRLF);
  }

  lemma HeadTextFits(text: string, end: nat, line: string, section: string)
    requires end + 2 <= |text| && line == text[..end] && text[end..end + 2] == CRLF && section <= text[end + 2..]
    ensures line + CRLF + section <= text
  {
    var n := |section|;
    assert text[..end + 2 + n] == text[..end] + text[end..end + 2] + text[end + 2..][..n];
  }

  /**
   The parser yields a head on exactly those inputs that start with a properly written one, and it
   yields that head's meaning.
   */
  lemma AcceptsExactlyHeads(g: Grammar, limits: Limits, text: string)
    ensures ParseHead(g, limits, text).Parsed? <==> exists d :: Proper(g, limits, d) && DraftText(d) <= text
    ensures forall d :: Proper(g, limits, d) && DraftText(d) <= text ==>
      ParseHead(g, limits, text) == Parsed(DraftMeaning(d))
  {
    if ParseHead(g, limits, text).Parsed? {
      var d := HeadIsWritten(g, limits, text);
    }
    forall d | Proper(g, limits, d) && DraftText(d) <= text
      ensures ParseHead(g, limits, text) == Parsed(DraftMeaning(d))
    {
      DraftParses(g, limits, d, text);
    }
  }

  lemma DraftParses(g: Grammar, limits: Limits, d: Draft, text: string)
    requires Proper(g, limits, d) && DraftText(d) <= text
    ensures ParseHead(g, limits, text) == Parsed(DraftMeaning(d))
  {
    var rest := text[|DraftText(d)|..];
    assert text == DraftText(d) + rest;
    DraftThenParses(g, limits, d, rest);
  }

  lemma {:induction false} DraftThenParses(g: Grammar, limits: Limits, d: Draft, rest: string)
    requires Proper(g, limits, d)
    ensures ParseHead(g, limits, DraftText(d) + rest) == Parsed(DraftMeaning(d))
  {
    HeadRoundTrip(g, limits, d.verb, d.target, d.version, d.meaning, d.fields, d.length, d.chunked, rest);
  }
}
