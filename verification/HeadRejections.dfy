/**
 Exactly what the head parser rejects, check by check: which error it reports, at which offset, and for
 what reason.  Lines are found where their ending is; a request line has three parts; a field has a name
 and a value; and the fields together must say one thing about the body.
 */
module HeadRejections {
  import opened Basics
  import opened HttpSyntax
  import opened Numerals
  import opened RequestHead
  import opened PrintedHead

  // ---- Lines ----

  /** `b` is the first carriage return or line feed from `from` on, or the end of the text. */
  predicate FirstBreak(text: string, from: nat, b: nat) {
    && from <= b <= |text| && NoBreaksIn(text, from, b)
    && (b < |text| ==> text[b] == '\r' || text[b] == '\n')
  }

  /** What the first break of a text means for the line before it. */
  function AtBreak(text: string, b: nat): Scan {
    if b >= |text| then Incomplete
    else if text[b] == '\n' then Broken(ParseError(InvalidLineEnding, b))
    else if b + 1 == |text| then Incomplete
    else if text[b + 1] == '\n' then LineEnd(b)
    else Broken(ParseError(InvalidLineEnding, b))
  }

  /** A request line may be as long as its limit; a longer one is rejected before its ending is looked at. */
  lemma {:induction false} RequestLineExactly(text: string, limit: nat, from: nat, b: nat)
    requires FirstBreak(text, from, b) && from <= limit
    ensures ScanRequestLine(text, limit, from) ==
      if b > limit then Broken(ParseError(RequestLineTooLarge, limit)) else AtBreak(text, b)
    decreases b - from
  {
    if from < b && from < limit {
      RequestLineExactly(text, limit, from + 1, b);
    }
  }

  /** All header lines share one budget, which counts their endings too. */
  lemma {:induction false} HeaderLineExactly(text: string, start: nat, limit: nat, from: nat, b: nat)
    requires FirstBreak(text, from, b) && start <= from <= start + limit
    ensures var tooLarge := Broken(ParseError(HeadersTooLarge, start + limit));
      ScanHeaderLine(text, start, limit, from) ==
        if b >= |text| then if |text| > start + limit then tooLarge else Incomplete
        else if b >= start + limit then tooLarge
        else if AtBreak(text, b).LineEnd? && b + 2 > start + limit then tooLarge
        else AtBreak(text, b)
    decreases b - from
  {
    if from < b && from < start + limit {
      HeaderLineExactly(text, start, limit, from + 1, b);
    }
  }

  // ---- The request line ----

  /** "HTTP/", a digit, a dot and a digit. */
  predicate VersionShaped(version: string) {
    |version| == 8 && version[..5] == "HTTP/" && IsDigit(version[5]) && version[6] == '.' && IsDigit(version[7])
  }

  lemma VersionsExactly(version: string)
    ensures VersionError(version) ==
      if SupportedVersion(version) then None
      else if VersionShaped(version) then Some(UnsupportedHttpVersion)
      else Some(MalformedHttpVersion)
  {
    if SupportedVersion(version) {
      VersionShape(version);
    } else if VersionShaped(version) && version[5] == '1' {
      assert version[..7] == version[..5] + [version[5]] + [version[6]] == "HTTP/1.";
    }
  }

  ghost predicate KnownMethod(token: string) {
    exists verb :: token == MethodToken(verb)
  }

  lemma MethodsExactly(token: string)
    ensures token == "" ==> ParseMethod(token) == Err(MalformedRequestLine)
    ensures token != "" && !AllToken(token) ==> ParseMethod(token) == Err(InvalidMethod)
    ensures token != "" && AllToken(token) && !KnownMethod(token) ==> ParseMethod(token) == Err(UnsupportedMethod)
    ensures forall verb :: ParseMethod(MethodToken(verb)) == Ok(verb)
  {
    forall verb ensures ParseMethod(MethodToken(verb)) == Ok(verb) {
      MethodParses(verb);
    }
    if ParseMethod(token).Ok? {
      assert token == MethodToken(ParseMethod(token).value);
    }
  }

  /** The first wrong part of a line of three parts is what it is rejected for. */
  lemma LineOfThree(g: Grammar, a: string, b: string, c: string)
    requires NoSpace(a) && NoSpace(b) && NoSpace(c)
    ensures var line := ParseRequestLine(g, a + " " + b + " " + c);
      match ParseMethod(a)
      case Err(code) => line == Err(ParseError(code, 0))
      case Ok(verb) =>
        var target := g.parseTarget(b, verb, |a| + 1);
        if target.Err? then line == Err(target.error)
        else if SupportedVersion(c) then line == Ok((verb, target.value))
        else if VersionShaped(c) then line == Err(ParseError(UnsupportedHttpVersion, |a| + |b| + 2))
        else line == Err(ParseError(MalformedHttpVersion, |a| + |b| + 2))
  {
    VersionsExactly(c);
    LineOfThreeSplits(g, a, b, c);
  }

  lemma LineOfThreeSplits(g: Grammar, a: string, b: string, c: string)
    requires NoSpace(a) && NoSpace(b) && NoSpace(c)
    ensures ParseRequestLine(g, a + " " + b + " " + c) ==
      var verb := ParseMethod(a);
      if verb.Err? then Err(ParseError(verb.error, 0))
      else
        var target := g.parseTarget(b, verb.value, |a| + 1);
        if target.Err? then Err(target.error)
        else if VersionError(c).Some? then Err(ParseError(VersionError(c).value, |a| + |b| + 2))
        else Ok((verb.value, target.value))
  {
    ThreeParts(a, b, c);
  }

  /** Any other number of blanks is malformed. */
  lemma OtherLines(g: Grammar, a: string, rest: string)
    requires NoSpace(a)
    ensures ParseRequestLine(g, a) == Err(ParseError(MalformedRequestLine, 0))
    ensures NoSpace(rest) ==> ParseRequestLine(g, a + " " + rest) == Err(ParseError(MalformedRequestLine, |a| + 1))
    ensures forall b, c, d :: NoSpace(b) && NoSpace(c) && rest == b + " " + c + " " + d ==>
      ParseRequestLine(g, a + " " + rest) == Err(ParseError(MalformedRequestLine, |a| + 1))
  {
    FirstBlank(a, rest);
    var line := a + " " + rest;
    if NoSpace(rest) {
      assert forall k :: |a| < k < |line| ==> line[k] == rest[k - |a| - 1];
    }
    forall b, c, d | NoSpace(b) && NoSpace(c) && rest == b + " " + c + " " + d
      ensures ParseRequestLine(g, line) == Err(ParseError(MalformedRequestLine, |a| + 1))
    {
      var second, third := |a| + 1 + |b|, |a| + 1 + |b| + 1 + |c|;
      assert rest[|b|] == ' ' && rest[|b| + 1 + |c|] == ' ';
      assert line[second] == ' ' && line[third] == ' ';
      assert forall k :: |a| < k < second ==> line[k] == rest[k - |a| - 1] == b[k - |a| - 1];
      assert IndexOf(line, ' ', |a| + 1) == second;
    }
  }

  lemma FirstBlank(a: string, rest: string)
    requires NoSpace(a)
    ensures IndexOf(a, ' ') == |a| && IndexOf(a + " " + rest, ' ') == |a|
  {
    var line := a + " " + rest;
    assert line[|a|] == ' ' && forall k :: 0 <= k < |a| ==> line[k] == a[k];
  }

  // ---- Fields ----

  /** A well-written field is read with the positions of its line and of its value. */
  lemma FieldPositions(w: Written, lineStart: nat)
    requires WellWritten(w) && w.value != ""
    ensures ParseField(w.Line(), lineStart) ==
      Ok(ParsedField(w.Meaning(), lineStart, lineStart + |w.name| + 1 + |w.before|))
  {
    FieldLineParses(w, lineStart);
    NameEndsAtColon(w.name, w.before + (w.value + w.after));
    LeftTrims(w.before, w.value + w.after);
  }

  /** What stands before the first colon is a name. */
  predicate Named(line: string) {
    var colon := IndexOf(line, ':');
    0 < colon < |line| && AllToken(line[..colon])
  }

  /** What stands behind it, without the blanks around it. */
  function ValueOf(line: string): string
    requires Named(line)
  {
    TrimRight(TrimLeft(line[IndexOf(line, ':') + 1..]))
  }

  /** A line is folded, or has no proper name. */
  lemma NameErrors(line: string, lineStart: nat)
    requires line != ""
    ensures IsSpace(line[0]) ==> ParseField(line, lineStart) == Err(ParseError(FoldedHeader, lineStart))
    ensures !IsSpace(line[0]) && !Named(line) ==>
      ParseField(line, lineStart) == Err(ParseError(MalformedHeader, lineStart))
  {
  }

  /** Or it has a value that is not allowed; otherwise it is a field. */
  lemma ValueErrors(line: string, lineStart: nat)
    requires line != "" && !IsSpace(line[0]) && Named(line)
    ensures ParseField(line, lineStart).Ok? <==> AllFieldValue(ValueOf(line))
    ensures ParseField(line, lineStart).Err? ==>
      ParseField(line, lineStart) == Err(ParseError(MalformedHeader, lineStart + IndexOf(line, ':') + 1))
    ensures ParseField(line, lineStart).Ok? ==>
      ParseField(line, lineStart).value.field == Field(line[..IndexOf(line, ':')], ValueOf(line))
  {
  }

  /** A name stands for one of the three fields that matter, or for none of them. */
  predicate Framing(name: string) {
    || EqualIgnoreCase(name, "Host") || EqualIgnoreCase(name, "Content-Length")
    || EqualIgnoreCase(name, "Transfer-Encoding")
  }

  lemma HostExactly(g: Grammar, limits: Limits, p: ParsedField, st: HeaderState)
    requires EqualIgnoreCase(p.field.name, "Host")
    ensures ApplyField(g, limits, p, st) ==
      if st.hostSeen then Err(ParseError(DuplicateHost, p.lineStart))
      else if p.field.value == "" then Err(ParseError(MissingHost, p.valueStart))
      else if !g.validHost(p.field.value) then Err(ParseError(InvalidHost, p.valueStart))
      else Ok(HeaderState(st.headers + [p.field], st.bodySize, true, st.transferEncoding))
  {
  }

  /** The length must be a decimal number that the machine and the limit have room for, and stand once. */
  lemma LengthExactly(g: Grammar, limits: Limits, p: ParsedField, st: HeaderState, n: nat)
    requires EqualIgnoreCase(p.field.name, "Content-Length")
    ensures var result := ApplyField(g, limits, p, st);
      && (st.bodySize.Some? ==> result == Err(ParseError(DuplicateContentLength, p.lineStart)))
      && (st.bodySize.None? && Denotes(Decimal, p.field.value, n) ==>
            result ==
              if n > SIZE_MAX then Err(ParseError(InvalidContentLength, p.valueStart))
              else if n > limits.maxBodyBytes then Err(ParseError(BodyTooLarge, p.valueStart))
              else Ok(HeaderState(st.headers + [p.field], Some(n), st.hostSeen, st.transferEncoding)))
      && (st.bodySize.None? && (forall m: nat :: !Denotes(Decimal, p.field.value, m)) ==>
            result == Err(ParseError(InvalidContentLength, p.valueStart)))
  {
    assert |"Host"| == 4 && |"Content-Length"| == 14;
    LengthIsWritten(p.field.value, n);
    if ParseLength(p.field.value).Some? {
      LengthIsWritten(p.field.value, ParseLength(p.field.value).value);
    }
    if Denotes(Decimal, p.field.value, n) {
      ReadsExactly(Decimal, p.field.value, n);
    }
  }

  lemma CodingExactly(g: Grammar, limits: Limits, p: ParsedField, st: HeaderState)
    requires EqualIgnoreCase(p.field.name, "Transfer-Encoding")
    ensures ApplyField(g, limits, p, st) ==
      if st.transferEncoding.Some? then Err(ParseError(InvalidTransferEncoding, p.lineStart))
      else Ok(HeaderState(st.headers + [p.field], st.bodySize, st.hostSeen, Some(Coding(p.field.value, p.valueStart))))
  {
    assert |"Host"| == 4 && |"Content-Length"| == 14 && |"Transfer-Encoding"| == 17;
  }

  lemma OtherFieldsExactly(g: Grammar, limits: Limits, p: ParsedField, st: HeaderState)
    requires !Framing(p.field.name)
    ensures ApplyField(g, limits, p, st) ==
      Ok(HeaderState(st.headers + [p.field], st.bodySize, st.hostSeen, st.transferEncoding))
  {
  }

  lemma TooManyExactly(g: Grammar, limits: Limits, line: string, lineStart: nat, st: HeaderState)
    ensures |st.headers| >= limits.maxHeaderCount ==>
      ReadLine(g, limits, line, lineStart, st) == Err(ParseError(TooManyHeaders, lineStart))
    ensures |st.headers| < limits.maxHeaderCount && ParseField(line, lineStart).Err? ==>
      ReadLine(g, limits, line, lineStart, st) == Err(ParseField(line, lineStart).error)
  {
  }

  /** At the end there must be a host, and at most one way to know the length of the body. */
  lemma SectionExactly(st: HeaderState, start: nat, end: nat)
    ensures var result := FinishHeaders(st, start, end);
      && (result == Rejected(ParseError(MissingHost, start)) || st.hostSeen)
      && (st.hostSeen && st.transferEncoding.None? ==>
            result == Parsed(Section(st.headers, end + 2, if st.bodySize.Some? then st.bodySize.value else 0, false)))
      && (st.hostSeen && st.transferEncoding.Some? ==>
            var coding := st.transferEncoding.value;
            if st.bodySize.Some? then result == Rejected(ParseError(ConflictingMessageLength, coding.offset))
            else if EqualIgnoreCase(coding.value, "chunked") then
              result == Parsed(Section(st.headers, end + 2, 0, true))
            else if coding.value != "" && AllToken(coding.value) then
              result == Rejected(ParseError(UnsupportedTransferEncoding, coding.offset))
            else result == Rejected(ParseError(InvalidTransferEncoding, coding.offset)))
  {
  }

  /** An absolute target replaces the value of every Host field, and nothing else. */
  lemma AuthorityExactly(fields: seq<Field>, authority: string, i: nat)
    requires i < |fields|
    ensures |EffectiveFields(fields, authority)| == |fields|
    ensures var f := EffectiveFields(fields, authority)[i];
      && f.name == fields[i].name
      && f.value == if authority != "" && EqualIgnoreCase(fields[i].name, "Host") then authority else fields[i].value
  {
  }

  // ---- The whole head ----

  /** The head is rejected for its first line, or as its fields are. */
  lemma HeadExactly(g: Grammar, limits: Limits, text: string, b: nat)
    requires FirstBreak(text, 0, b)
    ensures var head, limit := ParseHead(g, limits, text), limits.maxRequestLineBytes;
      if b > limit then head == Rejected(ParseError(RequestLineTooLarge, limit))
      else match AtBreak(text, b)
           case Incomplete => head == NeedMore
           case Broken(e) => head == Rejected(e)
           case LineEnd(_) =>
             var line := ParseRequestLine(g, text[..b]);
             if line.Err? then head == Rejected(line.error)
             else
               match ParseHeaders(LineReader(g, limits), limits, text, b + 2, b + 2, EMPTY_STATE)
               case NeedMore => head == NeedMore
               case Rejected(e) => head == Rejected(e)
               case Parsed(_) =>
                 head.Parsed? && head.value.verb == line.value.0 && head.value.target == line.value.1.routing
  {
    RequestLineExactly(text, limits.maxRequestLineBytes, 0, b);
  }

  /** A section is rejected for its next line, ended by a blank one, or read on with what the line has added. */
  lemma NextLineExactly(g: Grammar, limits: Limits, text: string, start: nat, lineStart: nat, st: HeaderState)
    requires start <= lineStart
    ensures var section := ParseHeaders(LineReader(g, limits), limits, text, start, lineStart, st);
      match ScanHeaderLine(text, start, limits.maxHeaderBytes, lineStart)
      case Incomplete => section == NeedMore
      case Broken(e) => section == Rejected(e)
      case LineEnd(b) =>
        && lineStart <= b <= |text|
        && if b == lineStart then section == FinishHeaders(st, start, b)
           else
             var next := ReadLine(g, limits, text[lineStart..b], lineStart, st);
             if next.Err? then section == Rejected(next.error)
             else section == ParseHeaders(LineReader(g, limits), limits, text, start, b + 2, next.value)
  {
    HeaderLineFacts(text, start, limits.maxHeaderBytes, lineStart);
  }
}
