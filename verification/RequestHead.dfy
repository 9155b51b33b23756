/**
 The request-head parser, which the server re-runs on growing prefixes of the same input.  Target and
 host-authority syntax are parameters: the results hold for every choice of them.
 */
module RequestHead {
  import opened Basics
  import opened HttpSyntax
  import opened Numerals
  import opened TextSearch
  import DispatcherProtocol

  datatype Method = Get | Head | Post | Put | Delete | Options

  datatype Target = Target(routing: string, authority: string)

  /** The grammars that live in other files of the program. */
  datatype Grammar = Grammar(
    parseTarget: (string, Method, nat) -> Result<Target, ParseError>,
    validHost: string -> bool)

  datatype Field = Field(name: string, value: string)

  datatype ParsedField = ParsedField(field: Field, lineStart: nat, valueStart: nat)

  datatype Coding = Coding(value: string, offset: nat)

  datatype HeaderState = HeaderState(
    headers: seq<Field>, bodySize: Option<nat>, hostSeen: bool, transferEncoding: Option<Coding>)

  datatype Section = Section(headers: seq<Field>, bodyStart: nat, bodySize: nat, chunked: bool)

  datatype RequestHead = RequestHead(
    verb: Method, target: string, fields: seq<Field>, consumedBytes: nat, contentLength: nat, chunked: bool)

  datatype Outcome<+T> = Parsed(value: T) | NeedMore | Rejected(error: ParseError)

  datatype Scan = LineEnd(at: nat) | Incomplete | Broken(error: ParseError)

  // ---------------------------------------------------------------- line scanners

  function ScanRequestLine(text: string, limit: nat, i: nat): Scan
    decreases |text| - i
  {
    if i >= |text| then Incomplete
    else if text[i] == '\n' then Broken(ParseError(InvalidLineEnding, i))
    else if text[i] == '\r' then
      if i + 1 >= |text| then Incomplete
      else if text[i + 1] != '\n' then Broken(ParseError(InvalidLineEnding, i))
      else if i > limit then Broken(ParseError(RequestLineTooLarge, limit))
      else LineEnd(i)
    else if i >= limit then Broken(ParseError(RequestLineTooLarge, limit))
    else ScanRequestLine(text, limit, i + 1)
  }

  function ScanHeaderLine(text: string, start: nat, limit: nat, i: nat): Scan
    requires start <= i
    decreases |text| - i
  {
    if i >= |text| then Incomplete
    else if i - start >= limit then Broken(ParseError(HeadersTooLarge, start + limit))
    else if text[i] == '\n' then Broken(ParseError(InvalidLineEnding, i))
    else if text[i] != '\r' then ScanHeaderLine(text, start, limit, i + 1)
    else if i + 1 >= |text| then Incomplete
    else if text[i + 1] != '\n' then Broken(ParseError(InvalidLineEnding, i))
    else if i + 2 - start > limit then Broken(ParseError(HeadersTooLarge, start + limit))
    else LineEnd(i)
  }

  method FindRequestLineEnd(text: string, limit: nat) returns (scan: Scan)
    ensures scan == ScanRequestLine(text, limit, 0)
  {
    for i := 0 to |text|
      invariant ScanRequestLine(text, limit, 0) == ScanRequestLine(text, limit, i)
    {
      if text[i] == '\n' {
        return Broken(ParseError(InvalidLineEnding, i));
      }
      if text[i] == '\r' {
        if i + 1 >= |text| {
          return Incomplete;
        }
        if text[i + 1] != '\n' {
          return Broken(ParseError(InvalidLineEnding, i));
        }
        if i > limit {
          return Broken(ParseError(RequestLineTooLarge, limit));
        }
        return LineEnd(i);
      }
      if i >= limit {
        return Broken(ParseError(RequestLineTooLarge, limit));
      }
    }
    return Incomplete;
  }

  method FindHeaderLineEnd(text: string, lineStart: nat, start: nat, limit: nat) returns (scan: Scan)
    requires start <= lineStart
    ensures scan == ScanHeaderLine(text, start, limit, lineStart)
  {
    var i := lineStart;
    while i < |text|
      invariant lineStart <= i
      invariant ScanHeaderLine(text, start, limit, lineStart) == ScanHeaderLine(text, start, limit, i)
      decreases |text| - i
    {
      if i - start >= limit {
        return Broken(ParseError(HeadersTooLarge, start + limit));
      }
      if text[i] == '\n' {
        return Broken(ParseError(InvalidLineEnding, i));
      }
      if text[i] != '\r' {
        i := i + 1;
        continue;
      }
      if i + 1 >= |text| {
        return Incomplete;
      }
      if text[i + 1] != '\n' {
        return Broken(ParseError(InvalidLineEnding, i));
      }
      if i + 2 - start > limit {
        return Broken(ParseError(HeadersTooLarge, start + limit));
      }
      return LineEnd(i);
    }
    return Incomplete;
  }

  // ---------------------------------------------------------------- the request line

  function ParseMethod(token: string): Result<Method, ErrorCode> {
    if token == "" then Err(MalformedRequestLine)
    else if !AllToken(token) then Err(InvalidMethod)
    else if token == "GET" then Ok(Get)
    else if token == "HEAD" then Ok(Head)
    else if token == "POST" then Ok(Post)
    else if token == "PUT" then Ok(Put)
    else if token == "DELETE" then Ok(Delete)
    else if token == "OPTIONS" then Ok(Options)
    else Err(UnsupportedMethod)
  }

  function VersionError(version: string): Option<ErrorCode> {
    if |version| != 8 || version[..5] != "HTTP/" || version[6] != '.' || !IsDigit(version[5]) || !IsDigit(version[7])
    then Some(MalformedHttpVersion)
    else if version[5] != '1' || version[7] == '0' then Some(UnsupportedHttpVersion)
    else None
  }

  function ParseRequestLine(g: Grammar, line: string): Result<(Method, Target), ParseError> {
    var first := IndexOf(line, ' ');
    if first == |line| then Err(ParseError(MalformedRequestLine, 0))
    else
      var second := IndexOf(line, ' ', first + 1);
      if second == |line| || IndexOf(line, ' ', second + 1) != |line| then
        Err(ParseError(MalformedRequestLine, first + 1))
      else
        var verb := ParseMethod(line[..first]);
        if verb.Err? then Err(ParseError(verb.error, 0))
        else
          var target := g.parseTarget(line[first + 1..second], verb.value, first + 1);
          if target.Err? then Err(target.error)
          else
            var version := VersionError(line[second + 1..]);
            if version.Some? then Err(ParseError(version.value, second + 1))
            else Ok((verb.value, target.value))
  }

  // ---------------------------------------------------------------- header fields

  function ParseField(line: string, lineStart: nat): Result<ParsedField, ParseError> {
    var colon := IndexOf(line, ':');
    if line != "" && IsSpace(line[0]) then Err(ParseError(FoldedHeader, lineStart))
    else if colon == |line| || colon == 0 || !AllToken(line[..colon]) then Err(ParseError(MalformedHeader, lineStart))
    else
      var untrimmed := line[colon + 1..];
      var value := TrimRight(TrimLeft(untrimmed));
      if !AllFieldValue(value) then Err(ParseError(MalformedHeader, lineStart + colon + 1))
      else Ok(ParsedField(Field(line[..colon], value), lineStart,
                          lineStart + colon + 1 + (|untrimmed| - |TrimLeft(untrimmed)|)))
  }

  /** `std::from_chars` in base ten over the whole value. */
  function ParseLength(value: string): Option<nat> {
    if value != "" && AllDigits(Decimal, value) && Value(Decimal, value) <= SIZE_MAX then Some(Value(Decimal, value))
    else None
  }

  /** The length a field announces is the number it writes, with any leading zeros. */
  lemma LengthIsWritten(value: string, n: nat)
    ensures ParseLength(value) == Some(n) <==> Denotes(Decimal, value, n) && n <= SIZE_MAX
  {
    ReadsExactly(Decimal, value, n);
  }

  function ApplyField(g: Grammar, limits: Limits, p: ParsedField, st: HeaderState): Result<HeaderState, ParseError> {
    var next := st.(headers := st.headers + [p.field]);
    if EqualIgnoreCase(p.field.name, "Host") then
      if st.hostSeen then Err(ParseError(DuplicateHost, p.lineStart))
      else if p.field.value == "" then Err(ParseError(MissingHost, p.valueStart))
      else if !g.validHost(p.field.value) then Err(ParseError(InvalidHost, p.valueStart))
      else Ok(next.(hostSeen := true))
    else if EqualIgnoreCase(p.field.name, "Content-Length") then
      if st.bodySize.Some? then Err(ParseError(DuplicateContentLength, p.lineStart))
      else
        var length := ParseLength(p.field.value);
        if length.None? then Err(ParseError(InvalidContentLength, p.valueStart))
        else if length.value > limits.maxBodyBytes then Err(ParseError(BodyTooLarge, p.valueStart))
        else Ok(next.(bodySize := length))
    else if EqualIgnoreCase(p.field.name, "Transfer-Encoding") then
      if st.transferEncoding.Some? then Err(ParseError(InvalidTransferEncoding, p.lineStart))
      else Ok(next.(transferEncoding := Some(Coding(p.field.value, p.valueStart))))
    else Ok(next)
  }

  function FramingError(st: HeaderState): Option<ParseError> {
    if st.transferEncoding.None? then None
    else
      var coding := st.transferEncoding.value;
      if st.bodySize.Some? then Some(ParseError(ConflictingMessageLength, coding.offset))
      else if EqualIgnoreCase(coding.value, "chunked") then None
      else Some(ParseError(if coding.value != "" && AllToken(coding.value) then UnsupportedTransferEncoding
                           else InvalidTransferEncoding, coding.offset))
  }

  function FinishHeaders(st: HeaderState, start: nat, end: nat): Outcome<Section> {
    if !st.hostSeen then Rejected(ParseError(MissingHost, start))
    else if FramingError(st).Some? then Rejected(FramingError(st).value)
    else Parsed(Section(st.headers, end + 2, if st.bodySize.Some? then st.bodySize.value else 0,
                        st.transferEncoding.Some?))
  }

  /** What a nonempty header line does to the accumulated state. */
  function ReadLine(
      g: Grammar, limits: Limits, line: string, lineStart: nat, st: HeaderState): Result<HeaderState, ParseError> {
    if |st.headers| >= limits.maxHeaderCount then Err(ParseError(TooManyHeaders, lineStart))
    else
      var field := ParseField(line, lineStart);
      if field.Err? then Err(field.error) else ApplyField(g, limits, field.value, st)
  }

  /** What a line does to the state, as seen by the loop over the lines. */
  type Reader = (string, nat, HeaderState) -> Result<HeaderState, ParseError>

  function LineReader(g: Grammar, limits: Limits): Reader {
    (line: string, lineStart: nat, st: HeaderState) => ReadLine(g, limits, line, lineStart, st)
  }

  function ParseHeaders(
      read: Reader, limits: Limits, text: string, start: nat, lineStart: nat, st: HeaderState): Outcome<Section>
    requires start <= lineStart
    decreases |text| - lineStart
  {
    var scan := ScanHeaderLine(text, start, limits.maxHeaderBytes, lineStart);
    HeaderLineFacts(text, start, limits.maxHeaderBytes, lineStart);
    match scan
    case Broken(e) => Rejected(e)
    case Incomplete => NeedMore
    case LineEnd(end) =>
      if end == lineStart then FinishHeaders(st, start, end)
      else
        var next := read(text[lineStart..end], lineStart, st);
        if next.Err? then Rejected(next.error)
        else ParseHeaders(read, limits, text, start, end + 2, next.value)
  }

  const EMPTY_STATE := HeaderState([], None, false, None)

  /** Absolute-form authority replaces Host for everyone downstream. */
  function EffectiveFields(fields: seq<Field>, authority: string): seq<Field> {
    if authority == "" then fields
    else seq(|fields|, i requires 0 <= i < |fields| =>
             if EqualIgnoreCase(fields[i].name, "Host") then Field(fields[i].name, authority) else fields[i])
  }

  function ParseHead(g: Grammar, limits: Limits, text: string): Outcome<RequestHead> {
    ParseHeadWith(g, LineReader(g, limits), limits, text)
  }

  function ParseHeadWith(g: Grammar, read: Reader, limits: Limits, text: string): Outcome<RequestHead> {
    match ScanRequestLine(text, limits.maxRequestLineBytes, 0)
    case Broken(e) => Rejected(e)
    case Incomplete => NeedMore
    case LineEnd(end) =>
      RequestLineFacts(text, limits.maxRequestLineBytes, 0);
      var line := ParseRequestLine(g, text[..end]);
      if line.Err? then Rejected(line.error)
      else
        var (verb, target) := line.value;
        match ParseHeaders(read, limits, text, end + 2, end + 2, EMPTY_STATE)
        case Rejected(e) => Rejected(e)
        case NeedMore => NeedMore
        case Parsed(s) =>
          Parsed(RequestHead(verb, target.routing, EffectiveFields(s.headers, target.authority),
                             s.bodyStart, s.bodySize, s.chunked))
  }

  // ---------------------------------------------------------------- the loops of the program

  method ParseHeaderSection(read: Reader, limits: Limits, text: string, start: nat) returns (r: Outcome<Section>)
    ensures r == ParseHeaders(read, limits, text, start, start, EMPTY_STATE)
  {
    var lineStart, state := start, EMPTY_STATE;
    while true
      invariant start <= lineStart
      invariant ParseHeaders(read, limits, text, start, start, EMPTY_STATE)
                == ParseHeaders(read, limits, text, start, lineStart, state)
      decreases |text| - lineStart
    {
      var scan := FindHeaderLineEnd(text, lineStart, start, limits.maxHeaderBytes);
      HeaderLineFacts(text, start, limits.maxHeaderBytes, lineStart);
      match scan {
        case Broken(e) => return Rejected(e);
        case Incomplete => return NeedMore;
        case LineEnd(end) =>
          if end == lineStart {
            return FinishHeaders(state, start, end);
          }
          var next := read(text[lineStart..end], lineStart, state);
          if next.Err? {
            return Rejected(next.error);
          }
          state := next.value;
          lineStart := end + 2;
      }
    }
  }

  method ParseHttpRequestHead(g: Grammar, limits: Limits, text: string) returns (r: Outcome<RequestHead>)
    ensures r == ParseHead(g, limits, text)
  {
    if text == "" {
      return NeedMore;
    }
    var scan := FindRequestLineEnd(text, limits.maxRequestLineBytes);
    RequestLineFacts(text, limits.maxRequestLineBytes, 0);
    match scan {
      case Broken(e) => return Rejected(e);
      case Incomplete => return NeedMore;
      case LineEnd(end) =>
        var line := ParseRequestLine(g, text[..end]);
        if line.Err? {
          return Rejected(line.error);
        }
        var (verb, target) := line.value;
        var section := ParseHeaderSection(LineReader(g, limits), limits, text, end + 2);
        match section {
          case Rejected(e) => return Rejected(e);
          case NeedMore => return NeedMore;
          case Parsed(s) =>
            var fields := s.headers;
            if target.authority != "" {
              fields := ReplaceHost(s.headers, target.authority);
            }
            return Parsed(RequestHead(verb, target.routing, fields, s.bodyStart, s.bodySize, s.chunked));
        }
    }
  }

  method ReplaceHost(fields: seq<Field>, authority: string) returns (r: seq<Field>)
    requires authority != ""
    ensures r == EffectiveFields(fields, authority)
  {
    r := [];
    for i := 0 to |fields|
      invariant r == EffectiveFields(fields, authority)[..i]
    {
      if EqualIgnoreCase(fields[i].name, "Host") {
        r := r + [Field(fields[i].name, authority)];
      } else {
        r := r + [fields[i]];
      }
    }
  }

  // ---------------------------------------------------------------- what a found line looks like

  predicate NoBreaksIn(text: string, from: nat, to: nat) {
    to <= |text| && forall k :: from <= k < to ==> text[k] != '\r' && text[k] != '\n'
  }

  lemma {:induction false} RequestLineFacts(text: string, limit: nat, i: nat)
    ensures var scan := ScanRequestLine(text, limit, i);
            && (scan.LineEnd? ==>
                  && i <= scan.at && scan.at + 2 <= |text| && text[scan.at..scan.at + 2] == CRLF
                  && NoBreaksIn(text, i, scan.at) && scan.at <= limit)
            && (scan.Incomplete? && i <= limit && i <= |text| ==> |text| <= limit + 1)
    decreases |text| - i
  {
    if i < |text| && text[i] != '\n' && text[i] != '\r' && i < limit {
      RequestLineFacts(text, limit, i + 1);
    }
  }

  lemma {:induction false} HeaderLineFacts(text: string, start: nat, limit: nat, i: nat)
    requires start <= i
    ensures var scan := ScanHeaderLine(text, start, limit, i);
            && (scan.LineEnd? ==>
                  && i <= scan.at && scan.at + 2 <= |text| && text[scan.at..scan.at + 2] == CRLF
                  && NoBreaksIn(text, i, scan.at) && scan.at + 2 <= start + limit)
            && (scan.Incomplete? && i <= start + limit ==> |text| <= start + limit)
    decreases |text| - i
  {
    if i < |text| && i - start < limit && text[i] != '\n' && text[i] != '\r' {
      HeaderLineFacts(text, start, limit, i + 1);
    }
  }

  // ---------------------------------------------------------------- prefix stability

  lemma {:induction false} RequestLineStable(text: string, more: string, limit: nat, i: nat)
    requires !ScanRequestLine(text, limit, i).Incomplete?
    ensures ScanRequestLine(text + more, limit, i) == ScanRequestLine(text, limit, i)
    decreases |text| - i
  {
    if text[i] != '\n' && text[i] != '\r' && i < limit {
      RequestLineStable(text, more, limit, i + 1);
    }
  }

  lemma {:induction false} HeaderLineStable(text: string, more: string, start: nat, limit: nat, i: nat)
    requires start <= i && !ScanHeaderLine(text, start, limit, i).Incomplete?
    ensures ScanHeaderLine(text + more, start, limit, i) == ScanHeaderLine(text, start, limit, i)
    decreases |text| - i
  {
    if i - start < limit && text[i] != '\n' && text[i] != '\r' {
      HeaderLineStable(text, more, start, limit, i + 1);
    }
  }

  lemma {:induction false} HeadersStable(
      read: Reader, limits: Limits, text: string, more: string, start: nat, lineStart: nat, st: HeaderState)
    requires start <= lineStart && !ParseHeaders(read, limits, text, start, lineStart, st).NeedMore?
    ensures ParseHeaders(read, limits, text + more, start, lineStart, st)
            == ParseHeaders(read, limits, text, start, lineStart, st)
    decreases |text| - lineStart
  {
    HeaderLineStable(text, more, start, limits.maxHeaderBytes, lineStart);
    HeaderLineFacts(text, start, limits.maxHeaderBytes, lineStart);
    var scan := ScanHeaderLine(text, start, limits.maxHeaderBytes, lineStart);
    if scan.LineEnd? && scan.at != lineStart {
      assert (text + more)[lineStart..scan.at] == text[lineStart..scan.at];
      var next := read(text[lineStart..scan.at], lineStart, st);
      if next.Ok? {
        HeadersStable(read, limits, text, more, start, scan.at + 2, next.value);
      }
    }
  }

  /** Once a prefix yields a head or an error, every extension yields the same one. */
  lemma HeadIsPrefixStable(g: Grammar, limits: Limits, text: string, more: string)
    requires !ParseHead(g, limits, text).NeedMore?
    ensures ParseHead(g, limits, text + more) == ParseHead(g, limits, text)
  {
    RequestLineStable(text, more, limits.maxRequestLineBytes, 0);
    RequestLineFacts(text, limits.maxRequestLineBytes, 0);
    var scan := ScanRequestLine(text, limits.maxRequestLineBytes, 0);
    if scan.LineEnd? {
      assert (text + more)[..scan.at] == text[..scan.at];
      if ParseRequestLine(g, text[..scan.at]).Ok? {
        HeadersStable(LineReader(g, limits), limits, text, more, scan.at + 2, scan.at + 2, EMPTY_STATE);
      }
    }
  }

  // ---------------------------------------------------------------- where a head ends

  /** `at` starts a line, and no earlier line was empty. */
  predicate AtLine(text: string, at: nat) {
    && 2 <= at <= |text| && text[at - 2..at] == CRLF
    && forall k: nat :: k < at - 2 ==> !OccursAt(text, HEAD_END, k)
  }

  lemma OccurrenceShape(text: string, k: nat)
    ensures OccursAt(text, HEAD_END, k) <==>
            k + 4 <= |text| && text[k] == '\r' && text[k + 1] == '\n' && text[k + 2] == '\r' && text[k + 3] == '\n'
  {
    if k + 4 <= |text| {
      assert text[k..k + 4] == [text[k], text[k + 1], text[k + 2], text[k + 3]];
    }
  }

  lemma NextLine(text: string, at: nat, end: nat)
    requires AtLine(text, at) && at < end && end + 2 <= |text| && NoBreaksIn(text, at, end)
    requires text[end..end + 2] == CRLF
    ensures AtLine(text, end + 2)
  {
    assert text[at - 2..at][1] == '\n';
    forall k: nat | k < end ensures !OccursAt(text, HEAD_END, k) {
      OccurrenceShape(text, k);
    }
  }

  /** A blank line where a line starts completes the first marker. */
  lemma BlankLine(text: string, at: nat)
    requires AtLine(text, at) && at + 2 <= |text| && text[at..at + 2] == CRLF
    ensures FirstAt(text, HEAD_END, at - 2)
  {
    OccurrenceShape(text, at - 2);
    assert text[at - 2..at][0] == '\r' && text[at - 2..at][1] == '\n';
    assert text[at..at + 2][0] == '\r' && text[at..at + 2][1] == '\n';
  }

  lemma {:induction false} HeadersEnd(
      read: Reader, limits: Limits, text: string, start: nat, lineStart: nat, st: HeaderState)
    requires start <= lineStart && AtLine(text, lineStart)
    requires ParseHeaders(read, limits, text, start, lineStart, st).Parsed?
    ensures var end := ParseHeaders(read, limits, text, start, lineStart, st).value.bodyStart;
            4 <= end <= |text| && FirstAt(text, HEAD_END, end - 4) && end <= start + limits.maxHeaderBytes
    decreases |text| - lineStart
  {
    HeaderLineFacts(text, start, limits.maxHeaderBytes, lineStart);
    var end := ScanHeaderLine(text, start, limits.maxHeaderBytes, lineStart).at;
    if end == lineStart {
      BlankLine(text, lineStart);
    } else {
      NextLine(text, lineStart, end);
      HeadersEnd(read, limits, text, start, end + 2, read(text[lineStart..end], lineStart, st).value);
    }
  }

  lemma FirstLine(text: string, end: nat)
    requires end + 2 <= |text| && NoBreaksIn(text, 0, end) && text[end..end + 2] == CRLF
    ensures AtLine(text, end + 2)
  {
    forall k: nat | k < end ensures !OccursAt(text, HEAD_END, k) {
      OccurrenceShape(text, k);
    }
  }

  function HeadBytes(limits: Limits): nat {
    limits.maxRequestLineBytes + 2 + limits.maxHeaderBytes
  }

  /** The prefix admission buffers: the sum of the limits, or zero when a machine word cannot hold it. */
  function MaximumHeadBytes(limits: Limits): nat {
    if limits.maxRequestLineBytes > SIZE_MAX - 2 then 0
    else
      var line := limits.maxRequestLineBytes + 2;
      if limits.maxHeaderBytes > SIZE_MAX - line then 0 else line + limits.maxHeaderBytes
  }

  /** What a successful head is made of, for any reader: one line and one header section. */
  lemma HeadPartsWith(g: Grammar, read: Reader, limits: Limits, text: string) returns (end: nat, s: Section)
    requires ParseHeadWith(g, read, limits, text).Parsed?
    ensures end + 2 <= |text| && end <= limits.maxRequestLineBytes && NoBreaksIn(text, 0, end)
    ensures text[end..end + 2] == CRLF && ParseRequestLine(g, text[..end]).Ok?
    ensures ParseHeaders(read, limits, text, end + 2, end + 2, EMPTY_STATE) == Parsed(s)
    ensures var authority := ParseRequestLine(g, text[..end]).value.1.authority;
            var head := ParseHeadWith(g, read, limits, text).value;
            && head.consumedBytes == s.bodyStart && head.fields == EffectiveFields(s.headers, authority)
            && head.chunked == s.chunked && head.contentLength == s.bodySize
  {
    RequestLineFacts(text, limits.maxRequestLineBytes, 0);
    end := ScanRequestLine(text, limits.maxRequestLineBytes, 0).at;
    s := ParseHeaders(read, limits, text, end + 2, end + 2, EMPTY_STATE).value;
  }

  lemma HeadParts(g: Grammar, limits: Limits, text: string) returns (end: nat, s: Section)
    requires ParseHead(g, limits, text).Parsed?
    ensures end + 2 <= |text| && end <= limits.maxRequestLineBytes && NoBreaksIn(text, 0, end)
    ensures text[end..end + 2] == CRLF && ParseRequestLine(g, text[..end]).Ok?
    ensures ParseHeaders(LineReader(g, limits), limits, text, end + 2, end + 2, EMPTY_STATE) == Parsed(s)
    ensures var authority := ParseRequestLine(g, text[..end]).value.1.authority;
            var head := ParseHead(g, limits, text).value;
            && head.consumedBytes == s.bodyStart && head.fields == EffectiveFields(s.headers, authority)
            && head.chunked == s.chunked && head.contentLength == s.bodySize
  {
    end, s := HeadPartsWith(g, LineReader(g, limits), limits, text);
  }

  /** A successful head ends with the first CRLFCRLF of the input and fits the combined limit. */
  lemma HeadEndsAtFirstMarker(g: Grammar, limits: Limits, text: string)
    requires ParseHead(g, limits, text).Parsed?
    ensures var end := ParseHead(g, limits, text).value.consumedBytes;
            4 <= end <= |text| && FirstAt(text, HEAD_END, end - 4) && end <= HeadBytes(limits)
  {
    var end, s := HeadParts(g, limits, text);
    FirstLine(text, end);
    HeadersEnd(LineReader(g, limits), limits, text, end + 2, end + 2, EMPTY_STATE);
  }

  // ---------------------------------------------------------------- agreement with admission

  lemma {:induction false} HeaderScanStops(text: string, start: nat, limit: nat, i: nat, c: nat)
    requires start <= i <= c && c + 1 < |text| && text[c] == '\r' && text[c + 1] == '\n'
    ensures var scan := ScanHeaderLine(text, start, limit, i); !scan.Incomplete? && (scan.LineEnd? ==> scan.at <= c)
    decreases c - i
  {
    if i < c && i - start < limit && text[i] != '\n' && text[i] != '\r' {
      HeaderScanStops(text, start, limit, i + 1, c);
    }
  }

  lemma {:induction false} RequestScanStops(text: string, limit: nat, i: nat, c: nat)
    requires i <= c && c + 1 < |text| && text[c] == '\r' && text[c + 1] == '\n'
    ensures var scan := ScanRequestLine(text, limit, i); !scan.Incomplete? && (scan.LineEnd? ==> scan.at <= c)
    decreases c - i
  {
    if i < c && i < limit && text[i] != '\n' && text[i] != '\r' {
      RequestScanStops(text, limit, i + 1, c);
    }
  }

  lemma {:induction false} HeadersDecided(
      read: Reader, limits: Limits, text: string, start: nat, lineStart: nat, st: HeaderState, k: nat)
    requires start <= lineStart && OccursAt(text, HEAD_END, k) && (lineStart <= k || lineStart == k + 2)
    ensures !ParseHeaders(read, limits, text, start, lineStart, st).NeedMore?
    decreases |text| - lineStart
  {
    OccurrenceShape(text, k);
    HeaderScanStops(text, start, limits.maxHeaderBytes, lineStart, if lineStart <= k then k else k + 2);
    HeaderLineFacts(text, start, limits.maxHeaderBytes, lineStart);
    var scan := ScanHeaderLine(text, start, limits.maxHeaderBytes, lineStart);
    if scan.LineEnd? && scan.at != lineStart {
      assert text[scan.at..scan.at + 2][1] == '\n';
      var next := read(text[lineStart..scan.at], lineStart, st);
      if next.Ok? {
        HeadersDecided(read, limits, text, start, scan.at + 2, next.value, k);
      }
    }
  }

  /** An input that contains the admission marker is never reported incomplete. */
  lemma MarkerDecidesHead(g: Grammar, limits: Limits, text: string)
    requires Contains(text, HEAD_END)
    ensures !ParseHead(g, limits, text).NeedMore?
  {
    var k: nat :| k <= |text| && OccursAt(text, HEAD_END, k);
    OccurrenceShape(text, k);
    RequestScanStops(text, limits.maxRequestLineBytes, 0, k);
    RequestLineFacts(text, limits.maxRequestLineBytes, 0);
    var scan := ScanRequestLine(text, limits.maxRequestLineBytes, 0);
    if scan.LineEnd? {
      assert text[scan.at..scan.at + 2][1] == '\n';
      if ParseRequestLine(g, text[..scan.at]).Ok? {
        HeadersDecided(LineReader(g, limits), limits, text, scan.at + 2, scan.at + 2, EMPTY_STATE, k);
      }
    }
  }

  lemma {:induction false} HeadersNeedRoom(
      read: Reader, limits: Limits, text: string, start: nat, lineStart: nat, st: HeaderState)
    requires start <= lineStart <= start + limits.maxHeaderBytes
    requires ParseHeaders(read, limits, text, start, lineStart, st).NeedMore?
    ensures |text| <= start + limits.maxHeaderBytes
    decreases |text| - lineStart
  {
    HeaderLineFacts(text, start, limits.maxHeaderBytes, lineStart);
    var scan := ScanHeaderLine(text, start, limits.maxHeaderBytes, lineStart);
    if scan.LineEnd? {
      HeadersNeedRoom(read, limits, text, start, scan.at + 2,
                      read(text[lineStart..scan.at], lineStart, st).value);
    }
  }

  /**
   The admission gate and the parser agree: a prefix the parser still calls incomplete holds no
   marker and fits the buffer admission reserves for it.  Limits whose sum overflows give no buffer
   at all, and a dispatcher refuses to start with that.
   */
  lemma IncompleteHeadKeepsWaiting(
      g: Grammar, limits: Limits, text: string, capacity: nat, options: DispatcherProtocol.AdmissionOptions)
    requires ParseHead(g, limits, text).NeedMore?
    ensures !Contains(text, HEAD_END) && |text| <= HeadBytes(limits)
    ensures MaximumHeadBytes(limits) == if HeadBytes(limits) <= SIZE_MAX then HeadBytes(limits) else 0
    ensures var config := DispatcherProtocol.Config(capacity, Some(options));
      config.Valid() && options.maxPrefixBytes == MaximumHeadBytes(limits) ==> |text| <= options.maxPrefixBytes
  {
    if Contains(text, HEAD_END) {
      MarkerDecidesHead(g, limits, text);
    }
    RequestLineFacts(text, limits.maxRequestLineBytes, 0);
    var scan := ScanRequestLine(text, limits.maxRequestLineBytes, 0);
    if scan.LineEnd? {
      HeadersNeedRoom(LineReader(g, limits), limits, text, scan.at + 2, scan.at + 2, EMPTY_STATE);
    }
  }

  // ---------------------------------------------------------------- unambiguous framing

  function CountNamed(fields: seq<Field>, name: string): nat {
    if fields == [] then 0
    else CountNamed(fields[..|fields| - 1], name) + if EqualIgnoreCase(fields[|fields| - 1].name, name) then 1 else 0
  }

  predicate Tallied(limits: Limits, st: HeaderState) {
    && CountNamed(st.headers, "Host") == (if st.hostSeen then 1 else 0)
    && CountNamed(st.headers, "Content-Length") == (if st.bodySize.Some? then 1 else 0)
    && CountNamed(st.headers, "Transfer-Encoding") == (if st.transferEncoding.Some? then 1 else 0)
    && (st.bodySize.Some? ==> st.bodySize.value <= limits.maxBodyBytes)
    && |st.headers| <= limits.maxHeaderCount
  }

  lemma CountSnoc(fields: seq<Field>, f: Field, name: string)
    ensures CountNamed(fields + [f], name) == CountNamed(fields, name) + if EqualIgnoreCase(f.name, name) then 1 else 0
  {
    assert (fields + [f])[..|fields|] == fields;
  }

  /** The three names that matter are different. */
  lemma NamesDiffer(name: string)
    ensures EqualIgnoreCase(name, "Host") ==>
      !EqualIgnoreCase(name, "Content-Length") && !EqualIgnoreCase(name, "Transfer-Encoding")
    ensures EqualIgnoreCase(name, "Content-Length") ==> !EqualIgnoreCase(name, "Transfer-Encoding")
  {
    assert |"Host"| == 4 && |"Content-Length"| == 14 && |"Transfer-Encoding"| == 17;
  }

  lemma ApplyTallied(g: Grammar, limits: Limits, p: ParsedField, st: HeaderState)
    requires Tallied(limits, st) && |st.headers| < limits.maxHeaderCount && ApplyField(g, limits, p, st).Ok?
    ensures Tallied(limits, ApplyField(g, limits, p, st).value)
  {
    NamesDiffer(p.field.name);
    CountSnoc(st.headers, p.field, "Host");
    CountSnoc(st.headers, p.field, "Content-Length");
    CountSnoc(st.headers, p.field, "Transfer-Encoding");
  }

  lemma ReadLineTallied(g: Grammar, limits: Limits, line: string, lineStart: nat, st: HeaderState)
    requires Tallied(limits, st) && ReadLine(g, limits, line, lineStart, st).Ok?
    ensures Tallied(limits, ReadLine(g, limits, line, lineStart, st).value)
  {
    ApplyTallied(g, limits, ParseField(line, lineStart).value, st);
  }

  /** Exactly one Host, and one way at most to know the length of the body. */
  predicate Unambiguous(limits: Limits, fields: seq<Field>, chunked: bool, bodySize: nat) {
    && CountNamed(fields, "Host") == 1
    && CountNamed(fields, "Transfer-Encoding") == (if chunked then 1 else 0)
    && CountNamed(fields, "Content-Length") <= (if chunked then 0 else 1)
    && (CountNamed(fields, "Content-Length") == 0 ==> bodySize == 0)
    && bodySize <= limits.maxBodyBytes && |fields| <= limits.maxHeaderCount
  }

  /** A property that every line keeps holds of the state a successful section ends with. */
  lemma {:induction false} SectionState(
      read: Reader, limits: Limits, P: HeaderState -> bool, text: string, start: nat, lineStart: nat, st: HeaderState)
      returns (last: HeaderState, end: nat)
    requires forall line, at: nat, s :: line != "" && P(s) && read(line, at, s).Ok? ==> P(read(line, at, s).value)
    requires start <= lineStart && P(st) && ParseHeaders(read, limits, text, start, lineStart, st).Parsed?
    ensures P(last) && ParseHeaders(read, limits, text, start, lineStart, st) == FinishHeaders(last, start, end)
    decreases |text| - lineStart
  {
    HeaderLineFacts(text, start, limits.maxHeaderBytes, lineStart);
    end := ScanHeaderLine(text, start, limits.maxHeaderBytes, lineStart).at;
    last := st;
    if end != lineStart {
      last, end := SectionState(read, limits, P, text, start, end + 2, read(text[lineStart..end], lineStart, st).value);
    }
  }

  lemma FinishUnambiguous(limits: Limits, st: HeaderState, start: nat, end: nat)
    requires Tallied(limits, st) && FinishHeaders(st, start, end).Parsed?
    ensures var s := FinishHeaders(st, start, end).value; Unambiguous(limits, s.headers, s.chunked, s.bodySize)
  {
  }

  lemma {:induction false} HeadersUnambiguous(g: Grammar, limits: Limits, text: string, start: nat)
    requires ParseHeaders(LineReader(g, limits), limits, text, start, start, EMPTY_STATE).Parsed?
    ensures var s := ParseHeaders(LineReader(g, limits), limits, text, start, start, EMPTY_STATE).value;
            Unambiguous(limits, s.headers, s.chunked, s.bodySize)
  {
    var read := LineReader(g, limits);
    var P := (s: HeaderState) => Tallied(limits, s);
    forall line, at: nat, s | line != "" && P(s) && read(line, at, s).Ok? ensures P(read(line, at, s).value) {
      ReadLineTallied(g, limits, line, at, s);
    }
    var last, end := SectionState(read, limits, P, text, start, start, EMPTY_STATE);
    FinishUnambiguous(limits, last, start, end);
  }

  lemma {:induction false} NamesKept(fields: seq<Field>, authority: string, name: string)
    ensures CountNamed(EffectiveFields(fields, authority), name) == CountNamed(fields, name)
  {
    if fields != [] {
      var init := fields[..|fields| - 1];
      assert EffectiveFields(fields, authority)[..|fields| - 1] == EffectiveFields(init, authority);
      NamesKept(init, authority, name);
    }
  }

  lemma EffectiveUnambiguous(limits: Limits, fields: seq<Field>, authority: string, chunked: bool, bodySize: nat)
    requires Unambiguous(limits, fields, chunked, bodySize)
    ensures Unambiguous(limits, EffectiveFields(fields, authority), chunked, bodySize)
  {
    NamesKept(fields, authority, "Host");
    NamesKept(fields, authority, "Content-Length");
    NamesKept(fields, authority, "Transfer-Encoding");
  }

  /**
   No accepted head is ambiguous about its body: exactly one Host, and either one Transfer-Encoding
   and no Content-Length, or at most one Content-Length within the limit.
   */
  lemma HeadIsUnambiguous(g: Grammar, limits: Limits, text: string)
    requires ParseHead(g, limits, text).Parsed?
    ensures var head := ParseHead(g, limits, text).value;
            Unambiguous(limits, head.fields, head.chunked, head.contentLength)
  {
    var end, s := HeadParts(g, limits, text);
    HeadersUnambiguous(g, limits, text, end + 2);
    EffectiveUnambiguous(limits, s.headers, ParseRequestLine(g, text[..end]).value.1.authority, s.chunked, s.bodySize);
  }
}
