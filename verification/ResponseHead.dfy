/**
 Response heads: validation predicts the size, the writer reserves it and the serializer produces it.
 The three computations are separate in the program; here they are shown to agree.
 */
module ResponseHead {
  import opened Basics
  import opened HttpSyntax
  import opened Numerals
  import opened TextSearch

  const MAXIMUM_HEAD_BYTES := 32768
  const MAXIMUM_HEADERS := 100
  const DATE_FIELD_BYTES := 37
  const DATE_BYTES := 29

  datatype Header = Header(name: string, value: string)

  datatype ResponseError =
    | InvalidStatusCode | InvalidReasonPhrase | BodyNotAllowed | TooManyHeaders | ResponseHeadTooLarge
    | InvalidHeaderName | InvalidHeaderValue | ManagedFramingHeader | ManagedConnectionHeader | ManagedDateHeader

  datatype ResponseFailure = ResponseFailure(code: ResponseError, index: nat)

  /** `date` is the formatted date of a final response and is not used otherwise. */
  datatype Response = Response(status: nat, reason: string, headers: seq<Header>, contentLength: nat, date: string)

  predicate DateOk(date: string) {
    |date| == DATE_BYTES && NoBreaks(date)
  }

  // ---- Numbers ----

  method DecimalDigitCount(n: nat) returns (count: nat)
    ensures count == |Printed(Decimal, n)|
  {
    count := 1;
    var value := n;
    while value >= 10
      invariant count + |Printed(Decimal, value)| == |Printed(Decimal, n)| + 1
    {
      value := value / 10;
      count := count + 1;
    }
  }

  lemma {:induction false} DecimalIsDigits(n: nat)
    ensures Printed(Decimal, n) != "" && forall i :: 0 <= i < |Printed(Decimal, n)| ==> IsDigit(Printed(Decimal, n)[i])
  {
    if n >= 10 {
      DecimalIsDigits(n / 10);
    }
  }

  // ---- Status policy ----

  predicate HasNoBody(status: nat) {
    100 <= status < 200 || status == 204 || status == 205 || status == 304
  }

  predicate OmitsContentLength(status: nat) {
    100 <= status < 200 || status == 204 || status == 304
  }

  /** Informational responses and three final ones carry no body; one of them still announces its length. */
  lemma StatusesExactly(status: nat)
    ensures HasNoBody(status) <==> status / 100 == 1 || status in {204, 205, 304}
    ensures OmitsContentLength(status) <==> HasNoBody(status) && status != 205
  {
  }

  // ---- Serialized form ----

  /** The lines of a head, without their line endings. */
  function Lines(r: Response): seq<string> {
    [StatusLine(r)] + FieldLines(r.headers) + FramingLines(r) + FinalLines(r)
  }

  function StatusLine(r: Response): string {
    "HTTP/1.1 " + Printed(Decimal, r.status) + " " + r.reason
  }

  function FieldLine(h: Header): string {
    h.name + ": " + h.value
  }

  function FieldLines(headers: seq<Header>): (lines: seq<string>)
    ensures |lines| == |headers|
  {
    if headers == [] then [] else FieldLines(headers[..|headers| - 1]) + [FieldLine(headers[|headers| - 1])]
  }

  function FramingLines(r: Response): seq<string> {
    if OmitsContentLength(r.status) then [] else ["Content-Length: " + Printed(Decimal, r.contentLength)]
  }

  function FinalLines(r: Response): seq<string> {
    if r.status >= 200 then ["Connection: close", "Date: " + r.date] else []
  }

  /** Each line with its ending. */
  function Text(lines: seq<string>): string {
    if lines == [] then "" else Text(lines[..|lines| - 1]) + lines[|lines| - 1] + CRLF
  }

  function Serialized(r: Response): string {
    Text(Lines(r)) + CRLF
  }

  lemma TextSnoc(lines: seq<string>, line: string)
    ensures Text(lines + [line]) == Text(lines) + line + CRLF
  {
    assert (lines + [line])[..|lines|] == lines;
  }

  lemma {:induction false} TextAppend(one: seq<string>, two: seq<string>)
    ensures Text(one + two) == Text(one) + Text(two)
    decreases |two|
  {
    if two == [] {
      assert one + two == one;
      assert Text(one) + "" == Text(one);
    } else {
      var front, last := two[..|two| - 1], two[|two| - 1];
      assert one + two == (one + front) + [last];
      TextAppend(one, front);
      TextSnoc(one + front, last);
      assert (Text(one) + Text(front)) + last + CRLF == Text(one) + (Text(front) + last + CRLF);
    }
  }

  /** The program's serializer appends piece by piece. */
  method SerializeHead(r: Response) returns (head: string)
    ensures head == Serialized(r)
  {
    head := "HTTP/1.1 ";
    head := head + Printed(Decimal, r.status);
    head := head + " ";
    head := head + r.reason;
    head := head + CRLF;
    OneLine(StatusLine(r));
    assert [StatusLine(r)] + [] == [StatusLine(r)];
    for i := 0 to |r.headers|
      invariant head == Text([StatusLine(r)] + FieldLines(r.headers[..i]))
    {
      var h := r.headers[i];
      AppendField(r, i, head);
      head := head + h.name;
      head := head + ": ";
      head := head + h.value;
      head := head + CRLF;
    }
    assert r.headers[..|r.headers|] == r.headers;
    var soFar := [StatusLine(r)] + FieldLines(r.headers);
    if !OmitsContentLength(r.status) {
      TextSnoc(soFar, "Content-Length: " + Printed(Decimal, r.contentLength));
      head := head + "Content-Length: ";
      head := head + Printed(Decimal, r.contentLength);
      head := head + CRLF;
    } else {
      assert soFar + [] == soFar;
    }
    soFar := soFar + FramingLines(r);
    assert head == Text(soFar);
    FinalText(soFar, r);
    if r.status >= 200 {
      head := head + "Connection: close\r\nDate: ";
      head := head + r.date;
      head := head + CRLF;
    }
    head := head + CRLF;
  }

  lemma FinalText(soFar: seq<string>, r: Response)
    ensures r.status >= 200 ==>
      Text(soFar + FinalLines(r)) == Text(soFar) + "Connection: close\r\nDate: " + r.date + CRLF
    ensures r.status < 200 ==> Text(soFar + FinalLines(r)) == Text(soFar)
  {
    if r.status >= 200 {
      TextSnoc(soFar, "Connection: close");
      TextSnoc(soFar + ["Connection: close"], "Date: " + r.date);
      assert soFar + ["Connection: close"] + ["Date: " + r.date] == soFar + FinalLines(r);
      assert "Connection: close" + CRLF + "Date: " == "Connection: close\r\nDate: ";
      assert Text(soFar) + "Connection: close" + CRLF + ("Date: " + r.date) + CRLF
          == Text(soFar) + ("Connection: close" + CRLF + "Date: ") + r.date + CRLF;
    } else {
      assert soFar + [] == soFar;
    }
  }

  lemma AppendField(r: Response, i: nat, head: string)
    requires i < |r.headers| && head == Text([StatusLine(r)] + FieldLines(r.headers[..i]))
    ensures head + r.headers[i].name + ": " + r.headers[i].value + CRLF
         == Text([StatusLine(r)] + FieldLines(r.headers[..i + 1]))
  {
    var before := [StatusLine(r)] + FieldLines(r.headers[..i]);
    TextSnoc(before, FieldLine(r.headers[i]));
    assert r.headers[..i + 1][..i] == r.headers[..i];
    assert before + [FieldLine(r.headers[i])] == [StatusLine(r)] + FieldLines(r.headers[..i + 1]);
  }

  // ---- Sizes ----

  function FieldBytes(headers: seq<Header>): nat {
    if headers == [] then 0
    else FieldBytes(headers[..|headers| - 1]) + |headers[|headers| - 1].name| + |headers[|headers| - 1].value| + 4
  }

  /** Size of everything but the application's fields, as the writer adds it up. */
  function FixedBytes(r: Response): nat {
    15 + |r.reason| + 2
    + (if OmitsContentLength(r.status) then 0 else 18 + |Printed(Decimal, r.contentLength)|)
    + (if r.status >= 200 then |"Connection: close\r\n"| + DATE_FIELD_BYTES else 0)
  }

  /** `serialized_head_size` */
  method SerializedHeadSize(r: Response) returns (size: nat)
    ensures size == FixedBytes(r) + FieldBytes(r.headers)
  {
    size := 15 + |r.reason| + 2;
    for i := 0 to |r.headers|
      invariant size == 15 + |r.reason| + 2 + FieldBytes(r.headers[..i])
    {
      assert r.headers[..i + 1][..i] == r.headers[..i];
      size := size + |r.headers[i].name| + |r.headers[i].value| + 4;
    }
    assert r.headers[..|r.headers|] == r.headers;
    if !OmitsContentLength(r.status) {
      var digits := DecimalDigitCount(r.contentLength);
      size := size + 18 + digits;
    }
    if r.status >= 200 {
      size := size + |"Connection: close\r\n"| + DATE_FIELD_BYTES;
    }
  }

  lemma {:induction false} FieldTextLength(headers: seq<Header>)
    ensures |Text(FieldLines(headers))| == FieldBytes(headers)
    decreases |headers|
  {
    if headers != [] {
      FieldTextLength(headers[..|headers| - 1]);
      TextSnoc(FieldLines(headers[..|headers| - 1]), FieldLine(headers[|headers| - 1]));
    }
  }

  lemma StatusDigits(status: nat)
    requires 100 <= status <= 599
    ensures |Printed(Decimal, status)| == 3
  {
    assert |Printed(Decimal, status / 10 / 10)| == 1;
    assert |Printed(Decimal, status / 10)| == 2;
  }

  lemma OneLine(line: string)
    ensures Text([line]) == line + CRLF
  {
    TextSnoc([], line);
    assert [] + [line] == [line];
    assert "" + line + CRLF == line + CRLF;
  }

  lemma TwoLines(one: string, two: string)
    ensures Text([one, two]) == one + CRLF + two + CRLF
  {
    OneLine(one);
    TextSnoc([one], two);
    assert [one] + [two] == [one, two];
  }

  /** The reserved size is the produced size, byte for byte. */
  lemma SizeIsExact(r: Response)
    requires 100 <= r.status <= 599 && (r.status >= 200 ==> |r.date| == DATE_BYTES)
    ensures |Serialized(r)| == FixedBytes(r) + FieldBytes(r.headers)
  {
    TextAppend([StatusLine(r)] + FieldLines(r.headers) + FramingLines(r), FinalLines(r));
    TextAppend([StatusLine(r)] + FieldLines(r.headers), FramingLines(r));
    TextAppend([StatusLine(r)], FieldLines(r.headers));
    StatusDigits(r.status);
    OneLine(StatusLine(r));
    FieldTextLength(r.headers);
    if !OmitsContentLength(r.status) {
      OneLine("Content-Length: " + Printed(Decimal, r.contentLength));
    }
    if r.status >= 200 {
      TwoLines("Connection: close", "Date: " + r.date);
    }
  }

  // ---- Validation ----

  function HeaderError(h: Header): Option<ResponseError> {
    if h.name == "" || !AllToken(h.name) then Some(InvalidHeaderName)
    else if !AllFieldValue(h.value) then Some(InvalidHeaderValue)
    else if EqualIgnoreCase(h.name, "Content-Length") || EqualIgnoreCase(h.name, "Transfer-Encoding") then
      Some(ManagedFramingHeader)
    else if EqualIgnoreCase(h.name, "Connection") || EqualIgnoreCase(h.name, "Keep-Alive") then
      Some(ManagedConnectionHeader)
    else if EqualIgnoreCase(h.name, "Date") then Some(ManagedDateHeader)
    else None
  }

  /** Exactly what is wrong with a field; framing, connection and date belong to the server. */
  lemma HeaderErrorsExactly(h: Header)
    ensures var error, token := HeaderError(h), h.name != "" && AllToken(h.name);
      var sound := token && AllFieldValue(h.value);
      var framing := EqualIgnoreCase(h.name, "Content-Length") || EqualIgnoreCase(h.name, "Transfer-Encoding");
      var connection := EqualIgnoreCase(h.name, "Connection") || EqualIgnoreCase(h.name, "Keep-Alive");
      var date := EqualIgnoreCase(h.name, "Date");
      && (error == None <==> sound && !framing && !connection && !date)
      && (error == Some(InvalidHeaderName) <==> !token)
      && (error == Some(InvalidHeaderValue) <==> token && !AllFieldValue(h.value))
      && (error == Some(ManagedFramingHeader) <==> sound && framing)
      && (error == Some(ManagedConnectionHeader) <==> sound && connection)
      && (error == Some(ManagedDateHeader) <==> sound && date)
  {
    assert |"Content-Length"| == 14 && |"Transfer-Encoding"| == 17 && |"Date"| == 4;
    assert |"Connection"| == |"Keep-Alive"| == 10;
  }

  /** `validate_header`: the field's size, when it is acceptable and fits in what remains. */
  method ValidateHeader(h: Header, index: nat, remaining: nat) returns (r: Result<nat, ResponseFailure>)
    ensures r.Ok? <==> HeaderError(h).None? && |h.name| + |h.value| + 4 <= remaining
    ensures r.Ok? ==> r.value == |h.name| + |h.value| + 4
    ensures r.Err? ==>
      r.error == ResponseFailure(if HeaderError(h).Some? then HeaderError(h).value else ResponseHeadTooLarge, index)
  {
    var problem := HeaderError(h);
    if problem.Some? {
      return Err(ResponseFailure(problem.value, index));
    }
    if |h.name| > remaining || |h.value| > remaining - |h.name| || remaining - |h.name| - |h.value| < 4 {
      return Err(ResponseFailure(ResponseHeadTooLarge, index));
    }
    return Ok(|h.name| + |h.value| + 4);
  }

  ghost predicate HeadersOk(headers: seq<Header>) {
    forall i :: 0 <= i < |headers| ==> HeaderError(headers[i]).None?
  }

  /** Independent of how it is computed: which responses are acceptable. */
  ghost predicate Acceptable(r: Response) {
    && 100 <= r.status <= 599 && AllFieldValue(r.reason)
    && (HasNoBody(r.status) ==> r.contentLength == 0)
    && |r.headers| <= MAXIMUM_HEADERS && HeadersOk(r.headers)
    && FixedBytes(r) + FieldBytes(r.headers) <= MAXIMUM_HEAD_BYTES
  }

  /** The field with which an otherwise sound head outgrows the limit. */
  ghost predicate OverflowsAt(r: Response, index: nat)
    requires index < |r.headers|
  {
    && HeadersOk(r.headers[..index + 1])
    && FixedBytes(r) + FieldBytes(r.headers[..index]) <= MAXIMUM_HEAD_BYTES
    && FixedBytes(r) + FieldBytes(r.headers[..index + 1]) > MAXIMUM_HEAD_BYTES
  }

  /** What each failure means, and that it is the first thing wrong. */
  ghost predicate Explains(r: Response, f: ResponseFailure) {
    var statusOk := 100 <= r.status <= 599;
    var bodyOk := HasNoBody(r.status) ==> r.contentLength == 0;
    match f.code
    case InvalidStatusCode => !statusOk
    case InvalidReasonPhrase => statusOk && !AllFieldValue(r.reason)
    case BodyNotAllowed => statusOk && AllFieldValue(r.reason) && !bodyOk
    case TooManyHeaders => statusOk && AllFieldValue(r.reason) && bodyOk && |r.headers| > MAXIMUM_HEADERS
    case ResponseHeadTooLarge =>
      && statusOk && AllFieldValue(r.reason) && bodyOk
      && (FixedBytes(r) > MAXIMUM_HEAD_BYTES ==> f.index == 0)
      && (FixedBytes(r) <= MAXIMUM_HEAD_BYTES ==> f.index < |r.headers| && OverflowsAt(r, f.index))
    case _ =>
      && statusOk && AllFieldValue(r.reason) && bodyOk && f.index < |r.headers|
      && HeadersOk(r.headers[..f.index]) && HeaderError(r.headers[f.index]) == Some(f.code)
  }

  /**
   `validate_response`: accepts exactly the acceptable responses, and the size it adds up is the size
   the writer reserves.
   */
  method ValidateResponse(r: Response) returns (v: Result<nat, ResponseFailure>)
    ensures v.Ok? <==> Acceptable(r)
    ensures v.Ok? ==> v.value == FixedBytes(r) + FieldBytes(r.headers)
    ensures v.Err? ==> Explains(r, v.error)
  {
    if r.status < 100 || r.status > 599 {
      return Err(ResponseFailure(InvalidStatusCode, 0));
    }
    if !AllFieldValue(r.reason) {
      return Err(ResponseFailure(InvalidReasonPhrase, 0));
    }
    if HasNoBody(r.status) && r.contentLength != 0 {
      return Err(ResponseFailure(BodyNotAllowed, 0));
    }
    if |r.headers| > MAXIMUM_HEADERS {
      return Err(ResponseFailure(ResponseError.TooManyHeaders, 0));
    }
    var digits := DecimalDigitCount(r.contentLength);
    var framing := if HasNoBody(r.status) then 2 else 18 + digits + 2;
    var connection := if r.status >= 200 then |"Connection: close\r\n"| + DATE_FIELD_BYTES else 0;
    var reset := if r.status == 205 then 18 + 1 else 0;
    var headSize := 15 + |r.reason| + framing + connection + reset;
    assert headSize == FixedBytes(r);
    if headSize > MAXIMUM_HEAD_BYTES {
      return Err(ResponseFailure(ResponseHeadTooLarge, 0));
    }
    v := ValidateHeaders(r.headers, headSize);
    if v.Err? {
      FieldFailures(r.headers[v.error.index]);
    }
  }

  /** The loop over the fields: adds their sizes up, or stops at the first one that is wrong or does not fit. */
  method ValidateHeaders(headers: seq<Header>, start: nat) returns (v: Result<nat, ResponseFailure>)
    requires start <= MAXIMUM_HEAD_BYTES
    ensures v.Ok? <==> HeadersOk(headers) && start + FieldBytes(headers) <= MAXIMUM_HEAD_BYTES
    ensures v.Ok? ==> v.value == start + FieldBytes(headers)
    ensures v.Err? ==> v.error.index < |headers| && HeadersOk(headers[..v.error.index])
    ensures v.Err? && HeaderError(headers[v.error.index]).Some? ==>
      HeaderError(headers[v.error.index]) == Some(v.error.code)
    ensures v.Err? && HeaderError(headers[v.error.index]).None? ==>
      && v.error.code == ResponseHeadTooLarge && HeadersOk(headers[..v.error.index + 1])
      && start + FieldBytes(headers[..v.error.index]) <= MAXIMUM_HEAD_BYTES
      && start + FieldBytes(headers[..v.error.index + 1]) > MAXIMUM_HEAD_BYTES
  {
    var headSize := start;
    for i := 0 to |headers|
      invariant headSize == start + FieldBytes(headers[..i]) <= MAXIMUM_HEAD_BYTES
      invariant HeadersOk(headers[..i])
    {
      var size := ValidateHeader(headers[i], i, MAXIMUM_HEAD_BYTES - headSize);
      OneMoreField(headers, i);
      if size.Err? {
        FieldBytesGrow(headers, i + 1);
        return Err(size.error);
      }
      headSize := headSize + size.value;
    }
    assert headers[..|headers|] == headers;
    return Ok(headSize);
  }

  lemma OneMoreField(headers: seq<Header>, i: nat)
    requires i < |headers|
    ensures FieldBytes(headers[..i + 1]) == FieldBytes(headers[..i]) + |headers[i].name| + |headers[i].value| + 4
    ensures HeadersOk(headers[..i + 1]) <==> HeadersOk(headers[..i]) && HeaderError(headers[i]).None?
  {
    assert headers[..i + 1][..i] == headers[..i];
    assert headers[..i + 1] == headers[..i] + [headers[i]];
  }

  /** Checks of single fields never report one of the failures of the head as a whole. */
  lemma FieldFailures(h: Header)
    ensures HeaderError(h).Some? ==>
      HeaderError(h).value in {
        InvalidHeaderName, InvalidHeaderValue, ManagedFramingHeader, ManagedConnectionHeader, ManagedDateHeader}
  {
  }

  lemma {:induction false} FieldBytesGrow(headers: seq<Header>, n: nat)
    requires n <= |headers|
    ensures FieldBytes(headers[..n]) <= FieldBytes(headers)
    decreases |headers|
  {
    if n < |headers| {
      FieldBytesGrow(headers[..|headers| - 1], n);
      assert headers[..|headers| - 1][..n] == headers[..n];
    } else {
      assert headers[..n] == headers;
    }
  }

  /** Validated, reserved and produced sizes are one number within the limit. */
  lemma SizesAgree(r: Response)
    requires Acceptable(r) && (r.status >= 200 ==> DateOk(r.date))
    ensures |Serialized(r)| == FixedBytes(r) + FieldBytes(r.headers) <= MAXIMUM_HEAD_BYTES
  {
    SizeIsExact(r);
  }

  // ---- Where the head ends ----

  /** A line that can neither end early nor look like the end of the head. */
  ghost predicate GoodLine(line: string) {
    line != "" && NoBreaks(line)
  }

  ghost predicate GoodLines(lines: seq<string>) {
    forall i :: 0 <= i < |lines| ==> GoodLine(lines[i])
  }

  lemma {:induction false} FieldLinesAreGood(headers: seq<Header>)
    requires HeadersOk(headers)
    ensures GoodLines(FieldLines(headers))
    decreases |headers|
  {
    if headers != [] {
      FieldLinesAreGood(headers[..|headers| - 1]);
      FieldLineIsGood(headers[|headers| - 1]);
    }
  }

  lemma FieldLineIsGood(h: Header)
    requires HeaderError(h).None?
    ensures GoodLine(FieldLine(h))
  {
    assert NoBreaks(h.name) && NoBreaks(h.value);
  }

  lemma DigitsAreGood(n: nat)
    ensures GoodLine(Printed(Decimal, n))
  {
    DecimalIsDigits(n);
  }

  lemma LinesAreGood(r: Response)
    requires Acceptable(r) && (r.status >= 200 ==> DateOk(r.date))
    ensures GoodLines(Lines(r))
  {
    FieldLinesAreGood(r.headers);
    DigitsAreGood(r.status);
    DigitsAreGood(r.contentLength);
    assert NoBreaks(r.reason);
    assert GoodLine(StatusLine(r));
    assert GoodLines(FramingLines(r));
    assert GoodLines(FinalLines(r));
  }

  /** No marker starts inside a good line or at its ending when another good line follows. */
  lemma NoMarkerInLine(line: string, next: string, i: nat)
    requires GoodLine(line) && |next| >= 1 && next[0] != '\r' && i < |line| + 2
    ensures !OccursAt(line + CRLF + next, HEAD_END, i)
  {
    var text := line + CRLF + next;
    if i + 2 < |text| {
      assert text[i] != '\r' || text[i + 2] != '\r';
      MarkedAt(text, i);
    }
  }

  /** A marker shows a carriage return at its first and third byte. */
  lemma MarkedAt(text: string, i: nat)
    requires i + 2 < |text|
    ensures OccursAt(text, HEAD_END, i) ==> text[i] == '\r' && text[i + 2] == '\r'
  {
    if OccursAt(text, HEAD_END, i) {
      assert text[i..i + 4][0] == text[i] && text[i..i + 4][2] == text[i + 2];
    }
  }

  lemma NoMarkerInLastLine(line: string, rest: string, i: nat)
    requires GoodLine(line) && i < |line|
    ensures !OccursAt(line + CRLF + rest, HEAD_END, i)
  {
    var text := line + CRLF + rest;
    assert text[i] == line[i];
    MarkedAt(text, i);
  }

  /** Text of the lines in reading order. */
  lemma TextCons(lines: seq<string>)
    requires lines != []
    ensures Text(lines) == lines[0] + CRLF + Text(lines[1..])
  {
    TextAppend([lines[0]], lines[1..]);
    OneLine(lines[0]);
    assert [lines[0]] + lines[1..] == lines;
  }

  lemma MarkerAfterLastLine(line: string, body: string)
    requires GoodLine(line)
    ensures FirstAt(line + CRLF + (CRLF + body), HEAD_END, |line|)
  {
    var text := line + CRLF + (CRLF + body);
    assert text[|line|..|line| + 4] == HEAD_END;
    forall i: nat | i < |line| ensures !OccursAt(text, HEAD_END, i) {
      NoMarkerInLastLine(line, CRLF + body, i);
    }
  }

  lemma MarkerAfterLine(line: string, next: string, at: nat)
    requires GoodLine(line) && |next| >= 1 && next[0] != '\r' && FirstAt(next, HEAD_END, at)
    ensures FirstAt(line + CRLF + next, HEAD_END, |line| + 2 + at)
  {
    Shifted(line + CRLF, next, at);
    forall i: nat | i < |line| + 2 + at ensures !OccursAt(line + CRLF + next, HEAD_END, i) {
      if i < |line| + 2 {
        NoMarkerInLine(line, next, i);
      } else {
        Shifted(line + CRLF, next, i - |line| - 2);
      }
    }
  }

  /** The first blank line after good lines is the one that closes them. */
  lemma {:induction false} FirstMarker(lines: seq<string>, body: string)
    requires lines != [] && GoodLines(lines)
    ensures |Text(lines)| >= 2
    ensures FirstAt(Text(lines) + CRLF + body, HEAD_END, |Text(lines)| - 2)
    decreases |lines|
  {
    TextCons(lines);
    var line, rest := lines[0], lines[1..];
    if rest == [] {
      MarkerAfterLastLine(line, body);
      assert Text(lines) + CRLF + body == line + CRLF + (CRLF + body);
    } else {
      FirstMarker(rest, body);
      TextCons(rest);
      var next := Text(rest) + CRLF + body;
      assert next[0] == rest[0][0];
      MarkerAfterLine(line, next, |Text(rest)| - 2);
      assert Text(lines) + CRLF + body == line + CRLF + next;
    }
  }

  lemma Shifted(front: string, text: string, i: nat)
    ensures OccursAt(front + text, HEAD_END, |front| + i) <==> OccursAt(text, HEAD_END, i)
  {
    if i + 4 <= |text| {
      assert (front + text)[|front| + i..|front| + i + 4] == text[i..i + 4];
    }
  }

  /** A reader that stops at the first blank line stops exactly at the end of the head, whatever the body. */
  lemma HeadEndsAtFirstMarker(r: Response, body: string)
    requires Acceptable(r) && (r.status >= 200 ==> DateOk(r.date))
    ensures |Serialized(r)| >= 4 && FirstAt(Serialized(r) + body, HEAD_END, |Serialized(r)| - 4)
  {
    LinesAreGood(r);
    FirstMarker(Lines(r), body);
    assert Serialized(r) + body == Text(Lines(r)) + CRLF + body;
  }

  // ---- Reading a response back ----

  /** What stands before the first carriage return is determined, and so is the rest. */
  lemma LineIsDetermined(a: string, x: string, b: string, y: string)
    requires NoBreaks(a) && NoBreaks(b) && a + CRLF + x == b + CRLF + y
    ensures a == b && x == y
  {
    var text := a + CRLF + x;
    assert text[|a|] == '\r' && text[|b|] == (b + CRLF + y)[|b|] == '\r';
    assert forall i :: 0 <= i < |a| ==> text[i] == a[i];
    assert forall i :: 0 <= i < |b| ==> text[i] == (b + CRLF + y)[i] == b[i];
    assert |a| == |b|;
    assert a == text[..|a|] && b == text[..|b|];
    assert x == text[|a| + 2..] && y == (b + CRLF + y)[|b| + 2..];
  }

  lemma {:induction false} LinesAreDetermined(one: seq<string>, two: seq<string>)
    requires GoodLines(one) && GoodLines(two) && Text(one) == Text(two)
    ensures one == two
    decreases |one|
  {
    if one != [] {
      TextCons(one);
    }
    if two != [] {
      TextCons(two);
    }
    if one != [] && two != [] {
      LineIsDetermined(one[0], Text(one[1..]), two[0], Text(two[1..]));
      LinesAreDetermined(one[1..], two[1..]);
      assert one == [one[0]] + one[1..] && two == [two[0]] + two[1..];
    }
  }

  lemma FieldIsDetermined(a: Header, b: Header)
    requires AllToken(a.name) && AllToken(b.name) && FieldLine(a) == FieldLine(b)
    ensures a == b
  {
    var line := FieldLine(a);
    assert line[|a.name|] == ':' && line[|b.name|] == FieldLine(b)[|b.name|] == ':';
    assert forall i :: 0 <= i < |a.name| ==> line[i] == a.name[i] && IsTokenChar(a.name[i]);
    assert forall i :: 0 <= i < |b.name| ==> line[i] == FieldLine(b)[i] == b.name[i] && IsTokenChar(b.name[i]);
    assert |a.name| == |b.name|;
    assert a.name == line[..|a.name|] && b.name == FieldLine(b)[..|b.name|];
    assert a.value == line[|a.name| + 2..] && b.value == FieldLine(b)[|b.name| + 2..];
  }

  lemma {:induction false} FieldsAreDetermined(a: seq<Header>, b: seq<Header>)
    requires HeadersOk(a) && HeadersOk(b) && FieldLines(a) == FieldLines(b)
    ensures a == b
    decreases |a|
  {
    if a != [] {
      var m, n := a[..|a| - 1], b[..|b| - 1];
      assert HeaderError(a[|a| - 1]).None? && HeaderError(b[|b| - 1]).None?;
      assert FieldLines(a)[..|a| - 1] == FieldLines(m) && FieldLines(b)[..|b| - 1] == FieldLines(n);
      assert FieldLines(a)[|a| - 1] == FieldLine(a[|a| - 1]) && FieldLines(b)[|b| - 1] == FieldLine(b[|b| - 1]);
      FieldIsDetermined(a[|a| - 1], b[|b| - 1]);
      FieldsAreDetermined(m, n);
      assert a == m + [a[|a| - 1]] && b == n + [b[|b| - 1]];
    }
  }

  lemma StatusIsDetermined(a: Response, b: Response)
    requires 100 <= a.status <= 599 && 100 <= b.status <= 599 && StatusLine(a) == StatusLine(b)
    ensures a.status == b.status && a.reason == b.reason
  {
    StatusDigits(a.status);
    StatusDigits(b.status);
    assert Printed(Decimal, a.status) == StatusLine(a)[9..12] == StatusLine(b)[9..12] == Printed(Decimal, b.status);
    PrintedOnce(Decimal, a.status, b.status);
    assert a.reason == StatusLine(a)[13..] && b.reason == StatusLine(b)[13..];
  }

  lemma LengthIsDetermined(a: Response, b: Response)
    requires !OmitsContentLength(a.status) && !OmitsContentLength(b.status) && FramingLines(a)[0] == FramingLines(b)[0]
    ensures a.contentLength == b.contentLength
  {
    assert Printed(Decimal, a.contentLength) == FramingLines(a)[0][16..];
    assert Printed(Decimal, b.contentLength) == FramingLines(b)[0][16..];
    PrintedOnce(Decimal, a.contentLength, b.contentLength);
  }

  /** The parts of a list of lines of which the first and the last lengths are known. */
  lemma PartsAreDetermined(h: string, f: seq<string>, x: seq<string>, h': string, f': seq<string>, x': seq<string>)
    requires [h] + f + x == [h'] + f' + x' && |x| == |x'|
    ensures h == h' && f == f' && x == x'
  {
    var all := [h] + f + x;
    assert all[0] == h && ([h'] + f' + x')[0] == h';
    assert all[1..|f| + 1] == f && ([h'] + f' + x')[1..|f'| + 1] == f';
    assert all[|f| + 1..] == x && ([h'] + f' + x')[|f'| + 1..] == x';
  }

  /** Equal heads are heads of the same response, but for the date of informational ones, which is not sent. */
  lemma HeadIsDetermined(a: Response, b: Response)
    requires Acceptable(a) && (a.status >= 200 ==> DateOk(a.date))
    requires Acceptable(b) && (b.status >= 200 ==> DateOk(b.date))
    requires Serialized(a) == Serialized(b)
    ensures a.status == b.status && a.reason == b.reason && a.headers == b.headers && a.contentLength == b.contentLength
  {
    LinesAreGood(a);
    LinesAreGood(b);
    assert Text(Lines(a)) == Serialized(a)[..|Serialized(a)| - 2];
    assert Text(Lines(b)) == Serialized(b)[..|Serialized(b)| - 2];
    LinesAreDetermined(Lines(a), Lines(b));
    assert Lines(a)[0] == StatusLine(a) && Lines(b)[0] == StatusLine(b);
    StatusIsDetermined(a, b);
    SameLines(a, b);
  }

  /** The lines after the application's fields. */
  function TailLines(r: Response): seq<string> {
    FramingLines(r) + FinalLines(r)
  }

  lemma LinesSplit(r: Response)
    ensures Lines(r) == [StatusLine(r)] + FieldLines(r.headers) + TailLines(r)
    ensures !OmitsContentLength(r.status) ==> TailLines(r) != [] && TailLines(r)[0] == FramingLines(r)[0]
  {
  }

  lemma SameLines(a: Response, b: Response)
    requires Lines(a) == Lines(b) && a.status == b.status && HeadersOk(a.headers) && HeadersOk(b.headers)
    requires HasNoBody(a.status) ==> a.contentLength == b.contentLength == 0
    ensures a.headers == b.headers && a.contentLength == b.contentLength
  {
    LinesSplit(a);
    LinesSplit(b);
    PartsAreDetermined(StatusLine(a), FieldLines(a.headers), TailLines(a),
                       StatusLine(b), FieldLines(b.headers), TailLines(b));
    FieldsAreDetermined(a.headers, b.headers);
    if !OmitsContentLength(a.status) {
      LengthIsDetermined(a, b);
    }
  }

  /** Two different responses can never look the same to the recipient. */
  lemma MessagesAreUnambiguous(a: Response, bodyA: string, b: Response, bodyB: string)
    requires Acceptable(a) && (a.status >= 200 ==> DateOk(a.date))
    requires Acceptable(b) && (b.status >= 200 ==> DateOk(b.date))
    requires Serialized(a) + bodyA == Serialized(b) + bodyB
    ensures a.status == b.status && a.reason == b.reason && a.headers == b.headers && a.contentLength == b.contentLength
    ensures Serialized(a) == Serialized(b) && bodyA == bodyB
  {
    HeadEndsAtFirstMarker(a, bodyA);
    HeadEndsAtFirstMarker(b, bodyB);
    var all := Serialized(a) + bodyA;
    assert |Serialized(a)| == |Serialized(b)|;
    assert all[..|Serialized(a)|] == Serialized(a) && all[..|Serialized(b)|] == Serialized(b);
    assert all[|Serialized(a)|..] == bodyA && all[|Serialized(b)|..] == bodyB;
    HeadIsDetermined(a, b);
  }
}
