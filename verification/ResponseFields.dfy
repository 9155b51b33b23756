/**
 The response head against the request parser's own reading of HTTP: the status line holds a version, the
 status and the reason, and every line after it is a field with the name and the value it was made from.
 */
module ResponseFields {
  import opened Basics
  import opened HttpSyntax
  import opened Numerals
  import R = RequestHead
  import PH = PrintedHead
  import RH = ResponseHead

  /** The fields of a response in their order: the application's, then those that the server adds. */
  function WireFields(r: RH.Response): seq<R.Field> {
    Given(r.headers)
    + (if RH.OmitsContentLength(r.status) then [] else [R.Field("Content-Length", Printed(Decimal, r.contentLength))])
    + (if r.status >= 200 then [R.Field("Connection", "close"), R.Field("Date", r.date)] else [])
  }

  function Given(headers: seq<RH.Header>): (fields: seq<R.Field>)
    ensures |fields| == |headers|
  {
    seq(|headers|, i requires 0 <= i < |headers| => R.Field(headers[i].name, headers[i].value))
  }

  /** The line reads as this field, as far as the blanks around its value go. */
  predicate ReadsAs(line: string, f: R.Field) {
    var field := R.ParseField(line, 0);
    field.Ok? && field.value.field == R.Field(f.name, TrimRight(TrimLeft(f.value)))
  }

  lemma {:induction false} LineAt(headers: seq<RH.Header>, i: nat)
    requires i < |headers|
    ensures RH.FieldLines(headers)[i] == headers[i].name + ": " + headers[i].value
    decreases |headers|
  {
    if i < |headers| - 1 {
      LineAt(headers[..|headers| - 1], i);
    }
  }

  lemma FieldReads(name: string, value: string)
    requires name != "" && AllToken(name) && AllFieldValue(value)
    ensures ReadsAs(name + ": " + value, R.Field(name, value))
  {
    var line := name + ": " + value;
    assert line == name + ":" + (" " + value);
    PH.NameEndsAtColon(name, " " + value);
    assert (" " + value)[1..] == value;
    TrimmedHolds(value);
  }

  /** Trimming takes bytes away, it does not bring any. */
  lemma TrimmedHolds(s: string)
    requires AllFieldValue(s)
    ensures AllFieldValue(TrimRight(TrimLeft(s)))
  {
    LeftHolds(s);
    RightHolds(TrimLeft(s));
  }

  lemma {:induction false} LeftHolds(s: string)
    requires AllFieldValue(s)
    ensures AllFieldValue(TrimLeft(s))
  {
    if s != "" && IsSpace(s[0]) {
      LeftHolds(s[1..]);
    }
  }

  lemma {:induction false} RightHolds(s: string)
    requires AllFieldValue(s)
    ensures AllFieldValue(TrimRight(s))
    decreases |s|
  {
    if s != "" && IsSpace(s[|s| - 1]) {
      RightHolds(s[..|s| - 1]);
    }
  }

  /** The status line: HTTP/1.1, the status in decimal and the reason. */
  lemma StatusLineReads(r: RH.Response)
    requires 100 <= r.status <= 599
    ensures var line := RH.StatusLine(r);
      && |line| == 13 + |r.reason| && line[..8] == "HTTP/1.1" && PH.SupportedVersion(line[..8])
      && line[8] == line[12] == ' ' && Denotes(Decimal, line[9..12], r.status) && line[13..] == r.reason
  {
    var line, digits := RH.StatusLine(r), Printed(Decimal, r.status);
    RH.StatusDigits(r.status);
    assert line == "HTTP/1.1 " + (digits + (" " + r.reason));
    assert line[9..12] == digits;
    assert line[..8] == "HTTP/1.1" && line[..8][..7] == "HTTP/1.";
    PrintedReads(Decimal, r.status);
    ReadsExactly(Decimal, digits, r.status);
  }

  function AsLine(f: R.Field): string {
    f.name + ": " + f.value
  }

  lemma FramingLine(r: RH.Response)
    requires !RH.OmitsContentLength(r.status)
    ensures RH.FramingLines(r) == [AsLine(R.Field("Content-Length", Printed(Decimal, r.contentLength)))]
  {
    assert "Content-Length" + ": " == "Content-Length: ";
  }

  lemma FinalLine(r: RH.Response)
    requires r.status >= 200
    ensures RH.FinalLines(r) == [AsLine(R.Field("Connection", "close")), AsLine(R.Field("Date", r.date))]
  {
    assert "Connection" + ": " + "close" == "Connection: close";
    assert "Date" + ": " == "Date: ";
  }

  lemma WireLine(r: RH.Response, k: nat)
    requires k < |WireFields(r)|
    ensures |RH.Lines(r)| == 1 + |WireFields(r)| && RH.Lines(r)[1 + k] == AsLine(WireFields(r)[k])
  {
    if k < |r.headers| {
      LineAt(r.headers, k);
    }
    if !RH.OmitsContentLength(r.status) {
      FramingLine(r);
    }
    if r.status >= 200 {
      FinalLine(r);
    }
  }

  lemma {:induction false} DigitsAreValue(n: nat)
    ensures AllFieldValue(Printed(Decimal, n))
  {
    PlaceIsDigit(Decimal.Rest(n));
    if n >= 10 {
      DigitsAreValue(n / 10);
    } else {
      PlaceIsDigit(n);
    }
  }

  lemma WireFieldOk(r: RH.Response, k: nat)
    requires RH.HeadersOk(r.headers) && (r.status >= 200 ==> AllFieldValue(r.date)) && k < |WireFields(r)|
    ensures WireFields(r)[k].name != "" && AllToken(WireFields(r)[k].name) && AllFieldValue(WireFields(r)[k].value)
  {
    if k < |r.headers| {
      assert RH.HeaderError(r.headers[k]).None?;
    } else {
      DigitsAreValue(r.contentLength);
    }
  }

  /** Every line after the status line reads back as the field it was made from. */
  lemma FieldsReadBack(r: RH.Response, k: nat)
    requires RH.Acceptable(r) && (r.status >= 200 ==> AllFieldValue(r.date)) && k < |WireFields(r)|
    ensures |RH.Lines(r)| == 1 + |WireFields(r)| && ReadsAs(RH.Lines(r)[1 + k], WireFields(r)[k])
  {
    WireLine(r, k);
    WireFieldOk(r, k);
    FieldReads(WireFields(r)[k].name, WireFields(r)[k].value);
  }

  /** The one length a head announces is that of its body, and only the server announces it. */
  lemma LengthReadsBack(r: RH.Response, k: nat)
    requires RH.Acceptable(r) && k < |WireFields(r)| && r.contentLength <= SIZE_MAX
    ensures EqualIgnoreCase(WireFields(r)[k].name, "Content-Length") ==>
      && !RH.OmitsContentLength(r.status) && k == |r.headers|
      && R.ParseLength(WireFields(r)[k].value) == Some(r.contentLength)
    ensures !EqualIgnoreCase(WireFields(r)[k].name, "Transfer-Encoding")
  {
    assert |"Content-Length"| == 14 && |"Transfer-Encoding"| == 17 && |"Connection"| == 10 && |"Date"| == 4;
    if k < |r.headers| {
      assert RH.HeaderError(r.headers[k]).None?;
    } else {
      PrintedReads(Decimal, r.contentLength);
    }
  }
}
