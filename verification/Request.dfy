/** `parse_http_request`: head and body of one request in a growing caller-owned buffer. */
module Request {
  import opened Basics
  import opened HttpSyntax
  import opened BodyDecoderSpec
  import R = RequestHead
  import BodyDecoder
  import M = ChunkedMessage
  import A = ChunkedAcceptance

  const DECODE_BUFFER_BYTES := 16 * 1024

  datatype Request = Request(head: R.RequestHead, body: string, consumedBytes: nat)

  function Framing(head: R.RequestHead): Head {
    Head(head.chunked, head.contentLength, head.consumedBytes)
  }

  function ChunkedOutcome(head: R.RequestHead, end: State, output: string): R.Outcome<Request> {
    if end.Failed? then R.Rejected(end.error)
    else if end.phase == Done then R.Parsed(Request(head, output, end.offset))
    else R.NeedMore
  }

  /** The body that follows a head: a counted block or a complete chunked decoding. */
  function BodyOutcome(limits: Limits, head: R.RequestHead, rest: string): R.Outcome<Request> {
    if head.chunked then
      var start := Start(limits, Framing(head));
      ChunkedOutcome(head, Run(limits, start, rest), Output(limits, start, rest))
    else if |rest| < head.contentLength then R.NeedMore
    else R.Parsed(Request(head, rest[..head.contentLength], head.consumedBytes + head.contentLength))
  }

  /** One-shot meaning of the whole parse. */
  function ParseRequest(g: R.Grammar, limits: Limits, text: string): R.Outcome<Request> {
    AfterHead(limits, R.ParseHead(g, limits, text), text)
  }

  function AfterHead(limits: Limits, head: R.Outcome<R.RequestHead>, text: string): R.Outcome<Request> {
    match head
    case Rejected(e) => R.Rejected(e)
    case NeedMore => R.NeedMore
    case Parsed(h) =>
      if h.consumedBytes <= |text| then BodyOutcome(limits, h, text[h.consumedBytes..]) else R.NeedMore
  }

  // ---------------------------------------------------------------- the program's loops compute that meaning

  method ParseHttpRequest(g: R.Grammar, limits: Limits, text: string) returns (r: R.Outcome<Request>)
    requires |text| <= SIZE_MAX
    ensures r == ParseRequest(g, limits, text)
  {
    var parsed := R.ParseHttpRequestHead(g, limits, text);
    if parsed.Parsed? {
      HeadFits(g, limits, text);
    }
    r := ContinueAfterHead(limits, parsed, text);
  }

  /** The part after the head: its failure is passed on, its body is delimited or decoded. */
  method ContinueAfterHead(limits: Limits, parsed: R.Outcome<R.RequestHead>, text: string)
    returns (r: R.Outcome<Request>)
    requires |text| <= SIZE_MAX && (parsed.Parsed? ==> parsed.value.consumedBytes <= |text|)
    ensures r == AfterHead(limits, parsed, text)
  {
    match parsed {
      case Rejected(e) => return R.Rejected(e);
      case NeedMore => return R.NeedMore;
      case Parsed(head) =>
        if !head.chunked {
          if |text| - head.consumedBytes < head.contentLength {
            return R.NeedMore;
          }
          var end := head.consumedBytes + head.contentLength;
          assert text[head.consumedBytes..end] == text[head.consumedBytes..][..head.contentLength];
          return R.Parsed(Request(head, text[head.consumedBytes..end], end));
        }
        r := DecodeBody(limits, head, text[head.consumedBytes..]);
    }
  }

  lemma HeadFits(g: R.Grammar, limits: Limits, text: string)
    requires R.ParseHead(g, limits, text).Parsed?
    ensures R.ParseHead(g, limits, text).value.consumedBytes <= |text|
  {
    R.HeadEndsAtFirstMarker(g, limits, text);
  }

  /** Repeated feeding through one fixed scratch buffer. */
  method DecodeBody(limits: Limits, head: R.RequestHead, rest: string) returns (r: R.Outcome<Request>)
    requires head.chunked && head.consumedBytes + |rest| <= SIZE_MAX
    ensures r == BodyOutcome(limits, head, rest)
  {
    var decoder := new BodyDecoder.HttpBodyDecoder(Framing(head), limits);
    var output := new char[DECODE_BUFFER_BYTES];
    ghost var start := decoder.State();
    var storage, consumed := "", 0;
    var complete := decoder.Complete();
    assert rest[..0] == "";
    while consumed < |rest| && !complete
      invariant decoder.Valid() && decoder.limits == limits && consumed <= |rest|
      invariant decoder.failure.None? && complete == decoder.State().Complete()
      invariant Decoded(limits, start, rest, consumed, decoder.State(), storage)
      invariant fresh(decoder) && fresh(output) && output.Length == DECODE_BUFFER_BYTES
      decreases |rest| - consumed
    {
      ghost var before := decoder.State();
      var progress := decoder.Feed(rest[consumed..], output);
      if progress.Err? {
        RestFails(limits, start, rest, consumed, before, storage, progress.error);
        return R.Rejected(progress.error);
      }
      var p := progress.value;
      FeedProgresses(limits, before,
                     Feed(rest[consumed..], output.Length, progress, output[..p.produced]), decoder.State());
      Extended(limits, start, rest, consumed, before, storage, p.consumed);
      storage := storage + output[..p.produced];
      consumed := consumed + p.consumed;
      complete := decoder.Complete();
    }
    Finished(limits, start, rest, consumed, decoder.State(), storage);
    if !complete {
      return R.NeedMore;
    }
    return R.Parsed(Request(head, storage, decoder.offset));
  }

  ghost predicate Decoded(limits: Limits, start: State, rest: string, consumed: nat, s: State, output: string) {
    && consumed <= |rest|
    && s == Run(limits, start, rest[..consumed]) && output == Output(limits, start, rest[..consumed])
  }

  lemma Extended(limits: Limits, start: State, rest: string, consumed: nat, s: State, output: string, n: nat)
    requires Decoded(limits, start, rest, consumed, s, output) && consumed + n <= |rest|
    ensures Decoded(limits, start, rest, consumed + n, Run(limits, s, rest[consumed..][..n]),
                    output + Output(limits, s, rest[consumed..][..n]))
  {
    assert rest[..consumed + n] == rest[..consumed] + rest[consumed..][..n];
    RunConcat(limits, start, rest[..consumed], rest[consumed..][..n]);
  }

  lemma RestFails(limits: Limits, start: State, rest: string, consumed: nat, s: State, output: string, e: ParseError)
    requires Decoded(limits, start, rest, consumed, s, output) && Run(limits, s, rest[consumed..]) == Failed(e)
    ensures Run(limits, start, rest) == Failed(e)
  {
    assert rest == rest[..consumed] + rest[consumed..];
    RunConcat(limits, start, rest[..consumed], rest[consumed..]);
  }

  lemma Finished(limits: Limits, start: State, rest: string, consumed: nat, s: State, output: string)
    requires Decoded(limits, start, rest, consumed, s, output) && (consumed == |rest| || s.Settled())
    ensures Run(limits, start, rest) == s && Output(limits, start, rest) == output
  {
    assert rest == rest[..consumed] + rest[consumed..];
    RunConcat(limits, start, rest[..consumed], rest[consumed..]);
    A.SettledOrEmpty(limits, s, rest[consumed..]);
    assert output + "" == output;
  }

  // ---------------------------------------------------------------- properties of the meaning

  lemma BodyIsPrefixStable(limits: Limits, head: R.RequestHead, rest: string, more: string)
    requires !BodyOutcome(limits, head, rest).NeedMore?
    ensures BodyOutcome(limits, head, rest + more) == BodyOutcome(limits, head, rest)
  {
    if head.chunked {
      var start := Start(limits, Framing(head));
      RunConcat(limits, start, rest, more);
      SettledStays(limits, Run(limits, start, rest), more);
      assert Output(limits, start, rest) + "" == Output(limits, start, rest);
    } else {
      assert (rest + more)[..head.contentLength] == rest[..head.contentLength];
    }
  }

  lemma AfterHeadIsPrefixStable(limits: Limits, head: R.Outcome<R.RequestHead>, text: string, more: string)
    requires !AfterHead(limits, head, text).NeedMore?
    ensures AfterHead(limits, head, text + more) == AfterHead(limits, head, text)
  {
    if head.Parsed? {
      var at := head.value.consumedBytes;
      BodyIsPrefixStable(limits, head.value, text[at..], more);
      assert (text + more)[at..] == text[at..] + more;
    }
  }

  /** A complete request or a failure stays what it is however the buffer grows. */
  lemma RequestIsPrefixStable(g: R.Grammar, limits: Limits, text: string, more: string)
    requires !ParseRequest(g, limits, text).NeedMore?
    ensures ParseRequest(g, limits, text + more) == ParseRequest(g, limits, text)
  {
    AfterHeadIsPrefixStable(limits, R.ParseHead(g, limits, text), text, more);
    R.HeadIsPrefixStable(g, limits, text, more);
  }

  /** A request of fixed length is complete exactly when that many bytes follow its head, and they are its body. */
  lemma FixedRequestIsBlock(g: R.Grammar, limits: Limits, text: string, head: R.RequestHead)
    requires R.ParseHead(g, limits, text) == R.Parsed(head) && !head.chunked
    ensures head.consumedBytes <= |text|
    ensures var end := head.consumedBytes + head.contentLength;
      ParseRequest(g, limits, text) ==
        if end <= |text| then R.Parsed(Request(head, text[head.consumedBytes..end], end)) else R.NeedMore
  {
    HeadFits(g, limits, text);
    var end := head.consumedBytes + head.contentLength;
    assert end <= |text| ==>
      text[head.consumedBytes..end] == text[head.consumedBytes..][..head.contentLength];
  }

  /** Without a head there is no request: it is rejected for the same reason, or needs more input. */
  lemma NoRequestWithoutHead(g: R.Grammar, limits: Limits, text: string)
    ensures var head := R.ParseHead(g, limits, text);
      && (head.Rejected? ==> ParseRequest(g, limits, text) == R.Rejected(head.error))
      && (head.NeedMore? ==> ParseRequest(g, limits, text) == R.NeedMore)
  {
  }

  /** `m` is an acceptable chunked message at the start of `rest`. */
  predicate Follows(limits: Limits, head: R.RequestHead, rest: string, m: M.Message) {
    M.Acceptable(limits, head.consumedBytes, m) && M.Wire(m) <= rest
  }

  lemma MessageIsBody(limits: Limits, head: R.RequestHead, rest: string, m: M.Message)
    requires head.chunked && head.contentLength == 0 && Follows(limits, head, rest, m)
    ensures BodyOutcome(limits, head, rest) == R.Parsed(Request(head, M.Body(m), head.consumedBytes + |M.Wire(m)|))
  {
    M.DecodesMessage(limits, Framing(head), m, rest[|M.Wire(m)|..]);
    assert M.Wire(m) + rest[|M.Wire(m)|..] == rest;
  }

  /**
   A chunked request is complete exactly when an acceptable chunked message follows its head; that
   message's body is the request body, and the request ends where the message ends.
   */
  lemma ChunkedRequestIsMessage(g: R.Grammar, limits: Limits, text: string, head: R.RequestHead)
    requires |text| <= SIZE_MAX && R.ParseHead(g, limits, text) == R.Parsed(head) && head.chunked
    ensures head.consumedBytes <= |text|
    ensures ParseRequest(g, limits, text).Parsed? <==> exists m :: Follows(limits, head, text[head.consumedBytes..], m)
    ensures forall m :: Follows(limits, head, text[head.consumedBytes..], m) ==>
              ParseRequest(g, limits, text) == R.Parsed(Request(head, M.Body(m), head.consumedBytes + |M.Wire(m)|))
  {
    R.HeadEndsAtFirstMarker(g, limits, text);
    R.HeadIsUnambiguous(g, limits, text);
    var rest := text[head.consumedBytes..];
    if BodyOutcome(limits, head, rest).Parsed? {
      var m := A.CompletionIsMessage(limits, Framing(head), rest);
      assert Follows(limits, head, rest, m);
    }
    forall m | Follows(limits, head, rest, m)
      ensures BodyOutcome(limits, head, rest) == R.Parsed(Request(head, M.Body(m), head.consumedBytes + |M.Wire(m)|))
    {
      MessageIsBody(limits, head, rest, m);
    }
  }
}
