/**
 Section 7.1 of RFC 9112 as a set of texts: what a chunked message looks like on the wire.  The
 decoder completes on exactly the wire forms of well-formed messages within the limits, returns
 their body, and leaves later bytes untouched.
 */
module ChunkedMessage {
  import opened Basics
  import opened HttpSyntax
  import opened ChunkGrammar
  import opened Numerals
  import opened BodyDecoderSpec

  datatype Chunk = Chunk(size: string, extension: string, data: string)

  datatype Message = Message(chunks: seq<Chunk>, lastSize: string, lastExtension: string, trailers: seq<string>)

  // ---------------------------------------------------------------- wire form and body

  function WireChunk(c: Chunk): string {
    c.size + c.extension + CRLF + c.data + CRLF
  }

  function WireChunks(cs: seq<Chunk>): string {
    if cs == [] then "" else WireChunks(cs[..|cs| - 1]) + WireChunk(cs[|cs| - 1])
  }

  function WireTrailers(ts: seq<string>): string {
    if ts == [] then "" else WireTrailers(ts[..|ts| - 1]) + (ts[|ts| - 1] + CRLF)
  }

  function Wire(m: Message): string {
    WireChunks(m.chunks) + LastLine(m) + (WireTrailers(m.trailers) + CRLF)
  }

  function Payloads(cs: seq<Chunk>): string {
    if cs == [] then "" else Payloads(cs[..|cs| - 1]) + cs[|cs| - 1].data
  }

  function Body(m: Message): string {
    Payloads(m.chunks)
  }

  // ---------------------------------------------------------------- well-formedness and limits

  /** A size field: hexadecimal digits in any case and with any number of leading zeros. */
  predicate IsSize(text: string, value: nat) {
    text != "" && AllHex(text) && HexValue(text) == value <= SIZE_MAX
  }

  /** The digits of a size are those of the number it stands for. */
  lemma SizeIsWritten(text: string, value: nat)
    ensures IsSize(text, value) <==> Denotes(Hexadecimal, text, value) && value <= SIZE_MAX
  {
    ReadsExactly(Hexadecimal, text, value);
    assert AllHex(text) <==> AllDigits(Hexadecimal, text);
  }

  predicate ChunkOk(limits: Limits, c: Chunk) {
    && c.data != "" && IsSize(c.size, |c.data|) && ValidExtensions(c.extension)
    && |c.size| + |c.extension| <= limits.maxChunkLineBytes
  }

  predicate ChunksOk(limits: Limits, cs: seq<Chunk>) {
    forall i :: 0 <= i < |cs| ==> ChunkOk(limits, cs[i])
  }

  predicate TrailersOk(ts: seq<string>) {
    forall i :: 0 <= i < |ts| ==> ValidTrailer(ts[i])
  }

  /** Well formed, and within every limit at once when it follows a head of `start` bytes. */
  predicate Acceptable(limits: Limits, start: nat, m: Message) {
    && ChunksOk(limits, m.chunks)
    && IsSize(m.lastSize, 0) && ValidExtensions(m.lastExtension)
    && |m.lastSize| + |m.lastExtension| <= limits.maxChunkLineBytes
    && TrailersOk(m.trailers) && |m.trailers| <= limits.maxTrailerCount
    && |WireTrailers(m.trailers)| + 2 <= limits.maxTrailerBytes
    && |Body(m)| <= limits.maxBodyBytes
    && |Wire(m)| - |Body(m)| <= limits.maxChunkMetadataBytes
    && start + |Wire(m)| <= SIZE_MAX
  }

  // ---------------------------------------------------------------- reading one line

  /** The state after `n` framing bytes were charged to every budget they count against. */
  function Charged(s: State, n: nat, line: string): (t: State)
    requires s.Live?
    ensures t.Live?
  {
    s.(metadataBytes := s.metadataBytes + n, offset := s.offset + n, line := line,
       trailerBytes := s.trailerBytes + if s.phase == Trailers then n else 0)
  }

  predicate Affords(limits: Limits, s: State, n: nat)
    requires s.Live?
  {
    && s.metadataBytes + n <= limits.maxChunkMetadataBytes
    && (s.phase == Trailers ==> s.trailerBytes + n <= limits.maxTrailerBytes)
    && s.offset + n <= SIZE_MAX
  }

  predicate ReadsLines(s: State) {
    s.Live? && (s.phase == SizeLine || s.phase == Trailers) && !s.lineCr
  }

  lemma {:induction false} LineTextRun(limits: Limits, s: State, text: string)
    requires ReadsLines(s) && NoBreaks(text) && Affords(limits, s, |text|)
    requires |s.line| + |text| <= LineLimit(limits, s.phase)
    ensures Run(limits, s, text) == Charged(s, |text|, s.line + text)
    ensures Output(limits, s, text) == ""
    decreases |text|
  {
    if text == "" {
      assert s.line + text == s.line;
    } else {
      var t := Step(limits, s, text[0]);
      assert t == Charged(s, 1, s.line + [text[0]]);
      NoBreaksCons(text);
      LineTextRun(limits, t, text[1..]);
      assert s.line + text == (s.line + [text[0]]) + text[1..];
    }
  }

  /** A line whose carriage return has arrived. */
  function AtCr(s: State): State
    requires s.Live?
  {
    s.(metadataBytes := s.metadataBytes + 1, offset := s.offset + 1, lineCr := true,
       trailerBytes := s.trailerBytes + if s.phase == Trailers then 1 else 0)
  }

  lemma CrStep(limits: Limits, s: State)
    requires ReadsLines(s) && Affords(limits, s, 2)
    ensures Step(limits, s, '\r') == AtCr(s)
  {
  }

  /** Finishing a line does not depend on the offset or on the carriage return before it. */
  lemma FinishLineFrame(limits: Limits, s: State, offset: nat)
    requires s.Live? && FinishLine(limits, s).Live?
    ensures FinishLine(limits, s.(offset := offset, lineCr := true))
         == FinishLine(limits, s).(offset := offset, lineCr := true)
  {
  }

  lemma LfStep(limits: Limits, s: State)
    requires ReadsLines(s) && Affords(limits, s, 2) && FinishLine(limits, Charged(s, 2, s.line)).Live?
    ensures Step(limits, AtCr(s), '\n') == FinishLine(limits, Charged(s, 2, s.line)).(line := "")
  {
    FinishLineFrame(limits, Charged(s, 2, s.line), s.offset + 1);
  }

  lemma LineEndRun(limits: Limits, s: State)
    requires ReadsLines(s) && Affords(limits, s, 2) && FinishLine(limits, Charged(s, 2, s.line)).Live?
    ensures Run(limits, s, CRLF) == FinishLine(limits, Charged(s, 2, s.line)).(line := "")
    ensures Output(limits, s, CRLF) == ""
  {
    CrStep(limits, s);
    LfStep(limits, s);
    TwoStates(limits, s, AtCr(s), FinishLine(limits, Charged(s, 2, s.line)).(line := ""), '\r', '\n');
  }

  /** Two bytes without output, by the states they lead to. */
  lemma TwoStates(limits: Limits, s: State, t: State, u: State, a: char, b: char)
    requires Step(limits, s, a) == t && Step(limits, t, b) == u && Emitted(s, a) == Emitted(t, b) == ""
    ensures Run(limits, s, [a, b]) == u && Output(limits, s, [a, b]) == ""
  {
    TwoSteps(limits, s, a, b);
  }

  lemma TwoSteps(limits: Limits, s: State, a: char, b: char)
    ensures Run(limits, s, [a, b]) == Step(limits, Step(limits, s, a), b)
    ensures Output(limits, s, [a, b]) == Emitted(s, a) + Emitted(Step(limits, s, a), b)
  {
    assert [a, b] == [a] + [b];
    RunConcat(limits, s, [a], [b]);
    RunOne(limits, s, a);
    RunOne(limits, Step(limits, s, a), b);
  }

  lemma WholeTextRun(limits: Limits, s: State, text: string)
    requires ReadsLines(s) && s.line == "" && NoBreaks(text) && Affords(limits, s, |text|)
    requires |text| <= LineLimit(limits, s.phase)
    ensures Run(limits, s, text) == Charged(s, |text|, text) && Output(limits, s, text) == ""
  {
    LineTextRun(limits, s, text);
    assert s.line + text == text;
  }

  lemma WholeEndRun(limits: Limits, s: State, text: string)
    requires ReadsLines(s) && Affords(limits, s, |text| + 2)
    requires FinishLine(limits, Charged(s, |text| + 2, text)).Live?
    ensures Run(limits, Charged(s, |text|, text), CRLF) == FinishLine(limits, Charged(s, |text| + 2, text)).(line := "")
    ensures Output(limits, Charged(s, |text|, text), CRLF) == ""
  {
    assert Charged(Charged(s, |text|, text), 2, text) == Charged(s, |text| + 2, text);
    LineEndRun(limits, Charged(s, |text|, text));
  }

  /** A whole line is applied by `FinishLine` exactly as if it had arrived at once. */
  lemma LineRun(limits: Limits, s: State, text: string)
    requires ReadsLines(s) && s.line == "" && NoBreaks(text) && Affords(limits, s, |text| + 2)
    requires |text| <= LineLimit(limits, s.phase)
    requires FinishLine(limits, Charged(s, |text| + 2, text)).Live?
    ensures Run(limits, s, text + CRLF) == FinishLine(limits, Charged(s, |text| + 2, text)).(line := "")
    ensures Output(limits, s, text + CRLF) == ""
  {
    WholeTextRun(limits, s, text);
    WholeEndRun(limits, s, text);
    var end := FinishLine(limits, Charged(s, |text| + 2, text)).(line := "");
    TwoPieces(limits, s, Charged(s, |text|, text), end, text, CRLF);
  }

  /** Two pieces of wire, decoded one after the other. */
  lemma TwoPieces(limits: Limits, s: State, t: State, u: State, a: string, b: string)
    requires Run(limits, s, a) == t && Run(limits, t, b) == u
    ensures Run(limits, s, a + b) == u
    ensures Output(limits, s, a + b) == Output(limits, s, a) + Output(limits, t, b)
  {
    RunConcat(limits, s, a, b);
  }

  // ---------------------------------------------------------------- every acceptable message is decoded

  /** A decoder positioned between chunks. */
  predicate Ready(s: State) {
    ReadsLines(s) && s.phase == SizeLine && s.line == "" && s.chunked
  }

  lemma SizeLineSize(limits: Limits, size: string, extension: string, value: nat)
    requires IsSize(size, value) && ValidExtensions(extension)
    ensures ChunkSize(size + extension) == Some(value) && NoBreaks(size + extension)
  {
    ExtensionsAreOneLine(extension);
    SizeSplits(size, extension);
    forall i | 0 <= i < |size + extension| ensures (size + extension)[i] != '\r' && (size + extension)[i] != '\n' {
    }
  }

  /** A decoder that has read the size line of a chunk of `value` bytes. */
  function Opened(s: State, n: nat, value: nat): State
    requires s.Live?
  {
    s.(phase := if value == 0 then Trailers else Data, remaining := value,
       metadataBytes := s.metadataBytes + n, offset := s.offset + n)
  }

  lemma SizeLineFinishes(limits: Limits, s: State, line: string, value: nat)
    requires Ready(s) && ChunkSize(line) == Some(value) && s.decoded + value <= limits.maxBodyBytes
    ensures FinishLine(limits, Charged(s, |line| + 2, line)).Live?
    ensures FinishLine(limits, Charged(s, |line| + 2, line)).(line := "") == Opened(s, |line| + 2, value)
  {
  }

  lemma SizeLineRun(limits: Limits, s: State, size: string, extension: string, value: nat)
    requires Ready(s) && IsSize(size, value) && ValidExtensions(extension)
    requires |size| + |extension| <= limits.maxChunkLineBytes && s.decoded + value <= limits.maxBodyBytes
    requires Affords(limits, s, |size| + |extension| + 2)
    ensures Run(limits, s, size + extension + CRLF) == Opened(s, |size| + |extension| + 2, value)
    ensures Output(limits, s, size + extension + CRLF) == ""
  {
    SizeLineSize(limits, size, extension, value);
    SizeLineFinishes(limits, s, size + extension, value);
    LineRun(limits, s, size + extension);
  }

  /** A decoder that has read all payload bytes of its chunk. */
  function Filled(s: State, n: nat): State
    requires s.Live?
  {
    s.(phase := DataCr, remaining := 0, decoded := s.decoded + n, offset := s.offset + n)
  }

  lemma PayloadFills(limits: Limits, s: State, data: string)
    requires s.Live? && s.phase == Data && s.chunked && s.remaining == |data| > 0 && s.offset + |data| <= SIZE_MAX
    ensures Run(limits, s, data) == Filled(s, |data|) && Output(limits, s, data) == data
  {
    PayloadRun(limits, s, data);
  }

  lemma ChunkRun(limits: Limits, s: State, c: Chunk)
    requires Ready(s) && ChunkOk(limits, c)
    requires s.decoded + |c.data| <= limits.maxBodyBytes
    requires s.metadataBytes + |c.size| + |c.extension| + 4 <= limits.maxChunkMetadataBytes
    requires s.offset + |WireChunk(c)| <= SIZE_MAX
    ensures Run(limits, s, WireChunk(c))
            == s.(decoded := s.decoded + |c.data|, remaining := 0, offset := s.offset + |WireChunk(c)|,
                  metadataBytes := s.metadataBytes + |c.size| + |c.extension| + 4)
    ensures Output(limits, s, WireChunk(c)) == c.data
  {
    var a := Opened(s, |c.size| + |c.extension| + 2, |c.data|);
    var b := Filled(a, |c.data|);
    var d := b.(phase := SizeLine, metadataBytes := b.metadataBytes + 2, offset := b.offset + 2);
    SizeLineRun(limits, s, c.size, c.extension, |c.data|);
    PayloadFills(limits, a, c.data);
    EndOfChunkRun(limits, b);
    OnlyMiddle(limits, s, a, b, d, c.size + c.extension + CRLF, c.data, CRLF);
    SameEnd(s, a, b, d, c);
  }

  lemma SameEnd(s: State, a: State, b: State, d: State, c: Chunk)
    requires Ready(s) && a == Opened(s, |c.size| + |c.extension| + 2, |c.data|) && b == Filled(a, |c.data|)
    requires d == b.(phase := SizeLine, metadataBytes := b.metadataBytes + 2, offset := b.offset + 2)
    ensures d == s.(decoded := s.decoded + |c.data|, remaining := 0, offset := s.offset + |WireChunk(c)|,
                    metadataBytes := s.metadataBytes + |c.size| + |c.extension| + 4)
  {
  }

  /** Three pieces of wire of which only the middle one is payload. */
  lemma OnlyMiddle(limits: Limits, s: State, t: State, u: State, v: State, a: string, b: string, c: string)
    requires Run(limits, s, a) == t && Run(limits, t, b) == u && Run(limits, u, c) == v
    requires Output(limits, s, a) == "" && Output(limits, t, b) == b && Output(limits, u, c) == ""
    ensures Run(limits, s, a + b + c) == v && Output(limits, s, a + b + c) == b
  {
    ThreePieces(limits, s, t, u, v, a, b, c);
    assert "" + b + "" == b;
  }

  /** Three pieces of wire, decoded one after the other; only the middle one produces output here. */
  lemma ThreePieces(limits: Limits, s: State, t: State, u: State, v: State, a: string, b: string, c: string)
    requires Run(limits, s, a) == t && Run(limits, t, b) == u && Run(limits, u, c) == v
    ensures Run(limits, s, a + b + c) == v
    ensures Output(limits, s, a + b + c) == Output(limits, s, a) + Output(limits, t, b) + Output(limits, u, c)
  {
    RunConcat(limits, s, a, b);
    RunConcat(limits, s, a + b, c);
  }

  lemma EndOfChunkRun(limits: Limits, s: State)
    requires s.Live? && s.phase == DataCr && Affords(limits, s, 2)
    ensures Run(limits, s, CRLF) == s.(phase := SizeLine, metadataBytes := s.metadataBytes + 2, offset := s.offset + 2)
    ensures Output(limits, s, CRLF) == ""
  {
    TwoSteps(limits, s, '\r', '\n');
  }

  function Framing(cs: seq<Chunk>): (n: nat)
    ensures |WireChunks(cs)| == n + |Payloads(cs)|
  {
    if cs == [] then 0
    else Framing(cs[..|cs| - 1]) + |cs[|cs| - 1].size| + |cs[|cs| - 1].extension| + 4
  }

  /** A decoder between chunks, after reading these. */
  function Past(s: State, decoded: nat, wire: nat, framing: nat): State
    requires s.Live?
  {
    s.(decoded := s.decoded + decoded, offset := s.offset + wire, metadataBytes := s.metadataBytes + framing)
  }

  lemma OneMoreChunk(cs: seq<Chunk>)
    requires cs != []
    ensures var init, last := cs[..|cs| - 1], cs[|cs| - 1];
      && WireChunks(cs) == WireChunks(init) + WireChunk(last) && Payloads(cs) == Payloads(init) + last.data
      && Framing(cs) == Framing(init) + |last.size| + |last.extension| + 4
      && |WireChunk(last)| == |last.size| + |last.extension| + 4 + |last.data|
  {
  }

  lemma ChunkPast(limits: Limits, s: State, c: Chunk)
    requires Ready(s) && s.remaining == 0 && ChunkOk(limits, c)
    requires s.decoded + |c.data| <= limits.maxBodyBytes
    requires s.metadataBytes + |c.size| + |c.extension| + 4 <= limits.maxChunkMetadataBytes
    requires s.offset + |WireChunk(c)| <= SIZE_MAX
    ensures Run(limits, s, WireChunk(c)) == Past(s, |c.data|, |WireChunk(c)|, |c.size| + |c.extension| + 4)
    ensures Output(limits, s, WireChunk(c)) == c.data
  {
    ChunkRun(limits, s, c);
  }

  lemma {:induction false} ChunksRun(limits: Limits, s: State, cs: seq<Chunk>)
    requires Ready(s) && s.remaining == 0 && ChunksOk(limits, cs)
    requires s.decoded + |Payloads(cs)| <= limits.maxBodyBytes
    requires s.metadataBytes + Framing(cs) <= limits.maxChunkMetadataBytes
    requires s.offset + |WireChunks(cs)| <= SIZE_MAX
    ensures Run(limits, s, WireChunks(cs)) == Past(s, |Payloads(cs)|, |WireChunks(cs)|, Framing(cs))
    ensures Output(limits, s, WireChunks(cs)) == Payloads(cs)
    decreases |cs|
  {
    if cs != [] {
      var init, last := cs[..|cs| - 1], cs[|cs| - 1];
      OneMoreChunk(cs);
      ChunksRun(limits, s, init);
      var t := Past(s, |Payloads(init)|, |WireChunks(init)|, Framing(init));
      ChunkPast(limits, t, last);
      var u := Past(s, |Payloads(cs)|, |WireChunks(cs)|, Framing(cs));
      TwoPieces(limits, s, t, u, WireChunks(init), WireChunk(last));
    }
  }

  lemma {:induction false} TrailersRun(limits: Limits, s: State, ts: seq<string>)
    requires ReadsLines(s) && s.phase == Trailers && s.line == "" && TrailersOk(ts)
    requires s.trailerCount + |ts| <= limits.maxTrailerCount
    requires Affords(limits, s, |WireTrailers(ts)|)
    ensures Run(limits, s, WireTrailers(ts))
            == Charged(s.(trailerCount := s.trailerCount + |ts|), |WireTrailers(ts)|, "")
    ensures Output(limits, s, WireTrailers(ts)) == ""
    decreases |ts|
  {
    if ts != [] {
      var init, last := ts[..|ts| - 1], ts[|ts| - 1];
      TrailersRun(limits, s, init);
      TrailerIsOneLine(last);
      var t := Charged(s.(trailerCount := s.trailerCount + |init|), |WireTrailers(init)|, "");
      LineRun(limits, t, last);
      var u := Charged(s.(trailerCount := s.trailerCount + |ts|), |WireTrailers(ts)|, "");
      TwoPieces(limits, s, t, u, WireTrailers(init), last + CRLF);
    }
  }

  lemma TrailerSectionRun(limits: Limits, s: State, ts: seq<string>)
    requires ReadsLines(s) && s.phase == Trailers && s.line == "" && TrailersOk(ts)
    requires s.trailerCount + |ts| <= limits.maxTrailerCount
    requires Affords(limits, s, |WireTrailers(ts)| + 2)
    ensures Run(limits, s, WireTrailers(ts) + CRLF).Complete()
    ensures Run(limits, s, WireTrailers(ts) + CRLF).offset == s.offset + |WireTrailers(ts)| + 2
    ensures Output(limits, s, WireTrailers(ts) + CRLF) == ""
  {
    TrailersRun(limits, s, ts);
    LineEndRun(limits, Run(limits, s, WireTrailers(ts)));
    RunConcat(limits, s, WireTrailers(ts), CRLF);
  }

  function LastLine(m: Message): string {
    m.lastSize + m.lastExtension + CRLF
  }

  /** The state of a decoder that has read all chunks and the last size line of `m`. */
  function AfterLastLine(s: State, m: Message): State
    requires s.Live?
  {
    s.(phase := Trailers, decoded := |Body(m)|, metadataBytes := Framing(m.chunks) + |LastLine(m)|,
       offset := s.offset + |WireChunks(m.chunks)| + |LastLine(m)|)
  }

  predicate Unused(s: State) {
    Ready(s) && s.remaining == s.decoded == s.metadataBytes == s.trailerBytes == s.trailerCount == 0
  }

  /** The state of a decoder that has read all chunks of `m`. */
  function AfterChunks(s: State, m: Message): State
    requires s.Live?
  {
    s.(decoded := |Body(m)|, offset := s.offset + |WireChunks(m.chunks)|, metadataBytes := Framing(m.chunks))
  }

  lemma LastLineRun(limits: Limits, s: State, m: Message)
    requires Unused(s)
    requires IsSize(m.lastSize, 0) && ValidExtensions(m.lastExtension)
    requires |m.lastSize| + |m.lastExtension| <= limits.maxChunkLineBytes
    requires |Body(m)| <= limits.maxBodyBytes
    requires Framing(m.chunks) + |LastLine(m)| <= limits.maxChunkMetadataBytes
    requires s.offset + |WireChunks(m.chunks)| + |LastLine(m)| <= SIZE_MAX
    ensures Run(limits, AfterChunks(s, m), LastLine(m)) == AfterLastLine(s, m)
    ensures Output(limits, AfterChunks(s, m), LastLine(m)) == ""
  {
    SizeLineRun(limits, AfterChunks(s, m), m.lastSize, m.lastExtension, 0);
  }

  lemma AllChunksRun(limits: Limits, s: State, m: Message)
    requires Unused(s) && ChunksOk(limits, m.chunks)
    requires |Body(m)| <= limits.maxBodyBytes && Framing(m.chunks) <= limits.maxChunkMetadataBytes
    requires s.offset + |WireChunks(m.chunks)| <= SIZE_MAX
    ensures Run(limits, s, WireChunks(m.chunks)) == AfterChunks(s, m)
    ensures Output(limits, s, WireChunks(m.chunks)) == Body(m)
  {
    ChunksRun(limits, s, m.chunks);
  }

  lemma MessageRun(limits: Limits, s: State, m: Message)
    requires Unused(s) && Acceptable(limits, s.offset, m)
    ensures var t := Run(limits, s, Wire(m)); t.Complete() && t.offset == s.offset + |Wire(m)|
    ensures Output(limits, s, Wire(m)) == Body(m)
  {
    AllChunksRun(limits, s, m);
    LastLineRun(limits, s, m);
    TrailerSectionRun(limits, AfterLastLine(s, m), m.trailers);
    var t := Run(limits, AfterLastLine(s, m), WireTrailers(m.trailers) + CRLF);
    ThreePieces(limits, s, AfterChunks(s, m), AfterLastLine(s, m), t,
                WireChunks(m.chunks), LastLine(m), WireTrailers(m.trailers) + CRLF);
  }

  /**
   Every acceptable message decodes to its body and consumes exactly its wire form, whatever bytes
   follow it.
   */
  lemma DecodesMessage(limits: Limits, head: Head, m: Message, rest: string)
    requires head.chunked && head.contentLength == 0 && Acceptable(limits, head.consumedBytes, m)
    ensures var t := Run(limits, Start(limits, head), Wire(m) + rest);
            t.Complete() && t.offset == head.consumedBytes + |Wire(m)|
    ensures Output(limits, Start(limits, head), Wire(m) + rest) == Body(m)
  {
    var s := Start(limits, head);
    MessageRun(limits, s, m);
    RunConcat(limits, s, Wire(m), rest);
    SettledStays(limits, Run(limits, s, Wire(m)), rest);
  }

  /** A settled decoder has seen its last offset. */
  lemma SettledFreezes(limits: Limits, s: State, a: string, b: string)
    requires Run(limits, s, a).Settled()
    ensures Run(limits, s, a + b) == Run(limits, s, a)
  {
    RunConcat(limits, s, a, b);
    SettledStays(limits, Run(limits, s, a), b);
  }

  /** Being settled within the message would freeze the offset short of its end. */
  lemma UnsettledWithin(limits: Limits, head: Head, m: Message, n: nat)
    requires head.chunked && head.contentLength == 0 && Acceptable(limits, head.consumedBytes, m)
    requires n < |Wire(m)|
    ensures !Run(limits, Start(limits, head), Wire(m)[..n]).Settled()
  {
    var s, wire := Start(limits, head), Wire(m);
    DecodesMessage(limits, head, m, "");
    assert wire + "" == wire && wire == wire[..n] + wire[n..];
    RunOffset(limits, s, wire[..n]);
    if Run(limits, s, wire[..n]).Settled() {
      SettledFreezes(limits, s, wire[..n], wire[n..]);
      assert false;
    }
  }

  /** No proper prefix of a message is complete, none fails, and end of input there is rejected. */
  lemma ProperPrefixIsIncomplete(limits: Limits, head: Head, m: Message, n: nat)
    requires head.chunked && head.contentLength == 0 && Acceptable(limits, head.consumedBytes, m)
    requires n < |Wire(m)|
    ensures var t := Run(limits, Start(limits, head), Wire(m)[..n]);
            && !t.Settled() && t.offset == head.consumedBytes + n
            && Finish(t) == Failed(ParseError(IncompleteBody, head.consumedBytes + n))
  {
    UnsettledWithin(limits, head, m, n);
    RunOffset(limits, Start(limits, head), Wire(m)[..n]);
  }

  // ---------------------------------------------------------------- a sender's encoding

  /** A body that was cut into `parts`, each announced by its size. */
  function Encode(parts: seq<string>, sizes: seq<string>): Message
    requires |sizes| == |parts|
  {
    Message(seq(|parts|, i requires 0 <= i < |parts| => Chunk(sizes[i], "", parts[i])), "0", "", [])
  }

  lemma EncodeLast(parts: seq<string>, sizes: seq<string>)
    requires |sizes| == |parts| && parts != []
    ensures var n := |parts| - 1;
      Encode(parts, sizes).chunks == Encode(parts[..n], sizes[..n]).chunks + [Chunk(sizes[n], "", parts[n])]
  {
  }

  lemma PayloadsSnoc(cs: seq<Chunk>, c: Chunk)
    ensures Payloads(cs + [c]) == Payloads(cs) + c.data
  {
    assert (cs + [c])[..|cs|] == cs;
  }

  lemma {:induction false} EncodedBody(parts: seq<string>, sizes: seq<string>)
    requires |sizes| == |parts|
    ensures Body(Encode(parts, sizes)) == Join(parts)
    decreases |parts|
  {
    if parts != [] {
      var n := |parts| - 1;
      EncodedBody(parts[..n], sizes[..n]);
      EncodeLast(parts, sizes);
      PayloadsSnoc(Encode(parts[..n], sizes[..n]).chunks, Chunk(sizes[n], "", parts[n]));
    }
  }

  lemma {:induction false} PartsFit(parts: seq<string>, i: nat)
    requires i < |parts|
    ensures |parts[i]| <= |Join(parts)|
    decreases |parts|
  {
    if i < |parts| - 1 {
      PartsFit(parts[..|parts| - 1], i);
    }
  }

  /**
   For any body, any partition into nonempty chunks, any way of writing their sizes and any bytes that
   follow: decoding the chunked encoding returns the body and consumes exactly the encoding.
   */
  lemma EncodingDecodes(limits: Limits, head: Head, parts: seq<string>, sizes: seq<string>, rest: string)
    requires head.chunked && head.contentLength == 0 && |sizes| == |parts|
    requires forall i :: 0 <= i < |parts| ==> parts[i] != "" && Denotes(Hexadecimal, sizes[i], |parts[i]|)
    requires forall i :: 0 <= i < |parts| ==> |sizes[i]| <= limits.maxChunkLineBytes
    requires 1 <= limits.maxChunkLineBytes && 2 <= limits.maxTrailerBytes
    requires |Join(parts)| <= limits.maxBodyBytes
    requires |Wire(Encode(parts, sizes))| - |Join(parts)| <= limits.maxChunkMetadataBytes
    requires head.consumedBytes + |Wire(Encode(parts, sizes))| <= SIZE_MAX
    ensures var t := Run(limits, Start(limits, head), Wire(Encode(parts, sizes)) + rest);
            t.Complete() && t.offset == head.consumedBytes + |Wire(Encode(parts, sizes))|
    ensures Output(limits, Start(limits, head), Wire(Encode(parts, sizes)) + rest) == Join(parts)
  {
    EncodedBody(parts, sizes);
    EncodedLength(Encode(parts, sizes));
    EncodedChunksOk(limits, parts, sizes);
    DecodesMessage(limits, head, Encode(parts, sizes), rest);
  }

  lemma EncodedChunksOk(limits: Limits, parts: seq<string>, sizes: seq<string>)
    requires |sizes| == |parts| && |Join(parts)| <= SIZE_MAX
    requires forall i :: 0 <= i < |parts| ==> parts[i] != "" && Denotes(Hexadecimal, sizes[i], |parts[i]|)
    requires forall i :: 0 <= i < |parts| ==> |sizes[i]| <= limits.maxChunkLineBytes
    ensures ChunksOk(limits, Encode(parts, sizes).chunks) && IsSize("0", 0)
  {
    forall i | 0 <= i < |parts| ensures IsSize(sizes[i], |parts[i]|) {
      PartsFit(parts, i);
      SizeIsWritten(sizes[i], |parts[i]|);
    }
    ZeroIsSize();
  }

  lemma ZeroIsSize()
    ensures IsSize("0", 0)
  {
    assert LowerAll("0") == Zeros(0) + Printed(Hexadecimal, 0);
    SizeIsWritten("0", 0);
  }

  lemma EncodedLength(m: Message)
    ensures |Wire(m)| == Framing(m.chunks) + |Body(m)| + |LastLine(m)| + |WireTrailers(m.trailers)| + 2
  {
  }
}
