/**
 The decoder accepts nothing else: whatever input completes it starts with the wire form of an
 acceptable message, and its output is that message's body.  The proof carries along what the bytes
 consumed so far have been read as.
 */
module ChunkedAcceptance {
  import opened Basics
  import opened HttpSyntax
  import opened ChunkGrammar
  import opened BodyDecoderSpec
  import opened ChunkedMessage

  /** The complete parts read so far, and the chunk that is being read. */
  datatype Reading = Reading(message: Message, current: Chunk)

  function Pending(s: State): string
    requires s.Live?
  {
    s.line + if s.lineCr then "\r" else ""
  }

  function Opening(c: Chunk): string {
    c.size + c.extension + CRLF + c.data
  }

  /** The text that a decoder in state `s` has consumed, if `r` is how it was read. */
  function Text(s: State, r: Reading): string
    requires s.Live?
  {
    var m := r.message;
    match s.phase
    case SizeLine => WireChunks(m.chunks) + Pending(s)
    case Data => WireChunks(m.chunks) + Opening(r.current)
    case DataCr => WireChunks(m.chunks) + Opening(r.current)
    case DataLf => WireChunks(m.chunks) + Opening(r.current) + "\r"
    case Trailers => WireChunks(m.chunks) + LastLine(m) + (WireTrailers(m.trailers) + Pending(s))
    case Done => Wire(m)
  }

  function Decoded(s: State, r: Reading): string
    requires s.Live?
  {
    Payloads(r.message.chunks) + if s.phase in {Data, DataCr, DataLf} then r.current.data else ""
  }

  predicate LastOk(limits: Limits, m: Message) {
    && IsSize(m.lastSize, 0) && ValidExtensions(m.lastExtension)
    && |m.lastSize| + |m.lastExtension| <= limits.maxChunkLineBytes
    && TrailersOk(m.trailers)
  }

  /** Every complete part of the reading is well formed, and the counters agree with it. */
  predicate Sound(limits: Limits, s: State, r: Reading)
    requires s.Live?
  {
    && ChunksOk(limits, r.message.chunks)
    && match s.phase
       case SizeLine => s.trailerBytes == s.trailerCount == 0
       case Data =>
         && s.trailerBytes == s.trailerCount == 0
         && IsSize(r.current.size, |r.current.data| + s.remaining) && ValidExtensions(r.current.extension)
         && |r.current.size| + |r.current.extension| <= limits.maxChunkLineBytes
       case Trailers =>
         && LastOk(limits, r.message) && s.trailerCount == |r.message.trailers|
         && s.trailerBytes == |WireTrailers(r.message.trailers)| + |Pending(s)|
       case Done =>
         && LastOk(limits, r.message) && s.trailerCount == |r.message.trailers|
         && s.trailerBytes == |WireTrailers(r.message.trailers)| + 2
       case _ => s.trailerBytes == s.trailerCount == 0 && ChunkOk(limits, r.current)
  }

  ghost predicate Explains(limits: Limits, head: Head, s: State, r: Reading, consumed: string, output: string) {
    && s.Live? && head.chunked && Budgeted(limits, head, s)
    && Sound(limits, s, r) && consumed == Text(s, r) && output == Decoded(s, r)
  }

  lemma ChunkSizeParts(line: string, value: nat) returns (size: string, extension: string)
    requires ChunkSize(line) == Some(value)
    ensures line == size + extension && IsSize(size, value) && ValidExtensions(extension)
  {
    size, extension := line[..HexPrefix(line)], line[HexPrefix(line)..];
  }

  /** What the line feed of a size line does to the decoder. */
  lemma SizeLineState(limits: Limits, s: State)
    requires s.Live? && s.phase == SizeLine && s.lineCr && Step(limits, s, '\n').Live?
    ensures var t := Step(limits, s, '\n');
      && ChunkSize(s.line) == Some(t.remaining) && t.phase == (if t.remaining == 0 then Trailers else Data)
      && t.line == "" && !t.lineCr && t.trailerBytes == s.trailerBytes && t.trailerCount == s.trailerCount
  {
  }

  lemma SizeLineText(front: string, size: string, extension: string)
    ensures front + (size + extension + "\r") + "\n" == front + (size + extension + CRLF)
    ensures front + (size + extension + CRLF) == front + (size + extension + CRLF + "")
    ensures front + (size + extension + CRLF) == front + (size + extension + CRLF) + ("" + "")
  {
    assert (size + extension + "\r") + "\n" == size + extension + CRLF;
    assert size + extension + CRLF + "" == size + extension + CRLF;
  }

  /** A completed size line opens a chunk, or is the last one. */
  lemma SizeLineRead(limits: Limits, head: Head, s: State, r: Reading, consumed: string, output: string)
      returns (r': Reading)
    requires Explains(limits, head, s, r, consumed, output) && s.phase == SizeLine && s.lineCr
    requires Step(limits, s, '\n').Live?
    ensures Explains(limits, head, Step(limits, s, '\n'), r', consumed + "\n", output)
  {
    SizeLineState(limits, s);
    var remaining := Step(limits, s, '\n').remaining;
    var size, extension := ChunkSizeParts(s.line, remaining);
    if remaining == 0 {
      LastSizeRead(limits, head, s, r, consumed, output, size, extension);
      r' := r.(message := Message(r.message.chunks, size, extension, []));
    } else {
      ChunkSizeRead(limits, head, s, r, consumed, output, size, extension);
      r' := r.(current := Chunk(size, extension, ""));
    }
  }

  lemma LastSizeRead(
      limits: Limits, head: Head, s: State, r: Reading, consumed: string, output: string,
      size: string, extension: string)
    requires Explains(limits, head, s, r, consumed, output) && s.phase == SizeLine && s.lineCr
    requires Step(limits, s, '\n').Live? && Step(limits, s, '\n').remaining == 0
    requires s.line == size + extension && IsSize(size, 0) && ValidExtensions(extension)
    ensures Explains(limits, head, Step(limits, s, '\n'), r.(message := Message(r.message.chunks, size, extension, [])),
                     consumed + "\n", output)
  {
    SizeLineState(limits, s);
    StepBudgeted(limits, head, s, '\n');
    SizeLineText(WireChunks(r.message.chunks), size, extension);
  }

  lemma ChunkSizeRead(
      limits: Limits, head: Head, s: State, r: Reading, consumed: string, output: string,
      size: string, extension: string)
    requires Explains(limits, head, s, r, consumed, output) && s.phase == SizeLine && s.lineCr
    requires Step(limits, s, '\n').Live? && Step(limits, s, '\n').remaining > 0
    requires s.line == size + extension && IsSize(size, Step(limits, s, '\n').remaining) && ValidExtensions(extension)
    ensures Explains(limits, head, Step(limits, s, '\n'), r.(current := Chunk(size, extension, "")),
                     consumed + "\n", output)
  {
    SizeLineState(limits, s);
    StepBudgeted(limits, head, s, '\n');
    SizeLineText(WireChunks(r.message.chunks), size, extension);
  }

  /** A line completed by its line feed, after whatever came before it. */
  lemma LineClosed(front: string, before: string, line: string)
    ensures front + (before + (line + "\r")) + "\n" == front + (before + (line + CRLF))
  {
    assert (line + "\r") + "\n" == line + CRLF;
    assert front + (before + (line + "\r")) + "\n" == front + (before + ((line + "\r") + "\n"));
  }

  lemma TrailersSnoc(trailers: seq<string>, line: string)
    ensures WireTrailers(trailers + [line]) == WireTrailers(trailers) + (line + CRLF)
  {
    assert (trailers + [line])[..|trailers|] == trailers;
    assert WireTrailers(trailers) + line + CRLF == WireTrailers(trailers) + (line + CRLF);
  }

  lemma BlankTrailerText(m: Message)
    ensures WireChunks(m.chunks) + LastLine(m) + (WireTrailers(m.trailers) + ("" + "\r")) + "\n" == Wire(m)
  {
    LineClosed(WireChunks(m.chunks) + LastLine(m), WireTrailers(m.trailers), "");
    assert "" + CRLF == CRLF;
  }

  /** The blank line after the trailers completes the message. */
  lemma BlankTrailerState(limits: Limits, s: State)
    requires s.Live? && s.phase == Trailers && s.lineCr && s.line == "" && Step(limits, s, '\n').Live?
    ensures var t := Step(limits, s, '\n');
      t.phase == Done && t.trailerCount == s.trailerCount && t.trailerBytes == s.trailerBytes + 1
  {
  }

  lemma BlankTrailerRead(limits: Limits, head: Head, s: State, r: Reading, consumed: string, output: string)
    requires Explains(limits, head, s, r, consumed, output) && s.phase == Trailers && s.lineCr && s.line == ""
    requires Step(limits, s, '\n').Live?
    ensures Explains(limits, head, Step(limits, s, '\n'), r, consumed + "\n", output)
  {
    StepBudgeted(limits, head, s, '\n');
    BlankTrailerState(limits, s);
    BlankTrailerText(r.message);
  }

  lemma FieldTrailerRead(limits: Limits, head: Head, s: State, r: Reading, consumed: string, output: string)
      returns (r': Reading)
    requires Explains(limits, head, s, r, consumed, output) && s.phase == Trailers && s.lineCr && s.line != ""
    requires Step(limits, s, '\n').Live?
    ensures Explains(limits, head, Step(limits, s, '\n'), r', consumed + "\n", output)
  {
    StepBudgeted(limits, head, s, '\n');
    var m := r.message;
    r' := Reading(Message(m.chunks, m.lastSize, m.lastExtension, m.trailers + [s.line]), r.current);
    FieldTrailerText(m, s.line);
    FieldTrailerState(limits, s);
  }

  lemma FieldTrailerText(m: Message, line: string)
    ensures var front := WireChunks(m.chunks) + LastLine(m);
      front + (WireTrailers(m.trailers) + (line + "\r")) + "\n" == front + (WireTrailers(m.trailers + [line]) + "")
  {
    TrailersSnoc(m.trailers, line);
    LineClosed(WireChunks(m.chunks) + LastLine(m), WireTrailers(m.trailers), line);
    assert WireTrailers(m.trailers + [line]) + "" == WireTrailers(m.trailers + [line]);
  }

  /** What the closing line feed of a trailer field does to the decoder. */
  lemma FieldTrailerState(limits: Limits, s: State)
    requires s.Live? && s.phase == Trailers && s.lineCr && s.line != "" && Step(limits, s, '\n').Live?
    ensures var t := Step(limits, s, '\n');
      && t.phase == Trailers && t.line == "" && !t.lineCr && ValidTrailer(s.line)
      && t.trailerCount == s.trailerCount + 1 && t.trailerBytes == s.trailerBytes + 1
  {
  }

  lemma TrailerRead(limits: Limits, head: Head, s: State, r: Reading, consumed: string, output: string)
      returns (r': Reading)
    requires Explains(limits, head, s, r, consumed, output) && s.phase == Trailers && s.lineCr
    requires Step(limits, s, '\n').Live?
    ensures Explains(limits, head, Step(limits, s, '\n'), r', consumed + "\n", output)
  {
    if s.line == "" {
      BlankTrailerRead(limits, head, s, r, consumed, output);
      r' := r;
    } else {
      r' := FieldTrailerRead(limits, head, s, r, consumed, output);
    }
  }

  /** One more byte of a line that is not complete. */
  lemma LineGrowsState(limits: Limits, s: State, byte: char)
    requires s.Live? && s.phase in {SizeLine, Trailers} && !s.lineCr && Step(limits, s, byte).Live?
    ensures var t := Step(limits, s, byte);
      && t.phase == s.phase && Pending(t) == Pending(s) + [byte] && t.trailerCount == s.trailerCount
      && t.trailerBytes == s.trailerBytes + if s.phase == Trailers then 1 else 0
  {
  }

  lemma LineGrowsText(front: string, before: string, pending: string, byte: char)
    ensures front + (before + pending) + [byte] == front + (before + (pending + [byte]))
    ensures front + pending + [byte] == front + (pending + [byte])
  {
  }

  lemma SizeLineGrows(limits: Limits, head: Head, s: State, r: Reading, consumed: string, output: string, byte: char)
    requires Explains(limits, head, s, r, consumed, output) && s.phase == SizeLine && !s.lineCr
    requires Step(limits, s, byte).Live?
    ensures Explains(limits, head, Step(limits, s, byte), r, consumed + [byte], output)
  {
    StepBudgeted(limits, head, s, byte);
    LineGrowsState(limits, s, byte);
    LineGrowsText(WireChunks(r.message.chunks), "", Pending(s), byte);
  }

  lemma TrailerLineGrows(limits: Limits, head: Head, s: State, r: Reading, consumed: string, output: string, byte: char)
    requires Explains(limits, head, s, r, consumed, output) && s.phase == Trailers && !s.lineCr
    requires Step(limits, s, byte).Live?
    ensures Explains(limits, head, Step(limits, s, byte), r, consumed + [byte], output)
  {
    var m := r.message;
    StepBudgeted(limits, head, s, byte);
    LineGrowsState(limits, s, byte);
    LineGrowsText(WireChunks(m.chunks) + LastLine(m), WireTrailers(m.trailers), Pending(s), byte);
  }

  lemma PayloadRead(limits: Limits, head: Head, s: State, r: Reading, consumed: string, output: string, byte: char)
      returns (r': Reading)
    requires Explains(limits, head, s, r, consumed, output) && s.phase == Data && Step(limits, s, byte).Live?
    ensures Explains(limits, head, Step(limits, s, byte), r', consumed + [byte], output + [byte])
  {
    StepBudgeted(limits, head, s, byte);
    r' := r.(current := r.current.(data := r.current.data + [byte]));
    assert consumed + [byte] == WireChunks(r.message.chunks) + Opening(r'.current);
    assert output + [byte] == Payloads(r.message.chunks) + r'.current.data;
  }

  lemma ChunkCrRead(limits: Limits, head: Head, s: State, r: Reading, consumed: string, output: string, byte: char)
    requires Explains(limits, head, s, r, consumed, output) && s.phase == DataCr && Step(limits, s, byte).Live?
    ensures Explains(limits, head, Step(limits, s, byte), r, consumed + [byte], output)
  {
    StepBudgeted(limits, head, s, byte);
    ChunkEndState(limits, s, byte);
  }

  /** What the two bytes after a chunk's payload do to the decoder. */
  lemma ChunkEndState(limits: Limits, s: State, byte: char)
    requires s.Live? && s.phase in {DataCr, DataLf} && Step(limits, s, byte).Live?
    ensures byte == if s.phase == DataCr then '\r' else '\n'
    ensures Step(limits, s, byte) == s.(phase := if s.phase == DataCr then DataLf else SizeLine,
                                        metadataBytes := s.metadataBytes + 1, offset := s.offset + 1)
  {
  }

  lemma ChunkEndText(cs: seq<Chunk>, c: Chunk)
    ensures WireChunks(cs) + Opening(c) + "\r" + "\n" == WireChunks(cs + [c]) + ""
    ensures Payloads(cs) + c.data == Payloads(cs + [c]) + ""
  {
    assert (cs + [c])[..|cs|] == cs;
    assert Opening(c) + "\r" + "\n" == WireChunk(c);
    assert WireChunks(cs) + Opening(c) + "\r" + "\n" == WireChunks(cs) + (Opening(c) + "\r" + "\n");
  }

  lemma ChunksSnocOk(limits: Limits, cs: seq<Chunk>, c: Chunk)
    requires ChunksOk(limits, cs) && ChunkOk(limits, c)
    ensures ChunksOk(limits, cs + [c])
  {
  }

  lemma ChunkLfRead(limits: Limits, head: Head, s: State, r: Reading, consumed: string, output: string, byte: char)
      returns (r': Reading)
    requires Explains(limits, head, s, r, consumed, output) && s.phase == DataLf && Step(limits, s, byte).Live?
    ensures Explains(limits, head, Step(limits, s, byte), r', consumed + [byte], output)
  {
    var m := r.message;
    StepBudgeted(limits, head, s, byte);
    ChunkEndState(limits, s, byte);
    ChunkEndText(m.chunks, r.current);
    ChunksSnocOk(limits, m.chunks, r.current);
    r' := Reading(Message(m.chunks + [r.current], m.lastSize, m.lastExtension, m.trailers), r.current);
    LineIsEmpty(limits, head, s);
  }

  /** Between lines nothing is pending. */
  lemma LineIsEmpty(limits: Limits, head: Head, s: State)
    requires Budgeted(limits, head, s) && s.Live? && s.phase in {Data, DataCr, DataLf}
    ensures Pending(s) == ""
  {
  }

  /** One byte of a line. */
  lemma LineByteRead(limits: Limits, head: Head, s: State, r: Reading, consumed: string, output: string, byte: char)
      returns (r': Reading)
    requires Explains(limits, head, s, r, consumed, output) && s.phase in {SizeLine, Trailers}
    requires Step(limits, s, byte).Live?
    ensures Explains(limits, head, Step(limits, s, byte), r', consumed + [byte], output)
  {
    ClosingByte(limits, s, byte);
    if s.phase == SizeLine && s.lineCr {
      r' := SizeLineRead(limits, head, s, r, consumed, output);
    } else if s.lineCr {
      r' := TrailerRead(limits, head, s, r, consumed, output);
    } else if s.phase == SizeLine {
      SizeLineGrows(limits, head, s, r, consumed, output, byte);
      r' := r;
    } else {
      TrailerLineGrows(limits, head, s, r, consumed, output, byte);
      r' := r;
    }
  }

  /** After a carriage return only a line feed keeps a line alive. */
  lemma ClosingByte(limits: Limits, s: State, byte: char)
    requires s.Live? && s.phase in {SizeLine, Trailers} && Step(limits, s, byte).Live?
    ensures s.lineCr ==> byte == '\n'
  {
  }

  /** One consumed byte keeps the explanation. */
  lemma ByteRead(limits: Limits, head: Head, s: State, r: Reading, consumed: string, output: string, byte: char)
      returns (r': Reading)
    requires Explains(limits, head, s, r, consumed, output) && !s.Settled() && Step(limits, s, byte).Live?
    ensures Explains(limits, head, Step(limits, s, byte), r', consumed + [byte], output + Emitted(s, byte))
  {
    if s.phase == Data {
      EmitsPayload(limits, head, s, byte);
      r' := PayloadRead(limits, head, s, r, consumed, output, byte);
    } else {
      assert output + Emitted(s, byte) == output;
      if s.phase == DataCr {
        ChunkCrRead(limits, head, s, r, consumed, output, byte);
        r' := r;
      } else if s.phase == DataLf {
        r' := ChunkLfRead(limits, head, s, r, consumed, output, byte);
      } else {
        r' := LineByteRead(limits, head, s, r, consumed, output, byte);
      }
    }
  }

  lemma EmitsPayload(limits: Limits, head: Head, s: State, byte: char)
    requires Budgeted(limits, head, s) && s.Live? && s.phase == Data && Step(limits, s, byte).Live?
    ensures Emitted(s, byte) == [byte]
  {
  }

  /** What every consumed byte keeps holds after the whole run, for the part of the wire that was consumed. */
  lemma {:induction false} RunInduction(
      limits: Limits, P: (State, string, string) -> bool, s: State, consumed: string, output: string, wire: string)
      returns (n: nat)
    requires forall s: State, c, o, b :: P(s, c, o) && !s.Settled() && Step(limits, s, b).Live? ==>
               P(Step(limits, s, b), c + [b], o + Emitted(s, b))
    requires P(s, consumed, output) && Run(limits, s, wire).Live?
    ensures n <= |wire| && Run(limits, s, wire).Offset() == s.Offset() + n
    ensures P(Run(limits, s, wire), consumed + wire[..n], output + Output(limits, s, wire))
    decreases |wire|
  {
    if wire == "" || s.Settled() {
      SettledOrEmpty(limits, s, wire);
      n := 0;
      assert consumed + wire[..0] == consumed && output + "" == output;
    } else {
      var t := Step(limits, s, wire[0]);
      StepOffset(limits, s, wire[0]);
      SettledOrEmpty(limits, t, if t.Failed? then wire[1..] else "");
      n := RunInduction(limits, P, t, consumed + [wire[0]], output + Emitted(s, wire[0]), wire[1..]);
      assert (consumed + [wire[0]]) + wire[1..][..n] == consumed + wire[..n + 1];
      assert output + Output(limits, s, wire) == (output + Emitted(s, wire[0])) + Output(limits, t, wire[1..]);
      n := n + 1;
    }
  }

  lemma SettledOrEmpty(limits: Limits, s: State, wire: string)
    requires wire == "" || s.Settled()
    ensures Run(limits, s, wire) == s && Output(limits, s, wire) == ""
  {
    if s.Settled() {
      SettledStays(limits, s, wire);
    }
  }

  ghost predicate Explained(limits: Limits, head: Head, s: State, consumed: string, output: string) {
    exists r :: Explains(limits, head, s, r, consumed, output)
  }

  lemma StartExplained(limits: Limits, head: Head)
    requires head.chunked && head.contentLength == 0 && head.consumedBytes <= SIZE_MAX
    ensures Explained(limits, head, Start(limits, head), "", "")
  {
    var s, r := Start(limits, head), Reading(Message([], "", "", []), Chunk("", "", ""));
    assert Text(s, r) == "" && Decoded(s, r) == "";
    assert Explains(limits, head, s, r, "", "");
  }

  lemma StepExplained(limits: Limits, head: Head, s: State, consumed: string, output: string, byte: char)
    requires Explained(limits, head, s, consumed, output) && !s.Settled() && Step(limits, s, byte).Live?
    ensures Explained(limits, head, Step(limits, s, byte), consumed + [byte], output + Emitted(s, byte))
  {
    var r :| Explains(limits, head, s, r, consumed, output);
    var r' := ByteRead(limits, head, s, r, consumed, output, byte);
  }

  lemma RunExplained(limits: Limits, head: Head, wire: string) returns (n: nat)
    requires head.chunked && head.contentLength == 0 && head.consumedBytes <= SIZE_MAX
    requires Run(limits, Start(limits, head), wire).Live?
    ensures n <= |wire| && Run(limits, Start(limits, head), wire).Offset() == head.consumedBytes + n
    ensures Explained(limits, head, Run(limits, Start(limits, head), wire), wire[..n],
                      Output(limits, Start(limits, head), wire))
  {
    var P := (s, c, o) => Explained(limits, head, s, c, o);
    StartExplained(limits, head);
    forall s: State, c, o, b | P(s, c, o) && !s.Settled() && Step(limits, s, b).Live?
      ensures P(Step(limits, s, b), c + [b], o + Emitted(s, b))
    {
      StepExplained(limits, head, s, c, o, b);
    }
    n := RunInduction(limits, P, Start(limits, head), "", "", wire);
    assert "" + wire[..n] == wire[..n];
    assert "" + Output(limits, Start(limits, head), wire) == Output(limits, Start(limits, head), wire);
  }

  /** Completion proves that an acceptable message was read, and which one. */
  lemma CompletionIsMessage(limits: Limits, head: Head, wire: string) returns (m: Message)
    requires head.chunked && head.contentLength == 0 && head.consumedBytes <= SIZE_MAX
    requires Run(limits, Start(limits, head), wire).Complete()
    ensures Acceptable(limits, head.consumedBytes, m) && Wire(m) <= wire
    ensures Output(limits, Start(limits, head), wire) == Body(m)
  {
    var n := RunExplained(limits, head, wire);
    var t, output := Run(limits, Start(limits, head), wire), Output(limits, Start(limits, head), wire);
    var r :| Explains(limits, head, t, r, wire[..n], output);
    m := r.message;
    assert Decoded(t, r) == Body(m);
    DecodedLength(limits, Start(limits, head), wire);
    assert |Wire(m)| == n;
  }

  lemma {:induction false} DecodedLength(limits: Limits, s: State, wire: string)
    requires s.Live? && Run(limits, s, wire).Live?
    ensures Run(limits, s, wire).decoded == s.decoded + |Output(limits, s, wire)|
    decreases |wire|
  {
    if wire != "" {
      var t := Step(limits, s, wire[0]);
      if t.Failed? {
        SettledStays(limits, t, wire[1..]);
      } else {
        assert t.decoded == s.decoded + |Emitted(s, wire[0])|;
        DecodedLength(limits, t, wire[1..]);
      }
    }
  }

  /**
   The decoder completes on exactly those inputs that start with an acceptable message; that message
   is its output.
   */
  lemma AcceptsExactlyMessages(limits: Limits, head: Head, wire: string)
    requires head.chunked && head.contentLength == 0 && head.consumedBytes <= SIZE_MAX
    ensures Run(limits, Start(limits, head), wire).Complete() <==>
            exists m :: Acceptable(limits, head.consumedBytes, m) && Wire(m) <= wire
    ensures forall m :: Acceptable(limits, head.consumedBytes, m) && Wire(m) <= wire ==>
              && Output(limits, Start(limits, head), wire) == Body(m)
              && Run(limits, Start(limits, head), wire).Offset() == head.consumedBytes + |Wire(m)|
  {
    if Run(limits, Start(limits, head), wire).Complete() {
      var m := CompletionIsMessage(limits, head, wire);
    }
    forall m | Acceptable(limits, head.consumedBytes, m) && Wire(m) <= wire
      ensures Run(limits, Start(limits, head), wire).Complete()
      ensures Output(limits, Start(limits, head), wire) == Body(m)
      ensures Run(limits, Start(limits, head), wire).Offset() == head.consumedBytes + |Wire(m)|
    {
      DecodesMessage(limits, head, m, wire[|Wire(m)|..]);
      assert Wire(m) + wire[|Wire(m)|..] == wire;
    }
  }
}
