/**
 `HttpBodyDecoder`: the incremental decoder with its in-place fields.  Each method is proved against
 the one-shot meaning; the assertions mark the places where the program subtracts or adds machine
 words without checking.
 */
module BodyDecoder {
  import opened Basics
  import opened HttpSyntax
  import opened ChunkGrammar
  import opened BodyDecoderSpec

  class HttpBodyDecoder {
    const limits: Limits
    const chunked: bool
    ghost const head: Head
    var phase: Phase
    var remaining: nat
    var decoded: nat
    var offset: nat
    var metadataBytes: nat
    var trailerBytes: nat
    var trailerCount: nat
    var line: string
    var lineCr: bool
    var failure: Option<ParseError>

    ghost function State(): State
      reads this
    {
      if failure.Some? then Failed(failure.value)
      else Live(phase, chunked, remaining, decoded, offset, metadataBytes, trailerBytes, trailerCount, line, lineCr)
    }

    ghost predicate Valid()
      reads this
    {
      Budgeted(limits, head, State())
    }

    constructor (head: Head, limits: Limits)
      requires head.consumedBytes <= SIZE_MAX
      ensures Valid() && this.limits == limits && this.head == head
      ensures State() == Start(limits, head)
    {
      this.limits := limits;
      this.head := head;
      chunked := head.chunked;
      phase := if head.chunked then SizeLine else if head.contentLength == 0 then Done else Data;
      remaining, decoded, offset := head.contentLength, 0, head.consumedBytes;
      metadataBytes, trailerBytes, trailerCount, line, lineCr := 0, 0, 0, "", false;
      failure := None;
      if !head.chunked && head.contentLength > limits.maxBodyBytes {
        failure := Some(ParseError(BodyTooLarge, head.consumedBytes));
      }
    }

    method Complete() returns (complete: bool)
      ensures complete == State().Complete()
    {
      complete := phase == Done && failure.None?;
    }

    /** Rejects end of input in every incomplete state, and stays rejected. */
    method Finish() returns (r: Result<(), ParseError>)
      requires Valid()
      modifies this`failure
      ensures Valid() && State() == BodyDecoderSpec.Finish(old(State()))
      ensures r == if State().Failed? then Err(State().error) else Ok(())
      ensures r.Ok? <==> old(State()).Complete()
    {
      if failure.Some? {
        return Err(failure.value);
      }
      if phase != Done {
        failure := Some(ParseError(IncompleteBody, offset));
        return Err(failure.value);
      }
      return Ok(());
    }

    method FinishLine() returns (r: Result<(), ErrorCode>)
      requires failure.None? && decoded <= limits.maxBodyBytes
      modifies this`phase, this`remaining, this`trailerCount
      ensures r.Ok? ==> State() == BodyDecoderSpec.FinishLine(limits, old(State()))
      ensures r.Err? ==> Fail(old(State()), r.error) == BodyDecoderSpec.FinishLine(limits, old(State()))
    {
      if phase == Trailers {
        if line == "" {
          phase := Done;
          return Ok(());
        }
        if trailerCount >= limits.maxTrailerCount {
          return Err(TrailersTooLarge);
        }
        trailerCount := trailerCount + 1;
        if !ValidTrailer(line) {
          return Err(InvalidTrailer);
        }
        return Ok(());
      }
      var digits := HexPrefix(line);
      if digits == 0 || HexValue(line[..digits]) > SIZE_MAX {
        return Err(MalformedChunk);
      }
      var size := HexValue(line[..digits]);
      var valid := CheckExtensions(line[digits..]);
      if !valid {
        return Err(MalformedChunk);
      }
      assert decoded <= limits.maxBodyBytes;
      if size > limits.maxBodyBytes - decoded {
        return Err(BodyTooLarge);
      }
      remaining := size;
      phase := if size == 0 then Trailers else Data;
      return Ok(());
    }

    method Metadata(byte: char) returns (r: Result<(), ErrorCode>)
      requires Valid() && failure.None? && phase != Done && phase != Data
      modifies this`phase, this`remaining, this`metadataBytes, this`trailerBytes, this`trailerCount
      modifies this`line, this`lineCr
      ensures r.Ok? ==> State() == BodyDecoderSpec.Metadata(limits, old(State()), byte)
      ensures r.Err? ==> Fail(old(State()), r.error) == BodyDecoderSpec.Metadata(limits, old(State()), byte)
    {
      if metadataBytes >= limits.maxChunkMetadataBytes {
        return Err(ChunkMetadataTooLarge);
      }
      metadataBytes := metadataBytes + 1;
      if phase == DataCr || phase == DataLf {
        var needsCr := phase == DataCr;
        if byte != (if needsCr then '\r' else '\n') {
          return Err(MalformedChunk);
        }
        phase := if needsCr then DataLf else SizeLine;
        return Ok(());
      }
      if phase == Trailers {
        if trailerBytes >= limits.maxTrailerBytes {
          return Err(TrailersTooLarge);
        }
        trailerBytes := trailerBytes + 1;
      }
      r := LineByte(byte);
    }

    /** The part of `metadata` that builds up a line and finishes it, after every budget was charged. */
    method LineByte(byte: char) returns (r: Result<(), ErrorCode>)
      requires failure.None? && decoded <= limits.maxBodyBytes && (phase == SizeLine || phase == Trailers)
      modifies this`phase, this`remaining, this`trailerCount, this`line, this`lineCr
      ensures r.Ok? ==> State() == BodyDecoderSpec.LineByte(limits, old(State()), byte)
      ensures r.Err? ==> Fail(old(State()), r.error) == BodyDecoderSpec.LineByte(limits, old(State()), byte)
    {
      if lineCr {
        if byte != '\n' {
          return Err(MalformedChunk);
        }
        r := FinishLine();
        line := "";
        lineCr := false;
        return;
      }
      if byte == '\r' {
        lineCr := true;
        return Ok(());
      }
      if byte == '\n' {
        return Err(MalformedChunk);
      }
      var limit := if phase == Trailers then limits.maxTrailerBytes else limits.maxChunkLineBytes;
      if |line| >= limit {
        return Err(ChunkMetadataTooLarge);
      }
      line := line + [byte];
      return Ok(());
    }

    static method CopyBlock(input: string, from: nat, output: array<char>, to: nat, count: nat)
      requires from + count <= |input| && to + count <= output.Length
      modifies output
      ensures output[..to] == old(output[..to])
      ensures output[to..to + count] == input[from..from + count]
    {
      for i := 0 to count
        invariant output[..to] == old(output[..to])
        invariant output[to..to + i] == input[from..from + i]
      {
        output[to + i] := input[from + i];
      }
    }

    /** Copies as many payload bytes as the chunk, the input, the output and the offset allow. */
    method CopyData(input: string, output: array<char>, consumed: nat, produced: nat) returns (count: nat)
      requires Valid() && failure.None? && phase == Data
      requires consumed < |input| && produced < output.Length && offset < SIZE_MAX
      modifies this`remaining, this`decoded, this`offset, this`phase, output
      ensures 0 < count <= |input| - consumed && count <= output.Length - produced
      ensures Valid() && failure.None? && offset == old(offset) + count
      ensures State() == Run(limits, old(State()), input[consumed..consumed + count])
      ensures output[..produced] == old(output[..produced])
      ensures output[produced..produced + count] == Output(limits, old(State()), input[consumed..consumed + count])
    {
      assert offset <= SIZE_MAX;
      count := Min(Min(remaining, |input| - consumed), Min(output.Length - produced, SIZE_MAX - offset));
      ghost var block := input[consumed..consumed + count];
      PayloadRun(limits, State(), block);
      CopyBlock(input, consumed, output, produced, count);
      Advance(count);
    }

    /** Charges copied payload bytes to the chunk, the body and the offset. */
    method Advance(count: nat)
      requires Valid() && failure.None? && phase == Data && 0 < count <= remaining && offset + count <= SIZE_MAX
      modifies this`remaining, this`decoded, this`offset, this`phase
      ensures Valid() && failure.None? && offset == old(offset) + count
      ensures State() == Payload(old(State()), count)
    {
      remaining := remaining - count;
      decoded := decoded + count;
      offset := offset + count;
      if remaining == 0 {
        phase := if chunked then DataCr else Done;
      }
    }

    /** The part of the loop that reads one framing byte, or finds the offset exhausted. */
    method FramingByte(byte: char) returns (ok: bool)
      requires Valid() && failure.None? && phase != Done && (phase == Data ==> offset == SIZE_MAX)
      modifies this
      ensures Valid() && State() == Step(limits, old(State()), byte) && ok == failure.None?
      ensures ok ==> offset == old(offset) + 1 && Emitted(old(State()), byte) == ""
    {
      StepBudgeted(limits, head, State(), byte);
      if offset == SIZE_MAX {
        failure := Some(ParseError(ChunkMetadataTooLarge, offset));
        return false;
      }
      var result := Metadata(byte);
      if result.Err? {
        failure := Some(ParseError(result.error, offset));
        return false;
      }
      offset := offset + 1;
      return true;
    }

    /** The same, as progress through the input of one call. */
    method FeedFraming(ghost initial: State, input: string, consumed: nat) returns (ok: bool)
      requires Valid() && failure.None? && phase != Done && (phase == Data ==> offset == SIZE_MAX)
      requires consumed < |input| && State() == Run(limits, initial, input[..consumed])
      modifies this
      ensures Valid() && ok == failure.None?
      ensures State() == Run(limits, initial, input[..consumed + 1])
      ensures ok ==> offset == old(offset) + 1
      ensures ok ==> Output(limits, initial, input[..consumed + 1]) == Output(limits, initial, input[..consumed])
    {
      Extended(initial, input, consumed, 1);
      RunOne(limits, State(), input[consumed]);
      assert input[consumed..consumed + 1] == [input[consumed]];
      ok := FramingByte(input[consumed]);
    }

    /** And for a block of payload. */
    method FeedData(ghost initial: State, input: string, output: array<char>, consumed: nat, produced: nat)
      returns (count: nat)
      requires Valid() && failure.None? && phase == Data
      requires consumed < |input| && produced < output.Length && offset < SIZE_MAX
      requires State() == Run(limits, initial, input[..consumed])
      requires output[..produced] == Output(limits, initial, input[..consumed])
      modifies this`remaining, this`decoded, this`offset, this`phase, output
      ensures 0 < count <= |input| - consumed && count <= output.Length - produced
      ensures Valid() && failure.None? && offset == old(offset) + count
      ensures State() == Run(limits, initial, input[..consumed + count])
      ensures output[..produced + count] == Output(limits, initial, input[..consumed + count])
    {
      count := CopyData(input, output, consumed, produced);
      Extended(initial, input, consumed, count);
      assert output[..produced + count] == output[..produced] + output[produced..produced + count];
    }

    /** Decodes as much of the input as the output has room for, exactly as the one-shot decoder would. */
    method Feed(input: string, output: array<char>) returns (r: Result<Progress, ParseError>)
      requires Valid()
      modifies this, output
      ensures Valid() && (r.Ok? ==> r.value.produced <= output.Length)
      ensures IsFeed(limits, old(State()),
                     BodyDecoderSpec.Feed(input, output.Length, r, if r.Ok? then output[..r.value.produced] else ""),
                     State())
    {
      if failure.Some? {
        SettledStays(limits, State(), input);
        return Err(failure.value);
      }
      var consumed, produced := 0, 0;
      ghost var initial := State();
      assert input[..0] == "";
      while consumed < |input| && phase != Done
        invariant consumed <= |input| && produced <= output.Length
        invariant Valid() && failure.None? && offset == initial.offset + consumed
        invariant State() == Run(limits, initial, input[..consumed])
        invariant output[..produced] == Output(limits, initial, input[..consumed])
        decreases |input| - consumed
      {
        if phase == Data && offset != SIZE_MAX {
          if produced == output.Length {
            break;
          }
          var count := FeedData(initial, input, output, consumed, produced);
          consumed := consumed + count;
          produced := produced + count;
        } else {
          var ok := FeedFraming(initial, input, consumed);
          if !ok {
            FailureShows(limits, initial, input[..consumed + 1], input, failure.value);
            return Err(failure.value);
          }
          consumed := consumed + 1;
        }
      }
      return Ok(Progress(consumed, produced, phase == Done && failure.None?));
    }

    lemma Extended(initial: State, input: string, consumed: nat, count: nat)
      requires consumed + count <= |input|
      ensures var block := input[consumed..consumed + count];
              var before := Run(limits, initial, input[..consumed]);
              && Run(limits, initial, input[..consumed + count]) == Run(limits, before, block)
              && Output(limits, initial, input[..consumed + count])
                 == Output(limits, initial, input[..consumed]) + Output(limits, before, block)
    {
      assert input[..consumed + count] == input[..consumed] + input[consumed..consumed + count];
      RunConcat(limits, initial, input[..consumed], input[consumed..consumed + count]);
    }
  }
}
