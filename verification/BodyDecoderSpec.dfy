/**
 One-shot meaning of the body decoder: one transition per wire byte, folded over the input.  The
 budgets, stickiness and split invariance of the incremental decoder are proved here.
 */
module BodyDecoderSpec {
  import opened Basics
  import opened HttpSyntax
  import opened ChunkGrammar

  datatype Phase = SizeLine | Data | DataCr | DataLf | Trailers | Done

  /** Framing facts of a validated request head. */
  datatype Head = Head(chunked: bool, contentLength: nat, consumedBytes: nat)

  datatype State =
    | Live(phase: Phase, chunked: bool, remaining: nat, decoded: nat, offset: nat, metadataBytes: nat,
           trailerBytes: nat, trailerCount: nat, line: string, lineCr: bool)
    | Failed(error: ParseError)
  {
    /** Absolute wire offset: the next byte to read, or the byte that failed. */
    function Offset(): nat {
      if Live? then offset else error.offset
    }

    predicate Complete() {
      Live? && phase == Done
    }

    /** Nothing that follows can change a complete or failed decoder. */
    predicate Settled() {
      Failed? || phase == Done
    }
  }

  function Start(limits: Limits, head: Head): State {
    if !head.chunked && head.contentLength > limits.maxBodyBytes then
      Failed(ParseError(BodyTooLarge, head.consumedBytes))
    else
      Live(if head.chunked then SizeLine else if head.contentLength == 0 then Done else Data,
           head.chunked, head.contentLength, 0, head.consumedBytes, 0, 0, 0, "", false)
  }

  function Fail(s: State, code: ErrorCode): State
    requires s.Live?
  {
    Failed(ParseError(code, s.offset))
  }

  /** A complete size or trailer line, without its CRLF. */
  function FinishLine(limits: Limits, s: State): State
    requires s.Live?
  {
    if s.phase == Trailers then
      if s.line == "" then s.(phase := Done)
      else if s.trailerCount >= limits.maxTrailerCount then Fail(s, TrailersTooLarge)
      else if !ValidTrailer(s.line) then Fail(s, InvalidTrailer)
      else s.(trailerCount := s.trailerCount + 1)
    else
      var size := ChunkSize(s.line);
      if size.None? then Fail(s, MalformedChunk)
      else if size.value + s.decoded > limits.maxBodyBytes then Fail(s, BodyTooLarge)
      else s.(remaining := size.value, phase := if size.value == 0 then Trailers else Data)
  }

  function LineLimit(limits: Limits, phase: Phase): nat {
    if phase == Trailers then limits.maxTrailerBytes else limits.maxChunkLineBytes
  }

  /** One byte of a size or trailer line, already charged to the budgets. */
  function LineByte(limits: Limits, s: State, byte: char): State
    requires s.Live?
  {
    if s.lineCr then
      if byte != '\n' then Fail(s, MalformedChunk)
      else
        var t := FinishLine(limits, s);
        if t.Failed? then t else t.(line := "", lineCr := false)
    else if byte == '\r' then s.(lineCr := true)
    else if byte == '\n' then Fail(s, MalformedChunk)
    else if |s.line| >= LineLimit(limits, s.phase) then Fail(s, ChunkMetadataTooLarge)
    else s.(line := s.line + [byte])
  }

  function Metadata(limits: Limits, s: State, byte: char): State
    requires s.Live?
  {
    if s.metadataBytes >= limits.maxChunkMetadataBytes then Fail(s, ChunkMetadataTooLarge)
    else
      var t := s.(metadataBytes := s.metadataBytes + 1);
      match s.phase
      case DataCr => if byte == '\r' then t.(phase := DataLf) else Fail(s, MalformedChunk)
      case DataLf => if byte == '\n' then t.(phase := SizeLine) else Fail(s, MalformedChunk)
      case Trailers =>
        if s.trailerBytes >= limits.maxTrailerBytes then Fail(s, TrailersTooLarge)
        else LineByte(limits, t.(trailerBytes := s.trailerBytes + 1), byte)
      case _ => LineByte(limits, t, byte)
  }

  /** Takes `n` payload bytes of the current chunk or fixed-length body. */
  function Payload(s: State, n: nat): State
    requires s.Live? && n <= s.remaining
  {
    s.(remaining := s.remaining - n, decoded := s.decoded + n, offset := s.offset + n,
       phase := if s.remaining == n then (if s.chunked then DataCr else Done) else s.phase)
  }

  function Step(limits: Limits, s: State, byte: char): State {
    if s.Settled() then s
    else if s.offset == SIZE_MAX then Fail(s, ChunkMetadataTooLarge)
    else if s.phase == Data && 0 < s.remaining then Payload(s, 1)
    else
      var t := Metadata(limits, s, byte);
      if t.Failed? then t else t.(offset := t.offset + 1)
  }

  function Emitted(s: State, byte: char): string {
    if s.Live? && s.phase == Data && 0 < s.remaining && s.offset != SIZE_MAX then [byte] else ""
  }

  function Run(limits: Limits, s: State, wire: string): State
    decreases |wire|
  {
    if wire == "" then s else Run(limits, Step(limits, s, wire[0]), wire[1..])
  }

  function Output(limits: Limits, s: State, wire: string): string
    decreases |wire|
  {
    if wire == "" then "" else Emitted(s, wire[0]) + Output(limits, Step(limits, s, wire[0]), wire[1..])
  }

  /** End of input: only a complete decoder accepts it. */
  function Finish(s: State): State {
    if s.Settled() then s else Fail(s, IncompleteBody)
  }

  // ---------------------------------------------------------------- exactly what fails

  predicate ReadsLine(s: State)
    requires s.Live?
  {
    s.phase == SizeLine || s.phase == Trailers
  }

  /** The byte is framing, and all of its budgets have room for it. */
  predicate Charges(limits: Limits, s: State)
    requires s.Live?
  {
    && s.metadataBytes < limits.maxChunkMetadataBytes
    && (s.phase == Trailers ==> s.trailerBytes < limits.maxTrailerBytes)
  }

  /** The byte cannot stand where it is. */
  predicate Misplaced(s: State, byte: char)
    requires s.Live?
  {
    match s.phase
    case DataCr => byte != '\r'
    case DataLf => byte != '\n'
    case SizeLine => (byte == '\n') != s.lineCr
    case Trailers => (byte == '\n') != s.lineCr
    case _ => false
  }

  /** The byte ends a line. */
  predicate EndsLine(s: State, byte: char)
    requires s.Live?
  {
    ReadsLine(s) && s.lineCr && byte == '\n'
  }

  /** The limit on the line itself, which only its own bytes count against. */
  predicate LineIsFull(limits: Limits, s: State, byte: char)
    requires s.Live?
  {
    && ReadsLine(s) && !s.lineCr && byte != '\r' && byte != '\n'
    && |s.line| >= (if s.phase == Trailers then limits.maxTrailerBytes else limits.maxChunkLineBytes)
  }

  /** Why a decoder that is not settled fails on a byte: the same offset, and exactly one of these reasons. */
  lemma FailuresExactly(limits: Limits, s: State, byte: char)
    requires s.Live? && s.phase in {SizeLine, DataCr, DataLf, Trailers} && s.offset < SIZE_MAX
    ensures var t := Step(limits, s, byte);
      var charged, size := Charges(limits, s), ChunkSize(s.line);
      var sized := EndsLine(s, byte) && s.phase == SizeLine;
      var trailing := EndsLine(s, byte) && s.phase == Trailers && s.line != "";
      && (t.Failed? ==> t.error.offset == s.offset)
      && (t == Failed(ParseError(ChunkMetadataTooLarge, s.offset)) <==>
            s.metadataBytes >= limits.maxChunkMetadataBytes || (charged && LineIsFull(limits, s, byte)))
      && (t == Failed(ParseError(TrailersTooLarge, s.offset)) <==>
            && s.metadataBytes < limits.maxChunkMetadataBytes && s.phase == Trailers
            && (s.trailerBytes >= limits.maxTrailerBytes || (trailing && s.trailerCount >= limits.maxTrailerCount)))
      && (t == Failed(ParseError(MalformedChunk, s.offset)) <==>
            charged && (Misplaced(s, byte) || (sized && size.None?)))
      && (t == Failed(ParseError(BodyTooLarge, s.offset)) <==>
            charged && sized && size.Some? && size.value + s.decoded > limits.maxBodyBytes)
      && (t == Failed(ParseError(InvalidTrailer, s.offset)) <==>
            charged && trailing && s.trailerCount < limits.maxTrailerCount && !ValidTrailer(s.line))
      && (t.Failed? ==> t.error.code in {
            ChunkMetadataTooLarge, TrailersTooLarge, MalformedChunk, BodyTooLarge, InvalidTrailer})
  {
  }

  /** At the end of the address space even payload fails, and a fixed length over the limit fails at once. */
  lemma LimitsExactly(limits: Limits, head: Head, s: State, byte: char)
    ensures s.Live? && s.phase != Done && s.offset == SIZE_MAX ==>
      Step(limits, s, byte) == Failed(ParseError(ChunkMetadataTooLarge, SIZE_MAX))
    ensures s.Live? && s.phase == Data && 0 < s.remaining && s.offset < SIZE_MAX ==> Step(limits, s, byte).Live?
    ensures Start(limits, head) == Failed(ParseError(BodyTooLarge, head.consumedBytes)) <==>
      !head.chunked && limits.maxBodyBytes < head.contentLength
    ensures Start(limits, head).Failed? ==> !head.chunked && limits.maxBodyBytes < head.contentLength
    ensures Start(limits, head).Complete() <==> !head.chunked && head.contentLength == 0
    ensures s.Live? && s.phase != Done ==> Finish(s) == Failed(ParseError(IncompleteBody, s.offset))
  {
  }

  // ---------------------------------------------------------------- composition

  lemma {:induction false} RunConcat(limits: Limits, s: State, a: string, b: string)
    ensures Run(limits, s, a + b) == Run(limits, Run(limits, s, a), b)
    ensures Output(limits, s, a + b) == Output(limits, s, a) + Output(limits, Run(limits, s, a), b)
    decreases |a|
  {
    if a == "" {
      assert a + b == b;
    } else {
      assert (a + b)[1..] == a[1..] + b;
      RunConcat(limits, Step(limits, s, a[0]), a[1..], b);
    }
  }

  lemma {:induction false} SettledStays(limits: Limits, s: State, wire: string)
    requires s.Settled()
    ensures Run(limits, s, wire) == s && Output(limits, s, wire) == ""
  {
    if wire != "" {
      SettledStays(limits, s, wire[1..]);
    }
  }

  lemma RunOne(limits: Limits, s: State, byte: char)
    ensures Run(limits, s, [byte]) == Step(limits, s, byte)
    ensures Output(limits, s, [byte]) == Emitted(s, byte)
  {
    assert [byte][1..] == "";
    assert Run(limits, Step(limits, s, byte), "") == Step(limits, s, byte);
  }

  /** Block copying is byte-wise decoding. */
  lemma {:induction false} PayloadRun(limits: Limits, s: State, block: string)
    requires s.Live? && s.phase == Data && 0 < |block| <= s.remaining && s.offset + |block| <= SIZE_MAX
    ensures Run(limits, s, block) == Payload(s, |block|)
    ensures Output(limits, s, block) == block
    decreases |block|
  {
    if |block| == 1 {
      RunOne(limits, s, block[0]);
      assert block == [block[0]];
    } else {
      assert Step(limits, s, block[0]) == Payload(s, 1);
      PayloadRun(limits, Payload(s, 1), block[1..]);
      assert [block[0]] + block[1..] == block;
    }
  }

  // ---------------------------------------------------------------- budgets

  predicate LineInBudget(limits: Limits, s: State)
    requires s.Live?
  {
    match s.phase
    case SizeLine => |s.line| <= limits.maxChunkLineBytes
    case Trailers => |s.line| <= limits.maxTrailerBytes
    case _ => s.line == "" && !s.lineCr
  }

  /** All budgets at once, with the offset accounting that makes the counters trustworthy. */
  predicate Budgeted(limits: Limits, head: Head, s: State) {
    s.Live? ==>
      && s.offset == head.consumedBytes + s.decoded + s.metadataBytes
      && s.offset <= SIZE_MAX
      && s.decoded <= limits.maxBodyBytes
      && s.metadataBytes <= limits.maxChunkMetadataBytes
      && s.trailerBytes <= limits.maxTrailerBytes && s.trailerBytes <= s.metadataBytes
      && s.trailerCount <= limits.maxTrailerCount
      && LineInBudget(limits, s)
      && (s.phase == Data ==> 0 < s.remaining && s.decoded + s.remaining <= limits.maxBodyBytes)
      && (!s.chunked ==> s.phase in {Data, Done} && s.metadataBytes == 0)
      && s.chunked == head.chunked
  }

  lemma StepBudgeted(limits: Limits, head: Head, s: State, byte: char)
    requires Budgeted(limits, head, s)
    ensures Budgeted(limits, head, Step(limits, s, byte))
  {
  }

  /** While no failure is recorded, every budget holds after any input. */
  lemma {:induction false} RunBudgeted(limits: Limits, head: Head, s: State, wire: string)
    requires Budgeted(limits, head, s)
    ensures Budgeted(limits, head, Run(limits, s, wire))
    decreases |wire|
  {
    if wire != "" {
      StepBudgeted(limits, head, s, wire[0]);
      RunBudgeted(limits, head, Step(limits, s, wire[0]), wire[1..]);
    }
  }

  /** The decoder never holds more payload than the limit, and its offset counts head, payload and framing. */
  lemma BudgetsHold(limits: Limits, head: Head, wire: string)
    requires head.consumedBytes <= SIZE_MAX
    ensures Budgeted(limits, head, Run(limits, Start(limits, head), wire))
  {
    RunBudgeted(limits, head, Start(limits, head), wire);
  }

  /** A step either consumes its byte or settles; the offset counts consumed bytes exactly. */
  lemma StepOffset(limits: Limits, s: State, byte: char)
    ensures var t := Step(limits, s, byte);
            && (!s.Settled() && t.Live? ==> t.offset == s.offset + 1)
            && (!s.Settled() && t.Failed? ==> t.error.offset == s.offset)
  {
  }

  /** How many bytes of `wire` a decoder consumes: all of them unless it settles on the way. */
  lemma {:induction false} RunOffset(limits: Limits, s: State, wire: string)
    ensures s.Offset() <= Run(limits, s, wire).Offset() <= s.Offset() + |wire|
    ensures !Run(limits, s, wire).Settled() ==> Run(limits, s, wire).Offset() == s.Offset() + |wire|
    ensures var n := Run(limits, s, wire).Offset() - s.Offset();
            && Run(limits, s, wire).Live? ==> Run(limits, s, wire[..n]) == Run(limits, s, wire)
    decreases |wire|
  {
    if s.Settled() {
      SettledStays(limits, s, wire);
      assert wire[..0] == "";
    } else if wire != "" {
      var t := Step(limits, s, wire[0]);
      StepOffset(limits, s, wire[0]);
      RunOffset(limits, t, wire[1..]);
      var n := Run(limits, s, wire).Offset() - s.Offset();
      if t.Failed? {
        SettledStays(limits, t, wire[1..]);
      } else {
        assert wire[..n][1..] == wire[1..][..n - 1];
      }
    }
  }

  // ---------------------------------------------------------------- incremental feeding

  datatype Progress = Progress(consumed: nat, produced: nat, complete: bool)

  datatype Feed = Feed(input: string, capacity: nat, result: Result<Progress, ParseError>, output: string)

  /**
   What one `feed` call promises: it decodes a prefix of its input exactly as the one-shot decoder
   would, and stops early only at completion, at a full output buffer, or at the failure that the
   one-shot decoder reports as well.
   */
  ghost predicate IsFeed(limits: Limits, before: State, f: Feed, after: State) {
    match f.result
    case Ok(p) =>
      && p.consumed <= |f.input| && p.produced == |f.output| <= f.capacity
      && after.Live? && p.complete == after.Complete()
      && after == Run(limits, before, f.input[..p.consumed])
      && f.output == Output(limits, before, f.input[..p.consumed])
      && after.offset == before.Offset() + p.consumed
      && (p.consumed == |f.input| || after.Complete() || (after.phase == Data && p.produced == f.capacity))
    case Err(e) =>
      after == Failed(e) && Run(limits, before, f.input) == Failed(e)
  }

  /**
   A caller that feeds one wire stream: call `i` passes the bytes from the first unconsumed one up
   to `ends[i]`, and unconsumed bytes are offered again.
   */
  ghost predicate IsSession(limits: Limits, wire: string, states: seq<State>, feeds: seq<Feed>, at: seq<nat>) {
    && |states| == |feeds| + 1 == |at|
    && at[0] == 0
    && forall i :: 0 <= i < |feeds| ==> IsCall(limits, wire, states, feeds, at, i)
  }

  ghost predicate IsCall(limits: Limits, wire: string, states: seq<State>, feeds: seq<Feed>, at: seq<nat>, i: nat)
    requires |states| == |feeds| + 1 == |at| && i < |feeds|
  {
    && at[i] + |feeds[i].input| <= |wire|
    && feeds[i].input == wire[at[i]..at[i] + |feeds[i].input|]
    && IsFeed(limits, states[i], feeds[i], states[i + 1])
    && at[i + 1] == at[i] + (if feeds[i].result.Ok? then feeds[i].result.value.consumed else 0)
  }

  function Outputs(feeds: seq<Feed>): string {
    if feeds == [] then ""
    else
      var last := feeds[|feeds| - 1];
      Outputs(feeds[..|feeds| - 1]) + (if last.result.Ok? then last.output else "")
  }

  /** After any number of successful calls the decoder depends only on how much was consumed. */
  lemma {:induction false} SessionPosition(
      limits: Limits, wire: string, states: seq<State>, feeds: seq<Feed>, at: seq<nat>, n: nat)
    requires IsSession(limits, wire, states, feeds, at) && n <= |feeds|
    requires forall i :: 0 <= i < n ==> feeds[i].result.Ok?
    ensures at[n] <= |wire|
    ensures states[n] == Run(limits, states[0], wire[..at[n]])
    ensures Outputs(feeds[..n]) == Output(limits, states[0], wire[..at[n]])
  {
    if n == 0 {
      assert wire[..0] == "" && feeds[..0] == [];
    } else {
      SessionPosition(limits, wire, states, feeds, at, n - 1);
      assert IsCall(limits, wire, states, feeds, at, n - 1);
      var f := feeds[n - 1];
      var taken := f.input[..f.result.value.consumed];
      TakenFollows(wire, at[n - 1], f.input, f.result.value.consumed);
      RunConcat(limits, states[0], wire[..at[n - 1]], taken);
      assert feeds[..n][..n - 1] == feeds[..n - 1];
    }
  }

  lemma TakenFollows(wire: string, at: nat, input: string, n: nat)
    requires at + |input| <= |wire| && input == wire[at..at + |input|] && n <= |input|
    ensures wire[..at + n] == wire[..at] + input[..n]
  {
    assert input[..n] == wire[at..at + n];
  }

  /**
   Split invariance.  However the wire is cut into calls and whatever output buffers are offered:
   a failing call reports the failure of the one-shot decoder, and a completing session has decoded
   the one-shot output and consumed exactly as many bytes.
   */
  lemma SplitInvariance(limits: Limits, wire: string, states: seq<State>, feeds: seq<Feed>, at: seq<nat>, n: nat)
    requires IsSession(limits, wire, states, feeds, at) && n <= |feeds|
    requires forall i :: 0 <= i < n ==> feeds[i].result.Ok?
    ensures states[n].Complete() ==>
              && Run(limits, states[0], wire) == states[n]
              && Outputs(feeds[..n]) == Output(limits, states[0], wire)
              && states[0].Offset() + at[n] == Run(limits, states[0], wire).Offset()
    ensures n < |feeds| && feeds[n].result.Err? ==> Run(limits, states[0], wire) == Failed(feeds[n].result.error)
    ensures at[n] == |wire| ==>
              Run(limits, states[0], wire) == states[n] && Outputs(feeds[..n]) == Output(limits, states[0], wire)
  {
    SessionPosition(limits, wire, states, feeds, at, n);
    SessionOffset(limits, wire, states, feeds, at, n);
    var taken, left := wire[..at[n]], wire[at[n]..];
    assert wire == taken + left;
    RunConcat(limits, states[0], taken, left);
    if states[n].Complete() {
      SettledStays(limits, states[n], left);
    }
    if n < |feeds| && feeds[n].result.Err? {
      assert IsCall(limits, wire, states, feeds, at, n);
      FailureShows(limits, states[n], feeds[n].input, left, feeds[n].result.error);
    }
  }

  lemma FailureShows(limits: Limits, s: State, input: string, left: string, e: ParseError)
    requires input <= left && Run(limits, s, input) == Failed(e)
    ensures Run(limits, s, left) == Failed(e)
  {
    assert left == input + left[|input|..];
    RunConcat(limits, s, input, left[|input|..]);
    SettledStays(limits, Failed(e), left[|input|..]);
  }

  lemma {:induction false} SessionOffset(
      limits: Limits, wire: string, states: seq<State>, feeds: seq<Feed>, at: seq<nat>, n: nat)
    requires IsSession(limits, wire, states, feeds, at) && n <= |feeds|
    requires forall i :: 0 <= i < n ==> feeds[i].result.Ok?
    ensures states[n].Offset() == states[0].Offset() + at[n]
  {
    if n > 0 {
      SessionOffset(limits, wire, states, feeds, at, n - 1);
      assert IsCall(limits, wire, states, feeds, at, n - 1);
    }
  }

  /** The first failure is final: every later call repeats it. */
  lemma {:induction false} FailureIsSticky(
      limits: Limits, wire: string, states: seq<State>, feeds: seq<Feed>, at: seq<nat>, i: nat, j: nat)
    requires IsSession(limits, wire, states, feeds, at) && i <= j < |feeds|
    requires feeds[i].result.Err?
    ensures feeds[j].result == feeds[i].result
    decreases j
  {
    if i < j {
      FailureIsSticky(limits, wire, states, feeds, at, i, j - 1);
      var e := feeds[i].result.error;
      assert IsCall(limits, wire, states, feeds, at, j - 1);
      assert IsCall(limits, wire, states, feeds, at, j);
      SettledStays(limits, Failed(e), feeds[j].input);
      if feeds[j].result.Ok? {
        SettledStays(limits, Failed(e), feeds[j].input[..feeds[j].result.value.consumed]);
      }
    }
  }

  /** With a nonempty output buffer and pending input, every call makes progress, fails or is complete. */
  lemma FeedProgresses(limits: Limits, before: State, f: Feed, after: State)
    requires IsFeed(limits, before, f, after) && 0 < f.capacity && f.input != ""
    requires f.result.Ok? && !before.Complete()
    ensures 0 < f.result.value.consumed
  {
  }
}
