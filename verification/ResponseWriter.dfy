/** Transmission of a response: partial sends, bounded pulls start a body source, exact framing. */
module ResponseWriter {
  import opened Basics
  import opened RequestHead
  import RH = ResponseHead

  const STREAM_BUFFER_BYTES := 16 * 1024

  datatype WriteError =
    | NetworkFailure | ConnectionClosed | BodySourceException | BodySourceFailure
    | BodySourceContractViolation | BodyEndedEarly

  /** One send call: an error, or how many bytes the kernel took. */
  datatype SendOutcome = SendFailed | Took(count: nat)

  /** One call of the body source. */
  datatype ReadOutcome = Raised | ReadFailed | Produced(bytes: string)

  datatype Body = Memory(bytes: string) | Streaming(source: nat -> ReadOutcome)

  /** What the source hands over in its first `k` calls. */
  function Stream(source: nat -> ReadOutcome, k: nat): string {
    if k == 0 then ""
    else Stream(source, k - 1) + if source(k - 1).Produced? then source(k - 1).bytes else ""
  }

  /** Every byte so far, and `n` bytes of what was to follow. */
  ghost predicate Extended(wire: string, was: string, message: string, n: nat) {
    n <= |message| && wire == was + message[..n]
  }

  /** What send calls `start` up to `end` took, if there was so much. */
  function Taken(outcomes: nat -> SendOutcome, start: nat, end: nat): nat
    requires start <= end
    decreases end
  {
    if start == end then 0
    else Taken(outcomes, start, end - 1) + if outcomes(end - 1).Took? then outcomes(end - 1).count else 0
  }

  /** How sending `size` bytes with these calls ends: only the last call may fail, and it says why. */
  ghost predicate Sent(
      outcomes: nat -> SendOutcome, start: nat, end: nat, size: nat, r: Result<(), WriteError>, n: nat)
  {
    && start <= end
    && n == Min(size, Taken(outcomes, start, end))
    && (r.Ok? <==> n == size)
    && (forall i :: start <= i < end - 1 ==> outcomes(i).Took? && outcomes(i).count > 0)
    && (r.Err? ==> start < end && outcomes(end - 1) in {SendFailed, Took(0)})
    && (r.Err? ==> r.error == if outcomes(end - 1).SendFailed? then NetworkFailure else ConnectionClosed)
  }

  /** Why a body that is pulled from its source is not sent completely; `k` pulls were handed to the connection. */
  ghost predicate StreamFails(
      contentLength: nat, source: nat -> ReadOutcome, error: WriteError, k: nat, n: nat)
  {
    match error
    case NetworkFailure => k > 0 && n < |Stream(source, k)|
    case ConnectionClosed => k > 0 && n < |Stream(source, k)|
    case BodySourceException => n == |Stream(source, k)| < contentLength && source(k).Raised?
    case BodySourceFailure => n == |Stream(source, k)| < contentLength && source(k).ReadFailed?
    case BodyEndedEarly => n == |Stream(source, k)| < contentLength && source(k) == Produced("")
    case BodySourceContractViolation =>
      && n == |Stream(source, k)| < contentLength && source(k).Produced?
      && |source(k).bytes| > Min(contentLength - n, STREAM_BUFFER_BYTES)
  }

  class Connection {
    var wire: string                   // bytes the peer's stream has received
    var calls: nat
    const outcomes: nat -> SendOutcome

    constructor (outcomes: nat -> SendOutcome)
      ensures wire == "" && this.outcomes == outcomes
    {
      this.outcomes, wire, calls := outcomes, "", 0;
    }

    /** Delivers all of the bytes in order, or a prefix and an error. */
    method SendAll(bytes: string) returns (r: Result<(), WriteError>, ghost n: nat)
      modifies this
      ensures Extended(wire, old(wire), bytes, n)
      ensures Sent(outcomes, old(calls), calls, |bytes|, r, n)
    {
      var sent := 0;
      assert bytes[..0] == "";
      while sent < |bytes|
        invariant 0 <= sent <= |bytes| && wire == old(wire) + bytes[..sent]
        invariant old(calls) <= calls && sent == Min(|bytes|, Taken(outcomes, old(calls), calls))
        invariant forall i :: old(calls) <= i < calls ==> outcomes(i).Took? && outcomes(i).count > 0
        decreases |bytes| - sent
      {
        var outcome := outcomes(calls);
        calls := calls + 1;
        if outcome.SendFailed? {
          return Err(NetworkFailure), sent;
        }
        if outcome.count == 0 {
          return Err(ConnectionClosed), sent;
        }
        var taken := Min(outcome.count, |bytes| - sent);
        assert bytes[..sent] + bytes[sent..sent + taken] == bytes[..sent + taken];
        wire := wire + bytes[sent..sent + taken];
        sent := sent + taken;
      }
      return Ok(()), sent;
    }

    /** Pulls until exactly the declared length has been sent; never a byte more. */
    method WriteStreamingBody(contentLength: nat, source: nat -> ReadOutcome)
      returns (r: Result<(), WriteError>, ghost k: nat, ghost n: nat)
      modifies this
      ensures Extended(wire, old(wire), Stream(source, k), n) && n <= contentLength
      ensures r.Ok? ==> n == |Stream(source, k)| == contentLength
      ensures r.Err? ==> StreamFails(contentLength, source, r.error, k, n)
    {
      var remaining, pulls := contentLength, 0;
      k, n := 0, 0;
      while remaining > 0
        invariant 0 <= remaining <= contentLength && k == pulls && n == |Stream(source, k)| == contentLength - remaining
        invariant wire == old(wire) + Stream(source, k)
        decreases remaining
      {
        var requested := Min(remaining, STREAM_BUFFER_BYTES);
        var produced := source(pulls);
        pulls := pulls + 1;
        assert Stream(source, k)[..n] == Stream(source, k);
        match produced {
          case Raised => return Err(BodySourceException), k, n;
          case ReadFailed => return Err(BodySourceFailure), k, n;
          case Produced(bytes) =>
            if |bytes| > requested {
              return Err(BodySourceContractViolation), k, n;
            }
            if |bytes| == 0 {
              return Err(BodyEndedEarly), k, n;
            }
            ghost var before := wire;
            var sent, m := SendAll(bytes);
            StreamGrows(source, k, m);
            k, n := k + 1, n + m;
            if sent.Err? {
              return Err(sent.error), k, n;
            }
            assert bytes[..m] == bytes;
            remaining := remaining - |bytes|;
        }
      }
      assert Stream(source, k)[..n] == Stream(source, k);
      return Ok(()), k, n;
    }

    /**
     One response on the wire: on success the head and, unless the request was HEAD, exactly the
     declared number of body bytes; on failure a prefix of such a message.
     */
    method WriteResponse(response: RH.Response, body: Body, verb: Method)
      returns (r: Result<(), WriteError>, ghost message: string, ghost n: nat, ghost k: nat)
      requires body.Memory? ==> |body.bytes| == response.contentLength
      modifies this
      ensures Extended(wire, old(wire), message, n)
      ensures r.Ok? ==> n == |message|
      ensures r.Err? && (verb == Head || body.Memory? || n < |RH.Serialized(response)|) ==>
        n < |message| && r.error in {NetworkFailure, ConnectionClosed}
      ensures r.Err? && verb != Head && body.Streaming? && n >= |RH.Serialized(response)| ==>
        StreamFails(response.contentLength, body.source, r.error, k, n - |RH.Serialized(response)|)
      ensures RH.Serialized(response) <= message
      ensures r.Ok? ==> |message| == |RH.Serialized(response)| + if verb == Head then 0 else response.contentLength
      ensures verb != Head && body.Memory? ==> message == RH.Serialized(response) + body.bytes
      ensures verb != Head && body.Streaming? ==> message == RH.Serialized(response) + Stream(body.source, k)
    {
      var head := RH.SerializeHead(response);
      var sent, m := SendAll(head);
      n, k := m, 0;
      if sent.Err? || verb == Head {
        message := head + if verb == Head then "" else if body.Memory? then body.bytes else Stream(body.source, 0);
        assert message[..n] == head[..n];
        return sent, message, n, k;
      }
      assert head[..m] == head;
      if body.Streaming? {
        ghost var p;
        r, k, p := WriteStreamingBody(response.contentLength, body.source);
        message, n := head + Stream(body.source, k), |head| + p;
        assert message[..n] == head + Stream(body.source, k)[..p];
      } else {
        ghost var p;
        r, p := SendAll(body.bytes);
        message, n := head + body.bytes, |head| + p;
        assert message[..n] == head + body.bytes[..p];
      }
    }
  }

  lemma StreamGrows(source: nat -> ReadOutcome, k: nat, m: nat)
    requires source(k).Produced? && m <= |source(k).bytes|
    ensures Stream(source, k + 1) == Stream(source, k) + source(k).bytes
    ensures Stream(source, k + 1)[..|Stream(source, k)| + m] == Stream(source, k) + source(k).bytes[..m]
  {
  }
}
