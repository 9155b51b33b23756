/**
 `TcpConnection::receive_with_options` on a connection that admission already read from: prefetched
 bytes are replayed before the socket is asked again.
 */
module TcpConnection {
  import opened Basics
  import opened DispatcherProtocol

  datatype Interruption = NotInterrupted | StopRequested | DeadlineExceeded

  /** What the socket layer can report when it is finally asked. */
  datatype NativeResult = Delivered(count: nat) | NativeFailure

  datatype ReceiveError = NotOpen | EmptyBuffer | Cancelled | TimedOut | SocketFailure

  /** One call as the caller and the operating system determine it. */
  datatype Call = Call(bufferSize: nat, interruption: Interruption, native: NativeResult)

  /** The unread state of a connection. */
  datatype Source = Source(open: bool, prefetched: string, offset: nat, unread: string) {
    predicate Valid() {
      offset <= |prefetched|
    }

    function Pending(): string
      requires Valid()
    {
      prefetched[offset..] + unread
    }
  }

  function Refusal(open: bool, call: Call): Option<ReceiveError> {
    if !open then Some(NotOpen)
    else if call.bufferSize == 0 then Some(EmptyBuffer)
    else match call.interruption
      case StopRequested => Some(Cancelled)
      case DeadlineExceeded => Some(TimedOut)
      case NotInterrupted => None
  }

  /** Exactly why a call is refused: the connection, then its buffer, then the caller's patience. */
  lemma RefusalsExactly(open: bool, call: Call)
    ensures var refusal := Refusal(open, call);
      && (refusal == Some(NotOpen) <==> !open)
      && (refusal == Some(EmptyBuffer) <==> open && call.bufferSize == 0)
      && (refusal == Some(Cancelled) <==> open && call.bufferSize > 0 && call.interruption.StopRequested?)
      && (refusal == Some(TimedOut) <==> open && call.bufferSize > 0 && call.interruption.DeadlineExceeded?)
      && (refusal == None <==> open && call.bufferSize > 0 && call.interruption.NotInterrupted?)
  {
  }

  /**
   A refused call takes nothing.  An admitted one returns as many of the bytes kept for replay as the buffer
   holds, and what the socket delivers only when none are left; and it returns the next pending bytes.
   */
  ghost predicate IsReceive(before: Source, call: Call, r: Result<string, ReceiveError>, after: Source)
    requires before.Valid()
  {
    && after.Valid() && after.open == before.open
    && (Refusal(before.open, call).Some? ==> r == Err(Refusal(before.open, call).value))
    && (Refusal(before.open, call).None? ==>
          var kept := |before.prefetched| - before.offset;
          if kept > 0 then r.Ok? && |r.value| == Min(kept, call.bufferSize)
          else if call.native.NativeFailure? then r == Err(SocketFailure)
          else r.Ok? && |r.value| == call.native.count)
    && match r
       case Err(_) => after.Pending() == before.Pending()
       case Ok(bytes) => |bytes| <= call.bufferSize && before.Pending() == bytes + after.Pending()
  }

  class Connection {
    var open: bool
    var prefetched: string
    var prefetchedOffset: nat
    var unread: string

    ghost function State(): Source
      reads this
    {
      Source(open, prefetched, prefetchedOffset, unread)
    }

    /** The handler's view of a connection that the dispatcher dequeued. */
    constructor (c: DispatcherProtocol.Connection)
      requires c.prefetchedOffset <= |c.prefetched|
      ensures State().Valid() && State().Pending() == c.Stream()
    {
      open, prefetched, prefetchedOffset, unread := c.open, c.prefetched, c.prefetchedOffset, c.unread;
    }

    method ReceiveWithOptions(call: Call) returns (r: Result<string, ReceiveError>)
      requires State().Valid()
      requires call.native.Delivered? ==> call.native.count <= Min(call.bufferSize, |unread|)
      modifies this
      ensures IsReceive(old(State()), call, r, State())
    {
      if !open {
        return Err(NotOpen);
      }
      if call.bufferSize == 0 {
        return Err(EmptyBuffer);
      }
      match call.interruption {
        case StopRequested => return Err(Cancelled);
        case DeadlineExceeded => return Err(TimedOut);
        case NotInterrupted =>
      }
      if prefetchedOffset < |prefetched| {
        var available := |prefetched| - prefetchedOffset;
        var copied := Min(available, call.bufferSize);
        var bytes := prefetched[prefetchedOffset..prefetchedOffset + copied];
        prefetchedOffset := prefetchedOffset + copied;
        if prefetchedOffset == |prefetched| {
          prefetched := "";
          prefetchedOffset := 0;
        }
        return Ok(bytes);
      }
      match call.native {
        case NativeFailure => return Err(SocketFailure);
        case Delivered(n) =>
          var bytes := unread[..n];
          unread := unread[n..];
          return Ok(bytes);
      }
    }
  }

  // ---------------------------------------------------------------- any sequence of calls

  function Bytes(results: seq<Result<string, ReceiveError>>): string {
    if results == [] then ""
    else (if results[0].Ok? then results[0].value else "") + Bytes(results[1..])
  }

  ghost predicate IsConversation(states: seq<Source>, calls: seq<Call>, results: seq<Result<string, ReceiveError>>) {
    && |states| == |calls| + 1 == |results| + 1
    && states[0].Valid()
    && forall i :: 0 <= i < |calls| ==> states[i].Valid() && IsReceive(states[i], calls[i], results[i], states[i + 1])
  }

  lemma ReceiveKeepsStream(before: Source, call: Call, r: Result<string, ReceiveError>, after: Source)
    requires before.Valid() && IsReceive(before, call, r, after)
    ensures before.Pending() == Bytes([r]) + after.Pending()
  {
    assert [r][1..] == [];
    assert Bytes([r]) == if r.Ok? then r.value else "";
  }

  /**
   Whatever buffers, interruptions and native results a handler meets, the bytes it was given
   followed by the bytes still pending are the stream it started with.
   */
  lemma {:induction false} ReplayKeepsStream(
      states: seq<Source>, calls: seq<Call>, results: seq<Result<string, ReceiveError>>)
    requires IsConversation(states, calls, results)
    ensures states[|calls|].Valid()
    ensures Bytes(results) + states[|calls|].Pending() == states[0].Pending()
    decreases |calls|
  {
    if calls != [] {
      assert IsReceive(states[0], calls[0], results[0], states[0 + 1]);
      ReceiveKeepsStream(states[0], calls[0], results[0], states[1]);
      ReplayKeepsStream(states[1..], calls[1..], results[1..]);
      var first := Bytes(results[..1]);
      assert results[..1] == [results[0]] && results[..1][1..] == [];
      assert Bytes(results) == first + Bytes(results[1..]);
      Associative(first, Bytes(results[1..]), states[|calls|].Pending());
    }
  }

  /**
   From any reachable dispatcher: the bytes the handler's calls returned, and then those still pending,
   are all the connection is served with.
   */
  lemma EndToEndStream(cfg: Config, t: Stages, c: DispatcherProtocol.Connection,
                       states: seq<Source>, calls: seq<Call>, results: seq<Result<string, ReceiveError>>)
      returns (k: nat)
    requires Reachable(cfg, t) && c in t.handed
    requires IsConversation(states, calls, results) && states[0].Pending() == c.Stream()
    ensures k < |t.submitted| && t.submitted[k].id == c.id
    ensures states[|calls|].Valid()
    ensures Bytes(results) + states[|calls|].Pending() == Served(cfg, t.submitted[k]).Stream()
  {
    k := HandlerSeesWholeStream(cfg, t, c);
    ReplayKeepsStream(states, calls, results);
  }
}
