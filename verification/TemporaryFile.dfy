/**
 `TemporaryFile`: an exclusively owned artifact written through partial native writes.  `disk` is what
 the file really holds, `size` what the object believes it holds; they may differ after a failed
 write, and the object's invariant says exactly how.
 */
module TemporaryFile {
  import opened Basics

  const NATIVE_WRITE_BYTES := 16 * 1024

  datatype FileError =
    | InvalidState | Interrupted | WriteFailed | FlushFailed | CloseFailed | ResourceAllocationFailed

  /** One native write: interrupted by a signal, refused, or `count` bytes accepted. */
  datatype NativeWrite = SignalInterrupt | Refused | Accepted(count: nat)

  /** One round of the write loop: the policy checks around one native call. */
  datatype Round = Round(stopBefore: bool, native: NativeWrite, stopAfter: bool)

  /** How the rounds of the write loop end while `remaining` bytes are still to be written. */
  function RoundsResult(remaining: nat, rounds: seq<Round>): Result<(), FileError>
    decreases |rounds|
  {
    if remaining == 0 then Ok(())
    else if rounds == [] || rounds[0].stopBefore then Err(Interrupted)
    else
      match rounds[0].native
      case SignalInterrupt => RoundsResult(remaining, rounds[1..])
      case Refused => Err(WriteFailed)
      case Accepted(count) =>
        var accepted := Min(count, Min(remaining, NATIVE_WRITE_BYTES));
        if accepted == 0 then Err(WriteFailed)
        else if rounds[0].stopAfter then Err(Interrupted)
        else RoundsResult(remaining - accepted, rounds[1..])
  }

  /** The result of writing `n` bytes to a file with or without an open handle. */
  function WriteResult(open: bool, n: nat, rounds: seq<Round>): Result<(), FileError> {
    if open then RoundsResult(n, rounds) else Err(InvalidState)
  }

  /** The environment's part in a completion: the policy checks, the flush and the close. */
  datatype Closing = Closing(
    stopFirst: bool, flushed: bool, stopFlushed: bool, closed: bool, stopClosed: bool)

  /** The result of completing a file, and whether its handle is still open afterwards. */
  function CompleteResult(open: bool, c: Closing): (Result<(), FileError>, bool) {
    if !open then (Err(InvalidState), false)
    else if c.stopFirst then (Err(Interrupted), true)
    else if !c.flushed then (Err(FlushFailed), true)
    else if c.stopFlushed then (Err(Interrupted), true)
    else if !c.closed then (Err(CloseFailed), false)
    else if c.stopClosed then (Err(Interrupted), false)
    else (Ok(()), false)
  }

  // ---- Exactly when a write and a completion succeed ----

  /** A round that neither stops nor fails. */
  predicate Smooth(round: Round) {
    && !round.stopBefore
    && (round.native.SignalInterrupt? || (round.native.Accepted? && round.native.count > 0 && !round.stopAfter))
  }

  predicate AllSmooth(rounds: seq<Round>) {
    forall i :: 0 <= i < |rounds| ==> Smooth(rounds[i])
  }

  /** The bytes that these rounds take, if there are so many. */
  function Taken(rounds: seq<Round>): nat {
    if rounds == [] then 0
    else
      (if rounds[0].native.Accepted? then Min(rounds[0].native.count, NATIVE_WRITE_BYTES) else 0) + Taken(rounds[1..])
  }

  lemma {:induction false} SmoothSucceeds(remaining: nat, rounds: seq<Round>, k: nat)
    requires k <= |rounds| && AllSmooth(rounds[..k]) && Taken(rounds[..k]) >= remaining
    ensures RoundsResult(remaining, rounds) == Ok(())
    decreases k
  {
    if remaining > 0 {
      assert rounds[..k][0] == rounds[0] && rounds[..k][1..] == rounds[1..][..k - 1];
      var left := if rounds[0].native.Accepted?
        then remaining - Min(rounds[0].native.count, Min(remaining, NATIVE_WRITE_BYTES)) else remaining;
      SmoothSucceeds(left, rounds[1..], k - 1);
    }
  }

  lemma {:induction false} SuccessWasSmooth(remaining: nat, rounds: seq<Round>) returns (k: nat)
    requires RoundsResult(remaining, rounds).Ok?
    ensures k <= |rounds| && AllSmooth(rounds[..k]) && Taken(rounds[..k]) >= remaining
    decreases |rounds|
  {
    k := 0;
    if remaining > 0 {
      var left := if rounds[0].native.Accepted?
        then remaining - Min(rounds[0].native.count, Min(remaining, NATIVE_WRITE_BYTES)) else remaining;
      k := SuccessWasSmooth(left, rounds[1..]);
      assert rounds[..k + 1][1..] == rounds[1..][..k];
      k := k + 1;
    }
  }

  /** A write succeeds exactly when undisturbed native calls take all of its bytes. */
  lemma WriteSucceedsExactly(open: bool, n: nat, rounds: seq<Round>)
    ensures WriteResult(open, n, rounds).Ok? <==>
      open && exists k :: 0 <= k <= |rounds| && AllSmooth(rounds[..k]) && Taken(rounds[..k]) >= n
  {
    if WriteResult(open, n, rounds).Ok? {
      var k := SuccessWasSmooth(n, rounds);
    }
    if k :| 0 <= k <= |rounds| && AllSmooth(rounds[..k]) && Taken(rounds[..k]) >= n {
      SmoothSucceeds(n, rounds, k);
    }
  }

  /** Otherwise the first disturbance is what the caller is told about. */
  lemma {:induction false} WriteFailsAt(n: nat, rounds: seq<Round>, k: nat)
    requires k <= |rounds| && AllSmooth(rounds[..k]) && Taken(rounds[..k]) < n && (k < |rounds| ==> !Smooth(rounds[k]))
    ensures WriteResult(false, n, rounds) == Err(InvalidState)
    ensures WriteResult(true, n, rounds) ==
      if k == |rounds| || rounds[k].stopBefore then Err(Interrupted)
      else if rounds[k].native.Accepted? && rounds[k].native.count > 0 then Err(Interrupted)
      else Err(WriteFailed)
    decreases k
  {
    if k > 0 {
      assert rounds[..k][0] == rounds[0] && rounds[..k][1..] == rounds[1..][..k - 1];
      var left := if rounds[0].native.Accepted?
        then n - Min(rounds[0].native.count, Min(n, NATIVE_WRITE_BYTES)) else n;
      WriteFailsAt(left, rounds[1..], k - 1);
    }
  }

  /** A completion succeeds exactly when every step does, and its handle stays open exactly until the close. */
  lemma CompletionExactly(open: bool, c: Closing)
    ensures var (r, still) := CompleteResult(open, c);
      && (r.Ok? <==> open && c.flushed && c.closed && !c.stopFirst && !c.stopFlushed && !c.stopClosed)
      && (still <==> open && (c.stopFirst || !c.flushed || c.stopFlushed))
      && (r == Err(InvalidState) <==> !open)
      && (r == Err(FlushFailed) <==> open && !c.stopFirst && !c.flushed)
      && (r == Err(CloseFailed) <==> open && !c.stopFirst && c.flushed && !c.stopFlushed && !c.closed)
      && (r == Err(Interrupted) <==>
            open && (c.stopFirst || (c.flushed && (c.stopFlushed || (c.closed && c.stopClosed)))))
  {
  }

  class TemporaryFile {
    var open: bool                 // native_handle_ != -1
    var path: Option<string>       // empty after release or cleanup
    var size: nat
    var completed: bool
    var disk: string
    ghost var written: seq<string> // payloads of the writes that returned success

    /**
     The file never holds less than the successful payloads, and whenever the sizes agree it holds
     exactly their concatenation.
     */
    ghost predicate Valid()
      reads this
    {
      && size == |Join(written)| <= |disk|
      && (|disk| == size ==> disk == Join(written))
      && (completed ==> !open)
    }

    constructor (path: string)
      ensures Valid() && open && !completed && this.path == Some(path) && written == [] && size == 0 && disk == ""
    {
      open, this.path, size, completed, disk, written := true, Some(path), 0, false, "", [];
    }

    /**
     Writes every byte or reports a failure.  A failed write may leave any prefix of its payload in
     the file; only a successful one counts.
     */
    method Write(bytes: string, rounds: seq<Round>) returns (r: Result<(), FileError>)
      requires Valid()
      modifies this`size, this`disk, this`written
      ensures Valid()
      ensures r == WriteResult(open, |bytes|, rounds)
      ensures r.Ok? ==> disk == old(disk) + bytes && written == old(written) + [bytes] && size == old(size) + |bytes|
      ensures r.Err? ==> written == old(written) && size == old(size)
      ensures r.Err? ==> exists n :: 0 <= n <= |bytes| && disk == old(disk) + bytes[..n]
    {
      if !open || completed {
        assert disk == old(disk) + bytes[..0];
        return Err(InvalidState);
      }
      var offset, k := 0, 0;
      assert old(disk) == old(disk) + bytes[..0];
      while offset < |bytes|
        invariant 0 <= offset <= |bytes| && 0 <= k <= |rounds|
        invariant disk == old(disk) + bytes[..offset] && size == old(size) && written == old(written)
        invariant RoundsResult(|bytes|, rounds) == RoundsResult(|bytes| - offset, rounds[k..])
        decreases |rounds| - k, |bytes| - offset
      {
        if k == |rounds| || rounds[k].stopBefore {
          return Err(Interrupted);
        }
        var remaining := Min(|bytes| - offset, NATIVE_WRITE_BYTES);
        var round := rounds[k];
        k := k + 1;
        match round.native {
          case SignalInterrupt => continue;
          case Refused => return Err(WriteFailed);
          case Accepted(count) =>
            var accepted := Min(count, remaining);
            if accepted == 0 {
              return Err(WriteFailed);
            }
            assert bytes[..offset + accepted] == bytes[..offset] + bytes[offset..offset + accepted];
            disk := disk + bytes[offset..offset + accepted];
            offset := offset + accepted;
        }
        if round.stopAfter {
          return Err(Interrupted);
        }
      }
      assert bytes[..offset] == bytes;
      JoinSnoc(written, bytes);
      size := size + |bytes|;
      written := written + [bytes];
      return Ok(());
    }

    /** Flushes and closes; only when every step succeeds is the artifact complete. */
    method Complete(c: Closing) returns (r: Result<(), FileError>)
      requires Valid()
      modifies this`open, this`completed
      ensures Valid()
      ensures (r, open) == CompleteResult(old(open), c)
      ensures completed == (old(completed) || r.Ok?)
    {
      if !open || completed {
        return Err(InvalidState);
      }
      if c.stopFirst {
        return Err(Interrupted);
      }
      if !c.flushed {
        return Err(FlushFailed);
      }
      if c.stopFlushed {
        return Err(Interrupted);
      }
      open := false;
      if !c.closed {
        return Err(CloseFailed);
      }
      if c.stopClosed {
        return Err(Interrupted);
      }
      completed := true;
      return Ok(());
    }

    /** Hands the path over once, and only after completion. */
    method Release() returns (r: Result<string, FileError>)
      requires Valid()
      modifies this`path
      ensures Valid()
      ensures r == if completed && old(path).Some? then Ok(old(path).value) else Err(InvalidState)
      ensures path == if r.Ok? then None else old(path)
    {
      if !completed || path.None? {
        return Err(InvalidState);
      }
      r := Ok(path.value);
      path := None;
    }

    /** Closes the handle and names the path to remove, at most once over the object's life. */
    method Cleanup() returns (removed: Option<string>)
      requires Valid()
      modifies this`open, this`path
      ensures Valid() && !open && path == None && removed == old(path)
    {
      open := false;
      removed := path;
      path := None;
    }

    /** Move construction: one owner before, one owner after; the source would clean up nothing. */
    constructor Move(other: TemporaryFile)
      requires other.Valid()
      modifies other
      ensures Valid() && open == old(other.open) && path == old(other.path) && size == old(other.size)
      ensures completed == old(other.completed) && written == old(other.written) && disk == old(other.disk)
      ensures other.Valid() && !other.open && other.path == None && other.size == 0 && !other.completed
    {
      open, path, size, completed := other.open, other.path, other.size, other.completed;
      disk, written := other.disk, other.written;
      new;
      other.Forget();
    }

    method Forget()
      modifies this
      ensures Valid() && !open && path == None && size == 0 && !completed
    {
      open, path, size, completed, disk, written := false, None, 0, false, "", [];
    }

    /** Move assignment cleans up what this object owned, unless it is assigned to itself. */
    method Assign(other: TemporaryFile) returns (removed: Option<string>)
      requires Valid() && other.Valid()
      modifies this, other
      ensures Valid() && other.Valid()
      ensures this == other ==> unchanged(this) && removed == None
      ensures this != other ==>
        && removed == old(path) && open == old(other.open) && path == old(other.path) && size == old(other.size)
        && completed == old(other.completed) && written == old(other.written) && disk == old(other.disk)
        && !other.open && other.path == None && other.size == 0 && !other.completed
    {
      if this == other {
        return None;
      }
      removed := Cleanup();
      open, path, size, completed := other.open, other.path, other.size, other.completed;
      disk, written := other.disk, other.written;
      other.Forget();
    }
  }
}
