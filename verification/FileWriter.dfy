/**
 The objects behind the isolated writer: the slot pool with its tickets, the mailbox between caller
 and I/O thread, and the writer that appends payloads to a file directly or through the mailbox.
 */
module FileWriter {
  import opened Basics
  import P = FileWriterProtocol
  import TF = TemporaryFile

  // ---------------------------------------------------------------- FileWorkerSlots

  class Ticket {
    var orphaned: bool
    var released: bool

    constructor ()
      ensures !orphaned && !released
    {
      orphaned, released := false, false;
    }
  }

  datatype AcquireError = Interrupted | Exhausted

  class FileWorkerSlots {
    var active: nat
    var orphaned: nat
    ghost var issued: map<nat, Ticket>   // every ticket ever acquired, by number

    /** Counters and tickets as the protocol sees them. */
    ghost function Slots(): P.System
      reads this, issued.Values
    {
      P.System(active, orphaned, map t | t in issued :: P.Ticket(issued[t].orphaned, issued[t].released), map[])
    }

    /** Both counters are exact, and different numbers are different tickets. */
    ghost predicate Valid()
      reads this, issued.Values
    {
      P.Counted(Slots()) && forall t, u :: t in issued && u in issued && t != u ==> issued[t] != issued[u]
    }

    constructor ()
      ensures Valid() && issued == map[] && Slots() == P.START
    {
      active, orphaned, issued := 0, 0, map[];
      new;
      assert P.Live(Slots()) == {} && P.LiveOrphans(Slots()) == {};
    }

    /**
     The end of a wait: capacity appeared, every worker is an orphan, or the caller was interrupted.
     `t` numbers the new ticket; a grant is what the protocol's `Acquire` does to the slots.
     */
    method Acquire(interrupted: bool, ghost t: nat) returns (r: Result<Ticket, AcquireError>)
      requires Valid() && t !in issued
      requires active < P.MAXIMUM_WORKERS || orphaned == P.MAXIMUM_WORKERS || interrupted
      modifies this
      ensures Valid()
      ensures interrupted ==> r == Err(Interrupted)
      ensures !interrupted && old(orphaned) == P.MAXIMUM_WORKERS ==> r == Err(Exhausted)
      ensures !interrupted && old(orphaned) != P.MAXIMUM_WORKERS ==> r.Ok?
      ensures r.Err? ==> issued == old(issued) && Slots() == old(Slots())
      ensures r.Ok? ==> fresh(r.value) && issued == old(issued)[t := r.value] && Slots() == P.Acquired(old(Slots()), t)
    {
      var ticket := new Ticket();
      if interrupted {
        return Err(Interrupted);
      }
      if orphaned == P.MAXIMUM_WORKERS {
        return Err(Exhausted);
      }
      P.AcquiredCounted(Slots(), t);
      Grant(ticket, t);
      return Ok(ticket);
    }

    /** Counts a new ticket in. */
    method Grant(ticket: Ticket, ghost t: nat)
      requires t !in issued && ticket !in issued.Values && !ticket.orphaned && !ticket.released
      requires forall u, v :: u in issued && v in issued && u != v ==> issued[u] != issued[v]
      modifies this`active, this`issued
      ensures issued == old(issued)[t := ticket] && Slots() == P.Acquired(old(Slots()), t)
      ensures forall u, v :: u in issued && v in issued && u != v ==> issued[u] != issued[v]
    {
      ghost var before := Slots();
      active := active + 1;
      issued := issued[t := ticket];
      assert Slots().tickets == P.Acquired(before, t).tickets;
    }

    /** Marks a detached worker without freeing the slot it occupies: the protocol's `Orphan`. */
    method Orphan(ticket: Ticket, ghost t: nat)
      requires Valid() && t in issued && issued[t] == ticket
      modifies this`orphaned, ticket`orphaned
      ensures Valid() && Slots() == P.Orphan(old(Slots()), t)
    {
      P.OrphanCounted(Slots(), t);
      ghost var before := Slots();
      if !ticket.released && !ticket.orphaned {
        ticket.orphaned := true;
        orphaned := orphaned + 1;
      }
      assert Slots() == P.Orphan(before, t);
    }

    /** Returns the slot once; both counters stay exact and never underflow: the protocol's `Release`. */
    method Release(ticket: Ticket, ghost t: nat)
      requires Valid() && t in issued && issued[t] == ticket
      modifies this`active, this`orphaned, ticket`released
      ensures Valid() && ticket.released && Slots() == P.Release(old(Slots()), t)
    {
      P.ReleaseCounted(Slots(), t);
      ghost var before := Slots();
      if !ticket.released {
        P.LiveIsCounted(before, t);
        ticket.released := true;
        active := active - 1;
        if ticket.orphaned {
          orphaned := orphaned - 1;
        }
      }
      assert Slots() == P.Release(before, t);
    }
  }

  // ---------------------------------------------------------------- FileWorker::State

  class MailboxState {
    const buffer: array<char>
    var bytes: nat
    var operation: P.Operation
    var interruptible: bool           // whether `options` has a deadline or a stop token
    var ticket: Option<nat>
    var result: Option<P.FileResult>
    var sequence: nat
    var completed: nat
    var pending: bool
    var stopping: bool

    ghost function Abs(): P.Mailbox
      reads this, buffer
    {
      P.Mailbox(
        buffer[..], bytes, operation, interruptible, ticket, result, sequence, completed, pending, stopping)
    }

    constructor ()
      ensures Abs() == P.EmptyMailbox() && fresh(buffer)
    {
      buffer := new char[P.PAYLOAD_BYTES](i => '\0');
      bytes, operation, interruptible, ticket, result := 0, P.Write, false, None, None;
      sequence, completed, pending, stopping := 0, 0, false, false;
      new;
      assert buffer[..] == P.Zeros(P.PAYLOAD_BYTES);
    }

    static method CopyPayload(buffer: array<char>, payload: string)
      requires |payload| <= buffer.Length
      modifies buffer
      ensures buffer[..] == payload + old(buffer[..])[|payload|..]
    {
      ghost var before := buffer[..];
      for i := 0 to |payload|
        invariant forall k :: 0 <= k < i ==> buffer[k] == payload[k]
        invariant forall k :: i <= k < buffer.Length ==> buffer[k] == before[k]
      {
        buffer[i] := payload[i];
      }
      assert buffer[..] == payload + before[|payload|..];
    }

    /** The locked part of `run`: refuse while an operation is pending, otherwise copy and queue. */
    method Submit(request: P.Request, t: nat) returns (accepted: bool)
      modifies this, buffer
      ensures accepted == P.Accepts(old(Abs()), request.payload)
      ensures Abs() == if accepted then P.Queued(old(Abs()), request, t) else old(Abs())
    {
      if stopping || pending || |request.payload| > buffer.Length {
        return false;
      }
      CopyPayload(buffer, request.payload);
      bytes := |request.payload|;
      operation := request.operation;
      interruptible := request.interruptible;
      ticket := Some(t);
      result := None;
      sequence := sequence + 1;
      pending := true;
      return true;
    }

    /** The I/O thread publishes its result and takes the ticket along for release. */
    method Publish(finished: nat, r: P.FileResult) returns (t: Option<nat>)
      modifies this
      ensures Abs() == P.Published(old(Abs()), finished, r) && t == old(ticket)
    {
      result := Some(r);
      completed := finished;
      pending := false;
      t := ticket;
      ticket := None;
    }

    /** `abandon` and `finish` both ask the I/O thread to stop; `abandon` also looks at the ticket. */
    method RequestStop() returns (t: Option<nat>)
      modifies this`stopping
      ensures Abs() == old(Abs()).(stopping := true) && t == ticket
    {
      stopping := true;
      t := ticket;
    }
  }

  // ---------------------------------------------------------------- TemporaryFileWriter

  /**
   What becomes of one operation handed to the I/O thread: it was not queued; the caller waited for it;
   or the caller stopped waiting, and the I/O thread performs it all the same.
   */
  datatype Fate =
    | Refused(error: TF.FileError)
    | Awaited(rounds: seq<TF.Round>)
    | GivenUp(rounds: seq<TF.Round>)

  /**
   How long a caller waits: without limit, having neither a deadline nor a stop token; until a deadline
   or a stop request; or not at all, since that came before the call.
   */
  datatype Patience = Unlimited | Limited | Spent {
    predicate Interruptible() {
      !Unlimited?
    }
  }

  /** Only a limited wait can be given up, and without patience no operation gets a worker slot. */
  predicate PossibleFate(patience: Patience, fate: Fate) {
    match patience
    case Unlimited => !fate.GivenUp?
    case Limited => true
    case Spent => fate.Refused?
  }

  /** The result of an operation, and whether it took effect on the file. */
  type Outcome = (Result<(), TF.FileError>, bool)

  /** The result of one isolated write, and whether its bytes were counted all the same. */
  function RunOutcome(open: bool, piece: string, fate: Fate): Outcome {
    match fate
    case Refused(error) => (Err(error), false)
    case Awaited(rounds) =>
      var r := TF.WriteResult(open, |piece|, rounds); (r, r.Ok?)
    case GivenUp(rounds) => (Err(TF.Interrupted), TF.WriteResult(open, |piece|, rounds).Ok?)
  }

  function PieceAt(payload: string, offset: nat): string
    requires offset <= |payload|
  {
    payload[offset..offset + Min(|payload| - offset, P.PAYLOAD_BYTES)]
  }

  /** Mailbox-sized pieces from `offset` on, stopping at the first failure: the result and the bytes counted. */
  function PiecesOutcome(open: bool, payload: string, offset: nat, issued: nat, fates: nat -> Fate)
    : (o: (Result<(), TF.FileError>, nat))
    requires offset <= |payload|
    ensures offset <= o.1 <= |payload| && (o.0.Ok? ==> o.1 == |payload|)
    decreases |payload| - offset
  {
    if offset == |payload| then (Ok(()), offset)
    else
      var piece := PieceAt(payload, offset);
      var (r, kept) := RunOutcome(open, piece, fates(issued));
      if r.Err? then (r, if kept then offset + |piece| else offset)
      else PiecesOutcome(open, payload, offset + |piece|, issued + 1, fates)
  }

  /** An empty payload is still one operation. */
  function IsolatedOutcome(open: bool, payload: string, fates: nat -> Fate): (o: (Result<(), TF.FileError>, nat))
    ensures o.1 <= |payload| && (o.0.Ok? ==> o.1 == |payload|)
  {
    if payload == "" then (RunOutcome(open, "", fates(0)).0, 0) else PiecesOutcome(open, payload, 0, 0, fates)
  }

  function DirectOutcome(open: bool, payload: string, rounds: seq<TF.Round>): (Result<(), TF.FileError>, nat) {
    var r := TF.WriteResult(open, |payload|, rounds);
    (r, if r.Ok? then |payload| else 0)
  }

  /** Without a payload there is still one operation, which can fail; a single piece is one, too. */
  lemma OneOperation(open: bool, payload: string, fates: nat -> Fate)
    requires |payload| <= P.PAYLOAD_BYTES
    ensures var (r, kept) := RunOutcome(open, payload, fates(0));
      IsolatedOutcome(open, payload, fates) == (r, if kept then |payload| else 0)
  {
    if payload != "" {
      assert PieceAt(payload, 0) == payload;
      PiecesStep(open, payload, 0, 0, fates);
      match RunOutcome(open, payload, fates(0)).0
      case Ok(u) => assert u == ();
      case Err(_) =>
    }
  }

  /** What a caller knows of a writer before a call. */
  datatype Situation = Situation(completed: bool, open: bool, worker: bool)

  /** What the environment decides about a call. */
  datatype Circumstances = Circumstances(starts: bool, rounds: seq<TF.Round>, fates: nat -> Fate)

  ghost predicate Possible(patience: Patience, c: Circumstances) {
    forall i: nat :: PossibleFate(patience, c.fates(i))
  }

  /** The outcome of a write call: its result, and how many bytes of the payload the file has counted. */
  function CallOutcome(s: Situation, payload: string, patience: Patience, c: Circumstances)
    : (o: (Result<(), TF.FileError>, nat))
    ensures o.1 <= |payload| && (o.0.Ok? ==> o.1 == |payload|)
  {
    if s.completed then (Err(TF.InvalidState), 0)
    else if !s.worker && patience.Interruptible() && !c.starts then (Err(TF.ResourceAllocationFailed), 0)
    else if s.worker || patience.Interruptible() then IsolatedOutcome(s.open, payload, c.fates)
    else DirectOutcome(s.open, payload, c.rounds)
  }

  /** Whether an I/O thread can be started matters only to a call that needs one and finds none. */
  lemma ThreadIsStartedOnce(s: Situation, payload: string, patience: Patience, c: Circumstances)
    requires !s.completed
    ensures s.worker ==> CallOutcome(s, payload, patience, c) == IsolatedOutcome(s.open, payload, c.fates)
    ensures !s.worker && patience.Unlimited? ==>
      var r := TF.WriteResult(s.open, |payload|, c.rounds);
      CallOutcome(s, payload, patience, c) == (r, if r.Ok? then |payload| else 0)
    ensures !s.worker && !patience.Unlimited? ==>
      CallOutcome(s, payload, patience, c)
        == if c.starts then IsolatedOutcome(s.open, payload, c.fates) else (Err(TF.ResourceAllocationFailed), 0)
  {
  }

  /** What becomes of a completion handed to the I/O thread. */
  datatype CompletionFate = NotQueued(error: TF.FileError) | Seen | Unseen

  predicate PossibleCompletion(patience: Patience, fate: CompletionFate) {
    match patience
    case Unlimited => !fate.Unseen?
    case Limited => true
    case Spent => fate.NotQueued?
  }

  /** The result of one isolated completion, and whether the file was completed all the same. */
  function RunCompletion(open: bool, fate: CompletionFate, c: TF.Closing): Outcome {
    var r := TF.CompleteResult(open, c).0;
    match fate
    case NotQueued(error) => (Err(error), false)
    case Seen => (r, r.Ok?)
    case Unseen => (Err(TF.Interrupted), r.Ok?)
  }

  /** The result of a completion, and whether it completed the file itself. */
  function CompletionOutcome(s: Situation, patience: Patience, starts: bool, fate: CompletionFate, c: TF.Closing)
    : Outcome
  {
    if s.completed then (Err(TF.InvalidState), false)
    else if !s.worker && patience.Interruptible() && !starts then (Err(TF.ResourceAllocationFailed), false)
    else RunCompletion(s.open, if s.worker || patience.Interruptible() then fate else Seen, c)
  }

  lemma CompletionThread(s: Situation, patience: Patience, starts: bool, fate: CompletionFate, c: TF.Closing)
    requires !s.completed
    ensures s.worker ==> CompletionOutcome(s, patience, starts, fate, c) == RunCompletion(s.open, fate, c)
    ensures !s.worker && patience.Unlimited? ==>
      var r := TF.CompleteResult(s.open, c).0; CompletionOutcome(s, patience, starts, fate, c) == (r, r.Ok?)
    ensures !s.worker && !patience.Unlimited? ==>
      CompletionOutcome(s, patience, starts, fate, c)
        == if starts then RunCompletion(s.open, fate, c) else (Err(TF.ResourceAllocationFailed), false)
  {
  }

  class TemporaryFileWriter {
    const file: TF.TemporaryFile
    var isolated: bool                // worker_ != nullptr
    var completed: bool
    ghost var counted: seq<string>    // of every call, the part of its payload that the file counts
    ghost var accepted: seq<string>   // payloads of the calls that returned success
    ghost var spoiled: bool           // a call failed that could have counted something

    /** The file counts the counted parts; without a spoiling failure those are the accepted payloads. */
    ghost predicate Valid()
      reads this, file
    {
      && file.Valid() && (completed ==> file.completed)
      && Join(counted) == Join(file.written)
      && (!spoiled ==> Join(accepted) == Join(counted))
    }

    ghost function Now(): Situation
      reads this, file
    {
      Situation(completed, file.open, isolated)
    }

    constructor (file: TF.TemporaryFile)
      requires file.Valid() && file.written == [] && !file.completed
      ensures Valid() && this.file == file && !isolated && !completed && counted == accepted == [] && !spoiled
    {
      this.file, isolated, completed, counted, accepted, spoiled := file, false, false, [], [], false;
    }

    /** An interruptible call needs an I/O thread, which stays for later calls. */
    method EnsureWorker(interruptible: bool, starts: bool) returns (r: Result<(), TF.FileError>)
      modifies this`isolated
      ensures r.Ok? <==> old(isolated) || !interruptible || starts
      ensures r.Err? ==> r.error == TF.ResourceAllocationFailed
      ensures isolated == (old(isolated) || (interruptible && starts))
    {
      if isolated || !interruptible {
        return Ok(());
      }
      if !starts {
        return Err(TF.ResourceAllocationFailed);
      }
      isolated := true;
      return Ok(());
    }

    /** One isolated write: an error does not mean that the bytes are not there. */
    method Run(piece: string, fate: Fate) returns (r: Result<(), TF.FileError>)
      requires file.Valid()
      modifies file`size, file`disk, file`written
      ensures file.Valid() && r == RunOutcome(file.open, piece, fate).0
      ensures file.written ==
        if RunOutcome(file.open, piece, fate).1 then old(file.written) + [piece] else old(file.written)
    {
      match fate {
        case Refused(error) => return Err(error);
        case Awaited(rounds) => r := file.Write(piece, rounds);
        case GivenUp(rounds) =>
          var ignored := file.Write(piece, rounds);
          return Err(TF.Interrupted);
      }
    }

    /** One piece after a prefix that is counted already. */
    method WritePiece(payload: string, offset: nat, fate: Fate, ghost was: seq<string>)
      returns (r: Result<(), TF.FileError>)
      requires file.Valid() && offset < |payload| && Join(file.written) == Join(was) + payload[..offset]
      modifies file`size, file`disk, file`written
      ensures file.Valid() && r == RunOutcome(file.open, PieceAt(payload, offset), fate).0
      ensures var piece := PieceAt(payload, offset);
        Join(file.written) ==
          Join(was) + payload[..offset + if RunOutcome(file.open, piece, fate).1 then |piece| else 0]
    {
      var piece := PieceAt(payload, offset);
      PieceJoins(was, file.written, payload, offset, |piece|);
      r := Run(piece, fate);
    }

    /** The loop over mailbox-sized pieces; it stops at the first failure. */
    method WritePieces(payload: string, fates: nat -> Fate) returns (r: Result<(), TF.FileError>)
      requires file.Valid()
      modifies file`size, file`disk, file`written
      ensures file.Valid() && r == PiecesOutcome(file.open, payload, 0, 0, fates).0
      ensures Join(file.written)
        == old(Join(file.written)) + payload[..PiecesOutcome(file.open, payload, 0, 0, fates).1]
    {
      ghost var was, goal := file.written, PiecesOutcome(file.open, payload, 0, 0, fates);
      NothingCounted(was, payload);
      var offset, issued := 0, 0;
      while offset < |payload|
        invariant 0 <= offset <= |payload| && file.Valid()
        invariant Join(file.written) == Join(was) + payload[..offset]
        invariant goal == PiecesOutcome(file.open, payload, offset, issued, fates)
      {
        PiecesStep(file.open, payload, offset, issued, fates);
        r := WritePiece(payload, offset, fates(issued), was);
        if r.Err? {
          return r;
        }
        issued := issued + 1;
        offset := offset + |PieceAt(payload, offset)|;
      }
      return Ok(());
    }

    /** An empty payload is one operation, any other is cut into pieces. */
    method WriteIsolated(payload: string, fates: nat -> Fate) returns (r: Result<(), TF.FileError>)
      requires file.Valid()
      modifies file`size, file`disk, file`written
      ensures file.Valid() && r == IsolatedOutcome(file.open, payload, fates).0
      ensures Join(file.written) == old(Join(file.written)) + payload[..IsolatedOutcome(file.open, payload, fates).1]
    {
      if payload == "" {
        NothingCounted(file.written, payload);
        JoinSnoc(file.written, "");
        r := Run("", fates(0));
      } else {
        r := WritePieces(payload, fates);
      }
    }

    /** A direct write or an isolated one, as the writer has a worker or not. */
    method Append(payload: string, rounds: seq<TF.Round>, fates: nat -> Fate) returns (r: Result<(), TF.FileError>)
      requires file.Valid()
      modifies file`size, file`disk, file`written
      ensures file.Valid()
      ensures var o := if isolated then IsolatedOutcome(file.open, payload, fates)
                       else DirectOutcome(file.open, payload, rounds);
        r == o.0 && Join(file.written) == old(Join(file.written)) + payload[..o.1]
    {
      if isolated {
        r := WriteIsolated(payload, fates);
      } else {
        ghost var was := file.written;
        NothingCounted(was, payload);
        r := file.Write(payload, rounds);
        JoinSnoc(was, payload);
        assert payload[..|payload|] == payload;
      }
    }

    /**
     Appends a payload, directly or piece by piece through the I/O thread, with exactly the specified
     result and exactly the specified bytes counted.
     */
    method Write(payload: string, patience: Patience, c: Circumstances) returns (r: Result<(), TF.FileError>)
      requires Valid() && Possible(patience, c)
      modifies this, file
      ensures Valid() && completed == old(completed)
      ensures file.completed == old(file.completed) && file.open == old(file.open) && file.path == old(file.path)
      ensures r == CallOutcome(old(Now()), payload, patience, c).0
      ensures counted == old(counted) + [payload[..CallOutcome(old(Now()), payload, patience, c).1]]
      ensures accepted == if r.Ok? then old(accepted) + [payload] else old(accepted)
      ensures spoiled == (old(spoiled) || (r.Err? && !CountsNothing(old(Now()), payload, patience)))
      ensures isolated == (old(isolated) || (!completed && patience.Interruptible() && c.starts))
    {
      ghost var s, was := Now(), Join(file.written);
      ghost var n := CallOutcome(s, payload, patience, c).1;
      NothingCounted(file.written, payload);
      if completed {
        r := Err(TF.InvalidState);
      } else {
        r := EnsureWorker(patience.Interruptible(), c.starts);
        if r.Ok? {
          r := Append(payload, c.rounds, c.fates);
        }
      }
      assert Join(file.written) == was + payload[..n];
      ghost var harmless := CountsNothing(s, payload, patience);
      if r.Err? && harmless {
        FailureLeavesNothing(s, payload, patience, c);
      }
      Record(payload, r, n, harmless);
    }

    /** Notes what a call has done; the file has been written already. */
    ghost method Record(payload: string, r: Result<(), TF.FileError>, n: nat, harmless: bool)
      requires file.Valid() && (completed ==> file.completed)
      requires n <= |payload| && (r.Ok? ==> n == |payload|) && (r.Err? && harmless ==> n == 0)
      requires Join(file.written) == Join(counted) + payload[..n] && (!spoiled ==> Join(accepted) == Join(counted))
      modifies this`counted, this`accepted, this`spoiled
      ensures Valid() && counted == old(counted) + [payload[..n]]
      ensures accepted == if r.Ok? then old(accepted) + [payload] else old(accepted)
      ensures spoiled == (old(spoiled) || (r.Err? && !harmless))
    {
      JoinSnoc(counted, payload[..n]);
      JoinSnoc(accepted, payload);
      counted := counted + [payload[..n]];
      if r.Ok? {
        assert payload[..n] == payload;
        accepted := accepted + [payload];
      } else if harmless {
        assert payload[..n] == "";
      } else {
        spoiled := true;
      }
    }

    /** One completion: an error does not mean that the file is not complete. */
    method RunComplete(fate: CompletionFate, c: TF.Closing) returns (r: Result<(), TF.FileError>)
      requires file.Valid()
      modifies file`open, file`completed
      ensures file.Valid() && r == RunCompletion(old(file.open), fate, c).0
      ensures file.completed == (old(file.completed) || RunCompletion(old(file.open), fate, c).1)
    {
      match fate {
        case NotQueued(error) => return Err(error);
        case Seen => r := file.Complete(c);
        case Unseen =>
          var ignored := file.Complete(c);
          return Err(TF.Interrupted);
      }
    }

    /** Flushes and closes through the same path; only a success that the caller saw completes the writer. */
    method Complete(patience: Patience, starts: bool, fate: CompletionFate, c: TF.Closing)
      returns (r: Result<(), TF.FileError>)
      requires Valid() && PossibleCompletion(patience, fate)
      modifies this`isolated, this`completed, file`open, file`completed
      ensures Valid() && counted == old(counted) && accepted == old(accepted) && spoiled == old(spoiled)
      ensures r == CompletionOutcome(old(Now()), patience, starts, fate, c).0
      ensures file.completed ==
        (old(file.completed) || CompletionOutcome(old(Now()), patience, starts, fate, c).1)
      ensures completed == (old(completed) || r.Ok?)
      ensures r.Ok? ==> !isolated
    {
      if completed {
        return Err(TF.InvalidState);
      }
      r := EnsureWorker(patience.Interruptible(), starts);
      if r.Err? {
        return r;
      }
      r := RunComplete(if isolated then fate else Seen, c);
      if r.Ok? {
        isolated, completed := false, true;
      }
    }
  }

  // ---- What a failed call leaves behind ----

  lemma NothingCounted(written: seq<string>, payload: string)
    ensures Join(written) == Join(written) + payload[..0]
  {
  }

  lemma PiecesStep(open: bool, payload: string, offset: nat, issued: nat, fates: nat -> Fate)
    requires offset < |payload|
    ensures var piece := PieceAt(payload, offset);
      var (r, kept) := RunOutcome(open, piece, fates(issued));
      && 0 < |piece| && offset + |piece| <= |payload| && piece == payload[offset..offset + |piece|]
      && PiecesOutcome(open, payload, offset, issued, fates) ==
           if r.Err? then (r, if kept then offset + |piece| else offset)
           else PiecesOutcome(open, payload, offset + |piece|, issued + 1, fates)
  {
  }

  lemma PrefixGrows(payload: string, offset: nat, count: nat)
    requires offset + count <= |payload|
    ensures payload[..offset + count] == payload[..offset] + payload[offset..offset + count]
  {
  }

  /** A piece appended after a prefix of the payload makes a longer prefix. */
  lemma PieceJoins(was: seq<string>, before: seq<string>, payload: string, offset: nat, count: nat)
    requires offset + count <= |payload| && Join(before) == Join(was) + payload[..offset]
    ensures Join(before + [payload[offset..offset + count]]) == Join(was) + payload[..offset + count]
  {
    var piece := payload[offset..offset + count];
    JoinSnoc(before, piece);
    PrefixGrows(payload, offset, count);
    Associative(Join(was), payload[..offset], piece);
  }

  /**
   Known before the call: the writer is complete, the payload or the handle is missing, the caller is out
   of patience, or it waits without limit for a direct write or for a single piece.
   */
  predicate CountsNothing(s: Situation, payload: string, patience: Patience) {
    || s.completed || payload == "" || !s.open || patience.Spent?
    || (patience.Unlimited? && (!s.worker || |payload| <= P.PAYLOAD_BYTES))
  }

  /** Without a handle, or without a slot, the first piece fails and nothing is counted. */
  lemma FirstFails(open: bool, payload: string, fates: nat -> Fate)
    requires !open || fates(0).Refused?
    ensures IsolatedOutcome(open, payload, fates).1 == 0
  {
  }

  /** A single piece that its caller waits for is counted exactly when the call succeeds. */
  lemma OnePiece(open: bool, payload: string, fates: nat -> Fate)
    requires 0 < |payload| <= P.PAYLOAD_BYTES && !fates(0).GivenUp?
    ensures IsolatedOutcome(open, payload, fates).0.Err? ==> IsolatedOutcome(open, payload, fates).1 == 0
  {
    PiecesStep(open, payload, 0, 0, fates);
  }

  lemma FailureLeavesNothing(s: Situation, payload: string, patience: Patience, c: Circumstances)
    requires Possible(patience, c) && CountsNothing(s, payload, patience)
    requires CallOutcome(s, payload, patience, c).0.Err?
    ensures CallOutcome(s, payload, patience, c).1 == 0
  {
    assert PossibleFate(patience, c.fates(0));
    if !s.open || patience.Spent? {
      if !s.open || c.fates(0).Refused? {
        FirstFails(s.open, payload, c.fates);
      }
    } else if 0 < |payload| <= P.PAYLOAD_BYTES && patience.Unlimited? {
      OnePiece(s.open, payload, c.fates);
    }
  }

  const ALL_AT_ONCE := [TF.Round(false, TF.Accepted(P.PAYLOAD_BYTES), false)]

  /** The native write takes a whole piece. */
  lemma AllAtOnce(n: nat)
    requires n <= P.PAYLOAD_BYTES
    ensures TF.WriteResult(true, n, ALL_AT_ONCE) == Ok(())
  {
    assert ALL_AT_ONCE[1..] == [] && TF.RoundsResult(0, []) == Ok(());
  }

  /** The caller stops waiting for every operation, and each native write then takes its piece at once. */
  function Abandoned(): Circumstances {
    Circumstances(true, [], (i: nat) => GivenUp(ALL_AT_ONCE))
  }

  lemma AbandonedCounts(s: Situation, payload: string)
    requires !s.completed && s.open && payload != ""
    ensures Possible(Limited, Abandoned())
    ensures var (r, n) := CallOutcome(s, payload, Limited, Abandoned()); r == Err(TF.Interrupted) && n > 0
  {
    AllAtOnce(|PieceAt(payload, 0)|);
    PiecesStep(s.open, payload, 0, 0, Abandoned().fates);
  }

  /** The first piece is written while its caller waits, and none of the others gets a worker slot. */
  function OnlyFirst(): Circumstances {
    Circumstances(true, [], (i: nat) => if i == 0 then Awaited(ALL_AT_ONCE) else Refused(TF.ResourceAllocationFailed))
  }

  lemma OnlyFirstCounts(s: Situation, payload: string)
    requires !s.completed && s.open && s.worker && |payload| > P.PAYLOAD_BYTES
    ensures Possible(Unlimited, OnlyFirst())
    ensures CallOutcome(s, payload, Unlimited, OnlyFirst()) == (Err(TF.ResourceAllocationFailed), P.PAYLOAD_BYTES)
  {
    AllAtOnce(P.PAYLOAD_BYTES);
    PiecesStep(s.open, payload, 0, 0, OnlyFirst().fates);
    PiecesStep(s.open, payload, P.PAYLOAD_BYTES, 1, OnlyFirst().fates);
  }

  /**
   Whatever the environment does, a failed call has counted nothing: that is certain before the call if
   and only if the writer is complete, the payload is empty, the handle is closed, the caller's deadline
   or stop request has come already, or the caller waits without limit for a direct write or one piece.
   */
  lemma FailureCountsNothing(s: Situation, payload: string, patience: Patience)
    ensures CountsNothing(s, payload, patience) <==>
      forall c | Possible(patience, c) ::
        CallOutcome(s, payload, patience, c).0.Err? ==> CallOutcome(s, payload, patience, c).1 == 0
  {
    if CountsNothing(s, payload, patience) {
      forall c | Possible(patience, c) && CallOutcome(s, payload, patience, c).0.Err?
        ensures CallOutcome(s, payload, patience, c).1 == 0
      {
        FailureLeavesNothing(s, payload, patience, c);
      }
    } else if patience.Limited? {
      AbandonedCounts(s, payload);
    } else {
      OnlyFirstCounts(s, payload);
    }
  }

  /**
   In the same way, a failed completion is certain not to have completed the file if and only if the
   writer is complete, the handle is closed, or the wait cannot be given up.
   */
  lemma FailureCompletesNothing(s: Situation, patience: Patience)
    ensures s.completed || !s.open || !patience.Limited? <==>
      forall starts, fate, c | PossibleCompletion(patience, fate) ::
        CompletionOutcome(s, patience, starts, fate, c).0.Err? ==> !CompletionOutcome(s, patience, starts, fate, c).1
  {
    var well := TF.Closing(false, true, false, true, false);
    if !s.completed && s.open && patience.Limited? {
      assert CompletionOutcome(s, patience, true, Unseen, well) == (Err(TF.Interrupted), true);
    }
  }

  /** On any writer whose file is open, an interruptible call can fail and still have its bytes counted. */
  method AbandonedBytesStay(writer: TemporaryFileWriter, payload: string) returns (r: Result<(), TF.FileError>)
    requires writer.Valid() && writer.file.open && payload != ""
    modifies writer, writer.file
    ensures writer.Valid() && r.Err? && writer.accepted == old(writer.accepted)
    ensures |Join(writer.file.written)| > |old(Join(writer.file.written))|
  {
    var s := Situation(writer.completed, writer.file.open, writer.isolated);
    AbandonedCounts(s, payload);
    ghost var before := writer.counted;
    r := writer.Write(payload, Limited, Abandoned());
    JoinSnoc(before, payload[..CallOutcome(s, payload, Limited, Abandoned()).1]);
  }

  // ---- Fates along the runs of the protocol ----

  /** What the caller is told at the end of a call. */
  function Told(ending: P.Ending): Result<(), TF.FileError> {
    match ending
    case Answered(result) => result
    case Stopped => Err(TF.Interrupted)
  }

  /**
   After some run, operation `k` of an artifact has been `request`, it found the handle as `open` says, and
   it ended with `outcome`: what its caller was told, and whether the I/O thread succeeded.
   */
  ghost predicate Occurs(t: P.System, a: nat, k: nat, open: bool, request: P.Request, outcome: Outcome) {
    && P.Reachable(t) && a in t.artifacts
    && var x := t.artifacts[a];
    && k < |x.queued| && k < |x.endings| && k < |x.performed|
    && x.queued[k] == request && x.performed[k].open == open
    && outcome == (Told(x.endings[k]), x.performed[k].Outcome().Ok?)
  }

  /** What happened to an operation: its caller saw the result of the deed, or it could give up and did. */
  lemma OccurringWasDone(t: P.System, a: nat, k: nat, open: bool, request: P.Request, outcome: Outcome)
    returns (work: P.Work)
    requires Occurs(t, a, k, open, request, outcome)
    ensures var deed := P.Deed(request, open, work);
      && deed.Fits() && outcome.1 == deed.Outcome().Ok?
      && (outcome.0 == deed.Outcome() || (request.interruptible && outcome.0 == Err(TF.Interrupted)))
  {
    P.CallsReturnTheirOwnResult(t, a);
    work := t.artifacts[a].performed[k].work;
  }

  lemma Step(t: P.System, act: P.Action) returns (u: P.System)
    requires P.Reachable(t) && P.Enabled(t, act)
    ensures P.Reachable(u) && u == P.Next(t, act)
  {
    P.ReachableNext(t, act);
    u := P.Next(t, act);
  }

  /** A run in which the first operation of an artifact is queued. */
  lemma QueuedRun(open: bool, request: P.Request) returns (t: P.System)
    requires |request.payload| <= P.PAYLOAD_BYTES
    ensures P.Reachable(t) && 0 in t.artifacts
    ensures var x := t.artifacts[0];
      x == P.Artifact(P.Waiting(1, request.interruptible), P.Parked, P.Queued(P.EmptyMailbox(), request, 0),
                      open, [request], [], [])
  {
    assert P.Legal(P.START, []) && P.Execute(P.START, []) == P.START;
    t := Step(P.START, P.Create(0, open));
    t := Step(t, P.Acquire(0, 0));
    t := Step(t, P.Submit(0, request));
  }

  /** A run in which it has been performed while its caller waits. */
  lemma PerformedRun(open: bool, request: P.Request, work: P.Work) returns (t: P.System)
    requires |request.payload| <= P.PAYLOAD_BYTES && P.Deed(request, open, work).Fits()
    ensures P.Reachable(t) && 0 in t.artifacts
    ensures var x, deed := t.artifacts[0], P.Deed(request, open, work);
      && x.caller == P.Waiting(1, request.interruptible) && x.thread == P.Ran(1, deed.Outcome())
      && x.mail.ticket.Some? && x.queued == [request] && x.endings == [] && x.performed == [deed]
  {
    t := QueuedRun(open, request);
    assert t.artifacts[0].mail.buffer[..|request.payload|] == request.payload;
    t := Step(t, P.Take(0));
    t := Step(t, P.Native(0, work));
  }

  /** The outcome of a deed whose caller waits for it or not. */
  function Ended(deed: P.Deed, waits: bool): Outcome {
    (if waits then deed.Outcome() else Err(TF.Interrupted), deed.Outcome().Ok?)
  }

  /** Whatever the operating system decides, its caller can wait for it, or give up if it is interruptible. */
  lemma DoneOccurs(open: bool, request: P.Request, work: P.Work, waits: bool)
    requires |request.payload| <= P.PAYLOAD_BYTES && P.Deed(request, open, work).Fits()
    requires waits || request.interruptible
    ensures exists t, a, k :: Occurs(t, a, k, open, request, Ended(P.Deed(request, open, work), waits))
  {
    var t := PerformedRun(open, request, work);
    if waits {
      t := Step(t, P.Publish(0));
      t := Step(t, P.Return(0));
    } else {
      t := Step(t, P.GiveUp(0));
    }
    assert Occurs(t, 0, 0, open, request, Ended(P.Deed(request, open, work), waits));
  }

  /**
   The fates that the environment may choose for a queued write are exactly those along the runs of the
   protocol, whatever else goes on in them.
   */
  lemma WriteFatesAreExact(open: bool, piece: string, patience: Patience, outcome: Outcome)
    requires |piece| <= P.PAYLOAD_BYTES && !patience.Spent?
    ensures var request := P.Request(P.Write, piece, patience.Interruptible());
      (exists t, a, k :: Occurs(t, a, k, open, request, outcome)) <==>
      exists fate: Fate :: !fate.Refused? && PossibleFate(patience, fate) && RunOutcome(open, piece, fate) == outcome
  {
    var request := P.Request(P.Write, piece, patience.Interruptible());
    if t, a, k :| Occurs(t, a, k, open, request, outcome) {
      var work := OccurringWasDone(t, a, k, open, request, outcome);
      var awaited, givenUp := Awaited(work.rounds), GivenUp(work.rounds);
      assert RunOutcome(open, piece, awaited) == outcome || RunOutcome(open, piece, givenUp) == outcome;
    }
    if fate: Fate :| !fate.Refused? && PossibleFate(patience, fate) && RunOutcome(open, piece, fate) == outcome {
      DoneOccurs(open, request, P.Wrote(fate.rounds), fate.Awaited?);
    }
  }

  /** And so are those of a queued completion. */
  lemma CompletionFatesAreExact(open: bool, patience: Patience, outcome: Outcome)
    requires !patience.Spent?
    ensures var request := P.Request(P.Complete, "", patience.Interruptible());
      (exists t, a, k :: Occurs(t, a, k, open, request, outcome)) <==>
      exists fate: CompletionFate, c ::
        !fate.NotQueued? && PossibleCompletion(patience, fate) && RunCompletion(open, fate, c) == outcome
  {
    var request := P.Request(P.Complete, "", patience.Interruptible());
    if t, a, k :| Occurs(t, a, k, open, request, outcome) {
      var work := OccurringWasDone(t, a, k, open, request, outcome);
      var c := work.closing;
      assert RunCompletion(open, Seen, c) == outcome || RunCompletion(open, Unseen, c) == outcome;
    }
    if fate: CompletionFate, c :|
      !fate.NotQueued? && PossibleCompletion(patience, fate) && RunCompletion(open, fate, c) == outcome {
      DoneOccurs(open, request, P.Closed(c), fate.Seen?);
    }
  }
}
