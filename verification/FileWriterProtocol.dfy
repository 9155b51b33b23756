/**
 The isolated file writer as a transition system: any number of artifacts, each with one caller, one
 I/O thread and a one-operation mailbox between them, all sharing a bounded pool of worker slots.
 An action is one mutex-protected region or one native operation; a run is any interleaving.
 */
module FileWriterProtocol {
  import opened Basics
  import TF = TemporaryFile

  const MAXIMUM_WORKERS := 32
  const PAYLOAD_BYTES := 16 * 1024

  datatype Operation = Write | Complete

  type FileResult = Result<(), TF.FileError>

  /** Slot accounting of one native operation; shared by the caller, the mailbox and the I/O thread. */
  datatype Ticket = Ticket(orphaned: bool, released: bool)

  /** The state behind the mailbox mutex. */
  datatype Mailbox = Mailbox(
    buffer: string, bytes: nat, operation: Operation, interruptible: bool, ticket: Option<nat>,
    result: Option<FileResult>, sequence: nat, completed: nat, pending: bool, stopping: bool)

  /** Where the calling thread is: between calls, with a slot, waiting for an operation, or leaving. */
  datatype Caller =
    | Idle
    | Admitted(ticket: nat)
    | Waiting(sequence: nat, interruptible: bool)
    | Orphaning(target: Option<nat>)
    | Gone

  /** Where the I/O thread is: waiting, in a native call, about to publish, about to release, or gone. */
  datatype Thread =
    | Parked
    | Running(operation: Operation, bytes: nat, interruptible: bool, sequence: nat)
    | Ran(sequence: nat, result: FileResult)
    | Releasing(ticket: nat)
    | Exited

  /** One queued operation as its caller handed it over; an interruptible one has a deadline or a stop token. */
  datatype Request = Request(operation: Operation, payload: string, interruptible: bool)

  /** What the operating system and the policy checks decide about one native operation. */
  datatype Work = Wrote(rounds: seq<TF.Round>) | Closed(closing: TF.Closing)

  /** One performed operation, with the handle it found open or closed. */
  datatype Deed = Deed(request: Request, open: bool, work: Work) {
    predicate Fits() {
      request.operation.Write? <==> work.Wrote?
    }

    function Outcome(): FileResult {
      match work
      case Wrote(rounds) => TF.WriteResult(open, |request.payload|, rounds)
      case Closed(closing) => TF.CompleteResult(open, closing).0
    }

    /** Whether the handle is open afterwards. */
    function Leaves(): bool {
      match work
      case Wrote(_) => open
      case Closed(closing) => TF.CompleteResult(open, closing).1
    }
  }

  /** How the call that queued an operation ended. */
  datatype Ending = Answered(result: FileResult) | Stopped

  /**
   One artifact, with what its caller queued, what was done to the file in return, how the calls ended,
   and the handle its I/O thread started with.
   */
  datatype Artifact = Artifact(
    caller: Caller, thread: Thread, mail: Mailbox,
    start: bool, queued: seq<Request>, performed: seq<Deed>, endings: seq<Ending>)

  /** The handle that the last operation left. */
  function Handle(start: bool, performed: seq<Deed>): bool {
    if performed == [] then start else performed[|performed| - 1].Leaves()
  }

  /** Each operation found the handle that the one before it left. */
  predicate Chained(start: bool, performed: seq<Deed>) {
    performed == [] ||
    var before := performed[..|performed| - 1];
    performed[|performed| - 1].open == Handle(start, before) && Chained(start, before)
  }

  datatype System = System(active: int, orphaned: int, tickets: map<nat, Ticket>, artifacts: map<nat, Artifact>)

  // ---------------------------------------------------------------- the mailbox

  function Zeros(n: nat): (s: string)
    ensures |s| == n
  {
    seq(n, i => '\0')
  }

  function EmptyMailbox(): Mailbox {
    Mailbox(Zeros(PAYLOAD_BYTES), 0, Write, false, None, None, 0, 0, false, false)
  }

  predicate Accepts(m: Mailbox, payload: string) {
    !m.stopping && !m.pending && |payload| <= |m.buffer|
  }

  function Queued(m: Mailbox, request: Request, ticket: nat): Mailbox
    requires |request.payload| <= |m.buffer|
  {
    m.(buffer := request.payload + m.buffer[|request.payload|..], bytes := |request.payload|,
       operation := request.operation, interruptible := request.interruptible, ticket := Some(ticket), result := None,
       sequence := m.sequence + 1, pending := true)
  }

  function Published(m: Mailbox, sequence: nat, result: FileResult): Mailbox {
    m.(result := Some(result), completed := sequence, pending := false, ticket := None)
  }

  // ---------------------------------------------------------------- the slots

  function Acquired(s: System, t: nat): System {
    s.(active := s.active + 1, tickets := s.tickets[t := Ticket(false, false)])
  }

  function Release(s: System, t: nat): System
    requires t in s.tickets
  {
    if s.tickets[t].released then s
    else s.(tickets := s.tickets[t := s.tickets[t].(released := true)], active := s.active - 1,
            orphaned := if s.tickets[t].orphaned then s.orphaned - 1 else s.orphaned)
  }

  function Orphan(s: System, t: nat): System
    requires t in s.tickets
  {
    if s.tickets[t].released || s.tickets[t].orphaned then s
    else s.(tickets := s.tickets[t := s.tickets[t].(orphaned := true)], orphaned := s.orphaned + 1)
  }

  // ---------------------------------------------------------------- actions

  datatype Action =
    | Create(a: nat, open: bool)                // a writer starts its I/O thread
    | Acquire(a: nat, ticket: nat)              // a caller obtained a slot
    | Submit(a: nat, request: Request)          // queue the operation, or refuse it and give the slot back
    | Return(a: nat)                            // the wait ended with the operation finished
    | GiveUp(a: nat)                            // the wait ended by a stop request or a deadline
    | Take(a: nat)                              // the I/O thread starts the queued operation
    | Native(a: nat, work: Work)                // the native call returned
    | Publish(a: nat)
    | Finish(a: nat)                            // the I/O thread releases its slot and waits again
    | Leave(a: nat)                             // the I/O thread stops
    | Abandon(a: nat)                           // the writer detaches its I/O thread
    | MarkOrphan(a: nat)
    | Close(a: nat)                             // the writer joins its I/O thread

  function Put(s: System, a: nat, x: Artifact): System {
    s.(artifacts := s.artifacts[a := x])
  }

  /** What the I/O thread has done to the file once its native call has returned. */
  function Done(x: Artifact, work: Work): Deed
    requires x.thread.Running? && x.thread.bytes <= |x.mail.buffer|
  {
    Deed(Request(x.thread.operation, x.mail.buffer[..x.thread.bytes], x.thread.interruptible),
         Handle(x.start, x.performed), work)
  }

  predicate Enabled(s: System, act: Action) {
    if act.Create? then act.a !in s.artifacts
    else act.a in s.artifacts &&
         var x := s.artifacts[act.a];
         match act
         case Acquire(_, t) =>
           x.caller.Idle? && s.active < MAXIMUM_WORKERS && s.orphaned != MAXIMUM_WORKERS && t !in s.tickets
         case Submit(_, _) => x.caller.Admitted? && x.caller.ticket in s.tickets
         case Return(_) => x.caller.Waiting? && x.mail.completed == x.caller.sequence
         case GiveUp(_) => x.caller.Waiting? && x.caller.interruptible
         case Take(_) => x.thread.Parked? && x.mail.pending
         case Native(_, work) =>
           x.thread.Running? && x.thread.bytes <= |x.mail.buffer| && Done(x, work).Fits()
         case Publish(_) => x.thread.Ran? && x.mail.ticket.Some?
         case Finish(_) => x.thread.Releasing? && x.thread.ticket in s.tickets
         case Leave(_) => x.thread.Parked? && !x.mail.pending && x.mail.stopping
         case Abandon(_) => x.caller.Idle?
         case MarkOrphan(_) => x.caller.Orphaning? && (x.caller.target.Some? ==> x.caller.target.value in s.tickets)
         case Close(_) => x.caller.Idle?
  }

  function Next(s: System, act: Action): System
    requires Enabled(s, act)
  {
    if act.Create? then Put(s, act.a, Artifact(Idle, Parked, EmptyMailbox(), act.open, [], [], []))
    else
      var x := s.artifacts[act.a];
      match act
      case Acquire(a, t) =>
        Put(Acquired(s, t), a, x.(caller := Admitted(t)))
      case Submit(a, request) =>
        var t := x.caller.ticket;
        if Accepts(x.mail, request.payload) then
          Put(s, a, x.(caller := Waiting(x.mail.sequence + 1, request.interruptible),
                       mail := Queued(x.mail, request, t), queued := x.queued + [request]))
        else
          Put(Release(s, t), a, x.(caller := Idle))
      case Return(a) =>
        var result := if x.mail.result.Some? then x.mail.result.value else Err(TF.ResourceAllocationFailed);
        Put(s, a, x.(caller := Idle, endings := x.endings + [Answered(result)]))
      case GiveUp(a) => Put(s, a, x.(caller := Idle, endings := x.endings + [Stopped]))
      case Take(a) =>
        Put(s, a, x.(thread := Running(x.mail.operation, x.mail.bytes, x.mail.interruptible, x.mail.sequence)))
      case Native(a, work) =>
        Put(s, a, x.(thread := Ran(x.thread.sequence, Done(x, work).Outcome()),
                     performed := x.performed + [Done(x, work)]))
      case Publish(a) =>
        Put(s, a, x.(thread := Releasing(x.mail.ticket.value),
                     mail := Published(x.mail, x.thread.sequence, x.thread.result)))
      case Finish(a) => Put(Release(s, x.thread.ticket), a, x.(thread := Parked))
      case Leave(a) => Put(s, a, x.(thread := Exited))
      case Abandon(a) => Put(s, a, x.(caller := Orphaning(x.mail.ticket), mail := x.mail.(stopping := true)))
      case MarkOrphan(a) =>
        Put(if x.caller.target.Some? then Orphan(s, x.caller.target.value) else s, a, x.(caller := Gone))
      case Close(a) => Put(s, a, x.(caller := Gone, mail := x.mail.(stopping := true)))
  }

  const START := System(0, 0, map[], map[])

  // ---------------------------------------------------------------- invariant of one artifact

  /** The mailbox carries at most one operation, and everything in it belongs to the latest sequence number. */
  predicate MailOk(x: Artifact) {
    var m := x.mail;
    && |m.buffer| == PAYLOAD_BYTES && m.bytes <= PAYLOAD_BYTES
    && m.sequence == |x.queued|
    && (m.pending <==> m.ticket.Some?)
    && m.completed == (if m.pending then m.sequence - 1 else m.sequence)
    && (m.sequence > 0 ==> Request(m.operation, m.buffer[..m.bytes], m.interruptible) == x.queued[m.sequence - 1])
    && (!m.pending && m.sequence > 0 ==>
          |x.performed| == m.sequence && m.result == Some(x.performed[m.sequence - 1].Outcome()))
  }

  /** Each queued operation is performed once, in order, on the handle the one before it left. */
  predicate InOrder(x: Artifact) {
    && |x.performed| <= |x.queued|
    && Chained(x.start, x.performed)
    && forall i :: 0 <= i < |x.performed| ==> x.performed[i].request == x.queued[i] && x.performed[i].Fits()
  }

  /** The I/O thread performs what is in the mailbox. */
  predicate ThreadOk(x: Artifact) {
    && |x.performed| == x.mail.completed + (if x.thread.Ran? then 1 else 0)
    && match x.thread
       case Running(op, bytes, interruptible, sequence) =>
         && x.mail.pending && op == x.mail.operation && bytes == x.mail.bytes
         && interruptible == x.mail.interruptible && sequence == x.mail.sequence
       case Ran(sequence, result) =>
         && x.mail.pending && sequence == x.mail.sequence
         && |x.performed| > 0 && result == x.performed[|x.performed| - 1].Outcome()
       case Exited => !x.mail.pending && x.mail.stopping
       case _ => true
  }

  /** An ended call either has the result of its own operation or could be interrupted. */
  predicate EndedOk(ending: Ending, i: nat, request: Request, performed: seq<Deed>) {
    match ending
    case Answered(result) => i < |performed| && result == performed[i].Outcome()
    case Stopped => request.interruptible
  }

  predicate CallerOk(x: Artifact) {
    && (x.caller.Waiting? ==>
          && x.caller.sequence == x.mail.sequence == |x.queued| > 0
          && x.caller.interruptible == x.queued[|x.queued| - 1].interruptible)
    && (x.caller.Orphaning? || x.caller.Gone? ==> x.mail.stopping)
    && |x.queued| == |x.endings| + (if x.caller.Waiting? then 1 else 0)
    && forall i :: 0 <= i < |x.endings| ==> EndedOk(x.endings[i], i, x.queued[i], x.performed)
  }

  predicate ArtifactOk(x: Artifact) {
    MailOk(x) && InOrder(x) && ThreadOk(x) && CallerOk(x)
  }

  // ---------------------------------------------------------------- invariant of the slots

  datatype Place = AtCaller | AtMailbox | AtThread

  predicate Holds(x: Artifact, p: Place, t: nat) {
    match p
    case AtCaller => x.caller == Admitted(t)
    case AtMailbox => x.mail.ticket == Some(t)
    case AtThread => x.thread == Releasing(t)
  }

  ghost predicate KeysAreLive(s: System, holder: map<nat, (nat, Place)>) {
    forall t :: t in holder <==> t in s.tickets && !s.tickets[t].released
  }

  predicate HeldWhereSaid(s: System, holder: map<nat, (nat, Place)>) {
    forall t :: t in holder ==> holder[t].0 in s.artifacts && Holds(s.artifacts[holder[t].0], holder[t].1, t)
  }

  ghost predicate HeldNowhereElse(s: System, holder: map<nat, (nat, Place)>) {
    forall a, p: Place, t :: a in s.artifacts && Holds(s.artifacts[a], p, t) ==> t in holder && holder[t] == (a, p)
  }

  predicate TargetsKnown(s: System) {
    forall a :: a in s.artifacts && s.artifacts[a].caller.Orphaning? && s.artifacts[a].caller.target.Some? ==>
      s.artifacts[a].caller.target.value in s.tickets
  }

  /** Every unreleased ticket is held in exactly one place, and only unreleased tickets are held. */
  ghost predicate Custody(s: System, holder: map<nat, (nat, Place)>) {
    KeysAreLive(s, holder) && HeldWhereSaid(s, holder) && HeldNowhereElse(s, holder) && TargetsKnown(s)
  }

  function Live(s: System): set<nat> {
    set t | t in s.tickets && !s.tickets[t].released
  }

  function LiveOrphans(s: System): set<nat> {
    set t | t in s.tickets && !s.tickets[t].released && s.tickets[t].orphaned
  }

  predicate Counted(s: System) {
    s.active == |Live(s)| <= MAXIMUM_WORKERS && s.orphaned == |LiveOrphans(s)|
  }

  ghost predicate Inv(s: System) {
    && Counted(s)
    && (exists holder :: Custody(s, holder))
    && forall a :: a in s.artifacts ==> ArtifactOk(s.artifacts[a])
  }

  // ---------------------------------------------------------------- slot accounting

  lemma AcquiredCounted(s: System, t: nat)
    requires Counted(s) && t !in s.tickets && s.active < MAXIMUM_WORKERS
    ensures Counted(Acquired(s, t))
  {
    assert Live(Acquired(s, t)) == Live(s) + {t};
    assert LiveOrphans(Acquired(s, t)) == LiveOrphans(s);
  }

  /** An unreleased ticket is in the counts, so taking it out of them cannot underflow. */
  lemma LiveIsCounted(s: System, t: nat)
    requires Counted(s) && t in s.tickets && !s.tickets[t].released
    ensures s.active >= 1 && (s.tickets[t].orphaned ==> s.orphaned >= 1)
  {
    assert t in Live(s) && (s.tickets[t].orphaned ==> t in LiveOrphans(s));
  }

  lemma ReleaseCounted(s: System, t: nat)
    requires Counted(s) && t in s.tickets
    ensures Counted(Release(s, t))
  {
    if !s.tickets[t].released {
      var u := Release(s, t);
      assert Live(u) == Live(s) - {t};
      assert LiveOrphans(u) == LiveOrphans(s) - {t};
    }
  }

  lemma OrphanCounted(s: System, t: nat)
    requires Counted(s) && t in s.tickets
    ensures Counted(Orphan(s, t))
  {
    if !s.tickets[t].released && !s.tickets[t].orphaned {
      var u := Orphan(s, t);
      assert Live(u) == Live(s);
      assert LiveOrphans(u) == LiveOrphans(s) + {t};
    }
  }

  lemma StepCounted(s: System, act: Action)
    requires Counted(s) && Enabled(s, act)
    ensures Counted(Next(s, act))
  {
    var u := Next(s, act);
    match act
    case Acquire(_, t) =>
      assert Live(u) == Live(s) + {t};
      assert LiveOrphans(u) == LiveOrphans(s);
    case Submit(a, _) =>
      ReleaseCounted(s, s.artifacts[a].caller.ticket);
      SameTickets(Release(s, s.artifacts[a].caller.ticket), u);
      SameTickets(s, u);
    case Finish(a) =>
      ReleaseCounted(s, s.artifacts[a].thread.ticket);
      SameTickets(Release(s, s.artifacts[a].thread.ticket), u);
    case MarkOrphan(a) =>
      if s.artifacts[a].caller.target.Some? {
        OrphanCounted(s, s.artifacts[a].caller.target.value);
        SameTickets(Orphan(s, s.artifacts[a].caller.target.value), u);
      } else {
        SameTickets(s, u);
      }
    case _ => SameTickets(s, u);
  }

  lemma SameTickets(s: System, u: System)
    ensures s.tickets == u.tickets ==> Live(s) == Live(u) && LiveOrphans(s) == LiveOrphans(u)
  {
  }

  // ---------------------------------------------------------------- one holder per ticket

  /** How one action moves the ticket it concerns. */
  ghost function Moved(s: System, act: Action, holder: map<nat, (nat, Place)>): map<nat, (nat, Place)>
    requires Enabled(s, act)
  {
    if act.Create? then holder
    else
      var x := s.artifacts[act.a];
      match act
      case Acquire(a, t) => holder[t := (a, AtCaller)]
      case Submit(a, request) =>
        if Accepts(x.mail, request.payload) then holder[x.caller.ticket := (a, AtMailbox)]
        else holder - {x.caller.ticket}
      case Publish(a) => holder[x.mail.ticket.value := (a, AtThread)]
      case Finish(a) => holder - {x.thread.ticket}
      case _ => holder
  }

  lemma StepKeys(s: System, act: Action, holder: map<nat, (nat, Place)>)
    requires Custody(s, holder) && Enabled(s, act)
    ensures KeysAreLive(Next(s, act), Moved(s, act, holder))
  {
    if !act.Create? {
      ConcernedTicket(s, act, holder);
    }
  }

  lemma StepTargets(s: System, act: Action, holder: map<nat, (nat, Place)>)
    requires Custody(s, holder) && Enabled(s, act)
    ensures TargetsKnown(Next(s, act))
  {
    if !act.Create? {
      ConcernedTicket(s, act, holder);
    }
  }

  lemma HeldWhereSaidAfterMove(s: System, act: Action, holder: map<nat, (nat, Place)>, t: nat)
    requires Custody(s, holder) && Enabled(s, act) && t in Moved(s, act, holder)
    requires act.a in s.artifacts ==> MailOk(s.artifacts[act.a])
    requires act.Acquire? || act.Submit? || act.Publish? || act.Finish?
    ensures var (a, p) := Moved(s, act, holder)[t];
      a in Next(s, act).artifacts && Holds(Next(s, act).artifacts[a], p, t)
  {
    OthersUntouched(s, act);
    ConcernedTicket(s, act, holder);
    if t in holder {
      assert Holds(s.artifacts[holder[t].0], holder[t].1, t);
    }
  }

  lemma HeldWhereSaidUnmoved(s: System, act: Action, holder: map<nat, (nat, Place)>, t: nat)
    requires Custody(s, holder) && Enabled(s, act) && t in holder
    requires !act.Acquire? && !act.Submit? && !act.Publish? && !act.Finish?
    ensures holder[t].0 in Next(s, act).artifacts && Holds(Next(s, act).artifacts[holder[t].0], holder[t].1, t)
  {
    OthersUntouched(s, act);
    assert Holds(s.artifacts[holder[t].0], holder[t].1, t);
  }

  lemma StepHeldWhereSaid(s: System, act: Action, holder: map<nat, (nat, Place)>)
    requires Custody(s, holder) && Enabled(s, act) && (act.a in s.artifacts ==> MailOk(s.artifacts[act.a]))
    ensures HeldWhereSaid(Next(s, act), Moved(s, act, holder))
  {
    forall t | t in Moved(s, act, holder)
      ensures var (a, p) := Moved(s, act, holder)[t];
        a in Next(s, act).artifacts && Holds(Next(s, act).artifacts[a], p, t)
    {
      if act.Acquire? || act.Submit? || act.Publish? || act.Finish? {
        HeldWhereSaidAfterMove(s, act, holder, t);
      } else {
        HeldWhereSaidUnmoved(s, act, holder, t);
      }
    }
  }

  lemma StepHeldNowhereElse(s: System, act: Action, holder: map<nat, (nat, Place)>)
    requires Custody(s, holder) && Enabled(s, act)
    ensures HeldNowhereElse(Next(s, act), Moved(s, act, holder))
  {
    var u, moved := Next(s, act), Moved(s, act, holder);
    OthersUntouched(s, act);
    if !act.Create? {
      ConcernedTicket(s, act, holder);
    }
    forall a, p: Place, t | a in u.artifacts && Holds(u.artifacts[a], p, t)
      ensures t in moved && moved[t] == (a, p)
    {
      if a != act.a {
        assert Holds(s.artifacts[a], p, t);
      } else if !act.Create? && Holds(s.artifacts[a], p, t) {
        assert holder[t] == (a, p);
      }
    }
  }

  lemma StepCustody(s: System, act: Action, holder: map<nat, (nat, Place)>)
    requires Custody(s, holder) && Enabled(s, act) && (act.a in s.artifacts ==> MailOk(s.artifacts[act.a]))
    ensures Custody(Next(s, act), Moved(s, act, holder))
  {
    StepKeys(s, act, holder);
    StepTargets(s, act, holder);
    StepHeldWhereSaid(s, act, holder);
    StepHeldNowhereElse(s, act, holder);
  }

  /** The ticket an action moves is held where the action expects it. */
  lemma ConcernedTicket(s: System, act: Action, holder: map<nat, (nat, Place)>)
    requires Custody(s, holder) && Enabled(s, act) && !act.Create?
    ensures var x := s.artifacts[act.a];
            && (x.caller.Admitted? ==> x.caller.ticket in holder && holder[x.caller.ticket] == (act.a, AtCaller))
            && (x.mail.ticket.Some? ==>
                  x.mail.ticket.value in holder && holder[x.mail.ticket.value] == (act.a, AtMailbox))
            && (x.thread.Releasing? ==> x.thread.ticket in holder && holder[x.thread.ticket] == (act.a, AtThread))
  {
    var x := s.artifacts[act.a];
    if x.caller.Admitted? {
      assert Holds(x, AtCaller, x.caller.ticket);
    }
    if x.mail.ticket.Some? {
      assert Holds(x, AtMailbox, x.mail.ticket.value);
    }
    if x.thread.Releasing? {
      assert Holds(x, AtThread, x.thread.ticket);
    }
  }

  // ---------------------------------------------------------------- each step keeps the invariant

  lemma SubmitArtifact(s: System, act: Action)
    requires Enabled(s, act) && act.Submit? && ArtifactOk(s.artifacts[act.a])
    ensures ArtifactOk(Next(s, act).artifacts[act.a])
  {
    var x := s.artifacts[act.a];
    if Accepts(x.mail, act.request.payload) {
      assert Queued(x.mail, act.request, x.caller.ticket).buffer[..|act.request.payload|] == act.request.payload;
    }
  }

  lemma CallerArtifact(s: System, act: Action)
    requires Enabled(s, act) && (!act.Create? ==> ArtifactOk(s.artifacts[act.a]))
    requires act.Create? || act.Acquire? || act.Abandon? || act.MarkOrphan? || act.Close?
    ensures ArtifactOk(Next(s, act).artifacts[act.a])
  {
  }

  lemma EndArtifact(s: System, act: Action)
    requires Enabled(s, act) && (act.Return? || act.GiveUp?) && ArtifactOk(s.artifacts[act.a])
    ensures ArtifactOk(Next(s, act).artifacts[act.a])
  {
    var x := s.artifacts[act.a];
    var i := |x.endings|;
    assert i + 1 == |x.queued|;
  }

  /** The deed of a native call is the next queued operation. */
  lemma DoneInOrder(x: Artifact, work: Work)
    requires ArtifactOk(x) && x.thread.Running? && Done(x, work).Fits()
    ensures InOrder(x.(performed := x.performed + [Done(x, work)]))
  {
    var performed := x.performed + [Done(x, work)];
    assert performed[..|x.performed|] == x.performed;
    assert Done(x, work).request == x.queued[|x.performed|];
  }

  /** Doing more changes no result that a call has returned. */
  lemma DoneKeepsEndings(x: Artifact, deed: Deed)
    requires CallerOk(x)
    ensures CallerOk(x.(performed := x.performed + [deed]))
  {
  }

  lemma NativeArtifact(s: System, act: Action)
    requires Enabled(s, act) && act.Native? && ArtifactOk(s.artifacts[act.a])
    ensures ArtifactOk(Next(s, act).artifacts[act.a])
  {
    var x := s.artifacts[act.a];
    DoneInOrder(x, act.work);
    DoneKeepsEndings(x, Done(x, act.work));
  }

  lemma ThreadArtifact(s: System, act: Action)
    requires Enabled(s, act) && (act.Take? || act.Publish? || act.Finish? || act.Leave?)
    requires ArtifactOk(s.artifacts[act.a])
    ensures ArtifactOk(Next(s, act).artifacts[act.a])
  {
  }

  lemma StepArtifact(s: System, act: Action)
    requires Enabled(s, act) && (forall a :: a in s.artifacts ==> ArtifactOk(s.artifacts[a]))
    ensures ArtifactOk(Next(s, act).artifacts[act.a])
  {
    if act.Submit? {
      SubmitArtifact(s, act);
    } else if act.Native? {
      NativeArtifact(s, act);
    } else if act.Return? || act.GiveUp? {
      EndArtifact(s, act);
    } else if act.Take? || act.Publish? || act.Finish? || act.Leave? {
      ThreadArtifact(s, act);
    } else {
      CallerArtifact(s, act);
    }
  }

  lemma StepInv(s: System, act: Action)
    requires Inv(s) && Enabled(s, act)
    ensures Inv(Next(s, act))
  {
    StepCounted(s, act);
    StepHeld(s, act);
    StepArtifacts(s, act);
  }

  lemma StepHeld(s: System, act: Action)
    requires Inv(s) && Enabled(s, act)
    ensures exists holder :: Custody(Next(s, act), holder)
  {
    var holder :| Custody(s, holder);
    StepCustody(s, act, holder);
  }

  lemma StepArtifacts(s: System, act: Action)
    requires Enabled(s, act) && forall a :: a in s.artifacts ==> ArtifactOk(s.artifacts[a])
    ensures forall a :: a in Next(s, act).artifacts ==> ArtifactOk(Next(s, act).artifacts[a])
  {
    StepArtifact(s, act);
    OthersUntouched(s, act);
  }

  lemma OthersUntouched(s: System, act: Action)
    requires Enabled(s, act)
    ensures Next(s, act).artifacts.Keys == s.artifacts.Keys + {act.a}
    ensures forall a :: a in s.artifacts && a != act.a ==> Next(s, act).artifacts[a] == s.artifacts[a]
  {
  }

  // ---------------------------------------------------------------- whole runs

  predicate Legal(s: System, actions: seq<Action>)
    decreases |actions|
  {
    actions == [] || (Enabled(s, actions[0]) && Legal(Next(s, actions[0]), actions[1..]))
  }

  function Execute(s: System, actions: seq<Action>): System
    requires Legal(s, actions)
    decreases |actions|
  {
    if actions == [] then s else Execute(Next(s, actions[0]), actions[1..])
  }

  lemma {:induction false} RunInv(s: System, actions: seq<Action>)
    requires Inv(s) && Legal(s, actions)
    ensures Inv(Execute(s, actions))
    decreases |actions|
  {
    if actions != [] {
      StepInv(s, actions[0]);
      RunInv(Next(s, actions[0]), actions[1..]);
    }
  }

  ghost predicate Reachable(t: System) {
    exists actions :: Legal(START, actions) && t == Execute(START, actions)
  }

  lemma {:induction false} RunSnoc(s: System, actions: seq<Action>, act: Action)
    requires Legal(s, actions) && Enabled(Execute(s, actions), act)
    ensures Legal(s, actions + [act]) && Execute(s, actions + [act]) == Next(Execute(s, actions), act)
    decreases |actions|
  {
    if actions == [] {
      assert [act][1..] == [];
    } else {
      RunSnoc(Next(s, actions[0]), actions[1..], act);
      assert (actions + [act])[1..] == actions[1..] + [act];
    }
  }

  lemma ReachableNext(t: System, act: Action)
    requires Reachable(t) && Enabled(t, act)
    ensures Reachable(Next(t, act))
  {
    var actions :| Legal(START, actions) && t == Execute(START, actions);
    RunSnoc(START, actions, act);
  }

  lemma ReachableInv(t: System)
    requires Reachable(t)
    ensures Inv(t)
  {
    assert Live(START) == {} && LiveOrphans(START) == {};
    assert Custody(START, map[]);
    var actions :| Legal(START, actions) && t == Execute(START, actions);
    RunInv(START, actions);
  }

  /** Both counters are the numbers of unreleased tickets of their kind, and stay within the pool. */
  lemma SlotsAreExact(t: System)
    requires Reachable(t)
    ensures t.active == |Live(t)| && t.orphaned == |LiveOrphans(t)|
    ensures 0 <= t.orphaned <= t.active <= MAXIMUM_WORKERS
  {
    ReachableInv(t);
    SubsetSize(LiveOrphans(t), Live(t));
  }

  lemma {:induction false} SubsetSize(a: set<nat>, b: set<nat>)
    requires a <= b
    ensures |a| <= |b|
  {
    assert b == a + (b - a);
  }

  /** Nobody holds a ticket that it would still have to release. */
  predicate Settled(t: System) {
    forall a :: a in t.artifacts ==>
      && !t.artifacts[a].caller.Admitted? && t.artifacts[a].mail.ticket.None?
      && !t.artifacts[a].thread.Releasing?
  }

  /** When nobody is left who would release a ticket, no ticket is left. */
  lemma IdleMeansReleased(t: System)
    requires Reachable(t) && Settled(t)
    ensures t.active == 0
  {
    ReachableInv(t);
    var holder :| Custody(t, holder);
    assert holder.Keys == {};
    assert Live(t) == {};
  }

  /**
   No ticket is released twice, and none is lost: whoever is about to release a ticket releases it for
   the first time, and an unreleased ticket always has a holder that still has to release it.
   */
  lemma TicketsReleasedOnce(t: System, act: Action)
    requires Reachable(t) && Enabled(t, act)
    ensures act.Finish? ==> !t.tickets[t.artifacts[act.a].thread.ticket].released
    ensures act.Submit? ==> !t.tickets[t.artifacts[act.a].caller.ticket].released
    ensures Settled(t) ==> t.active == 0
  {
    ReachableInv(t);
    var holder :| Custody(t, holder);
    if act.Finish? {
      assert Holds(t.artifacts[act.a], AtThread, t.artifacts[act.a].thread.ticket);
    }
    if act.Submit? {
      assert Holds(t.artifacts[act.a], AtCaller, t.artifacts[act.a].caller.ticket);
    }
    if Settled(t) {
      IdleMeansReleased(t);
    }
  }

  /**
   What a call that was not interrupted returns is the result of the operation it queued, and the
   file received exactly the queued operations, once each, in order, with their payloads.  A call that
   cannot be interrupted always returns that result.
   */
  lemma CallsReturnTheirOwnResult(t: System, a: nat)
    requires Reachable(t) && a in t.artifacts
    ensures var x := t.artifacts[a];
      && InOrder(x) && |x.endings| <= |x.queued|
      && forall i :: 0 <= i < |x.endings| && (x.endings[i].Answered? || !x.queued[i].interruptible) ==>
           i < |x.performed| && x.endings[i] == Answered(x.performed[i].Outcome())
  {
    ReachableInv(t);
  }

  /**
   The fates of an operation, along every run.  A refused one is never queued.  An accepted one is queued
   when everything queued before it has been performed, and giving up takes nothing back: so it has been
   performed when anything else is queued later, whether or not its caller waited.  A caller that waits
   returns the result of its own operation.
   */
  lemma FatesOfAnOperation(t: System, act: Action)
    requires Reachable(t) && Enabled(t, act) && (act.Submit? || act.GiveUp? || act.Return?)
    ensures var x, y := t.artifacts[act.a], Next(t, act).artifacts[act.a];
      && y.performed == x.performed
      && match act
         case Submit(_, request) =>
           if Accepts(x.mail, request.payload) then |x.performed| == |x.queued| && y.queued == x.queued + [request]
           else y.queued == x.queued && y.caller.Idle?
         case GiveUp(_) => y.queued == x.queued && y.caller.Idle? && y.endings == x.endings + [Stopped]
         case Return(_) =>
           && y.queued == x.queued && |x.performed| == |x.queued| > 0
           && y.endings == x.endings + [Answered(x.performed[|x.queued| - 1].Outcome())]
         case _ => true
  {
    ReachableInv(t);
  }

  /**
   Abandoning a writer names the ticket of the operation in progress, if there is one, and asks its thread
   to stop; closing it only asks.  Nothing can be queued after that.
   */
  lemma AbandonExactly(s: System, act: Action)
    requires Enabled(s, act) && (act.Abandon? || act.Close?)
    ensures var x, y := s.artifacts[act.a], Next(s, act).artifacts[act.a];
      && y == x.(caller := if act.Abandon? then Orphaning(x.mail.ticket) else Gone, mail := x.mail.(stopping := true))
      && forall act': Action :: act'.Submit? && act'.a == act.a ==> !Enabled(Next(s, act), act')
  {
  }

  /** An abandoned operation's ticket counts as an orphan's until the thread releases it, and no other does. */
  lemma OrphanExactly(s: System, act: Action)
    requires Enabled(s, act) && act.MarkOrphan?
    ensures var target, t := s.artifacts[act.a].caller.target, Next(s, act);
      && t.artifacts[act.a].caller.Gone?
      && (target.Some? && !s.tickets[target.value].released ==> t.tickets[target.value] == Ticket(true, false))
      && forall other :: other in s.tickets && (target != Some(other) || s.tickets[other].released) ==>
           t.tickets[other] == s.tickets[other]
  {
  }

  /** The I/O thread takes what is queued, publishes what it did and gives its slot back, and stops when asked. */
  lemma ThreadExactly(t: System, act: Action)
    requires Reachable(t) && Enabled(t, act)
    ensures act.Take? || act.Native? || act.Publish? || act.Finish? || act.Leave? ==>
      var x, y := t.artifacts[act.a], Next(t, act).artifacts[act.a];
      && y.caller == x.caller && y.queued == x.queued && y.endings == x.endings && y.start == x.start
      && (!act.Native? ==> y.performed == x.performed)
      && (act.Native? ==> |y.performed| == |x.performed| + 1 && y.performed[|x.performed|].work == act.work)
      && (!act.Publish? ==> y.mail == x.mail)
      && (act.Publish? ==>
            !y.mail.pending && y.mail.result == Some(x.thread.result) && y.mail.completed == x.thread.sequence)
      && (act.Finish? ==> y.thread.Parked? && Next(t, act).tickets[x.thread.ticket].released)
      && (act.Leave? ==> y.thread.Exited?)
    ensures act.Create? ==> Next(t, act).artifacts[act.a].start == act.open
    ensures act.Acquire? ==>
      && Next(t, act).artifacts[act.a].caller == Admitted(act.ticket)
      && Next(t, act).tickets == t.tickets[act.ticket := Ticket(false, false)]
  {
    ReachableInv(t);
  }

  /** While an operation is queued or running, no action changes the payload it is reading. */
  lemma PayloadIsStable(t: System, act: Action, a: nat)
    requires Enabled(t, act) && a in t.artifacts && t.artifacts[a].mail.pending
    requires Next(t, act).artifacts[a].mail.pending
    ensures Next(t, act).artifacts[a].mail.sequence == t.artifacts[a].mail.sequence
    ensures Next(t, act).artifacts[a].mail.buffer == t.artifacts[a].mail.buffer
    ensures Next(t, act).artifacts[a].mail.bytes == t.artifacts[a].mail.bytes
  {
  }
}
