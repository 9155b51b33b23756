/**
 `ConnectionDispatcher::Impl`: two ring buffers, the admission slots and the counters that the
 mutex protects.  Every method is one action of the protocol: it keeps the representation sound and
 moves the abstract stages by exactly one protocol step.  The checks behind which the program calls
 `std::terminate` appear as assertions.
 */
module Dispatcher {
  import opened Basics
  import opened TextSearch
  import opened DispatcherProtocol
  import Ring = RingBuffer

  datatype SubmitError = InvalidConnection | Cancelled | Stopped

  /** The search of `prefix_complete`: only the new bytes and a marker-sized overlap before them. */
  predicate PrefixComplete(prefix: string, previousSize: nat, marker: string)
    requires 0 < |marker|
  {
    var overlap := |marker| - 1;
    FoundFrom(prefix, marker, if previousSize > overlap then previousSize - overlap else 0)
  }

  /** Looking only behind the overlap misses nothing, because the old prefix held no marker. */
  lemma IncrementalSearchAgrees(prefix: string, previousSize: nat, marker: string)
    requires 0 < |marker| && previousSize <= |prefix|
    requires !Contains(prefix[..previousSize], marker)
    ensures PrefixComplete(prefix, previousSize, marker) <==> Contains(prefix, marker)
  {
    if Contains(prefix, marker) {
      var at: nat :| at <= |prefix| && OccursAt(prefix, marker, at);
      if at + |marker| <= previousSize {
        assert prefix[..previousSize][at..at + |marker|] == marker;
        assert OccursAt(prefix[..previousSize], marker, at);
        assert false;
      }
    }
  }

  method ResetAll<T>(slots: array<Option<T>>)
    modifies slots
    ensures forall i :: 0 <= i < slots.Length ==> slots[i] == None
  {
    for i := 0 to slots.Length
      invariant forall k :: 0 <= k < i ==> slots[k] == None
    {
      slots[i] := None;
    }
  }

  class Impl {
    const config: Config
    const readyQueue: array<Option<Connection>>
    const acceptedQueue: array<Option<Connection>>
    const admissions: array<Option<AdmissionEntry>>
    var promoting: Option<Connection>  // local to `promote`, between leaving a slot and taking the mutex
    var readyHead: nat
    var readyCount: nat
    var acceptedHead: nat
    var acceptedCount: nat
    var ownedCount: nat
    var stopping: bool

    ghost var submitted: seq<Connection>
    ghost var queued: seq<Connection>
    ghost var handed: seq<Connection>
    ghost var closed: seq<Connection>

    ghost predicate Sound()
      reads this, readyQueue, acceptedQueue, admissions
    {
      && readyQueue.Length == acceptedQueue.Length == config.capacity
      && readyQueue != acceptedQueue
      && Ring.Valid(readyQueue[..], readyHead, readyCount)
      && Ring.Valid(acceptedQueue[..], acceptedHead, acceptedCount)
    }

    ghost function Abs(): Stages
      requires Sound()
      reads this, readyQueue, acceptedQueue, admissions
    {
      Stages(Ring.Window(acceptedQueue[..], acceptedHead, acceptedCount), admissions[..], promoting,
             Ring.Window(readyQueue[..], readyHead, readyCount), ownedCount, stopping,
             submitted, queued, handed, closed)
    }

    ghost predicate Valid()
      reads this, readyQueue, acceptedQueue, admissions
    {
      Sound() && Inv(config, Abs())
    }

    constructor (config: Config)
      requires config.Valid()
      ensures Valid() && this.config == config && Abs() == Start(config)
      ensures fresh(readyQueue) && fresh(acceptedQueue) && fresh(admissions)
    {
      this.config := config;
      readyQueue := new Option<Connection>[config.capacity](i => None);
      acceptedQueue := new Option<Connection>[config.capacity](i => None);
      admissions := new Option<AdmissionEntry>[if config.admission.Some? then config.capacity else 0](i => None);
      promoting, stopping := None, false;
      readyHead, readyCount, acceptedHead, acceptedCount, ownedCount := 0, 0, 0, 0, 0;
      submitted, queued, handed, closed := [], [], [], [];
      new;
      Ring.Cleared(readyQueue[..]);
      Ring.Cleared(acceptedQueue[..]);
      StartInv(config);
      assert admissions[..] == Vacant(admissions.Length);
    }

    /** Appends to the ready ring; the tail slot is vacant, so nothing is overwritten. */
    method EnqueueReady(c: Connection)
      requires Sound() && readyCount < config.capacity
      modifies this`readyCount, this`queued, readyQueue
      ensures Sound() && Abs() == DispatcherProtocol.EnqueueReady(old(Abs()), c)
    {
      var tail := Ring.SlotAt(readyHead, readyCount, readyQueue.Length);
      ghost var before := readyQueue[..];
      Ring.Push(before, readyHead, readyCount, c);
      assert readyQueue[tail].None?;
      readyQueue[tail] := Some(c);
      assert readyQueue[..] == before[tail := Some(c)];
      readyCount := readyCount + 1;
      queued := queued + [c];
    }

    /** Appends to the accepted ring; the tail slot is vacant here too. */
    method PushAccepted(c: Connection)
      requires Sound() && acceptedCount < config.capacity
      modifies this`acceptedCount, acceptedQueue
      ensures Sound() && Abs() == old(Abs()).(accepted := old(Abs()).accepted + [c])
    {
      var tail := Ring.SlotAt(acceptedHead, acceptedCount, acceptedQueue.Length);
      ghost var before := acceptedQueue[..];
      ghost var slots := admissions[..];
      Ring.Push(before, acceptedHead, acceptedCount, c);
      assert acceptedQueue[tail].None?;
      acceptedQueue[tail] := Some(c);
      assert acceptedQueue[..] == before[tail := Some(c)];
      acceptedCount := acceptedCount + 1;
      assert admissions[..] == slots;
    }

    /**
     A producer that got past its wait.  `cancelled` is the caller's stop token; the wait itself
     only ends without room or shutdown when that token is requested meanwhile.
     */
    method Submit(c: Connection, cancelled: bool) returns (r: Result<(), SubmitError>)
      requires Valid() && FreshId(Abs(), c.id)
      modifies this, readyQueue, acceptedQueue
      ensures Valid()
      ensures r == if !c.open then Err(InvalidConnection)
                   else if cancelled then Err(Cancelled)
                   else if old(stopping) then Err(Stopped)
                   else if old(ownedCount) < config.capacity then Ok(())
                   else Err(Cancelled)
      ensures Abs() == if r.Ok? then Next(config, old(Abs()), Action.Submit(c)) else old(Abs())
    {
      if !c.open {
        return Err(InvalidConnection);
      }
      if cancelled {
        return Err(Cancelled);
      }
      if !stopping && ownedCount >= config.capacity {
        return Err(Cancelled);
      }
      if stopping {
        return Err(Stopped);
      }
      StepInv(config, Abs(), Action.Submit(c));
      ownedCount := ownedCount + 1;
      submitted := submitted + [c];
      if config.admission.Some? {
        PushAccepted(c);
      } else {
        EnqueueReady(c);
      }
      return Ok(());
    }

    /** A worker that woke up with work available takes the oldest ready connection. */
    method Dequeue() returns (c: Connection)
      requires Valid() && !stopping && 0 < readyCount
      modifies this, readyQueue
      ensures Valid() && c == old(Abs()).ready[0]
      ensures Abs() == Next(config, old(Abs()), Action.Dequeue)
    {
      StepInv(config, Abs(), Action.Dequeue);
      c := PopReady();
      ownedCount := ownedCount - 1;
      handed := handed + [c];
    }

    /** Takes the oldest element off the ready ring; the head slot is occupied. */
    method PopReady() returns (c: Connection)
      requires Sound() && 0 < readyCount
      modifies this`readyHead, this`readyCount, readyQueue
      ensures Sound() && old(Abs()).ready != [] && c == old(Abs()).ready[0]
      ensures Abs() == old(Abs()).(ready := old(Abs()).ready[1..])
    {
      ghost var before := readyQueue[..];
      ghost var slots := admissions[..];
      Ring.Pop(before, readyHead, readyCount);
      assert readyQueue[readyHead].Some?;
      c := readyQueue[readyHead].value;
      readyQueue[readyHead] := None;
      assert readyQueue[..] == before[readyHead := None];
      readyHead := Ring.SlotAt(readyHead, 1, readyQueue.Length);
      readyCount := readyCount - 1;
      assert admissions[..] == slots;
    }

    /** Moves every accepted connection into a vacant admission slot, in order. */
    method DrainAccepted() returns (running: bool)
      requires Valid() && config.admission.Some? && promoting.None?
      requires admissions.Length == config.capacity
      modifies this`acceptedHead, this`acceptedCount, acceptedQueue, admissions
      ensures Valid() && running == !stopping
      ensures Abs() == if running then Next(config, old(Abs()), Action.Drain) else old(Abs())
    {
      if stopping {
        return false;
      }
      ghost var initial := Abs();
      while acceptedCount > 0
        invariant Valid() && !stopping
        invariant DrainAll(Abs()) == DrainAll(initial)
        decreases acceptedCount
      {
        ghost var s := Abs();
        DrainOneInv(config, s);
        AdmitOldest();
      }
      return true;
    }

    /** The oldest accepted connection moves into the first vacant slot; both searches must succeed. */
    method AdmitOldest()
      requires Sound() && 0 < acceptedCount && FirstFree(admissions[..]) < admissions.Length
      modifies this`acceptedHead, this`acceptedCount, acceptedQueue, admissions
      ensures Sound() && old(Abs()).accepted != [] && Abs() == DrainOne(old(Abs()))
      ensures acceptedCount == old(acceptedCount) - 1
    {
      var free := FirstFree(admissions[..]);
      ghost var before, ready := acceptedQueue[..], readyQueue[..];
      Ring.Pop(before, acceptedHead, acceptedCount);
      assert acceptedQueue[acceptedHead].Some?;
      var c := acceptedQueue[acceptedHead].value;
      acceptedQueue[acceptedHead] := None;
      assert acceptedQueue[..] == before[acceptedHead := None];
      ghost var slots := admissions[..];
      admissions[free] := Some(AdmissionEntry(c, "", c.acceptedAt, c.acceptedAt));
      assert admissions[..] == slots[free := admissions[free]] && readyQueue[..] == ready;
      acceptedHead := Ring.SlotAt(acceptedHead, 1, acceptedQueue.Length);
      acceptedCount := acceptedCount - 1;
    }

    /** The first half of `promote`, which touches only slots of the admission thread. */
    method BeginPromotion(index: nat)
      requires Sound() && promoting.None? && index < admissions.Length
      modifies this`promoting, admissions
      ensures Sound() && Abs() == DispatcherProtocol.BeginPromotion(old(Abs()), index)
    {
      if admissions[index].None? {
        return;
      }
      ghost var slots := admissions[..];
      promoting := Some(admissions[index].value.Promoted());
      admissions[index] := None;
      assert admissions[..] == slots[index := None];
    }

    /** One round of `promote_all_admissions`: after a failure of the poller every slot is promoted. */
    method Promote(index: nat)
      requires Valid() && config.admission.Some? && promoting.None? && index < admissions.Length
      modifies this`promoting, admissions
      ensures Valid() && Abs() == Next(config, old(Abs()), Action.Promote(index, PollerFailed))
      ensures admissions[index].None? && (old(admissions[index]).Some? ==> promoting.Some?)
    {
      StepInv(config, Abs(), Action.Promote(index, PollerFailed));
      BeginPromotion(index);
    }

    /** One round of `promote_expired`: a slot is promoted exactly when one of its timeouts has passed. */
    method PromoteIfExpired(index: nat, now: int)
      requires Valid() && config.admission.Some? && promoting.None? && index < admissions.Length
      modifies this`promoting, admissions
      ensures Valid()
      ensures old(admissions[index]).Some? ==>
        (admissions[index].None? <==> old(admissions[index]).value.Deadline(config.admission.value) <= now)
      ensures Abs() == if admissions[index].None? && old(admissions[index]).Some?
                       then Next(config, old(Abs()), Action.Promote(index, PastDeadline(now))) else old(Abs())
    {
      if admissions[index].None? {
        return;
      }
      var entry, options := admissions[index].value, config.admission.value;
      DeadlineIsExact(options, entry, now);
      if now >= entry.lastProgress + options.inactivityTimeout || now >= entry.accepted + options.totalTimeout {
        StepInv(config, Abs(), Action.Promote(index, PastDeadline(now)));
        BeginPromotion(index);
      }
    }

    /** When the poller must wake up: the first instant at which some slot is expired. */
    method NextAdmissionDeadline() returns (r: Option<int>)
      requires Valid() && config.admission.Some?
      ensures r.None? <==> forall i :: 0 <= i < admissions.Length ==> admissions[i].None?
      ensures forall now ::
        SomeExpired(config.admission.value, admissions[..], now) <==> r.Some? && r.value <= now
    {
      var options := config.admission.value;
      r := None;
      for n := 0 to admissions.Length
        invariant r.None? <==> forall i :: 0 <= i < n ==> admissions[i].None?
        invariant r.Some? ==>
          exists i :: 0 <= i < n && admissions[i].Some? && admissions[i].value.Deadline(options) == r.value
        invariant r.Some? ==> forall i :: 0 <= i < n && admissions[i].Some? ==>
          r.value <= admissions[i].value.Deadline(options)
      {
        if admissions[n].Some? {
          var deadline := admissions[n].value.Deadline(options);
          r := Some(if r.Some? && r.value < deadline then r.value else deadline);
        }
      }
      forall now ensures SomeExpired(options, admissions[..], now) <==> r.Some? && r.value <= now {
        forall i | 0 <= i < admissions.Length && admissions[i].Some?
          ensures admissions[..][i].value.Expired(options, now) <==> admissions[i].value.Deadline(options) <= now
        {
          DeadlineIsExact(options, admissions[i].value, now);
        }
      }
    }

    /** The second half of `promote`, under the mutex: enqueue, or close when shutdown came first. */
    method FinishPromotion()
      requires Valid() && promoting.Some?
      modifies this, readyQueue
      ensures Valid() && Abs() == Next(config, old(Abs()), Action.FinishPromotion)
    {
      StepInv(config, Abs(), Action.FinishPromotion);
      var c := promoting.value;
      promoting := None;
      if stopping {
        closed := closed + [c];
      } else {
        EnqueueReady(c);
      }
    }

    /**
     One bounded receive on a readable admission slot.  `outcomes` are the results of successive
     native calls; the program repeats the call while it is interrupted.
     */
    method InspectAdmission(index: nat, outcomes: seq<ReceiveOutcome>, now: int) returns (settled: ReceiveOutcome)
      requires Valid() && config.admission.Some? && promoting.None? && index < admissions.Length
      requires exists k :: 0 <= k < |outcomes| && !outcomes[k].Interrupted?
      requires admissions[index].Some? ==>
                 forall k :: 0 <= k < |outcomes| && outcomes[k].Received? ==>
                   outcomes[k].count <= Min(config.admission.value.maxPrefixBytes - |admissions[index].value.prefix|,
                                            |admissions[index].value.connection.unread|)
      modifies this`promoting, admissions
      ensures Valid() && settled in outcomes && !settled.Interrupted?
      ensures Enabled(config, old(Abs()), Action.Receive(index, settled, now))
      ensures Abs() == Next(config, old(Abs()), Action.Receive(index, settled, now))
    {
      var k := 0;
      while outcomes[k].Interrupted?
        invariant 0 <= k < |outcomes|
        invariant forall j :: 0 <= j < k ==> outcomes[j].Interrupted?
        decreases |outcomes| - k
      {
        k := k + 1;
      }
      settled := outcomes[k];
      if admissions[index].None? {
        return;
      }
      StepInv(config, Abs(), Action.Receive(index, settled, now));
      var entry := admissions[index].value;
      if settled.Received? {
        var previousSize := |entry.prefix|;
        var grown := Grown(entry, settled.count, now);
        ghost var slots := admissions[..];
        admissions[index] := Some(grown);
        assert admissions[..] == slots[index := Some(grown)];
        assert grown.prefix[..previousSize] == entry.prefix;
        assert Waiting(config.admission.value, slots[index].value);
        IncrementalSearchAgrees(grown.prefix, previousSize, config.admission.value.marker);
        if settled.count == 0 || |grown.prefix| == config.admission.value.maxPrefixBytes
           || PrefixComplete(grown.prefix, previousSize, config.admission.value.marker) {
          BeginPromotion(index);
        }
      } else if settled.Failed? {
        BeginPromotion(index);
      }
    }

    /** Shutdown closes everything the mutex protects and zeroes the counters. */
    method RequestStop()
      requires Valid()
      modifies this, readyQueue, acceptedQueue
      ensures Valid() && Abs() == Next(config, old(Abs()), Action.Stop)
    {
      if stopping {
        return;
      }
      StepInv(config, Abs(), Action.Stop);
      closed := closed + Abs().ready + Bares(Abs().accepted);
      stopping := true;
      ClearRings();
      ownedCount := 0;
    }

    /** Every slot of both rings becomes vacant. */
    method ClearRings()
      requires Sound()
      modifies this`readyCount, this`readyHead, this`acceptedCount, this`acceptedHead, readyQueue, acceptedQueue
      ensures Sound() && Abs() == old(Abs()).(ready := [], accepted := [])
    {
      ghost var before := admissions[..];
      ResetAll(readyQueue);
      ResetAll(acceptedQueue);
      readyCount, readyHead, acceptedCount, acceptedHead := 0, 0, 0, 0;
      Ring.Cleared(readyQueue[..]);
      Ring.Cleared(acceptedQueue[..]);
      assert admissions[..] == before;
    }

    /** The end of the admission thread, reached only after shutdown began. */
    method ExitAdmission()
      requires Valid() && stopping && promoting.None?
      modifies this`closed, admissions
      ensures Valid() && Abs() == Next(config, old(Abs()), Action.ExitAdmission)
    {
      StepInv(config, Abs(), Action.ExitAdmission);
      closed := closed + Entries(admissions[..]);
      ResetAll(admissions);
      assert admissions[..] == Vacant(admissions.Length);
    }
  }
}
