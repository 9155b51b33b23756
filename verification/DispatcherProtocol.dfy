/**
 The connection dispatcher as a transition system.  An action is one mutex-protected region, or
 one thing the admission thread does to slots that only it touches; a run is any sequence of
 enabled actions, which covers every interleaving of producers, the admission thread, the workers
 and shutdown.
 */
module DispatcherProtocol {
  import opened Basics
  import opened TextSearch

  /** An accepted socket.  `unread` is what the peer sends and the kernel has not yet delivered. */
  datatype Connection = Connection(
    id: nat, open: bool, acceptedAt: int, lastProgress: int,
    prefetched: string, prefetchedOffset: nat, unread: string)
  {
    /** Every byte the owner of this connection can still receive, in order. */
    function Stream(): string {
      (if prefetchedOffset <= |prefetched| then prefetched[prefetchedOffset..] else "") + unread
    }
  }

  /** A connection without bytes kept for replay, which is how admission treats every connection. */
  function Bare(c: Connection): Connection {
    c.(prefetched := "", prefetchedOffset := 0)
  }

  datatype AdmissionEntry = AdmissionEntry(
    connection: Connection, prefix: string, lastProgress: int, accepted: int)
  {
    function Stream(): string {
      prefix + connection.unread
    }

    /** The connection as `promote` hands it on: the consumed prefix becomes the prefetched bytes. */
    function Promoted(): Connection {
      connection.(prefetched := prefix, prefetchedOffset := 0)
    }

    /** The instant from which the entry is expired. */
    function Deadline(options: AdmissionOptions): int {
      var idle, total := lastProgress + options.inactivityTimeout, accepted + options.totalTimeout;
      if idle < total then idle else total
    }

    predicate Expired(options: AdmissionOptions, now: int) {
      now >= lastProgress + options.inactivityTimeout || now >= accepted + options.totalTimeout
    }
  }

  datatype AdmissionOptions = AdmissionOptions(
    maxPrefixBytes: nat, marker: string, inactivityTimeout: int, totalTimeout: int)

  datatype Config = Config(capacity: nat, admission: Option<AdmissionOptions>) {
    /** What `ConnectionDispatcher::create` checks before starting. */
    predicate Valid() {
      && 0 < capacity
      && (admission.Some? ==>
            && 0 < |admission.value.marker| <= admission.value.maxPrefixBytes
            && 0 < admission.value.inactivityTimeout
            && 0 < admission.value.totalTimeout)
    }
  }

  /** The stages, oldest connection first, with the history of each connection's last transfer. */
  datatype Stages = Stages(
    accepted: seq<Connection>,
    slots: seq<Option<AdmissionEntry>>,
    promoting: Option<Connection>,
    ready: seq<Connection>,
    owned: int,
    stopping: bool,
    submitted: seq<Connection>,
    queued: seq<Connection>,
    handed: seq<Connection>,
    closed: seq<Connection>)

  /** What one native receive on an admission socket can report. */
  datatype ReceiveOutcome = Received(count: nat) | Interrupted | WouldBlock | Failed

  /** Why admission hands on a connection whose prefix is not complete. */
  datatype Cause = PastDeadline(now: int) | PollerFailed

  datatype Action =
    | Submit(connection: Connection)
    | Drain
    | Receive(slot: nat, outcome: ReceiveOutcome, now: int)
    | Promote(slot: nat, cause: Cause)
    | FinishPromotion
    | Dequeue
    | Stop
    | ExitAdmission

  // ---------------------------------------------------------------- steps

  /** First vacant admission slot, or the slot count when there is none. */
  function FirstFree<T>(slots: seq<Option<T>>): (i: nat)
    ensures i <= |slots|
    ensures i < |slots| ==> slots[i].None?
    ensures forall k :: 0 <= k < i ==> slots[k].Some?
  {
    if slots == [] then 0
    else if slots[0].None? then 0
    else 1 + FirstFree(slots[1..])
  }

  function Occupied<T>(slots: seq<Option<T>>): (n: nat)
    ensures n <= |slots|
  {
    if slots == [] then 0 else (if slots[0].Some? then 1 else 0) + Occupied(slots[1..])
  }

  function EnqueueReady(s: Stages, c: Connection): Stages {
    s.(ready := s.ready + [c], queued := s.queued + [c])
  }

  function DrainOne(s: Stages): Stages
    requires s.accepted != [] && FirstFree(s.slots) < |s.slots|
  {
    var c := s.accepted[0];
    s.(accepted := s.accepted[1..],
       slots := s.slots[FirstFree(s.slots) :=
                        Some(AdmissionEntry(c, "", c.acceptedAt, c.acceptedAt))])
  }

  function DrainAll(s: Stages): Stages
    decreases |s.accepted|
  {
    if s.accepted == [] || FirstFree(s.slots) == |s.slots| then s else DrainAll(DrainOne(s))
  }

  function BeginPromotion(s: Stages, i: nat): Stages
    requires i < |s.slots|
  {
    if s.slots[i].None? then s
    else s.(slots := s.slots[i := None], promoting := Some(s.slots[i].value.Promoted()))
  }

  /** A prefix stops waiting once it is full or holds the marker anywhere. */
  predicate PrefixSettled(options: AdmissionOptions, prefix: string) {
    |prefix| == options.maxPrefixBytes || Contains(prefix, options.marker)
  }

  /** The entry after `n` more bytes arrived on its socket. */
  function Grown(entry: AdmissionEntry, n: nat, now: int): AdmissionEntry
    requires n <= |entry.connection.unread|
  {
    if n == 0 then entry
    else AdmissionEntry(
           entry.connection.(unread := entry.connection.unread[n..], lastProgress := now),
           entry.prefix + entry.connection.unread[..n], now, entry.accepted)
  }

  function AfterReceive(options: AdmissionOptions, s: Stages, i: nat, outcome: ReceiveOutcome, now: int): Stages
    requires i < |s.slots|
    requires s.slots[i].Some? && outcome.Received? ==> outcome.count <= |s.slots[i].value.connection.unread|
  {
    if s.slots[i].None? then s
    else match outcome
      case Received(n) =>
        var entry := Grown(s.slots[i].value, n, now);
        var grown := s.(slots := s.slots[i := Some(entry)]);
        if n == 0 || PrefixSettled(options, entry.prefix) then BeginPromotion(grown, i) else grown
      case Failed => BeginPromotion(s, i)
      case _ => s
  }

  function Vacant(n: nat): seq<Option<AdmissionEntry>> {
    seq(n, i => None)
  }

  function Entries(slots: seq<Option<AdmissionEntry>>): seq<Connection> {
    if slots == [] then []
    else (if slots[0].Some? then [slots[0].value.Promoted()] else []) + Entries(slots[1..])
  }

  predicate FreshId(s: Stages, id: nat) {
    forall k :: 0 <= k < |s.submitted| ==> s.submitted[k].id != id
  }

  /** An open connection that was never submitted before. */
  predicate Submittable(s: Stages, c: Connection) {
    c.open && FreshId(s, c.id)
  }

  predicate Enabled(cfg: Config, s: Stages, a: Action) {
    match a
    case Submit(c) => !s.stopping && s.owned < cfg.capacity && Submittable(s, c)
    case Drain => cfg.admission.Some? && !s.stopping && s.promoting.None?
    case Receive(i, outcome, _) =>
      && cfg.admission.Some? && s.promoting.None? && i < |s.slots| && !outcome.Interrupted?
      && (s.slots[i].Some? && outcome.Received? ==>
            && outcome.count <= |s.slots[i].value.connection.unread|
            && |s.slots[i].value.prefix| + outcome.count <= cfg.admission.value.maxPrefixBytes)
    case Promote(i, cause) =>
      && cfg.admission.Some? && s.promoting.None? && i < |s.slots|
      && (s.slots[i].Some? && cause.PastDeadline? ==> s.slots[i].value.Expired(cfg.admission.value, cause.now))
    case FinishPromotion => s.promoting.Some?
    case Dequeue => !s.stopping && s.ready != []
    case Stop => true
    case ExitAdmission => s.stopping && s.promoting.None?
  }

  function Next(cfg: Config, s: Stages, a: Action): Stages
    requires Enabled(cfg, s, a)
  {
    match a
    case Submit(c) =>
      var t := s.(owned := s.owned + 1, submitted := s.submitted + [c]);
      if cfg.admission.Some? then t.(accepted := t.accepted + [c]) else EnqueueReady(t, c)
    case Drain => DrainAll(s)
    case Receive(i, outcome, now) => AfterReceive(cfg.admission.value, s, i, outcome, now)
    case Promote(i, _) => BeginPromotion(s, i)
    case FinishPromotion =>
      var t := s.(promoting := None);
      if s.stopping then t.(closed := s.closed + [s.promoting.value])
      else EnqueueReady(t, s.promoting.value)
    case Dequeue => s.(ready := s.ready[1..], owned := s.owned - 1, handed := s.handed + [s.ready[0]])
    case Stop =>
      if s.stopping then s
      else s.(stopping := true, ready := [], accepted := [], owned := 0,
              closed := s.closed + s.ready + Bares(s.accepted))
    case ExitAdmission => s.(slots := Vacant(|s.slots|), closed := s.closed + Entries(s.slots))
  }

  function Bares(cs: seq<Connection>): (bares: seq<Connection>)
    ensures |bares| == |cs|
  {
    if cs == [] then [] else [Bare(cs[0])] + Bares(cs[1..])
  }

  /** A submitted connection as handlers can be served: admission drops bytes kept for an earlier replay. */
  function Served(cfg: Config, c: Connection): Connection {
    if cfg.admission.Some? then Bare(c) else c
  }

  function AllServed(cfg: Config, cs: seq<Connection>): (served: seq<Connection>)
    ensures |served| == |cs|
  {
    if cfg.admission.Some? then Bares(cs) else cs
  }

  function Start(cfg: Config): Stages {
    Stages([], Vacant(if cfg.admission.Some? then cfg.capacity else 0), None, [], 0, false, [], [], [], [])
  }

  // ---------------------------------------------------------------- the global invariant

  /** A connection's identity together with the bytes its owner can still receive. */
  type Origin = (nat, string)

  function OriginOf(c: Connection): Origin {
    (c.id, c.Stream())
  }

  function Count(cs: seq<Connection>, o: Origin): nat {
    if cs == [] then 0 else (if OriginOf(cs[0]) == o then 1 else 0) + Count(cs[1..], o)
  }

  function CountOption(c: Option<Connection>, o: Origin): nat {
    if c.Some? && OriginOf(c.value) == o then 1 else 0
  }

  function CountEntry(e: Option<AdmissionEntry>, o: Origin): nat {
    if e.Some? && (e.value.connection.id, e.value.Stream()) == o then 1 else 0
  }

  function CountSlots(slots: seq<Option<AdmissionEntry>>, o: Origin): nat {
    if slots == [] then 0 else CountEntry(slots[0], o) + CountSlots(slots[1..], o)
  }

  /** In how many places the dispatcher, its handlers and its closed sockets hold `o`. */
  function Everywhere(s: Stages, o: Origin): nat {
    Count(Bares(s.accepted), o) + CountSlots(s.slots, o) + CountOption(s.promoting, o) + Count(s.ready, o)
    + Count(s.handed, o) + Count(s.closed, o)
  }

  predicate DistinctIds(cs: seq<Connection>) {
    forall i, j :: 0 <= i < j < |cs| ==> cs[i].id != cs[j].id
  }

  function Held(s: Stages): nat {
    |s.accepted| + Occupied(s.slots) + (if s.promoting.Some? then 1 else 0) + |s.ready|
  }

  /** One counter covers every stage and never exceeds the capacity; shutdown empties it. */
  predicate Counted(cfg: Config, s: Stages) {
    && |s.slots| == (if cfg.admission.Some? then cfg.capacity else 0)
    && (cfg.admission.None? ==> s.accepted == [] && s.promoting.None?)
    && (!s.stopping ==> s.owned == Held(s) <= cfg.capacity)
    && (s.stopping ==> s.owned == 0 && s.accepted == [] && s.ready == [])
  }

  /** Handlers received a prefix of the ready order; before shutdown the rest is still queued. */
  predicate Fifo(s: Stages) {
    if s.stopping then s.handed <= s.queued else s.handed + s.ready == s.queued
  }

  /** Every submitted connection is in exactly one place, with the stream it is served with intact. */
  ghost predicate Custody(cfg: Config, s: Stages) {
    && DistinctIds(s.submitted)
    && forall o :: Everywhere(s, o) == Count(AllServed(cfg, s.submitted), o)
  }

  /** A live admission slot is still waiting: no marker yet, and room for at least one more byte. */
  predicate Waiting(options: AdmissionOptions, entry: AdmissionEntry) {
    |entry.prefix| < options.maxPrefixBytes && !Contains(entry.prefix, options.marker)
  }

  predicate SlotsWaiting(cfg: Config, s: Stages) {
    cfg.admission.Some? ==>
      forall i :: 0 <= i < |s.slots| && s.slots[i].Some? ==> Waiting(cfg.admission.value, s.slots[i].value)
  }

  ghost predicate Inv(cfg: Config, s: Stages) {
    cfg.Valid() && Counted(cfg, s) && Fifo(s) && Custody(cfg, s) && SlotsWaiting(cfg, s)
  }

  // ---------------------------------------------------------------- counting lemmas

  lemma {:induction false} FreeSlotExists<T>(slots: seq<Option<T>>)
    requires Occupied(slots) < |slots|
    ensures FirstFree(slots) < |slots|
  {
    if slots[0].Some? {
      FreeSlotExists(slots[1..]);
    }
  }

  lemma {:induction false} OccupiedUpdate<T>(slots: seq<Option<T>>, i: nat, o: Option<T>)
    requires i < |slots|
    ensures Occupied(slots[i := o])
            == Occupied(slots) - (if slots[i].Some? then 1 else 0) + (if o.Some? then 1 else 0)
  {
    var t := slots[i := o];
    if i == 0 {
      assert t[1..] == slots[1..];
    } else {
      assert t[1..] == slots[1..][i - 1 := o];
      OccupiedUpdate(slots[1..], i - 1, o);
    }
  }

  lemma {:induction false} VacantCounts(n: nat)
    ensures Occupied(Vacant(n)) == 0 && forall o :: CountSlots(Vacant(n), o) == 0
  {
    if n > 0 {
      assert Vacant(n)[1..] == Vacant(n - 1);
      VacantCounts(n - 1);
    }
  }

  lemma {:induction false} CountConcat(a: seq<Connection>, b: seq<Connection>, o: Origin)
    ensures Count(a + b, o) == Count(a, o) + Count(b, o)
  {
    if a == [] {
      assert a + b == b;
    } else {
      assert (a + b)[1..] == a[1..] + b;
      CountConcat(a[1..], b, o);
    }
  }

  lemma {:induction false} BaresConcat(a: seq<Connection>, b: seq<Connection>)
    ensures Bares(a + b) == Bares(a) + Bares(b)
  {
    if a == [] {
      assert a + b == b;
    } else {
      assert (a + b)[1..] == a[1..] + b;
      BaresConcat(a[1..], b);
    }
  }

  lemma {:induction false} BaresAt(cs: seq<Connection>, k: nat)
    requires k < |cs|
    ensures Bares(cs)[k] == Bare(cs[k])
  {
    if k > 0 {
      BaresAt(cs[1..], k - 1);
    }
  }

  lemma ServedAt(cfg: Config, cs: seq<Connection>, k: nat)
    requires k < |cs|
    ensures AllServed(cfg, cs)[k] == Served(cfg, cs[k])
  {
    BaresAt(cs, k);
  }

  lemma ServedDistinct(cfg: Config, cs: seq<Connection>)
    requires DistinctIds(cs)
    ensures DistinctIds(AllServed(cfg, cs))
  {
    forall k | 0 <= k < |cs| ensures AllServed(cfg, cs)[k].id == cs[k].id {
      ServedAt(cfg, cs, k);
    }
  }

  /** Serving one more connection counts it once. */
  lemma ServedMore(cfg: Config, cs: seq<Connection>, c: Connection, o: Origin)
    ensures Count(AllServed(cfg, cs + [c]), o) == Count(AllServed(cfg, cs), o) + Count([Served(cfg, c)], o)
  {
    BaresConcat(cs, [c]);
    assert Bares([c]) == [Bare(c)] by { assert [c][1..] == []; }
    CountConcat(AllServed(cfg, cs), [Served(cfg, c)], o);
  }

  lemma {:induction false} CountSlotsUpdate(
      slots: seq<Option<AdmissionEntry>>, i: nat, e: Option<AdmissionEntry>, o: Origin)
    requires i < |slots|
    ensures CountSlots(slots[i := e], o) == CountSlots(slots, o) - CountEntry(slots[i], o) + CountEntry(e, o)
  {
    var t := slots[i := e];
    if i == 0 {
      assert t[1..] == slots[1..];
    } else {
      assert t[1..] == slots[1..][i - 1 := e];
      CountSlotsUpdate(slots[1..], i - 1, e, o);
    }
  }

  lemma {:induction false} EntriesCount(slots: seq<Option<AdmissionEntry>>, o: Origin)
    ensures Count(Entries(slots), o) == CountSlots(slots, o)
  {
    if slots != [] {
      EntriesCount(slots[1..], o);
      if slots[0].Some? {
        var head := slots[0].value.Promoted();
        CountConcat([head], Entries(slots[1..]), o);
        assert Count([head], o) == CountEntry(slots[0], o) by {
          assert Count([], o) == 0 && [head][1..] == [];
        }
      } else {
        assert [] + Entries(slots[1..]) == Entries(slots[1..]);
      }
    }
  }

  lemma {:induction false} CountMember(cs: seq<Connection>, c: Connection)
    requires c in cs
    ensures Count(cs, OriginOf(c)) > 0
  {
    if c != cs[0] {
      CountMember(cs[1..], c);
    }
  }

  lemma {:induction false} CountWitness(cs: seq<Connection>, o: Origin) returns (k: nat)
    requires Count(cs, o) > 0
    ensures k < |cs| && o == OriginOf(cs[k])
  {
    if o == OriginOf(cs[0]) {
      k := 0;
    } else {
      k := CountWitness(cs[1..], o);
      k := k + 1;
    }
  }

  lemma {:induction false} CountOnce(cs: seq<Connection>, k: nat)
    requires DistinctIds(cs) && k < |cs|
    ensures Count(cs, OriginOf(cs[k])) == 1
  {
    if k == 0 {
      if Count(cs[1..], OriginOf(cs[0])) > 0 {
        var j := CountWitness(cs[1..], OriginOf(cs[0]));
        assert false;
      }
    } else {
      CountOnce(cs[1..], k - 1);
    }
  }

  lemma {:induction false} NothingOccupied(slots: seq<Option<AdmissionEntry>>, o: Origin)
    requires Occupied(slots) == 0
    ensures CountSlots(slots, o) == 0
  {
    if slots != [] {
      NothingOccupied(slots[1..], o);
    }
  }

  // ---------------------------------------------------------------- each step keeps the invariant

  lemma StartInv(cfg: Config)
    requires cfg.Valid()
    ensures Inv(cfg, Start(cfg))
  {
    VacantCounts(if cfg.admission.Some? then cfg.capacity else 0);
  }

  lemma {:induction false} DrainKeeps(cfg: Config, s: Stages, o: Origin)
    requires cfg.admission.Some? && 0 < |cfg.admission.value.marker| <= cfg.admission.value.maxPrefixBytes
    requires Counted(cfg, s) && SlotsWaiting(cfg, s) && !s.stopping
    ensures var t := DrainAll(s);
            && t == s.(accepted := [], slots := t.slots)
            && Counted(cfg, t) && SlotsWaiting(cfg, t)
            && Everywhere(t, o) == Everywhere(s, o)
    decreases |s.accepted|
  {
    if s.accepted != [] {
      FreeSlotExists(s.slots);
      var i, c := FirstFree(s.slots), s.accepted[0];
      var entry := Some(AdmissionEntry(c, "", c.acceptedAt, c.acceptedAt));
      OccupiedUpdate(s.slots, i, entry);
      CountSlotsUpdate(s.slots, i, entry, o);
      assert entry.value.Stream() == Bare(c).Stream();
      DrainKeeps(cfg, DrainOne(s), o);
    }
  }

  lemma DrainOneInv(cfg: Config, s: Stages)
    requires Inv(cfg, s) && cfg.admission.Some? && !s.stopping && s.accepted != []
    ensures FirstFree(s.slots) < |s.slots| && Inv(cfg, DrainOne(s))
  {
    FreeSlotExists(s.slots);
    var i, c := FirstFree(s.slots), s.accepted[0];
    var entry := Some(AdmissionEntry(c, "", c.acceptedAt, c.acceptedAt));
    OccupiedUpdate(s.slots, i, entry);
    assert entry.value.Stream() == Bare(c).Stream();
    forall o ensures Everywhere(DrainOne(s), o) == Count(AllServed(cfg, s.submitted), o) {
      CountSlotsUpdate(s.slots, i, entry, o);
      assert Everywhere(s, o) == Count(AllServed(cfg, s.submitted), o);
    }
  }

  lemma PromotionKeeps(s: Stages, i: nat, o: Origin)
    requires i < |s.slots| && s.promoting.None?
    ensures var t := BeginPromotion(s, i);
            && Everywhere(t, o) == Everywhere(s, o)
            && Occupied(t.slots) + (if t.promoting.Some? then 1 else 0) == Occupied(s.slots)
  {
    if s.slots[i].Some? {
      OccupiedUpdate(s.slots, i, None);
      CountSlotsUpdate(s.slots, i, None, o);
      assert s.slots[i].value.Promoted().Stream() == s.slots[i].value.Stream();
    }
  }

  lemma ReceiveKeeps(options: AdmissionOptions, s: Stages, i: nat, outcome: ReceiveOutcome, now: int, o: Origin)
    requires i < |s.slots| && s.promoting.None?
    requires s.slots[i].Some? && outcome.Received? ==> outcome.count <= |s.slots[i].value.connection.unread|
    ensures var t := AfterReceive(options, s, i, outcome, now);
            && Everywhere(t, o) == Everywhere(s, o)
            && Occupied(t.slots) + (if t.promoting.Some? then 1 else 0) == Occupied(s.slots)
  {
    if s.slots[i].Some? && outcome.Received? {
      var before := s.slots[i].value;
      var entry := Grown(before, outcome.count, now);
      assert entry.Stream() == before.Stream();
      OccupiedUpdate(s.slots, i, Some(entry));
      CountSlotsUpdate(s.slots, i, Some(entry), o);
      PromotionKeeps(s.(slots := s.slots[i := Some(entry)]), i, o);
    } else {
      PromotionKeeps(s, i, o);
    }
  }

  lemma AdmissionCounted(cfg: Config, s: Stages, a: Action)
    requires Inv(cfg, s) && Enabled(cfg, s, a) && (a.Drain? || a.Receive? || a.Promote? || a.ExitAdmission?)
    ensures Counted(cfg, Next(cfg, s, a))
  {
    var o := (0, "");
    match a
    case Drain => DrainKeeps(cfg, s, o);
    case Receive(i, outcome, now) => ReceiveKeeps(cfg.admission.value, s, i, outcome, now, o);
    case Promote(i, _) => PromotionKeeps(s, i, o);
    case ExitAdmission => VacantCounts(|s.slots|);
  }

  lemma QueueCounted(cfg: Config, s: Stages, a: Action)
    requires Inv(cfg, s) && Enabled(cfg, s, a) && (a.Submit? || a.FinishPromotion? || a.Dequeue? || a.Stop?)
    ensures Counted(cfg, Next(cfg, s, a))
  {
  }

  lemma StepCounted(cfg: Config, s: Stages, a: Action)
    requires Inv(cfg, s) && Enabled(cfg, s, a)
    ensures Counted(cfg, Next(cfg, s, a))
  {
    if a.Drain? || a.Receive? || a.Promote? || a.ExitAdmission? {
      AdmissionCounted(cfg, s, a);
    } else {
      QueueCounted(cfg, s, a);
    }
  }

  lemma StepFifo(cfg: Config, s: Stages, a: Action)
    requires Inv(cfg, s) && Enabled(cfg, s, a)
    ensures Fifo(Next(cfg, s, a))
  {
    match a
    case Submit(c) => assert s.handed + (s.ready + [c]) == (s.handed + s.ready) + [c];
    case Drain => DrainKeeps(cfg, s, (0, ""));
    case FinishPromotion =>
      var c := s.promoting.value;
      assert s.handed + (s.ready + [c]) == (s.handed + s.ready) + [c];
    case Dequeue => assert (s.handed + [s.ready[0]]) + s.ready[1..] == s.handed + s.ready;
    case _ =>
  }

  lemma PromotionWaits(cfg: Config, s: Stages, i: nat)
    requires SlotsWaiting(cfg, s) && i < |s.slots|
    ensures SlotsWaiting(cfg, BeginPromotion(s, i))
  {
  }

  lemma ReceiveWaits(cfg: Config, s: Stages, i: nat, outcome: ReceiveOutcome, now: int)
    requires SlotsWaiting(cfg, s) && Enabled(cfg, s, Receive(i, outcome, now))
    ensures SlotsWaiting(cfg, AfterReceive(cfg.admission.value, s, i, outcome, now))
  {
    PromotionWaits(cfg, s, i);
  }

  lemma StepSlotsWaiting(cfg: Config, s: Stages, a: Action)
    requires Inv(cfg, s) && Enabled(cfg, s, a)
    ensures SlotsWaiting(cfg, Next(cfg, s, a))
  {
    if a.Drain? {
      DrainKeeps(cfg, s, (0, ""));
    } else if a.Receive? {
      ReceiveWaits(cfg, s, a.slot, a.outcome, a.now);
    } else if a.Promote? {
      PromotionWaits(cfg, s, a.slot);
    }
  }

  lemma SubmitEverywhere(cfg: Config, s: Stages, c: Connection, o: Origin)
    requires Inv(cfg, s) && Enabled(cfg, s, Submit(c))
    ensures Everywhere(Next(cfg, s, Submit(c)), o) == Count(AllServed(cfg, Next(cfg, s, Submit(c)).submitted), o)
  {
    assert Everywhere(s, o) == Count(AllServed(cfg, s.submitted), o);
    ServedMore(cfg, s.submitted, c, o);
    CountConcat(s.ready, [c], o);
    if cfg.admission.Some? {
      ServedMore(cfg, s.accepted, c, o);
    }
  }

  lemma CloseEverywhere(cfg: Config, s: Stages, a: Action, o: Origin)
    requires Inv(cfg, s) && Enabled(cfg, s, a) && (a.Stop? || a.ExitAdmission?)
    ensures Everywhere(Next(cfg, s, a), o) == Count(AllServed(cfg, s.submitted), o)
  {
    assert Everywhere(s, o) == Count(AllServed(cfg, s.submitted), o);
    CountConcat(s.closed, s.ready, o);
    CountConcat(s.closed + s.ready, Bares(s.accepted), o);
    CountConcat(s.closed, Entries(s.slots), o);
    EntriesCount(s.slots, o);
    VacantCounts(|s.slots|);
  }

  lemma AdmissionEverywhere(cfg: Config, s: Stages, a: Action, o: Origin)
    requires Inv(cfg, s) && Enabled(cfg, s, a) && (a.Drain? || a.Receive? || a.Promote?)
    ensures Everywhere(Next(cfg, s, a), o) == Everywhere(s, o) && Next(cfg, s, a).submitted == s.submitted
  {
    match a
    case Drain => DrainKeeps(cfg, s, o);
    case Receive(i, outcome, now) => ReceiveKeeps(cfg.admission.value, s, i, outcome, now, o);
    case Promote(i, _) => PromotionKeeps(s, i, o);
  }

  lemma WorkerEverywhere(cfg: Config, s: Stages, a: Action, o: Origin)
    requires Enabled(cfg, s, a) && (a.FinishPromotion? || a.Dequeue?)
    ensures Everywhere(Next(cfg, s, a), o) == Everywhere(s, o) && Next(cfg, s, a).submitted == s.submitted
  {
    if a.Dequeue? {
      CountConcat(s.handed, [s.ready[0]], o);
    } else {
      CountConcat(s.closed, [s.promoting.value], o);
      CountConcat(s.ready, [s.promoting.value], o);
    }
  }

  /** The number of places holding `o` changes only when `o` itself is submitted. */
  lemma StepEverywhere(cfg: Config, s: Stages, a: Action, o: Origin)
    requires Inv(cfg, s) && Enabled(cfg, s, a)
    ensures Everywhere(Next(cfg, s, a), o) == Count(AllServed(cfg, Next(cfg, s, a).submitted), o)
  {
    assert Everywhere(s, o) == Count(AllServed(cfg, s.submitted), o);
    if a.Submit? {
      SubmitEverywhere(cfg, s, a.connection, o);
    } else if a.Drain? || a.Receive? || a.Promote? {
      AdmissionEverywhere(cfg, s, a, o);
    } else if a.FinishPromotion? || a.Dequeue? {
      WorkerEverywhere(cfg, s, a, o);
    } else {
      CloseEverywhere(cfg, s, a, o);
    }
  }

  /** Every action keeps the invariant. */
  lemma StepInv(cfg: Config, s: Stages, a: Action)
    requires Inv(cfg, s) && Enabled(cfg, s, a)
    ensures Inv(cfg, Next(cfg, s, a))
  {
    StepCounted(cfg, s, a);
    StepFifo(cfg, s, a);
    StepSlotsWaiting(cfg, s, a);
    forall o ensures Everywhere(Next(cfg, s, a), o) == Count(AllServed(cfg, Next(cfg, s, a).submitted), o) {
      StepEverywhere(cfg, s, a, o);
    }
    if a.Drain? {
      DrainKeeps(cfg, s, (0, ""));
    }
  }

  // ---------------------------------------------------------------- whole runs

  predicate Legal(cfg: Config, s: Stages, actions: seq<Action>)
    decreases |actions|
  {
    actions == [] || (Enabled(cfg, s, actions[0]) && Legal(cfg, Next(cfg, s, actions[0]), actions[1..]))
  }

  function Execute(cfg: Config, s: Stages, actions: seq<Action>): Stages
    requires Legal(cfg, s, actions)
    decreases |actions|
  {
    if actions == [] then s else Execute(cfg, Next(cfg, s, actions[0]), actions[1..])
  }

  lemma {:induction false} RunInv(cfg: Config, s: Stages, actions: seq<Action>)
    requires Inv(cfg, s) && Legal(cfg, s, actions)
    ensures Inv(cfg, Execute(cfg, s, actions))
    decreases |actions|
  {
    if actions != [] {
      StepInv(cfg, s, actions[0]);
      RunInv(cfg, Next(cfg, s, actions[0]), actions[1..]);
    }
  }

  ghost predicate Reachable(cfg: Config, t: Stages) {
    cfg.Valid() && exists actions :: Legal(cfg, Start(cfg), actions) && t == Execute(cfg, Start(cfg), actions)
  }

  lemma ReachableInv(cfg: Config, t: Stages)
    requires Reachable(cfg, t)
    ensures Inv(cfg, t)
  {
    StartInv(cfg);
    var actions :| Legal(cfg, Start(cfg), actions) && t == Execute(cfg, Start(cfg), actions);
    RunInv(cfg, Start(cfg), actions);
  }

  /**
   Before shutdown the single counter is the number of connections in all stages and within
   capacity, so a drain always finds a vacant slot for every accepted connection.
   */
  lemma OwnedCountIsExact(cfg: Config, t: Stages)
    requires Reachable(cfg, t) && !t.stopping
    ensures t.owned == |t.accepted| + Occupied(t.slots) + (if t.promoting.Some? then 1 else 0) + |t.ready|
    ensures t.owned <= cfg.capacity
    ensures cfg.admission.Some? ==> DrainAll(t).accepted == []
  {
    ReachableInv(cfg, t);
    if cfg.admission.Some? {
      DrainKeeps(cfg, t, (0, ""));
    }
  }

  /**
   Each submitted connection is held in exactly one place, and whoever holds it can still receive
   exactly the bytes it is served with: what its peer sends from the moment of submission on.
   */
  lemma EveryConnectionInOnePlace(cfg: Config, t: Stages, k: nat)
    requires Reachable(cfg, t) && k < |t.submitted|
    ensures var c := Served(cfg, t.submitted[k]);
      Everywhere(t, OriginOf(c)) == 1 && forall stream :: stream != c.Stream() ==> Everywhere(t, (c.id, stream)) == 0
  {
    ReachableInv(cfg, t);
    var served := AllServed(cfg, t.submitted);
    ServedAt(cfg, t.submitted, k);
    ServedDistinct(cfg, t.submitted);
    CountOnce(served, k);
    forall stream | stream != served[k].Stream()
      ensures Everywhere(t, (served[k].id, stream)) == 0
    {
      if Everywhere(t, (served[k].id, stream)) > 0 {
        var j := CountWitness(served, (served[k].id, stream));
        assert false;
      }
    }
  }

  /** A handler is given all a connection is served with: nothing lost, repeated or reordered. */
  lemma HandlerSeesWholeStream(cfg: Config, t: Stages, c: Connection) returns (k: nat)
    requires Reachable(cfg, t) && c in t.handed
    ensures k < |t.submitted| && t.submitted[k].id == c.id && Served(cfg, t.submitted[k]).Stream() == c.Stream()
  {
    ReachableInv(cfg, t);
    CountMember(t.handed, c);
    assert Everywhere(t, OriginOf(c)) > 0;
    k := CountWitness(AllServed(cfg, t.submitted), OriginOf(c));
    ServedAt(cfg, t.submitted, k);
  }

  /** Serving drops the bytes that were still waiting to be replayed, if admission is enabled. */
  lemma ServedIsWholeStream(cfg: Config, c: Connection)
    ensures Served(cfg, c).Stream() == c.Stream() <==> cfg.admission.None? || |c.prefetched| <= c.prefetchedOffset
  {
    var kept := if c.prefetchedOffset <= |c.prefetched| then |c.prefetched| - c.prefetchedOffset else 0;
    assert |c.Stream()| == |c.unread| + kept;
    if c.prefetchedOffset == |c.prefetched| {
      assert c.prefetched[c.prefetchedOffset..] == "";
    }
  }

  /**
   After any run, a handler can receive the whole stream of the connection as it was submitted if and
   only if there is no admission, or no bytes were waiting to be replayed when it was submitted.
   */
  lemma HandedStreamExactly(cfg: Config, t: Stages, c: Connection) returns (k: nat)
    requires Reachable(cfg, t) && c in t.handed
    ensures k < |t.submitted| && t.submitted[k].id == c.id
    ensures var x := t.submitted[k];
      c.Stream() == x.Stream() <==> cfg.admission.None? || |x.prefetched| <= x.prefetchedOffset
  {
    k := HandlerSeesWholeStream(cfg, t, c);
    ServedIsWholeStream(cfg, t.submitted[k]);
  }

  /** The shortest way of a connection through admission. */
  function StraightThrough(c: Connection): seq<Action> {
    [Submit(c), Drain, Promote(0, PollerFailed), FinishPromotion, Dequeue]
  }

  /** The stages after each of these actions. */
  function Waypoint(cfg: Config, c: Connection, n: nat): Stages
    requires cfg.Valid() && cfg.admission.Some?
  {
    var vacant, entry := Vacant(cfg.capacity), AdmissionEntry(c, "", c.acceptedAt, c.acceptedAt);
    var p := entry.Promoted();
    match n
    case 0 => Start(cfg)
    case 1 => Stages([c], vacant, None, [], 1, false, [c], [], [], [])
    case 2 => Stages([], vacant[0 := Some(entry)], None, [], 1, false, [c], [], [], [])
    case 3 => Stages([], vacant, Some(p), [], 1, false, [c], [], [], [])
    case 4 => Stages([], vacant, None, [p], 1, false, [c], [p], [], [])
    case _ => Stages([], vacant, None, [], 0, false, [c], [p], [p], [])
  }

  lemma WaypointStep(cfg: Config, c: Connection, n: nat)
    requires cfg.Valid() && cfg.admission.Some? && c.open && n < 5
    ensures Enabled(cfg, Waypoint(cfg, c, n), StraightThrough(c)[n])
    ensures Next(cfg, Waypoint(cfg, c, n), StraightThrough(c)[n]) == Waypoint(cfg, c, n + 1)
  {
    var vacant := Vacant(cfg.capacity);
    if n == 1 {
      var s := Waypoint(cfg, c, 1);
      assert FirstFree(s.slots) == 0;
      assert DrainAll(s) == DrainAll(DrainOne(s));
      assert DrainOne(s) == Waypoint(cfg, c, 2);
    } else if n == 2 {
      var entry := AdmissionEntry(c, "", c.acceptedAt, c.acceptedAt);
      assert vacant[0 := Some(entry)][0 := None] == vacant;
    }
  }

  lemma {:induction false} WaypointRun(cfg: Config, c: Connection, n: nat)
    requires cfg.Valid() && cfg.admission.Some? && c.open && n <= 5
    ensures Legal(cfg, Waypoint(cfg, c, n), StraightThrough(c)[n..])
    ensures Execute(cfg, Waypoint(cfg, c, n), StraightThrough(c)[n..]) == Waypoint(cfg, c, 5)
    decreases 5 - n
  {
    if n < 5 {
      WaypointStep(cfg, c, n);
      WaypointRun(cfg, c, n + 1);
      assert StraightThrough(c)[n..][1..] == StraightThrough(c)[n + 1..];
    }
  }

  /** Under every configuration with admission, every connection with bytes left to replay can lose them. */
  lemma ReplayIsLost(cfg: Config, c: Connection)
    requires cfg.Valid() && cfg.admission.Some? && c.open && c.prefetchedOffset < |c.prefetched|
    ensures Legal(cfg, Start(cfg), StraightThrough(c))
    ensures var handed := Execute(cfg, Start(cfg), StraightThrough(c)).handed;
      |handed| == 1 && handed[0].id == c.id && handed[0].Stream() == c.unread != c.Stream()
  {
    WaypointRun(cfg, c, 0);
    assert StraightThrough(c)[0..] == StraightThrough(c);
    ServedIsWholeStream(cfg, c);
    assert "" + c.unread == c.unread;
  }

  // ---------------------------------------------------------------- when admission lets go of a connection

  /**
   What one receive does to an occupied slot.  After new bytes it keeps waiting if and only if the prefix
   is neither full nor holds the marker; end of input and errors end the wait, and without readiness
   nothing happens.  No other slot is touched.
   */
  lemma ReceiveDecides(cfg: Config, s: Stages, i: nat, outcome: ReceiveOutcome, now: int)
    requires Enabled(cfg, s, Receive(i, outcome, now)) && s.slots[i].Some?
    ensures var t, e := Next(cfg, s, Receive(i, outcome, now)), s.slots[i].value;
      && t == s.(slots := s.slots[i := t.slots[i]], promoting := t.promoting)
      && (outcome.WouldBlock? ==> t == s)
      && (outcome.Failed? || outcome == Received(0) ==>
            t.slots[i].None? && t.promoting == Some(e.connection.(prefetched := e.prefix, prefetchedOffset := 0)))
      && (outcome.Received? && outcome.count > 0 ==>
            var c := e.connection;
            var prefix, rest := e.prefix + c.unread[..outcome.count], c.unread[outcome.count..];
            if |prefix| < cfg.admission.value.maxPrefixBytes && !Contains(prefix, cfg.admission.value.marker) then
              && t.promoting.None?
              && t.slots[i] == Some(AdmissionEntry(c.(unread := rest, lastProgress := now), prefix, now, e.accepted))
            else
              && t.slots[i].None?
              && t.promoting ==
                   Some(c.(unread := rest, lastProgress := now, prefetched := prefix, prefetchedOffset := 0)))
  {
  }

  /** An entry is expired exactly from its deadline on: the earlier of the idle and the total timeout. */
  lemma DeadlineIsExact(options: AdmissionOptions, e: AdmissionEntry, now: int)
    ensures e.Expired(options, now) <==> e.Deadline(options) <= now
    ensures e.Deadline(options) <= e.lastProgress + options.inactivityTimeout
    ensures e.Deadline(options) <= e.accepted + options.totalTimeout
    ensures e.Deadline(options) in {e.lastProgress + options.inactivityTimeout, e.accepted + options.totalTimeout}
  {
  }

  /** Some waiting connection is expired at that instant. */
  predicate SomeExpired(options: AdmissionOptions, slots: seq<Option<AdmissionEntry>>, now: int) {
    exists i :: 0 <= i < |slots| && slots[i].Some? && slots[i].value.Expired(options, now)
  }

  /** Draining gives every accepted connection a slot with an empty prefix and running clocks. */
  lemma {:induction false} DrainPlacesAll(cfg: Config, s: Stages)
    requires cfg.admission.Some? && 0 < |cfg.admission.value.marker| <= cfg.admission.value.maxPrefixBytes
    requires Counted(cfg, s) && SlotsWaiting(cfg, s) && !s.stopping
    ensures |DrainAll(s).slots| == |s.slots|
    ensures forall i :: 0 <= i < |s.slots| && s.slots[i].Some? ==> DrainAll(s).slots[i] == s.slots[i]
    ensures forall c :: c in s.accepted ==> Some(AdmissionEntry(c, "", c.acceptedAt, c.acceptedAt)) in DrainAll(s).slots
    ensures forall i :: 0 <= i < |s.slots| && s.slots[i].None? && DrainAll(s).slots[i].Some? ==>
      DrainAll(s).slots[i].value.connection in s.accepted
    decreases |s.accepted|
  {
    if s.accepted != [] {
      FreeSlotExists(s.slots);
      var k, first := FirstFree(s.slots), s.accepted[0];
      var entry := Some(AdmissionEntry(first, "", first.acceptedAt, first.acceptedAt));
      OccupiedUpdate(s.slots, k, entry);
      DrainPlacesAll(cfg, DrainOne(s));
      assert DrainAll(s).slots[k] == entry;
    }
  }

  /** In state `s`, the action ends the wait of connection `id` although its prefix is not complete. */
  predicate EndsWait(cfg: Config, s: Stages, a: Action, id: nat)
    requires cfg.admission.Some?
  {
    && (a.Receive? || a.Promote?) && a.slot < |s.slots| && s.slots[a.slot].Some?
    && var e, options := s.slots[a.slot].value, cfg.admission.value;
    && e.connection.id == id
    && match a
       case Receive(_, outcome, _) => outcome == Received(0) || outcome.Failed?
       case Promote(_, PastDeadline(now)) =>
         now >= e.lastProgress + options.inactivityTimeout || now >= e.accepted + options.totalTimeout
       case Promote(_, PollerFailed) => true
       case _ => false
  }

  predicate WaitEnded(cfg: Config, s: Stages, actions: seq<Action>, id: nat)
    requires cfg.admission.Some? && Legal(cfg, s, actions)
    decreases |actions|
  {
    actions != [] &&
    (EndsWait(cfg, s, actions[0], id) || WaitEnded(cfg, Next(cfg, s, actions[0]), actions[1..], id))
  }

  predicate PrefixIsComplete(cfg: Config, c: Connection)
    requires cfg.admission.Some?
  {
    |c.prefetched| == cfg.admission.value.maxPrefixBytes || Contains(c.prefetched, cfg.admission.value.marker)
  }

  predicate PastAdmission(s: Stages, c: Connection) {
    c in s.queued || s.promoting == Some(c)
  }

  lemma StepLetsGo(cfg: Config, s: Stages, a: Action, c: Connection)
    requires cfg.admission.Some? && Inv(cfg, s) && Enabled(cfg, s, a) && PastAdmission(Next(cfg, s, a), c)
    ensures PastAdmission(s, c) || PrefixIsComplete(cfg, c) || EndsWait(cfg, s, a, c.id)
  {
    if a.Drain? {
      DrainKeeps(cfg, s, (0, ""));
    } else if a.Receive? && s.slots[a.slot].Some? {
      ReceiveDecides(cfg, s, a.slot, a.outcome, a.now);
    }
  }

  lemma {:induction false} RunLetsGo(cfg: Config, s: Stages, actions: seq<Action>, c: Connection)
    requires cfg.admission.Some? && Inv(cfg, s) && Legal(cfg, s, actions) && PastAdmission(Execute(cfg, s, actions), c)
    ensures PastAdmission(s, c) || PrefixIsComplete(cfg, c) || WaitEnded(cfg, s, actions, c.id)
    decreases |actions|
  {
    if actions != [] {
      var t := Next(cfg, s, actions[0]);
      StepInv(cfg, s, actions[0]);
      RunLetsGo(cfg, t, actions[1..], c);
      if PastAdmission(t, c) {
        StepLetsGo(cfg, s, actions[0], c);
      }
    }
  }

  /**
   Slow clients take no worker: along every run, a connection reaches the ready queue only with a full
   prefix, with a prefix that holds the marker, or after its wait was ended by end of input, an error, a
   timeout that had really passed, or a failure of the poller.
   */
  lemma AdmissionHoldsBack(cfg: Config, actions: seq<Action>, c: Connection)
    requires cfg.Valid() && cfg.admission.Some? && Legal(cfg, Start(cfg), actions)
    requires c in Execute(cfg, Start(cfg), actions).queued
    ensures || |c.prefetched| == cfg.admission.value.maxPrefixBytes
            || Contains(c.prefetched, cfg.admission.value.marker)
            || WaitEnded(cfg, Start(cfg), actions, c.id)
  {
    StartInv(cfg);
    RunLetsGo(cfg, Start(cfg), actions, c);
  }

  /** The clocks of a waiting connection: the total timeout counts from the time it was accepted. */
  ghost predicate Clocked(s: Stages, e: AdmissionEntry) {
    && (exists k :: 0 <= k < |s.submitted| && s.submitted[k].id == e.connection.id
          && s.submitted[k].acceptedAt == e.accepted)
    && e.lastProgress == if e.prefix == "" then e.accepted else e.connection.lastProgress
  }

  ghost predicate ClocksOk(s: Stages) {
    && (forall c :: c in s.accepted ==> c in s.submitted)
    && forall i :: 0 <= i < |s.slots| && s.slots[i].Some? ==> Clocked(s, s.slots[i].value)
  }

  lemma ClockKept(s: Stages, t: Stages, e: AdmissionEntry)
    requires Clocked(s, e) && s.submitted <= t.submitted
    ensures Clocked(t, e)
  {
    var k :| 0 <= k < |s.submitted| && s.submitted[k].id == e.connection.id && s.submitted[k].acceptedAt == e.accepted;
    assert t.submitted[k] == s.submitted[k];
  }

  lemma ClockGrown(s: Stages, e: AdmissionEntry, n: nat, now: int)
    requires Clocked(s, e) && n <= |e.connection.unread|
    ensures Clocked(s, Grown(e, n, now))
  {
    var k :| 0 <= k < |s.submitted| && s.submitted[k].id == e.connection.id && s.submitted[k].acceptedAt == e.accepted;
    assert s.submitted[k].id == Grown(e, n, now).connection.id;
  }

  lemma {:induction false} DrainClocks(s: Stages)
    requires ClocksOk(s)
    ensures ClocksOk(DrainAll(s)) && DrainAll(s).submitted == s.submitted
    decreases |s.accepted|
  {
    if s.accepted != [] && FirstFree(s.slots) < |s.slots| {
      var t, c := DrainOne(s), s.accepted[0];
      assert c in s.accepted;
      var k :| 0 <= k < |s.submitted| && s.submitted[k] == c;
      assert Clocked(t, AdmissionEntry(c, "", c.acceptedAt, c.acceptedAt));
      forall i | 0 <= i < |t.slots| && t.slots[i].Some? ensures Clocked(t, t.slots[i].value) {
        if i != FirstFree(s.slots) {
          ClockKept(s, t, s.slots[i].value);
        }
      }
      DrainClocks(t);
    }
  }

  lemma StepClocks(cfg: Config, s: Stages, a: Action)
    requires ClocksOk(s) && Enabled(cfg, s, a)
    ensures ClocksOk(Next(cfg, s, a))
  {
    var t := Next(cfg, s, a);
    if a.Drain? {
      DrainClocks(s);
    } else {
      forall i | 0 <= i < |t.slots| && t.slots[i].Some? ensures Clocked(t, t.slots[i].value) {
        if a.Receive? && i == a.slot {
          ClockGrown(s, s.slots[i].value, if a.outcome.Received? then a.outcome.count else 0, a.now);
          ClockKept(s, t, t.slots[i].value);
        } else {
          ClockKept(s, t, s.slots[i].value);
        }
      }
    }
  }

  lemma {:induction false} RunClocks(cfg: Config, s: Stages, actions: seq<Action>)
    requires ClocksOk(s) && Legal(cfg, s, actions)
    ensures ClocksOk(Execute(cfg, s, actions))
    decreases |actions|
  {
    if actions != [] {
      StepClocks(cfg, s, actions[0]);
      RunClocks(cfg, Next(cfg, s, actions[0]), actions[1..]);
    }
  }

  /**
   In every reachable state the total timeout of a waiting connection counts from when it was accepted,
   and the idle timeout from its latest received bytes, or from then as long as there are none.
   */
  lemma WaitingClocks(cfg: Config, t: Stages, i: nat) returns (k: nat)
    requires Reachable(cfg, t) && i < |t.slots| && t.slots[i].Some?
    ensures var e := t.slots[i].value;
      && k < |t.submitted| && t.submitted[k].id == e.connection.id && e.accepted == t.submitted[k].acceptedAt
      && e.lastProgress == if e.prefix == "" then t.submitted[k].acceptedAt else e.connection.lastProgress
  {
    var actions :| Legal(cfg, Start(cfg), actions) && t == Execute(cfg, Start(cfg), actions);
    RunClocks(cfg, Start(cfg), actions);
    var e := t.slots[i].value;
    assert Clocked(t, e);
    k :| 0 <= k < |t.submitted| && t.submitted[k].id == e.connection.id && t.submitted[k].acceptedAt == e.accepted;
  }

  // ---------------------------------------------------------------- order and shutdown

  /** What has happened stays: every log only grows at its end. */
  lemma LogsGrow(cfg: Config, s: Stages, a: Action)
    requires Enabled(cfg, s, a)
    ensures var t := Next(cfg, s, a);
      s.submitted <= t.submitted && s.queued <= t.queued && s.handed <= t.handed && s.closed <= t.closed
  {
    if a.Drain? {
      DrainLogs(s);
    }
  }

  lemma {:induction false} DrainLogs(s: Stages)
    ensures var t := DrainAll(s);
      t.submitted == s.submitted && t.queued == s.queued && t.handed == s.handed && t.closed == s.closed
    decreases |s.accepted|
  {
    if s.accepted != [] && FirstFree(s.slots) < |s.slots| {
      DrainLogs(DrainOne(s));
    }
  }

  /** Without admission, workers receive connections in the order of submission. */
  lemma {:induction false} HandedInSubmissionOrder(cfg: Config, actions: seq<Action>, s: Stages)
    requires cfg.admission.None? && Inv(cfg, s) && s.queued == s.submitted && Legal(cfg, s, actions)
    ensures var t := Execute(cfg, s, actions); t.queued == t.submitted && t.handed <= t.submitted
    decreases |actions|
  {
    if actions != [] {
      StepInv(cfg, s, actions[0]);
      HandedInSubmissionOrder(cfg, actions[1..], Next(cfg, s, actions[0]));
    }
  }

  /** Workers receive connections in the order in which they became ready. */
  lemma HandedInReadyOrder(cfg: Config, t: Stages)
    requires Reachable(cfg, t)
    ensures t.handed <= t.queued
    ensures !t.stopping ==> t.queued == t.handed + t.ready
  {
    ReachableInv(cfg, t);
  }

  /** Once the admission thread has left, every connection went to one handler or was closed, never both. */
  lemma ShutdownAccountsForAll(cfg: Config, t: Stages, k: nat)
    requires Reachable(cfg, t) && t.stopping && t.promoting.None? && Occupied(t.slots) == 0
    requires k < |t.submitted|
    ensures var o := OriginOf(Served(cfg, t.submitted[k])); Count(t.handed, o) + Count(t.closed, o) == 1
  {
    ReachableInv(cfg, t);
    var served := AllServed(cfg, t.submitted);
    ServedAt(cfg, t.submitted, k);
    ServedDistinct(cfg, t.submitted);
    var o := OriginOf(served[k]);
    NothingOccupied(t.slots, o);
    CountOnce(served, k);
    assert Everywhere(t, o) == Count(served, o);
  }

  /** Shutdown is final: no later dequeue or submission, and the counters stay at zero. */
  lemma {:induction false} StopIsFinal(cfg: Config, s: Stages, actions: seq<Action>)
    requires Counted(cfg, s) && s.stopping && Legal(cfg, s, actions)
    ensures Dequeue !in actions && (forall c :: Submit(c) !in actions)
    ensures var t := Execute(cfg, s, actions);
            && t.stopping && t.owned == 0 && t.ready == [] && t.accepted == []
            && t.handed == s.handed && t.submitted == s.submitted
    decreases |actions|
  {
    if actions != [] {
      var t := Next(cfg, s, actions[0]);
      StopIsFinal(cfg, t, actions[1..]);
      assert actions == [actions[0]] + actions[1..];
    }
  }
}
