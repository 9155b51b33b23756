/**
 The bounded in-memory session store.  Expired entries stay in the vector until the next locked
 operation removes them; the reference store drops every entry at the very instant it expires.
 */
module SessionStore {
  import opened Basics

  const GENERATION_ATTEMPTS := 4

  type Digest = string
  type Principal = string

  datatype Policy = Policy(absoluteLifetime: int, idleTimeout: int, maximumSessions: nat)
  datatype Entry = Entry(digest: Digest, principal: Principal, created: int, lastActivity: int)

  /** One locked region, with the clock reading it was given. */
  datatype Event =
    | Attempt(now: int, digest: Digest, principal: Principal)
    | Authenticate(now: int, digest: Digest)
    | Invalidate(now: int, digest: Digest)

  datatype Answer = Created | Collided | Nobody | Found(principal: Principal)

  predicate Usable(p: Policy) {
    p.maximumSessions > 0 && p.absoluteLifetime > 0 && p.idleTimeout > 0
  }

  predicate Expired(p: Policy, e: Entry, now: int) {
    now - e.created >= p.absoluteLifetime || now - e.lastActivity >= p.idleTimeout
  }

  /** What is left at one instant. */
  function Live(p: Policy, entries: seq<Entry>, now: int): seq<Entry> {
    if entries == [] then []
    else
      var rest := Live(p, entries[..|entries| - 1], now);
      if Expired(p, entries[|entries| - 1], now) then rest else rest + [entries[|entries| - 1]]
  }

  /** First position of a digest, or the length. */
  function Position(entries: seq<Entry>, digest: Digest): (k: nat)
    ensures k <= |entries|
  {
    if entries == [] then 0
    else if entries[0].digest == digest then 0
    else 1 + Position(entries[1..], digest)
  }

  lemma {:induction false} PositionIsFirst(entries: seq<Entry>, digest: Digest)
    ensures var k := Position(entries, digest);
      && (k < |entries| ==> entries[k].digest == digest)
      && forall i :: 0 <= i < k ==> entries[i].digest != digest
  {
    if entries != [] && entries[0].digest != digest {
      PositionIsFirst(entries[1..], digest);
    }
  }

  /** First position whose activity is least recent. */
  ghost predicate LeastRecent(entries: seq<Entry>, k: nat) {
    && k < |entries|
    && (forall i :: 0 <= i < k ==> entries[k].lastActivity < entries[i].lastActivity)
    && forall i :: k < i < |entries| ==> entries[k].lastActivity <= entries[i].lastActivity
  }

  function Oldest(entries: seq<Entry>): (k: nat)
    requires entries != []
    ensures k < |entries|
  {
    if |entries| == 1 then 0
    else
      var k := Oldest(entries[..|entries| - 1]);
      if entries[|entries| - 1].lastActivity < entries[k].lastActivity then |entries| - 1 else k
  }

  lemma {:induction false} OldestIsLeastRecent(entries: seq<Entry>)
    requires entries != []
    ensures LeastRecent(entries, Oldest(entries))
    decreases |entries|
  {
    if |entries| > 1 {
      OldestIsLeastRecent(entries[..|entries| - 1]);
    }
  }

  function Without(entries: seq<Entry>, k: nat): seq<Entry>
    requires k < |entries|
  {
    entries[..k] + entries[k + 1..]
  }

  function Admitted(p: Policy, entries: seq<Entry>): seq<Entry> {
    if |entries| == p.maximumSessions && entries != [] then Without(entries, Oldest(entries)) else entries
  }

  /** What one operation means on a store that holds live sessions only. */
  function Operate(p: Policy, live: seq<Entry>, e: Event): (seq<Entry>, Answer) {
    var k := Position(live, e.digest);
    match e
    case Attempt(now, digest, principal) =>
      if k < |live| then (live, Collided)
      else (Admitted(p, live) + [Entry(digest, principal, now, now)], Created)
    case Authenticate(now, _) =>
      if k == |live| then (live, Nobody)
      else (live[k := live[k].(lastActivity := now)], Found(live[k].principal))
    case Invalidate(_, _) =>
      if k == |live| then (live, Nobody) else (Without(live, k), Found(live[k].principal))
  }

  /** What a call finds is the session of that digest, whoever it belongs to. */
  ghost predicate Finds(live: seq<Entry>, digest: Digest, x: Entry) {
    x in live && x.digest == digest
  }

  ghost predicate Unknown(live: seq<Entry>, digest: Digest) {
    forall x :: x in live ==> x.digest != digest
  }

  lemma AtPosition(live: seq<Entry>, digest: Digest, x: Entry)
    requires Distinct(live) && Finds(live, digest, x)
    ensures Position(live, digest) < |live| && live[Position(live, digest)] == x
  {
    PositionIsFirst(live, digest);
  }

  /** An authentication names the session's principal and moves its activity; no other session changes. */
  lemma AuthenticationExactly(p: Policy, live: seq<Entry>, now: int, digest: Digest, x: Entry)
    requires Distinct(live)
    ensures Finds(live, digest, x) ==>
      var (after, answer) := Operate(p, live, Authenticate(now, digest));
      && answer == Found(x.principal) && |after| == |live|
      && forall i :: 0 <= i < |live| ==> after[i] == if live[i] == x then x.(lastActivity := now) else live[i]
    ensures Unknown(live, digest) ==> Operate(p, live, Authenticate(now, digest)) == (live, Nobody)
  {
    PositionIsFirst(live, digest);
    if Finds(live, digest, x) {
      AtPosition(live, digest, x);
    }
  }

  /** An invalidation names the session's principal and removes this session only. */
  lemma InvalidationExactly(p: Policy, live: seq<Entry>, now: int, digest: Digest, x: Entry)
    requires Distinct(live)
    ensures Finds(live, digest, x) ==>
      var (after, answer) := Operate(p, live, Invalidate(now, digest));
      && answer == Found(x.principal)
      && (exists i :: 0 <= i < |live| && live[i] == x && after == live[..i] + live[i + 1..])
    ensures Unknown(live, digest) ==> Operate(p, live, Invalidate(now, digest)) == (live, Nobody)
  {
    PositionIsFirst(live, digest);
    if Finds(live, digest, x) {
      AtPosition(live, digest, x);
    }
  }

  /** A creation adds the session with both clocks at its reading; a full store gives up one session for it. */
  lemma CreationExactly(p: Policy, live: seq<Entry>, now: int, digest: Digest, principal: Principal)
    requires Distinct(live)
    ensures var (after, answer) := Operate(p, live, Attempt(now, digest, principal));
      var added := Entry(digest, principal, now, now);
      && (answer == Created <==> Unknown(live, digest))
      && (answer != Created ==> answer == Collided && after == live)
      && (answer == Created ==>
            if |live| == p.maximumSessions && live != []
            then exists k: nat :: LeastRecent(live, k) && after == live[..k] + live[k + 1..] + [added]
            else after == live + [added])
  {
    PositionIsFirst(live, digest);
    if |live| == p.maximumSessions && live != [] {
      OldestIsLeastRecent(live);
    }
  }

  // ---- Lazy and ideal stores ----

  /** The program's store: expired entries are removed when an operation takes the lock. */
  function LazyStep(p: Policy, entries: seq<Entry>, e: Event): (seq<Entry>, Answer) {
    Operate(p, Live(p, entries, e.now), e)
  }

  function Lazy(p: Policy, events: seq<Event>): seq<Entry> {
    if events == [] then []
    else LazyStep(p, Lazy(p, events[..|events| - 1]), events[|events| - 1]).0
  }

  function LazyAnswer(p: Policy, before: seq<Event>, e: Event): Answer {
    LazyStep(p, Lazy(p, before), e).1
  }

  /** Time passes instant by instant and whatever expires at an instant is dropped at that instant. */
  function Advance(p: Policy, entries: seq<Entry>, start: int, now: int): seq<Entry>
    requires start <= now
    decreases now - start
  {
    if start == now then Live(p, entries, now) else Live(p, Advance(p, entries, start, now - 1), now)
  }

  ghost predicate Monotone(events: seq<Event>) {
    forall i, j :: 0 <= i <= j < |events| ==> events[i].now <= events[j].now
  }

  function Clock(events: seq<Event>, now: int): int {
    if events == [] then now else events[|events| - 1].now
  }

  /** The ideal store just after the last event. */
  ghost function Ideal(p: Policy, events: seq<Event>): seq<Entry>
    requires Monotone(events)
    decreases |events|, 0
  {
    if events == [] then []
    else
      var before, e := events[..|events| - 1], events[|events| - 1];
      Operate(p, IdealAt(p, before, e.now), e).0
  }

  /** The ideal store at a later instant. */
  ghost function IdealAt(p: Policy, events: seq<Event>, now: int): seq<Entry>
    requires Monotone(events) && Clock(events, now) <= now
    decreases |events|, 1
  {
    Advance(p, Ideal(p, events), Clock(events, now), now)
  }

  lemma {:induction false} LiveTwice(p: Policy, entries: seq<Entry>, first: int, second: int)
    requires first <= second
    ensures Live(p, Live(p, entries, first), second) == Live(p, entries, second)
    decreases |entries|
  {
    if entries != [] {
      LiveTwice(p, entries[..|entries| - 1], first, second);
      var rest := Live(p, entries[..|entries| - 1], first);
      assert (rest + [entries[|entries| - 1]])[..|rest|] == rest;
    }
  }

  /** Instant-by-instant expiry and one cleanup at the end leave the same sessions. */
  lemma {:induction false} AdvanceIsOneCleanup(p: Policy, entries: seq<Entry>, start: int, now: int)
    requires start <= now
    ensures Advance(p, entries, start, now) == Live(p, entries, now)
    decreases now - start
  {
    if start < now {
      AdvanceIsOneCleanup(p, entries, start, now - 1);
      LiveTwice(p, entries, now - 1, now);
    }
  }

  /**
   When readings are non-decreasing in the order of the lock, lazy cleanup makes no difference to
   creation, authentication and invalidation.
   */
  lemma {:induction false} LazyIsIdeal(p: Policy, events: seq<Event>)
    requires Monotone(events)
    ensures Lazy(p, events) == Ideal(p, events)
    decreases |events|
  {
    if events != [] {
      var before, e := events[..|events| - 1], events[|events| - 1];
      LazyIsIdeal(p, before);
      AdvanceIsOneCleanup(p, Ideal(p, before), Clock(before, e.now), e.now);
    }
  }

  /** Every answer is the ideal store's answer, and so is what is live at every later instant. */
  lemma SameAnswers(p: Policy, events: seq<Event>, e: Event, now: int)
    requires Monotone(events + [e]) && Clock(events, now) <= now
    ensures Clock(events, e.now) <= e.now && Monotone(events)
    ensures LazyAnswer(p, events, e) == Operate(p, IdealAt(p, events, e.now), e).1
    ensures Live(p, Lazy(p, events), now) == IdealAt(p, events, now)
  {
    assert forall i :: 0 <= i < |events| ==> (events + [e])[i] == events[i];
    assert (events + [e])[|events|] == e;
    LazyIsIdeal(p, events);
    AdvanceIsOneCleanup(p, Ideal(p, events), Clock(events, e.now), e.now);
    AdvanceIsOneCleanup(p, Ideal(p, events), Clock(events, now), now);
  }

  // ---- Invariants of every run ----

  ghost predicate Distinct(entries: seq<Entry>) {
    forall i, j :: 0 <= i < j < |entries| ==> entries[i].digest != entries[j].digest
  }

  lemma {:induction false} LiveKeeps(p: Policy, entries: seq<Entry>, now: int)
    ensures |Live(p, entries, now)| <= |entries|
    ensures forall e :: e in Live(p, entries, now) <==> e in entries && !Expired(p, e, now)
    ensures Distinct(entries) ==> Distinct(Live(p, entries, now))
    decreases |entries|
  {
    if entries != [] {
      var rest, last := entries[..|entries| - 1], entries[|entries| - 1];
      assert entries == rest + [last];
      LiveKeeps(p, rest, now);
      if Distinct(entries) {
        var live := Live(p, rest, now);
        forall i | 0 <= i < |live| ensures live[i].digest != last.digest {
          assert live[i] in rest;
        }
      }
    }
  }

  lemma WithoutKeeps(entries: seq<Entry>, k: nat)
    requires Distinct(entries) && k < |entries|
    ensures Distinct(Without(entries, k))
    ensures forall e :: e in Without(entries, k) ==> e in entries
  {
  }

  lemma InsertKeeps(p: Policy, live: seq<Entry>, added: Entry)
    requires Distinct(live) && |live| <= p.maximumSessions && Usable(p)
    requires forall e :: e in live ==> e.digest != added.digest
    ensures Distinct(Admitted(p, live) + [added]) && |Admitted(p, live) + [added]| <= p.maximumSessions
  {
    if |live| == p.maximumSessions {
      WithoutKeeps(live, Oldest(live));
    }
    var kept := Admitted(p, live);
    forall i | 0 <= i < |kept| ensures kept[i].digest != added.digest {
      assert kept[i] in live;
    }
  }

  lemma OperateKeeps(p: Policy, live: seq<Entry>, e: Event)
    requires Distinct(live) && |live| <= p.maximumSessions && Usable(p)
    ensures Distinct(Operate(p, live, e).0) && |Operate(p, live, e).0| <= p.maximumSessions
  {
    PositionIsFirst(live, e.digest);
    var k := Position(live, e.digest);
    if e.Attempt? && k == |live| {
      InsertKeeps(p, live, Entry(e.digest, e.principal, e.now, e.now));
    } else if e.Invalidate? && k < |live| {
      WithoutKeeps(live, k);
    }
  }

  /** Digests stay unique and the store stays within its maximum, with or without a sane clock. */
  lemma {:induction false} Bounded(p: Policy, events: seq<Event>)
    requires Usable(p)
    ensures Distinct(Lazy(p, events)) && |Lazy(p, events)| <= p.maximumSessions
    decreases |events|
  {
    if events != [] {
      var before, e := events[..|events| - 1], events[|events| - 1];
      Bounded(p, before);
      LiveKeeps(p, Lazy(p, before), e.now);
      OperateKeeps(p, Live(p, Lazy(p, before), e.now), e);
    }
  }

  lemma EvictedFromLive(p: Policy, live: seq<Entry>, e: Event, i: nat)
    requires Usable(p) && Distinct(live) && |live| <= p.maximumSessions && e.Attempt?
    requires i < |live| && live[i] !in Operate(p, live, e).0
    ensures Operate(p, live, e).1 == Created && |live| == p.maximumSessions && LeastRecent(live, i)
    ensures forall j :: 0 <= j < |live| && j != i ==> live[j] in Operate(p, live, e).0
  {
    var k := Oldest(live);
    OldestIsLeastRecent(live);
    forall j | 0 <= j < |live| && j != k ensures live[j] in Without(live, k) {
      assert Without(live, k)[if j < k then j else j - 1] == live[j];
    }
  }

  /**
   A creation removes a live session only when the store is full of live sessions, then exactly one,
   and none was active less recently.
   */
  lemma EvictsLeastRecent(p: Policy, events: seq<Event>, e: Event, lost: Entry, kept: Entry)
    requires Usable(p) && e.Attempt?
    requires lost in Lazy(p, events) && !Expired(p, lost, e.now) && lost !in Lazy(p, events + [e])
    requires kept in Lazy(p, events) && !Expired(p, kept, e.now)
    ensures LazyAnswer(p, events, e) == Created && |Live(p, Lazy(p, events), e.now)| == p.maximumSessions
    ensures lost.lastActivity <= kept.lastActivity
    ensures kept != lost ==> kept in Lazy(p, events + [e])
  {
    var live := Live(p, Lazy(p, events), e.now);
    Bounded(p, events);
    LiveKeeps(p, Lazy(p, events), e.now);
    Extended(events, e);
    var i :| 0 <= i < |live| && live[i] == lost;
    var j :| 0 <= j < |live| && live[j] == kept;
    EvictedFromLive(p, live, e, i);
  }

  // ---- Where a session comes from ----

  /** Event `i` made the session and it has not been invalidated or recreated since. */
  ghost predicate Origin(p: Policy, events: seq<Event>, e: Entry, i: nat) {
    && i < |events|
    && events[i] == Attempt(e.created, e.digest, e.principal)
    && LazyAnswer(p, events[..i], events[i]) == Created
    && forall j :: i < j < |events| && events[j].digest == e.digest ==>
         !events[j].Invalidate? && LazyAnswer(p, events[..j], events[j]) in {Collided, Found(e.principal)}
  }

  /** Event `k` was the session's latest activity. */
  ghost predicate Activity(p: Policy, events: seq<Event>, e: Entry, i: nat, k: nat) {
    && i <= k < |events| && events[k].digest == e.digest && events[k].now == e.lastActivity
    && !events[k].Invalidate? && (i < k ==> events[k].Authenticate?)
    && forall j :: k < j < |events| ==> !(events[j].Authenticate? && events[j].digest == e.digest)
  }

  ghost predicate Justified(p: Policy, events: seq<Event>, e: Entry) {
    exists i, k :: Origin(p, events, e, i) && Activity(p, events, e, i, k)
  }

  lemma JustifiedLater(p: Policy, events: seq<Event>, e: Entry, next: Event)
    requires Justified(p, events, e)
    requires next.digest == e.digest ==> next.Attempt? && LazyAnswer(p, events, next) == Collided
    ensures Justified(p, events + [next], e)
  {
    var i, k :| Origin(p, events, e, i) && Activity(p, events, e, i, k);
    OriginLater(p, events, e, i, next);
    assert Activity(p, events + [next], e, i, k);
  }

  lemma OriginLater(p: Policy, events: seq<Event>, e: Entry, i: nat, next: Event)
    requires Origin(p, events, e, i)
    requires next.digest == e.digest ==>
      !next.Invalidate? && LazyAnswer(p, events, next) in {Collided, Found(e.principal)}
    ensures Origin(p, events + [next], e, i)
  {
    var all := events + [next];
    assert all[..i] == events[..i];
    forall j | i < j < |all| && all[j].digest == e.digest
      ensures !all[j].Invalidate? && LazyAnswer(p, all[..j], all[j]) in {Collided, Found(e.principal)}
    {
      assert all[..j] == events[..j];
      assert j == |events| ==> events[..j] == events;
    }
  }

  /** The activity of an authenticated session is the authentication itself. */
  lemma JustifiedAuthenticated(p: Policy, events: seq<Event>, e: Entry, now: int)
    requires Justified(p, events, e) && LazyAnswer(p, events, Authenticate(now, e.digest)) == Found(e.principal)
    ensures Justified(p, events + [Authenticate(now, e.digest)], e.(lastActivity := now))
  {
    var next, moved := Authenticate(now, e.digest), e.(lastActivity := now);
    var i, k :| Origin(p, events, e, i) && Activity(p, events, e, i, k);
    assert Origin(p, events, moved, i);
    OriginLater(p, events, moved, i, next);
    assert Activity(p, events + [next], moved, i, |events|);
  }

  lemma JustifiedCreated(p: Policy, events: seq<Event>, now: int, digest: Digest, principal: Principal)
    requires LazyAnswer(p, events, Attempt(now, digest, principal)) == Created
    ensures Justified(p, events + [Attempt(now, digest, principal)], Entry(digest, principal, now, now))
  {
    var all, e := events + [Attempt(now, digest, principal)], Entry(digest, principal, now, now);
    assert all[..|events|] == events;
    assert Origin(p, all, e, |events|) && Activity(p, all, e, |events|, |events|);
  }

  /** Every retained entry can be traced to the events that made it and last used it. */
  lemma {:induction false} AllJustified(p: Policy, events: seq<Event>, e: Entry)
    requires Usable(p) && e in Lazy(p, events)
    ensures Justified(p, events, e)
    decreases |events|
  {
    var before, last := events[..|events| - 1], events[|events| - 1];
    assert events == before + [last];
    var live := Live(p, Lazy(p, before), last.now);
    Bounded(p, before);
    LiveKeeps(p, Lazy(p, before), last.now);
    var k := Position(live, last.digest);
    PositionIsFirst(live, last.digest);
    if last.Authenticate? && k < |live| && e == live[k].(lastActivity := last.now) {
      AllJustified(p, before, live[k]);
      JustifiedAuthenticated(p, before, live[k], last.now);
    } else if last.Attempt? && k == |live| && e == Entry(last.digest, last.principal, last.now, last.now) {
      JustifiedCreated(p, before, last.now, last.digest, last.principal);
    } else {
      RetainedWasLive(p, live, last, e);
      AllJustified(p, before, e);
      JustifiedLater(p, before, e, last);
    }
  }

  lemma RetainedWasLive(p: Policy, live: seq<Entry>, last: Event, e: Entry)
    requires Distinct(live) && e in Operate(p, live, last).0
    requires last.Authenticate? ==>
      var k := Position(live, last.digest); k < |live| ==> e != live[k].(lastActivity := last.now)
    requires last.Attempt? && Operate(p, live, last).1 == Created ==>
      e != Entry(last.digest, last.principal, last.now, last.now)
    ensures e in live
    ensures last.digest == e.digest ==> last.Attempt? && Operate(p, live, last).1 == Collided
  {
    PositionIsFirst(live, last.digest);
    var k := Position(live, last.digest);
    if last.Authenticate? && k < |live| {
      NotUpdated(live, k, live[k].(lastActivity := last.now), e);
    } else if last.Invalidate? && k < |live| {
      NotRemoved(live, k, e);
    } else if last.Attempt? && k == |live| && |live| == p.maximumSessions && live != [] {
      NotRemoved(live, Oldest(live), e);
    }
  }

  lemma NotRemoved(live: seq<Entry>, k: nat, e: Entry)
    requires Distinct(live) && k < |live| && e in Without(live, k)
    ensures e in live && e.digest != live[k].digest
  {
  }

  lemma NotUpdated(live: seq<Entry>, k: nat, x: Entry, e: Entry)
    requires Distinct(live) && k < |live| && e in live[k := x] && e != x
    ensures e in live && e.digest != live[k].digest
  {
  }

  /**
   No session outlives its credentials: a successful authentication goes back to one creation, less
   than the absolute lifetime ago, never invalidated since, whose latest activity is less than the
   idle timeout ago.
   */
  lemma AuthenticationIsJustified(p: Policy, events: seq<Event>, now: int, digest: Digest, principal: Principal)
    requires Usable(p) && LazyAnswer(p, events, Authenticate(now, digest)) == Found(principal)
    ensures exists e ::
      && Justified(p, events, e) && e.digest == digest && e.principal == principal
      && now - e.created < p.absoluteLifetime && now - e.lastActivity < p.idleTimeout
  {
    var live := Live(p, Lazy(p, events), now);
    LiveKeeps(p, Lazy(p, events), now);
    PositionIsFirst(live, digest);
    var e := live[Position(live, digest)];
    assert e in live;
    AllJustified(p, events, e);
  }

  // ---- Readings out of lock order ----

  /** Whoever is retained is found, unless expired at the reading. */
  lemma RetainedAnswer(p: Policy, events: seq<Event>, e: Entry, now: int)
    requires Usable(p) && e in Lazy(p, events)
    ensures LazyAnswer(p, events, Authenticate(now, e.digest))
         == if Expired(p, e, now) then Nobody else Found(e.principal)
  {
    var entries := Lazy(p, events);
    var live := Live(p, entries, now);
    Bounded(p, events);
    LiveKeeps(p, entries, now);
    PositionIsFirst(live, e.digest);
    var k := Position(live, e.digest);
    if k < |live| {
      assert live[k] in entries;
      SameDigest(entries, e, live[k]);
    }
  }

  lemma SameDigest(entries: seq<Entry>, a: Entry, b: Entry)
    requires Distinct(entries) && a in entries && b in entries && a.digest == b.digest
    ensures a == b
  {
  }

  /**
   A reading is taken before the lock, so a call may bring one that is earlier than the session's
   latest activity.  The session is then found as usual, but its idle time counts from that earlier
   reading, so that it never ends later than the latest activity would have it.
   */
  lemma EarlyReadingShortens(p: Policy, events: seq<Event>, e: Entry, early: int, now: int)
    requires Usable(p) && e in Lazy(p, events) && !Expired(p, e, early)
    ensures var late := events + [Authenticate(early, e.digest)];
      LazyAnswer(p, late, Authenticate(now, e.digest)) ==
        if now - e.created >= p.absoluteLifetime || now - early >= p.idleTimeout then Nobody else Found(e.principal)
    ensures early <= e.lastActivity && Expired(p, e, now) ==>
      LazyAnswer(p, events + [Authenticate(early, e.digest)], Authenticate(now, e.digest)) == Nobody
  {
    var moved := e.(lastActivity := early);
    MovedIsRetained(p, events, e, early);
    RetainedAnswer(p, events + [Authenticate(early, e.digest)], moved, now);
  }

  /**
   If nothing comes between, such a reading costs the session time, some instant at which it is refused
   though it would have been live, if and only if the reading is earlier than the latest activity and
   the idle time that counts from it is over before the absolute lifetime is.
   */
  lemma EarlyReadingCosts(p: Policy, events: seq<Event>, e: Entry, early: int)
    requires Usable(p) && e in Lazy(p, events) && !Expired(p, e, early)
    ensures (exists now :: !Expired(p, e, now) && RefusedAfter(p, events, e, early, now)) <==>
      early < e.lastActivity && early + p.idleTimeout < e.created + p.absoluteLifetime
  {
    forall now
      ensures RefusedAfter(p, events, e, early, now) <==>
        now - e.created >= p.absoluteLifetime || now - early >= p.idleTimeout
    {
      EarlyReadingShortens(p, events, e, early, now);
    }
    if early < e.lastActivity && early + p.idleTimeout < e.created + p.absoluteLifetime {
      assert !Expired(p, e, early + p.idleTimeout) && RefusedAfter(p, events, e, early, early + p.idleTimeout);
    }
  }

  /** After a call with the reading `early`, a call with the reading `now` does not find the session. */
  predicate RefusedAfter(p: Policy, events: seq<Event>, e: Entry, early: int, now: int) {
    LazyAnswer(p, events + [Authenticate(early, e.digest)], Authenticate(now, e.digest)) == Nobody
  }

  lemma MovedIsRetained(p: Policy, events: seq<Event>, e: Entry, now: int)
    requires Usable(p) && e in Lazy(p, events) && !Expired(p, e, now)
    ensures e.(lastActivity := now) in Lazy(p, events + [Authenticate(now, e.digest)])
  {
    var entries := Lazy(p, events);
    var live := Live(p, entries, now);
    Bounded(p, events);
    LiveKeeps(p, entries, now);
    PositionIsFirst(live, e.digest);
    var i :| 0 <= i < |live| && live[i] == e;
    var k := Position(live, e.digest);
    assert k < |live| && live[k] in entries;
    SameDigest(entries, e, live[k]);
    Extended(events, Authenticate(now, e.digest));
    var after := live[k := live[k].(lastActivity := now)];
    assert after[k] == e.(lastActivity := now);
  }

  // ---- Readings out of lock order, over all that may follow ----

  function LazyFrom(p: Policy, entries: seq<Entry>, events: seq<Event>): seq<Entry>
    decreases |events|
  {
    if events == [] then entries else LazyFrom(p, LazyStep(p, entries, events[0]).0, events[1..])
  }

  lemma FoundExactly(p: Policy, entries: seq<Entry>, now: int, digest: Digest)
    ensures LazyStep(p, entries, Authenticate(now, digest)).1.Found? <==>
      exists x :: x in entries && x.digest == digest && !Expired(p, x, now)
  {
    var live := Live(p, entries, now);
    LiveKeeps(p, entries, now);
    PositionIsFirst(live, digest);
    var k := Position(live, digest);
    if k < |live| {
      assert live[k] in live;
    }
  }

  /** Whether a session is found at the reading `now`, after `later` from the given store. */
  predicate FoundAfter(p: Policy, entries: seq<Entry>, later: seq<Event>, now: int, digest: Digest) {
    LazyStep(p, LazyFrom(p, entries, later), Authenticate(now, digest)).1.Found?
  }

  /** The store that remembers an activity which an early reading made it forget. */
  function Corrected(entries: seq<Entry>, digest: Digest, activity: int): seq<Entry> {
    var k := Position(entries, digest);
    if k < |entries| && entries[k].lastActivity < activity then entries[k := entries[k].(lastActivity := activity)]
    else entries
  }

  /** The session is lost at the end of `later`, and only because the activity was forgotten. */
  predicate Costs(p: Policy, entries: seq<Entry>, digest: Digest, activity: int, later: seq<Event>, now: int) {
    && !FoundAfter(p, entries, later, now, digest)
    && FoundAfter(p, Corrected(entries, digest, activity), later, now, digest)
  }

  lemma {:induction false} AllLive(p: Policy, entries: seq<Entry>, now: int)
    requires forall e :: e in entries ==> !Expired(p, e, now)
    ensures Live(p, entries, now) == entries
    decreases |entries|
  {
    if entries != [] {
      var rest, last := entries[..|entries| - 1], entries[|entries| - 1];
      assert entries == rest + [last];
      AllLive(p, rest, now);
    }
  }

  lemma PositionAt(entries: seq<Entry>, k: nat)
    requires Distinct(entries) && k < |entries|
    ensures Position(entries, entries[k].digest) == k
  {
    PositionIsFirst(entries, entries[k].digest);
  }

  ghost predicate LiveStore(p: Policy, entries: seq<Entry>, now: int) {
    Distinct(entries) && forall e :: e in entries ==> !Expired(p, e, now)
  }

  /** Whoever is retained by a call is live at its reading. */
  lemma RetainedIsLive(p: Policy, events: seq<Event>, now: int, digest: Digest, x: Entry)
    requires Usable(p) && x in Lazy(p, events + [Authenticate(now, digest)])
    ensures !Expired(p, x, now)
  {
    Extended(events, Authenticate(now, digest));
    LiveKeeps(p, Lazy(p, events), now);
    var live := Live(p, Lazy(p, events), now);
    var k := Position(live, digest);
    assert k < |live| ==> live[k] in live;
  }

  /** After a call with the reading `early`: `e` has that activity, and everybody retained is live then. */
  lemma AfterReading(p: Policy, events: seq<Event>, e: Entry, early: int) returns (after: seq<Entry>, k: nat)
    requires Usable(p) && e in Lazy(p, events) && !Expired(p, e, early)
    ensures after == Lazy(p, events + [Authenticate(early, e.digest)])
    ensures LiveStore(p, after, early) && |after| <= p.maximumSessions
    ensures k < |after| && after[k] == e.(lastActivity := early) && Position(after, e.digest) == k
  {
    after := Lazy(p, events + [Authenticate(early, e.digest)]);
    Bounded(p, events + [Authenticate(early, e.digest)]);
    forall x | x in after ensures !Expired(p, x, early) {
      RetainedIsLive(p, events, early, e.digest, x);
    }
    MovedIsRetained(p, events, e, early);
    k :| 0 <= k < |after| && after[k] == e.(lastActivity := early);
    PositionAt(after, k);
  }

  // ---- When a reading can cost a session ----

  /** A session in front, and newcomers of one instant with longer digests behind it. */
  ghost predicate Crowd(entries: seq<Entry>, x: Entry, now: int) {
    && entries != [] && entries[0] == x
    && forall i :: 0 < i < |entries| ==>
         && entries[i].created == entries[i].lastActivity == now
         && |x.digest| < |entries[i].digest| < |x.digest| + |entries|
  }

  /** The digest of the next newcomer is longer than all the others. */
  function NewDigest(digest: Digest, n: nat): (longer: Digest)
    ensures |longer| == |digest| + n
  {
    digest + seq(n, _ => '0')
  }

  /** The next newcomer joins the crowd, or takes the place of the least recent. */
  lemma NextNewcomer(p: Policy, entries: seq<Entry>, x: Entry, now: int)
    requires Usable(p) && Crowd(entries, x, now) && !Expired(p, x, now)
    ensures var digest := NewDigest(x.digest, |entries|);
      LazyStep(p, entries, Attempt(now, digest, "")).0 == Admitted(p, entries) + [Entry(digest, "", now, now)]
  {
    var digest := NewDigest(x.digest, |entries|);
    AllLive(p, entries, now);
    PositionIsFirst(entries, digest);
    assert forall i :: 0 <= i < |entries| ==> |entries[i].digest| < |digest|;
    assert Position(entries, digest) == |entries|;
  }

  /** The session stays in a full crowd of more than one only if it was active later. */
  lemma WhoIsOldest(entries: seq<Entry>, x: Entry, now: int)
    requires Crowd(entries, x, now) && |entries| > 1 && x.lastActivity >= now
    ensures Oldest(entries) == if x.lastActivity > now then 1 else 0
  {
    OldestIsLeastRecent(entries);
    assert entries[1].lastActivity == now;
  }

  lemma LastNewcomer(p: Policy, entries: seq<Entry>, x: Entry, now: int)
    requires Usable(p) && Crowd(entries, x, now) && !Expired(p, x, now)
    requires |entries| == p.maximumSessions > 1 && x.lastActivity >= now
    ensures FoundAfter(p, entries, [Attempt(now, NewDigest(x.digest, |entries|), "")], now, x.digest)
       <==> x.lastActivity > now
  {
    var e := Attempt(now, NewDigest(x.digest, |entries|), "");
    var end := LazyStep(p, entries, e).0;
    NextNewcomer(p, entries, x, now);
    WhoIsOldest(entries, x, now);
    FoundExactly(p, end, now, x.digest);
    assert LazyFrom(p, entries, [e]) == end;
    if x.lastActivity > now {
      assert end[0] == x;
    }
  }

  /** Newcomers make the difference between two sessions of the same digest. */
  lemma {:induction false} NewcomersEvict(p: Policy, left: seq<Entry>, right: seq<Entry>, now: int)
    returns (later: seq<Event>)
    requires Usable(p) && p.maximumSessions > 1 && 0 < |left| == |right| <= p.maximumSessions
    requires Crowd(left, left[0], now) && Crowd(right, right[0], now) && left[0].digest == right[0].digest
    requires !Expired(p, left[0], now) && !Expired(p, right[0], now)
    requires left[0].lastActivity == now < right[0].lastActivity
    ensures !FoundAfter(p, left, later, now, left[0].digest) && FoundAfter(p, right, later, now, left[0].digest)
    decreases p.maximumSessions - |left|
  {
    var e := Attempt(now, NewDigest(left[0].digest, |left|), "");
    if |left| == p.maximumSessions {
      LastNewcomer(p, left, left[0], now);
      LastNewcomer(p, right, right[0], now);
      later := [e];
    } else {
      NextNewcomer(p, left, left[0], now);
      NextNewcomer(p, right, right[0], now);
      var rest := NewcomersEvict(p, LazyStep(p, left, e).0, LazyStep(p, right, e).0, now);
      later := [e] + rest;
      assert later[1..] == rest;
    }
  }

  lemma InvalidateAt(p: Policy, entries: seq<Entry>, i: nat, now: int)
    requires LiveStore(p, entries, now) && i < |entries|
    ensures LazyStep(p, entries, Invalidate(now, entries[i].digest)).0 == Without(entries, i)
    ensures LiveStore(p, Without(entries, i), now)
  {
    AllLive(p, entries, now);
    PositionAt(entries, i);
    WithoutKeeps(entries, i);
  }

  /** Two stores that differ in the activity of one session: some sequel loses it from the first only. */
  lemma {:induction false} SequelEvicts(p: Policy, left: seq<Entry>, right: seq<Entry>, k: nat, now: int)
    returns (later: seq<Event>)
    requires Usable(p) && p.maximumSessions > 1 && k < |left| && LiveStore(p, left, now) && LiveStore(p, right, now)
    requires |right| == |left| && right == left[k := left[k].(lastActivity := right[k].lastActivity)]
    requires left[k].lastActivity == now < right[k].lastActivity
    ensures !FoundAfter(p, left, later, now, left[k].digest) && FoundAfter(p, right, later, now, left[k].digest)
    decreases |left|
  {
    if |left| == 1 {
      later := NewcomersEvict(p, left, right, now);
    } else {
      var i := if k == 0 then 1 else 0;
      InvalidateAt(p, left, i, now);
      InvalidateAt(p, right, i, now);
      var rest := SequelEvicts(p, Without(left, i), Without(right, i), if k == 0 then 0 else k - 1, now);
      later := [Invalidate(now, left[i].digest)] + rest;
      assert later[1..] == rest;
    }
  }

  // ---- When no sequel can cost it ----

  /** The same session in a store for one, up to an activity that has no bearing on when it expires. */
  predicate SameButActivity(p: Policy, left: seq<Entry>, right: seq<Entry>) {
    left == right ||
    (&& |left| == |right| == 1
     && right[0] == left[0].(lastActivity := right[0].lastActivity)
     && left[0].lastActivity + p.idleTimeout >= left[0].created + p.absoluteLifetime
     && right[0].lastActivity + p.idleTimeout >= right[0].created + p.absoluteLifetime)
  }

  lemma SameStep(p: Policy, left: seq<Entry>, right: seq<Entry>, e: Event)
    requires p.maximumSessions == 1 && SameButActivity(p, left, right)
    ensures SameButActivity(p, LazyStep(p, left, e).0, LazyStep(p, right, e).0)
    ensures LazyStep(p, left, e).1 == LazyStep(p, right, e).1
  {
    if left != right {
      assert left[..0] == [] == right[..0];
      assert Live(p, [], e.now) == [];
    }
  }

  lemma {:induction false} SameRun(p: Policy, left: seq<Entry>, right: seq<Entry>, later: seq<Event>)
    requires p.maximumSessions == 1 && SameButActivity(p, left, right)
    ensures SameButActivity(p, LazyFrom(p, left, later), LazyFrom(p, right, later))
    decreases |later|
  {
    if later != [] {
      SameStep(p, left, right, later[0]);
      SameRun(p, LazyStep(p, left, later[0]).0, LazyStep(p, right, later[0]).0, later[1..]);
    }
  }

  /**
   Over all that may follow, eviction included: an early reading can cost a session, compared with a
   store that remembers the later activity, if and only if it is earlier than that activity and either
   there is room for more than one session or the idle time from it is over before the absolute lifetime is.
   */
  lemma EarlyReadingCanCost(p: Policy, events: seq<Event>, e: Entry, early: int)
    requires Usable(p) && e in Lazy(p, events) && !Expired(p, e, early)
    ensures var after := Lazy(p, events + [Authenticate(early, e.digest)]);
      (exists later, now :: Costs(p, after, e.digest, e.lastActivity, later, now)) <==>
      && early < e.lastActivity
      && (p.maximumSessions > 1 || early + p.idleTimeout < e.created + p.absoluteLifetime)
  {
    var after, k := AfterReading(p, events, e, early);
    if early < e.lastActivity && p.maximumSessions > 1 {
      var later := SequelEvicts(p, after, after[k := e], k, early);
      assert Costs(p, after, e.digest, e.lastActivity, later, early);
    } else if early < e.lastActivity && early + p.idleTimeout < e.created + p.absoluteLifetime {
      var now := early + p.idleTimeout;
      FoundExactly(p, after, now, e.digest);
      FoundExactly(p, after[k := e], now, e.digest);
      assert after[k := e][k] == e;
      assert Costs(p, after, e.digest, e.lastActivity, [], now);
    } else if early < e.lastActivity {
      forall later, now ensures !Costs(p, after, e.digest, e.lastActivity, later, now) {
        SameRun(p, after, after[k := e], later);
        SameStep(p, LazyFrom(p, after, later), LazyFrom(p, after[k := e], later), Authenticate(now, e.digest));
      }
    }
  }

  // ---- The object ----

  datatype StoreError = GenerationFailed | DigestFailed

  /** A generated credential with its digest and the clock reading taken with it. */
  datatype Generated = Generated(value: string, digest: Digest, now: int)

  /** Outcome of digesting a submitted credential. */
  datatype Digested = Digested(digest: Digest) | InvalidCredential | DigestError

  class SessionStore {
    const policy: Policy
    var entries: seq<Entry>
    ghost var history: seq<Event>  // locked regions so far

    ghost predicate Valid()
      reads this
    {
      Usable(policy) && entries == Lazy(policy, history)
    }

    constructor (policy: Policy)
      requires Usable(policy)
      ensures Valid() && this.policy == policy && history == []
    {
      this.policy := policy;
      entries, history := [], [];
    }

    method RemoveExpired(now: int)
      modifies this`entries
      ensures entries == Live(policy, old(entries), now)
    {
      var kept: seq<Entry> := [];
      for i := 0 to |entries|
        invariant kept == Live(policy, entries[..i], now)
        invariant entries == old(entries)
      {
        assert entries[..i + 1][..i] == entries[..i];
        if !Expired(policy, entries[i], now) {
          kept := kept + [entries[i]];
        }
      }
      assert entries[..|entries|] == entries;
      entries := kept;
    }

    method Find(digest: Digest) returns (k: nat)
      ensures k == Position(entries, digest)
    {
      k := 0;
      while k < |entries| && entries[k].digest != digest
        invariant k <= |entries| && forall i :: 0 <= i < k ==> entries[i].digest != digest
      {
        k := k + 1;
      }
      PositionIsFirst(entries, digest);
    }

    method EvictLeastRecentIfFull()
      requires Usable(policy)
      modifies this`entries
      ensures entries == Admitted(policy, old(entries))
    {
      if |entries| != policy.maximumSessions {
        return;
      }
      var least := 0;
      for i := 1 to |entries|
        invariant 0 <= least < i && LeastRecent(entries[..i], least)
      {
        if entries[i].lastActivity < entries[least].lastActivity {
          least := i;
        }
      }
      assert entries[..|entries|] == entries;
      OldestIsLeastRecent(entries);
      entries := Without(entries, least);
    }

    /** One attempt's locked region. */
    method TryInsert(now: int, digest: Digest, principal: Principal) returns (inserted: bool)
      requires Valid()
      modifies this
      ensures Valid() && history == old(history) + [Attempt(now, digest, principal)]
      ensures inserted <==> forall e :: e in Live(policy, old(entries), now) ==> e.digest != digest
      ensures inserted ==> Entry(digest, principal, now, now) in entries
    {
      RemoveExpired(now);
      var k := Find(digest);
      PositionIsFirst(entries, digest);
      inserted := k == |entries|;
      if inserted {
        EvictLeastRecentIfFull();
        entries := entries + [Entry(digest, principal, now, now)];
      }
      Extended(history, Attempt(now, digest, principal));
      history := history + [Attempt(now, digest, principal)];
    }

    /** One round of the loop: the next generated credential is tried. */
    method TryGenerated(
        generate: nat -> Option<Generated>, principal: Principal, attempt: nat, ghost start: seq<Event>)
      returns (inserted: bool)
      requires Valid() && Attempts(generate, attempt) && generate(attempt).Some?
      requires history == start + AttemptEvents(generate, principal, attempt)
      modifies this
      ensures Valid() && Attempts(generate, attempt + 1)
      ensures history == start + AttemptEvents(generate, principal, attempt + 1)
      ensures var g := generate(attempt).value;
        inserted ==> Entry(g.digest, principal, g.now, g.now) in entries
    {
      OneMoreAttempt(start, generate, principal, attempt);
      var g := generate(attempt).value;
      inserted := TryInsert(g.now, g.digest, principal);
    }

    /** Generates until a digest is new, at most four times; the returned credential is registered. */
    method CreateSession(principal: Principal, generate: nat -> Option<Generated>)
      returns (r: Result<string, StoreError>, ghost n: nat)
      requires Valid()
      modifies this
      ensures Valid()
      ensures n <= GENERATION_ATTEMPTS && Attempts(generate, n)
      ensures history == old(history) + AttemptEvents(generate, principal, n)
      ensures r.Ok? ==> n > 0 && r.value == generate(n - 1).value.value
      ensures r.Ok? ==> var g := generate(n - 1).value; Entry(g.digest, principal, g.now, g.now) in entries
      ensures r.Err? ==> n == GENERATION_ATTEMPTS || generate(n).None?
    {
      var attempt := 0;
      n := 0;
      while attempt < GENERATION_ATTEMPTS
        invariant 0 <= attempt == n <= GENERATION_ATTEMPTS && Valid()
        invariant Attempts(generate, attempt)
        invariant history == old(history) + AttemptEvents(generate, principal, attempt)
      {
        var generated := generate(attempt);
        if generated.None? {
          break;
        }
        var inserted := TryGenerated(generate, principal, attempt, old(history));
        attempt := attempt + 1;
        n := attempt;
        if inserted {
          return Ok(generated.value.value), n;
        }
      }
      return Err(GenerationFailed), n;
    }

    /** Answers for a submitted credential; an undigestible one never reaches the store. */
    method AuthenticateCredential(digested: Digested, now: int) returns (r: Result<Option<Principal>, StoreError>)
      requires Valid()
      modifies this
      ensures Valid()
      ensures !digested.Digested? ==> history == old(history) && entries == old(entries)
      ensures !digested.Digested? ==> r == if digested.InvalidCredential? then Ok(None) else Err(DigestFailed)
      ensures digested.Digested? ==>
        var e := Authenticate(now, digested.digest);
        && history == old(history) + [e]
        && r == Ok(Answered(LazyAnswer(policy, old(history), e)))
        && forall p :: r == Ok(Some(p)) <==> LazyAnswer(policy, old(history), e) == Found(p)
    {
      if !digested.Digested? {
        return if digested.InvalidCredential? then Ok(None) else Err(DigestFailed);
      }
      RemoveExpired(now);
      var k := Find(digested.digest);
      if k == |entries| {
        r := Ok(None);
      } else {
        entries := entries[k := entries[k].(lastActivity := now)];
        r := Ok(Some(entries[k].principal));
      }
      Extended(history, Authenticate(now, digested.digest));
      history := history + [Authenticate(now, digested.digest)];
    }

    method InvalidateCredential(digested: Digested, now: int) returns (r: Result<Option<Principal>, StoreError>)
      requires Valid()
      modifies this
      ensures Valid()
      ensures !digested.Digested? ==> history == old(history) && entries == old(entries)
      ensures !digested.Digested? ==> r == if digested.InvalidCredential? then Ok(None) else Err(DigestFailed)
      ensures digested.Digested? ==>
        var e := Invalidate(now, digested.digest);
        && history == old(history) + [e]
        && r == Ok(Answered(LazyAnswer(policy, old(history), e)))
        && forall p :: r == Ok(Some(p)) <==> LazyAnswer(policy, old(history), e) == Found(p)
    {
      if !digested.Digested? {
        return if digested.InvalidCredential? then Ok(None) else Err(DigestFailed);
      }
      RemoveExpired(now);
      var k := Find(digested.digest);
      if k == |entries| {
        r := Ok(None);
      } else {
        r := Ok(Some(entries[k].principal));
        entries := Without(entries, k);
      }
      Extended(history, Invalidate(now, digested.digest));
      history := history + [Invalidate(now, digested.digest)];
    }
  }

  function Answered(a: Answer): Option<Principal> {
    if a.Found? then Some(a.principal) else None
  }

  predicate Attempts(generate: nat -> Option<Generated>, n: nat) {
    forall i: nat :: i < n ==> generate(i).Some?
  }

  function AttemptEvents(generate: nat -> Option<Generated>, principal: Principal, n: nat): (events: seq<Event>)
    requires Attempts(generate, n)
    ensures |events| == n
  {
    seq(n, i requires 0 <= i < n => AttemptEvent(generate(i), principal))
  }

  function AttemptEvent(g: Option<Generated>, principal: Principal): Event {
    if g.Some? then Attempt(g.value.now, g.value.digest, principal) else Attempt(0, "", principal)
  }

  lemma OneMoreAttempt(start: seq<Event>, generate: nat -> Option<Generated>, principal: Principal, n: nat)
    requires Attempts(generate, n) && generate(n).Some?
    ensures Attempts(generate, n + 1)
    ensures var g := generate(n).value;
      start + AttemptEvents(generate, principal, n + 1)
        == start + AttemptEvents(generate, principal, n) + [Attempt(g.now, g.digest, principal)]
  {
  }

  lemma Extended(history: seq<Event>, e: Event)
    ensures forall p :: Lazy(p, history + [e]) == LazyStep(p, Lazy(p, history), e).0
  {
    assert (history + [e])[..|history|] == history;
  }
}
