/**
 The login rate limiter and the serialized service that drives it.  The limiter keeps one counter and
 one instant; the properties speak of the whole history of attempts.
 */
module RateLimiter {
  import opened Basics

  /** Largest representable instant of the steady clock (64-bit nanoseconds). */
  const CLOCK_MAX := 0x7FFF_FFFF_FFFF_FFFF

  datatype Policy = Policy(maximumFailures: nat, cooldown: int)

  predicate Usable(p: Policy) {
    p.maximumFailures > 0 && p.cooldown > 0
  }

  datatype Outcome = Unavailable | Mismatch(at: int) | Match
  datatype Attempt = Attempt(now: int, outcome: Outcome)
  datatype Answer = Throttled | NoVerdict | InvalidCredentials | Authenticated

  /** The limiter's two fields. */
  datatype Limiter = Limiter(failures: nat, blockedUntil: int)

  const FRESH := Limiter(0, 0)

  predicate Blocks(p: Policy, s: Limiter, now: int) {
    s.failures >= p.maximumFailures && now < s.blockedUntil
  }

  /** The limiter after a call it let through: a full counter whose cooldown is over starts afresh. */
  function AfterAllow(p: Policy, s: Limiter): Limiter {
    if s.failures < p.maximumFailures then s else FRESH
  }

  /** End of a cooldown that starts now, saturating at the end of the clock. */
  function Until(p: Policy, at: int): int {
    if p.cooldown > CLOCK_MAX - at then CLOCK_MAX else at + p.cooldown
  }

  function AfterFailure(p: Policy, s: Limiter, at: int): Limiter {
    if s.failures >= p.maximumFailures then s
    else if s.failures + 1 == p.maximumFailures then Limiter(s.failures + 1, Until(p, at))
    else s.(failures := s.failures + 1)
  }

  function Step(p: Policy, s: Limiter, a: Attempt): (Limiter, Answer) {
    if Blocks(p, s, a.now) then (s, Throttled)
    else
      match a.outcome
      case Unavailable => (AfterAllow(p, s), NoVerdict)
      case Mismatch(at) => (AfterFailure(p, AfterAllow(p, s), at), InvalidCredentials)
      case Match => (FRESH, Authenticated)
  }

  function Run(p: Policy, attempts: seq<Attempt>): Limiter {
    if attempts == [] then FRESH
    else Step(p, Run(p, attempts[..|attempts| - 1]), attempts[|attempts| - 1]).0
  }

  function AnswerTo(p: Policy, before: seq<Attempt>, a: Attempt): Answer {
    Step(p, Run(p, before), a).1
  }

  // ---- History ----

  /** Times of the failures recorded since the latest success, whatever cooldowns passed between. */
  function Failures(p: Policy, attempts: seq<Attempt>): seq<int> {
    if attempts == [] then []
    else
      var before, a := attempts[..|attempts| - 1], attempts[|attempts| - 1];
      match AnswerTo(p, before, a)
      case InvalidCredentials => Failures(p, before) + [if a.outcome.Mismatch? then a.outcome.at else a.now]
      case Authenticated => []
      case _ => Failures(p, before)
  }

  /** Latest clock reading of an attempt. */
  function End(a: Attempt): int {
    if a.outcome.Mismatch? then a.outcome.at else a.now
  }

  /** The mutex serializes attempts, so their readings never go back. */
  ghost predicate Monotone(attempts: seq<Attempt>) {
    && (forall i :: 0 <= i < |attempts| ==> 0 <= attempts[i].now <= End(attempts[i]) <= CLOCK_MAX)
    && (forall i, j :: 0 <= i < j < |attempts| ==> End(attempts[i]) <= attempts[j].now)
  }

  /** The rule a user can understand: every `maximumFailures`-th failure in a row closes the door for one cooldown. */
  predicate CoolingDown(p: Policy, failures: seq<int>, now: int)
    requires Usable(p)
  {
    failures != [] && |failures| % p.maximumFailures == 0 && now < Until(p, failures[|failures| - 1])
  }

  ghost predicate Ordered(failures: seq<int>, now: int) {
    && (forall i, j :: 0 <= i < j < |failures| ==> failures[i] <= failures[j])
    && forall i :: 0 <= i < |failures| ==> failures[i] <= now
  }

  /**
   The two fields against the history: the counter is the number of failures since the last closed
   sequence, and at a full sequence either the block is still stored or its end has been seen.
   */
  ghost predicate Tracks(p: Policy, s: Limiter, failures: seq<int>, now: int)
    requires Usable(p)
  {
    var m := |failures| % p.maximumFailures;
    if m != 0 then s.failures == m
    else if s.failures == 0 then failures == [] || Until(p, failures[|failures| - 1]) <= now
    else failures != [] && s.failures == p.maximumFailures && s.blockedUntil == Until(p, failures[|failures| - 1])
  }

  /** Each sequence of `maximumFailures` failures is followed by a full cooldown. */
  ghost predicate Spaced(p: Policy, failures: seq<int>)
    requires Usable(p)
  {
    forall i :: 0 <= i < |failures| - 1 && (i + 1) % p.maximumFailures == 0 ==> Until(p, failures[i]) <= failures[i + 1]
  }

  /** Moving on by one leaves the next remainder. */
  lemma NextRemainder(n: nat, m: nat)
    requires m > 0
    ensures (n + 1) % m == if n % m + 1 == m then 0 else n % m + 1
  {
    var q, r := n / m, n % m;
    assert n == q * m + r;
    if r + 1 == m {
      assert n + 1 == (q + 1) * m;
      Remainder(n + 1, m, q + 1, 0);
    } else {
      Remainder(n + 1, m, q, r + 1);
    }
  }

  lemma AtLeastOnce(k: int, m: int)
    requires k >= 1 && m > 0
    ensures k * m >= m
  {
    assert k * m == (k - 1) * m + m;
  }

  lemma Remainder(n: int, m: int, q: int, r: int)
    requires m > 0 && n == q * m + r && 0 <= r < m
    ensures n % m == r
  {
    var d := n / m - q;
    assert d * m == (n / m) * m - q * m;
    assert (n / m) * m == n - n % m;
    if d >= 1 {
      AtLeastOnce(d, m);
    } else if d <= -1 {
      AtLeastOnce(-d, m);
    }
  }

  lemma StepTracks(p: Policy, s: Limiter, failures: seq<int>, was: int, a: Attempt)
    requires Usable(p) && Tracks(p, s, failures, was) && Ordered(failures, was) && Spaced(p, failures)
    requires was <= a.now <= End(a) <= CLOCK_MAX
    ensures (Step(p, s, a).1 == Throttled) <==> CoolingDown(p, failures, a.now)
    ensures var (t, answer) := Step(p, s, a);
      var grown :=
        if answer == InvalidCredentials then failures + [End(a)] else if answer == Authenticated then [] else failures;
      Tracks(p, t, grown, End(a)) && Ordered(grown, End(a)) && Spaced(p, grown)
  {
    NextRemainder(|failures|, p.maximumFailures);
    if Step(p, s, a).1 == InvalidCredentials {
      var grown := failures + [End(a)];
      forall i | 0 <= i < |grown| - 1 && (i + 1) % p.maximumFailures == 0
        ensures Until(p, grown[i]) <= grown[i + 1]
      {
        if i + 1 == |failures| {
          assert !CoolingDown(p, failures, a.now);
        }
      }
    }
  }

  ghost function LastReading(attempts: seq<Attempt>): int {
    if attempts == [] then 0 else End(attempts[|attempts| - 1])
  }

  lemma {:induction false} RunTracks(p: Policy, attempts: seq<Attempt>)
    requires Usable(p) && Monotone(attempts)
    ensures Tracks(p, Run(p, attempts), Failures(p, attempts), LastReading(attempts))
    ensures Ordered(Failures(p, attempts), LastReading(attempts)) && Spaced(p, Failures(p, attempts))
    decreases |attempts|
  {
    if attempts != [] {
      var before, a := attempts[..|attempts| - 1], attempts[|attempts| - 1];
      RunTracks(p, before);
      StepTracks(p, Run(p, before), Failures(p, before), LastReading(before), a);
    }
  }

  /**
   When exactly an attempt is turned away, after every run; in particular an elapsed cooldown always
   restores access.
   */
  lemma ThrottledExactly(p: Policy, before: seq<Attempt>, a: Attempt)
    requires p.maximumFailures > 0 && p.cooldown > 0 && Monotone(before + [a])
    ensures Usable(p) && (AnswerTo(p, before, a) == Throttled <==> CoolingDown(p, Failures(p, before), a.now))
    ensures Failures(p, before) != [] && a.now >= Failures(p, before)[|Failures(p, before)| - 1] + p.cooldown ==>
      AnswerTo(p, before, a) != Throttled
  {
    var all := before + [a];
    assert all[|before|] == a && forall i :: 0 <= i < |before| ==> all[i] == before[i];
    RunTracks(p, before);
    StepTracks(p, Run(p, before), Failures(p, before), LastReading(before), a);
  }

  /** Some index of every stretch of `m` closes a sequence. */
  lemma SequenceCloses(i: nat, m: nat) returns (k: nat)
    requires m > 0
    ensures i <= k < i + m && (k + 1) % m == 0
  {
    k := i + (m - 1 - i % m);
    assert i == (i / m) * m + i % m;
    assert k + 1 == (i / m + 1) * m;
    Remainder(k + 1, m, i / m + 1, 0);
  }

  /** The promise to the owner: `maximumFailures + 1` failures with no success between them span a cooldown. */
  ghost predicate Kept(p: Policy, attempts: seq<Attempt>) {
    var f := Failures(p, attempts);
    forall i :: 0 <= i < |f| - p.maximumFailures ==> f[i + p.maximumFailures] - f[i] >= p.cooldown
  }

  /** No reading is later than `last`. */
  ghost predicate Within(attempts: seq<Attempt>, last: int) {
    forall i :: 0 <= i < |attempts| ==> End(attempts[i]) <= last
  }

  /**
   The promise window by window: it is kept exactly when the window ends before the clock does, or a
   whole cooldown was still representable when it began.
   */
  lemma FailureWindow(p: Policy, attempts: seq<Attempt>, i: nat)
    requires Usable(p) && Monotone(attempts) && i + p.maximumFailures < |Failures(p, attempts)|
    ensures var f := Failures(p, attempts);
      var end := f[i + p.maximumFailures];
      end - f[i] >= p.cooldown <==> end < CLOCK_MAX || p.cooldown <= CLOCK_MAX - f[i]
  {
    RunTracks(p, attempts);
    ReadingsInRange(attempts);
    var f := Failures(p, attempts);
    var k := SequenceCloses(i, p.maximumFailures);
    assert Until(p, f[k]) <= f[k + 1];
    assert f[k + 1] <= f[i + p.maximumFailures];
    assert f[i] <= f[k];
    assert f[i + p.maximumFailures] <= LastReading(attempts);
  }

  lemma ReadingsInRange(attempts: seq<Attempt>)
    requires Monotone(attempts)
    ensures LastReading(attempts) <= CLOCK_MAX
  {
  }

  /** The same promise by the calendar: a window shorter than a cooldown holds at most `maximumFailures` of them. */
  lemma WindowHoldsFew(p: Policy, attempts: seq<Attempt>, i: nat, j: nat)
    requires Usable(p) && Monotone(attempts) && i <= j < |Failures(p, attempts)|
    requires Failures(p, attempts)[j] - Failures(p, attempts)[i] < p.cooldown
    requires Failures(p, attempts)[j] < CLOCK_MAX
    ensures j - i + 1 <= p.maximumFailures
  {
    if j - i + 1 > p.maximumFailures {
      RunTracks(p, attempts);
      FailureWindow(p, attempts, i);
      assert Failures(p, attempts)[i + p.maximumFailures] <= Failures(p, attempts)[j];
    }
  }

  /** The same wrong password over and over, at the clock's last instant. */
  function Hammered(n: nat): (attempts: seq<Attempt>)
    ensures |attempts| == n && forall i :: 0 <= i < n ==> attempts[i] == Attempt(CLOCK_MAX, Mismatch(CLOCK_MAX))
  {
    seq(n, i => Attempt(CLOCK_MAX, Mismatch(CLOCK_MAX)))
  }

  /** There a saturated cooldown is over as soon as it starts, whatever the policy: every attempt is let through. */
  lemma {:induction false} SaturatedCooldownIsEmpty(p: Policy, n: nat)
    requires Usable(p)
    ensures |Failures(p, Hammered(n))| == n && forall t :: t in Failures(p, Hammered(n)) ==> t == CLOCK_MAX
    ensures Run(p, Hammered(n)).blockedUntil <= CLOCK_MAX
  {
    if n > 0 {
      SaturatedCooldownIsEmpty(p, n - 1);
      assert Hammered(n)[..n - 1] == Hammered(n - 1);
      assert AnswerTo(p, Hammered(n - 1), Hammered(n)[n - 1]) == InvalidCredentials;
    }
  }

  /** `maximumFailures + 1` of them break the promise. */
  lemma HammeringBreaks(p: Policy)
    requires Usable(p)
    ensures Monotone(Hammered(p.maximumFailures + 1)) && !Kept(p, Hammered(p.maximumFailures + 1))
  {
    var n := p.maximumFailures + 1;
    SaturatedCooldownIsEmpty(p, n);
    var f := Failures(p, Hammered(n));
    assert f[0] in f && f[0 + p.maximumFailures] in f;
  }

  /** Under every policy the promise is kept by all runs up to an instant if and only if the clock goes on after it. */
  lemma PromiseHoldsExactly(p: Policy, last: int)
    requires Usable(p) && 0 <= last <= CLOCK_MAX
    ensures last < CLOCK_MAX <==>
      forall attempts :: Monotone(attempts) && Within(attempts, last) ==> Kept(p, attempts)
  {
    if last < CLOCK_MAX {
      forall attempts | Monotone(attempts) && Within(attempts, last) ensures Kept(p, attempts) {
        KeptBefore(p, attempts, last);
      }
    } else {
      HammeringBreaks(p);
    }
  }

  lemma KeptBefore(p: Policy, attempts: seq<Attempt>, last: int)
    requires Usable(p) && Monotone(attempts) && Within(attempts, last) && 0 <= last < CLOCK_MAX
    ensures Kept(p, attempts)
  {
    var f := Failures(p, attempts);
    forall i | 0 <= i < |f| - p.maximumFailures ensures f[i + p.maximumFailures] - f[i] >= p.cooldown {
      RunTracks(p, attempts);
      FailureWindow(p, attempts, i);
      assert f[i + p.maximumFailures] <= LastReading(attempts) <= last;
    }
  }

  /** A full counter that is still blocked is left alone: failures meanwhile do not extend the block. */
  lemma BlockIsNotExtended(p: Policy, s: Limiter, at: int)
    ensures s.failures >= p.maximumFailures ==> AfterFailure(p, s, at) == s
    ensures s.failures < p.maximumFailures ==> AfterFailure(p, s, at).failures == s.failures + 1
    ensures AfterFailure(p, s, at).blockedUntil != s.blockedUntil ==>
      AfterFailure(p, s, at).failures == p.maximumFailures
  {
  }

  // ---- The objects ----

  class AuthenticationRateLimiter {
    const policy: Policy
    var consecutiveFailures: nat
    var blockedUntil: int

    ghost function State(): Limiter
      reads this
    {
      Limiter(consecutiveFailures, blockedUntil)
    }

    constructor (policy: Policy)
      ensures this.policy == policy && State() == FRESH
    {
      this.policy := policy;
      consecutiveFailures, blockedUntil := 0, 0;
    }

    method Allows(now: int) returns (allowed: bool)
      modifies this
      ensures allowed == !Blocks(policy, old(State()), now)
      ensures State() == if allowed then AfterAllow(policy, old(State())) else old(State())
    {
      if consecutiveFailures < policy.maximumFailures {
        return true;
      }
      if now < blockedUntil {
        return false;
      }
      consecutiveFailures, blockedUntil := 0, 0;
      return true;
    }

    method RecordFailure(now: int)
      modifies this
      ensures State() == AfterFailure(policy, old(State()), now)
    {
      if consecutiveFailures >= policy.maximumFailures {
        return;
      }
      consecutiveFailures := consecutiveFailures + 1;
      if consecutiveFailures == policy.maximumFailures {
        var remaining := CLOCK_MAX - now;
        blockedUntil := if policy.cooldown > remaining then CLOCK_MAX else now + policy.cooldown;
      }
    }

    method RecordSuccess()
      modifies this
      ensures State() == FRESH
    {
      consecutiveFailures, blockedUntil := 0, 0;
    }
  }

  /** What the credential provider and the password verifier report, and the second clock reading. */
  datatype Lookup = Lookup(available: bool, known: bool, verified: Option<bool>, finished: int)

  function OutcomeOf(l: Lookup): Outcome {
    if !l.available || l.verified.None? then Unavailable
    else if !l.known || !l.verified.value then Mismatch(l.finished)
    else Match
  }

  function AnswerFor(o: Outcome): Answer {
    match o
    case Unavailable => NoVerdict
    case Mismatch(_) => InvalidCredentials
    case Match => Authenticated
  }

  /** Who is let in: only a known principal whose password was verified. */
  lemma AnswersExactly(l: Lookup)
    ensures var answer := AnswerFor(OutcomeOf(l));
      && (answer == Authenticated <==> l.available && l.known && l.verified == Some(true))
      && (answer == NoVerdict <==> !l.available || l.verified == None)
      && (answer == InvalidCredentials <==>
            l.available && l.verified.Some? && (!l.known || l.verified == Some(false)))
    ensures OutcomeOf(l).Mismatch? ==> OutcomeOf(l).at == l.finished
  {
  }

  class AuthenticationService {
    const limiter: AuthenticationRateLimiter
    ghost var history: seq<Attempt>

    ghost predicate Valid()
      reads this, limiter
    {
      && Usable(limiter.policy) && Monotone(history)
      && limiter.State() == Run(limiter.policy, history)
    }

    constructor (policy: Policy)
      requires Usable(policy)
      ensures Valid() && limiter.policy == policy && fresh(limiter) && history == []
    {
      limiter := new AuthenticationRateLimiter(policy);
      history := [];
    }

    /** One serialized attempt: turned away exactly while the history is cooling down. */
    method Authenticate(now: int, lookup: Lookup) returns (answer: Answer)
      requires Valid() && Monotone(history + [Attempt(now, OutcomeOf(lookup))])
      modifies this, limiter
      ensures Valid() && history == old(history) + [Attempt(now, OutcomeOf(lookup))]
      ensures answer == Throttled <==> CoolingDown(limiter.policy, Failures(limiter.policy, old(history)), now)
      ensures answer != Throttled ==> answer == AnswerFor(OutcomeOf(lookup))
    {
      var a := Attempt(now, OutcomeOf(lookup));
      ThrottledExactly(limiter.policy, history, a);
      assert (history + [a])[..|history|] == history;
      history := history + [a];
      var allowed := limiter.Allows(now);
      if !allowed {
        return Throttled;
      }
      if !lookup.available {
        return NoVerdict;
      }
      if lookup.verified.None? {
        return NoVerdict;
      }
      if !lookup.known || !lookup.verified.value {
        limiter.RecordFailure(lookup.finished);
        return InvalidCredentials;
      }
      limiter.RecordSuccess();
      return Authenticated;
    }
  }
}
