/**
 The resource coordinator: a lock table over path hierarchies with shared and exclusive claims.  The
 registry changes only under its mutex, so a run is a sequence of whole grants and releases; leases
 are objects that move, are assigned over and die in any order.
 */
module Coordinator {
  import opened Basics

  const MAXIMUM_ACTIVE_CLAIMS := 4096

  type Path = seq<string>

  datatype Mode = SharedRead | ExclusiveMutation
  datatype Claim = Claim(root: string, components: Path, mode: Mode)
  datatype ClaimSet = ClaimSet(id: nat, claims: seq<Claim>)
  datatype AccessError = InvalidPath | Conflict | Interrupted | CapacityExceeded

  // ---- Compatibility ----

  predicate IsPrefix(prefix: Path, path: Path) {
    |prefix| <= |path| && path[..|prefix|] == prefix
  }

  predicate Overlaps(left: Claim, right: Claim) {
    left.root == right.root
    && (IsPrefix(left.components, right.components) || IsPrefix(right.components, left.components))
  }

  predicate Conflicts(left: Claim, right: Claim) {
    Overlaps(left, right) && (left.mode.ExclusiveMutation? || right.mode.ExclusiveMutation?)
  }

  predicate SetConflicts(active: ClaimSet, requested: seq<Claim>) {
    exists a, b :: a in active.claims && b in requested && Conflicts(a, b)
  }

  predicate ConflictsWithActive(active: seq<ClaimSet>, requested: seq<Claim>) {
    exists i :: 0 <= i < |active| && SetConflicts(active[i], requested)
  }

  /** Independent reading of a claim: it governs its own path and everything below it. */
  predicate Governs(claim: Claim, root: string, path: Path) {
    claim.root == root && IsPrefix(claim.components, path)
  }

  /** Overlap is exactly having a resource in common. */
  lemma OverlapIsCommonResource(left: Claim, right: Claim)
    ensures Overlaps(left, right) <==> exists root, path :: Governs(left, root, path) && Governs(right, root, path)
  {
    if Overlaps(left, right) {
      var path := if IsPrefix(left.components, right.components) then right.components else left.components;
      assert Governs(left, left.root, path) && Governs(right, left.root, path);
    }
    if exists root, path :: Governs(left, root, path) && Governs(right, root, path) {
      var root, path :| Governs(left, root, path) && Governs(right, root, path);
      var m, n := |left.components|, |right.components|;
      if m <= n {
        assert right.components[..m] == path[..n][..m] == left.components;
      } else {
        assert left.components[..n] == path[..m][..n] == right.components;
      }
    }
  }

  // ---- Registry ----

  function Total(active: seq<ClaimSet>): nat {
    if active == [] then 0 else |active[0].claims| + Total(active[1..])
  }

  predicate Listed(active: seq<ClaimSet>, id: nat) {
    exists i :: 0 <= i < |active| && active[i].id == id
  }

  /** The registry without the set of that identifier. */
  function Erase(active: seq<ClaimSet>, id: nat): seq<ClaimSet> {
    if active == [] then []
    else if active[0].id == id then active[1..]
    else [active[0]] + Erase(active[1..], id)
  }

  function SizeOf(active: seq<ClaimSet>, id: nat): nat {
    if active == [] then 0 else if active[0].id == id then |active[0].claims| else SizeOf(active[1..], id)
  }

  lemma {:induction false} TotalAppend(active: seq<ClaimSet>, last: ClaimSet)
    ensures Total(active + [last]) == Total(active) + |last.claims|
  {
    if active != [] {
      TotalAppend(active[1..], last);
      assert (active + [last])[1..] == active[1..] + [last];
    }
  }

  lemma {:induction false} EraseTotal(active: seq<ClaimSet>, id: nat)
    ensures Total(Erase(active, id)) == Total(active) - SizeOf(active, id)
  {
    if active != [] && active[0].id != id {
      EraseTotal(active[1..], id);
      assert Erase(active, id)[1..] == Erase(active[1..], id);
    }
  }

  /** Erasing by identifier is removing the position the search stopped at. */
  lemma {:induction false} EraseAt(active: seq<ClaimSet>, id: nat, k: nat)
    requires k < |active| && active[k].id == id && forall i :: 0 <= i < k ==> active[i].id != id
    ensures Erase(active, id) == active[..k] + active[k + 1..] && SizeOf(active, id) == |active[k].claims|
    decreases k
  {
    if k > 0 {
      EraseAt(active[1..], id, k - 1);
      WithoutLater(active, k);
    }
  }

  lemma WithoutLater(active: seq<ClaimSet>, k: nat)
    requires 0 < k < |active|
    ensures active[..k] + active[k + 1..] == [active[0]] + (active[1..][..k - 1] + active[1..][k..])
  {
  }

  lemma {:induction false} EraseNone(active: seq<ClaimSet>, id: nat)
    requires forall i :: 0 <= i < |active| ==> active[i].id != id
    ensures Erase(active, id) == active && SizeOf(active, id) == 0
  {
    if active != [] {
      EraseNone(active[1..], id);
    }
  }

  ghost predicate Ascending(active: seq<ClaimSet>, next: nat) {
    && (forall i :: 0 <= i < |active| ==> 1 <= active[i].id < next)
    && forall i, j :: 0 <= i < j < |active| ==> active[i].id < active[j].id
  }

  lemma {:induction false} EraseOnlyRemoves(active: seq<ClaimSet>, id: nat)
    ensures forall c :: c in Erase(active, id) ==> c in active
  {
    if active != [] && active[0].id != id {
      EraseOnlyRemoves(active[1..], id);
    }
  }

  lemma {:induction false} EraseKeepsOthers(active: seq<ClaimSet>, id: nat, c: ClaimSet)
    requires c in active && c.id != id
    ensures c in Erase(active, id)
  {
    if active[0].id != id && c != active[0] {
      EraseKeepsOthers(active[1..], id, c);
    }
  }

  lemma AscendingTail(active: seq<ClaimSet>, next: nat)
    requires active != [] && Ascending(active, next)
    ensures Ascending(active[1..], next) && forall c :: c in active[1..] ==> active[0].id < c.id
  {
  }

  lemma AscendingCons(first: ClaimSet, rest: seq<ClaimSet>, next: nat)
    requires Ascending(rest, next) && 1 <= first.id < next && forall c :: c in rest ==> first.id < c.id
    ensures Ascending([first] + rest, next)
  {
    assert forall i :: 0 <= i < |rest| ==> rest[i] in rest;
  }

  lemma {:induction false} EraseAscending(active: seq<ClaimSet>, id: nat, next: nat)
    requires Ascending(active, next)
    ensures Ascending(Erase(active, id), next) && forall c :: c in Erase(active, id) ==> c.id != id
  {
    if active != [] {
      AscendingTail(active, next);
      if active[0].id != id {
        EraseAscending(active[1..], id, next);
        EraseOnlyRemoves(active[1..], id);
        AscendingCons(active[0], Erase(active[1..], id), next);
      }
    }
  }

  /** What an erased registry consists of: every other set, in the old order. */
  lemma EraseKeeps(active: seq<ClaimSet>, id: nat, next: nat)
    requires Ascending(active, next)
    ensures Ascending(Erase(active, id), next)
    ensures forall c :: c in Erase(active, id) <==> c in active && c.id != id
  {
    EraseAscending(active, id, next);
    EraseOnlyRemoves(active, id);
    forall c | c in active && c.id != id ensures c in Erase(active, id) {
      EraseKeepsOthers(active, id, c);
    }
  }

  // ---- Runs ----

  /** `released` logs each identifier whose set a lease removed. */
  datatype State = State(active: seq<ClaimSet>, count: nat, next: nat, leases: map<nat, nat>, released: seq<nat>)

  const INITIAL := State([], 0, 1, map[], [])

  datatype Action =
    | Acquire(claims: seq<Claim>, interrupted: bool, lease: nat)
    | MoveConstruct(source: nat, target: nat)
    | MoveAssign(source: nat, target: nat)
    | Destroy(lease: nat)

  /** What the language guarantees: names of live objects are distinct, dead objects are not used. */
  predicate Enabled(s: State, a: Action) {
    match a
    case Acquire(claims, _, lease) => claims != [] && lease !in s.leases
    case MoveConstruct(source, target) => source in s.leases && target !in s.leases
    case MoveAssign(source, target) => source in s.leases && target in s.leases
    case Destroy(lease) => lease in s.leases
  }

  function AcquireError(active: seq<ClaimSet>, count: nat, claims: seq<Claim>, interrupted: bool): Option<AccessError> {
    if interrupted then Some(Interrupted)
    else if count + |claims| > MAXIMUM_ACTIVE_CLAIMS then Some(CapacityExceeded)
    else if ConflictsWithActive(active, claims) then Some(Conflict)
    else None
  }

  /** A lease lets go of what it holds; an empty lease holds nothing. */
  function Released(s: State, id: nat): State {
    if id == 0 then s
    else
      s.(active := Erase(s.active, id),
         count := if SizeOf(s.active, id) <= s.count then s.count - SizeOf(s.active, id) else 0,
         released := if Listed(s.active, id) then s.released + [id] else s.released)
  }

  function Next(s: State, a: Action): State
    requires Enabled(s, a)
  {
    match a
    case Acquire(claims, interrupted, lease) =>
      if AcquireError(s.active, s.count, claims, interrupted).Some? then s
      else State(s.active + [ClaimSet(s.next, claims)], s.count + |claims|, s.next + 1,
                 s.leases[lease := s.next], s.released)
    case MoveConstruct(source, target) => s.(leases := s.leases[target := s.leases[source]][source := 0])
    case MoveAssign(source, target) =>
      if source == target then s
      else
        var r := Released(s, s.leases[target]);
        State(r.active, r.count, r.next, s.leases[target := s.leases[source]][source := 0], r.released)
    case Destroy(lease) =>
      var r := Released(s, s.leases[lease]);
      State(r.active, r.count, r.next, s.leases - {lease}, r.released)
  }

  /** Claims of different sets meet only when both are shared. */
  ghost predicate Isolated(active: seq<ClaimSet>) {
    forall x, y, a, b :: x in active && y in active && x != y && a in x.claims && b in y.claims ==> !Conflicts(a, b)
  }

  ghost predicate Accounted(s: State) {
    s.count == Total(s.active) <= MAXIMUM_ACTIVE_CLAIMS
  }

  ghost predicate Held(leases: map<nat, nat>, id: nat) {
    exists l :: l in leases && leases[l] == id
  }

  /** Active sets and non-empty leases correspond one to one. */
  ghost predicate Owned(active: seq<ClaimSet>, leases: map<nat, nat>) {
    && (forall l :: l in leases && leases[l] != 0 ==> Listed(active, leases[l]))
    && (forall l, m :: l in leases && m in leases && l != m && leases[l] == leases[m] ==> leases[l] == 0)
    && (forall c :: c in active ==> Held(leases, c.id))
  }

  /** Every identifier ever granted is either active or was released, and released at most once. */
  ghost predicate Logged(s: State) {
    && (forall i :: 0 <= i < |s.released| ==> 1 <= s.released[i] < s.next)
    && (forall i, j :: 0 <= i < j < |s.released| ==> s.released[i] != s.released[j])
    && (forall id :: 1 <= id < s.next ==> (Listed(s.active, id) <==> id !in s.released))
  }

  ghost predicate Inv(s: State) {
    && s.next >= 1 && Ascending(s.active, s.next) && Isolated(s.active)
    && Accounted(s) && Owned(s.active, s.leases) && Logged(s)
  }

  lemma IsolatedAppend(active: seq<ClaimSet>, added: ClaimSet)
    requires Isolated(active) && !ConflictsWithActive(active, added.claims)
    ensures Isolated(active + [added])
  {
    var all := active + [added];
    forall x, y, p, q | x in all && y in all && x != y && p in x.claims && q in y.claims
      ensures !Conflicts(p, q)
    {
      if x == added {
        var i :| 0 <= i < |active| && active[i] == y;
        assert !SetConflicts(active[i], added.claims);
        assert !Conflicts(q, p);
      } else if y == added {
        var i :| 0 <= i < |active| && active[i] == x;
        assert !SetConflicts(active[i], added.claims);
      }
    }
  }

  lemma ListedAppend(active: seq<ClaimSet>, added: ClaimSet, id: nat)
    ensures Listed(active + [added], id) <==> Listed(active, id) || id == added.id
  {
    var all := active + [added];
    assert all[|active|] == added;
    if Listed(active, id) {
      var i :| 0 <= i < |active| && active[i].id == id;
      assert all[i].id == id;
    }
  }

  lemma RegisterKeeps(active: seq<ClaimSet>, added: ClaimSet, next: nat)
    requires Ascending(active, next) && Isolated(active) && added.id == next >= 1
    requires !ConflictsWithActive(active, added.claims)
    ensures Ascending(active + [added], next + 1) && Isolated(active + [added])
    ensures Total(active + [added]) == Total(active) + |added.claims|
  {
    TotalAppend(active, added);
    IsolatedAppend(active, added);
  }

  lemma OwnedAppend(active: seq<ClaimSet>, added: ClaimSet, leases: map<nat, nat>, lease: nat)
    requires Owned(active, leases) && lease !in leases && !Listed(active, added.id) && added.id != 0
    ensures Owned(active + [added], leases[lease := added.id])
  {
    var held := leases[lease := added.id];
    forall l | l in held ensures held[l] != 0 ==> Listed(active + [added], held[l]) {
      ListedAppend(active, added, held[l]);
    }
    forall c | c in active + [added] ensures Held(held, c.id) {
      var l :| l in held && (if c == added then l == lease else l in leases && leases[l] == c.id && l != lease);
      assert held[l] == c.id;
    }
  }

  lemma AcquireInv(s: State, a: Action)
    requires Inv(s) && a.Acquire? && Enabled(s, a)
    ensures Inv(Next(s, a))
  {
    if AcquireError(s.active, s.count, a.claims, a.interrupted).None? {
      var added := ClaimSet(s.next, a.claims);
      RegisterKeeps(s.active, added, s.next);
      OwnedAppend(s.active, added, s.leases, a.lease);
      forall id ensures Listed(s.active + [added], id) <==> Listed(s.active, id) || id == s.next {
        ListedAppend(s.active, added, id);
      }
    }
  }

  lemma ListedErase(active: seq<ClaimSet>, id: nat, next: nat, other: nat)
    requires Ascending(active, next)
    ensures Listed(Erase(active, id), other) <==> Listed(active, other) && other != id
  {
    EraseKeeps(active, id, next);
    var rest := Erase(active, id);
    if Listed(rest, other) {
      var i :| 0 <= i < |rest| && rest[i].id == other;
      assert rest[i] in active;
    }
    if Listed(active, other) && other != id {
      var i :| 0 <= i < |active| && active[i].id == other;
      assert active[i] in rest;
    }
  }

  lemma IsolatedErase(active: seq<ClaimSet>, rest: seq<ClaimSet>)
    requires Isolated(active) && forall c :: c in rest ==> c in active
    ensures Isolated(rest)
  {
  }

  lemma LoggedErase(s: State, id: nat)
    requires Ascending(s.active, s.next) && Logged(s) && Listed(s.active, id)
    ensures Logged(Released(s, id))
  {
    var t := Released(s, id);
    forall other ensures Listed(t.active, other) <==> Listed(s.active, other) && other != id {
      ListedErase(s.active, id, s.next, other);
    }
    var i :| 0 <= i < |s.active| && s.active[i].id == id;
  }

  /** What letting go of a held set does to the registry and the log. */
  lemma ReleaseInv(s: State, holder: nat)
    requires Inv(s) && holder in s.leases
    ensures var t := Released(s, s.leases[holder]);
      && Ascending(t.active, t.next) && Isolated(t.active) && Accounted(t) && Logged(t)
      && (forall c :: c in t.active <==> c in s.active && c.id != s.leases[holder])
  {
    var id := s.leases[holder];
    if id != 0 {
      EraseKeeps(s.active, id, s.next);
      EraseTotal(s.active, id);
      IsolatedErase(s.active, Erase(s.active, id));
      LoggedErase(s, id);
    }
  }

  lemma DestroyInv(s: State, lease: nat)
    requires Inv(s) && lease in s.leases
    ensures Inv(Next(s, Destroy(lease)))
  {
    ReleaseInv(s, lease);
    DropOwned(s.active, Released(s, s.leases[lease]).active, s.leases, lease);
  }

  /** Assigning over a lease is destroying it and moving into its place. */
  lemma AssignIsDestroyThenMove(s: State, source: nat, target: nat)
    requires source in s.leases && target in s.leases && source != target
    ensures Next(s, MoveAssign(source, target)) == Next(Next(s, Destroy(target)), MoveConstruct(source, target))
  {
    var id := s.leases[source];
    assert (s.leases - {target})[target := id][source := 0] == s.leases[target := id][source := 0];
  }

  lemma MoveInv(s: State, source: nat, target: nat)
    requires Inv(s) && source in s.leases && target !in s.leases
    ensures Inv(Next(s, MoveConstruct(source, target)))
  {
    MoveOwned(s.active, s.leases, source, target);
  }

  lemma LeaseInv(s: State, a: Action)
    requires Inv(s) && !a.Acquire? && Enabled(s, a)
    ensures Inv(Next(s, a))
  {
    match a
    case MoveConstruct(source, target) => MoveInv(s, source, target);
    case MoveAssign(source, target) =>
      if source != target {
        DestroyInv(s, target);
        AssignIsDestroyThenMove(s, source, target);
        MoveInv(Next(s, Destroy(target)), source, target);
      }
    case Destroy(lease) => DestroyInv(s, lease);
  }

  lemma MoveOwned(active: seq<ClaimSet>, leases: map<nat, nat>, source: nat, target: nat)
    requires Owned(active, leases) && source in leases && target !in leases
    requires forall c :: c in active ==> c.id != 0
    ensures Owned(active, leases[target := leases[source]][source := 0])
  {
    var moved := leases[target := leases[source]][source := 0];
    forall c | c in active ensures Held(moved, c.id) {
      var l :| l in leases && leases[l] == c.id;
      var m := if l == source then target else l;
      assert m in moved && moved[m] == c.id;
    }
  }

  lemma DropOwned(active: seq<ClaimSet>, rest: seq<ClaimSet>, leases: map<nat, nat>, holder: nat)
    requires Owned(active, leases) && holder in leases
    requires forall c :: c in rest <==> c in active && c.id != leases[holder]
    ensures Owned(rest, leases - {holder})
  {
    var left := leases - {holder};
    forall l | l in left && left[l] != 0 ensures Listed(rest, left[l]) {
      var i :| 0 <= i < |active| && active[i].id == leases[l];
      assert active[i] in rest;
    }
    forall c | c in rest ensures Held(left, c.id) {
      var l :| l in leases && leases[l] == c.id;
      assert l in left && left[l] == c.id;
    }
  }

  ghost predicate Run(s: State, actions: seq<Action>, t: State)
    decreases |actions|
  {
    if actions == [] then s == t
    else Enabled(s, actions[0]) && Run(Next(s, actions[0]), actions[1..], t)
  }

  lemma {:induction false} RunInv(s: State, actions: seq<Action>, t: State)
    requires Inv(s) && Run(s, actions, t)
    ensures Inv(t)
    decreases |actions|
  {
    if actions != [] {
      if actions[0].Acquire? {
        AcquireInv(s, actions[0]);
      } else {
        LeaseInv(s, actions[0]);
      }
      RunInv(Next(s, actions[0]), actions[1..], t);
    }
  }

  lemma Reachable(actions: seq<Action>, s: State)
    requires Run(INITIAL, actions, s)
    ensures Inv(s)
  {
    RunInv(INITIAL, actions, s);
  }

  /**
   Readers and writers, resource by resource: after any run, if some active claim governs a resource
   exclusively, every claim governing it belongs to the same acquisition.
   */
  lemma ExclusiveAccess(
      actions: seq<Action>, s: State, x: ClaimSet, y: ClaimSet, a: Claim, b: Claim, root: string, path: Path)
    requires Run(INITIAL, actions, s)
    requires x in s.active && y in s.active && a in x.claims && b in y.claims
    requires Governs(a, root, path) && Governs(b, root, path) && a.mode.ExclusiveMutation?
    ensures x == y
  {
    Reachable(actions, s);
    OverlapIsCommonResource(a, b);
    assert Conflicts(a, b);
  }

  /** Some resource would be governed by two acquisitions, one of them exclusively. */
  ghost predicate Contested(active: seq<ClaimSet>, claims: seq<Claim>) {
    exists x, a, b, root, path ::
      && x in active && a in x.claims && b in claims && Governs(a, root, path) && Governs(b, root, path)
      && (a.mode.ExclusiveMutation? || b.mode.ExclusiveMutation?)
  }

  lemma ContestedConflicts(active: seq<ClaimSet>, claims: seq<Claim>)
    requires Contested(active, claims)
    ensures ConflictsWithActive(active, claims)
  {
    var x, a, b, root, path :|
      && x in active && a in x.claims && b in claims && Governs(a, root, path) && Governs(b, root, path)
      && (a.mode.ExclusiveMutation? || b.mode.ExclusiveMutation?);
    OverlapIsCommonResource(a, b);
    assert Conflicts(a, b);
    var i :| 0 <= i < |active| && active[i] == x;
    assert SetConflicts(active[i], claims);
  }

  lemma ConflictsContested(active: seq<ClaimSet>, claims: seq<Claim>)
    requires ConflictsWithActive(active, claims)
    ensures Contested(active, claims)
  {
    var i :| 0 <= i < |active| && SetConflicts(active[i], claims);
    var a, b :| a in active[i].claims && b in claims && Conflicts(a, b);
    OverlapIsCommonResource(a, b);
    var root, path :| Governs(a, root, path) && Governs(b, root, path);
    assert active[i] in active;
  }

  /** An acquisition is refused for a conflict exactly when some resource is contested. */
  lemma RefusedOnlyWhenContested(active: seq<ClaimSet>, claims: seq<Claim>)
    ensures ConflictsWithActive(active, claims) <==> Contested(active, claims)
  {
    if Contested(active, claims) {
      ContestedConflicts(active, claims);
    }
    if ConflictsWithActive(active, claims) {
      ConflictsContested(active, claims);
    }
  }

  /** Exactly what an acquisition is refused for, in any reachable state, and what a grant adds. */
  lemma AcquireDecides(actions: seq<Action>, s: State, claims: seq<Claim>, interrupted: bool, lease: nat)
    requires Run(INITIAL, actions, s) && Enabled(s, Acquire(claims, interrupted, lease))
    ensures var error := AcquireError(s.active, s.count, claims, interrupted);
      var full := Total(s.active) + |claims| > MAXIMUM_ACTIVE_CLAIMS;
      && (error == Some(Interrupted) <==> interrupted)
      && (error == Some(CapacityExceeded) <==> !interrupted && full)
      && (error == Some(Conflict) <==> !interrupted && !full && Contested(s.active, claims))
      && (error == None <==> !interrupted && !full && !Contested(s.active, claims))
    ensures var t := Next(s, Acquire(claims, interrupted, lease));
      if AcquireError(s.active, s.count, claims, interrupted).Some? then t == s
      else
        && lease in t.leases && !Listed(s.active, t.leases[lease]) && t.leases[lease] != 0
        && t.active == s.active + [ClaimSet(t.leases[lease], claims)] && t.leases - {lease} == s.leases
  {
    Reachable(actions, s);
    RefusedOnlyWhenContested(s.active, claims);
    assert s.leases[lease := s.next] - {lease} == s.leases;
  }

  /** What moving, assigning and destroying leases do to the leases and to the registry. */
  lemma LeaseStepsExactly(s: State, source: nat, target: nat)
    requires source in s.leases && source != target
    ensures target !in s.leases ==>
      var t := Next(s, MoveConstruct(source, target));
      && t == s.(leases := t.leases) && t.leases.Keys == s.leases.Keys + {target}
      && t.leases[target] == s.leases[source] && t.leases[source] == 0
      && forall l :: l in s.leases && l != source ==> t.leases[l] == s.leases[l]
    ensures target in s.leases ==>
      var t := Next(s, MoveAssign(source, target));
      && t.leases.Keys == s.leases.Keys && t.leases[target] == s.leases[source] && t.leases[source] == 0
      && (forall l :: l in s.leases && l != source && l != target ==> t.leases[l] == s.leases[l])
      && t.active == (if s.leases[target] == 0 then s.active else Erase(s.active, s.leases[target]))
    ensures Next(s, MoveAssign(source, source)) == s
    ensures var t := Next(s, Destroy(source));
      && t.leases == s.leases - {source} && t.next == s.next
      && t.active == (if s.leases[source] == 0 then s.active else Erase(s.active, s.leases[source]))
  {
  }

  /** What has been released stays released, in order. */
  lemma ReleasesGrow(s: State, a: Action)
    requires Enabled(s, a)
    ensures s.released <= Next(s, a).released
  {
  }

  /** Claims never leak and are never released twice, however leases move and die. */
  lemma ReleasedExactlyOnce(actions: seq<Action>, s: State)
    requires Run(INITIAL, actions, s)
    ensures s.count == Total(s.active) <= MAXIMUM_ACTIVE_CLAIMS
    ensures forall i, j :: 0 <= i < j < |s.released| ==> s.released[i] != s.released[j]
    ensures forall id :: 1 <= id < s.next ==> (Held(s.leases, id) <==> id !in s.released)
    ensures s.leases == map[] ==> s.active == [] && s.count == 0
  {
    Reachable(actions, s);
    forall id | 1 <= id < s.next ensures Held(s.leases, id) <==> Listed(s.active, id) {
      if Listed(s.active, id) {
        var i :| 0 <= i < |s.active| && s.active[i].id == id;
        assert s.active[i] in s.active;
      }
    }
    assert s.active != [] ==> s.active[0] in s.active;
  }

  // ---- The objects ----

  /** A request after path resolution; `None` where the path is not confined. */
  datatype Request = Request(root: string, resolved: Option<Path>, mode: Mode)

  /** Drops the components that do not name anything. */
  function Normal(path: Path): Path {
    if path == [] then []
    else if path[|path| - 1] in {"", "."} then Normal(path[..|path| - 1])
    else Normal(path[..|path| - 1]) + [path[|path| - 1]]
  }

  function ClaimFor(request: Request): Claim
    requires request.resolved.Some?
  {
    Claim(request.root, Normal(request.resolved.value), request.mode)
  }

  lemma {:induction false} NormalConcat(path: Path, more: Path)
    ensures Normal(path + more) == Normal(path) + Normal(more)
    decreases |more|
  {
    if more == [] {
      assert path + more == path;
    } else {
      NormalConcat(path, more[..|more| - 1]);
      assert (path + more)[..|path + more| - 1] == path + more[..|more| - 1];
    }
  }

  /** Every component that names something counts, in its place, and the two others do not. */
  lemma NormalLaws(path: Path, more: Path, name: string)
    ensures Normal(path + more) == Normal(path) + Normal(more)
    ensures Normal([name]) == if name == "" || name == "." then [] else [name]
  {
    NormalConcat(path, more);
    assert [name][..0] == [];
  }

  predicate Exclusive(p: Request, q: Request) {
    p.mode.ExclusiveMutation? || q.mode.ExclusiveMutation?
  }

  /** One path leads to the other or to something below it, as far as their components name anything. */
  ghost predicate LeadsTo(path: Path, other: Path) {
    exists below :: Normal(other) == Normal(path) + below
  }

  /** Requests conflict exactly when one is exclusive and one path leads to the other under the same root. */
  lemma RequestsConflictExactly(p: Request, q: Request)
    requires p.resolved.Some? && q.resolved.Some?
    ensures Conflicts(ClaimFor(p), ClaimFor(q)) <==>
      && p.root == q.root && Exclusive(p, q)
      && (LeadsTo(p.resolved.value, q.resolved.value) || LeadsTo(q.resolved.value, p.resolved.value))
  {
    PrefixLeads(p.resolved.value, q.resolved.value);
    PrefixLeads(q.resolved.value, p.resolved.value);
  }

  lemma PrefixLeads(path: Path, other: Path)
    ensures IsPrefix(Normal(path), Normal(other)) <==> LeadsTo(path, other)
  {
    if IsPrefix(Normal(path), Normal(other)) {
      assert Normal(other) == Normal(path) + Normal(other)[|Normal(path)|..];
    }
  }

  /** A request and a request for anything below it conflict unless both are shared. */
  lemma BelowConflicts(p: Request, q: Request, below: Path)
    requires p.resolved.Some? && q.resolved == Some(p.resolved.value + below) && p.root == q.root && Exclusive(p, q)
    ensures Conflicts(ClaimFor(p), ClaimFor(q)) && Conflicts(ClaimFor(q), ClaimFor(p))
  {
    NormalConcat(p.resolved.value, below);
    assert LeadsTo(p.resolved.value, q.resolved.value);
    RequestsConflictExactly(p, q);
    RequestsConflictExactly(q, p);
  }

  /** Exclusive access over requested paths: nobody else holds the path, anything below or anything above. */
  lemma ExclusiveRequest(actions: seq<Action>, s: State, x: ClaimSet, y: ClaimSet, p: Request, q: Request)
    requires Run(INITIAL, actions, s) && x in s.active && y in s.active && x != y
    requires p.resolved.Some? && q.resolved.Some? && ClaimFor(p) in x.claims && ClaimFor(q) in y.claims
    requires p.root == q.root && p.mode.ExclusiveMutation?
    ensures forall below :: q.resolved.value != p.resolved.value + below && p.resolved.value != q.resolved.value + below
  {
    Reachable(actions, s);
    assert !Conflicts(ClaimFor(p), ClaimFor(q));
    forall below ensures q.resolved.value != p.resolved.value + below && p.resolved.value != q.resolved.value + below {
      if q.resolved.value == p.resolved.value + below {
        BelowConflicts(p, q, below);
      } else if p.resolved.value == q.resolved.value + below {
        BelowConflicts(q, p, below);
      }
    }
  }

  method MakeClaim(request: Request) returns (r: Result<Claim, AccessError>)
    ensures r == if request.resolved.None? then Err(InvalidPath) else Ok(ClaimFor(request))
  {
    if request.resolved.None? {
      return Err(InvalidPath);
    }
    var path := request.resolved.value;
    var components: Path := [];
    for i := 0 to |path|
      invariant components == Normal(path[..i])
    {
      assert path[..i + 1][..i] == path[..i];
      if path[i] !in {"", "."} {
        components := components + [path[i]];
      }
    }
    assert path[..|path|] == path;
    return Ok(Claim(request.root, components, request.mode));
  }

  /** Why claims cannot be prepared: interruption, no request, too many, or a path that is not confined. */
  function PrepareError(requests: seq<Request>, count: nat, interrupted: bool): Option<AccessError> {
    if interrupted then Some(Interrupted)
    else if requests == [] then Some(InvalidPath)
    else if count + |requests| > MAXIMUM_ACTIVE_CLAIMS then Some(CapacityExceeded)
    else if exists i :: 0 <= i < |requests| && requests[i].resolved.None? then Some(InvalidPath)
    else None
  }

  ghost predicate SomeUnconfined(requests: seq<Request>) {
    exists r :: r in requests && r.resolved.None?
  }

  /** Exactly what a preparation fails for. */
  lemma PrepareDecides(requests: seq<Request>, count: nat, interrupted: bool)
    ensures var error, full := PrepareError(requests, count, interrupted), count + |requests| > MAXIMUM_ACTIVE_CLAIMS;
      && (error == Some(Interrupted) <==> interrupted)
      && (error == Some(CapacityExceeded) <==> !interrupted && |requests| > 0 && full)
      && (error == Some(InvalidPath) <==> !interrupted && (|requests| == 0 || (!full && SomeUnconfined(requests))))
      && (error == None <==> !interrupted && |requests| > 0 && !full && !SomeUnconfined(requests))
  {
    if i :| 0 <= i < |requests| && requests[i].resolved.None? {
      assert requests[i] in requests;
    }
  }

  ghost predicate RegistryOk(active: seq<ClaimSet>, count: nat, next: nat) {
    && next >= 1 && Ascending(active, next) && Isolated(active)
    && count == Total(active) <= MAXIMUM_ACTIVE_CLAIMS
  }

  lemma ReleasedOk(s: State, id: nat)
    requires RegistryOk(s.active, s.count, s.next) && id != 0
    ensures var t := Released(s, id);
      && RegistryOk(t.active, t.count, t.next) && t.next == s.next
      && t.active == Erase(s.active, id) && t.count == s.count - SizeOf(s.active, id)
  {
    EraseTotal(s.active, id);
    EraseKeeps(s.active, id, s.next);
    IsolatedErase(s.active, Erase(s.active, id));
  }

  class FilesystemResourceCoordinator {
    var active: seq<ClaimSet>
    var activeClaimCount: nat
    var nextIdentifier: nat

    /** The registry part of the run invariant, which every method keeps. */
    ghost predicate Valid()
      reads this
    {
      RegistryOk(active, activeClaimCount, nextIdentifier)
    }

    /** The registry is the one of the run state `s`. */
    ghost predicate Shows(s: State)
      reads this
    {
      active == s.active && activeClaimCount == s.count && nextIdentifier == s.next
    }

    constructor ()
      ensures Valid() && Shows(INITIAL)
    {
      active, activeClaimCount, nextIdentifier := [], 0, 1;
    }

    /** The work before the second critical section: claims are prepared and nothing is registered. */
    method PrepareClaims(requests: seq<Request>, interrupted: bool) returns (r: Result<seq<Claim>, AccessError>)
      requires Valid()
      ensures r.Ok? <==> PrepareError(requests, activeClaimCount, interrupted).None?
      ensures r.Err? ==> Some(r.error) == PrepareError(requests, activeClaimCount, interrupted)
      ensures r.Ok? ==> |r.value| == |requests| > 0
      ensures r.Ok? ==> forall i :: 0 <= i < |requests| ==>
        requests[i].resolved.Some? && r.value[i] == ClaimFor(requests[i])
    {
      if interrupted {
        return Err(Interrupted);
      }
      if requests == [] {
        return Err(InvalidPath);
      }
      if |requests| > MAXIMUM_ACTIVE_CLAIMS || |requests| > MAXIMUM_ACTIVE_CLAIMS - activeClaimCount {
        return Err(CapacityExceeded);
      }
      var claims: seq<Claim> := [];
      for i := 0 to |requests|
        invariant |claims| == i
        invariant forall j :: 0 <= j < i ==>
          requests[j].resolved.Some? && claims[j] == ClaimFor(requests[j])
      {
        var claim := MakeClaim(requests[i]);
        if claim.Err? {
          return Err(claim.error);
        }
        claims := claims + [claim.value];
      }
      return Ok(claims);
    }

    /**
     The critical section: all of the claims or none of them.  It is the step `Acquire` of a run in
     the state `s`, with the result for a new lease.
     */
    method Register(claims: seq<Claim>, interrupted: bool, ghost s: State, ghost lease: nat)
      returns (r: Result<nat, AccessError>)
      requires Valid() && claims != [] && Shows(s) && lease !in s.leases
      modifies this
      ensures Valid() && Shows(Next(s, Acquire(claims, interrupted, lease)))
      ensures r.Err? ==> unchanged(this) && AcquireError(s.active, s.count, claims, interrupted) == Some(r.error)
      ensures r.Ok? ==>
        && AcquireError(s.active, s.count, claims, interrupted).None?
        && Next(s, Acquire(claims, interrupted, lease)).leases == s.leases[lease := r.value]
    {
      if interrupted {
        return Err(Interrupted);
      }
      if |claims| > MAXIMUM_ACTIVE_CLAIMS - activeClaimCount {
        return Err(CapacityExceeded);
      }
      var contested := AnyConflict(active, claims);
      if contested {
        return Err(Conflict);
      }
      var id := nextIdentifier;
      RegisterKeeps(active, ClaimSet(id, claims), nextIdentifier);
      nextIdentifier := nextIdentifier + 1;
      active := active + [ClaimSet(id, claims)];
      activeClaimCount := activeClaimCount + |active[|active| - 1].claims|;
      return Ok(id);
    }

    /** Removes the set of an identifier, wherever it is in the registry, as a run's release does. */
    method Unregister(id: nat, ghost s: State)
      requires Valid() && Shows(s) && id != 0
      modifies this`active, this`activeClaimCount
      ensures Valid() && Shows(Released(s, id))
      ensures active == Erase(old(active), id)
      ensures activeClaimCount == old(activeClaimCount) - SizeOf(old(active), id)
    {
      ReleasedOk(s, id);
      var k := Find(id);
      if k < |active| {
        activeClaimCount := activeClaimCount - |active[k].claims|;
        active := active[..k] + active[k + 1..];
      }
    }

    /** The search by identifier; erasing is removing the position it stops at. */
    method Find(id: nat) returns (k: nat)
      ensures k <= |active|
      ensures Erase(active, id) == if k < |active| then active[..k] + active[k + 1..] else active
      ensures SizeOf(active, id) == if k < |active| then |active[k].claims| else 0
    {
      k := 0;
      while k < |active| && active[k].id != id
        invariant 0 <= k <= |active| && forall i :: 0 <= i < k ==> active[i].id != id
      {
        k := k + 1;
      }
      if k < |active| {
        EraseAt(active, id, k);
      } else {
        EraseNone(active, id);
      }
    }
  }

  method AnyConflict(active: seq<ClaimSet>, requested: seq<Claim>) returns (found: bool)
    ensures found == ConflictsWithActive(active, requested)
  {
    for i := 0 to |active|
      invariant forall k :: 0 <= k < i ==> !SetConflicts(active[k], requested)
    {
      var claims := active[i].claims;
      for j := 0 to |claims|
        invariant forall p, b :: 0 <= p < j && b in requested ==> !Conflicts(claims[p], b)
      {
        for k := 0 to |requested|
          invariant forall q :: 0 <= q < k ==> !Conflicts(claims[j], requested[q])
        {
          if Conflicts(claims[j], requested[k]) {
            assert SetConflicts(active[i], requested);
            return true;
          }
        }
      }
    }
    return false;
  }

  /** A lease owns at most one claim set; identifier zero owns none. */
  class FilesystemResourceLease {
    var state: FilesystemResourceCoordinator?
    var identifier: nat

    constructor (state: FilesystemResourceCoordinator?, identifier: nat)
      ensures this.state == state && this.identifier == identifier
    {
      this.state, this.identifier := state, identifier;
    }

    /** Lets go once: afterwards the lease is empty, and releasing an empty lease changes nothing. */
    method Release(ghost s: State)
      requires state != null ==> state.Valid() && state.Shows(s)
      modifies this, state
      ensures old(state) == null || old(identifier) == 0 ==>
        identifier == old(identifier) && state == old(state) && (state != null ==> unchanged(state))
      ensures old(state) != null && old(identifier) != 0 ==>
        state == null && identifier == 0 && old(state).Shows(Released(s, old(identifier)))
      ensures old(state) != null ==> old(state).Valid()
    {
      if state == null || identifier == 0 {
        return;
      }
      var owner, id := state, identifier;
      state, identifier := null, 0;
      owner.Unregister(id, s);
    }

    /** Move construction: the set changes hands and the source is left empty. */
    constructor Move(other: FilesystemResourceLease)
      modifies other
      ensures state == old(other.state) && identifier == old(other.identifier)
      ensures other.state == null && other.identifier == 0
    {
      state, identifier := other.state, other.identifier;
      new;
      other.state, other.identifier := null, 0;
    }

    /** Move assignment: what this lease held is released, then the other's set is taken over. */
    method Assign(other: FilesystemResourceLease, ghost s: State)
      requires state != null ==> state.Valid() && state.Shows(s)
      modifies this, other, state
      ensures this == other ==> unchanged(this) && (state != null ==> unchanged(state))
      ensures this != other ==>
        && state == old(other.state) && identifier == old(other.identifier)
        && other.state == null && other.identifier == 0
      ensures this != other && old(state) != null && old(identifier) != 0 ==>
        old(state).Valid() && old(state).Shows(Released(s, old(identifier)))
    {
      if this != other {
        Release(s);
        state := other.state;
        other.state := null;
        identifier := other.identifier;
        other.identifier := 0;
      }
    }
  }
}
