/** The route table: registration, selection of the best match and the 405 answer. */
module Router {
  import opened Basics
  import opened HttpSyntax
  import opened RequestHead

  const MAXIMUM_ROUTES := 128

  datatype Route = Route(verb: Method, prefix: string, wildcard: bool, handler: nat)

  datatype RegistrationError = InvalidPattern | EmptyHandler | DuplicateRoute | TooManyRoutes

  /** Methods in the order of their enumeration. */
  const METHODS: seq<Method> := [Get, Head, Post, Put, Delete, Options]

  // ---- Patterns ----

  predicate IsPathChar(c: char) {
    IsDigit(c) || 'A' <= c <= 'Z' || 'a' <= c <= 'z' || c in "-._~!$&'()+,;=:@"
  }

  /** Slashes, path characters and complete percent escapes. */
  predicate ValidPath(path: string) {
    if path == "" then true
    else if path[0] == '/' then ValidPath(path[1..])
    else if path[0] == '%' then |path| >= 3 && IsHexDigit(path[1]) && IsHexDigit(path[2]) && ValidPath(path[3..])
    else IsPathChar(path[0]) && ValidPath(path[1..])
  }

  predicate ValidPattern(pattern: string) {
    && pattern != "" && pattern[0] == '/' && '?' !in pattern && '#' !in pattern
    && var star := IndexOf(pattern, '*');
       && (star < |pattern| ==> star == |pattern| - 1 && star > 0 && pattern[star - 1] == '/')
       && ValidPath(pattern[..star])
  }

  method IsValidPattern(pattern: string) returns (valid: bool)
    ensures valid == ValidPattern(pattern)
  {
    if pattern == "" || pattern[0] != '/' || '?' in pattern || '#' in pattern {
      return false;
    }
    var star := IndexOf(pattern, '*');
    if star < |pattern| && (star != |pattern| - 1 || star == 0 || pattern[star - 1] != '/') {
      return false;
    }
    var path := pattern[..star];
    var i := 0;
    while i < |path|
      invariant 0 <= i <= |path| && ValidPath(path) == ValidPath(path[i..])
    {
      var rest := path[i..];
      assert |rest| > 0 && rest[1..] == path[i + 1..];
      if path[i] == '/' {
        i := i + 1;
        continue;
      }
      if path[i] == '%' {
        if |path| - i < 3 || !IsHexDigit(path[i + 1]) || !IsHexDigit(path[i + 2]) {
          return false;
        }
        assert rest[3..] == path[i + 3..];
        i := i + 3;
        continue;
      }
      if !IsPathChar(path[i]) {
        return false;
      }
      i := i + 1;
    }
    return true;
  }

  // ---- Patterns on their own terms ----

  /** One position of a pattern's path. */
  datatype Piece = Slash | Plain(c: char) | Escape(high: char, low: char) {
    predicate Ok() {
      match this
      case Slash => true
      case Plain(c) => '!' <= c <= '~' && c !in "\"#%*/<>?[\\]^`{|}"
      case Escape(high, low) => IsHexDigit(high) && IsHexDigit(low)
    }

    function Text(): string {
      match this
      case Slash => "/"
      case Plain(c) => [c]
      case Escape(high, low) => ['%', high, low]
    }
  }

  predicate PiecesOk(pieces: seq<Piece>) {
    forall i :: 0 <= i < |pieces| ==> pieces[i].Ok()
  }

  function PiecesText(pieces: seq<Piece>): string {
    if pieces == [] then "" else pieces[0].Text() + PiecesText(pieces[1..])
  }

  lemma PathCharsExactly(c: char)
    ensures IsPathChar(c) <==> Plain(c).Ok()
  {
  }

  lemma {:induction false} PrintedPathIsValid(pieces: seq<Piece>)
    requires PiecesOk(pieces)
    ensures ValidPath(PiecesText(pieces)) && '*' !in PiecesText(pieces)
    ensures '?' !in PiecesText(pieces) && '#' !in PiecesText(pieces)
    decreases |pieces|
  {
    if pieces != [] {
      var p, rest := pieces[0], PiecesText(pieces[1..]);
      PrintedPathIsValid(pieces[1..]);
      assert PiecesText(pieces)[|p.Text()|..] == rest;
      if p.Plain? {
        PathCharsExactly(p.c);
      }
    }
  }

  lemma {:induction false} ValidPathWasPrinted(path: string) returns (pieces: seq<Piece>)
    requires ValidPath(path)
    ensures PiecesOk(pieces) && path == PiecesText(pieces)
    decreases |path|
  {
    pieces := [];
    if path != "" {
      var first :=
        if path[0] == '/' then Slash else if path[0] == '%' then Escape(path[1], path[2]) else Plain(path[0]);
      PathCharsExactly(path[0]);
      var rest := ValidPathWasPrinted(path[|first.Text()|..]);
      pieces := [first] + rest;
      assert pieces[1..] == rest && path == first.Text() + path[|first.Text()|..];
    }
  }

  /** Starts with a slash; a star may follow the last one. */
  predicate IsPattern(pattern: string, pieces: seq<Piece>, wildcard: bool) {
    && PiecesOk(pieces) && pieces != [] && pieces[0].Slash? && (wildcard ==> pieces[|pieces| - 1].Slash?)
    && pattern == PiecesText(pieces) + if wildcard then "*" else ""
  }

  lemma {:induction false} LastSlash(pieces: seq<Piece>)
    requires PiecesOk(pieces) && pieces != []
    ensures PiecesText(pieces) != ""
    ensures pieces[|pieces| - 1].Slash? <==> PiecesText(pieces)[|PiecesText(pieces)| - 1] == '/'
    decreases |pieces|
  {
    if |pieces| > 1 {
      LastSlash(pieces[1..]);
    } else {
      assert PiecesText(pieces) == pieces[0].Text();
    }
  }

  lemma PatternIsValid(pattern: string, pieces: seq<Piece>, wildcard: bool)
    requires IsPattern(pattern, pieces, wildcard)
    ensures ValidPattern(pattern)
  {
    var path := PiecesText(pieces);
    PrintedPathIsValid(pieces);
    LastSlash(pieces);
    assert path[0] == '/';
    StarAfter(path, wildcard);
  }

  /** The only star is the one behind the path. */
  lemma StarAfter(path: string, wildcard: bool)
    requires '*' !in path
    ensures var pattern := path + if wildcard then "*" else "";
      pattern[..|path|] == path && IndexOf(pattern, '*') == |path|
  {
    var pattern := path + if wildcard then "*" else "";
    assert forall k :: 0 <= k < |path| ==> pattern[k] == path[k];
    assert wildcard ==> pattern[|path|] == '*';
  }

  /** The patterns that can be registered are exactly these. */
  lemma PatternsExactly(pattern: string)
    ensures ValidPattern(pattern) <==> exists pieces, wildcard :: IsPattern(pattern, pieces, wildcard)
  {
    if ValidPattern(pattern) {
      var star := IndexOf(pattern, '*');
      var pieces := ValidPathWasPrinted(pattern[..star]);
      assert star > 0 && pieces != [];
      LastSlash(pieces);
      assert pattern[..star][0] == '/' && pieces[0].Text()[0] == '/';
      assert star < |pattern| ==> pattern == pattern[..star] + "*";
      assert IsPattern(pattern, pieces, star < |pattern|);
    }
    if pieces, wildcard :| IsPattern(pattern, pieces, wildcard) {
      PatternIsValid(pattern, pieces, wildcard);
    }
  }

  // ---- Matching and preference ----

  predicate PathMatches(r: Route, path: string) {
    if r.wildcard then r.prefix <= path else path == r.prefix
  }

  predicate Serves(r: Route, verb: Method) {
    r.verb == verb || (verb == Head && r.verb == Get)
  }

  predicate Matches(r: Route, verb: Method, path: string) {
    Serves(r, verb) && PathMatches(r, path)
  }

  predicate MoreSpecific(candidate: Route, current: Route) {
    if candidate.wildcard != current.wildcard then !candidate.wildcard
    else |candidate.prefix| > |current.prefix|
  }

  predicate ExplicitHeadTie(candidate: Route, current: Route) {
    candidate.verb == Head && current.verb == Get
    && candidate.wildcard == current.wildcard && |candidate.prefix| == |current.prefix|
  }

  /** The stated preference: exact before wildcard, longer before shorter, explicit HEAD before GET. */
  predicate Beats(a: Route, b: Route) {
    MoreSpecific(a, b) || ExplicitHeadTie(a, b)
  }

  predicate SameKey(a: Route, b: Route) {
    a.verb == b.verb && a.wildcard == b.wildcard && a.prefix == b.prefix
  }

  /** What a wildcard route captures of a path; an exact route captures nothing. */
  predicate Captures(r: Route, path: string, suffix: string) {
    if r.wildcard then r.prefix + suffix == path else suffix == ""
  }

  /** A route matches its own path and, with a wildcard, everything below it; GET also serves HEAD. */
  lemma MatchesExactly(r: Route, verb: Method, path: string)
    ensures Matches(r, verb, path) <==>
      && (r.verb == verb || (r.verb == Get && verb == Head))
      && exists suffix :: path == r.prefix + suffix && (suffix == "" || r.wildcard)
  {
    if r.prefix <= path {
      assert path == r.prefix + path[|r.prefix|..];
    }
    assert r.prefix + "" == r.prefix;
  }

  /** Exact routes win over wildcards, then the longer prefix wins, then an explicit HEAD over GET. */
  lemma PreferenceExactly(a: Route, b: Route)
    ensures !a.wildcard && b.wildcard ==> Beats(a, b)
    ensures a.wildcard && !b.wildcard ==> !Beats(a, b)
    ensures a.wildcard == b.wildcard && |a.prefix| > |b.prefix| ==> Beats(a, b)
    ensures a.wildcard == b.wildcard && |a.prefix| < |b.prefix| ==> !Beats(a, b)
    ensures a.wildcard == b.wildcard && |a.prefix| == |b.prefix| ==> (Beats(a, b) <==> a.verb == Head && b.verb == Get)
  {
  }

  /** Two routes are the same to the table when they differ in nothing but the handler. */
  lemma SameKeyExactly(a: Route, b: Route)
    ensures SameKey(a, b) <==> a == b.(handler := a.handler)
  {
  }

  /** No two routes share method, prefix and kind. */
  predicate Distinct(routes: seq<Route>) {
    forall i, j :: 0 <= i < j < |routes| ==> !SameKey(routes[i], routes[j])
  }

  /** A match that beats every other match. */
  ghost predicate IsBest(routes: seq<Route>, verb: Method, path: string, r: Route) {
    && r in routes && Matches(r, verb, path)
    && forall other :: other in routes && other != r && Matches(other, verb, path) ==> Beats(r, other)
  }

  lemma BeatsIsStrict(a: Route, b: Route)
    requires Beats(a, b)
    ensures !Beats(b, a)
  {
  }

  lemma BeatsTransitive(a: Route, b: Route, c: Route)
    requires Beats(a, b) && Beats(b, c)
    ensures Beats(a, c)
  {
  }

  /** Two different routes of one table that serve the same request are never equally good. */
  lemma MatchesAreComparable(routes: seq<Route>, a: Route, b: Route, verb: Method, path: string)
    requires Distinct(routes) && a in routes && b in routes && a != b
    requires Matches(a, verb, path) && Matches(b, verb, path)
    ensures Beats(a, b) || Beats(b, a)
  {
    if a.wildcard == b.wildcard && |a.prefix| == |b.prefix| {
      assert a.prefix == path[..|a.prefix|] == b.prefix;
      var i :| 0 <= i < |routes| && routes[i] == a;
      var j :| 0 <= j < |routes| && routes[j] == b;
      assert a.verb != b.verb;
    }
  }

  lemma BestIsUnique(routes: seq<Route>, verb: Method, path: string, a: Route, b: Route)
    requires IsBest(routes, verb, path, a) && IsBest(routes, verb, path, b)
    ensures a == b
  {
    if a != b {
      BeatsIsStrict(a, b);
    }
  }

  /** Selection as a relation between table and answer. */
  ghost predicate Selected(routes: seq<Route>, verb: Method, path: string, answer: Option<Route>) {
    match answer
    case None => forall r :: r in routes ==> !Matches(r, verb, path)
    case Some(r) => IsBest(routes, verb, path, r)
  }

  method SelectRoute(routes: seq<Route>, verb: Method, path: string) returns (selected: Option<Route>)
    requires Distinct(routes)
    ensures Selected(routes, verb, path, selected)
  {
    selected := None;
    for i := 0 to |routes|
      invariant Selected(routes[..i], verb, path, selected)
    {
      var route := routes[i];
      SelectionStep(routes, i, verb, path, selected);
      if !Matches(route, verb, path) {
        continue;
      }
      if selected.None? || Beats(route, selected.value) {
        selected := Some(route);
      }
    }
    assert routes[..|routes|] == routes;
  }

  /** One round of the loop keeps the best match of what it has seen. */
  lemma SelectionStep(routes: seq<Route>, i: nat, verb: Method, path: string, selected: Option<Route>)
    requires i < |routes| && Distinct(routes) && Selected(routes[..i], verb, path, selected)
    ensures var route := routes[i];
      Selected(routes[..i + 1], verb, path,
               if Matches(route, verb, path) && (selected.None? || Beats(route, selected.value)) then Some(route)
               else selected)
  {
    var route := routes[i];
    assert routes[..i + 1] == routes[..i] + [route];
    if Matches(route, verb, path) && selected.Some? {
      var best := selected.value;
      if best != route {
        MatchesAreComparable(routes, route, best, verb, path);
      }
      if Beats(route, best) {
        forall other | other in routes[..i + 1] && other != route && Matches(other, verb, path)
          ensures Beats(route, other)
        {
          if other != best {
            BeatsTransitive(route, best, other);
          }
        }
      }
    }
  }

  /** The answer is determined by the table as a set: registration order does not matter. */
  lemma OrderDoesNotMatter(
      one: seq<Route>, two: seq<Route>, verb: Method, path: string, a: Option<Route>, b: Option<Route>)
    requires multiset(one) == multiset(two)
    requires Selected(one, verb, path, a) && Selected(two, verb, path, b)
    ensures a == b
  {
    forall r ensures r in one <==> r in two {
      assert r in multiset(one) <==> r in one;
      assert r in multiset(two) <==> r in two;
    }
    if a.Some? && b.Some? {
      BestIsUnique(one, verb, path, a.value, b.value);
    }
  }

  // ---- The router ----

  datatype Response =
    | NoContent
    | Handled(handler: nat, suffix: string)
    | NotFound
    | MethodNotAllowed(allow: seq<Method>)

  function RequestPath(target: string): string {
    target[..IndexOf(target, '?')]
  }

  /** The path of a target is what stands before its query. */
  lemma RequestPathExactly(target: string, path: string)
    ensures path == RequestPath(target) <==>
      '?' !in path && (target == path || exists query :: target == path + "?" + query)
  {
    var i := IndexOf(target, '?');
    if path == target[..i] && i < |target| {
      assert target == path + "?" + target[i + 1..];
    }
    if query :| '?' !in path && target == path + "?" + query {
      assert target[|path|] == '?' && forall k :: 0 <= k < |path| ==> target[k] == path[k];
      assert i == |path|;
    }
  }

  /** Some route of the table would take this method on this path. */
  ghost predicate WouldServe(routes: seq<Route>, verb: Method, path: string) {
    exists r :: r in routes && Matches(r, verb, path)
  }

  /** An existing path is served for some method, and the other way round. */
  lemma SelectionSucceeds(routes: seq<Route>, verb: Method, path: string, answer: Option<Route>)
    requires Selected(routes, verb, path, answer)
    ensures answer.Some? <==> WouldServe(routes, verb, path)
  {
    if answer.Some? {
      assert answer.value in routes;
    }
  }

  /** Prefixes are absolute and star-free; a wildcard captures whole segments. */
  predicate Normalized(r: Route) {
    && r.prefix != "" && r.prefix[0] == '/' && '*' !in r.prefix
    && (r.wildcard ==> r.prefix[|r.prefix| - 1] == '/')
  }

  /** The table entry a valid pattern stands for. */
  function RouteFor(verb: Method, pattern: string, handler: nat): Route
    requires pattern != ""
  {
    var wildcard := pattern[|pattern| - 1] == '*';
    Route(verb, if wildcard then pattern[..|pattern| - 1] else pattern, wildcard, handler)
  }

  /** The entry keeps the pattern; its star becomes the kind of the route. */
  lemma RouteForExactly(verb: Method, pattern: string, handler: nat)
    requires pattern != ""
    ensures var r := RouteFor(verb, pattern, handler);
      && r.verb == verb && r.handler == handler && pattern == r.prefix + (if r.wildcard then "*" else "")
      && (r.wildcard <==> pattern[|pattern| - 1] == '*')
  {
  }

  predicate Registered(routes: seq<Route>, route: Route) {
    exists k :: 0 <= k < |routes| && SameKey(routes[k], route)
  }

  lemma RegisteredExactly(routes: seq<Route>, route: Route)
    ensures Registered(routes, route) <==> exists r :: r in routes && route == r.(handler := route.handler)
  {
    if k :| 0 <= k < |routes| && SameKey(routes[k], route) {
      assert routes[k] in routes && route == routes[k].(handler := route.handler);
    }
    if r :| r in routes && route == r.(handler := route.handler) {
      var k :| 0 <= k < |routes| && routes[k] == r;
      assert SameKey(routes[k], route);
    }
  }

  class HttpRouter {
    var routes: seq<Route>

    ghost predicate Valid()
      reads this
    {
      && |routes| <= MAXIMUM_ROUTES && Distinct(routes)
      && forall r :: r in routes ==> Normalized(r)
    }

    constructor ()
      ensures Valid() && routes == []
    {
      routes := [];
    }

    /** Appends a route, or changes nothing and says why. */
    method RegisterRoute(verb: Method, pattern: string, handler: Option<nat>) returns (r: Result<(), RegistrationError>)
      requires Valid()
      modifies this
      ensures Valid()
      ensures r.Err? ==> routes == old(routes)
      ensures r.Ok? <==>
        && ValidPattern(pattern) && handler.Some? && |old(routes)| < MAXIMUM_ROUTES
        && !Registered(old(routes), RouteFor(verb, pattern, handler.value))
      ensures r.Ok? ==> routes == old(routes) + [RouteFor(verb, pattern, handler.value)]
      ensures r == Err(InvalidPattern) <==> !ValidPattern(pattern)
      ensures r == Err(EmptyHandler) <==> ValidPattern(pattern) && handler.None?
      ensures r == Err(DuplicateRoute) <==>
        ValidPattern(pattern) && handler.Some? && Registered(old(routes), RouteFor(verb, pattern, handler.value))
    {
      var valid := IsValidPattern(pattern);
      if !valid {
        return Err(InvalidPattern);
      }
      if handler.None? {
        return Err(EmptyHandler);
      }
      var wildcard := |pattern| >= 2 && pattern[|pattern| - 2..] == "/*";
      PatternShape(pattern);
      var prefix := if wildcard then pattern[..|pattern| - 1] else pattern;
      for i := 0 to |routes|
        invariant routes == old(routes)
        invariant forall k :: 0 <= k < i ==>
          !(routes[k].verb == verb && routes[k].wildcard == wildcard && routes[k].prefix == prefix)
      {
        if routes[i].verb == verb && routes[i].wildcard == wildcard && routes[i].prefix == prefix {
          return Err(DuplicateRoute);
        }
      }
      if |routes| >= MAXIMUM_ROUTES {
        return Err(TooManyRoutes);
      }
      routes := routes + [Route(verb, prefix, wildcard, handler.value)];
      return Ok(());
    }

    /**
     Answers one request: the best match handles it with the captured suffix; otherwise the answer
     says which methods the path does support, in order and without repetition.
     */
    method Dispatch(verb: Method, target: string) returns (response: Response)
      requires Valid()
      ensures verb == Options && target == "*" ==> response == NoContent
      ensures !(verb == Options && target == "*") ==>
        var path := RequestPath(target);
        match response
        case NoContent => false
        case Handled(handler, suffix) =>
          exists r :: IsBest(routes, verb, path, r) && r.handler == handler && Captures(r, path, suffix)
        case NotFound => forall m :: !WouldServe(routes, m, path)
        case MethodNotAllowed(allow) =>
          && allow != [] && verb !in allow
          && (forall m :: m in allow <==> WouldServe(routes, m, path))
          && (forall i, j :: 0 <= i < j < |allow| ==> MethodIndex(allow[i]) < MethodIndex(allow[j]))
    {
      if verb == Options && target == "*" {
        return NoContent;
      }
      var path := RequestPath(target);
      var selected := SelectRoute(routes, verb, path);
      SelectionSucceeds(routes, verb, path, selected);
      if selected.Some? {
        var best := selected.value;
        var suffix := if best.wildcard then path[|best.prefix|..] else "";
        assert best.wildcard ==> best.prefix + suffix == path;
        return Handled(best.handler, suffix);
      }
      var allowed, pathExists := AllowedMethods(routes, path);
      if !pathExists {
        forall m ensures !WouldServe(routes, m, path) {
          assert allowed[MethodIndex(m)] == WouldServe(routes, m, path);
        }
        return NotFound;
      }
      var allow := AllowList(allowed);
      forall m ensures m in allow <==> WouldServe(routes, m, path) {
        assert METHODS[MethodIndex(m)] == m;
      }
      assert allow != [];
      return MethodNotAllowed(allow);
    }
  }

  function MethodIndex(m: Method): (i: nat)
    ensures i < |METHODS| && METHODS[i] == m
  {
    match m
    case Get => 0
    case Head => 1
    case Post => 2
    case Put => 3
    case Delete => 4
    case Options => 5
  }

  /** A valid pattern ends in a star exactly when it ends in a slash and a star. */
  lemma PatternShape(pattern: string)
    requires ValidPattern(pattern)
    ensures (|pattern| >= 2 && pattern[|pattern| - 2..] == "/*") <==> pattern[|pattern| - 1] == '*'
    ensures pattern[|pattern| - 1] == '*' ==>
      '*' !in pattern[..|pattern| - 1] && |pattern| >= 2 && pattern[|pattern| - 2] == '/'
    ensures pattern[|pattern| - 1] != '*' ==> '*' !in pattern
  {
    var star := IndexOf(pattern, '*');
    if pattern[|pattern| - 1] == '*' {
      assert star == |pattern| - 1;
      assert pattern[|pattern| - 2..] == [pattern[|pattern| - 2], pattern[|pattern| - 1]];
    } else if |pattern| >= 2 {
      assert pattern[|pattern| - 2..][1] == pattern[|pattern| - 1];
    }
  }

  /** The table of methods a path supports; GET implies HEAD. */
  method AllowedMethods(routes: seq<Route>, path: string) returns (allowed: seq<bool>, pathExists: bool)
    ensures |allowed| == |METHODS|
    ensures forall m :: allowed[MethodIndex(m)] <==> WouldServe(routes, m, path)
    ensures pathExists <==> exists m :: WouldServe(routes, m, path)
  {
    allowed := [false, false, false, false, false, false];
    pathExists := false;
    for i := 0 to |routes|
      invariant |allowed| == |METHODS|
      invariant forall m :: allowed[MethodIndex(m)] <==> WouldServe(routes[..i], m, path)
      invariant pathExists <==> exists m :: WouldServe(routes[..i], m, path)
    {
      var route := routes[i];
      forall m
        ensures WouldServe(routes[..i + 1], m, path) <==> WouldServe(routes[..i], m, path) || Matches(route, m, path)
      {
        ServeOneMore(routes, i, m, path);
      }
      if PathMatches(route, path) {
        pathExists := true;
        assert Matches(route, route.verb, path);
        allowed := allowed[MethodIndex(route.verb) := true];
        if route.verb == Get {
          allowed := allowed[MethodIndex(Head) := true];
        }
      }
    }
    assert routes[..|routes|] == routes;
  }

  lemma ServeOneMore(routes: seq<Route>, i: nat, m: Method, path: string)
    requires i < |routes|
    ensures WouldServe(routes[..i + 1], m, path) <==> WouldServe(routes[..i], m, path) || Matches(routes[i], m, path)
  {
    assert routes[..i + 1] == routes[..i] + [routes[i]];
    if WouldServe(routes[..i], m, path) {
      var r :| r in routes[..i] && Matches(r, m, path);
      assert r in routes[..i + 1];
    }
  }

  method AllowList(allowed: seq<bool>) returns (allow: seq<Method>)
    requires |allowed| == |METHODS|
    ensures forall m :: m in allow <==> allowed[MethodIndex(m)]
    ensures forall i, j :: 0 <= i < j < |allow| ==> MethodIndex(allow[i]) < MethodIndex(allow[j])
  {
    allow := [];
    for k := 0 to |METHODS|
      invariant forall m :: m in allow <==> MethodIndex(m) < k && allowed[MethodIndex(m)]
      invariant forall i, j :: 0 <= i < j < |allow| ==> MethodIndex(allow[i]) < MethodIndex(allow[j])
    {
      var m := METHODS[k];
      assert MethodIndex(m) == k;
      if allowed[k] {
        allow := allow + [m];
      }
    }
  }
}
