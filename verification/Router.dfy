/**
 The router object: a table that calls update in place and a lazily built
 index over it (src/app/router.rs).
 */
module Routing {
  import opened Basics
  import opened Text
  import opened Segments
  import opened Patterns
  import opened Urls
  import opened Hosts
  import opened RouteIndex
  import opened RouteListing
  import opened Specificity
  import opened RouteTable

  /** The loop of `validate_route_insert` and `validate_route_host_update`. */
  method FindClash(routes: seq<Route>, skip: int, verb: string, pattern: Pattern, host: Option<HostPattern>)
    returns (e: Option<RouteError>)
    ensures e == ClashError(routes, 0, skip, verb, pattern, host)
  {
    for i := 0 to |routes|
      invariant ClashError(routes, 0, skip, verb, pattern, host) == ClashError(routes, i, skip, verb, pattern, host)
    {
      if i == skip || routes[i].verb != verb || routes[i].pattern.key != pattern.key {
        continue;
      }
      if !HostsOverlap(routes[i].host, host) {
        continue;
      }
      return Some(if routes[i].pattern.rendered == pattern.rendered then DuplicateRoute else ConflictingPattern);
    }
    return None;
  }

  method ValidateInsert(
    routes: seq<Route>, verb: string, pattern: Pattern, host: Option<HostPattern>, name: Option<string>)
    returns (e: Option<RouteError>)
    ensures e == InsertError(routes, verb, pattern, host, name)
  {
    if name.Some? && NameTaken(routes, -1, name.value) {
      return Some(DuplicateName);
    }
    e := FindClash(routes, -1, verb, pattern, host);
  }

  /** A route that can be used for the path whatever the request method. */
  predicate Reaches(route: Route, path: seq<string>, host: Option<string>) {
    route.verb != METHOD_ALL && HostMatches(route.host, host) && Matches(route.pattern.segments, path)
  }

  /** Preference among the routes behind a synthesised response: the greater
      specificity key, then the earlier registration. */
  predicate Better(routes: seq<Route>, i: nat, j: nat)
    requires i < |routes| && j < |routes|
  {
    var a, b := SpecificityKey(routes[i].pattern.segments), SpecificityKey(routes[j].pattern.segments);
    LexLess(b, a) || (a == b && i < j)
  }

  lemma BetterOrder(routes: seq<Route>, i: nat, j: nat, k: nat)
    requires i < |routes| && j < |routes| && k < |routes|
    ensures Better(routes, i, j) && Better(routes, j, k) ==> Better(routes, i, k)
    ensures i != j ==> Better(routes, i, j) != Better(routes, j, i)
  {
    var a, b, c := SpecificityKey(routes[i].pattern.segments), SpecificityKey(routes[j].pattern.segments),
                   SpecificityKey(routes[k].pattern.segments);
    LexLessTotal(a, b);
    if LexLess(b, a) && LexLess(c, b) {
      LexLessTransitive(c, b, a);
    }
  }

  /** Route `i` is the one `scoped_middlewares` takes its middlewares from. */
  ghost predicate IsScopeOf(routes: seq<Route>, path: seq<string>, host: Option<string>, i: nat) {
    && i < |routes| && Reaches(routes[i], path, host)
    && (forall j :: 0 <= j < |routes| && j != i && Reaches(routes[j], path, host) ==> Better(routes, i, j))
  }

  /** The router middlewares of the route in scope, which exists and is one only
      when some route reaches the path; none when none does. */
  ghost predicate GivesScope(routes: seq<Route>, path: seq<string>, host: Option<string>, scoped: seq<nat>)
    requires TableOk(routes)
  {
    && ((forall i :: 0 <= i < |routes| ==> !Reaches(routes[i], path, host)) ==> scoped == [])
    && ((exists i :: 0 <= i < |routes| && Reaches(routes[i], path, host)) ==>
          exists i: nat :: IsScopeOf(routes, path, host, i))
    && (forall i: nat :: IsScopeOf(routes, path, host, i) ==> RouteOk(routes[i]) && scoped == ScopedPart(routes[i]))
  }

  class Router {
    var routes: seq<Route>
    var middlewares: seq<nat>
    var index: Option<Node>

    /** The table is sound, and a cached index is the index of this table. */
    ghost predicate Valid()
      reads this
    {
      TableOk(routes) && (index.Some? ==> index.value == IndexOf(Rows(routes)))
    }

    constructor ()
      ensures Valid() && routes == [] && middlewares == [] && index == None
    {
      routes, middlewares, index := [], [], None;
    }

    /** Builds the index on first use. */
    method Index() returns (root: Node)
      requires Valid()
      modifies this`index
      ensures Valid() && root == IndexOf(Rows(routes))
    {
      if index.None? {
        var built := Build(Rows(routes));
        index := Some(built);
      }
      root := index.value;
    }

    method AddMiddleware(middleware: nat)
      requires Valid()
      modifies this`middlewares
      ensures Valid() && middlewares == old(middlewares) + [middleware]
    {
      middlewares := middlewares + [middleware];
    }

    /** Registers a route; the result is the index its handle holds. */
    method Add(verb: string, path: ByteString, handler: nat, kind: Kind) returns (r: Result<nat, RouteError>)
      requires Valid()
      modifies this`routes, this`index
      ensures Valid()
      ensures match AddRoute(old(routes), verb, path, handler, kind)
              case Ok(more) => routes == more && r == Ok(|old(routes)|)
              case Err(e) => routes == old(routes) && r == Err(e)
    {
      if EqualIgnoringCase(verb, "CONNECT") {
        return Err(UnsupportedMethod);
      }
      AddRouteOk(routes, verb, path, handler, kind);
      var parsed := ParsePattern(path);
      if parsed.Err? {
        return Err(parsed.error);
      }
      var e := ValidateInsert(routes, verb, parsed.value, None, None);
      if e.Some? {
        return Err(e.value);
      }
      routes := routes + [NewRoute(verb, parsed.value, handler, kind)];
      index := None;
      return Ok(|routes| - 1);
    }

    method StaticFiles(prefix: ByteString, handler: nat) returns (e: Option<RouteError>)
      requires Valid()
      modifies this`routes, this`index
      ensures Valid()
      ensures match AddStatic(old(routes), prefix, handler)
              case Ok(more) => routes == more && e == None
              case Err(error) => routes == old(routes) && e == Some(error)
    {
      AddStaticOk(routes, prefix, handler);
      var parsed := ParsePattern(StaticPath(prefix));
      if parsed.Err? {
        return Some(parsed.error);
      }
      e := ValidateInsert(routes, "GET", parsed.value, None, None);
      if e.Some? {
        return;
      }
      e := ValidateInsert(routes, "HEAD", parsed.value, None, None);
      if e.Some? {
        return;
      }
      routes := routes + [NewRoute("GET", parsed.value, handler, Http), NewRoute("HEAD", parsed.value, handler, Http)];
      index := None;
    }

    /** Mounts another router under a prefix. */
    method MountRouter(prefix: ByteString, other: Router) returns (e: Option<RouteError>)
      requires Valid() && other.Valid() && other != this
      modifies this`routes, this`index
      ensures Valid() && other.Valid()
      ensures match MountRoutes(old(routes), prefix, other.routes, other.middlewares)
              case Ok(more) => routes == more && e == None
              case Err(error) => routes == old(routes) && e == Some(error)
    {
      MountOk(routes, prefix, other.routes, other.middlewares);
      var parsed := ParsePattern(prefix);
      if parsed.Err? {
        return Some(parsed.error);
      }
      ParseWellFormed(prefix);
      var batch := MountBatch(routes, parsed.value, other.routes, other.middlewares);
      if batch.Err? {
        return Some(batch.error);
      }
      routes := batch.value;
      index := None;
      return None;
    }

    // ------------------------------------------------ calls on a route handle

    method Remove(i: nat)
      requires Valid() && i < |routes|
      modifies this`routes, this`index
      ensures Valid() && routes == RemoveAt(old(routes), i)
    {
      RemoveAtOk(routes, i);
      routes := RemoveAt(routes, i);
      index := None;
    }

    method SetRouteName(i: nat, name: string) returns (e: Option<RouteError>)
      requires Valid() && i < |routes|
      modifies this`routes, this`index
      ensures Valid() && routes == CallHandle(old(routes), i, SetName(name)).routes
      ensures e.Some? <==> CallHandle(old(routes), i, SetName(name)).Removed?
      ensures e.Some? ==> e.value == CallHandle(old(routes), i, SetName(name)).error
    {
      CallHandleOk(routes, i, SetName(name));
      if NameTaken(routes, i, name) {
        Remove(i);
        return Some(DuplicateName);
      }
      RowsUnchanged(routes, routes[i := routes[i].(name := Some(name))]);
      routes := routes[i := routes[i].(name := Some(name))];
      return None;
    }

    method SetRouteHost(i: nat, text: string) returns (e: Option<RouteError>)
      requires Valid() && i < |routes|
      modifies this`routes, this`index
      ensures Valid() && routes == CallHandle(old(routes), i, SetHost(text)).routes
      ensures e.Some? <==> CallHandle(old(routes), i, SetHost(text)).Removed?
      ensures e.Some? ==> e.value == CallHandle(old(routes), i, SetHost(text)).error
    {
      CallHandleOk(routes, i, SetHost(text));
      var parsed := ParseHost(text);
      if parsed.Err? {
        Remove(i);
        return Some(parsed.error);
      }
      e := FindClash(routes, i, routes[i].verb, routes[i].pattern, Some(parsed.value));
      if e.Some? {
        Remove(i);
        return;
      }
      routes := routes[i := routes[i].(host := Some(parsed.value))];
      index := None;
    }

    method AddRouteLayer(i: nat, middleware: nat)
      requires Valid() && i < |routes|
      modifies this`routes
      ensures Valid() && routes == CallHandle(old(routes), i, Layer(middleware)).routes
    {
      CallHandleOk(routes, i, Layer(middleware));
      var route := routes[i].(middlewares := routes[i].middlewares + [middleware], layers := routes[i].layers + 1);
      RowsUnchanged(routes, routes[i := route]);
      routes := routes[i := route];
    }

    method AddRouteTimeout(i: nat, middleware: nat)
      requires Valid() && i < |routes|
      modifies this`routes
      ensures Valid() && routes == CallHandle(old(routes), i, Timeout(middleware)).routes
    {
      CallHandleOk(routes, i, Timeout(middleware));
      var route := routes[i].(middlewares := routes[i].middlewares + [middleware]);
      RowsUnchanged(routes, routes[i := route]);
      routes := routes[i := route];
    }

    // ----------------------------------------------------------------- lookup

    /** `resolve_method`: the preferred eligible route and its captures. */
    method Resolve(verb: string, path: string, host: Option<string>)
      returns (r: Result<Option<(nat, Params)>, PathError>)
      requires Valid()
      modifies this`index
      ensures Valid()
      ensures DecodePath(path).Err? ==> r == Err(DecodePath(path).error)
      ensures DecodePath(path).Ok? ==>
                && r.Ok?
                && (r.value.None? <==>
                      forall i :: 0 <= i < |routes| ==> !Eligible(routes[i], verb, DecodePath(path).value, host))
                && (r.value.Some? ==>
                      var (i, params) := r.value.value;
                      && IsResolved(routes, verb, DecodePath(path).value, host, i)
                      && params == Captures(routes[i].pattern.segments, DecodePath(path).value, map[]))
    {
      var decoded := DecodePath(path);
      if decoded.Err? {
        return Err(decoded.error);
      }
      var root := Index();
      var found := FindCandidates(root, Rows(routes), verb, decoded.value);
      var chosen := Choose(routes, found, verb, decoded.value, host);
      return Ok(chosen);
    }

    /** `allowed_methods`: the methods of the routes that reach the path, each
        once, in order of registration. */
    method AllowedMethods(path: string, host: Option<string>) returns (r: Result<seq<string>, PathError>)
      requires Valid()
      modifies this`index
      ensures Valid()
      ensures DecodePath(path).Err? ==> r == Err(DecodePath(path).error)
      ensures DecodePath(path).Ok? ==> r == Ok(ReachingVerbs(routes, DecodePath(path).value, host, |routes|))
    {
      var decoded := DecodePath(path);
      if decoded.Err? {
        return Err(decoded.error);
      }
      var root := Index();
      var found := MatchingMethods(root, Rows(routes), decoded.value);
      var verbs := CollectVerbs(routes, found, decoded.value, host);
      return Ok(verbs);
    }

    /** `scoped_middlewares`: the router middlewares of the most specific
        ordinary route that reaches the path. */
    method ScopedMiddlewares(path: string, host: Option<string>) returns (r: Result<seq<nat>, PathError>)
      requires Valid()
      modifies this`index
      ensures Valid()
      ensures DecodePath(path).Err? ==> r == Err(DecodePath(path).error)
      ensures DecodePath(path).Ok? ==> r.Ok? && GivesScope(routes, DecodePath(path).value, host, r.value)
    {
      var decoded := DecodePath(path);
      if decoded.Err? {
        return Err(decoded.error);
      }
      var root := Index();
      var found := MatchingMethods(root, Rows(routes), decoded.value);
      var scoped := ScopeOf(routes, found, decoded.value, host);
      return Ok(scoped);
    }
  }

  // ----------------------------------------------- the loops, on table values

  /** The loop of `mount`. */
  method MountBatch(routes: seq<Route>, prefix: Pattern, others: seq<Route>, scoped: seq<nat>)
    returns (r: Result<seq<Route>, RouteError>)
    requires WellFormed(prefix) && TableOk(others)
    ensures r == MountFrom(routes, prefix, others, scoped, 0, [])
  {
    var mounted: seq<Route> := [];
    for i := 0 to |others|
      invariant MountFrom(routes, prefix, others, scoped, 0, [])
             == MountFrom(routes, prefix, others, scoped, i, mounted)
    {
      var route := others[i];
      assert RouteOk(route) && StaticTexts(route.pattern.segments);
      var joined := Join(prefix, route.pattern);
      if joined.Err? {
        return Err(joined.error);
      }
      var e := ValidateInsert(routes, route.verb, joined.value, route.host, route.name);
      if e.Some? {
        return Err(e.value);
      }
      e := ValidateInsert(mounted, route.verb, joined.value, route.host, route.name);
      if e.Some? {
        return Err(e.value);
      }
      mounted := mounted + [route.(pattern := joined.value, middlewares := scoped + route.middlewares)];
    }
    return Ok(routes + mounted);
  }

  /** The candidates are the routes whose pattern and method answer. */
  ghost predicate AreCandidates(routes: seq<Route>, verb: string, path: seq<string>, found: seq<nat>) {
    && FirstsInOrder(Rows(routes), verb, found)
    && (forall i: nat :: i in found <==> i < |Rows(routes)| && Answers(Rows(routes)[i], verb, path))
  }

  /** The loop of `resolve_method` over the candidates. */
  method Choose(routes: seq<Route>, found: seq<nat>, verb: string, path: seq<string>, host: Option<string>)
    returns (r: Option<(nat, Params)>)
    requires AreCandidates(routes, verb, path, found)
    ensures r.None? <==> forall i :: 0 <= i < |routes| ==> !Eligible(routes[i], verb, path, host)
    ensures r.Some? ==>
              && IsResolved(routes, verb, path, host, r.value.0)
              && r.value.1 == Captures(routes[r.value.0].pattern.segments, path, map[])
  {
    for k := 0 to |found|
      invariant forall m :: 0 <= m < k ==> !Eligible(routes[found[m]], verb, path, host)
    {
      var i := found[k];
      var route := routes[i];
      assert i in found && Rows(routes)[i] == Row(route.verb, route.pattern.segments);
      if !HostMatches(route.host, host) {
        continue;
      }
      if verb == "HEAD" && route.verb != verb && route.kind.WebSocket? {
        continue;
      }
      var params := MatchDecodedPattern(route.pattern.segments, path);
      assert params.Some?;  // so the defensive branch of the source is dead
      FirstEligible(routes, verb, path, host, found, k);
      return Some((i, params.value));
    }
    NoneEligible(routes, verb, path, host, found);
    return None;
  }

  /** One turn of the loop of `allowed_methods`. */
  method AddVerb(routes: seq<Route>, i: nat, path: seq<string>, host: Option<string>, verbs: seq<string>)
    returns (more: seq<string>)
    requires i < |routes| && verbs == ReachingVerbs(routes, path, host, i)
    ensures more == ReachingVerbs(routes, path, host, i + 1)
  {
    var verb := routes[i].verb;
    if !HostMatches(routes[i].host, host) {
      return verbs;
    }
    var params := MatchDecodedPattern(routes[i].pattern.segments, path);
    if params.None? {
      return verbs;
    }
    return if verb != METHOD_ALL && verb !in verbs then verbs + [verb] else verbs;
  }

  /** The loop of `allowed_methods`. */
  method CollectVerbs(routes: seq<Route>, found: seq<Entry>, path: seq<string>, host: Option<string>)
    returns (verbs: seq<string>)
    requires found == Registered(Rows(routes), path, |routes|)
    ensures verbs == ReachingVerbs(routes, path, host, |routes|)
  {
    verbs := [];
    ghost var n := 0;
    for k := 0 to |found|
      invariant n == Passed(found, k) <= |routes|
      invariant verbs == ReachingVerbs(routes, path, host, n)
    {
      NoneReachesBetween(routes, path, found, k);
      var i := found[k].index;
      SkipUnreached(routes, path, host, n, i);
      n := i + 1;
      verbs := AddVerb(routes, i, path, host, verbs);
    }
    NoneReachesBetween(routes, path, found, |found|);
    SkipUnreached(routes, path, host, n, |routes|);
  }

  /** One turn of the loop of `scoped_middlewares`. */
  method ConsiderScope(routes: seq<Route>, i: nat, path: seq<string>, host: Option<string>, best: Option<nat>)
    returns (better: Option<nat>)
    requires i < |routes| && BestBelow(routes, path, host, i, best)
    ensures BestBelow(routes, path, host, i + 1, better)
  {
    if routes[i].verb == METHOD_ALL || !HostMatches(routes[i].host, host) {
      return best;
    }
    var params := MatchDecodedPattern(routes[i].pattern.segments, path);
    if params.None? {
      return best;
    }
    ReplaceBest(routes, path, host, i, best);
    return if best.None? || Better(routes, i, best.value) then Some(i) else best;
  }

  /** The loop of `scoped_middlewares`. */
  method ChooseScope(routes: seq<Route>, found: seq<Entry>, path: seq<string>, host: Option<string>)
    returns (best: Option<nat>)
    requires found == Registered(Rows(routes), path, |routes|)
    ensures BestBelow(routes, path, host, |routes|, best)
  {
    best := None;
    ghost var n := 0;
    for k := 0 to |found|
      invariant n == Passed(found, k) <= |routes|
      invariant BestBelow(routes, path, host, n, best)
    {
      var i := found[k].index;
      NoneReachesBetween(routes, path, found, k);
      BestSkips(routes, path, host, n, i, best);
      n := i + 1;
      best := ConsiderScope(routes, i, path, host, best);
    }
    NoneReachesBetween(routes, path, found, |found|);
    BestSkips(routes, path, host, n, |routes|, best);
  }

  method ScopeOf(routes: seq<Route>, found: seq<Entry>, path: seq<string>, host: Option<string>)
    returns (scoped: seq<nat>)
    requires TableOk(routes) && found == Registered(Rows(routes), path, |routes|)
    ensures GivesScope(routes, path, host, scoped)
  {
    var best := ChooseScope(routes, found, path, host);
    BestGivesScope(routes, path, host, best);
    return if best.None? then [] else ScopedPart(routes[best.value]);
  }

  // ------------------------------------------------------------------ lemmas

  lemma RowsUnchanged(routes: seq<Route>, changed: seq<Route>)
    requires |routes| == |changed|
    requires forall i :: 0 <= i < |routes| ==>
               routes[i].verb == changed[i].verb && routes[i].pattern == changed[i].pattern
    ensures Rows(routes) == Rows(changed)
  {
  }

  /** The first eligible candidate is preferred to every other eligible route. */
  lemma FirstEligible(
    routes: seq<Route>, verb: string, path: seq<string>, host: Option<string>, found: seq<nat>, k: nat)
    requires k < |found| && AreCandidates(routes, verb, path, found)
    requires Eligible(routes[found[k]], verb, path, host)
    requires forall m :: 0 <= m < k ==> !Eligible(routes[found[m]], verb, path, host)
    ensures IsResolved(routes, verb, path, host, found[k])
  {
    var i := found[k];
    assert i !in found[..k];
    forall j | 0 <= j < |routes| && j != i && Eligible(routes[j], verb, path, host)
      ensures HitLess(Precedence(Rows(routes), verb, i), Precedence(Rows(routes), verb, j))
    {
      assert j in found;
      var b := FirstPlace(found, j);
      assert k < b;
    }
  }

  lemma {:induction false} FirstPlace(s: seq<nat>, x: nat) returns (k: nat)
    requires x in s
    ensures k < |s| && s[k] == x && x !in s[..k]
  {
    if s[0] == x {
      k := 0;
    } else {
      var m := FirstPlace(s[1..], x);
      k := m + 1;
      assert s[..k] == [s[0]] + s[1..][..m];
    }
  }

  lemma NoneEligible(routes: seq<Route>, verb: string, path: seq<string>, host: Option<string>, found: seq<nat>)
    requires AreCandidates(routes, verb, path, found)
    requires forall m :: 0 <= m < |found| ==> !Eligible(routes[found[m]], verb, path, host)
    ensures forall i :: 0 <= i < |routes| ==> !Eligible(routes[i], verb, path, host)
  {
    forall i | 0 <= i < |routes| && Answers(Rows(routes)[i], verb, path)
      ensures !Eligible(routes[i], verb, path, host)
    {
      assert i in found;
    }
    assert forall i :: 0 <= i < |routes| ==> Rows(routes)[i] == Row(routes[i].verb, routes[i].pattern.segments);
  }

  /** The distinct methods of the first `n` routes that reach the path. */
  function ReachingVerbs(routes: seq<Route>, path: seq<string>, host: Option<string>, n: nat): seq<string>
    requires n <= |routes|
  {
    if n == 0 then []
    else
      var verbs := ReachingVerbs(routes, path, host, n - 1);
      if Reaches(routes[n - 1], path, host) && routes[n - 1].verb !in verbs then verbs + [routes[n - 1].verb] else verbs
  }

  /** The listed methods are exactly those of the reaching routes, each once. */
  lemma {:induction false} ReachingVerbsMeaning(routes: seq<Route>, path: seq<string>, host: Option<string>, n: nat)
    requires n <= |routes|
    ensures forall v :: v in ReachingVerbs(routes, path, host, n)
                  <==> exists i :: 0 <= i < n && Reaches(routes[i], path, host) && routes[i].verb == v
    ensures Distinct(ReachingVerbs(routes, path, host, n))
  {
    if n > 0 {
      ReachingVerbsMeaning(routes, path, host, n - 1);
    }
  }

  /** How many routes have been passed once `k` listed entries are handled. */
  function Passed(found: seq<Entry>, k: nat): nat
    requires k <= |found|
  {
    if k == 0 then 0 else found[k - 1].index + 1
  }

  /** Between two entries of the listing no pattern matches. */
  lemma NoneReachesBetween(routes: seq<Route>, path: seq<string>, found: seq<Entry>, k: nat)
    requires k <= |found| && found == Registered(Rows(routes), path, |routes|)
    ensures k < |found| ==>
              Passed(found, k) <= found[k].index < |routes| && found[k].verb == routes[found[k].index].verb
    ensures forall i :: Passed(found, k) <= i < (if k < |found| then found[k].index else |routes|) ==>
              !Matches(routes[i].pattern.segments, path)
  {
    var rows := Rows(routes);
    RegisteredAscending(rows, path, |rows|);
    if k < |found| {
      RegisteredMember(rows, path, |rows|, found[k]);
    }
    forall i | Passed(found, k) <= i < (if k < |found| then found[k].index else |routes|)
      ensures !Matches(routes[i].pattern.segments, path)
    {
      RegisteredMember(rows, path, |rows|, Entry(rows[i].verb, i));
      assert rows[i] == Row(routes[i].verb, routes[i].pattern.segments);
    }
  }

  lemma {:induction false} SkipUnreached(routes: seq<Route>, path: seq<string>, host: Option<string>, n: nat, m: nat)
    requires n <= m <= |routes|
    requires forall i :: n <= i < m ==> !Matches(routes[i].pattern.segments, path)
    ensures ReachingVerbs(routes, path, host, n) == ReachingVerbs(routes, path, host, m)
  {
    if n < m {
      SkipUnreached(routes, path, host, n, m - 1);
    }
  }

  /** `best` is preferred among the first `n` routes. */
  ghost predicate BestBelow(routes: seq<Route>, path: seq<string>, host: Option<string>, n: nat, best: Option<nat>)
    requires n <= |routes|
  {
    && (best.None? ==> forall i :: 0 <= i < n ==> !Reaches(routes[i], path, host))
    && (best.Some? ==>
          && best.value < n && Reaches(routes[best.value], path, host)
          && forall j :: 0 <= j < n && j != best.value && Reaches(routes[j], path, host) ==>
               Better(routes, best.value, j))
  }

  lemma BestSkips(routes: seq<Route>, path: seq<string>, host: Option<string>, n: nat, m: nat, best: Option<nat>)
    requires n <= m <= |routes| && BestBelow(routes, path, host, n, best)
    requires forall i :: n <= i < m ==> !Matches(routes[i].pattern.segments, path)
    ensures BestBelow(routes, path, host, m, best)
  {
  }

  lemma ReplaceBest(routes: seq<Route>, path: seq<string>, host: Option<string>, i: nat, best: Option<nat>)
    requires i < |routes| && BestBelow(routes, path, host, i, best) && Reaches(routes[i], path, host)
    ensures BestBelow(routes, path, host, i + 1, if best.None? || Better(routes, i, best.value) then Some(i) else best)
  {
    if best.Some? {
      BetterOrder(routes, i, best.value, i);
      forall j | 0 <= j < i && j != best.value && Reaches(routes[j], path, host)
        ensures Better(routes, i, best.value) ==> Better(routes, i, j)
      {
        BetterOrder(routes, i, best.value, j);
      }
    }
  }

  lemma ScopeUnique(routes: seq<Route>, path: seq<string>, host: Option<string>, b: nat)
    requires BestBelow(routes, path, host, |routes|, Some(b))
    ensures forall i: nat :: IsScopeOf(routes, path, host, i) <==> i == b
  {
    assert IsScopeOf(routes, path, host, b);
    forall i: nat | IsScopeOf(routes, path, host, i) ensures i == b {
      BetterOrder(routes, i, b, i);
    }
  }

  lemma BestGivesScope(routes: seq<Route>, path: seq<string>, host: Option<string>, best: Option<nat>)
    requires TableOk(routes) && BestBelow(routes, path, host, |routes|, best)
    ensures best.None? ==> GivesScope(routes, path, host, [])
    ensures best.Some? ==> RouteOk(routes[best.value]) && GivesScope(routes, path, host, ScopedPart(routes[best.value]))
  {
    if best.Some? {
      ScopeUnique(routes, path, host, best.value);
      assert IsScopeOf(routes, path, host, best.value);
      assert RouteOk(routes[best.value]);
    }
  }
}
