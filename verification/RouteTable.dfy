/**
 The route table of a router: registration, static mounts, mounting another
 router, the handle that configures a just-registered route, and what
 resolution means on a table (src/app/router.rs).
 */
module RouteTable {
  import opened Basics
  import opened Text
  import opened Segments
  import opened Patterns
  import opened Hosts
  import opened RouteIndex
  import opened Specificity

  datatype Kind = Http | WebSocket

  /** `handler` and the middlewares are names of closures; `layers` counts the
      trailing middlewares added through the handle. */
  datatype Route = Route(
    verb: string,
    pattern: Pattern,
    handler: nat,
    middlewares: seq<nat>,
    layers: nat,
    kind: Kind,
    name: Option<string>,
    host: Option<HostPattern>)

  function Rows(routes: seq<Route>): seq<Row> {
    seq(|routes|, i requires 0 <= i < |routes| => Row(routes[i].verb, routes[i].pattern.segments))
  }

  // -------------------------------------------------------- table invariant

  /** Same method, same shape, and some host both would answer. */
  predicate Clashes(route: Route, verb: string, pattern: Pattern, host: Option<HostPattern>) {
    route.verb == verb && route.pattern.key == pattern.key && HostsOverlap(route.host, host)
  }

  predicate ClashingRoutes(a: Route, b: Route) {
    Clashes(a, b.verb, b.pattern, b.host)
  }

  ghost predicate RouteOk(route: Route) {
    && WellFormed(route.pattern)
    && route.layers <= |route.middlewares|
    && !EqualIgnoringCase(route.verb, "CONNECT")
  }

  ghost predicate TableOk(routes: seq<Route>) {
    && (forall i :: 0 <= i < |routes| ==> RouteOk(routes[i]))
    && (forall i, j :: 0 <= i < j < |routes| ==> !ClashingRoutes(routes[i], routes[j]))
    && (forall i, j :: 0 <= i < j < |routes| && routes[i].name.Some? ==> routes[i].name != routes[j].name)
  }

  predicate NameTaken(routes: seq<Route>, skip: int, name: string) {
    exists i :: 0 <= i < |routes| && i != skip && routes[i].name == Some(name)
  }

  /** The first clash among `routes[i..]`, skipping one position. */
  function ClashError(
    routes: seq<Route>, i: nat, skip: int, verb: string, pattern: Pattern, host: Option<HostPattern>)
    : (e: Option<RouteError>)
    requires i <= |routes|
    ensures e.None? <==> forall k :: i <= k < |routes| && k != skip ==> !Clashes(routes[k], verb, pattern, host)
    decreases |routes| - i
  {
    if i == |routes| then None
    else if i != skip && Clashes(routes[i], verb, pattern, host) then
      Some(if routes[i].pattern.rendered == pattern.rendered then DuplicateRoute else ConflictingPattern)
    else ClashError(routes, i + 1, skip, verb, pattern, host)
  }

  /** `validate_route_insert`, also used on the batch being mounted. */
  function InsertError(
    routes: seq<Route>, verb: string, pattern: Pattern, host: Option<HostPattern>, name: Option<string>)
    : Option<RouteError>
  {
    if name.Some? && NameTaken(routes, -1, name.value) then Some(DuplicateName)
    else ClashError(routes, 0, -1, verb, pattern, host)
  }

  lemma AppendOk(routes: seq<Route>, route: Route)
    requires TableOk(routes) && RouteOk(route)
    requires InsertError(routes, route.verb, route.pattern, route.host, route.name).None?
    ensures TableOk(routes + [route])
  {
  }

  // ------------------------------------------------------------ registration

  function NewRoute(verb: string, pattern: Pattern, handler: nat, kind: Kind): Route {
    Route(verb, pattern, handler, [], 0, kind, None, None)
  }

  /** `add_with_kind`. */
  function AddRoute(routes: seq<Route>, verb: string, path: ByteString, handler: nat, kind: Kind)
    : Result<seq<Route>, RouteError>
  {
    if EqualIgnoringCase(verb, "CONNECT") then Err(UnsupportedMethod)
    else
      match Parse(path)
      case Err(e) => Err(e)
      case Ok(pattern) =>
        match InsertError(routes, verb, pattern, None, None)
        case Some(e) => Err(e)
        case None => Ok(routes + [NewRoute(verb, pattern, handler, kind)])
  }

  function TrimSlashesEnd(s: ByteString): ByteString
    decreases |s|
  {
    if s != "" && s[|s| - 1] == '/' then TrimSlashesEnd(s[..|s| - 1]) else s
  }

  // What `join_paths` makes of a prefix and the catch-all suffix.
  function StaticPath(prefix: ByteString): ByteString {
    TrimSlashesEnd(prefix) + "/*path"
  }

  /** `static_files_with_options`, once the options and the root directory are accepted. */
  function AddStatic(routes: seq<Route>, prefix: ByteString, handler: nat): Result<seq<Route>, RouteError> {
    match Parse(StaticPath(prefix))
    case Err(e) => Err(e)
    case Ok(pattern) =>
      match (InsertError(routes, "GET", pattern, None, None), InsertError(routes, "HEAD", pattern, None, None))
      case (Some(e), _) => Err(e)
      case (None, Some(e)) => Err(e)
      case (None, None) =>
        Ok(routes + [NewRoute("GET", pattern, handler, Http), NewRoute("HEAD", pattern, handler, Http)])
  }

  /** `mount` from the route `i` of the other table on. */
  function MountFrom(
    routes: seq<Route>, prefix: Pattern, others: seq<Route>, scoped: seq<nat>, i: nat, mounted: seq<Route>)
    : Result<seq<Route>, RouteError>
    requires i <= |others| && WellFormed(prefix) && forall k :: 0 <= k < |others| ==> WellFormed(others[k].pattern)
    decreases |others| - i
  {
    if i == |others| then Ok(routes + mounted)
    else
      assert WellFormed(others[i].pattern) && StaticTexts(others[i].pattern.segments);
      match Join(prefix, others[i].pattern)
      case Err(e) => Err(e)
      case Ok(pattern) =>
        var moved := others[i].(pattern := pattern, middlewares := scoped + others[i].middlewares);
        match (InsertError(routes, moved.verb, pattern, moved.host, moved.name),
               InsertError(mounted, moved.verb, pattern, moved.host, moved.name))
        case (Some(e), _) => Err(e)
        case (None, Some(e)) => Err(e)
        case (None, None) => MountFrom(routes, prefix, others, scoped, i + 1, mounted + [moved])
  }

  function MountRoutes(routes: seq<Route>, prefix: ByteString, others: seq<Route>, scoped: seq<nat>)
    : Result<seq<Route>, RouteError>
    requires TableOk(others)
  {
    match Parse(prefix)
    case Err(e) => Err(e)
    case Ok(pattern) => ParseWellFormed(prefix); MountFrom(routes, pattern, others, scoped, 0, [])
  }

  lemma AddRouteOk(routes: seq<Route>, verb: string, path: ByteString, handler: nat, kind: Kind)
    requires TableOk(routes)
    ensures AddRoute(routes, verb, path, handler, kind).Ok? ==>
              TableOk(AddRoute(routes, verb, path, handler, kind).value)
  {
    ParseWellFormed(path);
    if AddRoute(routes, verb, path, handler, kind).Ok? {
      AppendOk(routes, NewRoute(verb, Parse(path).value, handler, kind));
    }
  }

  lemma AddStaticOk(routes: seq<Route>, prefix: ByteString, handler: nat)
    requires TableOk(routes)
    ensures AddStatic(routes, prefix, handler).Ok? ==> TableOk(AddStatic(routes, prefix, handler).value)
  {
    var path := StaticPath(prefix);
    ParseWellFormed(path);
    if AddStatic(routes, prefix, handler).Ok? {
      var pattern := Parse(path).value;
      var get, head := NewRoute("GET", pattern, handler, Http), NewRoute("HEAD", pattern, handler, Http);
      assert Lower("CONNECT")[0] == 'c' && Lower("GET")[0] == 'g' && Lower("HEAD")[0] == 'h';
      AppendOk(routes, get);
      AppendOk(routes + [get], head);
      assert routes + [get, head] == routes + [get] + [head];
    }
  }

  lemma {:induction false} MountFromOk(
    routes: seq<Route>, prefix: Pattern, others: seq<Route>, scoped: seq<nat>, i: nat, mounted: seq<Route>)
    requires i <= |others| && WellFormed(prefix) && TableOk(others) && TableOk(routes + mounted)
    ensures var r := MountFrom(routes, prefix, others, scoped, i, mounted); r.Ok? ==> TableOk(r.value)
    decreases |others| - i
  {
    if i < |others| {
      JoinWellFormed(prefix, others[i].pattern);
      if Join(prefix, others[i].pattern).Ok? {
        var pattern := Join(prefix, others[i].pattern).value;
        var moved := others[i].(pattern := pattern, middlewares := scoped + others[i].middlewares);
        if InsertError(routes, moved.verb, pattern, moved.host, moved.name).None?
           && InsertError(mounted, moved.verb, pattern, moved.host, moved.name).None?
        {
          InsertIntoBoth(routes, mounted, moved);
          AppendOk(routes + mounted, moved);
          assert routes + mounted + [moved] == routes + (mounted + [moved]);
          MountFromOk(routes, prefix, others, scoped, i + 1, mounted + [moved]);
        }
      }
    }
  }

  lemma InsertIntoBoth(routes: seq<Route>, mounted: seq<Route>, route: Route)
    requires InsertError(routes, route.verb, route.pattern, route.host, route.name).None?
    requires InsertError(mounted, route.verb, route.pattern, route.host, route.name).None?
    ensures InsertError(routes + mounted, route.verb, route.pattern, route.host, route.name).None?
  {
    var all := routes + mounted;
    forall k | 0 <= k < |all| ensures !Clashes(all[k], route.verb, route.pattern, route.host) {
      if k < |routes| {
        assert all[k] == routes[k];
      } else {
        assert all[k] == mounted[k - |routes|];
      }
    }
    if route.name.Some? && NameTaken(all, -1, route.name.value) {
      var k :| 0 <= k < |all| && all[k].name == route.name;
      assert if k < |routes| then routes[k].name == route.name else mounted[k - |routes|].name == route.name;
    }
  }

  lemma MountOk(routes: seq<Route>, prefix: ByteString, others: seq<Route>, scoped: seq<nat>)
    requires TableOk(routes) && TableOk(others)
    ensures MountRoutes(routes, prefix, others, scoped).Ok? ==>
              TableOk(MountRoutes(routes, prefix, others, scoped).value)
  {
    if Parse(prefix).Ok? {
      ParseWellFormed(prefix);
      assert routes + [] == routes;
      MountFromOk(routes, Parse(prefix).value, others, scoped, 0, []);
    }
  }

  // ------------------------------------------------------------- the handle

  /** What can be called on the handle of a just-registered route. */
  datatype HandleCall =
    SetName(name: string) | SetHost(text: string) | Layer(middleware: nat) | Timeout(middleware: nat)

  /** The table after a call on a handle; a failed call removes the route. */
  datatype HandleResult = Kept(routes: seq<Route>) | Removed(routes: seq<Route>, error: RouteError)

  function RemoveAt(routes: seq<Route>, i: nat): seq<Route>
    requires i < |routes|
  {
    routes[..i] + routes[i + 1..]
  }

  function CallHandle(routes: seq<Route>, i: nat, call: HandleCall): HandleResult
    requires i < |routes|
  {
    var route := routes[i];
    match call
    case SetName(name) =>
      if NameTaken(routes, i, name) then Removed(RemoveAt(routes, i), DuplicateName)
      else Kept(routes[i := route.(name := Some(name))])
    case SetHost(text) =>
      (match ParseHost(text)
       case Err(e) => Removed(RemoveAt(routes, i), e)
       case Ok(host) =>
         match ClashError(routes, 0, i, route.verb, route.pattern, Some(host))
         case Some(e) => Removed(RemoveAt(routes, i), e)
         case None => Kept(routes[i := route.(host := Some(host))]))
    case Layer(m) => Kept(routes[i := route.(middlewares := route.middlewares + [m], layers := route.layers + 1)])
    case Timeout(m) => Kept(routes[i := route.(middlewares := route.middlewares + [m])])
  }

  /** A chain of calls on one handle, stopping at the first failure. */
  function CallChain(routes: seq<Route>, i: nat, calls: seq<HandleCall>): HandleResult
    requires i < |routes|
    decreases |calls|
  {
    if calls == [] then Kept(routes)
    else
      var r := CallHandle(routes, i, calls[0]);
      if r.Removed? then r else CallChain(r.routes, i, calls[1..])
  }

  /** A handle call keeps the table sound, and touches its own route only. */
  lemma CallHandleOk(routes: seq<Route>, i: nat, call: HandleCall)
    requires TableOk(routes) && i < |routes|
    ensures var r := CallHandle(routes, i, call);
            && (r.Kept? ==> |r.routes| == |routes| && r.routes == routes[i := r.routes[i]])
            && (r.Kept? ==> r.routes[i].pattern == routes[i].pattern && r.routes[i].verb == routes[i].verb)
            && (r.Removed? ==> r.routes == RemoveAt(routes, i))
            && TableOk(r.routes)
  {
    var r := CallHandle(routes, i, call);
    if r.Removed? {
      RemoveAtOk(routes, i);
    } else {
      var route := r.routes[i];
      forall k | 0 <= k < |routes| && k != i
        ensures !ClashingRoutes(routes[k], route) && !ClashingRoutes(route, routes[k])
      {
        OverlapSymmetric(routes[k].host, route.host);
        OverlapSymmetric(routes[k].host, routes[i].host);
        assert k < i ==> !ClashingRoutes(routes[k], routes[i]);
        assert i < k ==> !ClashingRoutes(routes[i], routes[k]);
      }
    }
  }

  lemma RemoveAtOk(routes: seq<Route>, i: nat)
    requires TableOk(routes) && i < |routes|
    ensures TableOk(RemoveAt(routes, i))
  {
    var rest := RemoveAt(routes, i);
    assert forall k :: 0 <= k < |rest| ==> rest[k] == routes[if k < i then k else k + 1];
  }

  /** A chain on the handle of the last route: on success only that route has
      changed, on failure the table is the one before its registration. */
  lemma {:induction false} ChainRestores(table: seq<Route>, route: Route, calls: seq<HandleCall>)
    requires TableOk(table + [route])
    ensures var r := CallChain(table + [route], |table|, calls);
            && TableOk(r.routes)
            && (r.Removed? ==> r.routes == table)
            && (r.Kept? ==> |r.routes| == |table| + 1 && r.routes[..|table|] == table)
    decreases |calls|
  {
    var routes := table + [route];
    if calls != [] {
      CallHandleOk(routes, |table|, calls[0]);
      var r := CallHandle(routes, |table|, calls[0]);
      if r.Kept? {
        var next := r.routes[|table|];
        assert r.routes == table + [next];
        ChainRestores(table, next, calls[1..]);
      } else {
        assert RemoveAt(routes, |table|) == table;
      }
    } else {
      assert routes[..|table|] == table;
    }
  }

  /** How many calls in the chain set a timeout. */
  function TimeoutCalls(calls: seq<HandleCall>): nat {
    if calls == [] then 0 else (if calls[0].Timeout? then 1 else 0) + TimeoutCalls(calls[1..])
  }

  /** The middlewares that `scoped_middlewares` keeps of a route. */
  function ScopedPart(route: Route): seq<nat>
    requires route.layers <= |route.middlewares|
  {
    route.middlewares[..|route.middlewares| - route.layers]
  }

  lemma PrefixOfPrefix(s: seq<nat>, i: nat, j: nat)
    requires i <= j <= |s|
    ensures s[..i] == s[..j][..i]
  {
  }

  lemma {:induction false} ChainGrows(table: seq<Route>, route: Route, calls: seq<HandleCall>)
    requires TableOk(table + [route])
    ensures var r := CallChain(table + [route], |table|, calls);
            r.Kept? ==>
              && |r.routes| == |table| + 1 && RouteOk(r.routes[|table|])
              && |ScopedPart(r.routes[|table|])| == |route.middlewares| - route.layers + TimeoutCalls(calls)
              && |route.middlewares| <= |r.routes[|table|].middlewares|
              && r.routes[|table|].middlewares[..|route.middlewares|] == route.middlewares
    decreases |calls|
  {
    var routes := table + [route];
    assert routes[|table|] == route && RouteOk(route);
    if calls != [] {
      CallHandleOk(routes, |table|, calls[0]);
      var r := CallHandle(routes, |table|, calls[0]);
      if r.Kept? {
        var next := r.routes[|table|];
        assert r.routes == table + [next];
        ChainGrows(table, next, calls[1..]);
        var last := CallChain(r.routes, |table|, calls[1..]);
        if last.Kept? {
          PrefixOfPrefix(last.routes[|table|].middlewares, |route.middlewares|, |next.middlewares|);
        }
      }
    }
  }

  /** A synthesised response is wrapped by the router middlewares only, and not
      by those of the route, if and only if the chain sets no timeout: a
      timeout adds a middleware without counting it as a layer. */
  lemma ScopeExcludesRouteLayersIff(table: seq<Route>, route: Route, calls: seq<HandleCall>)
    requires TableOk(table + [route]) && route.layers == 0
    ensures var r := CallChain(table + [route], |table|, calls);
            r.Kept? ==> |r.routes| == |table| + 1 && RouteOk(r.routes[|table|])
                        && (ScopedPart(r.routes[|table|]) == route.middlewares <==> TimeoutCalls(calls) == 0)
  {
    ChainGrows(table, route, calls);
  }

  /** The smallest case: one route at the root whose chain sets one timeout; the
      timeout is among the middlewares kept for synthesised responses. */
  lemma TimeoutEntersScope()
    ensures var route := NewRoute("GET", FromSegments([], []), 0, Http);
            var r := CallChain([route], 0, [Timeout(7)]);
            && TableOk([route]) && route.middlewares == []
            && r.Kept? && |r.routes| == 1 && RouteOk(r.routes[0]) && ScopedPart(r.routes[0]) == [7]
  {
    var route := NewRoute("GET", FromSegments([], []), 0, Http);
    ValidateIffGoodShape([]);
    assert Lower("GET")[0] != Lower("CONNECT")[0];
    var calls := [Timeout(7)];
    var after := CallHandle([route], 0, calls[0]);
    assert calls[1..] == [];
    assert CallChain(after.routes, 0, []) == after;
    assert after.routes[0].middlewares == [7];
  }

  // ------------------------------------------------------ whole registrations

  /** One statement of a program that builds a router. */
  datatype Registration =
    | Register(verb: string, path: ByteString, handler: nat, kind: Kind, calls: seq<HandleCall>)
    | ServeStatic(prefix: ByteString, handler: nat)
    | Mount(prefix: ByteString, inner: seq<Registration>, scoped: seq<nat>)

  /** The table after a statement, and its error if it failed. */
  function Perform(routes: seq<Route>, statement: Registration): (r: (seq<Route>, Option<RouteError>))
    requires TableOk(routes)
    ensures TableOk(r.0)
    decreases statement, 0
  {
    match statement
    case Register(verb, path, handler, kind, calls) =>
      (match AddRoute(routes, verb, path, handler, kind)
       case Err(e) => (routes, Some(e))
       case Ok(more) =>
         AddRouteOk(routes, verb, path, handler, kind);
         ChainRestores(routes, more[|routes|], calls);
         match CallChain(more, |routes|, calls)
         case Kept(kept) => (kept, None)
         case Removed(left, e) => (left, Some(e)))
    case ServeStatic(prefix, handler) =>
      (match AddStatic(routes, prefix, handler)
       case Err(e) => (routes, Some(e))
       case Ok(more) => AddStaticOk(routes, prefix, handler); (more, None))
    case Mount(prefix, inner, scoped) =>
      (match MountRoutes(routes, prefix, RunFrom([], inner, 0), scoped)
       case Err(e) => (routes, Some(e))
       case Ok(more) => MountOk(routes, prefix, RunFrom([], inner, 0), scoped); (more, None))
  }

  /** A program: every statement runs, whether or not an earlier one failed.
      Every table a program builds has well-formed patterns, no two routes that
      could answer one request with equal precedence, and unique names. */
  function RunFrom(routes: seq<Route>, program: seq<Registration>, i: nat): (r: seq<Route>)
    requires TableOk(routes) && i <= |program|
    ensures TableOk(r)
    decreases program, |program| - i
  {
    if i == |program| then routes else RunFrom(Perform(routes, program[i]).0, program, i + 1)
  }

  /** A failed statement leaves the table as it was before it. */
  lemma FailureRestores(routes: seq<Route>, statement: Registration)
    requires TableOk(routes)
    ensures Perform(routes, statement).1.Some? ==> Perform(routes, statement).0 == routes
    ensures Perform(routes, statement).1.None? ==>
              |routes| <= |Perform(routes, statement).0| && Perform(routes, statement).0[..|routes|] == routes
  {
    match statement {
      case Register(verb, path, handler, kind, calls) =>
        if AddRoute(routes, verb, path, handler, kind).Ok? {
          AddRouteOk(routes, verb, path, handler, kind);
          ChainRestores(routes, AddRoute(routes, verb, path, handler, kind).value[|routes|], calls);
        }
      case ServeStatic(_, _) =>
      case Mount(prefix, inner, scoped) =>
        if Parse(prefix).Ok? {
          ParseWellFormed(prefix);
          MountExtends(routes, Parse(prefix).value, RunFrom([], inner, 0), scoped, 0, []);
        }
    }
  }

  lemma {:induction false} MountExtends(
    routes: seq<Route>, prefix: Pattern, others: seq<Route>, scoped: seq<nat>, i: nat, mounted: seq<Route>)
    requires i <= |others| && WellFormed(prefix) && forall k :: 0 <= k < |others| ==> WellFormed(others[k].pattern)
    ensures var r := MountFrom(routes, prefix, others, scoped, i, mounted);
            r.Ok? ==> |routes| <= |r.value| && r.value[..|routes|] == routes
    decreases |others| - i
  {
    if i < |others| && Join(prefix, others[i].pattern).Ok? {
      var pattern := Join(prefix, others[i].pattern).value;
      var moved := others[i].(pattern := pattern, middlewares := scoped + others[i].middlewares);
      MountExtends(routes, prefix, others, scoped, i + 1, mounted + [moved]);
    }
  }

  // --------------------------------------------------------------- resolving

  /** The route may answer the request: pattern, method and host agree, and a
      HEAD request does not borrow a WebSocket route. */
  predicate Eligible(route: Route, verb: string, path: seq<string>, host: Option<string>) {
    && Answers(Row(route.verb, route.pattern.segments), verb, path)
    && HostMatches(route.host, host)
    && !(verb == "HEAD" && route.verb != verb && route.kind.WebSocket?)
  }

  /** The precedence of a route apart from its registration order. */
  function Standing(route: Route, verb: string): Hit {
    Hit(Codes(route.pattern.segments), BestRank(route.verb, verb), 0)
  }

  /** Route `i` is the preferred eligible route. */
  ghost predicate IsResolved(routes: seq<Route>, verb: string, path: seq<string>, host: Option<string>, i: nat) {
    && i < |routes|
    && Eligible(routes[i], verb, path, host)
    && (forall j :: 0 <= j < |routes| && j != i && Eligible(routes[j], verb, path, host) ==>
          HitLess(Precedence(Rows(routes), verb, i), Precedence(Rows(routes), verb, j)))
  }

  lemma SameRankSameVerb(a: string, b: string, verb: string)
    requires MethodRanks(a, verb) != {} && MethodRanks(b, verb) != {} && BestRank(a, verb) == BestRank(b, verb)
    ensures a == b
  {
  }

  /** Two routes of a sound table that are eligible for one request never tie. */
  lemma NeverTie(routes: seq<Route>, verb: string, path: seq<string>, host: Option<string>, i: nat, j: nat)
    requires TableOk(routes) && i < |routes| && j < |routes| && i != j
    requires Eligible(routes[i], verb, path, host) && Eligible(routes[j], verb, path, host)
    ensures Standing(routes[i], verb) != Standing(routes[j], verb)
  {
    var a, b := routes[i], routes[j];
    if Standing(a, verb) == Standing(b, verb) {
      SameRankSameVerb(a.verb, b.verb, verb);
      SameCodesSameShape(a.pattern.segments, b.pattern.segments, path);
      assert RouteOk(a) && RouteOk(b);
      ValidateIffGoodShape(a.pattern.segments);
      ValidateIffGoodShape(b.pattern.segments);
      if a.host.Some? && b.host.Some? {
        CommonHostOverlaps(a.host, b.host, NormalizeHost(host.value).value);
        CommonHostOverlaps(b.host, a.host, NormalizeHost(host.value).value);
      }
      assert ClashingRoutes(a, b) && ClashingRoutes(b, a);
    }
  }

  /** In a sound table the preferred route wins on its standing alone. */
  lemma ResolvedByStanding(routes: seq<Route>, verb: string, path: seq<string>, host: Option<string>, i: nat, j: nat)
    requires TableOk(routes) && IsResolved(routes, verb, path, host, i)
    requires j < |routes| && j != i && Eligible(routes[j], verb, path, host)
    ensures HitLess(Standing(routes[i], verb), Standing(routes[j], verb))
  {
    NeverTie(routes, verb, path, host, i, j);
    assert HitLess(Precedence(Rows(routes), verb, i), Precedence(Rows(routes), verb, j));
  }

  /** The resolved route does not depend on the order of registration. */
  lemma ResolutionIgnoresOrder(
    routes: seq<Route>, other: seq<Route>, verb: string, path: seq<string>, host: Option<string>, i: nat, j: nat)
    requires TableOk(routes) && multiset(routes) == multiset(other)
    requires IsResolved(routes, verb, path, host, i) && IsResolved(other, verb, path, host, j)
    ensures routes[i] == other[j]
  {
    SoundInAnyOrder(routes, other);
    if routes[i] != other[j] {
      assert other[j] in multiset(other) && routes[i] in multiset(routes);
      var k :| 0 <= k < |routes| && routes[k] == other[j];
      var l :| 0 <= l < |other| && other[l] == routes[i];
      ResolvedByStanding(routes, verb, path, host, i, k);
      ResolvedByStanding(other, verb, path, host, j, l);
      HitLessStrictOrder(Standing(routes[i], verb), Standing(other[j], verb), Standing(routes[i], verb));
    }
  }

  /** Soundness of a table does not depend on its order either. */
  lemma SoundInAnyOrder(routes: seq<Route>, other: seq<Route>)
    requires TableOk(routes) && multiset(routes) == multiset(other)
    ensures TableOk(other)
  {
    forall i | 0 <= i < |other| ensures RouteOk(other[i]) {
      assert other[i] in multiset(routes);
      var k :| 0 <= k < |routes| && routes[k] == other[i];
    }
    forall i, j | 0 <= i < j < |other|
      ensures !ClashingRoutes(other[i], other[j])
      ensures other[i].name.Some? ==> other[i].name != other[j].name
    {
      var k, l := TwoPlaces(routes, other, i, j);
      OverlapSymmetric(other[i].host, other[j].host);
      assert k < l ==> !ClashingRoutes(routes[k], routes[l]);
      assert l < k ==> !ClashingRoutes(routes[l], routes[k]);
    }
  }

  /** Two positions of one ordering hold the routes of two positions of the other. */
  lemma TwoPlaces(routes: seq<Route>, other: seq<Route>, i: nat, j: nat) returns (k: nat, l: nat)
    requires multiset(routes) == multiset(other) && i < j < |other|
    ensures k < |routes| && l < |routes| && k != l && routes[k] == other[i] && routes[l] == other[j]
  {
    var a, b := other[i], other[j];
    assert a in multiset(routes) && b in multiset(routes);
    k :| 0 <= k < |routes| && routes[k] == a;
    if a != b {
      l :| 0 <= l < |routes| && routes[l] == b;
    } else {
      CountTwo(other, i, j);
      k, l := TwoPositions(routes, a);
    }
  }

  lemma CountTwo<T>(s: seq<T>, i: nat, j: nat)
    requires i < j < |s| && s[i] == s[j]
    ensures multiset(s)[s[i]] >= 2
  {
    assert s == s[..j] + s[j..];
    assert s[..j][i] == s[i] && s[j..][0] == s[j];
    assert s[i] in multiset(s[..j]) && s[j] in multiset(s[j..]);
  }

  lemma {:induction false} TwoPositions<T>(s: seq<T>, a: T) returns (k: nat, l: nat)
    requires multiset(s)[a] >= 2
    ensures k < |s| && l < |s| && k != l && s[k] == a && s[l] == a
  {
    assert s == [s[0]] + s[1..];
    if s[0] == a {
      assert a in multiset(s[1..]);
      var m :| 0 <= m < |s[1..]| && s[1..][m] == a;
      k, l := 0, m + 1;
    } else {
      var m, n := TwoPositions(s[1..], a);
      k, l := m + 1, n + 1;
    }
  }
}
