/**
 What registering, configuring and mounting put into a route table, field by
 field, and when each succeeds (src/app/router.rs).
 */
module Registration {
  import opened Basics
  import opened Text
  import opened Segments
  import opened Patterns
  import opened Hosts
  import opened RouteTable

  // ------------------------------------------------------------- registration

  /** A route of this method and pattern can be added: no route it clashes with. */
  ghost predicate NoClash(routes: seq<Route>, verb: string, pattern: Pattern, host: Option<HostPattern>) {
    forall k :: 0 <= k < |routes| ==> !Clashes(routes[k], verb, pattern, host)
  }

  /** The route as it was asked for, and nothing else set. */
  ghost predicate IsPlainRoute(route: Route, verb: string, pattern: Pattern, handler: nat, kind: Kind) {
    && route.verb == verb && route.pattern == pattern && route.handler == handler && route.kind == kind
    && route.middlewares == [] && route.layers == 0 && route.name.None? && route.host.None?
  }

  /** Registering succeeds exactly for a supported method, a valid path and no
      clash, and then appends that route. */
  lemma AddAppends(routes: seq<Route>, verb: string, path: ByteString, handler: nat, kind: Kind)
    ensures var r := AddRoute(routes, verb, path, handler, kind);
            && (r.Ok? <==> && !EqualIgnoringCase(verb, "CONNECT") && Parse(path).Ok?
                           && NoClash(routes, verb, Parse(path).value, None))
            && (r.Ok? ==> && |r.value| == |routes| + 1 && r.value[..|routes|] == routes
                          && IsPlainRoute(r.value[|routes|], verb, Parse(path).value, handler, kind))
  {
  }

  /** A static mount succeeds exactly when both of its routes can be added. */
  lemma StaticAppends(routes: seq<Route>, prefix: ByteString, handler: nat)
    ensures var r := AddStatic(routes, prefix, handler);
            var parsed := Parse(StaticPath(prefix));
            && (r.Ok? <==> parsed.Ok? && NoClash(routes, "GET", parsed.value, None)
                           && NoClash(routes, "HEAD", parsed.value, None))
            && (r.Ok? ==> && |r.value| == |routes| + 2 && r.value[..|routes|] == routes
                          && IsPlainRoute(r.value[|routes|], "GET", parsed.value, handler, Http)
                          && IsPlainRoute(r.value[|routes| + 1], "HEAD", parsed.value, handler, Http))
  {
  }

  /** Slashes at the end of the prefix do not matter to where files are served. */
  lemma {:induction false} StaticPathIs(base: ByteString, slashes: nat)
    requires base == "" || base[|base| - 1] != '/'
    ensures var prefix := base + seq(slashes, _ => '/');
            IsBytes(prefix) && StaticPath(prefix) == base + "/*path"
    decreases slashes
  {
    var prefix := base + seq(slashes, _ => '/');
    assert IsBytes(prefix);
    if slashes == 0 {
      assert prefix == base;
    } else {
      assert prefix[|prefix| - 1] == '/';
      assert prefix[..|prefix| - 1] == base + seq(slashes - 1, _ => '/');
      StaticPathIs(base, slashes - 1);
    }
  }

  // ---------------------------------------------------------------- the handle

  /** All but name, host, middlewares and layers. */
  ghost predicate SameRoute(a: Route, b: Route) {
    a.verb == b.verb && a.pattern == b.pattern && a.handler == b.handler && a.kind == b.kind
  }

  /** What a call on the handle of route `i` stores, and when it succeeds. */
  lemma HandleStores(routes: seq<Route>, i: nat, call: HandleCall)
    requires i < |routes|
    ensures var r := CallHandle(routes, i, call);
            r.Kept? <==>
              match call
              case SetName(name) => forall k :: 0 <= k < |routes| && k != i ==> routes[k].name != Some(name)
              case SetHost(text) =>
                ParseHost(text).Ok?
                && forall k :: 0 <= k < |routes| && k != i ==>
                     !Clashes(routes[k], routes[i].verb, routes[i].pattern, Some(ParseHost(text).value))
              case _ => true
    ensures var r := CallHandle(routes, i, call);
            r.Kept? ==>
              && |r.routes| == |routes| && SameRoute(r.routes[i], routes[i])
              && (forall k :: 0 <= k < |routes| && k != i ==> r.routes[k] == routes[k])
              && r.routes[i].name == (if call.SetName? then Some(call.name) else routes[i].name)
              && r.routes[i].host == (if call.SetHost? then Some(ParseHost(call.text).value) else routes[i].host)
              && r.routes[i].middlewares
                 == routes[i].middlewares + (if call.Layer? || call.Timeout? then [call.middleware] else [])
              && r.routes[i].layers == routes[i].layers + (if call.Layer? then 1 else 0)
  {
  }

  // ------------------------------------------------------------------ mounting

  /** The route as it is mounted: behind the prefix, and inside the middlewares
      of the router it comes from. */
  ghost predicate IsMounted(route: Route, prefix: Pattern, other: Route, scoped: seq<nat>) {
    && route.verb == other.verb && route.handler == other.handler && route.kind == other.kind
    && route.name == other.name && route.host == other.host && route.layers == other.layers
    && route.middlewares == scoped + other.middlewares
    && route.pattern.segments == prefix.segments + other.pattern.segments
  }

  /** `all` is `routes` followed by the others, mounted, in order. */
  ghost predicate MountsAll(
    routes: seq<Route>, prefix: Pattern, others: seq<Route>, scoped: seq<nat>, all: seq<Route>)
  {
    && |all| == |routes| + |others| && all[..|routes|] == routes
    && forall k :: 0 <= k < |others| ==> IsMounted(all[|routes| + k], prefix, others[k], scoped)
  }

  /** The others up to `i` have been mounted. */
  ghost predicate MountedTo(prefix: Pattern, others: seq<Route>, scoped: seq<nat>, i: nat, mounted: seq<Route>)
    requires i <= |others|
  {
    |mounted| == i && forall k :: 0 <= k < i ==> IsMounted(mounted[k], prefix, others[k], scoped)
  }

  lemma JoinSegments(prefix: Pattern, suffix: Pattern)
    requires WellFormed(prefix) && WellFormed(suffix)
    ensures Join(prefix, suffix).Ok? ==> Join(prefix, suffix).value.segments == prefix.segments + suffix.segments
  {
    ValidateIffGoodShape(prefix.segments + suffix.segments);
  }

  lemma {:induction false} MountFromAll(
    routes: seq<Route>, prefix: Pattern, others: seq<Route>, scoped: seq<nat>, i: nat, mounted: seq<Route>)
    requires i <= |others| && WellFormed(prefix) && (forall k :: 0 <= k < |others| ==> WellFormed(others[k].pattern))
    requires MountedTo(prefix, others, scoped, i, mounted)
    ensures var r := MountFrom(routes, prefix, others, scoped, i, mounted);
            r.Ok? ==> MountsAll(routes, prefix, others, scoped, r.value)
    decreases |others| - i
  {
    if i < |others| && Join(prefix, others[i].pattern).Ok? {
      JoinSegments(prefix, others[i].pattern);
      var pattern := Join(prefix, others[i].pattern).value;
      var moved := others[i].(pattern := pattern, middlewares := scoped + others[i].middlewares);
      MountFromAll(routes, prefix, others, scoped, i + 1, mounted + [moved]);
    }
  }

  /** A successful mount appends every route of the other router, mounted. */
  lemma MountAppends(routes: seq<Route>, prefix: ByteString, others: seq<Route>, scoped: seq<nat>)
    requires TableOk(others)
    ensures var r := MountRoutes(routes, prefix, others, scoped);
            r.Ok? ==> Parse(prefix).Ok? && MountsAll(routes, Parse(prefix).value, others, scoped, r.value)
  {
    if Parse(prefix).Ok? {
      ParseWellFormed(prefix);
      MountFromAll(routes, Parse(prefix).value, others, scoped, 0, []);
    }
  }

  // ------------------------------------------------------ when a mount succeeds

  /** Nothing in a sound table stands in the way of its own route `j`. */
  lemma NothingBefore(all: seq<Route>, from: nat, to: nat, j: nat)
    requires TableOk(all) && from <= to <= j < |all|
    ensures InsertError(all[from..to], all[j].verb, all[j].pattern, all[j].host, all[j].name).None?
  {
    var part := all[from..to];
    forall k | 0 <= k < |part| ensures !Clashes(part[k], all[j].verb, all[j].pattern, all[j].host) {
      assert part[k] == all[from + k] && !ClashingRoutes(all[from + k], all[j]);
    }
    forall k | 0 <= k < |part| && all[j].name.Some? ensures part[k].name != all[j].name {
      assert part[k] == all[from + k];
    }
  }

  /** A sound route with the segments of a join has that join as its pattern. */
  lemma MountedIsMoved(route: Route, prefix: Pattern, other: Route, scoped: seq<nat>)
    requires WellFormed(prefix) && WellFormed(other.pattern) && RouteOk(route)
    requires IsMounted(route, prefix, other, scoped)
    ensures var joined := Join(prefix, other.pattern);
            joined.Ok? && route == other.(pattern := joined.value, middlewares := scoped + other.middlewares)
  {
    ValidateIffGoodShape(prefix.segments + other.pattern.segments);
  }

  /** `moved` is the next route to be mounted, and nothing stands in its way. */
  ghost predicate CanMove(
    routes: seq<Route>, prefix: Pattern, other: Route, scoped: seq<nat>, mounted: seq<Route>, moved: Route)
  {
    && WellFormed(prefix) && WellFormed(other.pattern) && Join(prefix, other.pattern).Ok?
    && moved == other.(pattern := Join(prefix, other.pattern).value, middlewares := scoped + other.middlewares)
    && InsertError(routes, moved.verb, moved.pattern, moved.host, moved.name).None?
    && InsertError(mounted, moved.verb, moved.pattern, moved.host, moved.name).None?
  }

  lemma NextMounted(
    routes: seq<Route>, prefix: Pattern, others: seq<Route>, scoped: seq<nat>, i: nat, all: seq<Route>)
    requires i < |others| && WellFormed(prefix) && WellFormed(others[i].pattern)
    requires TableOk(all) && MountsAll(routes, prefix, others, scoped, all)
    ensures var n := |routes|; CanMove(routes, prefix, others[i], scoped, all[n..n + i], all[n + i])
  {
    var n := |routes|;
    var moved := all[n + i];
    assert RouteOk(moved) && IsMounted(moved, prefix, others[i], scoped);
    MountedIsMoved(moved, prefix, others[i], scoped);
    NothingBefore(all, 0, n, n + i);
    NothingBefore(all, n, n + i, n + i);
    assert all[0..n] == routes;
  }

  /** One route that can be mounted, and then the rest. */
  lemma MountStep(
    routes: seq<Route>, prefix: Pattern, others: seq<Route>, scoped: seq<nat>, i: nat, mounted: seq<Route>,
    moved: Route)
    requires i < |others| && WellFormed(prefix) && (forall k :: 0 <= k < |others| ==> WellFormed(others[k].pattern))
    requires CanMove(routes, prefix, others[i], scoped, mounted, moved)
    ensures MountFrom(routes, prefix, others, scoped, i, mounted)
         == MountFrom(routes, prefix, others, scoped, i + 1, mounted + [moved])
  {
  }

  lemma {:induction false} MountReaches(
    routes: seq<Route>, prefix: Pattern, others: seq<Route>, scoped: seq<nat>, i: nat, mounted: seq<Route>,
    all: seq<Route>)
    requires i <= |others| && WellFormed(prefix) && (forall k :: 0 <= k < |others| ==> WellFormed(others[k].pattern))
    requires |all| == |others| && mounted == all[..i]
    requires forall k {:trigger others[k]} :: 0 <= k < |others| ==>
               CanMove(routes, prefix, others[k], scoped, all[..k], all[k])
    ensures MountFrom(routes, prefix, others, scoped, i, mounted) == Ok(routes + all)
    decreases |others| - i
  {
    if i == |others| {
      assert mounted == all;
    } else {
      var next := mounted + [all[i]];
      MountReaches(routes, prefix, others, scoped, i + 1, next, all);
      MountStep(routes, prefix, others, scoped, i, mounted, all[i]);
    }
  }

  /** A mount succeeds exactly when the prefix is valid and the routes together
      with the mounted ones make a sound table. */
  lemma MountSucceedsIff(routes: seq<Route>, prefix: ByteString, others: seq<Route>, scoped: seq<nat>)
    requires TableOk(routes) && TableOk(others)
    ensures MountRoutes(routes, prefix, others, scoped).Ok?
       <==> Parse(prefix).Ok?
            && exists all :: TableOk(all) && MountsAll(routes, Parse(prefix).value, others, scoped, all)
  {
    MountOk(routes, prefix, others, scoped);
    MountAppends(routes, prefix, others, scoped);
    if Parse(prefix).Ok? {
      ParseWellFormed(prefix);
      forall all | TableOk(all) && MountsAll(routes, Parse(prefix).value, others, scoped, all)
        ensures MountRoutes(routes, prefix, others, scoped) == Ok(all)
      {
        var moved := all[|routes|..];
        forall k | 0 <= k < |others|
          ensures CanMove(routes, Parse(prefix).value, others[k], scoped, moved[..k], moved[k])
        {
          NextMounted(routes, Parse(prefix).value, others, scoped, k, all);
          assert all[|routes|..|routes| + k] == moved[..k];
        }
        MountReaches(routes, Parse(prefix).value, others, scoped, 0, [], moved);
        assert routes + moved == all;
      }
    }
  }
}
