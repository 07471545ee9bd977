# A verified model of the web framework core

This project models the parts of the framework in which correctness is decided
by the code itself rather than by a library, and proves what those parts
promise. Every file is a Dafny module; `dafny verify dfyconfig.toml` checks
them all.

| component | files |
|---|---|
| Route index against linear matching | `Segments`, `RouteIndex`, `RouteListing` |
| Patterns, URLs, hosts, specificity | `Patterns`, `Urls`, `Hosts`, `HostLaws`, `Specificity` |
| Route table and router | `RouteTable`, `Registration`, `Router` (module `Routing`) |
| HTTP/1 head inspector | `Http1Head`, `Http1Machine`, `Http1Runs`, `Http1Refusals`, `Http1Splits`, `Http1Io` |
| HTTP/2 preface detection | `Preface`, `PrefaceLaws` |
| Session store | `SessionData`, `SessionStore`, `SessionLaws`, `SessionSteps` |
| Multipart parser | `Delimiters`, `PartHeaders`, `HeaderLaws`, `BareParameters`, `Multipart`, `MultipartLaws`, `HeaderRegions` |
| Rate limiter | `RateLimit` |
| Response finalisation | `Finalization`, `ResponseLaws`, `Responses` |
| Shared text and option types | `Text`, `Basics` |

A Rust `str` is a Dafny `string` of bytes (`Text.IsBytes`), with UTF-8 validity
stated where it matters. Code that works by loops and assignments is modelled
by methods with loops, and objects with mutable fields by classes; each is
proved against a specification function or relation, and the promises are
lemmas about that specification.

What is a parameter of the model:

- the head parser library (`Http1Head.Library`), any function that meets the
  laws in `Http1Head.LibraryLaws`; `Http1Io.Simple` is one that does;
- the session id hash (`Store.hash`, `Config.shardOf`), any function;
- the clock, an argument of every operation that reads it;
- the accepted WebSocket keys and the text of the problem document
  (`Finalization.Env`);
- handlers and middlewares, which are numbers.

Main results, with the member that states each:

1. The work-stack search of the trie returns exactly the routes a linear scan
   would, each once, in precedence order (`RouteIndex.FindCandidates`); a cached
   index is never stale (`Routing.Router`); two eligible routes never tie, so
   resolution does not depend on the order of registration
   (`RouteTable.NeverTie`, `RouteTable.ResolutionIgnoresOrder`). A mount appends
   every route of the other router under its prefix, or nothing; it succeeds if
   and only if the result is a sound table (`Registration.MountAppends`,
   `Registration.MountSucceedsIff`).
2. Rendering and parsing patterns, and building and routing URLs, are inverse
   (`Patterns.ParseRendered`, `Patterns.JoinIsConcatenation`,
   `Urls.UrlRoundTrip`).
3. The verdicts on HTTP/1 heads do not depend on how the bytes were split into
   reads if and only if every head whose verdict matters fits the buffer and no
   verdict can be lost (`Http1Splits.SameVerdictsIff`). On every run request `n`
   has the verdict that explains head `n` (`Http1Runs.EveryRunOk`,
   `Http1Runs.EveryRequestExplained`); what each verdict says of the fields is an
   if-and-only-if (`Http1Head.VerdictIff`), and a request with both
   Transfer-Encoding and Content-Length is answered 400 and is the last
   (`Http1Refusals.BothFieldsRefused`).
4. The sharded session store, called in any sequence, cannot be told from one
   map with sliding deadlines and one of rotation records
   (`SessionStore.Store.PerformAll`). On every run of that map a value that was
   set is the value read until its deadline (`SessionLaws.SetIsRead`), and `set`
   succeeds if and only if the limits allow it (`SessionLaws.SetStoresIff`).
   Under every interleaving of its lock
   regions and atomic operations its counter balances and never underflows, and
   neither the counter nor the stored entries exceed the limit
   (`SessionSteps.EveryInterleavingBalances`).
5. A multipart body is accepted as a list of parts if and only if it can be cut
   into them by the grammar and the limits (`MultipartLaws.AcceptedIff`).
   Parsing a printed multipart body gives the parts back if and only if no data
   holds a delimiter line (`Multipart.ParseUndoesPrintIff`). The data of an
   accepted body never holds a delimiter line (`Multipart.AcceptedSpans`); its
   headers never do if and only if no delimiter line of the boundary reads as a
   header (`HeaderRegions.EveryLineCutsIff`).
6. The bounded rate limiter answers as an ideal one while its clients fit
   (`RateLimit.SameAnswersAsIdeal`), and a rejected client that waits as told is
   admitted if and only if there is room for it (`RateLimit.RetryAdmittedIff`).
7. Finalising a response is idempotent and always leaves sound framing, trailers
   included (`Finalization.FinalizeIdempotent`, `Finalization.FinalizeSettles`,
   `Finalization.TrailersFrameNothing`). It keeps what the handler built if that
   can be sent, and sends the problem document with status 500 otherwise
   (`ResponseLaws.FinalizeKeeps`).

Properties that one might expect and that fail, each with the exact condition
under which they hold and an input on which they fail:

- A request method of literally `*` lists an `all()` route twice, if and only if
  one matches (`RouteIndex.StarRepeats`, `RouteIndex.StarListsTwice`).
- The order of `scoped_middlewares` is not the order of the trie when a
  wildcard absorbs the empty suffix (`Specificity.OrdersAgreeExcept`,
  `Specificity.OrdersDisagreeOnEmptySuffix`). The comment at
  src/app/router.rs:1502-1503 says that the two orders agree; the model follows
  the code.
- A middleware set by `RouteHandle::timeout` is counted among those of the
  router, although the comment at src/app/router.rs:402-403 says that all the
  others come from mounted routers; the model follows the code
  (`RouteTable.ScopeExcludesRouteLayersIff`, `RouteTable.TimeoutEntersScope`).
- Verdicts on heads depend on the reads, if and only if a head whose verdict
  matters is longer than `max_head_bytes` (`Http1Io.LongHeadDependsOnReads`) or
  the final Terminal of a short head can be lost (`Http1Splits.Loses`). It can be
  lost when the head is unfinished and only the blank lines before it bring it to
  the limit (`Http1Io.BlankLinesDependOnReads`), and when the head is malformed,
  its terminator has not arrived, and a read can end inside a blank line before
  it or behind a first byte that is not malformed yet
  (`Http1Io.CutBlankLineDependsOnReads`). `Http1Splits.SameVerdictsIff` has both
  directions.
- A request with both framing fields is answered 400 on every run if and only if
  its head fits `max_head_bytes` (`Http1Refusals.BothFieldsRefusedIff`,
  `Http1Refusals.LongHeadServed`). The model lets the HTTP library dispatch any
  request; the comment at src/app/http1.rs:124-126 asks for that library to be
  given the same limit, which excludes the other case.
- A delimiter line among the headers of a part is taken for a header, and the
  parts it separates are run together, if the boundary has a colon and only
  token bytes before its first one (`HeaderRegions.EveryLineCutsIff`,
  `HeaderRegions.SwallowedExample`).
- A client that waits the advertised time can still be refused, if and only if
  it has no bucket, the buckets are all in use and the shared one is used up
  (`RateLimit.RetryAdmittedIff`, `RateLimit.RetryCanFailWhenCrowded`); and the
  largest request limit never limits (`RateLimit.AdmittedInWindow`).
- HEAD and GET have equal headers exactly when the response given to finalisation
  announces no trailers: it has none, or it cannot be finalised, has no content
  or declares a length (`Finalization.HeadMatchesGet`, `Finalization.Announces`,
  `Finalization.TrailerMissesHead`).

## Model

| member | source | states |
|---|---|---|
| `Segments.MatchDecodedPattern` | src/app/router.rs:567-603 | the cursor loop accepts exactly the matching paths and captures by position, the wildcard taking the joined rest |
| `Segments.MatchesIsPointwise` | src/app/router.rs:567-603 | matching is position by position: statics equal, parameters any one segment, a wildcard the possibly empty rest |
| `RouteIndex.Build` | src/app/trie.rs:34-53 | the index of a table is the insertion of its rows in order |
| `RouteIndex.SearchAfterInsert` | src/app/trie.rs:34-108 | inserting a route adds to every search exactly the hits of that route |
| `RouteIndex.SearchIndexed` | src/app/trie.rs:34-108 | a search of the built index finds a hit if and only if some row contributes it |
| `RouteIndex.SearchSorted` | src/app/trie.rs:88-131 | hits come strictly sorted by branch codes, method rank and registration index |
| `RouteIndex.PushMatching` | src/app/trie.rs:110-131 | the filtering loops append exact, then GET-for-HEAD, then `all()` entries in order |
| `RouteIndex.CollectCandidates` | src/app/trie.rs:76-108 | the work-stack loop terminates and finds what the recursive search finds, in the same order |
| `RouteIndex.CandidateListUnique` | src/app/trie.rs:76-131 | the table leaves one candidate list only: any two with the same members are equal |
| `RouteIndex.FindCandidates` | src/app/trie.rs:59-63 | for every method but `*`: exactly the answering routes, once each, in precedence order; distinct if and only if the method is not `*` or no `all()` route matches |
| `RouteIndex.StarRepeats` | src/app/trie.rs:110-131 | for the method `*`: the list has a repetition if and only if an `all()` route matches |
| `RouteIndex.StarListsTwice` | src/app/trie.rs:110-131 | one `all()` route at the root, asked for by `*`, is listed as `[0, 0]` |
| `RouteListing.CollectMethods` | src/app/trie.rs:133-153 | the work-stack loop lists what the recursive listing lists |
| `RouteListing.ListingAfterInsert` | src/app/trie.rs:34-153 | inserting a route adds its entry to a listing once if it matches and not otherwise |
| `RouteListing.MatchingMethods` | src/app/trie.rs:68-73 | every route whose pattern matches, once, in order of registration |
| `RouteListing.RegisteredMember` | src/app/trie.rs:68-73 | an entry is listed if and only if its own row matches the path |
| `Patterns.EncodePathSegment` | src/app/router.rs:1464-1474 | the loop computes the percent coding of the bytes |
| `Patterns.ValidatePercentTriplets` | src/app/router.rs:616-633 | the loop accepts exactly the texts whose percent signs all start a hexadecimal triplet |
| `Patterns.DecodeEncode` | src/app/router.rs:605-633 | encoded text is valid and decodes to the original (section 2.1 of RFC 3986) |
| `Patterns.ParsePattern` | src/app/router.rs:216-254 | the parsing loop computes the segment-wise parse, with its first error |
| `Patterns.ValidateIffGoodShape` | src/app/router.rs:327-358 | validation accepts exactly: at most 256 segments, good and distinct names, a wildcard last only |
| `Patterns.ParseWellFormed` | src/app/router.rs:216-272 | every parsed pattern is well formed |
| `Patterns.JoinWellFormed` | src/app/router.rs:274-278 | every accepted join is well formed |
| `Patterns.ParseRendered` | src/app/router.rs:1542-1562 | parsing the canonical text of a pattern gives the same segments, names and conflict key |
| `Patterns.JoinIsConcatenation` | src/app/router.rs:274-278 | joining gives the pattern, or the error, of parsing the two canonical texts one after the other |
| `Urls.BuildUrl` | src/app/router.rs:1392-1462 | a URL if and only if every name has a value, none is extra and no `:name` value is empty; otherwise which error |
| `Urls.UrlLoop` | src/app/router.rs:1429-1462 | the loop prints the URL or stops at the first empty parameter |
| `Urls.UrlRoundTrip` | src/app/router.rs:1392-1474 | a built URL decodes if and only if its values are control-free and it has at most 256 segments; then it matches and captures the given values, wildcards without empty pieces |
| `Urls.UrlDecodes` | src/app/router.rs:559-614 | a built URL decodes to the texts it was built from |
| `Hosts.OverlapSymmetric` | src/app/router.rs:1373-1390 | overlap of host constraints is symmetric |
| `Hosts.OverlapIffCommonHost` | src/app/router.rs:1373-1390 | two constraints that `HostPattern::parse` returns overlap if and only if some request host answers both |
| `Hosts.HostBelow` | src/app/router.rs:433-522 | every accepted wildcard has a request host that normalises to a subdomain of its suffix |
| `HostLaws.CaseIgnored` | src/app/router.rs:478-498 | hosts that differ in case only are one host |
| `HostLaws.PortIgnored` | src/app/router.rs:478-522 | a numeric port behind a name without colons does not matter; the host is the name in lower case |
| `HostLaws.MatchingIgnoresCaseAndPort` | src/app/router.rs:459-522 | so every constraint answers `host`, other spellings of it and `host:port` alike, and an exact one answers it if and only if it is that host in lower case |
| `Specificity.SameCodesSameShape` | src/app/router.rs:1502-1513 | on one path, equal branch codes mean equal conflict keys |
| `Specificity.OrdersAgreeExcept` | src/app/router.rs:1502-1513 | the specificity key orders two matching shapes as the trie does if and only if neither is the other plus a trailing wildcard; in that case they disagree |
| `Specificity.OrdersDisagreeOnEmptySuffix` | src/app/router.rs:1242-1277 | the smallest such disagreement |
| `RouteTable.ClashError` | src/app/router.rs:1041-1086 | a clash is reported if and only if a route of the same method and shape with an overlapping host exists |
| `RouteTable.AddRouteOk` | src/app/router.rs:955-995 | adding keeps the table sound |
| `RouteTable.AddStaticOk` | src/app/router.rs:907-941 | a static mount keeps the table sound |
| `RouteTable.MountOk` | src/app/router.rs:1001-1039 | mounting keeps the table sound |
| `RouteTable.CallHandleOk` | src/app/router.rs:1581-1641 | a handle call keeps the table sound and touches its own route only; a failed one removes exactly that route |
| `Registration.AddAppends` | src/app/router.rs:955-995 | adding succeeds if and only if the method is not CONNECT, the path parses and nothing clashes; then the table is the old one and that route, with its handler and kind, no host, name or middleware |
| `Registration.StaticAppends` | src/app/router.rs:907-941 | a static mount succeeds if and only if both of its routes can be added, and appends them, GET first |
| `Registration.StaticPathIs` | src/app/router.rs:907-941 | trailing slashes of the prefix do not matter: files are served under `base/*path` |
| `Registration.HandleStores` | src/app/router.rs:1581-1641 | a call on a handle succeeds if and only if the name is free, or the host is valid and clashes with nothing, or it sets neither; it then changes that one field of that one route |
| `Registration.MountAppends` | src/app/router.rs:1001-1039 | a successful mount is the old table and, in order, every route of the other one: same method, handler, kind, host, name and layer count, segments behind those of the prefix, middlewares behind those of the other router |
| `Registration.MountSucceedsIff` | src/app/router.rs:1001-1039 | a mount succeeds if and only if the prefix parses and the routes so mounted make a sound table with the old ones |
| `RouteTable.ChainRestores` | src/app/router.rs:1581-1633 | a failed handle chain leaves the table from before its registration |
| `RouteTable.ScopeExcludesRouteLayersIff` | src/app/router.rs:1636-1641 | the scoped middlewares are those of the router if and only if the chain sets no timeout |
| `RouteTable.TimeoutEntersScope` | src/app/router.rs:1636-1641 | a chain with one timeout puts that timeout among the scoped middlewares of a route that had none |
| `RouteTable.Perform` | src/app/router.rs:907-1121 | every registration statement, failed or not, leaves a sound table |
| `RouteTable.RunFrom` | src/app/router.rs:907-1121 | so does every program of statements |
| `RouteTable.FailureRestores` | src/app/router.rs:1321-1364 | a failed statement leaves the table as it was; a successful one only appends |
| `RouteTable.NeverTie` | src/app/router.rs:1138-1176 | two routes of a sound table that are eligible for one request have different precedence |
| `RouteTable.ResolutionIgnoresOrder` | src/app/router.rs:1138-1176 | the resolved route is the same for every permutation of the table |
| `RouteTable.SoundInAnyOrder` | src/app/router.rs:1041-1086 | every permutation of a sound table is sound |
| `Routing.FindClash` | src/app/router.rs:1041-1121 | the loop finds the first clash, skipping the route under update |
| `Routing.ValidateInsert` | src/app/router.rs:1041-1086 | the error of an insertion, names checked as the code orders them |
| `Routing.Router.Index` | src/app/router.rs:741-749 | the cached index equals the build of the current routes |
| `Routing.Router.AddMiddleware` | src/app/router.rs:870-872 | one more router middleware; routes and index untouched |
| `Routing.Router.Add` | src/app/router.rs:955-995 | the new table, or the old one with the error; the cache stays exact |
| `Routing.Router.StaticFiles` | src/app/router.rs:907-941 | both routes of a static mount or neither |
| `Routing.Router.MountRouter` | src/app/router.rs:1001-1039 | all mounted routes or none, the table being the one `Registration.MountAppends` describes; the other router is untouched |
| `Routing.Router.Remove` | src/app/router.rs:1581-1585 | the table without that route; the cache stays exact |
| `Routing.Router.SetRouteName` | src/app/router.rs:1605-1620 | the named table, or the table without the route on a duplicate |
| `Routing.Router.SetRouteHost` | src/app/router.rs:1622-1633 | the updated table, or the table without the route on a bad or clashing host |
| `Routing.Router.AddRouteLayer` | src/app/router.rs:1589-1594 | one more middleware, counted as a layer |
| `Routing.Router.AddRouteTimeout` | src/app/router.rs:1636-1641 | one more middleware, not counted as a layer |
| `Routing.Router.Resolve` | src/app/router.rs:1138-1176 | the preferred eligible route with its captures, none if and only if no route is eligible; the defensive branch is dead |
| `Routing.Router.AllowedMethods` | src/app/router.rs:1279-1299 | the methods of the reaching routes, in order of registration |
| `Routing.ReachingVerbsMeaning` | src/app/router.rs:1279-1299 | exactly those methods, each once |
| `Routing.Router.ScopedMiddlewares` | src/app/router.rs:1245-1277 | the router middlewares of the most specific route that reaches the path, which exists whenever some route does; none otherwise |
| `Routing.MountBatch` | src/app/router.rs:1001-1039 | the mounting loop, with the first error it meets; what it mounts and when it succeeds are `Registration.MountAppends` and `Registration.MountSucceedsIff` |
| `Routing.Choose` | src/app/router.rs:1138-1176 | the first candidate whose host admits the request is the preferred eligible route |
| `Routing.CollectVerbs` | src/app/router.rs:1279-1299 | the loop lists each method once |
| `Routing.ChooseScope` | src/app/router.rs:1245-1277 | the loop keeps the greatest key, the earliest on equal ones |
| `Http1Head.TrimLeadingEmptyLines` | src/app/http1.rs:265-276 | what is skipped are the leading blank lines and nothing else |
| `Http1Head.OverlapScan` | src/app/http1.rs:282-287 | scanning again from two bytes back finds a terminator if and only if a full scan does |
| `Http1Head.ParseContentLength` | src/app/http1.rs:347-361 | the checked loop accepts exactly the lengths below the limit |
| `Http1Head.Classify` | src/app/http1.rs:291-343 | the loop over the fields gives the verdict that `VerdictIff` describes and the body length |
| `Http1Head.VerdictIff` | src/app/http1.rs:291-343 | Ambiguous if and only if both Transfer-Encoding and Content-Length are present; Persistent if and only if there is no Transfer-Encoding, no Upgrade, no CONNECT, and every Content-Length gives one number; Terminal in every other case |
| `Http1Head.PersistentFraming` | src/app/http1.rs:291-343 | a persistent head has exactly the body all its Content-Length fields give and no other framing (sections 6.1 and 6.3 of RFC 9112) |
| `Http1Head.InspectHead` | src/app/http1.rs:291-343 | parsing and classifying together |
| `Http1Head.LibraryGivesLawful` | src/app/http1.rs:291-343 | the laws of the head library carry over to the classified results |
| `Http1Head.CompletePrefix` | src/app/http1.rs:291-343 | a complete head is decided by its own bytes and by no fewer |
| `Http1Machine.ObserveTracks` | src/app/http1.rs:146-257 | after every read the state is that of the bytes received so far |
| `Http1Runs.OneReadIsOneShot` | src/app/http1.rs:146-223 | one read logs the verdicts of a whole-stream parse |
| `Http1Runs.SplitIndependentIffHeadsFit` | src/app/http1.rs:146-257 | up to the final Terminal of an undecided head, which a split may lack, every split logs those verdicts if and only if every head that matters fits the buffer |
| `Http1Splits.SameVerdictsIff` | src/app/http1.rs:146-257 | every split logs exactly the verdicts of one read, if and only if every head that matters fits the buffer and, for a limit above one byte, no short undecided head waits: unfinished, or malformed behind a blank line that can be cut or behind a first byte that is not malformed yet |
| `Http1Splits.ObserveBuffers` | src/app/http1.rs:146-223 | whatever the reads, a head in the buffer was cut inside a blank line or began with a byte that is not malformed |
| `Http1Splits.DifferenceIsLoss` | src/app/http1.rs:146-257 | a split that logs other verdicts lost the Terminal of a head that waits |
| `Http1Splits.LossDiffers` | src/app/http1.rs:178-236 | for every head that waits there is a split that loses its Terminal |
| `Http1Runs.LongHeadDepends` | src/app/http1.rs:187-192 | a longer head is read differently in pieces |
| `Http1Runs.VerdictsClassifyHeads` | src/app/http1.rs:246-257 | verdict `n` is for the head at the offset given by the earlier heads and bodies; only the last may be other than Persistent |
| `Http1Runs.HappenOk` | src/app/server.rs:1468-1498 | a read or a dispatch keeps requests and verdicts paired |
| `Http1Runs.EveryRunOk` | src/app/server.rs:1468-1498 | on every run request `n` has the verdict of head `n`, at most 256 are pending, the buffer is below its limit, and a request without a Persistent verdict is the last |
| `Http1Runs.EveryRequestExplained` | src/app/server.rs:1468-1498 | on every run from a new connection request `n` was given a verdict that explains the head at the offset given by the earlier ones, or is Unclassified, last and closing |
| `Http1Runs.NewConnectionOk` | src/app/http1.rs:67-87 | a new connection satisfies the invariant |
| `Http1Refusals.RunAnswersRefusals` | src/app/server.rs:1468-1498 | on every run each Ambiguous or Unclassified request is answered 400 and closes the connection |
| `Http1Refusals.BothFieldsRefused` | src/app/server.rs:1468-1498 | on every run, a dispatched request whose head has both fields and fits the limit is answered 400, is the last one, and closes the connection |
| `Http1Refusals.LongHeadServed` | src/app/http1.rs:187-192 | a head beyond the limit, cut there, gets Terminal, and its handler answers |
| `Http1Refusals.BothFieldsRefusedIff` | src/app/server.rs:1468-1498 | that answer is certain if and only if the head fits the limit |
| `Http1Io.Http1Verdicts.Push` | src/app/http1.rs:67-87 | a verdict is queued if and only if fewer than 256 are pending |
| `Http1Io.Http1Verdicts.Next` | src/app/http1.rs:67-87 | verdicts come out in order; an empty queue gives Unclassified |
| `Http1Io.Http1InspectedIo.FinishHead` | src/app/http1.rs:246-257 | the state after a head |
| `Http1Io.Http1InspectedIo.BufferPartialHead` | src/app/http1.rs:225-236 | the state after the start of a head |
| `Http1Io.Http1InspectedIo.GrowHead` | src/app/http1.rs:178-223 | the state after more bytes of a buffered head, and the bytes left over |
| `Http1Io.Http1InspectedIo.Observe` | src/app/http1.rs:146-223 | the state after a read; the inner call cannot recurse again |
| `Http1Io.LawsAreSatisfiable` | src/app/http1.rs:291-343 | some head library meets the laws |
| `Http1Io.LongHeadDependsOnReads` | src/app/http1.rs:159-167 | a concrete head beyond the limit whose verdicts depend on the reads |
| `Http1Io.BlankLinesDependOnReads` | src/app/http1.rs:225-236 | two blank lines and one byte of a head, with a limit of three: one read logs a Terminal, two reads log nothing |
| `Http1Io.CutBlankLineDependsOnReads` | src/app/http1.rs:178-193 | a blank line and a malformed byte: some split logs other verdicts than one read |
| `Preface.DecisiveStable` | src/app/server.rs:317-359 | a decisive outcome survives any further bytes (sections 3.4 and 6.5 of RFC 9113) |
| `Preface.PendingIsShort` | src/app/server.rs:257-308 | undecided bytes are never too large, so that branch is dead |
| `Preface.AnyDecisive` | src/app/server.rs:257-359 | any decisive prefix gives the result of the stream |
| `PrefaceLaws.FrameDecides` | src/app/server.rs:317-359 | behind the preface text, a first frame other than SETTINGS on stream 0 without ACK and with a length that is a multiple of six up to 16384 is an error; such a frame completes the preface if and only if its payload has arrived (sections 3.4, 4.1 and 6.5 of RFC 9113) |
| `PrefaceLaws.FrameOf` | src/app/server.rs:317-359 | any nine bytes are the header of some frame, so `FrameDecides` leaves out none |
| `PrefaceLaws.StartIsPending` | src/app/server.rs:317-359 | a prefix of the preface, or the preface and less than a frame header, decides nothing |
| `PrefaceLaws.OtherwiseNot` | src/app/server.rs:317-359 | anything else is not HTTP/2 |
| `PrefaceLaws.PrefaceDetected` | src/app/server.rs:257-308 | the protocol, or the error, of a client that sends the preface and a whole frame, for each expectation |
| `PrefaceLaws.OtherDetected` | src/app/server.rs:257-308 | the same for a client that sends something else |
| `PrefaceLaws.CutShortDetected` | src/app/server.rs:257-308 | the same for a client that stops within the preface or its first frame |
| `Preface.InspectConnection` | src/app/server.rs:257-308 | whatever the read sizes, the result is that of the stream, end of input included, and every byte is still to be delivered |
| `Preface.PrefixedIo.Read` | src/app/server.rs:185-200 | the prefix and then the socket, each byte once and in order |
| `SessionData.SumBytes` | src/app/session.rs:466-479 | the checked fold gives the byte total, in whatever order the pairs come |
| `SessionData.DataBytesSet` | src/app/session.rs:480-494 | the total after a write is the old one without the replaced pair plus the new one |
| `SessionData.WriteValue` | src/app/session.rs:459-503 | accepted if and only if the limits allow it, the result then being the old pairs with `key` set to `value`; none of the arithmetic overflows |
| `SessionData.WrittenWithinLimits` | src/app/session.rs:420-504 | an accepted write keeps entry, key, value and total limits |
| `SessionData.RemovedWithinLimits` | src/app/session.rs:506-527 | so does a removal |
| `SessionData.Renew` | src/app/session.rs:237-261 | the deadline slides and the expiry set stays the image of the entries |
| `SessionData.InsertEntry` | src/app/session.rs:263-271 | the entry is stored, whether it was new, and the expiry set stays exact |
| `SessionData.RemoveEntry` | src/app/session.rs:273-277 | the entry is gone and returned, and the expiry set stays exact |
| `SessionData.RemoveExpired` | src/app/session.rs:279-301 | at most the maximum go, all expired; stopping short leaves none expired; the branch for an inexact index is unreachable |
| `SessionStore.SweepBatch` | src/app/session.rs:372-399 | a batch removes at most 256 entries, all expired, and one that stops short leaves none expired in any shard |
| `SessionStore.SweepAll` | src/app/session.rs:536-547 | the sweep over all shards leaves live entries only |
| `SessionStore.Store.constructor` | src/app/session.rs:163-175 | an empty store |
| `SessionStore.Store.ResumeSession` | src/app/session.rs:303-317 | the answer and the live sessions of the abstract store |
| `SessionStore.Store.GetValue` | src/app/session.rs:401-418 | likewise |
| `SessionStore.Store.RemoveValue` | src/app/session.rs:506-527 | likewise |
| `SessionStore.Store.ClearSession` | src/app/session.rs:529-534 | the session is gone and nothing else |
| `SessionStore.Store.CleanupBatch` | src/app/session.rs:372-399 | live sessions are untouched and the counter follows |
| `SessionStore.Store.MakeRoom` | src/app/session.rs:338-343 | a store still full after the cleanup is all live |
| `SessionStore.Store.CreateSession` | src/app/session.rs:319-361 | refused if and only if the id is not live and the live sessions fill the store; a refusal finds every stored session live |
| `SessionStore.Store.LiveCount` | src/app/session.rs:536-547 | the number of live sessions |
| `SessionStore.Store.RotateId` | src/app/session.rs:179-203 | the abstract rotation, also onto an id in use |
| `SessionStore.RotationMoves` | src/app/session.rs:179-203 | the data moves, the old id is dead, other sessions are untouched |
| `SessionStore.Store.RecordRotation` | src/app/session.rs:205-212 | stale records go, a full set is left alone, the bound holds |
| `SessionStore.Store.TakeRotation` | src/app/session.rs:214-218 | a record is given out once |
| `SessionStore.Store.WriteLive` | src/app/session.rs:438-503 | the last region of `set` on the live sessions |
| `SessionStore.Store.SetValue` | src/app/session.rs:420-504 | `set` with its three clock readings, against the abstract store; what that stores and when is `SessionLaws.SetStoresIff` |
| `SessionStore.FailedSetChangesNothing` | src/app/session.rs:420-504 | a failed `set` changes no data, leaves no new session, and loses no session that has not expired, the one written to included |
| `SessionLaws.SetStoresIff` | src/app/session.rs:420-504 | `set` succeeds if and only if the key, the value, the pairs and their bytes are within the limits and the session, live before or made now, is live at the end; it then has its old pairs with `key` set to `value` and its new deadline, and other sessions only expire |
| `SessionLaws.SetRefusals` | src/app/session.rs:420-504 | what each error of `set` means, as an if-and-only-if, apart from the byte total, which is what remains |
| `SessionStore.Store.RegenerateId` | src/app/session.rs:808-823 | a live session is rotated, otherwise a new one is created; the rotation is recorded on success only |
| `SessionLaws.RegenerateMoves` | src/app/session.rs:808-823 | when regenerating succeeds, that the old id is gone, that the new one has the moved pairs and a new deadline, and that other sessions only expire |
| `SessionStore.Store.Perform` | src/app/session.rs:303-547 | each operation refines the abstract step |
| `SessionStore.Store.PerformAll` | src/app/session.rs:179-547 | every sequence of calls, `set` and `regenerate` with their clock readings and taken rotations included, under a clock that does not go back gives the answers, the live sessions and the rotation records of an abstract store of two maps |
| `SessionStore.RunKeepsOthers` | src/app/session.rs:179-547 | on every run, a session that is not named survives unchanged to its deadline, and neither sessions nor rotation records exceed the limit |
| `SessionLaws.SetIsRead` | src/app/session.rs:401-504 | on every run, a value that was set is the value read before its deadline, whatever is done to other sessions between |
| `SessionLaws.RemovedIsNotRead` | src/app/session.rs:401-527 | on every run, a value that was removed is not read |
| `SessionLaws.LookupSlides` | src/app/session.rs:237-418 | on every run, a session that is looked up lives exactly until its new deadline |
| `SessionLaws.ClearedIsGone` | src/app/session.rs:529-534 | on every run, a session that was cleared is gone |
| `SessionLaws.RunMakesNothing` | src/app/session.rs:179-547 | no run makes or changes a session under an id it does not name |
| `SessionStore.RecordTakenOnce` | src/app/session.rs:205-218 | on every run, a rotation record that was taken is not given out again until its id is regenerated |
| `SessionLaws.RotationIsReported` | src/app/session.rs:205-218 | on every run, a regeneration that found room for its record is reported to the first who asks for the old id |
| `SessionSteps.NeverUnderflows` | src/app/session.rs:179-203 | in every state of the invariant what a caller still owes is on the counter |
| `SessionSteps.StepKeepsInv` | src/app/session.rs:179-547 | every lock region and atomic operation keeps the balance, the locks exclusive and the bound |
| `SessionSteps.EveryInterleavingBalances` | src/app/session.rs:179-547 | on every interleaving: counter plus pending increments equals entries plus entries in flight plus pending decrements; no subtraction wraps; the counter, and the entries with those in flight and those owed, never exceed the limit |
| `SessionSteps.StepTakesOnly` | src/app/session.rs:179-547 | under every interleaving an entry goes only if it has expired by the clock of the caller that removes it, or if that caller clears it or rotates it away |
| `SessionSteps.StepGivesOnly` | src/app/session.rs:179-361 | and comes only under the id that a caller creates or rotates to |
| `SessionSteps.CreatesAlone` | src/app/session.rs:319-361 | the steps of a create that runs alone, below the limit, end with the entry stored and counted |
| `SessionSteps.QuiescentIsExact` | src/app/session.rs:319-399 | with no call in progress the counter is the number of entries |
| `Delimiters.Find` | src/app/form.rs:137-144 | the first occurrence, or that there is none |
| `Delimiters.ParseDelimiterLine` | src/app/form.rs:250-271 | the cursor loop reads the line at a position |
| `Delimiters.LineIsGrammatical` | src/app/form.rs:250-271 | what is read as a delimiter line is one of the grammar of section 5.1.1 of RFC 2046 |
| `Delimiters.GrammaticalIsLine` | src/app/form.rs:250-271 | every line of that grammar is read as one, with its kind and its end |
| `Delimiters.FindInitialDelimiter` | src/app/form.rs:214-229 | the first delimiter line at the start of the body or of a line |
| `Delimiters.FindNextDelimiter` | src/app/form.rs:231-248 | the first delimiter line after a line end |
| `Delimiters.LineStaysInside` | src/app/form.rs:231-271 | a delimiter line that starts in text framed by line ends also ends in it |
| `PartHeaders.DecodeQuoted` | src/app/form.rs:361-390 | the loop decodes a quoted string with its escapes |
| `PartHeaders.ParseParameterizedValue` | src/app/form.rs:328-411 | the cursor loops read base and parameters, quoted (`ParametersUndo`) or not (`BareParameters.BareUndoes`), or fail |
| `PartHeaders.UniqueParameter` | src/app/form.rs:413-419 | the value if exactly one parameter has the name |
| `PartHeaders.ParsePartHeaders` | src/app/form.rs:273-326 | the loop over the lines, with its errors in order |
| `PartHeaders.QuotedUndoes` | src/app/form.rs:361-390 | decoding undoes escaping for every quotable text |
| `PartHeaders.ParametersUndo` | src/app/form.rs:328-411 | a printed parameter is read back, whatever follows |
| `PartHeaders.DispositionUndoes` | src/app/form.rs:328-411 | a printed disposition is read back |
| `PartHeaders.HeadersUndo` | src/app/form.rs:273-326 | printed part headers are read back |
| `HeaderLaws.HeadersIff` | src/app/form.rs:273-326 | header text is accepted, as given headers, if and only if it is UTF-8, every line is a header, there are not too many, exactly one is a disposition and names a form field, and at most one is a content type, not empty |
| `BareParameters.BareUndoes` | src/app/form.rs:328-411 | an unquoted parameter, with any blanks around name and value, is read back, whatever follows |
| `BareParameters.BareHeadersUndo` | src/app/form.rs:273-411 | part headers with an unquoted name, and perhaps an unquoted filename, are read back |
| `MultipartLaws.UniqueIff` | src/app/form.rs:413-419 | a parameter counts if and only if exactly one has its name, in any case |
| `MultipartLaws.HeaderLineIff` | src/app/form.rs:290-303 | a line is a header if and only if it is a token, a colon, and a value that trimmed has no control bytes but tabs |
| `Multipart.ParseMultipart` | src/app/form.rs:152-208 | the parts, or the first error, that the searches and the limits determine |
| `Multipart.AcceptedSpans` | src/app/form.rs:152-208 | the data of every accepted body is in order, disjoint, within its limits, free of delimiter lines, and ended by a line end and a delimiter line, the closing one last |
| `MultipartLaws.AcceptedIff` | src/app/form.rs:152-208 | a body is accepted as `parts` if and only if it can be cut into them: a first delimiter line, then for each part accepted headers, an empty line, and data up to the next delimiter line, the last one closing, all within the limits |
| `Multipart.ParseUndoesPrint` | src/app/form.rs:152-208 | parsing the printed form of any part list within the limits, whose data holds no delimiter line, gives the list back |
| `Multipart.ParseUndoesPrintIff` | src/app/form.rs:152-271 | for part lists that headers and limits can carry, parsing undoes printing if and only if no data, framed by line ends, holds a delimiter line |
| `HeaderRegions.SafeBoundariesCut` | src/app/form.rs:152-326 | if no delimiter line reads as a header, the only delimiter lines of an accepted body from its first part to the closing line are those that end the data of a part |
| `HeaderRegions.UnsafeBoundariesSwallow` | src/app/form.rs:273-326 | otherwise a body with a delimiter line among its headers is accepted as one part, for any headers without a content type |
| `HeaderRegions.EveryLineCutsIff` | src/app/form.rs:152-326 | every delimiter line of every accepted body cuts it if and only if the boundary has no colon or a byte before its first colon is not a token byte, within limits of one part, two headers and the bytes of that body's headers |
| `HeaderRegions.SwallowedText` | src/app/form.rs:273-326 | header text with such a delimiter line behind it is read as the headers alone |
| `HeaderRegions.ColonIsUnsafe` | src/app/form.rs:293-296 | `--a:b`, a delimiter line of the valid boundary `a:b`, is read as a header named `--a` |
| `HeaderRegions.SwallowedExample` | src/app/form.rs:152-326 | a body with that boundary whose delimiter line is swallowed |
| `Delimiters.LineComesOut` | src/app/form.rs:231-271 | a delimiter line of the framed data is one of the body |
| `Multipart.BoundaryUndoes` | src/app/form.rs:128-135 | every valid boundary is recovered from its quoted parameter |
| `BareParameters.BareBoundary` | src/app/form.rs:128-135 | every valid boundary of token bytes is recovered unquoted, whatever blanks surround it |
| `BareParameters.UsualBoundary` | src/app/form.rs:128-135 | in particular from `multipart/form-data; boundary=` and the boundary |
| `RateLimit.RateState.CheckRequest` | src/app/middleware/mod.rs:247-274 | state and answer, with at most `max_clients` buckets |
| `RateLimit.BoundKept` | src/app/middleware/mod.rs:247-274 | the bound on tracked buckets is kept |
| `RateLimit.AdmittedInWindow` | src/app/middleware/mod.rs:292-308 | within a window exactly the first `max_requests` pass; with the largest limit all do |
| `RateLimit.CheckSimulates` | src/app/middleware/mod.rs:247-308 | while the clients fit, one request gets the ideal answer and the two stay in step |
| `RateLimit.SameAnswersAsIdeal` | src/app/middleware/mod.rs:247-308 | every run with at most `max_clients` clients gets the answers of a limiter that is never swept |
| `RateLimit.RetryAfterWaits` | src/app/middleware/mod.rs:310-315 | the advertised seconds cover the time left, if and only if the counter does not saturate |
| `RateLimit.RetryAfterIsLeast` | src/app/middleware/mod.rs:310-315 | they are at least one, and one second less would not cover it unless they are one |
| `RateLimit.RetryAdmittedIff` | src/app/middleware/mod.rs:247-315 | a rejected client that waits the advertised time, whatever other clients do meanwhile, is admitted if and only if after the sweep it has a bucket, or one is free, or the shared bucket is absent, over or not used up |
| `RateLimit.RetryIsAdmitted` | src/app/middleware/mod.rs:247-315 | so it is while the clients fit |
| `RateLimit.RetryCanFailWhenCrowded` | src/app/middleware/mod.rs:247-274 | a run of three clients with room for one in which it is refused |
| `Finalization.FramingFieldsForbidden` | src/app/response.rs:677-738 | the forbidden names, which finalisation checks every trailer against, include every field that frames a message |
| `Finalization.TrailersFrameNothing` | src/app/response.rs:515-738 | no trailer of a finalised response frames the message or is forbidden otherwise |
| `Finalization.FromErrorSucceeds` | src/app/response.rs:515-573 | the error response finalises, so the recursion ends |
| `Finalization.CanonicalLength` | src/app/response.rs:814-842 | a canonical length is read back |
| `Finalization.AttemptSettles` | src/app/response.rs:515-573 | a response that finalises has sound framing |
| `Finalization.SettledIsFixed` | src/app/response.rs:515-573 | a settled response is a fixed point |
| `Finalization.FinalizeSettles` | src/app/response.rs:515-573 | finalising always ends in: no Transfer-Encoding, one length equal to any buffered body, none with trailers, no body on 1xx, 204, 205 and 304 (section 8.6 of RFC 9110) |
| `Finalization.FinalizeIdempotent` | src/app/response.rs:515-573 | finalising twice is finalising once |
| `Finalization.HeadMatchesGet` | src/app/server.rs:1635-1643 | a HEAD response has no body and the status of GET, and its headers if and only if the response given announces no trailers |
| `Finalization.TrailersSentIff` | src/app/response.rs:515-573 | what is sent has trailers if and only if the response given has some, no build error, a status with content, permitted names, no declared length, no Transfer-Encoding and a usable content type |
| `ResponseLaws.DeclaredIff` | src/app/response.rs:814-842 | the declared length is `n` if and only if there is a Content-Length and every candidate of every value is `n` in digits |
| `ResponseLaws.FinalizeKeeps` | src/app/response.rs:515-573 | if a response can be finalised (a condition on what the handler built), status, body, trailers, content type and every other field are kept, only the framing fields change and how is said; otherwise 500 and the problem document are sent |
| `ResponseLaws.TrailersAreListed` | src/app/response.rs:515-573 | the Trailer field of what is sent lists exactly the names of the trailers, in order |
| `ResponseLaws.HeadKeepsFields` | src/app/server.rs:1635-1643 | field by field, a HEAD response has what GET has, but no Trailer, and the length of the body even where GET sends trailers |
| `Finalization.NoTransferEncodingSent` | src/app/response.rs:515-573 | no field of a sent response is spelt `transfer-encoding` |
| `Finalization.SpellingIsName` | src/app/response.rs:677-738 | names that are spelt alike are one name |
| `Finalization.TrailerMissesHead` | src/app/server.rs:1635-1643 | a GET response with one trailer announces it, its HEAD response does not |
| `Responses.ScanOneValue` | src/app/response.rs:814-842 | the inner loop over the candidates of one value |
| `Responses.ScanAllValues` | src/app/response.rs:814-842 | the outer loop over the values |
| `Responses.HttpResponse.ParseContentLength` | src/app/response.rs:814-842 | the agreed length, and the headers normalised to it |
| `Responses.HttpResponse.FinalizeFraming` | src/app/response.rs:769-812 | the framed response or the error; what that keeps is `ResponseLaws.FinalizeKeeps` |
| `Responses.HttpResponse.TryFinalize` | src/app/response.rs:515-573 | the finalised response or the first error |
| `Responses.HttpResponse.FinalizeResponse` | src/app/response.rs:515-573 | this response, or a fresh finalised error response |
| `Responses.HttpResponse.PrepareForHead` | src/app/response.rs:392-408 | the response without body and trailers, its length kept |
| `Responses.SendResponse` | src/app/server.rs:1635-1643 | the end of a request: finalise, strip for HEAD, finalise again |

## Left out

- Sockets, tasks, timeouts, TLS and the HTTP library around the protocol logic: input and output.
- WebSocket hub, broker and handshake: their state lives in modules that are not part of this model.
- The internals of the HTTP/1 head parser library, the base64 and hash functions: foreign code, abstract here.
- Compression, cookies, CORS, conditional requests, SSE, OpenAPI output, logging: they would only add easy members.
- Static files: opening them and the errors of their options; only the two routes they register are modelled.
- Route metadata (summary, description, tags, body limit) and `resolve_http_method`: wrappers around what is modelled.
- Poisoned locks and allocation failure.
- URL-encoded forms: decoded by a library.
- `SessionStore.Store`: in this class one operation runs at a time; `SessionSteps` has the interleavings, with entries reduced to their deadlines and `set` as a resume, perhaps a create, and a last region.
- The order among equal deadlines in an expiry set: any earliest entry may be taken first.
- The 64-bit width of clock readings: instants are unbounded naturals with a largest representable one.
