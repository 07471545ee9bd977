/**
 The segment trie over the registered routes (src/app/trie.rs). The trie is a
 value; the searches keep the explicit work stack of the source.

 The reference for `find_candidates` does not mention the trie: every route
 whose pattern matches the path and whose verb answers the request, in the
 order of the key `Precedence`.
 */
module RouteIndex {
  import opened Basics
  import opened Segments

  /** One registered route as the index sees it. */
  datatype Row = Row(verb: string, pattern: seq<Segment>)

  datatype Entry = Entry(verb: string, index: nat)

  datatype Node = Node(
    statics: map<string, Node>,
    param: Option<Node>,
    terminals: seq<Entry>,
    wildcards: seq<Entry>)

  const EMPTY := Node(map[], None, [], [])

  // ---------------------------------------------------------------- building

  /** The child to walk into, created empty when absent. */
  function StaticChild(node: Node, text: string): Node {
    if text in node.statics then node.statics[text] else EMPTY
  }

  function ParamChild(node: Node): Node {
    if node.param.Some? then node.param.value else EMPTY
  }

  /** Adds one route below `node`; a pattern whose wildcard is not its last
      segment creates the branch but leaves no entry. */
  function Insert(node: Node, pattern: seq<Segment>, entry: Entry): Node
    decreases |pattern|
  {
    if pattern == [] then
      node.(terminals := node.terminals + [entry])
    else
      match pattern[0]
      case Static(text) =>
        node.(statics := node.statics[text := Insert(StaticChild(node, text), pattern[1..], entry)])
      case Param(_) =>
        node.(param := Some(Insert(ParamChild(node), pattern[1..], entry)))
      case Wildcard(_) =>
        if |pattern| == 1 then node.(wildcards := node.wildcards + [entry]) else node
  }

  /** The index of the first `n` rows. */
  function Indexed(rows: seq<Row>, n: nat): Node
    requires n <= |rows|
  {
    if n == 0 then EMPTY
    else Insert(Indexed(rows, n - 1), rows[n - 1].pattern, Entry(rows[n - 1].verb, n - 1))
  }

  /** The index of a table. */
  function IndexOf(rows: seq<Row>): Node {
    Indexed(rows, |rows|)
  }

  method Build(rows: seq<Row>) returns (root: Node)
    ensures root == IndexOf(rows)
  {
    root := EMPTY;
    for i := 0 to |rows|
      invariant root == Indexed(rows, i)
    {
      root := Insert(root, rows[i].pattern, Entry(rows[i].verb, i));
    }
  }

  // -------------------------------------------------------- precedence order

  // Branch codes along a path, in order of preference.
  const STATIC_CODE: nat := 0
  const PARAM_CODE: nat := 1
  const END_CODE: nat := 2
  const WILDCARD_CODE: nat := 3

  /** The branches a pattern takes, closed by how it ends. */
  function Codes(pattern: seq<Segment>): seq<nat> {
    if pattern == [] then [END_CODE]
    else
      match pattern[0]
      case Static(_) => [STATIC_CODE] + Codes(pattern[1..])
      case Param(_) => [PARAM_CODE] + Codes(pattern[1..])
      case Wildcard(_) => [WILDCARD_CODE]
  }

  /** How a route's method answers a request method: exactly (0), as the GET
      route behind a HEAD request (1), or as an `all()` route (2). */
  function MethodRanks(routeMethod: string, verb: string): set<nat> {
    (if routeMethod == verb then {0} else {})
    + (if verb == "HEAD" && routeMethod == "GET" then {1} else {})
    + (if routeMethod == METHOD_ALL then {2} else {})
  }

  /** A precedence key: smaller is preferred. */
  datatype Hit = Hit(codes: seq<nat>, rank: nat, index: nat)

  predicate LexLess(a: seq<nat>, b: seq<nat>) {
    b != [] && (a == [] || a[0] < b[0] || (a[0] == b[0] && LexLess(a[1..], b[1..])))
  }

  predicate HitLess(x: Hit, y: Hit) {
    LexLess(x.codes, y.codes)
    || (x.codes == y.codes && (x.rank < y.rank || (x.rank == y.rank && x.index < y.index)))
  }

  ghost predicate Sorted(hits: seq<Hit>) {
    forall i, j :: 0 <= i < j < |hits| ==> HitLess(hits[i], hits[j])
  }

  lemma {:induction false} LexLessTransitive(a: seq<nat>, b: seq<nat>, c: seq<nat>)
    requires LexLess(a, b) && LexLess(b, c)
    ensures LexLess(a, c)
  {
    if a != [] && a[0] == b[0] && b[0] == c[0] {
      LexLessTransitive(a[1..], b[1..], c[1..]);
    }
  }

  lemma {:induction false} LexLessTotal(a: seq<nat>, b: seq<nat>)
    ensures !(LexLess(a, b) && LexLess(b, a))
    ensures a != b <==> LexLess(a, b) || LexLess(b, a)
  {
    if a != [] && b != [] && a[0] == b[0] {
      LexLessTotal(a[1..], b[1..]);
      assert a == [a[0]] + a[1..] && b == [b[0]] + b[1..];
    } else if a != [] && b != [] {
      assert a[0] != b[0];
    }
  }

  lemma HitLessStrictOrder(x: Hit, y: Hit, z: Hit)
    ensures !(HitLess(x, y) && HitLess(y, x))
    ensures x != y <==> HitLess(x, y) || HitLess(y, x)
    ensures HitLess(x, y) && HitLess(y, z) ==> HitLess(x, z)
  {
    LexLessTotal(x.codes, y.codes);
    LexLessTotal(y.codes, z.codes);
    if LexLess(x.codes, y.codes) && LexLess(y.codes, z.codes) {
      LexLessTransitive(x.codes, y.codes, z.codes);
    }
  }

  lemma SortedConcat(a: seq<Hit>, b: seq<Hit>)
    requires Sorted(a) && Sorted(b)
    requires forall x, y :: x in a && y in b ==> HitLess(x, y)
    ensures Sorted(a + b)
  {
    var c := a + b;
    forall i, j | 0 <= i < j < |c| ensures HitLess(c[i], c[j]) {
      if i < |a| && |a| <= j {
        assert c[i] in a && c[j] in b;
      }
    }
  }

  // ------------------------------------------------------- depth-first search

  /** The entries registered under `wanted`, as hits of the given rank. */
  function Select(entries: seq<Entry>, wanted: string, rank: nat, code: nat): seq<Hit> {
    if entries == [] then []
    else
      (if entries[0].verb == wanted then [Hit([code], rank, entries[0].index)] else [])
      + Select(entries[1..], wanted, rank, code)
  }

  /** What `push_matching` pushes. */
  function Pick(entries: seq<Entry>, verb: string, code: nat): seq<Hit> {
    Select(entries, verb, 0, code)
    + (if verb == "HEAD" then Select(entries, "GET", 1, code) else [])
    + Select(entries, METHOD_ALL, 2, code)
  }

  function Prefixed(code: nat, hits: seq<Hit>): seq<Hit> {
    if hits == [] then []
    else [hits[0].(codes := [code] + hits[0].codes)] + Prefixed(code, hits[1..])
  }

  /** Every hit below `node` for the remaining path, in visiting order. */
  function Search(node: Node, verb: string, path: seq<string>): seq<Hit>
    decreases |path|
  {
    if path == [] then
      Pick(node.terminals, verb, END_CODE) + Pick(node.wildcards, verb, WILDCARD_CODE)
    else
      (if path[0] in node.statics
       then Prefixed(STATIC_CODE, Search(node.statics[path[0]], verb, path[1..])) else [])
      + (if node.param.Some?
         then Prefixed(PARAM_CODE, Search(node.param.value, verb, path[1..])) else [])
      + Pick(node.wildcards, verb, WILDCARD_CODE)
  }

  lemma {:induction false} SelectMember(entries: seq<Entry>, wanted: string, rank: nat, code: nat, h: Hit)
    ensures h in Select(entries, wanted, rank, code)
       <==> h.codes == [code] && h.rank == rank && Entry(wanted, h.index) in entries
  {
    if entries != [] {
      SelectMember(entries[1..], wanted, rank, code, h);
      assert entries == [entries[0]] + entries[1..];
    }
  }

  lemma PickMember(entries: seq<Entry>, verb: string, code: nat, h: Hit)
    ensures h in Pick(entries, verb, code)
       <==> h.codes == [code]
            && exists e :: e in entries && e.index == h.index && h.rank in MethodRanks(e.verb, verb)
  {
    SelectMember(entries, verb, 0, code, h);
    SelectMember(entries, "GET", 1, code, h);
    SelectMember(entries, METHOD_ALL, 2, code, h);
  }

  lemma {:induction false} PrefixedMember(code: nat, hits: seq<Hit>, h: Hit)
    ensures h in Prefixed(code, hits)
       <==> h.codes != [] && h.codes[0] == code && h.(codes := h.codes[1..]) in hits
  {
    if hits != [] {
      PrefixedMember(code, hits[1..], h);
      var first := hits[0].(codes := [code] + hits[0].codes);
      assert hits == [hits[0]] + hits[1..];
      assert h == first <==> h.codes != [] && h.codes[0] == code && h.(codes := h.codes[1..]) == hits[0] by {
        assert first.codes[1..] == hits[0].codes;
        if h.codes != [] && h.codes[0] == code && h.(codes := h.codes[1..]) == hits[0] {
          assert h.codes == [code] + h.codes[1..];
        }
      }
    }
  }

  // --------------------------------------------------- the trie holds the table

  /** The hits one route contributes. */
  ghost predicate Contributes(pattern: seq<Segment>, entry: Entry, verb: string, path: seq<string>, h: Hit) {
    Matches(pattern, path)
    && h.codes == Codes(pattern)
    && h.index == entry.index
    && h.rank in MethodRanks(entry.verb, verb)
  }

  lemma EmptySearch(verb: string, path: seq<string>)
    ensures Search(EMPTY, verb, path) == []
  {
  }

  /** Membership in an inner search, branch by branch. */
  lemma SearchMember(node: Node, verb: string, path: seq<string>, h: Hit)
    requires path != []
    ensures h in Search(node, verb, path)
       <==> || (path[0] in node.statics && Under(STATIC_CODE, node.statics[path[0]], verb, path[1..], h))
            || (node.param.Some? && Under(PARAM_CODE, node.param.value, verb, path[1..], h))
            || h in Pick(node.wildcards, verb, WILDCARD_CODE)
  {
    if path[0] in node.statics {
      PrefixedMember(STATIC_CODE, Search(node.statics[path[0]], verb, path[1..]), h);
    }
    if node.param.Some? {
      PrefixedMember(PARAM_CODE, Search(node.param.value, verb, path[1..]), h);
    }
  }

  /** The hit goes through `code` and is found below that branch. */
  ghost predicate Under(code: nat, child: Node, verb: string, path: seq<string>, h: Hit) {
    h.codes != [] && h.codes[0] == code && h.(codes := h.codes[1..]) in Search(child, verb, path)
  }

  lemma InsertedBelow(
    code: nat, child: Node, after: Node, pattern: seq<Segment>, entry: Entry, verb: string, path: seq<string>, h: Hit)
    requires h.codes != [] ==>
      var inner := h.(codes := h.codes[1..]);
      (inner in Search(after, verb, path)
       <==> (inner in Search(child, verb, path) || Contributes(pattern, entry, verb, path, inner)))
    ensures Under(code, after, verb, path, h)
       <==> || Under(code, child, verb, path, h)
            || (Contributes(pattern, entry, verb, path, h.(codes := Codes(pattern)))
                && h.codes == [code] + Codes(pattern))
  {
    if h.codes != [] && h.codes[0] == code {
      assert h.codes == [code] + h.codes[1..];
    }
  }

  lemma {:induction false} SearchAfterInsert(
    node: Node, pattern: seq<Segment>, entry: Entry, verb: string, path: seq<string>, h: Hit)
    ensures h in Search(Insert(node, pattern, entry), verb, path)
       <==> h in Search(node, verb, path) || Contributes(pattern, entry, verb, path, h)
    decreases |pattern|
  {
    var after := Insert(node, pattern, entry);
    if pattern == [] || pattern[0].Wildcard? {
      InsertedHere(node, pattern, entry, verb, path, h);
    } else if path != [] {
      SearchMember(node, verb, path, h);
      SearchMember(after, verb, path, h);
      var inner := if h.codes == [] then h else h.(codes := h.codes[1..]);
      EmptySearch(verb, path[1..]);
      match pattern[0] {
        case Static(text) =>
          SearchAfterInsert(StaticChild(node, text), pattern[1..], entry, verb, path[1..], inner);
          var below := Insert(StaticChild(node, text), pattern[1..], entry);
          InsertedBelow(STATIC_CODE, StaticChild(node, text), below, pattern[1..], entry, verb, path[1..], h);
        case Param(_) =>
          SearchAfterInsert(ParamChild(node), pattern[1..], entry, verb, path[1..], inner);
          var below := Insert(ParamChild(node), pattern[1..], entry);
          InsertedBelow(PARAM_CODE, ParamChild(node), below, pattern[1..], entry, verb, path[1..], h);
      }
    }
  }

  lemma InsertedHere(
    node: Node, pattern: seq<Segment>, entry: Entry, verb: string, path: seq<string>, h: Hit)
    requires pattern == [] || pattern[0].Wildcard?
    ensures h in Search(Insert(node, pattern, entry), verb, path)
       <==> h in Search(node, verb, path) || Contributes(pattern, entry, verb, path, h)
  {
    var after := Insert(node, pattern, entry);
    if path != [] {
      PickMember(node.wildcards, verb, WILDCARD_CODE, h);
      PickMember(after.wildcards, verb, WILDCARD_CODE, h);
      SearchMember(node, verb, path, h);
      SearchMember(after, verb, path, h);
    } else {
      InsertedAtEnd(node, pattern, entry, verb, h);
    }
  }

  lemma InsertedAtEnd(node: Node, pattern: seq<Segment>, entry: Entry, verb: string, h: Hit)
    requires pattern == [] || pattern[0].Wildcard?
    ensures h in Search(Insert(node, pattern, entry), verb, [])
       <==> h in Search(node, verb, []) || Contributes(pattern, entry, verb, [], h)
  {
    var after := Insert(node, pattern, entry);
    PickMember(node.terminals, verb, END_CODE, h);
    PickMember(node.wildcards, verb, WILDCARD_CODE, h);
    PickMember(after.terminals, verb, END_CODE, h);
    PickMember(after.wildcards, verb, WILDCARD_CODE, h);
  }

  /** The first `n` rows contribute the hit. */
  ghost predicate ContributedBy(rows: seq<Row>, n: nat, verb: string, path: seq<string>, h: Hit)
    requires n <= |rows|
  {
    h.index < n
    && Contributes(rows[h.index].pattern, Entry(rows[h.index].verb, h.index), verb, path, h)
  }

  lemma {:induction false} SearchIndexed(rows: seq<Row>, n: nat, verb: string, path: seq<string>, h: Hit)
    requires n <= |rows|
    ensures h in Search(Indexed(rows, n), verb, path) <==> ContributedBy(rows, n, verb, path, h)
  {
    if n == 0 {
      EmptySearch(verb, path);
    } else {
      SearchIndexed(rows, n - 1, verb, path, h);
      SearchOneMore(rows, n, verb, path, h);
      var before, after := h in Search(Indexed(rows, n - 1), verb, path), h in Search(Indexed(rows, n), verb, path);
      ContributedStep(rows, n, verb, path, h, before, after);
    }
  }

  lemma ContributedStep(
    rows: seq<Row>, n: nat, verb: string, path: seq<string>, h: Hit, before: bool, after: bool)
    requires 0 < n <= |rows| && before == ContributedBy(rows, n - 1, verb, path, h)
    requires after == (before || Contributes(rows[n - 1].pattern, Entry(rows[n - 1].verb, n - 1), verb, path, h))
    ensures after == ContributedBy(rows, n, verb, path, h)
  {
    OneMoreContributes(rows, n, verb, path, h);
  }

  lemma SearchOneMore(rows: seq<Row>, n: nat, verb: string, path: seq<string>, h: Hit)
    requires 0 < n <= |rows|
    ensures h in Search(Indexed(rows, n), verb, path)
       <==> || h in Search(Indexed(rows, n - 1), verb, path)
            || Contributes(rows[n - 1].pattern, Entry(rows[n - 1].verb, n - 1), verb, path, h)
  {
    SearchAfterInsert(Indexed(rows, n - 1), rows[n - 1].pattern, Entry(rows[n - 1].verb, n - 1), verb, path, h);
  }

  lemma OneMoreContributes(rows: seq<Row>, n: nat, verb: string, path: seq<string>, h: Hit)
    requires 0 < n <= |rows|
    ensures ContributedBy(rows, n, verb, path, h)
       <==> || ContributedBy(rows, n - 1, verb, path, h)
            || Contributes(rows[n - 1].pattern, Entry(rows[n - 1].verb, n - 1), verb, path, h)
  {
  }

  // ----------------------------------------------------- the search is sorted

  ghost predicate Ascending(entries: seq<Entry>, bound: nat) {
    && (forall i :: 0 <= i < |entries| ==> entries[i].index < bound)
    && (forall i, j :: 0 <= i < j < |entries| ==> entries[i].index < entries[j].index)
  }

  /** Every entry list is in registration order, below `bound`. */
  ghost predicate Ordered(node: Node, bound: nat) {
    && Ascending(node.terminals, bound)
    && Ascending(node.wildcards, bound)
    && (node.param.Some? ==> Ordered(node.param.value, bound))
    && (forall text :: text in node.statics ==> Ordered(node.statics[text], bound))
  }

  lemma {:induction false} OrderedMonotone(node: Node, bound: nat, higher: nat)
    requires Ordered(node, bound) && bound <= higher
    ensures Ordered(node, higher)
  {
    if node.param.Some? {
      OrderedMonotone(node.param.value, bound, higher);
    }
    forall text | text in node.statics ensures Ordered(node.statics[text], higher) {
      OrderedMonotone(node.statics[text], bound, higher);
    }
  }

  lemma {:induction false} InsertKeepsOrder(node: Node, pattern: seq<Segment>, entry: Entry)
    requires Ordered(node, entry.index)
    ensures Ordered(Insert(node, pattern, entry), entry.index + 1)
    decreases |pattern|
  {
    OrderedMonotone(node, entry.index, entry.index + 1);
    if pattern != [] && !pattern[0].Wildcard? {
      var child := if pattern[0].Param? then ParamChild(node) else StaticChild(node, pattern[0].text);
      InsertKeepsOrder(child, pattern[1..], entry);
    }
  }

  lemma {:induction false} IndexedOrdered(rows: seq<Row>, n: nat)
    requires n <= |rows|
    ensures Ordered(Indexed(rows, n), n)
  {
    if n > 0 {
      IndexedOrdered(rows, n - 1);
      InsertKeepsOrder(Indexed(rows, n - 1), rows[n - 1].pattern, Entry(rows[n - 1].verb, n - 1));
    }
  }

  lemma {:induction false} SelectSorted(entries: seq<Entry>, bound: nat, wanted: string, rank: nat, code: nat)
    requires Ascending(entries, bound)
    ensures Sorted(Select(entries, wanted, rank, code))
  {
    if entries != [] {
      SelectSorted(entries[1..], bound, wanted, rank, code);
      var first := Hit([code], rank, entries[0].index);
      forall y | y in Select(entries[1..], wanted, rank, code) ensures HitLess(first, y) {
        SelectMember(entries[1..], wanted, rank, code, y);
        var k :| 0 <= k < |entries[1..]| && entries[1..][k] == Entry(wanted, y.index);
        assert entries[1..][k] == entries[k + 1];
      }
      SortedConcat(if entries[0].verb == wanted then [first] else [], Select(entries[1..], wanted, rank, code));
    }
  }

  lemma PickSorted(entries: seq<Entry>, bound: nat, verb: string, code: nat)
    requires Ascending(entries, bound)
    ensures Sorted(Pick(entries, verb, code))
  {
    var exact := Select(entries, verb, 0, code);
    var get := if verb == "HEAD" then Select(entries, "GET", 1, code) else [];
    var all := Select(entries, METHOD_ALL, 2, code);
    SelectSorted(entries, bound, verb, 0, code);
    SelectSorted(entries, bound, "GET", 1, code);
    SelectSorted(entries, bound, METHOD_ALL, 2, code);
    forall x | x in exact + get + all
      ensures x in exact ==> x.codes == [code] && x.rank == 0
      ensures x in get ==> x.codes == [code] && x.rank == 1
      ensures x in all ==> x.codes == [code] && x.rank == 2
    {
      SelectMember(entries, verb, 0, code, x);
      SelectMember(entries, "GET", 1, code, x);
      SelectMember(entries, METHOD_ALL, 2, code, x);
    }
    SortedConcat(exact, get);
    SortedConcat(exact + get, all);
  }

  lemma {:induction false} PrefixedSorted(code: nat, hits: seq<Hit>)
    requires Sorted(hits)
    ensures Sorted(Prefixed(code, hits))
  {
    if hits != [] {
      PrefixedSorted(code, hits[1..]);
      var first := hits[0].(codes := [code] + hits[0].codes);
      forall y | y in Prefixed(code, hits[1..]) ensures HitLess(first, y) {
        PrefixedMember(code, hits[1..], y);
        var inner := y.(codes := y.codes[1..]);
        assert HitLess(hits[0], inner);
        assert first.codes[1..] == hits[0].codes;
        assert y.codes == [code] + y.codes[1..];
      }
      SortedConcat([first], Prefixed(code, hits[1..]));
    }
  }

  lemma {:induction false} SearchSorted(node: Node, bound: nat, verb: string, path: seq<string>)
    requires Ordered(node, bound)
    ensures Sorted(Search(node, verb, path))
    decreases |path|
  {
    PickSorted(node.terminals, bound, verb, END_CODE);
    PickSorted(node.wildcards, bound, verb, WILDCARD_CODE);
    var ends := Pick(node.terminals, verb, END_CODE);
    var wild := Pick(node.wildcards, verb, WILDCARD_CODE);
    forall h ensures h in ends ==> h.codes == [END_CODE]
      ensures h in wild ==> h.codes == [WILDCARD_CODE]
    {
      PickMember(node.terminals, verb, END_CODE, h);
      PickMember(node.wildcards, verb, WILDCARD_CODE, h);
    }
    if path == [] {
      SortedConcat(ends, wild);
    } else {
      var below := if path[0] in node.statics then Search(node.statics[path[0]], verb, path[1..]) else [];
      var beside := if node.param.Some? then Search(node.param.value, verb, path[1..]) else [];
      if path[0] in node.statics {
        SearchSorted(node.statics[path[0]], bound, verb, path[1..]);
      }
      if node.param.Some? {
        SearchSorted(node.param.value, bound, verb, path[1..]);
      }
      var first := Prefixed(STATIC_CODE, below);
      var second := Prefixed(PARAM_CODE, beside);
      PrefixedSorted(STATIC_CODE, below);
      PrefixedSorted(PARAM_CODE, beside);
      forall h ensures h in first ==> h.codes != [] && h.codes[0] == STATIC_CODE
        ensures h in second ==> h.codes != [] && h.codes[0] == PARAM_CODE
      {
        PrefixedMember(STATIC_CODE, below, h);
        PrefixedMember(PARAM_CODE, beside, h);
      }
      SortedConcat(first, second);
      SortedConcat(first + second, wild);
    }
  }

  // -------------------------------------------------------- find_candidates

  function Indices(hits: seq<Hit>): seq<nat> {
    seq(|hits|, i requires 0 <= i < |hits| => hits[i].index)
  }

  lemma IndicesConcat(a: seq<Hit>, b: seq<Hit>)
    ensures Indices(a + b) == Indices(a) + Indices(b)
  {
  }

  lemma {:induction false} IndicesPrefixed(code: nat, hits: seq<Hit>)
    ensures Indices(Prefixed(code, hits)) == Indices(hits)
  {
    if hits != [] {
      IndicesPrefixed(code, hits[1..]);
      IndicesConcat([hits[0].(codes := [code] + hits[0].codes)], Prefixed(code, hits[1..]));
      IndicesConcat([hits[0]], hits[1..]);
      assert hits == [hits[0]] + hits[1..];
    }
  }

  datatype Work = Visit(node: Node, depth: nat) | Wildcards(node: Node)

  ghost predicate InRange(work: seq<Work>, length: nat) {
    forall i :: 0 <= i < |work| && work[i].Visit? ==> work[i].depth <= length
  }

  /** What processing one work item will eventually push. */
  function Yield(item: Work, verb: string, path: seq<string>): seq<nat> {
    match item
    case Visit(node, depth) => if depth <= |path| then Indices(Search(node, verb, path[depth..])) else []
    case Wildcards(node) => Indices(Pick(node.wildcards, verb, WILDCARD_CODE))
  }

  /** What the whole stack will push, given what each item will; the top of the
      stack is its last element. */
  ghost function YieldAll<T>(due: Work -> seq<T>, work: seq<Work>): seq<T> {
    if work == [] then []
    else due(work[|work| - 1]) + YieldAll(due, work[..|work| - 1])
  }

  /** A visit outweighs everything it can push: its wildcards and two visits
      one segment further on. */
  ghost predicate Outweighs(weight: nat -> nat, depth: nat) {
    weight(depth) > 1 + 2 * weight(depth + 1)
  }

  ghost predicate Decreasing(weight: nat -> nat, length: nat) {
    && (forall depth :: weight(depth) >= 1)
    && (forall depth :: 0 <= depth < length ==> Outweighs(weight, depth))
  }

  ghost function VisitWeight(left: int): nat {
    if left <= 0 then 1 else 2 + 2 * VisitWeight(left - 1)
  }

  lemma VisitWeights(length: nat) returns (weight: nat -> nat)
    ensures Decreasing(weight, length)
  {
    weight := depth => VisitWeight(length - depth);
  }

  ghost function Weight(weight: nat -> nat, work: seq<Work>): nat {
    if work == [] then 0
    else
      var top := work[|work| - 1];
      (if top.Visit? then weight(top.depth) else 1) + Weight(weight, work[..|work| - 1])
  }

  lemma WeightPush(weight: nat -> nat, work: seq<Work>, item: Work)
    ensures Weight(weight, work + [item]) == (if item.Visit? then weight(item.depth) else 1) + Weight(weight, work)
  {
    assert (work + [item])[..|work|] == work;
  }

  lemma YieldPush<T>(due: Work -> seq<T>, work: seq<Work>, item: Work)
    ensures YieldAll(due, work + [item]) == due(item) + YieldAll(due, work)
  {
    assert (work + [item])[..|work|] == work;
  }

  /** One of the filtering loops of `push_matching`. */
  method PushSelected(entries: seq<Entry>, wanted: string, found: seq<nat>) returns (all: seq<nat>)
    ensures forall rank, code :: all == found + Indices(Select(entries, wanted, rank, code))
  {
    all := found;
    for i := 0 to |entries|
      invariant forall rank, code ::
          found + Indices(Select(entries, wanted, rank, code))
          == all + Indices(Select(entries[i..], wanted, rank, code))
    {
      assert entries[i..][0] == entries[i] && entries[i..][1..] == entries[i + 1..];
      if entries[i].verb == wanted {
        all := all + [entries[i].index];
      }
    }
  }

  lemma PickIndices(entries: seq<Entry>, verb: string, code: nat, found: seq<nat>)
    ensures var get := if verb == "HEAD" then Indices(Select(entries, "GET", 1, code)) else [];
            found + Indices(Pick(entries, verb, code))
            == found + Indices(Select(entries, verb, 0, code)) + get + Indices(Select(entries, METHOD_ALL, 2, code))
  {
    var exact := Select(entries, verb, 0, code);
    var get := if verb == "HEAD" then Select(entries, "GET", 1, code) else [];
    IndicesConcat(exact, get);
    IndicesConcat(exact + get, Select(entries, METHOD_ALL, 2, code));
  }

  method PushMatching(entries: seq<Entry>, verb: string, found: seq<nat>) returns (all: seq<nat>)
    ensures forall code :: all == found + Indices(Pick(entries, verb, code))
  {
    var exact := PushSelected(entries, verb, found);
    var get := exact;
    if verb == "HEAD" {
      get := PushSelected(entries, "GET", exact);
    }
    all := PushSelected(entries, METHOD_ALL, get);
    forall code ensures all == found + Indices(Pick(entries, verb, code)) {
      PickIndices(entries, verb, code, found);
    }
  }

  method Expand(work: seq<Work>, node: Node, depth: nat, path: seq<string>) returns (after: seq<Work>)
    requires depth < |path| && InRange(work, |path|)
    ensures after == Expanded(work, node, depth, path) && InRange(after, |path|)
  {
    after := work + [Wildcards(node)];
    if node.param.Some? {
      after := after + [Visit(node.param.value, depth + 1)];
    }
    if path[depth] in node.statics {
      after := after + [Visit(node.statics[path[depth]], depth + 1)];
    }
  }

  /** The work-stack loop of `collect_candidates`. */
  method CollectCandidates(root: Node, verb: string, path: seq<string>) returns (found: seq<nat>)
    ensures found == Indices(Search(root, verb, path))
  {
    found := [];
    var work := [Visit(root, 0)];
    ghost var weight := VisitWeights(|path|);
    ghost var total := Indices(Search(root, verb, path));
    ghost var due := Schedule(root, verb, path);
    while work != []
      invariant InRange(work, |path|)
      invariant found + YieldAll(due, work) == total
      decreases Weight(weight, work)
    {
      var next := work[|work| - 1];
      work := work[..|work| - 1];
      match next {
        case Wildcards(node) =>
          Reassociate(found, due(next), YieldAll(due, work), []);
          found := PushMatching(node.wildcards, verb, found);
        case Visit(node, depth) =>
          if depth == |path| {
            ghost var before := found;
            found := PushMatching(node.terminals, verb, found);
            found := PushMatching(node.wildcards, verb, found);
            Reassociate(before, Indices(Pick(node.terminals, verb, END_CODE)),
                        Indices(Pick(node.wildcards, verb, WILDCARD_CODE)), YieldAll(due, work));
          } else {
            ExpandedLighter(weight, work, node, depth, path);
            ExpandedYieldsSame(due, work, node, depth, path);
            work := Expand(work, node, depth, path);
          }
      }
    }
  }

  lemma Reassociate<T>(a: seq<T>, b: seq<T>, c: seq<T>, d: seq<T>)
    ensures a + b + c == a + (b + c)
    ensures a + b + c + d == a + ((b + c) + d)
  {
  }

  /** What each work item stands for, known by the facts the loop needs. */
  lemma Schedule(root: Node, verb: string, path: seq<string>) returns (due: Work -> seq<nat>)
    ensures due(Visit(root, 0)) == Indices(Search(root, verb, path))
    ensures forall node :: due(Wildcards(node)) == Indices(Pick(node.wildcards, verb, WILDCARD_CODE))
    ensures forall node :: due(Visit(node, |path|))
              == Indices(Pick(node.terminals, verb, END_CODE)) + Indices(Pick(node.wildcards, verb, WILDCARD_CODE))
    ensures forall node, depth :: 0 <= depth < |path| ==> YieldsInOrder(due, node, depth, path)
  {
    due := item => Yield(item, verb, path);
    assert path[0..] == path;
    forall node ensures due(Visit(node, |path|))
        == Indices(Pick(node.terminals, verb, END_CODE)) + Indices(Pick(node.wildcards, verb, WILDCARD_CODE))
    {
      IndicesConcat(Pick(node.terminals, verb, END_CODE), Pick(node.wildcards, verb, WILDCARD_CODE));
    }
    forall node, depth | 0 <= depth < |path| ensures YieldsInOrder(due, node, depth, path) {
      YieldVisit(node, depth, verb, path);
    }
  }

  lemma YieldVisit(node: Node, depth: nat, verb: string, path: seq<string>)
    requires depth < |path|
    ensures YieldsInOrder(item => Yield(item, verb, path), node, depth, path)
  {
    var rest := path[depth..];
    assert rest[0] == path[depth] && rest[1..] == path[depth + 1..];
    var below := if path[depth] in node.statics
      then Prefixed(STATIC_CODE, Search(node.statics[path[depth]], verb, rest[1..])) else [];
    var beside := if node.param.Some?
      then Prefixed(PARAM_CODE, Search(node.param.value, verb, rest[1..])) else [];
    IndicesConcat(below, beside);
    IndicesConcat(below + beside, Pick(node.wildcards, verb, WILDCARD_CODE));
    if path[depth] in node.statics {
      IndicesPrefixed(STATIC_CODE, Search(node.statics[path[depth]], verb, rest[1..]));
    }
    if node.param.Some? {
      IndicesPrefixed(PARAM_CODE, Search(node.param.value, verb, rest[1..]));
    }
  }

  /** The stack after an inner visit: pushed in reverse of the visiting order. */
  ghost function Expanded(work: seq<Work>, node: Node, depth: nat, path: seq<string>): seq<Work>
    requires depth < |path|
  {
    var one := work + [Wildcards(node)];
    var two := if node.param.Some? then one + [Visit(node.param.value, depth + 1)] else one;
    if path[depth] in node.statics then two + [Visit(node.statics[path[depth]], depth + 1)] else two
  }

  /** Expanding a visit makes the stack lighter. */
  lemma ExpandedLighter(weight: nat -> nat, work: seq<Work>, node: Node, depth: nat, path: seq<string>)
    requires depth < |path| && Decreasing(weight, |path|)
    ensures Weight(weight, Expanded(work, node, depth, path)) < weight(depth) + Weight(weight, work)
  {
    assert Outweighs(weight, depth) && weight(depth + 1) >= 1;
    var one := work + [Wildcards(node)];
    WeightPush(weight, work, Wildcards(node));
    var two := one;
    if node.param.Some? {
      two := one + [Visit(node.param.value, depth + 1)];
      WeightPush(weight, one, Visit(node.param.value, depth + 1));
    }
    if path[depth] in node.statics {
      WeightPush(weight, two, Visit(node.statics[path[depth]], depth + 1));
    }
  }

  /** An inner visit yields its static branch, its parameter branch, its wildcards. */
  ghost predicate YieldsInOrder(due: Work -> seq<nat>, node: Node, depth: nat, path: seq<string>)
    requires depth < |path|
  {
    due(Visit(node, depth))
    == (if path[depth] in node.statics then due(Visit(node.statics[path[depth]], depth + 1)) else [])
       + (if node.param.Some? then due(Visit(node.param.value, depth + 1)) else [])
       + due(Wildcards(node))
  }

  /** Expanding a visit keeps what the stack will yield. */
  lemma ExpandedYieldsSame(due: Work -> seq<nat>, work: seq<Work>, node: Node, depth: nat, path: seq<string>)
    requires depth < |path| && YieldsInOrder(due, node, depth, path)
    ensures YieldAll(due, Expanded(work, node, depth, path))
         == due(Visit(node, depth)) + YieldAll(due, work)
  {
    var one := work + [Wildcards(node)];
    YieldPush(due, work, Wildcards(node));
    var two := one;
    var beside := [];
    if node.param.Some? {
      var child := Visit(node.param.value, depth + 1);
      two := one + [child];
      beside := due(child);
      YieldPush(due, one, child);
    }
    var below := [];
    if path[depth] in node.statics {
      var child := Visit(node.statics[path[depth]], depth + 1);
      below := due(child);
      YieldPush(due, two, child);
    }
    Regroup(below, beside, due(Wildcards(node)), YieldAll(due, work));
  }

  lemma Regroup<T>(a: seq<T>, b: seq<T>, c: seq<T>, rest: seq<T>)
    ensures a + (b + (c + rest)) == a + b + c + rest
    ensures b + (c + rest) == [] + b + c + rest
    ensures [] + (c + rest) == [] + [] + c + rest
  {
  }

  // ------------------------------------------------------------ main theorems

  /** A route answers the request: its pattern matches and its method does. */
  predicate Answers(row: Row, verb: string, path: seq<string>) {
    Matches(row.pattern, path) && MethodRanks(row.verb, verb) != {}
  }

  /** The best way in which a route's method answers the request. */
  function BestRank(routeVerb: string, verb: string): nat {
    if routeVerb == verb then 0
    else if verb == "HEAD" && routeVerb == "GET" then 1
    else 2
  }

  /** The precedence key of a route: branch by branch along the path, then
      method rank, then registration order. */
  function Precedence(rows: seq<Row>, verb: string, i: nat): Hit
    requires i < |rows|
  {
    Hit(Codes(rows[i].pattern), BestRank(rows[i].verb, verb), i)
  }

  ghost predicate InPrecedenceOrder(rows: seq<Row>, verb: string, found: seq<nat>) {
    && (forall k :: 0 <= k < |found| ==> found[k] < |rows|)
    && (forall a, b :: 0 <= a < b < |found| ==>
          HitLess(Precedence(rows, verb, found[a]), Precedence(rows, verb, found[b])))
  }

  /** Exactly the answering routes, in precedence order. */
  ghost predicate IsCandidateList(rows: seq<Row>, verb: string, path: seq<string>, found: seq<nat>) {
    && InPrecedenceOrder(rows, verb, found)
    && (forall i: nat :: i in found <==> i < |rows| && Answers(rows[i], verb, path))
  }

  lemma SearchIsCandidateList(rows: seq<Row>, verb: string, path: seq<string>)
    requires verb != METHOD_ALL
    ensures IsCandidateList(rows, verb, path, Indices(Search(IndexOf(rows), verb, path)))
  {
    var hits := Search(IndexOf(rows), verb, path);
    var found := Indices(hits);
    IndexedOrdered(rows, |rows|);
    SearchSorted(IndexOf(rows), |rows|, verb, path);
    forall k | 0 <= k < |hits|
      ensures found[k] < |rows| && hits[k] == Precedence(rows, verb, found[k])
      ensures Answers(rows[found[k]], verb, path)
    {
      SearchIndexed(rows, |rows|, verb, path, hits[k]);
    }
    forall i: nat | i < |rows| && Answers(rows[i], verb, path) ensures i in found {
      var h := Precedence(rows, verb, i);
      SearchIndexed(rows, |rows|, verb, path, h);
      assert h in hits;
      var k :| 0 <= k < |hits| && hits[k] == h;
      assert found[k] == i;
    }
  }

  /** First occurrences come in precedence order. */
  ghost predicate FirstsInOrder(rows: seq<Row>, verb: string, found: seq<nat>) {
    && (forall k :: 0 <= k < |found| ==> found[k] < |rows|)
    && (forall a, b :: 0 <= a < b < |found| && found[a] !in found[..a] && found[b] !in found[..b] ==>
          HitLess(Precedence(rows, verb, found[a]), Precedence(rows, verb, found[b])))
  }

  lemma SearchFirstsInOrder(rows: seq<Row>, verb: string, path: seq<string>)
    ensures FirstsInOrder(rows, verb, Indices(Search(IndexOf(rows), verb, path)))
  {
    var hits := Search(IndexOf(rows), verb, path);
    var found := Indices(hits);
    IndexedOrdered(rows, |rows|);
    SearchSorted(IndexOf(rows), |rows|, verb, path);
    forall k | 0 <= k < |hits|
      ensures found[k] < |rows|
      ensures found[k] !in found[..k] ==> hits[k] == Precedence(rows, verb, found[k])
    {
      SearchIndexed(rows, |rows|, verb, path, hits[k]);
      var best := Precedence(rows, verb, found[k]);
      SearchIndexed(rows, |rows|, verb, path, best);
      assert best in hits;
      var c :| 0 <= c < |hits| && hits[c] == best;
      assert found[c] == found[k];
      if c < k {
        assert found[..k][c] == found[k];
      } else if k < c {
        assert HitLess(hits[k], hits[c]);
        LexLessTotal(hits[k].codes, hits[c].codes);
      }
    }
  }

  /** A candidate list is determined by the table: two of them are equal. */
  lemma {:induction false} CandidateListUnique(
    rows: seq<Row>, verb: string, a: seq<nat>, b: seq<nat>)
    requires InPrecedenceOrder(rows, verb, a) && InPrecedenceOrder(rows, verb, b)
    requires forall i :: i in a <==> i in b
    ensures a == b
  {
    assert a != [] ==> a[0] in b;
    assert b != [] ==> b[0] in a;
    if a != [] {
      FirstsEqual(rows, verb, a, b);
      forall x ensures x in a[1..] <==> x in b[1..] {
        TailMembers(rows, verb, a, x);
        TailMembers(rows, verb, b, x);
      }
      CandidateListUnique(rows, verb, a[1..], b[1..]);
      assert a == [a[0]] + a[1..] && b == [b[0]] + b[1..];
    }
  }

  lemma FirstsEqual(rows: seq<Row>, verb: string, a: seq<nat>, b: seq<nat>)
    requires InPrecedenceOrder(rows, verb, a) && InPrecedenceOrder(rows, verb, b)
    requires a != [] && b != [] && a[0] in b && b[0] in a
    ensures a[0] == b[0]
  {
    var i :| 0 <= i < |b| && b[i] == a[0];
    var j :| 0 <= j < |a| && a[j] == b[0];
    HitLessStrictOrder(Precedence(rows, verb, a[0]), Precedence(rows, verb, b[0]), Precedence(rows, verb, a[0]));
  }

  lemma TailMembers(rows: seq<Row>, verb: string, a: seq<nat>, x: nat)
    requires a != [] && InPrecedenceOrder(rows, verb, a)
    ensures x in a[1..] <==> x in a && x != a[0]
  {
    assert a == [a[0]] + a[1..];
    if x in a[1..] {
      var k :| 0 <= k < |a[1..]| && a[1..][k] == x;
      assert a[k + 1] == x;
      HitLessStrictOrder(Precedence(rows, verb, a[0]), Precedence(rows, verb, x), Precedence(rows, verb, x));
    }
  }

  /** `find_candidates` on the index of a table: for every request method but
      the reserved `*`, exactly the answering routes in precedence order. For
      `*` the list repeats an index if and only if an `all()` route matches. */
  method FindCandidates(root: Node, ghost rows: seq<Row>, verb: string, path: seq<string>)
    returns (found: seq<nat>)
    requires root == IndexOf(rows)
    ensures verb != METHOD_ALL ==> IsCandidateList(rows, verb, path, found)
    ensures Distinct(found) <==>
              verb != METHOD_ALL || forall i :: 0 <= i < |rows| ==> !Answers(rows[i], METHOD_ALL, path)
    ensures forall i: nat :: i in found <==> i < |rows| && Answers(rows[i], verb, path)
    ensures FirstsInOrder(rows, verb, found)
  {
    found := CollectCandidates(root, verb, path);
    SearchFirstsInOrder(rows, verb, path);
    if verb != METHOD_ALL {
      SearchIsCandidateList(rows, verb, path);
      CandidatesDistinct(rows, verb, found);
    } else {
      StarRepeats(rows, path);
    }
  }

  ghost predicate Distinct<T>(s: seq<T>) {
    forall i, j :: 0 <= i < j < |s| ==> s[i] != s[j]
  }

  lemma CandidatesDistinct(rows: seq<Row>, verb: string, found: seq<nat>)
    requires InPrecedenceOrder(rows, verb, found)
    ensures Distinct(found)
  {
    forall a, b | 0 <= a < b < |found| ensures found[a] != found[b] {
      var x := Precedence(rows, verb, found[a]);
      HitLessStrictOrder(x, x, x);
    }
  }

  /** A request method of literally `*` lists a matching `all()` route twice. */
  lemma StarRepeats(rows: seq<Row>, path: seq<string>)
    ensures var found := Indices(Search(IndexOf(rows), METHOD_ALL, path));
            && (Distinct(found) <==> forall i :: 0 <= i < |rows| ==> !Answers(rows[i], METHOD_ALL, path))
            && (forall i: nat :: i in found <==> i < |rows| && Answers(rows[i], METHOD_ALL, path))
  {
    var hits := Search(IndexOf(rows), METHOD_ALL, path);
    var found := Indices(hits);
    forall i: nat | i < |rows| && Answers(rows[i], METHOD_ALL, path)
      ensures i in found && !Distinct(found)
    {
      var exact := Hit(Codes(rows[i].pattern), 0, i);
      var any := Hit(Codes(rows[i].pattern), 2, i);
      SearchIndexed(rows, |rows|, METHOD_ALL, path, exact);
      SearchIndexed(rows, |rows|, METHOD_ALL, path, any);
      assert exact in hits && any in hits;
      var a :| 0 <= a < |hits| && hits[a] == exact;
      var b :| 0 <= b < |hits| && hits[b] == any;
      assert found[a] == i && found[b] == i && a != b;
    }
    forall k | 0 <= k < |hits|
      ensures found[k] < |rows| && Answers(rows[found[k]], METHOD_ALL, path)
    {
      SearchIndexed(rows, |rows|, METHOD_ALL, path, hits[k]);
    }
  }

  /** The smallest repetition: one `all()` route at the root, asked for by `*`. */
  lemma StarListsTwice()
    ensures Indices(Search(IndexOf([Row(METHOD_ALL, [])]), METHOD_ALL, [])) == [0, 0]
  {
    var rows := [Row(METHOD_ALL, [])];
    var entries := [Entry(METHOD_ALL, 0)];
    var root := IndexOf(rows);
    assert Indexed(rows, 0) == EMPTY;
    assert root == Node(map[], None, entries, []);
    assert entries[1..] == [];
    assert Select(entries, METHOD_ALL, 0, END_CODE) == [Hit([END_CODE], 0, 0)];
    assert Select(entries, METHOD_ALL, 2, END_CODE) == [Hit([END_CODE], 2, 0)];
    assert Pick(root.wildcards, METHOD_ALL, WILDCARD_CODE) == [];
    assert Search(root, METHOD_ALL, []) == [Hit([END_CODE], 0, 0), Hit([END_CODE], 2, 0)];
  }
}
