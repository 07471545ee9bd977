/**
 `matching_methods`: the routes whose pattern matches a path whatever their
 method, behind the `Allow` header (src/app/trie.rs).
 */
module RouteListing {
  import opened Segments
  import opened RouteIndex

  /** Every entry below `node` whose pattern matches the remaining path; an
      absent child lists nothing. */
  function Listing(node: Node, path: seq<string>): seq<Entry>
    decreases |path|
  {
    if path == [] then node.wildcards + node.terminals
    else node.wildcards + (Listing(StaticChild(node, path[0]), path[1..]) + Listing(ParamChild(node), path[1..]))
  }

  lemma EmptyListing(path: seq<string>)
    ensures Listing(EMPTY, path) == []
  {
  }

  ghost function Occurrences(x: Entry, entries: seq<Entry>): nat {
    multiset(entries)[x]
  }

  ghost function Once(x: Entry, entry: Entry, when: bool): nat {
    if when && x == entry then 1 else 0
  }

  /** An entry of a listing is here, in the static branch or in the parameter branch. */
  lemma OccursInBranches(x: Entry, node: Node, path: seq<string>)
    requires path != []
    ensures Occurrences(x, Listing(node, path))
         == Occurrences(x, node.wildcards)
            + Occurrences(x, Listing(StaticChild(node, path[0]), path[1..]))
            + Occurrences(x, Listing(ParamChild(node), path[1..]))
  {
  }

  /** What an insertion does to the entries of the node itself. */
  lemma InsertedEntries(node: Node, pattern: seq<Segment>, entry: Entry)
    ensures var after := Insert(node, pattern, entry);
            && after.terminals == (if pattern == [] then node.terminals + [entry] else node.terminals)
            && after.wildcards
               == (if |pattern| == 1 && pattern[0].Wildcard? then node.wildcards + [entry] else node.wildcards)
            && (pattern == [] || pattern[0].Wildcard? ==> after.statics == node.statics && after.param == node.param)
  {
  }

  lemma ListedAtEnd(x: Entry, node: Node, after: Node, entry: Entry, ends: bool, wild: bool)
    requires !(ends && wild)
    requires after.terminals == if ends then node.terminals + [entry] else node.terminals
    requires after.wildcards == if wild then node.wildcards + [entry] else node.wildcards
    ensures Occurrences(x, after.wildcards + after.terminals)
         == Occurrences(x, node.wildcards + node.terminals) + Once(x, entry, ends || wild)
  {
    OneMoreOccurs(x, node.wildcards, entry);
    OneMoreOccurs(x, node.terminals, entry);
    OccursInBoth(x, node.wildcards, node.terminals);
    OccursInBoth(x, after.wildcards, after.terminals);
  }

  lemma ListedBefore(x: Entry, node: Node, after: Node, entry: Entry, wild: bool, path: seq<string>)
    requires path != [] && after.statics == node.statics && after.param == node.param
    requires after.wildcards == if wild then node.wildcards + [entry] else node.wildcards
    ensures Occurrences(x, Listing(after, path)) == Occurrences(x, Listing(node, path)) + Once(x, entry, wild)
  {
    OneMoreOccurs(x, node.wildcards, entry);
    OccursInBranches(x, node, path);
    OccursInBranches(x, after, path);
  }

  lemma ListedHere(x: Entry, node: Node, pattern: seq<Segment>, entry: Entry, path: seq<string>)
    requires pattern == [] || pattern[0].Wildcard? || path == []
    ensures Occurrences(x, Listing(Insert(node, pattern, entry), path))
         == Occurrences(x, Listing(node, path)) + Once(x, entry, Matches(pattern, path))
  {
    InsertedEntries(node, pattern, entry);
    var after, ends, wild := Insert(node, pattern, entry), pattern == [], |pattern| == 1 && pattern[0].Wildcard?;
    if path == [] {
      ListedAtEnd(x, node, after, entry, ends, wild);
    } else {
      ListedBefore(x, node, after, entry, wild, path);
    }
  }

  lemma OneMoreOccurs(x: Entry, entries: seq<Entry>, entry: Entry)
    ensures Occurrences(x, entries + [entry]) == Occurrences(x, entries) + Once(x, entry, true)
  {
  }

  lemma OccursInBoth(x: Entry, a: seq<Entry>, b: seq<Entry>)
    ensures Occurrences(x, a + b) == Occurrences(x, a) + Occurrences(x, b)
  {
  }

  /** The branches of the node after an insertion that goes further down. */
  lemma BranchesAfterInsert(node: Node, pattern: seq<Segment>, entry: Entry, path: seq<string>)
    requires pattern != [] && !pattern[0].Wildcard? && path != []
    ensures var after := Insert(node, pattern, entry);
            && after.wildcards == node.wildcards
            && ParamChild(after)
               == (if pattern[0].Param? then Insert(ParamChild(node), pattern[1..], entry) else ParamChild(node))
            && StaticChild(after, path[0])
               == (if pattern[0] == Static(path[0]) then Insert(StaticChild(node, path[0]), pattern[1..], entry)
                   else StaticChild(node, path[0]))
  {
  }

  /** Inserting a route adds its entry to the listing once if it matches. */
  lemma {:induction false} ListingAfterInsert(
    x: Entry, node: Node, pattern: seq<Segment>, entry: Entry, path: seq<string>)
    ensures Occurrences(x, Listing(Insert(node, pattern, entry), path))
         == Occurrences(x, Listing(node, path)) + Once(x, entry, Matches(pattern, path))
    decreases |pattern|
  {
    if pattern == [] || pattern[0].Wildcard? || path == [] {
      ListedHere(x, node, pattern, entry, path);
    } else {
      BranchesAfterInsert(node, pattern, entry, path);
      OccursInBranches(x, node, path);
      OccursInBranches(x, Insert(node, pattern, entry), path);
      if pattern[0].Param? {
        ListingAfterInsert(x, ParamChild(node), pattern[1..], entry, path[1..]);
      } else if pattern[0].text == path[0] {
        ListingAfterInsert(x, StaticChild(node, path[0]), pattern[1..], entry, path[1..]);
      }
    }
  }

  /** The rows among the first `n` whose pattern matches, in registration order. */
  function Registered(rows: seq<Row>, path: seq<string>, n: nat): seq<Entry>
    requires n <= |rows|
  {
    if n == 0 then []
    else Registered(rows, path, n - 1)
         + (if Matches(rows[n - 1].pattern, path) then [Entry(rows[n - 1].verb, n - 1)] else [])
  }

  lemma {:induction false} ListingIsRegistered(x: Entry, rows: seq<Row>, path: seq<string>, n: nat)
    requires n <= |rows|
    ensures Occurrences(x, Listing(Indexed(rows, n), path)) == Occurrences(x, Registered(rows, path, n))
  {
    if n == 0 {
      EmptyListing(path);
    } else {
      var entry := Entry(rows[n - 1].verb, n - 1);
      ListingIsRegistered(x, rows, path, n - 1);
      ListingAfterInsert(x, Indexed(rows, n - 1), rows[n - 1].pattern, entry, path);
      OneMoreOccurs(x, Registered(rows, path, n - 1), entry);
    }
  }

  lemma {:induction false} RegisteredAscending(rows: seq<Row>, path: seq<string>, n: nat)
    requires n <= |rows|
    ensures Ascending(Registered(rows, path, n), n)
  {
    if n > 0 {
      RegisteredAscending(rows, path, n - 1);
    }
  }

  /** The stable sort by registration index. */
  function InsertByIndex(e: Entry, sorted: seq<Entry>): seq<Entry> {
    if sorted == [] || e.index <= sorted[0].index then [e] + sorted
    else [sorted[0]] + InsertByIndex(e, sorted[1..])
  }

  function SortByIndex(entries: seq<Entry>): seq<Entry> {
    if entries == [] then [] else InsertByIndex(entries[0], SortByIndex(entries[1..]))
  }

  ghost predicate IndexSorted(entries: seq<Entry>) {
    forall i, j :: 0 <= i < j < |entries| ==> entries[i].index <= entries[j].index
  }

  lemma {:induction false} InsertByIndexSorts(e: Entry, sorted: seq<Entry>)
    requires IndexSorted(sorted)
    ensures IndexSorted(InsertByIndex(e, sorted))
    ensures multiset(InsertByIndex(e, sorted)) == multiset(sorted) + multiset{e}
  {
    if sorted != [] && e.index > sorted[0].index {
      var first, tail := sorted[0], sorted[1..];
      InsertByIndexSorts(e, tail);
      assert sorted == [first] + tail;
      AllAtLeast(InsertByIndex(e, tail), tail, e, first.index);
      SortedPrepend(first, InsertByIndex(e, tail));
    } else {
      SortedPrepend(e, sorted);
    }
  }

  lemma AllAtLeast(rest: seq<Entry>, tail: seq<Entry>, e: Entry, least: nat)
    requires multiset(rest) == multiset(tail) + multiset{e} && least <= e.index
    requires forall k :: 0 <= k < |tail| ==> least <= tail[k].index
    ensures forall k :: 0 <= k < |rest| ==> least <= rest[k].index
  {
    forall k | 0 <= k < |rest| ensures least <= rest[k].index {
      assert rest[k] in multiset(rest);
    }
  }

  lemma SortedPrepend(e: Entry, rest: seq<Entry>)
    requires IndexSorted(rest) && forall k :: 0 <= k < |rest| ==> e.index <= rest[k].index
    ensures IndexSorted([e] + rest)
    ensures multiset([e] + rest) == multiset(rest) + multiset{e}
  {
  }

  lemma {:induction false} SortByIndexSorts(entries: seq<Entry>)
    ensures IndexSorted(SortByIndex(entries))
    ensures multiset(SortByIndex(entries)) == multiset(entries)
  {
    if entries != [] {
      SortByIndexSorts(entries[1..]);
      InsertByIndexSorts(entries[0], SortByIndex(entries[1..]));
      assert entries == [entries[0]] + entries[1..];
    }
  }

  lemma {:induction false} SortedIsAscending(sorted: seq<Entry>, ascending: seq<Entry>, bound: nat)
    requires IndexSorted(sorted) && Ascending(ascending, bound)
    requires multiset(sorted) == multiset(ascending)
    ensures sorted == ascending
  {
    SameLength(sorted, ascending);
    if sorted != [] {
      FirstsAgree(sorted, ascending, bound);
      WithoutFirst(sorted);
      WithoutFirst(ascending);
      RestsStay(sorted, ascending, bound);
      SortedIsAscending(sorted[1..], ascending[1..], bound);
      assert sorted == [sorted[0]] + sorted[1..] && ascending == [ascending[0]] + ascending[1..];
    }
  }

  lemma SameLength(a: seq<Entry>, b: seq<Entry>)
    requires multiset(a) == multiset(b)
    ensures |a| == |b|
  {
    assert |a| == |multiset(a)| && |b| == |multiset(b)|;
  }

  lemma RestsStay(sorted: seq<Entry>, ascending: seq<Entry>, bound: nat)
    requires IndexSorted(sorted) && Ascending(ascending, bound) && sorted != [] && ascending != []
    ensures IndexSorted(sorted[1..]) && Ascending(ascending[1..], bound)
  {
  }

  lemma WithoutFirst(entries: seq<Entry>)
    requires entries != []
    ensures multiset(entries[1..]) == multiset(entries) - multiset{entries[0]}
  {
    assert entries == [entries[0]] + entries[1..];
  }

  lemma FirstsAgree(sorted: seq<Entry>, ascending: seq<Entry>, bound: nat)
    requires IndexSorted(sorted) && Ascending(ascending, bound) && sorted != [] && ascending != []
    requires multiset(sorted) == multiset(ascending)
    ensures sorted[0] == ascending[0]
  {
    assert sorted[0] in multiset(ascending) && ascending[0] in multiset(sorted);
    var i :| 0 <= i < |ascending| && ascending[i] == sorted[0];
    var j :| 0 <= j < |sorted| && sorted[j] == ascending[0];
    assert i == 0;
  }

  ghost predicate OnlyVisits(work: seq<Work>, length: nat) {
    forall i :: 0 <= i < |work| ==> work[i].Visit? && work[i].depth <= length
  }

  method PushChildren(work: seq<Work>, node: Node, depth: nat, path: seq<string>) returns (after: seq<Work>)
    requires depth < |path| && OnlyVisits(work, |path|)
    ensures after == WithChildren(work, node, depth, path) && OnlyVisits(after, |path|)
  {
    after := work;
    if node.param.Some? {
      after := after + [Visit(node.param.value, depth + 1)];
    }
    if path[depth] in node.statics {
      after := after + [Visit(node.statics[path[depth]], depth + 1)];
    }
  }

  /** The work-stack loop of `collect_methods`. */
  method CollectMethods(root: Node, path: seq<string>) returns (found: seq<Entry>)
    ensures found == Listing(root, path)
  {
    found := [];
    var work := [Visit(root, 0)];
    ghost var total := Listing(root, path);
    ghost var weight := VisitWeights(|path|);
    ghost var due := ListingSchedule(root, path);
    while work != []
      invariant OnlyVisits(work, |path|)
      invariant found + YieldAll(due, work) == total
      decreases Weight(weight, work)
    {
      var Visit(node, depth) := work[|work| - 1];
      work := work[..|work| - 1];
      ghost var before := found;
      found := found + node.wildcards;
      if depth == |path| {
        found := found + node.terminals;
        Reassociate(before, node.wildcards, node.terminals, YieldAll(due, work));
      } else {
        Reassociate(before, node.wildcards, YieldAll(due, WithChildren(work, node, depth, path)), []);
        ChildrenLighter(weight, work, node, depth, path);
        ChildrenYieldSame(due, work, node, depth, path);
        work := PushChildren(work, node, depth, path);
      }
    }
  }

  /** The stack of `collect_methods` after an inner visit. */
  ghost function WithChildren(work: seq<Work>, node: Node, depth: nat, path: seq<string>): seq<Work>
    requires depth < |path|
  {
    var one := if node.param.Some? then work + [Visit(node.param.value, depth + 1)] else work;
    if path[depth] in node.statics then one + [Visit(node.statics[path[depth]], depth + 1)] else one
  }

  lemma ChildrenLighter(weight: nat -> nat, work: seq<Work>, node: Node, depth: nat, path: seq<string>)
    requires depth < |path| && Decreasing(weight, |path|)
    ensures Weight(weight, WithChildren(work, node, depth, path)) < weight(depth) + Weight(weight, work)
  {
    assert Outweighs(weight, depth) && weight(depth + 1) >= 1;
    var one := work;
    if node.param.Some? {
      one := work + [Visit(node.param.value, depth + 1)];
      WeightPush(weight, work, Visit(node.param.value, depth + 1));
    }
    if path[depth] in node.statics {
      WeightPush(weight, one, Visit(node.statics[path[depth]], depth + 1));
    }
  }

  /** An inner visit lists its wildcards and then its two children. */
  ghost predicate ListsInOrder(due: Work -> seq<Entry>, node: Node, depth: nat, path: seq<string>)
    requires depth < |path|
  {
    due(Visit(node, depth))
    == node.wildcards
       + ((if path[depth] in node.statics then due(Visit(node.statics[path[depth]], depth + 1)) else [])
          + (if node.param.Some? then due(Visit(node.param.value, depth + 1)) else []))
  }

  /** What each work item stands for, known by the three facts the loop needs. */
  lemma ListingSchedule(root: Node, path: seq<string>) returns (due: Work -> seq<Entry>)
    ensures due(Visit(root, 0)) == Listing(root, path)
    ensures forall node :: due(Visit(node, |path|)) == node.wildcards + node.terminals
    ensures forall node, depth :: 0 <= depth < |path| ==> ListsInOrder(due, node, depth, path)
  {
    due := (item: Work) => if item.Visit? && item.depth <= |path| then Listing(item.node, path[item.depth..]) else [];
    assert path[0..] == path;
    forall node, depth | 0 <= depth < |path| ensures ListsInOrder(due, node, depth, path) {
      assert path[depth..][0] == path[depth] && path[depth..][1..] == path[depth + 1..];
      EmptyListing(path[depth + 1..]);
    }
  }

  lemma ChildrenYieldSame(due: Work -> seq<Entry>, work: seq<Work>, node: Node, depth: nat, path: seq<string>)
    requires depth < |path| && ListsInOrder(due, node, depth, path)
    ensures node.wildcards + YieldAll(due, WithChildren(work, node, depth, path))
         == due(Visit(node, depth)) + YieldAll(due, work)
  {
    var one := work;
    var beside := [];
    if node.param.Some? {
      var child := Visit(node.param.value, depth + 1);
      one := work + [child];
      beside := due(child);
      YieldPush(due, work, child);
    }
    if path[depth] in node.statics {
      YieldPush(due, one, Visit(node.statics[path[depth]], depth + 1));
    }
  }

  /** `matching_methods` on the index of a table: every route whose pattern
      matches, whatever its method, once each and in registration order. */
  method MatchingMethods(root: Node, ghost rows: seq<Row>, path: seq<string>) returns (found: seq<Entry>)
    requires root == IndexOf(rows)
    ensures found == Registered(rows, path, |rows|)
  {
    found := CollectMethods(root, path);
    forall x ensures multiset(found)[x] == multiset(Registered(rows, path, |rows|))[x] {
      ListingIsRegistered(x, rows, path, |rows|);
    }
    RegisteredAscending(rows, path, |rows|);
    SortByIndexSorts(found);
    SortedIsAscending(SortByIndex(found), Registered(rows, path, |rows|), |rows|);
    found := SortByIndex(found);
  }

  lemma {:induction false} RegisteredMember(rows: seq<Row>, path: seq<string>, n: nat, e: Entry)
    requires n <= |rows|
    ensures e in Registered(rows, path, n)
       <==> e.index < n && e.verb == rows[e.index].verb && Matches(rows[e.index].pattern, path)
  {
    if n > 0 {
      RegisteredMember(rows, path, n - 1, e);
    }
  }
}
