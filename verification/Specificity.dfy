/**
 The two orders on patterns: the branch order the trie follows, and the
 `pattern_specificity` key of `scoped_middlewares` (src/app/router.rs).
 */
module Specificity {
  import opened Segments
  import opened RouteIndex
  import opened Patterns

  function SpecificityKey(pattern: seq<Segment>): seq<nat> {
    if pattern == [] then []
    else
      [match pattern[0] case Static(_) => 2 case Param(_) => 1 case Wildcard(_) => 0]
      + SpecificityKey(pattern[1..])
  }

  /** `p` is preferred by the specificity key: a greater vector of bytes. */
  predicate MoreSpecific(p: seq<Segment>, q: seq<Segment>) {
    LexLess(SpecificityKey(q), SpecificityKey(p))
  }

  /** `p` is preferred by the trie. */
  predicate TrieFirst(p: seq<Segment>, q: seq<Segment>) {
    LexLess(Codes(p), Codes(q))
  }

  /** `longer` is `shorter`, in shape, followed by a trailing wildcard. */
  predicate AddsWildcard(longer: seq<Segment>, shorter: seq<Segment>) {
    && |longer| == |shorter| + 1
    && longer[|shorter|].Wildcard?
    && ConflictKey(longer[..|shorter|]) == ConflictKey(shorter)
  }

  /** On one path, equal branch codes mean equal shapes. */
  lemma {:induction false} SameCodesSameShape(p: seq<Segment>, q: seq<Segment>, path: seq<string>)
    requires Matches(p, path) && Matches(q, path)
    ensures Codes(p) == Codes(q) <==> ConflictKey(p) == ConflictKey(q)
  {
    if p != [] && q != [] && !p[0].Wildcard? && !q[0].Wildcard? {
      SameCodesSameShape(p[1..], q[1..], path[1..]);
      assert Codes(p)[1..] == Codes(p[1..]) && Codes(q)[1..] == Codes(q[1..]);
      assert ConflictKey(p)[1..] == ConflictKey(p[1..]) && ConflictKey(q)[1..] == ConflictKey(q[1..]);
      assert Codes(p) == [Codes(p)[0]] + Codes(p)[1..] && Codes(q) == [Codes(q)[0]] + Codes(q)[1..];
      assert ConflictKey(p) == [ConflictKey(p)[0]] + ConflictKey(p)[1..];
      assert ConflictKey(q) == [ConflictKey(q)[0]] + ConflictKey(q)[1..];
    } else {
      assert p != [] ==> Codes(p)[0] != END_CODE;
      assert q != [] ==> Codes(q)[0] != END_CODE;
      if p != [] && q != [] {
        assert p[0].Wildcard? ==> Codes(p)[0] == WILDCARD_CODE && |ConflictKey(p)| == 1;
        assert q[0].Wildcard? ==> Codes(q)[0] == WILDCARD_CODE && |ConflictKey(q)| == 1;
      }
    }
  }

  lemma KeyParts(pattern: seq<Segment>)
    requires pattern != []
    ensures ConflictKey(pattern) == [ConflictKey(pattern)[0]] + ConflictKey(pattern[1..])
    ensures ConflictKey(pattern)[1..] == ConflictKey(pattern[1..])
  {
  }

  lemma AddsWildcardStep(longer: seq<Segment>, shorter: seq<Segment>)
    requires longer != [] && shorter != []
    ensures AddsWildcard(longer, shorter) <==>
              ConflictKey(longer)[0] == ConflictKey(shorter)[0] && AddsWildcard(longer[1..], shorter[1..])
  {
    if |longer| == |shorter| + 1 {
      var front := longer[..|shorter|];
      assert front[1..] == longer[1..][..|shorter| - 1];
      assert front[0] == longer[0];
      KeyParts(front);
      KeyParts(shorter);
    }
  }

  /** For two different shapes matching one path, the specificity key prefers
      the pattern the trie prefers, except exactly when one pattern is the
      other plus a trailing wildcard that absorbs the empty suffix; there the
      trie takes the exact route and the key takes the wildcard. */
  lemma {:induction false} OrdersAgreeExcept(p: seq<Segment>, q: seq<Segment>, path: seq<string>)
    requires Matches(p, path) && Matches(q, path) && ConflictKey(p) != ConflictKey(q)
    ensures (MoreSpecific(p, q) <==> TrieFirst(p, q)) <==> !AddsWildcard(p, q) && !AddsWildcard(q, p)
    ensures MoreSpecific(p, q) != MoreSpecific(q, p)
    ensures TrieFirst(p, q) != TrieFirst(q, p)
    ensures AddsWildcard(p, q) ==> MoreSpecific(p, q) && TrieFirst(q, p)
  {
    if p != [] && q != [] {
      assert SpecificityKey(p)[1..] == SpecificityKey(p[1..]) && SpecificityKey(q)[1..] == SpecificityKey(q[1..]);
      if ConflictKey(p)[0] == ConflictKey(q)[0] && !p[0].Wildcard? {
        assert Codes(p)[1..] == Codes(p[1..]) && Codes(q)[1..] == Codes(q[1..]);
        assert ConflictKey(p) == [ConflictKey(p)[0]] + ConflictKey(p[1..]);
        assert ConflictKey(q) == [ConflictKey(q)[0]] + ConflictKey(q[1..]);
        OrdersAgreeExcept(p[1..], q[1..], path[1..]);
        AddsWildcardStep(p, q);
        AddsWildcardStep(q, p);
      } else {
        AddsWildcardStep(p, q);
        AddsWildcardStep(q, p);
      }
    } else {
      OneEmpty(p, q, path);
    }
  }

  lemma OneEmpty(p: seq<Segment>, q: seq<Segment>, path: seq<string>)
    requires Matches(p, path) && Matches(q, path) && ConflictKey(p) != ConflictKey(q)
    requires p == [] || q == []
    ensures p == [] ==> AddsWildcard(q, p) && !AddsWildcard(p, q)
    ensures q == [] ==> AddsWildcard(p, q) && !AddsWildcard(q, p)
    ensures p == [] ==> MoreSpecific(q, p) && !MoreSpecific(p, q) && TrieFirst(p, q) && !TrieFirst(q, p)
    ensures q == [] ==> MoreSpecific(p, q) && !MoreSpecific(q, p) && TrieFirst(q, p) && !TrieFirst(p, q)
  {
    assert p != [] ==> p[..0] == [] && p[1..] == [];
    assert q != [] ==> q[..0] == [] && q[1..] == [];
  }

  /** The smallest disagreement: `/a` against `/a` plus a wildcard, on the path `/a`. */
  lemma OrdersDisagreeOnEmptySuffix()
    ensures var exact, wild := [Static("a")], [Static("a"), Wildcard("rest")];
            && Matches(exact, ["a"]) && Matches(wild, ["a"])
            && TrieFirst(exact, wild) && MoreSpecific(wild, exact)
  {
    var exact, wild := [Static("a")], [Static("a"), Wildcard("rest")];
    assert exact[1..] == [] && wild[1..] == [Wildcard("rest")] && ["a"][1..] == [];
    assert wild[..1] == exact;
    OrdersAgreeExcept(wild, exact, ["a"]);
  }
}
