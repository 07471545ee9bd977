/**
 Route patterns as parsed segments, and the linear matcher that tries one
 pattern against the decoded segments of a request path (src/app/router.rs).
 */
module Segments {
  import opened Basics

  /** The pseudo-method under which `all()` routes are registered. */
  const METHOD_ALL := "*"

  datatype Segment = Static(text: string) | Param(name: string) | Wildcard(name: string)

  type Params = map<string, string>

  /** One path segment against one non-wildcard pattern segment. */
  predicate Accepts(seg: Segment, actual: string) {
    seg.Param? || seg == Static(actual)
  }

  /** The pattern matches the path; a wildcard matches only in last position. */
  predicate Matches(pattern: seq<Segment>, path: seq<string>) {
    if pattern == [] then path == []
    else if pattern[0].Wildcard? then |pattern| == 1
    else path != [] && Accepts(pattern[0], path[0]) && Matches(pattern[1..], path[1..])
  }

  /** Joins the pieces with `/` between them. */
  function JoinSlash(pieces: seq<string>): string {
    if pieces == [] then ""
    else if |pieces| == 1 then pieces[0]
    else pieces[0] + "/" + JoinSlash(pieces[1..])
  }

  /** The captures of a matching pattern, added to `acc` left to right. */
  function Captures(pattern: seq<Segment>, path: seq<string>, acc: Params): Params
    requires Matches(pattern, path)
  {
    if pattern == [] then acc
    else
      match pattern[0]
      case Wildcard(name) => acc[name := JoinSlash(path)]
      case Param(name) => Captures(pattern[1..], path[1..], acc[name := path[0]])
      case Static(_) => Captures(pattern[1..], path[1..], acc)
  }

  /** The number of leading segments that must each meet one path segment. */
  function Fixed(pattern: seq<Segment>): nat {
    if pattern != [] && pattern[|pattern| - 1].Wildcard? then |pattern| - 1 else |pattern|
  }

  /** Matching without recursion: position by position, with only a trailing
      wildcard able to absorb the remaining (possibly empty) suffix. */
  ghost predicate MatchesPointwise(pattern: seq<Segment>, path: seq<string>) {
    var n := Fixed(pattern);
    && (if n < |pattern| then n <= |path| else n == |path|)
    && forall i :: 0 <= i < n ==> !pattern[i].Wildcard? && Accepts(pattern[i], path[i])
  }

  lemma {:induction false} MatchesIsPointwise(pattern: seq<Segment>, path: seq<string>)
    ensures Matches(pattern, path) <==> MatchesPointwise(pattern, path)
  {
    if pattern == [] {
    } else if pattern[0].Wildcard? {
    } else if path == [] {
    } else {
      MatchesIsPointwise(pattern[1..], path[1..]);
      var n := Fixed(pattern);
      assert Fixed(pattern[1..]) == n - 1;
      if MatchesPointwise(pattern[1..], path[1..]) && Accepts(pattern[0], path[0]) {
        forall i | 0 <= i < n ensures !pattern[i].Wildcard? && Accepts(pattern[i], path[i]) {
          if i > 0 {
            assert pattern[1..][i - 1] == pattern[i] && path[1..][i - 1] == path[i];
          }
        }
      }
      if MatchesPointwise(pattern, path) {
        forall i | 0 <= i < n - 1
          ensures !pattern[1..][i].Wildcard? && Accepts(pattern[1..][i], path[1..][i])
        {
          assert pattern[1..][i] == pattern[i + 1] && path[1..][i] == path[i + 1];
        }
      }
    }
  }

  /** The loop of `match_decoded_pattern`. */
  method MatchDecodedPattern(pattern: seq<Segment>, path: seq<string>) returns (r: Option<Params>)
    ensures r.Some? <==> Matches(pattern, path)
    ensures r.Some? ==> r.value == Captures(pattern, path, map[])
  {
    var params: Params := map[];
    var index := 0;
    while index < |pattern|
      invariant 0 <= index <= |pattern| && index <= |path|
      invariant Matches(pattern, path) <==> Matches(pattern[index..], path[index..])
      invariant Matches(pattern, path) ==>
                  Captures(pattern, path, map[]) == Captures(pattern[index..], path[index..], params)
    {
      var seg := pattern[index];
      assert pattern[index..][0] == seg && pattern[index..][1..] == pattern[index + 1..];
      if seg.Wildcard? {
        if index != |pattern| - 1 {
          return None;
        }
        return Some(params[seg.name := JoinSlash(path[index..])]);
      }
      if index >= |path| {
        return None;
      }
      assert path[index..][0] == path[index] && path[index..][1..] == path[index + 1..];
      match seg {
        case Static(text) =>
          if text != path[index] {
            return None;
          }
        case Param(name) =>
          params := params[name := path[index]];
      }
      index := index + 1;
    }
    if index != |path| {
      return None;
    }
    return Some(params);
  }
}
