/** Host constraints of routes (src/app/router.rs). */
module Hosts {
  import opened Basics
  import opened Text
  import opened Patterns

  datatype HostPattern = Exact(host: string) | WildcardSubdomain(suffix: string)

  predicate EndsWith(s: string, suffix: string) {
    |suffix| <= |s| && s[|s| - |suffix|..] == suffix
  }

  /** `host` is a proper subdomain of `suffix`: more text, a dot, the suffix. */
  predicate IsSubdomain(host: string, suffix: string) {
    |host| > |suffix| + 1 && EndsWith(host, suffix) && host[|host| - |suffix| - 1] == '.'
  }

  predicate MatchesNormalized(pattern: HostPattern, host: string) {
    match pattern
    case Exact(expected) => expected == host
    case WildcardSubdomain(suffix) => IsSubdomain(host, suffix)
  }

  // ------------------------------------------------------------- normalising

  predicate HasSpace(s: string) {
    exists i :: 0 <= i < |s| && SpaceAhead(s[i..]) > 0
  }

  /** The position of the first `c` at or after `from`, or the length. */
  function FirstIndex(s: string, c: char, from: nat): (i: nat)
    requires from <= |s|
    ensures from <= i <= |s| && (i < |s| ==> s[i] == c) && c !in s[from..i]
    decreases |s| - from
  {
    if from == |s| || s[from] == c then from
    else
      var i := FirstIndex(s, c, from + 1);
      assert s[from..i] == [s[from]] + s[from + 1..i];
      i
  }

  /** The position just after the last `c` before `end`, or 0. */
  function AfterLast(s: string, c: char, end: nat): (i: nat)
    requires end <= |s|
    ensures i <= end && (i > 0 ==> s[i - 1] == c) && c !in s[i..end]
  {
    if end == 0 || s[end - 1] == c then end
    else
      var i := AfterLast(s, c, end - 1);
      assert s[i..end] == s[i..end - 1] + [s[end - 1]];
      i
  }

  /** `strip_valid_port`: drops a numeric port, refuses a malformed one. */
  function StripPort(host: string): Option<string> {
    if host != "" && host[0] == '[' then
      var end := FirstIndex(host, ']', 0);
      if end == |host| then None
      else
        var after := host[end + 1..];
        if after == "" then Some(host)
        else if after[0] != ':' || after[1..] == "" || !AllDigits(after[1..]) then None
        else Some(host[..end + 1])
    else
      var port := AfterLast(host, ':', |host|);
      if port > 0 && host[port..] != "" && AllDigits(host[port..]) then Some(host[..port - 1])
      else if port > 0 && ':' !in host[..port - 1] then None
      else Some(host)
  }

  predicate IsPlainHost(s: string) {
    s != "" && '@' !in s && '/' !in s && '\\' !in s && !HasControl(s) && !HasSpace(s)
  }

  function NormalizeHost(raw: string): Option<string> {
    var trimmed := Trim(raw);
    if !IsPlainHost(trimmed) then None
    else
      match StripPort(trimmed)
      case None => None
      case Some(bare) => if bare == "" then None else Some(Lower(bare))
  }

  function ParseHost(pattern: string): Result<HostPattern, RouteError> {
    match NormalizeHost(pattern)
    case None => Err(InvalidHostPattern)
    case Some(host) =>
      if |host| >= 2 && host[..2] == "*." then
        if host[2..] == "" || '*' in host[2..] then Err(InvalidHostPattern)
        else Ok(WildcardSubdomain(host[2..]))
      else if '*' in host then Err(InvalidHostPattern)
      else Ok(Exact(host))
  }

  /** A route without a host constraint answers any request; one with a
      constraint needs a request host that normalises and matches. */
  predicate HostMatches(pattern: Option<HostPattern>, host: Option<string>) {
    pattern.None?
    || (host.Some? && NormalizeHost(host.value).Some?
        && MatchesNormalized(pattern.value, NormalizeHost(host.value).value))
  }

  // ----------------------------------------------------------------- overlap

  predicate SuffixOverlaps(moreSpecific: string, broader: string) {
    |moreSpecific| > |broader|
    && EndsWith(moreSpecific, broader)
    && moreSpecific[|moreSpecific| - |broader| - 1] == '.'
  }

  predicate HostsOverlap(left: Option<HostPattern>, right: Option<HostPattern>) {
    match (left, right)
    case (Some(Exact(a)), Some(Exact(b))) => a == b
    case (Some(Exact(a)), Some(WildcardSubdomain(s))) => MatchesNormalized(WildcardSubdomain(s), a)
    case (Some(WildcardSubdomain(s)), Some(Exact(a))) => MatchesNormalized(WildcardSubdomain(s), a)
    case (Some(WildcardSubdomain(s)), Some(WildcardSubdomain(t))) =>
      s == t || SuffixOverlaps(s, t) || SuffixOverlaps(t, s)
    case _ => true
  }

  /** A constraint holds of a normalised host. */
  predicate Admits(pattern: Option<HostPattern>, host: string) {
    pattern.None? || MatchesNormalized(pattern.value, host)
  }

  lemma OverlapSymmetric(left: Option<HostPattern>, right: Option<HostPattern>)
    ensures HostsOverlap(left, right) == HostsOverlap(right, left)
  {
  }

  lemma SubdomainWitness(suffix: string)
    ensures IsSubdomain("x." + suffix, suffix)
  {
    var host := "x." + suffix;
    assert host[|host| - |suffix|..] == suffix;
  }

  /** A subdomain of the more specific suffix is one of the broader suffix. */
  lemma SubdomainOfBoth(host: string, specific: string, broader: string)
    requires SuffixOverlaps(specific, broader) && IsSubdomain(host, specific)
    ensures IsSubdomain(host, broader)
  {
    var cut := |host| - |specific|;
    assert host[cut..][|specific| - |broader|..] == host[|host| - |broader|..];
    assert host[cut..][|specific| - |broader| - 1] == host[|host| - |broader| - 1];
  }

  /** Two suffixes of one host: the longer ends with the shorter, after a dot. */
  lemma TwoSuffixes(host: string, s: string, t: string)
    requires IsSubdomain(host, s) && IsSubdomain(host, t) && |s| >= |t|
    ensures s == t || SuffixOverlaps(s, t)
  {
    var cut := |host| - |s|;
    assert s[|s| - |t|..] == host[cut..][|s| - |t|..] == host[|host| - |t|..];
    if |s| == |t| {
      assert s[0..] == s;
    } else {
      assert s[|s| - |t| - 1] == host[cut..][|s| - |t| - 1] == host[|host| - |t| - 1];
    }
  }

  lemma CommonHostOverlaps(left: Option<HostPattern>, right: Option<HostPattern>, host: string)
    requires Admits(left, host) && Admits(right, host)
    ensures HostsOverlap(left, right)
  {
    if left.Some? && right.Some? && left.value.WildcardSubdomain? && right.value.WildcardSubdomain? {
      var s, t := left.value.suffix, right.value.suffix;
      if |s| >= |t| {
        TwoSuffixes(host, s, t);
      } else {
        TwoSuffixes(host, t, s);
      }
    }
  }

  // ------------------------------------------------- hosts that can be asked for

  /** A constraint that `set_host` accepts. */
  ghost predicate IsAccepted(pattern: Option<HostPattern>) {
    pattern.Some? ==> exists text :: ParseHost(text) == Ok(pattern.value)
  }

  /** The text with its first byte replaced by `x`. */
  ghost function Crossed(t: string): string
    requires t != ""
  {
    "x" + t[1..]
  }

  lemma {:induction false} CrossedPort(t: string, end: nat)
    requires t != "" && t[0] != ':' && end <= |t|
    ensures AfterLast(Crossed(t), ':', end) == AfterLast(t, ':', end)
  {
    if end > 0 && t[end - 1] != ':' {
      CrossedPort(t, end - 1);
    }
  }

  lemma CrossedColon(t: string)
    requires t != "" && t[0] != ':'
    ensures ':' in Crossed(t) <==> ':' in t
  {
    assert t == [t[0]] + t[1..];
  }

  lemma CrossedStrips(t: string)
    requires t != "" && t[0] == '*' && StripPort(t).Some? && StripPort(t).value != ""
    ensures StripPort(Crossed(t)) == Some(Crossed(StripPort(t).value))
  {
    CrossedPort(t, |t|);
    var port := AfterLast(t, ':', |t|);
    var x := Crossed(t);
    if port > 0 {
      assert x[port..] == t[port..];
      assert x[..port - 1] == Crossed(t[..port - 1]);
      CrossedColon(t[..port - 1]);
    }
  }

  lemma CrossedTrims(t: string)
    requires t != "" && SpaceBehind(t) == 0
    ensures Trim(Crossed(t)) == Crossed(t)
  {
    var x := Crossed(t);
    assert forall i :: 1 <= i < |t| ==> x[i] == t[i];
    assert SpaceBehind(x) == 0 && SpaceAhead(x) == 0;
  }

  lemma CrossedIsPlain(t: string)
    requires IsPlainHost(t)
    ensures IsPlainHost(Crossed(t))
  {
    var x := Crossed(t);
    forall i | 0 <= i < |x| ensures !ControlAt(x, i) && SpaceAhead(x[i..]) == 0 {
      if i > 0 {
        assert !ControlAt(t, i) && SpaceAhead(t[i..]) == 0;
        assert x[i..] == t[i..];
      }
    }
  }

  lemma CrossedLowers(bare: string, rest: string)
    requires Lower(bare) == "*" + rest
    ensures bare != "" && bare[0] == '*' && Lower(Crossed(bare)) == "x" + rest
  {
    assert |bare| == |Lower(bare)| == |rest| + 1;
    assert Lower(bare)[0] == '*';
    forall i | 1 <= i < |bare| ensures LowerChar(bare[i]) == rest[i - 1] {
      assert Lower(bare)[i] == ("*" + rest)[i];
    }
  }

  lemma StripIsPrefix(t: string)
    requires StripPort(t).Some?
    ensures StripPort(t).value <= t
  {
  }

  /** A host like the pattern, with a label in place of its star. */
  lemma CrossedNormalizes(t: string, bare: string, rest: string)
    requires IsPlainHost(t) && SpaceBehind(t) == 0 && StripPort(t) == Some(bare) && Lower(bare) == "*" + rest
    ensures NormalizeHost(Crossed(t)) == Some("x" + rest)
  {
    CrossedLowers(bare, rest);
    StripIsPrefix(t);
    CrossedTrims(t);
    CrossedIsPlain(t);
    CrossedStrips(t);
  }

  lemma WildcardText(text: string, suffix: string)
    requires ParseHost(text) == Ok(WildcardSubdomain(suffix))
    ensures NormalizeHost(text) == Some("*" + ("." + suffix))
  {
    var host := NormalizeHost(text).value;
    assert host[..2] == "*.";
    assert host[0] == host[..2][0] && host[1] == host[..2][1];
    assert host == "*" + ("." + host[2..]);
  }

  /** A request host below the suffix of an accepted wildcard. */
  lemma HostBelow(suffix: string) returns (raw: string)
    requires IsAccepted(Some(WildcardSubdomain(suffix)))
    ensures NormalizeHost(raw) == Some("x." + suffix)
  {
    var text :| ParseHost(text) == Ok(WildcardSubdomain(suffix));
    WildcardText(text, suffix);
    var t := Trim(text);
    CrossedNormalizes(t, StripPort(t).value, "." + suffix);
    raw := Crossed(t);
    assert "x" + ("." + suffix) == "x." + suffix;
  }

  lemma HostOf(host: string) returns (raw: string)
    requires IsAccepted(Some(Exact(host)))
    ensures NormalizeHost(raw) == Some(host)
  {
    raw :| ParseHost(raw) == Ok(Exact(host));
  }

  /** A request that both constraints answer. */
  lemma CommonHost(left: Option<HostPattern>, right: Option<HostPattern>) returns (host: Option<string>)
    requires IsAccepted(left) && IsAccepted(right) && HostsOverlap(left, right)
    ensures HostMatches(left, host) && HostMatches(right, host)
  {
    if left.Some? && left.value.Exact? {
      var raw := HostOf(left.value.host);
      host := Some(raw);
    } else if right.Some? && right.value.Exact? {
      var raw := HostOf(right.value.host);
      host := Some(raw);
    } else if left.Some? && right.Some? {
      var s, t := left.value.suffix, right.value.suffix;
      var longer, shorter := if |s| >= |t| then s else t, if |s| >= |t| then t else s;
      var raw := HostBelow(longer);
      host := Some(raw);
      SubdomainWitness(longer);
      if s != t {
        SubdomainOfBoth("x." + longer, longer, shorter);
      }
    } else if left.Some? {
      var raw := HostBelow(left.value.suffix);
      host := Some(raw);
      SubdomainWitness(left.value.suffix);
    } else if right.Some? {
      var raw := HostBelow(right.value.suffix);
      host := Some(raw);
      SubdomainWitness(right.value.suffix);
    } else {
      host := None;
    }
  }

  /** Two accepted constraints overlap exactly when both answer some request. */
  lemma OverlapIffCommonHost(left: Option<HostPattern>, right: Option<HostPattern>)
    requires IsAccepted(left) && IsAccepted(right)
    ensures HostsOverlap(left, right)
       <==> exists host: Option<string> :: HostMatches(left, host) && HostMatches(right, host)
  {
    if HostsOverlap(left, right) {
      var host := CommonHost(left, right);
    }
    forall host: Option<string> | HostMatches(left, host) && HostMatches(right, host)
      ensures HostsOverlap(left, right)
    {
      if left.Some? && right.Some? {
        CommonHostOverlaps(left, right, NormalizeHost(host.value).value);
      }
    }
  }
}
