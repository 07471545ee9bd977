/**
 What does not matter to host matching: letter case, and a numeric port
 (src/app/router.rs).
 */
module HostLaws {
  import opened Basics
  import opened Text
  import opened Hosts

  // --------------------------------------------------------------------- case

  /** Equal but for the case of letters. */
  ghost predicate Same(a: string, b: string) {
    |a| == |b| && forall i :: 0 <= i < |a| ==> LowerChar(a[i]) == LowerChar(b[i])
  }

  lemma LowerIsSame(a: string, b: string)
    ensures Lower(a) == Lower(b) <==> Same(a, b)
  {
    if Lower(a) == Lower(b) {
      assert |a| == |Lower(a)| == |b|;
      forall i | 0 <= i < |a| ensures LowerChar(a[i]) == LowerChar(b[i]) {
        assert Lower(a)[i] == Lower(b)[i];
      }
    }
  }

  predicate IsLetter(c: char) {
    'a' <= c <= 'z' || 'A' <= c <= 'Z'
  }

  /** Bytes that differ in case only are letters. */
  lemma SameByte(a: char, b: char)
    requires LowerChar(a) == LowerChar(b)
    ensures a == b || (IsLetter(a) && IsLetter(b))
  {
  }

  lemma SameSlices(a: string, b: string, i: nat, j: nat)
    requires Same(a, b) && i <= j <= |a|
    ensures Same(a[i..j], b[i..j]) && Same(a[i..], b[i..]) && Same(a[..j], b[..j])
  {
  }

  lemma SameSpaces(a: string, b: string)
    requires Same(a, b)
    ensures SpaceAhead(a) == SpaceAhead(b) && SpaceBehind(a) == SpaceBehind(b)
  {
    var k := |a|;
    if k >= 1 {
      SameByte(a[0], b[0]);
      SameByte(a[k - 1], b[k - 1]);
    }
    if k >= 2 {
      SameByte(a[1], b[1]);
      SameByte(a[k - 2], b[k - 2]);
    }
    if k >= 3 {
      SameByte(a[2], b[2]);
      SameByte(a[k - 3], b[k - 3]);
    }
  }

  lemma {:induction false} SameTrimStart(a: string, b: string)
    requires Same(a, b)
    ensures Same(TrimStart(a), TrimStart(b))
    decreases |a|
  {
    SameSpaces(a, b);
    if SpaceAhead(a) > 0 {
      SameSlices(a, b, SpaceAhead(a), |a|);
      SameTrimStart(a[SpaceAhead(a)..], b[SpaceAhead(b)..]);
    }
  }

  lemma {:induction false} SameTrimEnd(a: string, b: string)
    requires Same(a, b)
    ensures Same(TrimEnd(a), TrimEnd(b))
    decreases |a|
  {
    SameSpaces(a, b);
    if SpaceBehind(a) > 0 {
      SameSlices(a, b, 0, |a| - SpaceBehind(a));
      SameTrimEnd(a[..|a| - SpaceBehind(a)], b[..|b| - SpaceBehind(b)]);
    }
  }

  lemma SameHas(a: string, b: string, c: char)
    requires Same(a, b) && !IsLetter(c)
    ensures c in a <==> c in b
  {
    forall i | 0 <= i < |a| ensures a[i] == c <==> b[i] == c {
      SameByte(a[i], b[i]);
    }
  }

  lemma SamePlain(a: string, b: string)
    requires Same(a, b)
    ensures IsPlainHost(a) <==> IsPlainHost(b)
  {
    SameHas(a, b, '@');
    SameHas(a, b, '/');
    SameHas(a, b, '\\');
    forall i | 0 <= i < |a| ensures ControlAt(a, i) == ControlAt(b, i) {
      SameByte(a[i], b[i]);
      if i + 1 < |a| {
        SameByte(a[i + 1], b[i + 1]);
      }
    }
    forall i | 0 <= i < |a| ensures SpaceAhead(a[i..]) == SpaceAhead(b[i..]) {
      SameSlices(a, b, i, |a|);
      SameSpaces(a[i..], b[i..]);
    }
  }

  lemma SameDigits(a: string, b: string)
    requires Same(a, b)
    ensures AllDigits(a) <==> AllDigits(b)
  {
    forall i | 0 <= i < |a| ensures IsDigit(a[i]) <==> IsDigit(b[i]) {
      SameByte(a[i], b[i]);
    }
  }

  lemma {:induction false} SameFirst(a: string, b: string, c: char, from: nat)
    requires Same(a, b) && !IsLetter(c) && from <= |a|
    ensures FirstIndex(a, c, from) == FirstIndex(b, c, from)
    decreases |a| - from
  {
    if from < |a| {
      SameByte(a[from], b[from]);
      SameFirst(a, b, c, from + 1);
    }
  }

  lemma {:induction false} SameLast(a: string, b: string, c: char, end: nat)
    requires Same(a, b) && !IsLetter(c) && end <= |a|
    ensures AfterLast(a, c, end) == AfterLast(b, c, end)
  {
    if end > 0 {
      SameByte(a[end - 1], b[end - 1]);
      SameLast(a, b, c, end - 1);
    }
  }

  lemma SameStrip(a: string, b: string)
    requires Same(a, b)
    ensures StripPort(a).Some? <==> StripPort(b).Some?
    ensures StripPort(a).Some? ==> Same(StripPort(a).value, StripPort(b).value)
  {
    if a != "" {
      SameByte(a[0], b[0]);
      if a[0] == '[' {
        SameBracket(a, b);
      } else {
        SamePort(a, b);
      }
    }
  }

  lemma SameBracket(a: string, b: string)
    requires Same(a, b) && a != "" && a[0] == '[' && b[0] == '['
    ensures StripPort(a).Some? <==> StripPort(b).Some?
    ensures StripPort(a).Some? ==> Same(StripPort(a).value, StripPort(b).value)
  {
    SameFirst(a, b, ']', 0);
    var end := FirstIndex(a, ']', 0);
    if end < |a| {
      var x, y := a[end + 1..], b[end + 1..];
      SameSlices(a, b, end + 1, |a|);
      if x != "" {
        SameByte(x[0], y[0]);
        SameSlices(x, y, 1, |x|);
        SameDigits(x[1..], y[1..]);
      }
    }
  }

  lemma SamePort(a: string, b: string)
    requires Same(a, b) && a != "" && a[0] != '[' && b[0] != '['
    ensures StripPort(a).Some? <==> StripPort(b).Some?
    ensures StripPort(a).Some? ==> Same(StripPort(a).value, StripPort(b).value)
  {
    SameLast(a, b, ':', |a|);
    var port := AfterLast(a, ':', |a|);
    if port > 0 {
      SameSlices(a, b, port, |a|);
      SameSlices(a, b, 0, port - 1);
      SameDigits(a[port..], b[port..]);
      SameHas(a[..port - 1], b[..port - 1], ':');
    }
  }

  /** Case does not matter to a host. */
  lemma CaseIgnored(a: string, b: string)
    requires EqualIgnoringCase(a, b)
    ensures NormalizeHost(a) == NormalizeHost(b)
  {
    LowerIsSame(a, b);
    SameTrimStart(a, b);
    SameTrimEnd(TrimStart(a), TrimStart(b));
    var x, y := Trim(a), Trim(b);
    SamePlain(x, y);
    SameStrip(x, y);
    if StripPort(x).Some? {
      LowerIsSame(StripPort(x).value, StripPort(y).value);
    }
  }

  // ------------------------------------------------------------------ the port

  /** A space character does not reach across an ASCII byte. */
  lemma SpaceStays(a: string, b: string)
    requires a != "" && b != "" && b[0] as int < 0x80 && SpaceAhead(a + b) > 0
    ensures SpaceAhead(a) > 0
  {
    var s := a + b;
    assert s[0] == a[0] && s[|a|] == b[0];
  }

  lemma SpaceBehindIsSpace(s: string)
    requires SpaceBehind(s) > 0
    ensures HasSpace(s)
  {
    var i := |s| - SpaceBehind(s);
    assert SpaceAhead(s[i..]) > 0;
  }

  lemma PlainIsTrimmed(s: string)
    requires IsPlainHost(s)
    ensures Trim(s) == s
  {
    assert s[0..] == s;
    if SpaceBehind(s) > 0 {
      SpaceBehindIsSpace(s);
    }
  }

  lemma DigitsArePlain(digits: string)
    requires AllDigits(digits)
    ensures !HasControl(digits) && forall c :: c in digits ==> IsDigit(c)
  {
  }

  lemma WithPortIsPlain(host: string, digits: string)
    requires IsPlainHost(host) && digits != "" && AllDigits(digits)
    ensures IsPlainHost(host + [':'] + digits)
  {
    var whole, tail := host + [':'] + digits, [':'] + digits;
    assert whole == host + tail;
    DigitsArePlain(digits);
    ControlConcat(host, ':', digits);
    forall i | 0 <= i < |whole| ensures SpaceAhead(whole[i..]) == 0 {
      if i < |host| {
        assert whole[i..] == host[i..] + tail;
        if SpaceAhead(whole[i..]) > 0 {
          SpaceStays(host[i..], tail);
        }
      } else {
        assert whole[i..][0] == whole[i] == tail[i - |host|];
      }
    }
  }

  lemma {:induction false} LastColon(host: string, digits: string, end: nat)
    requires AllDigits(digits) && |host| + 1 <= end <= |host| + 1 + |digits|
    ensures AfterLast(host + [':'] + digits, ':', end) == |host| + 1
    decreases end
  {
    var whole := host + [':'] + digits;
    if end == |host| + 1 {
      assert whole[end - 1] == ':';
    } else {
      assert whole[end - 1] == digits[end - 2 - |host|];
      LastColon(host, digits, end - 1);
    }
  }

  lemma {:induction false} NoColonLeft(host: string, end: nat)
    requires ':' !in host && end <= |host|
    ensures AfterLast(host, ':', end) == 0
  {
    if end > 0 {
      NoColonLeft(host, end - 1);
    }
  }

  /** Neither does a numeric port. */
  lemma PortIgnored(host: string, digits: string)
    requires IsPlainHost(host) && ':' !in host && host[0] != '[' && digits != "" && AllDigits(digits)
    ensures NormalizeHost(host + [':'] + digits) == NormalizeHost(host) == Some(Lower(host))
  {
    var whole := host + [':'] + digits;
    PlainIsTrimmed(host);
    WithPortIsPlain(host, digits);
    PlainIsTrimmed(whole);
    NoColonLeft(host, |host|);
    LastColon(host, digits, |whole|);
    assert whole[|host| + 1..] == digits && whole[..|host|] == host && whole[0] == host[0];
  }

  /** So a constraint answers requests alike. */
  lemma MatchingIgnoresCaseAndPort(pattern: Option<HostPattern>, host: string, other: string, digits: string)
    requires IsPlainHost(host) && ':' !in host && host[0] != '[' && digits != "" && AllDigits(digits)
    requires EqualIgnoringCase(host, other)
    ensures HostMatches(pattern, Some(other)) == HostMatches(pattern, Some(host + [':'] + digits))
    ensures pattern.Some? && pattern.value.Exact? ==>
              (HostMatches(pattern, Some(other)) <==> pattern.value.host == Lower(host))
  {
    CaseIgnored(host, other);
    PortIgnored(host, digits);
  }
}
