/**
 Delimiter lines of a multipart body (section 5.1.1 of RFC 2046) and the
 searches for them (src/app/form.rs).
 */
module Delimiters {
  import opened Basics

  const CRLF: string := "\r\n"

  /** `needle` occurs in `s` at `k`. */
  predicate At(s: string, k: nat, needle: string) {
    k + |needle| <= |s| && s[k..k + |needle|] == needle
  }

  lemma AtFirst(s: string, k: nat, needle: string)
    requires needle != ""
    ensures At(s, k, needle) ==> s[k] == needle[0]
  {
    if At(s, k, needle) {
      assert s[k] == s[k..k + |needle|][0];
    }
  }

  lemma AtShift(s: string, offset: nat, k: nat, needle: string)
    requires offset <= |s|
    ensures At(s[offset..], k, needle) <==> At(s, offset + k, needle)
  {
    if offset + k + |needle| <= |s| {
      assert s[offset..][k..k + |needle|] == s[offset + k..offset + k + |needle|];
    }
  }

  method Find(haystack: string, needle: string) returns (r: Option<nat>)
    ensures r.Some? ==> At(haystack, r.value, needle) && forall k :: 0 <= k < r.value ==> !At(haystack, k, needle)
    ensures r.None? ==> forall k :: 0 <= k ==> !At(haystack, k, needle)
  {
    var k := 0;
    while k + |needle| <= |haystack|
      invariant forall j :: 0 <= j < k ==> !At(haystack, j, needle)
      decreases |haystack| - k
    {
      if haystack[k..k + |needle|] == needle {
        return Some(k);
      }
      k := k + 1;
    }
    return None;
  }

  /** The first occurrence from `k` on is at `p`. */
  ghost predicate IsFirst(s: string, k: nat, needle: string, p: nat) {
    k <= p && At(s, p, needle) && forall j :: k <= j < p ==> !At(s, j, needle)
  }

  ghost function FirstAt(s: string, k: nat, needle: string): (r: Option<nat>)
    ensures r.Some? ==> IsFirst(s, k, needle, r.value)
    ensures r.None? ==> forall p :: !IsFirst(s, k, needle, p)
  {
    if exists p :: IsFirst(s, k, needle, p) then
      var p :| IsFirst(s, k, needle, p);
      Some(p)
    else None
  }

  /** `find` on the rest of the body, in positions of the whole. */
  method FindFrom(s: string, offset: nat, needle: string) returns (r: Option<nat>)
    requires offset <= |s|
    ensures r == FirstAt(s, offset, needle)
    ensures r.None? ==> forall j :: offset <= j ==> !At(s, j, needle)
  {
    var relative := Find(s[offset..], needle);
    forall k | 0 <= k ensures At(s[offset..], k, needle) <==> At(s, offset + k, needle) {
      AtShift(s, offset, k, needle);
    }
    assert forall j :: offset <= j ==> (At(s[offset..], j - offset, needle) <==> At(s, j, needle)) by {
      forall j | offset <= j ensures At(s[offset..], j - offset, needle) <==> At(s, j, needle) {
        AtShift(s, offset, j - offset, needle);
      }
    }
    if relative.None? {
      return None;
    }
    FirstIs(s, offset, needle, offset + relative.value);
    return Some(offset + relative.value);
  }

  lemma FirstIs(s: string, k: nat, needle: string, p: nat)
    requires IsFirst(s, k, needle, p)
    ensures FirstAt(s, k, needle) == Some(p)
  {
  }

  // ---------------------------------------------------------- delimiter lines

  datatype Delimiter = Delimiter(closing: bool, next: nat)

  predicate IsBlank(c: char) {
    c == ' ' || c == '\t'
  }

  predicate Blanks(w: string) {
    forall i :: 0 <= i < |w| ==> IsBlank(w[i])
  }

  function Dashes(closing: bool): string {
    if closing then "--" else ""
  }

  /** The grammar: the delimiter, two dashes if it closes, white space, and a
      line end, which a closing line may leave out at the end of the body. */
  ghost predicate IsLine(body: string, pos: nat, delimiter: string, d: Delimiter) {
    exists w, end :: Spells(body, pos, delimiter, d, w, end)
  }

  ghost predicate Spells(body: string, pos: nat, delimiter: string, d: Delimiter, w: string, end: string) {
    && pos <= d.next <= |body|
    && Blanks(w) && (end == CRLF || (end == "" && d.closing && d.next == |body|))
    && body[pos..d.next] == delimiter + (Dashes(d.closing) + (w + end))
  }

  lemma SliceParts(s: string, a: nat, b: nat, x: string, y: string)
    requires a <= b <= |s| && s[a..b] == x + y
    ensures a + |x| <= b && s[a..a + |x|] == x && s[a + |x|..b] == y
  {
    assert s[a..a + |x|] == s[a..b][..|x|];
    assert s[a + |x|..b] == s[a..b][|x|..];
  }

  function SkipBlanks(s: string, k: nat): (r: nat)
    requires k <= |s|
    ensures k <= r <= |s|
    decreases |s| - k
  {
    if k < |s| && IsBlank(s[k]) then SkipBlanks(s, k + 1) else k
  }

  lemma {:induction false} SkipsBlanks(s: string, k: nat)
    requires k <= |s|
    ensures Blanks(s[k..SkipBlanks(s, k)])
    decreases |s| - k
  {
    if k < |s| && IsBlank(s[k]) {
      SkipsBlanks(s, k + 1);
      assert s[k..SkipBlanks(s, k)] == [s[k]] + s[k + 1..SkipBlanks(s, k)];
    }
  }

  lemma {:induction false} SkipBlanksTo(s: string, k: nat, r: nat)
    requires k <= r <= |s| && Blanks(s[k..r]) && (r == |s| || !IsBlank(s[r]))
    ensures SkipBlanks(s, k) == r
    decreases r - k
  {
    if k < r {
      assert IsBlank(s[k..r][0]);
      assert s[k + 1..r] == s[k..r][1..];
      SkipBlanksTo(s, k + 1, r);
    }
  }

  function LineAt(body: string, pos: nat, delimiter: string): Option<Delimiter> {
    if !At(body, pos, delimiter) then None
    else
      var start := pos + |delimiter|;
      var closing := At(body, start, "--");
      var end := SkipBlanks(body, if closing then start + 2 else start);
      if At(body, end, CRLF) then Some(Delimiter(closing, end + 2))
      else if closing && end == |body| then Some(Delimiter(closing, end))
      else None
  }

  method ParseDelimiterLine(body: string, pos: nat, delimiter: string) returns (r: Option<Delimiter>)
    ensures r == LineAt(body, pos, delimiter)
  {
    if pos + |delimiter| > |body| || body[pos..pos + |delimiter|] != delimiter {
      return None;
    }
    var cursor := pos + |delimiter|;
    var closing := cursor + 2 <= |body| && body[cursor..cursor + 2] == "--";
    if closing {
      cursor := cursor + 2;
    }
    ghost var start := cursor;
    while cursor < |body| && IsBlank(body[cursor])
      invariant start <= cursor <= |body| && SkipBlanks(body, start) == SkipBlanks(body, cursor)
    {
      cursor := cursor + 1;
    }
    if cursor + 2 <= |body| && body[cursor..cursor + 2] == CRLF {
      cursor := cursor + 2;
    } else if !(closing && cursor == |body|) {
      return None;
    }
    return Some(Delimiter(closing, cursor));
  }

  lemma FourSlices(s: string, a: nat, b: nat, c: nat, d: nat, e: nat)
    requires a <= b <= c <= d <= e <= |s|
    ensures s[a..e] == s[a..b] + (s[b..c] + (s[c..d] + s[d..e]))
  {
  }

  /** The pieces a line was read in. */
  lemma LineRead(body: string, pos: nat, delimiter: string) returns (first: nat, start: nat, stop: nat)
    requires LineAt(body, pos, delimiter).Some?
    ensures var d := LineAt(body, pos, delimiter).value;
            && pos <= first <= start <= stop <= d.next <= |body|
            && body[pos..first] == delimiter && body[first..start] == Dashes(d.closing) && Blanks(body[start..stop])
            && (body[stop..d.next] == CRLF || (d.closing && stop == d.next == |body|))
  {
    var d := LineAt(body, pos, delimiter).value;
    first := pos + |delimiter|;
    start := first + |Dashes(d.closing)|;
    stop := SkipBlanks(body, start);
    SkipsBlanks(body, start);
  }

  lemma LineIsGrammatical(body: string, pos: nat, delimiter: string)
    requires LineAt(body, pos, delimiter).Some?
    ensures IsLine(body, pos, delimiter, LineAt(body, pos, delimiter).value)
  {
    var d := LineAt(body, pos, delimiter).value;
    var first, start, stop := LineRead(body, pos, delimiter);
    FourSlices(body, pos, first, start, stop, d.next);
    assert Spells(body, pos, delimiter, d, body[start..stop], body[stop..d.next]);
  }

  lemma LineParts(body: string, pos: nat, delimiter: string, d: Delimiter, w: string, end: string)
    returns (first: nat, start: nat, stop: nat)
    requires Spells(body, pos, delimiter, d, w, end)
    ensures first == pos + |delimiter| && start == first + |Dashes(d.closing)| && stop == start + |w|
    ensures stop + |end| == d.next && At(body, pos, delimiter)
    ensures body[first..start] == Dashes(d.closing) && body[start..stop] == w && body[stop..d.next] == end
  {
    first, start, stop := pos + |delimiter|, pos + |delimiter| + |Dashes(d.closing)|, d.next - |end|;
    FourParts(body, pos, d.next, delimiter, Dashes(d.closing), w, end);
  }

  lemma FourParts(s: string, a: nat, b: nat, x: string, y: string, z: string, u: string)
    requires a <= b <= |s| && s[a..b] == x + (y + (z + u))
    ensures a + |x| + |y| + |z| + |u| == b
    ensures s[a..a + |x|] == x && s[a + |x|..a + |x| + |y|] == y
    ensures s[a + |x| + |y|..b - |u|] == z && s[b - |u|..b] == u
  {
    SliceParts(s, a, b, x, y + (z + u));
    SliceParts(s, a + |x|, b, y, z + u);
    SliceParts(s, a + |x| + |y|, b, z, u);
  }

  /** What follows the white space is not white space, and what follows the
      delimiter is two dashes only on a closing line. */
  lemma LineDecided(body: string, first: nat, start: nat, stop: nat, d: Delimiter)
    requires first <= start <= stop <= d.next <= |body|
    requires body[first..start] == Dashes(d.closing) && Blanks(body[start..stop])
    requires body[stop..d.next] == CRLF || (d.closing && stop == d.next == |body|)
    ensures At(body, first, "--") == d.closing
    ensures stop == |body| || !IsBlank(body[stop])
    ensures At(body, stop, CRLF) <==> stop < d.next
  {
    assert stop < d.next ==> body[stop] == body[stop..d.next][0];
    if !d.closing {
      assert first == start;
      assert start < stop ==> IsBlank(body[start..stop][0]);
      AtFirst(body, first, "--");
    }
  }

  lemma GrammaticalIsLine(body: string, pos: nat, delimiter: string, d: Delimiter)
    requires IsLine(body, pos, delimiter, d)
    ensures LineAt(body, pos, delimiter) == Some(d)
  {
    var w, end :| Spells(body, pos, delimiter, d, w, end);
    var first, start, stop := LineParts(body, pos, delimiter, d, w, end);
    LineDecided(body, first, start, stop, d);
    SkipBlanksTo(body, start, stop);
  }

  // ------------------------------------------------------------------ searches

  /** A delimiter line starts at `p`, after a line end. */
  predicate Boundary(body: string, p: nat, delimiter: string) {
    p >= 2 && At(body, p - 2, CRLF) && LineAt(body, p, delimiter).Some?
  }

  /** The same, or at the start of the body. */
  predicate Opening(body: string, p: nat, delimiter: string) {
    (p == 0 || Boundary(body, p, delimiter)) && LineAt(body, p, delimiter).Some?
  }

  ghost predicate NoBoundary(body: string, from: nat, to: nat, delimiter: string) {
    forall q :: from <= q < to ==> !Boundary(body, q, delimiter)
  }

  /** The first boundary from `k` on is at `p`, with the line `d`. */
  ghost predicate IsNext(body: string, k: nat, delimiter: string, p: nat, d: Delimiter) {
    && k <= p && Boundary(body, p, delimiter) && LineAt(body, p, delimiter) == Some(d)
    && NoBoundary(body, k, p, delimiter)
  }

  ghost function NextDelimiter(body: string, k: nat, delimiter: string): (r: Option<(nat, Delimiter)>)
    ensures r.Some? ==> IsNext(body, k, delimiter, r.value.0, r.value.1)
    ensures r.None? ==> forall p, d :: !IsNext(body, k, delimiter, p, d)
  {
    if exists p, d :: IsNext(body, k, delimiter, p, d) then
      var p, d :| IsNext(body, k, delimiter, p, d);
      Some((p, d))
    else None
  }

  lemma NextIs(body: string, k: nat, delimiter: string, p: nat, d: Delimiter)
    requires IsNext(body, k, delimiter, p, d)
    ensures NextDelimiter(body, k, delimiter) == Some((p, d))
  {
  }

  /** The first delimiter line of the body is at `p`. */
  ghost predicate IsOpening(body: string, delimiter: string, p: nat, d: Delimiter) {
    && Opening(body, p, delimiter) && LineAt(body, p, delimiter) == Some(d)
    && forall q :: 0 <= q < p ==> !Opening(body, q, delimiter)
  }

  ghost function OpeningLine(body: string, delimiter: string): (r: Option<Delimiter>)
    ensures r.Some? ==> exists p :: IsOpening(body, delimiter, p, r.value)
    ensures r.None? ==> forall p, d :: !IsOpening(body, delimiter, p, d)
  {
    if exists p, d :: IsOpening(body, delimiter, p, d) then
      var p, d :| IsOpening(body, delimiter, p, d);
      Some(d)
    else None
  }

  lemma OpeningIs(body: string, delimiter: string, p: nat, d: Delimiter)
    requires IsOpening(body, delimiter, p, d)
    ensures OpeningLine(body, delimiter) == Some(d)
  {
  }

  lemma NoneBefore(body: string, offset: nat, position: nat, delimiter: string)
    requires forall q :: offset <= q < position ==> !At(body, q, delimiter)
    ensures forall q :: offset <= q < position ==> !Boundary(body, q, delimiter)
    ensures forall q :: offset <= q < position ==> !Opening(body, q, delimiter)
  {
  }

  lemma NoneBeyond(body: string, delimiter: string, offset: nat)
    requires forall q :: 0 <= q < offset ==> !Opening(body, q, delimiter)
    requires forall q :: offset <= q ==> !At(body, q, delimiter)
    ensures OpeningLine(body, delimiter).None?
  {
    assert forall q :: 0 <= q ==> !Opening(body, q, delimiter);
  }

  /** A delimiter line at a position that follows a line end. */
  method TryBoundary(body: string, position: nat, delimiter: string) returns (r: Option<Delimiter>)
    requires position <= |body|
    ensures r == if Boundary(body, position, delimiter) then LineAt(body, position, delimiter) else None
  {
    r := None;
    if position >= 2 && body[position - 2..position] == CRLF {
      r := ParseDelimiterLine(body, position, delimiter);
    }
  }

  /** `find_initial_delimiter`. */
  method FindInitialDelimiter(body: string, delimiter: string) returns (r: Option<Delimiter>)
    requires delimiter != ""
    ensures r == OpeningLine(body, delimiter)
  {
    var offset := 0;
    while offset <= (if |body| >= |delimiter| then |body| - |delimiter| else 0)
      invariant offset <= |body| + 1
      invariant forall q :: 0 <= q < offset ==> !Opening(body, q, delimiter)
      decreases |body| + 1 - offset
    {
      var found := FindFrom(body, offset, delimiter);
      if found.None? {
        NoneBeyond(body, delimiter, offset);
        return None;
      }
      var position := found.value;
      NoneBefore(body, offset, position, delimiter);
      if position == 0 || (position >= 2 && body[position - 2..position] == CRLF) {
        var parsed := ParseDelimiterLine(body, position, delimiter);
        if parsed.Some? {
          OpeningIs(body, delimiter, position, parsed.value);
          return parsed;
        }
      }
      assert !Opening(body, position, delimiter);
      offset := position + 1;
    }
    NoneBeyond(body, delimiter, offset);
    return None;
  }

  lemma NoBoundaryBeyond(body: string, k: nat, delimiter: string, offset: nat)
    requires NoBoundary(body, k, offset, delimiter)
    requires forall q :: offset <= q ==> !At(body, q, delimiter)
    ensures NextDelimiter(body, k, delimiter).None?
  {
    assert forall q :: k <= q ==> !Boundary(body, q, delimiter);
  }

  /** `find_next_delimiter`. */
  method FindNextDelimiter(body: string, dataStart: nat, delimiter: string) returns (r: Option<(nat, Delimiter)>)
    requires delimiter != ""
    ensures r == NextDelimiter(body, dataStart, delimiter)
  {
    var offset := dataStart;
    while offset <= (if |body| >= |delimiter| then |body| - |delimiter| else 0)
      invariant dataStart <= offset
      invariant NoBoundary(body, dataStart, offset, delimiter)
      decreases |body| + 1 - offset
    {
      var found := FindFrom(body, offset, delimiter);
      if found.None? {
        NoBoundaryBeyond(body, dataStart, delimiter, offset);
        return None;
      }
      var position := found.value;
      NoneBefore(body, offset, position, delimiter);
      var parsed := TryBoundary(body, position, delimiter);
      if parsed.Some? {
        NextIs(body, dataStart, delimiter, position, parsed.value);
        return Some((position, parsed.value));
      }
      offset := position + 1;
    }
    NoBoundaryBeyond(body, dataStart, delimiter, offset);
    return None;
  }

  // ------------------------------------------------------------------ locality

  /** Text framed by line ends, without a delimiter line in it. */
  ghost predicate NoLineWithin(data: string, delimiter: string) {
    forall q :: 0 <= q ==> !Boundary(CRLF + data + CRLF, q, delimiter)
  }

  /** A delimiter line that starts inside framed text ends inside it. */
  lemma LineStaysInside(body: string, from: nat, data: string, delimiter: string, q: nat)
    requires '\r' !in delimiter && delimiter != "" && delimiter[0] != '\n'
    requires from >= 2 && At(body, from - 2, CRLF + data + CRLF)
    requires from <= q < from + |data| + 2 && Boundary(body, q, delimiter)
    ensures Boundary(CRLF + data + CRLF, q - from + 2, delimiter)
  {
    var d := LineAt(body, q, delimiter).value;
    LineIsGrammatical(body, q, delimiter);
    var stop := from + |data|;
    FrameEnds(body, from, data);
    var w := LineEndsBy(body, q, delimiter, d, stop);
    LineInFrame(body, from - 2, CRLF + data + CRLF, delimiter, q, d, w);
  }

  lemma FrameEnds(body: string, from: nat, data: string)
    requires from >= 2 && At(body, from - 2, CRLF + data + CRLF)
    ensures body[from + |data|] == '\r' && body[from + |data| + 1] == '\n'
  {
    var framed := CRLF + data + CRLF;
    assert body[from - 2..from - 2 + |framed|][|data| + 2..] == CRLF;
    assert body[from + |data|] == framed[|data| + 2] && body[from + |data| + 1] == framed[|data| + 3];
  }

  /** A line of the body that lies within an occurrence of `framed` is one of `framed`. */
  lemma LineInFrame(body: string, at: nat, framed: string, delimiter: string, q: nat, d: Delimiter, w: string)
    requires At(body, at, framed) && at + 2 <= q && d.next <= at + |framed|
    requires At(body, q - 2, CRLF) && Spells(body, q, delimiter, d, w, CRLF)
    ensures Boundary(framed, q - at, delimiter)
  {
    var inner := Delimiter(d.closing, d.next - at);
    SubSlice(body, at, framed, q, d.next);
    SubSlice(body, at, framed, q - 2, q);
    assert Spells(framed, q - at, delimiter, inner, w, CRLF);
    GrammaticalIsLine(framed, q - at, delimiter, inner);
  }

  lemma SubSlice(s: string, at: nat, part: string, from: nat, to: nat)
    requires At(s, at, part) && at <= from <= to <= at + |part|
    ensures part[from - at..to - at] == s[from..to]
  {
    forall i | from - at <= i < to - at ensures part[i] == s[at + i] {
      assert s[at..at + |part|][i] == s[at + i];
    }
  }

  /** The first carriage return after its start is the one that ends a line. */
  lemma LineEndsBy(body: string, q: nat, delimiter: string, d: Delimiter, stop: nat) returns (w: string)
    requires '\r' !in delimiter && delimiter != "" && delimiter[0] != '\n'
    requires IsLine(body, q, delimiter, d) && q < stop + 2 && stop + 1 < |body|
    requires body[stop] == '\r' && body[stop + 1] == '\n'
    ensures d.next <= stop + 2 && Spells(body, q, delimiter, d, w, CRLF)
  {
    var end;
    w, end :| Spells(body, q, delimiter, d, w, end);
    var lead := delimiter + Dashes(d.closing) + w;
    assert body[q..d.next] == lead + end;
    assert forall i :: 0 <= i < |lead| ==> lead[i] != '\r';
    assert forall i :: 0 <= i < |lead| ==> body[q + i] == body[q..d.next][i] == lead[i];
    assert body[q] == delimiter[0];
    assert q < stop;
    assert q + |lead| <= stop;
  }

  /** The other way: a line of text framed by line ends is a line of the body. */
  lemma LineComesOut(body: string, from: nat, data: string, delimiter: string, q: nat)
    requires delimiter != "" && from >= 2 && At(body, from - 2, CRLF + data + CRLF)
    requires Boundary(CRLF + data + CRLF, q, delimiter)
    ensures from <= from - 2 + q < from + |data| && Boundary(body, from - 2 + q, delimiter)
  {
    FramedLineOut(body, from - 2, CRLF + data + CRLF, delimiter, q);
  }

  lemma FramedLineOut(body: string, at: nat, framed: string, delimiter: string, q: nat)
    requires At(body, at, framed) && |framed| >= 1 && framed[|framed| - 1] == '\n'
    requires Boundary(framed, q, delimiter)
    ensures Boundary(body, at + q, delimiter) && q + |delimiter| + 2 <= |framed|
  {
    var d := LineAt(framed, q, delimiter).value;
    LineIsGrammatical(framed, q, delimiter);
    var w := LineHasEnd(framed, q, delimiter, d);
    FrameLineOut(body, at, framed, delimiter, q, d, w);
  }

  lemma FrameLineOut(body: string, at: nat, framed: string, delimiter: string, q: nat, d: Delimiter, w: string)
    requires At(body, at, framed) && q >= 2 && At(framed, q - 2, CRLF) && Spells(framed, q, delimiter, d, w, CRLF)
    ensures Boundary(body, at + q, delimiter) && q + |delimiter| + 2 <= |framed|
  {
    var outer := Delimiter(d.closing, at + d.next);
    SubSlice(body, at, framed, at + q, at + d.next);
    assert Spells(body, at + q, delimiter, outer, w, CRLF);
    GrammaticalIsLine(body, at + q, delimiter, outer);
    assert At(body, at + q - 2, CRLF) by {
      SubSlice(body, at, framed, at + q - 2, at + q);
    }
    assert q + |delimiter| + 2 <= d.next by {
      SliceParts(framed, q, d.next, delimiter, Dashes(d.closing) + (w + CRLF));
    }
  }

  /** In text that ends with a line end every delimiter line has its own. */
  lemma LineHasEnd(s: string, q: nat, delimiter: string, d: Delimiter) returns (w: string)
    requires |s| >= 1 && s[|s| - 1] == '\n' && IsLine(s, q, delimiter, d)
    ensures Spells(s, q, delimiter, d, w, CRLF)
  {
    var end;
    w, end :| Spells(s, q, delimiter, d, w, end);
    var lead := Dashes(d.closing) + (w + end);
    SliceParts(s, q, d.next, delimiter, lead);
    assert lead != "" ==> s[d.next - 1] == s[q + |delimiter|..d.next][|lead| - 1];
    LeadLast(w);
    assert w + "" == w;
  }

  lemma LeadLast(w: string)
    requires Blanks(w)
    ensures var lead := Dashes(true) + w; lead[|lead| - 1] != '\n'
  {
  }

  /** Where there is a boundary there is a first one. */
  lemma {:induction false} SomeNext(body: string, k: nat, delimiter: string, q: nat)
    requires k <= q && Boundary(body, q, delimiter)
    ensures NextDelimiter(body, k, delimiter).Some? && NextDelimiter(body, k, delimiter).value.0 <= q
    decreases q
  {
    if exists r :: k <= r < q && Boundary(body, r, delimiter) {
      var r :| k <= r < q && Boundary(body, r, delimiter);
      SomeNext(body, k, delimiter, r);
    } else {
      assert NoBoundary(body, k, q, delimiter);
      NextIs(body, k, delimiter, q, LineAt(body, q, delimiter).value);
    }
  }
}
