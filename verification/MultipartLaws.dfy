/**
 Multipart parsing against a declarative reading of the body: a body is
 accepted exactly when it can be cut as the grammar says, within the limits
 (src/app/form.rs).
 */
module MultipartLaws {
  import opened Basics
  import opened Text
  import opened Delimiters
  import opened PartHeaders
  import opened Multipart
  import opened HeaderRegions

  // ----------------------------------------------------- parameters and lines

  /** Exactly one parameter has the name, and its value is `value`. */
  ghost predicate OnlyOne(parameters: Parameters, name: string, value: string) {
    exists i :: 0 <= i < |parameters| && parameters[i].1 == value && OnlyAt(parameters, name, i)
  }

  ghost predicate NoneNamed(parameters: Parameters, name: string) {
    forall j :: 0 <= j < |parameters| ==> !EqualIgnoringCase(parameters[j].0, name)
  }

  lemma {:induction false} MatchingNone(parameters: Parameters, name: string)
    ensures Matching(parameters, name) == [] <==> NoneNamed(parameters, name)
  {
    if parameters != [] {
      MatchingNone(parameters[1..], name);
      assert parameters == [parameters[0]] + parameters[1..];
    }
  }

  lemma {:induction false} MatchingOne(parameters: Parameters, name: string, value: string)
    ensures Matching(parameters, name) == [value] <==> OnlyOne(parameters, name, value)
  {
    if parameters != [] {
      var first, rest := parameters[0], parameters[1..];
      assert parameters == [first] + rest;
      if EqualIgnoringCase(first.0, name) {
        MatchingNone(rest, name);
        OnlyFirst(first, rest, name, value);
        assert Matching(parameters, name) == [first.1] + Matching(rest, name);
        OneElement(first.1, Matching(rest, name), value);
      } else {
        MatchingOne(rest, name, value);
        assert Matching(parameters, name) == [] + Matching(rest, name) == Matching(rest, name);
        OnlyLater(first, rest, name, value);
      }
    }
  }

  lemma OneElement(x: string, rest: seq<string>, value: string)
    ensures [x] + rest == [value] <==> x == value && rest == []
  {
    if [x] + rest == [value] {
      assert ([x] + rest)[0] == [value][0];
      assert |[x] + rest| == |[value]|;
    }
  }

  lemma OnlyFirst(first: (string, string), rest: Parameters, name: string, value: string)
    requires EqualIgnoringCase(first.0, name)
    ensures OnlyOne([first] + rest, name, value) <==> first.1 == value && NoneNamed(rest, name)
  {
    var all := [first] + rest;
    assert all[0] == first;
    if OnlyOne(all, name, value) {
      var i :| 0 <= i < |all| && all[i].1 == value && OnlyAt(all, name, i);
      assert i == 0;
      forall j | 0 <= j < |rest| ensures !EqualIgnoringCase(rest[j].0, name) {
        assert all[j + 1] == rest[j];
      }
    }
    if first.1 == value && NoneNamed(rest, name) {
      forall j | 0 <= j < |all| ensures EqualIgnoringCase(all[j].0, name) <==> j == 0 {
        assert j > 0 ==> all[j] == rest[j - 1];
      }
      assert OnlyAt(all, name, 0);
    }
  }

  ghost predicate OnlyAt(parameters: Parameters, name: string, i: nat) {
    forall j :: 0 <= j < |parameters| ==> (EqualIgnoringCase(parameters[j].0, name) <==> j == i)
  }

  lemma OnlyAtLater(first: (string, string), rest: Parameters, name: string, i: nat)
    requires !EqualIgnoringCase(first.0, name)
    ensures OnlyAt([first] + rest, name, i + 1) <==> OnlyAt(rest, name, i)
  {
    var all := [first] + rest;
    assert all[0] == first;
    if OnlyAt(all, name, i + 1) {
      forall j | 0 <= j < |rest| ensures EqualIgnoringCase(rest[j].0, name) <==> j == i {
        assert all[j + 1] == rest[j];
      }
    }
    if OnlyAt(rest, name, i) {
      forall j | 0 <= j < |all| ensures EqualIgnoringCase(all[j].0, name) <==> j == i + 1 {
        assert j > 0 ==> all[j] == rest[j - 1];
      }
    }
  }

  lemma OnlyLater(first: (string, string), rest: Parameters, name: string, value: string)
    requires !EqualIgnoringCase(first.0, name)
    ensures OnlyOne([first] + rest, name, value) <==> OnlyOne(rest, name, value)
  {
    var all := [first] + rest;
    if OnlyOne(all, name, value) {
      var i :| 0 <= i < |all| && all[i].1 == value && OnlyAt(all, name, i);
      assert all[0] == first && i > 0;
      assert all[i] == rest[i - 1];
      OnlyAtLater(first, rest, name, i - 1);
    }
    if OnlyOne(rest, name, value) {
      var i :| 0 <= i < |rest| && rest[i].1 == value && OnlyAt(rest, name, i);
      assert all[i + 1] == rest[i];
      OnlyAtLater(first, rest, name, i);
    }
  }

  /** A parameter counts if and only if exactly one has its name. */
  lemma UniqueIff(parameters: Parameters, name: string, value: string)
    ensures Unique(parameters, name) == Some(value) <==> OnlyOne(parameters, name, value)
  {
    MatchingOne(parameters, name, value);
    var m := Matching(parameters, name);
    assert |m| == 1 ==> m == [m[0]];
  }

  /** A header line is a name of token bytes, a colon, and a value without
      control characters once white space around it is gone. */
  ghost predicate IsHeader(line: string, name: string, value: string) {
    exists raw :: line == name + [':'] + raw && name != "" && AllTokens(name) && value == Trim(raw) && Printable(value)
  }

  lemma HeaderLineIff(line: string, name: string, value: string)
    ensures HeaderLine(line) == Ok((name, value)) <==> IsHeader(line, name, value)
  {
    if IsHeader(line, name, value) {
      var raw :| line == name + [':'] + raw && name != "" && AllTokens(name) && value == Trim(raw) && Printable(value);
      TokensAreNoColons(name);
      HeaderLineIs(name, raw);
    }
    if HeaderLine(line) == Ok((name, value)) {
      var n := Before(line, ':');
      assert line == line[..n] + [':'] + line[n + 1..];
    }
  }

  // -------------------------------------------------------- reading a whole body

  type Reader = string -> Result<Headers, PartError>

  /** The part `s` reads from `from`: header text up to the first blank line,
      then data up to the first delimiter line, all within the limits. */
  ghost predicate ReadsAs(
    body: string, delimiter: string, from: nat, s: Parsed, limits: PartLimits, headers: Reader)
  {
    && from + 4 <= s.start <= s.end && s.end + 2 <= |body|
    && IsFirst(body, from, HEADERS_END, s.start - 4) && s.start - 4 - from <= limits.headerBytes
    && headers(body[from..s.start - 4]) == Ok(s.part.headers)
    && Boundary(body, s.end + 2, delimiter) && NoBoundary(body, s.start, s.end + 2, delimiter)
    && s.part.data == body[s.start..s.end] && s.end - s.start <= limits.partBytes
  }

  lemma PartIff(f: Scan, body: string, delimiter: string, limits: PartLimits, pos: nat, s: Parsed, d: Delimiter)
    requires IsScan(f, body, delimiter, limits)
    ensures PartAt(f, body, pos, limits) == Ok((s, d))
       <==> ReadsAs(body, delimiter, pos, s, limits, f.headers) && LineAt(body, s.end + 2, delimiter) == Some(d)
  {
    if PartAt(f, body, pos, limits) == Ok((s, d)) {
      PartReads(f, body, delimiter, limits, pos, s, d);
    }
    if ReadsAs(body, delimiter, pos, s, limits, f.headers) && LineAt(body, s.end + 2, delimiter) == Some(d) {
      ReadsPart(f, body, delimiter, limits, pos, s, d);
    }
  }

  lemma FoundFirst(f: Scan, body: string, delimiter: string, limits: PartLimits, pos: nat)
    requires IsScan(f, body, delimiter, limits) && f.headersEnd(pos).Some?
    ensures IsFirst(body, pos, HEADERS_END, f.headersEnd(pos).value) && f.headersEnd(pos).value + 4 <= |body|
  {
    assert f.headersEnd(pos) == FirstAt(body, pos, HEADERS_END);
  }

  lemma PartReads(f: Scan, body: string, delimiter: string, limits: PartLimits, pos: nat, s: Parsed, d: Delimiter)
    requires IsScan(f, body, delimiter, limits) && PartAt(f, body, pos, limits) == Ok((s, d))
    ensures ReadsAs(body, delimiter, pos, s, limits, f.headers) && LineAt(body, s.end + 2, delimiter) == Some(d)
  {
    FoundFirst(f, body, delimiter, limits, pos);
    var end := f.headersEnd(pos).value;
    FoundParts(f, body, limits, pos, s, d, end);
    NextFound(f, body, delimiter, limits, end + 4, s.end + 2, d);
  }

  /** What the searches found for an accepted part. */
  lemma FoundParts(f: Scan, body: string, limits: PartLimits, pos: nat, s: Parsed, d: Delimiter, end: nat)
    requires PartAt(f, body, pos, limits) == Ok((s, d)) && f.headersEnd(pos) == Some(end) && pos <= end
    ensures end - pos <= limits.headerBytes && s.start == end + 4 <= s.end && s.end - s.start <= limits.partBytes
    ensures f.next(end + 4) == Some((s.end + 2, d)) && f.headers(Cut(body, pos, end)) == Ok(s.part.headers)
    ensures s.part.data == Cut(body, s.start, s.end)
  {
  }

  lemma FirstScanned(f: Scan, body: string, delimiter: string, limits: PartLimits, pos: nat, end: nat)
    requires IsScan(f, body, delimiter, limits) && IsFirst(body, pos, HEADERS_END, end)
    ensures f.headersEnd(pos) == Some(end)
  {
    FirstIs(body, pos, HEADERS_END, end);
  }

  lemma NextScanned(f: Scan, body: string, delimiter: string, limits: PartLimits, k: nat, p: nat, d: Delimiter)
    requires IsScan(f, body, delimiter, limits) && IsNext(body, k, delimiter, p, d)
    ensures f.next(k) == Some((p, d))
  {
    NextIs(body, k, delimiter, p, d);
  }

  lemma ReadsPart(f: Scan, body: string, delimiter: string, limits: PartLimits, pos: nat, s: Parsed, d: Delimiter)
    requires IsScan(f, body, delimiter, limits) && ReadsAs(body, delimiter, pos, s, limits, f.headers)
    requires LineAt(body, s.end + 2, delimiter) == Some(d)
    ensures PartAt(f, body, pos, limits) == Ok((s, d))
  {
    FirstScanned(f, body, delimiter, limits, pos, s.start - 4);
    NextScanned(f, body, delimiter, limits, s.start, s.end + 2, d);
    ScannedPart(f, body, limits, pos, s, d);
  }

  lemma ScannedPart(f: Scan, body: string, limits: PartLimits, pos: nat, s: Parsed, d: Delimiter)
    requires pos + 4 <= s.start <= s.end <= |body|
    requires f.headersEnd(pos) == Some(s.start - 4) && s.start - 4 - pos <= limits.headerBytes
    requires f.next(s.start) == Some((s.end + 2, d)) && s.end - s.start <= limits.partBytes
    requires f.headers(body[pos..s.start - 4]) == Ok(s.part.headers) && s.part.data == body[s.start..s.end]
    ensures PartAt(f, body, pos, limits) == Ok((s, d))
  {
  }

  /** The body reads as these parts from `from` to the closing line. */
  ghost predicate BodyReads(
    body: string, delimiter: string, from: nat, spans: seq<Parsed>, limits: PartLimits, headers: Reader)
    decreases |spans|
  {
    spans != []
    && ReadsAs(body, delimiter, from, spans[0], limits, headers)
    && var line := LineAt(body, spans[0].end + 2, delimiter).value;
       if line.closing then |spans| == 1
       else BodyReads(body, delimiter, line.next, spans[1..], limits, headers)
  }

  lemma {:induction false} PartsRead(
    f: Scan, body: string, delimiter: string, limits: PartLimits, pos: nat, count: nat, spans: seq<Parsed>)
    requires IsScan(f, body, delimiter, limits) && PartsFrom(f, body, pos, limits, count) == Ok(spans)
    ensures BodyReads(body, delimiter, pos, spans, limits, f.headers) && count + |spans| <= limits.parts
    decreases limits.parts - count
  {
    var part, d, rest := PartsStep(f, body, pos, limits, count);
    PartReads(f, body, delimiter, limits, pos, part, d);
    if !d.closing {
      PartsRead(f, body, delimiter, limits, d.next, count + 1, rest);
    }
    BodyReadsCons(body, delimiter, pos, part, d, rest, limits, f.headers);
  }

  lemma BodyReadsCons(
    body: string, delimiter: string, pos: nat, part: Parsed, d: Delimiter, rest: seq<Parsed>, limits: PartLimits,
    headers: Reader)
    requires ReadsAs(body, delimiter, pos, part, limits, headers)
    requires LineAt(body, part.end + 2, delimiter) == Some(d)
    requires if d.closing then rest == [] else BodyReads(body, delimiter, d.next, rest, limits, headers)
    ensures BodyReads(body, delimiter, pos, [part] + rest, limits, headers)
  {
    var all := [part] + rest;
    assert all[0] == part && all[1..] == rest;
    BodyReadsOn(body, delimiter, pos, all, d, limits, headers);
  }

  lemma BodyReadsOn(
    body: string, delimiter: string, pos: nat, spans: seq<Parsed>, d: Delimiter, limits: PartLimits, headers: Reader)
    requires spans != [] && ReadsAs(body, delimiter, pos, spans[0], limits, headers)
    requires LineAt(body, spans[0].end + 2, delimiter) == Some(d)
    requires if d.closing then |spans| == 1 else BodyReads(body, delimiter, d.next, spans[1..], limits, headers)
    ensures BodyReads(body, delimiter, pos, spans, limits, headers)
  {
  }

  lemma {:induction false} ReadParts(
    f: Scan, body: string, delimiter: string, limits: PartLimits, pos: nat, count: nat, spans: seq<Parsed>)
    requires IsScan(f, body, delimiter, limits)
    requires BodyReads(body, delimiter, pos, spans, limits, f.headers) && count + |spans| <= limits.parts
    ensures PartsFrom(f, body, pos, limits, count) == Ok(spans)
    decreases |spans|
  {
    var d := LineAt(body, spans[0].end + 2, delimiter).value;
    ReadsPart(f, body, delimiter, limits, pos, spans[0], d);
    if !d.closing {
      ReadParts(f, body, delimiter, limits, d.next, count + 1, spans[1..]);
    }
    PartsMade(f, body, pos, limits, count, spans, d);
  }

  lemma PartsMade(
    f: Scan, body: string, pos: nat, limits: PartLimits, count: nat, spans: seq<Parsed>, d: Delimiter)
    requires spans != [] && count < limits.parts && PartAt(f, body, pos, limits) == Ok((spans[0], d))
    requires if d.closing then |spans| == 1 else PartsFrom(f, body, d.next, limits, count + 1) == Ok(spans[1..])
    ensures PartsFrom(f, body, pos, limits, count) == Ok(spans)
  {
    assert spans == [spans[0]] + spans[1..];
    assert |spans| == 1 ==> spans == [spans[0]];
  }

  /** Two readers that agree on every text read a body alike. */
  lemma {:induction false} SameReaders(
    body: string, delimiter: string, from: nat, spans: seq<Parsed>, limits: PartLimits, a: Reader, b: Reader)
    requires forall raw :: a(raw) == b(raw)
    ensures BodyReads(body, delimiter, from, spans, limits, a) <==> BodyReads(body, delimiter, from, spans, limits, b)
    decreases |spans|
  {
    if spans != [] {
      assert ReadsAs(body, delimiter, from, spans[0], limits, a)
        <==> ReadsAs(body, delimiter, from, spans[0], limits, b);
      if ReadsAs(body, delimiter, from, spans[0], limits, a) {
        SameReaders(body, delimiter, LineAt(body, spans[0].end + 2, delimiter).value.next, spans[1..], limits, a, b);
      }
    }
  }

  ghost function HeaderReader(max: nat): Reader {
    raw => HeadersOf(raw, max)
  }

  lemma ScanReader(f: Scan, body: string, delimiter: string, limits: PartLimits)
    requires IsScan(f, body, delimiter, limits)
    ensures forall raw :: f.headers(raw) == HeaderReader(limits.headers)(raw)
  {
    forall raw ensures f.headers(raw) == HeaderReader(limits.headers)(raw) {
      assert f.headers(raw) == HeadersOf(raw, limits.headers);
    }
  }

  ghost predicate OpensWithLine(
    body: string, delimiter: string, p: nat, d: Delimiter, spans: seq<Parsed>, limits: PartLimits)
  {
    && IsOpening(body, delimiter, p, d)
    && if d.closing then spans == []
       else BodyReads(body, delimiter, d.next, spans, limits, HeaderReader(limits.headers)) && |spans| <= limits.parts
  }

  /** The body reads as these parts from its first delimiter line on. */
  ghost predicate WholeReads(body: string, boundary: string, spans: seq<Parsed>, limits: PartLimits) {
    exists p, d :: OpensWithLine(body, "--" + boundary, p, d, spans, limits)
  }

  /** A body is accepted as `parts` exactly when it can be cut into them. */
  lemma AcceptedIff(body: string, boundary: string, limits: PartLimits, parts: seq<Part>)
    ensures Parse(body, boundary, limits) == Ok(parts)
       <==> exists spans :: WholeReads(body, boundary, spans, limits) && PartsOf(spans) == parts
  {
    if Parse(body, boundary, limits) == Ok(parts) {
      var spans := Spanned(body, boundary, limits).value;
      SpannedReads(body, boundary, "--" + boundary, limits, spans);
    }
    forall spans | WholeReads(body, boundary, spans, limits) ensures Spanned(body, boundary, limits) == Ok(spans) {
      ReadsSpanned(body, boundary, "--" + boundary, limits, spans);
    }
  }

  lemma SpannedReads(body: string, boundary: string, delimiter: string, limits: PartLimits, spans: seq<Parsed>)
    requires delimiter == "--" + boundary && Spanned(body, boundary, limits) == Ok(spans)
    ensures WholeReads(body, boundary, spans, limits)
  {
    var first := OpeningLine(body, delimiter).value;
    var p :| IsOpening(body, delimiter, p, first);
    if !first.closing {
      var f := ScanOf(body, delimiter, limits);
      PartsRead(f, body, delimiter, limits, first.next, 0, spans);
      ScanReader(f, body, delimiter, limits);
      SameReaders(body, delimiter, first.next, spans, limits, f.headers, HeaderReader(limits.headers));
    }
    assert OpensWithLine(body, delimiter, p, first, spans, limits);
  }

  lemma ReadsSpanned(body: string, boundary: string, delimiter: string, limits: PartLimits, spans: seq<Parsed>)
    requires delimiter == "--" + boundary && WholeReads(body, boundary, spans, limits)
    ensures Spanned(body, boundary, limits) == Ok(spans)
  {
    var p, d :| OpensWithLine(body, delimiter, p, d, spans, limits);
    OpeningIs(body, delimiter, p, d);
    if !d.closing {
      var f := ScanOf(body, delimiter, limits);
      ScanReader(f, body, delimiter, limits);
      SameReaders(body, delimiter, d.next, spans, limits, f.headers, HeaderReader(limits.headers));
      ReadParts(f, body, delimiter, limits, d.next, 0, spans);
    }
  }
}
