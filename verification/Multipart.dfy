/**
 Multipart bodies: the parser, a printer it undoes, and where the data of an
 accepted body lies (src/app/form.rs; section 5.1.1 of RFC 2046).
 */
module Multipart {
  import opened Basics
  import opened Text
  import opened Delimiters
  import opened PartHeaders

  datatype PartLimits = PartLimits(parts: nat, headers: nat, headerBytes: nat, partBytes: nat)

  datatype Part = Part(headers: Headers, data: string)

  /** A part and the span of the body that holds its data. */
  datatype Parsed = Parsed(part: Part, start: nat, end: nat)

  const HEADERS_END: string := "\r\n\r\n"

  // ------------------------------------------------------------------ parsing

  /** The searches in one body, as functions of a position, and the reading of
      header text. */
  datatype Scan = Scan(
    headersEnd: nat -> Option<nat>,
    next: nat -> Option<(nat, Delimiter)>,
    headers: string -> Result<Headers, PartError>)

  ghost predicate IsScan(f: Scan, body: string, delimiter: string, limits: PartLimits) {
    && (forall k {:trigger FirstAt(body, k, HEADERS_END)} :: f.headersEnd(k) == FirstAt(body, k, HEADERS_END))
    && (forall k {:trigger NextDelimiter(body, k, delimiter)} :: f.next(k) == NextDelimiter(body, k, delimiter))
    && (forall raw {:trigger HeadersOf(raw, limits.headers)} :: f.headers(raw) == HeadersOf(raw, limits.headers))
  }

  ghost function ScanOf(body: string, delimiter: string, limits: PartLimits): (f: Scan)
    ensures IsScan(f, body, delimiter, limits)
  {
    Scan((k: nat) => FirstAt(body, k, HEADERS_END),
         (k: nat) => NextDelimiter(body, k, delimiter),
         raw => HeadersOf(raw, limits.headers))
  }

  ghost function Cut(s: string, from: nat, to: nat): string {
    if from <= to <= |s| then s[from..to] else ""
  }

  /** The part whose headers start at `pos`, and the delimiter line after it. */
  ghost function PartAt(f: Scan, body: string, pos: nat, limits: PartLimits): Result<(Parsed, Delimiter), PartError> {
    match f.headersEnd(pos)
    case None => Err(MalformedBody)
    case Some(end) =>
      if end - pos > limits.headerBytes then Err(HeadersTooLarge)
      else
        var start := end + 4;
        match f.next(start)
        case None => Err(MalformedBody)
        case Some((p, d)) =>
          if p < start + 2 then Err(MalformedBody)
          else if p - 2 - start > limits.partBytes then Err(PartTooLarge)
          else
            match f.headers(Cut(body, pos, end))
            case Err(e) => Err(e)
            case Ok(h) => Ok((Parsed(Part(h, Cut(body, start, p - 2)), start, p - 2), d))
  }

  /** The parts from `pos` to the closing delimiter. */
  ghost function PartsFrom(f: Scan, body: string, pos: nat, limits: PartLimits, count: nat)
    : Result<seq<Parsed>, PartError>
    decreases limits.parts - count
  {
    if count >= limits.parts then Err(TooManyParts)
    else
      match PartAt(f, body, pos, limits)
      case Err(e) => Err(e)
      case Ok((part, d)) =>
        if d.closing then Ok([part])
        else
          match PartsFrom(f, body, d.next, limits, count + 1)
          case Err(e) => Err(e)
          case Ok(rest) => Ok([part] + rest)
  }

  ghost function Spanned(body: string, boundary: string, limits: PartLimits): Result<seq<Parsed>, PartError> {
    var delimiter := "--" + boundary;
    match OpeningLine(body, delimiter)
    case None => Err(MalformedBody)
    case Some(first) =>
      if first.closing then Ok([])
      else PartsFrom(ScanOf(body, delimiter, limits), body, first.next, limits, 0)
  }

  function PartsOf(spans: seq<Parsed>): seq<Part> {
    seq(|spans|, i requires 0 <= i < |spans| => spans[i].part)
  }

  ghost function Parse(body: string, boundary: string, limits: PartLimits): Result<seq<Part>, PartError> {
    match Spanned(body, boundary, limits)
    case Err(e) => Err(e)
    case Ok(spans) => Ok(PartsOf(spans))
  }

  // ---------------------------------------------------------------- the loops

  method ScanHeadersEnd(body: string, pos: nat, delimiter: string, limits: PartLimits, ghost f: Scan)
    returns (r: Option<nat>)
    requires pos <= |body| && IsScan(f, body, delimiter, limits)
    ensures r == f.headersEnd(pos) && (r.Some? ==> pos <= r.value && r.value + 4 <= |body|)
  {
    r := FindFrom(body, pos, HEADERS_END);
  }

  method ScanNext(body: string, k: nat, delimiter: string, limits: PartLimits, ghost f: Scan)
    returns (r: Option<(nat, Delimiter)>)
    requires delimiter != "" && IsScan(f, body, delimiter, limits)
    ensures r == f.next(k) && (r.Some? ==> k <= r.value.0 < r.value.1.next <= |body|)
  {
    r := FindNextDelimiter(body, k, delimiter);
  }

  method ScanHeaders(raw: string, body: string, delimiter: string, limits: PartLimits, ghost f: Scan)
    returns (r: Result<Headers, PartError>)
    requires IsScan(f, body, delimiter, limits)
    ensures r == f.headers(raw)
  {
    r := ParsePartHeaders(raw, limits.headers);
  }

  /** One turn of the loop of `parse_multipart`. */
  method ParsePart(body: string, pos: nat, delimiter: string, limits: PartLimits, ghost f: Scan)
    returns (r: Result<(Parsed, Delimiter), PartError>)
    requires delimiter != "" && pos <= |body| && IsScan(f, body, delimiter, limits)
    ensures r == PartAt(f, body, pos, limits) && (r.Ok? ==> pos < r.value.1.next <= |body|)
  {
    var found := ScanHeadersEnd(body, pos, delimiter, limits, f);
    if found.None? {
      return Err(MalformedBody);
    }
    var headersEnd := found.value;
    if headersEnd - pos > limits.headerBytes {
      return Err(HeadersTooLarge);
    }
    var dataStart := headersEnd + 4;
    var next := ScanNext(body, dataStart, delimiter, limits, f);
    if next.None? || next.value.0 < 2 || next.value.0 - 2 < dataStart {
      return Err(MalformedBody);
    }
    var dataEnd := next.value.0 - 2;
    if dataEnd - dataStart > limits.partBytes {
      return Err(PartTooLarge);
    }
    var headers := ScanHeaders(body[pos..headersEnd], body, delimiter, limits, f);
    if headers.Err? {
      return Err(headers.error);
    }
    return Ok((Parsed(Part(headers.value, body[dataStart..dataEnd]), dataStart, dataEnd), next.value.1));
  }

  ghost function Appended(front: seq<Parsed>, r: Result<seq<Parsed>, PartError>): Result<seq<Parsed>, PartError> {
    match r
    case Err(e) => Err(e)
    case Ok(back) => Ok(front + back)
  }

  lemma AppendedMore(front: seq<Parsed>, p: Parsed, r: Result<seq<Parsed>, PartError>)
    ensures Appended(front, Appended([p], r)) == Appended(front + [p], r)
  {
    if r.Ok? {
      assert front + ([p] + r.value) == (front + [p]) + r.value;
    }
  }

  lemma AppendedNone(r: Result<seq<Parsed>, PartError>)
    ensures Appended([], r) == r
  {
    assert r.Ok? ==> [] + r.value == r.value;
  }

  /** The loop of `parse_multipart`. */
  method ParseParts(body: string, start: nat, delimiter: string, limits: PartLimits, ghost f: Scan)
    returns (r: Result<seq<Parsed>, PartError>)
    requires delimiter != "" && start <= |body| && IsScan(f, body, delimiter, limits)
    ensures r == PartsFrom(f, body, start, limits, 0)
  {
    var pos, parts: seq<Parsed> := start, [];
    AppendedNone(PartsFrom(f, body, start, limits, 0));
    while true
      invariant pos <= |body|
      invariant PartsFrom(f, body, start, limits, 0) == Appended(parts, PartsFrom(f, body, pos, limits, |parts|))
      decreases |body| - pos
    {
      if |parts| >= limits.parts {
        return Err(TooManyParts);
      }
      var parsed := ParsePart(body, pos, delimiter, limits, f);
      if parsed.Err? {
        return Err(parsed.error);
      }
      var (part, next) := parsed.value;
      if next.closing {
        return Ok(parts + [part]);
      }
      AppendedMore(parts, part, PartsFrom(f, body, next.next, limits, |parts| + 1));
      parts := parts + [part];
      pos := next.next;
    }
  }

  /** `parse_multipart`. */
  method ParseMultipart(body: string, boundary: string, limits: PartLimits) returns (r: Result<seq<Part>, PartError>)
    ensures r == Parse(body, boundary, limits)
  {
    var delimiter := "--" + boundary;
    var first := FindInitialDelimiter(body, delimiter);
    if first.None? {
      return Err(MalformedBody);
    }
    if first.value.closing {
      assert PartsOf([]) == [];
      return Ok([]);
    }
    var spans := ParseParts(body, first.value.next, delimiter, limits, ScanOf(body, delimiter, limits));
    return if spans.Err? then Err(spans.error) else Ok(PartsOf(spans.value));
  }

  // -------------------------------------------- where accepted data may lie

  /** Data after `from`, within its limit, ended by a line end and a delimiter
      line, with no delimiter line before that one. */
  ghost predicate WellPlaced(body: string, delimiter: string, from: nat, s: Parsed, limits: PartLimits) {
    && from <= s.start <= s.end && s.end + 2 <= |body|
    && s.part.data == body[s.start..s.end] && |s.part.data| <= limits.partBytes
    && Boundary(body, s.end + 2, delimiter)
    && NoBoundary(body, s.start, s.end + 2, delimiter)
  }

  /** Each part starts after the delimiter line that ended the one before, and
      only the last delimiter line closes. */
  ghost predicate WellSpanned(body: string, delimiter: string, from: nat, spans: seq<Parsed>, limits: PartLimits)
    decreases |spans|
  {
    spans == []
    || (&& WellPlaced(body, delimiter, from, spans[0], limits)
        && var line := LineAt(body, spans[0].end + 2, delimiter).value;
        && line.closing == (|spans| == 1)
        && WellSpanned(body, delimiter, line.next, spans[1..], limits))
  }

  lemma HeadersEndAfter(f: Scan, body: string, delimiter: string, limits: PartLimits, pos: nat)
    requires IsScan(f, body, delimiter, limits)
    ensures f.headersEnd(pos).Some? ==> pos <= f.headersEnd(pos).value && f.headersEnd(pos).value + 4 <= |body|
  {
    assert f.headersEnd(pos) == FirstAt(body, pos, HEADERS_END);
  }

  lemma NextIsBoundary(f: Scan, body: string, delimiter: string, limits: PartLimits, k: nat)
    requires IsScan(f, body, delimiter, limits)
    ensures f.next(k).Some? ==>
              var (p, d) := f.next(k).value;
              k <= p <= |body| && Boundary(body, p, delimiter) && LineAt(body, p, delimiter) == Some(d)
              && NoBoundary(body, k, p, delimiter)
  {
    assert f.next(k) == NextDelimiter(body, k, delimiter);
  }

  lemma PartIsPlaced(
    f: Scan, body: string, delimiter: string, limits: PartLimits, pos: nat, part: Parsed, d: Delimiter)
    requires IsScan(f, body, delimiter, limits) && PartAt(f, body, pos, limits) == Ok((part, d))
    ensures WellPlaced(body, delimiter, pos, part, limits) && LineAt(body, part.end + 2, delimiter) == Some(d)
  {
    HeadersEndAfter(f, body, delimiter, limits, pos);
    NextIsBoundary(f, body, delimiter, limits, f.headersEnd(pos).value + 4);
  }

  /** Accepted parts: the first one, and the rest after its delimiter line. */
  lemma PartsStep(f: Scan, body: string, pos: nat, limits: PartLimits, count: nat)
    returns (part: Parsed, d: Delimiter, rest: seq<Parsed>)
    requires PartsFrom(f, body, pos, limits, count).Ok?
    ensures count < limits.parts && PartAt(f, body, pos, limits) == Ok((part, d))
    ensures PartsFrom(f, body, pos, limits, count) == Ok([part] + rest)
    ensures if d.closing then rest == [] else PartsFrom(f, body, d.next, limits, count + 1) == Ok(rest)
  {
    part, d := PartAt(f, body, pos, limits).value.0, PartAt(f, body, pos, limits).value.1;
    rest := if d.closing then [] else PartsFrom(f, body, d.next, limits, count + 1).value;
    assert [part] + [] == [part];
  }

  lemma {:induction false} PartsAreWellSpanned(
    f: Scan, body: string, delimiter: string, limits: PartLimits, pos: nat, count: nat, spans: seq<Parsed>)
    requires IsScan(f, body, delimiter, limits) && PartsFrom(f, body, pos, limits, count) == Ok(spans)
    ensures spans != [] && WellSpanned(body, delimiter, pos, spans, limits) && count + |spans| <= limits.parts
    decreases limits.parts - count
  {
    var part, d, rest := PartsStep(f, body, pos, limits, count);
    PartIsPlaced(f, body, delimiter, limits, pos, part, d);
    if !d.closing {
      PartsAreWellSpanned(f, body, delimiter, limits, d.next, count + 1, rest);
    }
    SpannedOn(body, delimiter, pos, part, d, rest, limits);
  }

  lemma SpannedOn(
    body: string, delimiter: string, pos: nat, part: Parsed, d: Delimiter, rest: seq<Parsed>, limits: PartLimits)
    requires WellPlaced(body, delimiter, pos, part, limits)
    requires LineAt(body, part.end + 2, delimiter) == Some(d) && d.closing == (rest == [])
    requires WellSpanned(body, delimiter, d.next, rest, limits)
    ensures WellSpanned(body, delimiter, pos, [part] + rest, limits)
  {
    assert ([part] + rest)[1..] == rest;
  }

  /** Every accepted body: its data spans follow an opening delimiter line, in
      order, disjoint and free of delimiter lines, up to a closing one. */
  lemma AcceptedSpans(body: string, boundary: string, limits: PartLimits)
    requires Parse(body, boundary, limits).Ok?
    ensures var delimiter, spans := "--" + boundary, Spanned(body, boundary, limits).value;
            && PartsOf(spans) == Parse(body, boundary, limits).value
            && |spans| <= limits.parts
            && OpeningLine(body, delimiter).Some?
            && var first := OpeningLine(body, delimiter).value;
            && first.closing == (spans == [])
            && WellSpanned(body, delimiter, first.next, spans, limits)
  {
    var delimiter := "--" + boundary;
    var first := OpeningLine(body, delimiter).value;
    if !first.closing {
      PartsAreWellSpanned(ScanOf(body, delimiter, limits), body, delimiter, limits, first.next, 0,
                          Spanned(body, boundary, limits).value);
    }
  }

  // ----------------------------------------------------------------- printing

  /** `is_valid_boundary`. */
  predicate ValidBoundary(boundary: string) {
    && 0 < |boundary| <= 70
    && (forall i :: 0 <= i < |boundary| ==>
          IsAlphanumeric(boundary[i])
          || boundary[i] in {'\'', '(', ')', '+', '_', ',', '-', '.', '/', ':', '=', '?', ' '})
    && boundary[|boundary| - 1] != ' '
  }

  /** Parts from the headers of the first to the closing line. */
  function PrintParts(parts: seq<Part>, delimiter: string): string
    requires parts != []
    decreases |parts|
  {
    Layout("", PrintHeaders(parts[0].headers), parts[0].data, delimiter + Dashes(|parts| == 1) + CRLF,
           if |parts| == 1 then "" else PrintParts(parts[1..], delimiter))
  }

  /** Header text and data after `pre`, then a delimiter line. */
  function Layout(pre: string, text: string, data: string, line: string, tail: string): string {
    pre + text + HEADERS_END + (data + CRLF + (line + tail))
  }

  function Print(parts: seq<Part>, boundary: string): string {
    var delimiter := "--" + boundary;
    if parts == [] then delimiter + Dashes(true) + CRLF
    else delimiter + Dashes(false) + CRLF + PrintParts(parts, delimiter)
  }

  /** A part that headers and limits can carry. */
  ghost predicate PrintablePart(part: Part, limits: PartLimits) {
    && GoodHeaders(part.headers)
    && |PrintLines(part.headers)| <= limits.headers
    && |PrintHeaders(part.headers)| <= limits.headerBytes
    && |part.data| <= limits.partBytes
  }

  /** And whose data can stand between delimiter lines. */
  ghost predicate GoodPart(part: Part, delimiter: string, limits: PartLimits) {
    PrintablePart(part, limits) && NoLineWithin(part.data, delimiter)
  }

  ghost predicate GoodDelimiter(delimiter: string) {
    delimiter != "" && delimiter[0] == '-' && '\r' !in delimiter
  }

  // ---------------------------------------------------- parsing undoes printing

  lemma AtMiddle(a: string, b: string, c: string)
    ensures At(a + b + c, |a|, b)
  {
    assert (a + b + c)[|a|..|a| + |b|] == b;
  }

  /** Header text that is not ended early: no line end is followed by another. */
  ghost predicate NoBlankLine(text: string) {
    forall k :: 0 <= k < |text| && text[k] == '\r' ==> k + 2 < |text| && text[k + 2] != '\r'
  }

  lemma TwoLinesNoBlank(first: string, second: string)
    requires '\r' !in first && '\r' !in second && second != ""
    ensures NoBlankLine(first + CRLF + second)
  {
    var text := first + CRLF + second;
    forall k | 0 <= k < |text| && text[k] == '\r' ensures k + 2 < |text| && text[k + 2] != '\r' {
      assert k == |first|;
      assert text[k + 2] == second[0];
    }
  }

  lemma PrintedNoBlank(h: Headers)
    requires GoodHeaders(h)
    ensures NoBlankLine(PrintHeaders(h))
  {
    LinesCarried(h);
    var lines := PrintLines(h);
    if |lines| > 1 {
      TwoLinesNoBlank(lines[0], lines[1]);
    }
  }

  /** The headers end where the text of the headers ends. */
  lemma HeadersEnd(pre: string, text: string, rest: string)
    requires NoBlankLine(text)
    ensures FirstAt(pre + text + HEADERS_END + rest, |pre|, HEADERS_END) == Some(|pre| + |text|)
  {
    forall k | |pre| <= k < |pre| + |text| ensures !At(pre + text + HEADERS_END + rest, k, HEADERS_END) {
      NoEarlyEnd(pre, text, rest, k);
    }
    AtMiddle(pre + text, HEADERS_END, rest);
    FirstIs(pre + text + HEADERS_END + rest, |pre|, HEADERS_END, |pre| + |text|);
  }

  lemma AtThird(s: string, k: nat)
    ensures At(s, k, HEADERS_END) ==> s[k + 2] == '\r'
  {
    if At(s, k, HEADERS_END) {
      assert s[k + 2] == s[k..k + 4][2];
    }
  }

  lemma NoEarlyEnd(pre: string, text: string, rest: string, k: nat)
    requires NoBlankLine(text) && |pre| <= k < |pre| + |text|
    ensures !At(pre + text + HEADERS_END + rest, k, HEADERS_END)
  {
    var body := pre + text + HEADERS_END + rest;
    AtFirst(body, k, HEADERS_END);
    AtThird(body, k);
    assert body[k] == text[k - |pre|];
    if body[k] == '\r' {
      assert body[k + 2] == text[k - |pre| + 2];
    }
  }

  lemma LayoutHeaders(pre: string, text: string, data: string, line: string, tail: string)
    ensures At(Layout(pre, text, data, line, tail), |pre|, text)
  {
    var rest := HEADERS_END + (data + CRLF + (line + tail));
    AtMiddle(pre, text, rest);
    assert Layout(pre, text, data, line, tail) == pre + text + rest;
  }

  lemma LayoutData(pre: string, text: string, data: string, line: string, tail: string)
    ensures At(Layout(pre, text, data, line, tail), |pre| + |text| + 4, data)
  {
    AtMiddle(pre + text + HEADERS_END, data, CRLF + (line + tail));
    assert Layout(pre, text, data, line, tail) == pre + text + HEADERS_END + data + (CRLF + (line + tail));
  }

  lemma LayoutFramed(pre: string, text: string, data: string, line: string, tail: string)
    ensures At(Layout(pre, text, data, line, tail), |pre| + |text| + 2, CRLF + data + CRLF)
  {
    AtMiddle(pre + text + CRLF, CRLF + data + CRLF, line + tail);
    assert HEADERS_END == CRLF + CRLF;
    assert Layout(pre, text, data, line, tail) == pre + text + CRLF + (CRLF + data + CRLF) + (line + tail);
  }

  lemma LayoutLine(pre: string, text: string, data: string, line: string, tail: string)
    ensures At(Layout(pre, text, data, line, tail), |pre| + |text| + 6 + |data|, line)
  {
    AtMiddle(pre + text + HEADERS_END + data + CRLF, line, tail);
    assert Layout(pre, text, data, line, tail) == pre + text + HEADERS_END + data + CRLF + line + tail;
  }

  /** A layout with its tail split off, and one moved behind a prefix. */
  lemma LayoutMoved(pre: string, text: string, data: string, line: string, tail: string)
    ensures pre + Layout("", text, data, line, tail) == Layout(pre, text, data, line, tail)
    ensures Layout(pre, text, data, line, tail) == Layout(pre, text, data, line, "") + tail
  {
    assert "" + text == text;
    assert line + "" == line;
  }

  /** A printed delimiter line is read as one. */
  lemma PrintedLine(body: string, p: nat, delimiter: string, closing: bool)
    requires At(body, p, delimiter + Dashes(closing) + CRLF)
    ensures LineAt(body, p, delimiter) == Some(Delimiter(closing, p + |delimiter| + |Dashes(closing)| + 2))
  {
    var d := Delimiter(closing, p + |delimiter| + |Dashes(closing)| + 2);
    assert delimiter + Dashes(closing) + CRLF == delimiter + (Dashes(closing) + ("" + CRLF));
    assert Spells(body, p, delimiter, d, "", CRLF);
    GrammaticalIsLine(body, p, delimiter, d);
  }

  /** The next boundary after printed data is the printed one. */
  lemma PrintedDelimiter(body: string, start: nat, data: string, delimiter: string, closing: bool)
    requires GoodDelimiter(delimiter) && NoLineWithin(data, delimiter) && start >= 2
    requires At(body, start - 2, CRLF + data + CRLF)
    requires At(body, start + |data| + 2, delimiter + Dashes(closing) + CRLF)
    ensures var p := start + |data| + 2;
            IsNext(body, start, delimiter, p, Delimiter(closing, p + |delimiter| + |Dashes(closing)| + 2))
  {
    var p := start + |data| + 2;
    PrintedLine(body, p, delimiter, closing);
    assert At(body, p - 2, CRLF) by {
      SubSlice(body, start - 2, CRLF + data + CRLF, p - 2, p);
      assert (CRLF + data + CRLF)[|data| + 2..] == CRLF;
    }
    forall q | start <= q < p ensures !Boundary(body, q, delimiter) {
      if Boundary(body, q, delimiter) {
        LineStaysInside(body, start, data, delimiter, q);
        assert false;
      }
    }
  }

  /** A printed part after `pre`. */
  ghost function Laid(pre: string, part: Part, delimiter: string, closing: bool, tail: string): string {
    Layout(pre, PrintHeaders(part.headers), part.data, delimiter + Dashes(closing) + CRLF, tail)
  }

  lemma PrintedHeadersEnd(
    f: Scan, pre: string, part: Part, delimiter: string, closing: bool, tail: string, limits: PartLimits)
    requires GoodHeaders(part.headers) && IsScan(f, Laid(pre, part, delimiter, closing, tail), delimiter, limits)
    ensures f.headersEnd(|pre|) == Some(|pre| + |PrintHeaders(part.headers)|)
  {
    var body := Laid(pre, part, delimiter, closing, tail);
    PrintedNoBlank(part.headers);
    HeadersEnd(pre, PrintHeaders(part.headers), part.data + CRLF + (delimiter + Dashes(closing) + CRLF + tail));
    assert f.headersEnd(|pre|) == FirstAt(body, |pre|, HEADERS_END);
  }

  lemma PrintedNext(
    f: Scan, body: string, start: nat, data: string, delimiter: string, closing: bool, limits: PartLimits)
    requires IsScan(f, body, delimiter, limits)
    requires GoodDelimiter(delimiter) && NoLineWithin(data, delimiter) && start >= 2
    requires At(body, start - 2, CRLF + data + CRLF)
    requires At(body, start + |data| + 2, delimiter + Dashes(closing) + CRLF)
    ensures var p := start + |data| + 2;
            f.next(start) == Some((p, Delimiter(closing, p + |delimiter| + |Dashes(closing)| + 2)))
  {
    var p := start + |data| + 2;
    PrintedDelimiter(body, start, data, delimiter, closing);
    NextIs(body, start, delimiter, p, Delimiter(closing, p + |delimiter| + |Dashes(closing)| + 2));
  }

  lemma PrintedRead(f: Scan, body: string, delimiter: string, limits: PartLimits, h: Headers)
    requires IsScan(f, body, delimiter, limits) && GoodHeaders(h) && |PrintLines(h)| <= limits.headers
    ensures f.headers(PrintHeaders(h)) == Ok(h)
  {
    HeadersUndo(h, limits.headers);
    assert f.headers(PrintHeaders(h)) == HeadersOf(PrintHeaders(h), limits.headers);
  }

  /** What the searches find decides the part. */
  lemma PartIs(
    f: Scan, body: string, pos: nat, limits: PartLimits, text: string, h: Headers, data: string, d: Delimiter)
    requires At(body, pos, text) && At(body, pos + |text| + 4, data)
    requires f.headersEnd(pos) == Some(pos + |text|) && |text| <= limits.headerBytes
    requires f.next(pos + |text| + 4) == Some((pos + |text| + 4 + |data| + 2, d)) && |data| <= limits.partBytes
    requires f.headers(text) == Ok(h)
    ensures var start := pos + |text| + 4;
            PartAt(f, body, pos, limits) == Ok((Parsed(Part(h, data), start, start + |data|), d))
  {
  }

  /** A printed part is read back, with the delimiter line after it. */
  lemma PartUndoes(
    f: Scan, pre: string, part: Part, delimiter: string, closing: bool, tail: string, limits: PartLimits)
    requires GoodDelimiter(delimiter) && GoodPart(part, delimiter, limits)
    requires IsScan(f, Laid(pre, part, delimiter, closing, tail), delimiter, limits)
    ensures var body := Laid(pre, part, delimiter, closing, tail);
            var r := PartAt(f, body, |pre|, limits);
            r.Ok? && r.value.0.part == part && r.value.1 == Delimiter(closing, |body| - |tail|)
  {
    var text, line := PrintHeaders(part.headers), delimiter + Dashes(closing) + CRLF;
    var body := Layout(pre, text, part.data, line, tail);
    PrintedHeadersEnd(f, pre, part, delimiter, closing, tail, limits);
    PrintedRead(f, body, delimiter, limits, part.headers);
    TextIs(f, body, pre, text, part, delimiter, closing, tail, limits);
  }

  lemma TextIs(
    f: Scan, body: string, pre: string, text: string, part: Part, delimiter: string, closing: bool, tail: string,
    limits: PartLimits)
    requires GoodDelimiter(delimiter) && NoLineWithin(part.data, delimiter) && IsScan(f, body, delimiter, limits)
    requires |text| <= limits.headerBytes && |part.data| <= limits.partBytes
    requires body == Layout(pre, text, part.data, delimiter + Dashes(closing) + CRLF, tail)
    requires f.headersEnd(|pre|) == Some(|pre| + |text|) && f.headers(text) == Ok(part.headers)
    ensures var r := PartAt(f, body, |pre|, limits);
            r.Ok? && r.value.0.part == part && r.value.1 == Delimiter(closing, |body| - |tail|)
  {
    var line := delimiter + Dashes(closing) + CRLF;
    LayoutHeaders(pre, text, part.data, line, tail);
    LayoutData(pre, text, part.data, line, tail);
    LayoutFramed(pre, text, part.data, line, tail);
    LayoutLine(pre, text, part.data, line, tail);
    PrintedNext(f, body, |pre| + |text| + 4, part.data, delimiter, closing, limits);
    PartIs(f, body, |pre|, limits, text, part.headers, part.data, Delimiter(closing, |body| - |tail|));
  }

  ghost function Tail(parts: seq<Part>, delimiter: string): string {
    if |parts| <= 1 then "" else PrintParts(parts[1..], delimiter)
  }

  /** Printed parts: the first one laid out, then the rest. */
  lemma PrintedStep(pre: string, parts: seq<Part>, delimiter: string)
    requires parts != []
    ensures var body, last, tail := pre + PrintParts(parts, delimiter), |parts| == 1, Tail(parts, delimiter);
            && body == Laid(pre, parts[0], delimiter, last, tail)
            && body == Laid(pre, parts[0], delimiter, last, "") + tail
  {
    LayoutMoved(pre, PrintHeaders(parts[0].headers), parts[0].data,
                delimiter + Dashes(|parts| == 1) + CRLF, Tail(parts, delimiter));
  }

  /** The first of the printed parts is read back, and the rest follows. */
  lemma FirstUndoes(f: Scan, body: string, pre: string, parts: seq<Part>, delimiter: string, limits: PartLimits)
    returns (next: string)
    requires parts != [] && GoodDelimiter(delimiter) && GoodPart(parts[0], delimiter, limits)
    requires IsScan(f, body, delimiter, limits) && body == pre + PrintParts(parts, delimiter)
    ensures var r := PartAt(f, body, |pre|, limits);
            r.Ok? && r.value.0.part == parts[0] && r.value.1 == Delimiter(|parts| == 1, |next|)
    ensures |parts| > 1 ==> body == next + PrintParts(parts[1..], delimiter)
  {
    var last := |parts| == 1;
    next := Laid(pre, parts[0], delimiter, last, "");
    PrintedStep(pre, parts, delimiter);
    PartUndoes(f, pre, parts[0], delimiter, last, Tail(parts, delimiter), limits);
  }

  ghost predicate AllGood(parts: seq<Part>, delimiter: string, limits: PartLimits) {
    forall i :: 0 <= i < |parts| ==> GoodPart(parts[i], delimiter, limits)
  }

  lemma GoodRest(parts: seq<Part>, delimiter: string, limits: PartLimits)
    requires parts != [] && AllGood(parts, delimiter, limits)
    ensures GoodPart(parts[0], delimiter, limits) && AllGood(parts[1..], delimiter, limits)
  {
  }

  lemma {:induction false} PartsUndo(
    f: Scan, body: string, pre: string, parts: seq<Part>, delimiter: string, limits: PartLimits, count: nat)
    requires parts != [] && GoodDelimiter(delimiter) && count + |parts| <= limits.parts
    requires AllGood(parts, delimiter, limits)
    requires IsScan(f, body, delimiter, limits) && body == pre + PrintParts(parts, delimiter)
    ensures var r := PartsFrom(f, body, |pre|, limits, count); r.Ok? && PartsOf(r.value) == parts
    decreases |parts|
  {
    GoodRest(parts, delimiter, limits);
    var next := FirstUndoes(f, body, pre, parts, delimiter, limits);
    if |parts| > 1 {
      PartsUndo(f, body, next, parts[1..], delimiter, limits, count + 1);
    }
    FirstThenRest(f, body, |pre|, limits, count, parts);
  }

  lemma FirstThenRest(f: Scan, body: string, pos: nat, limits: PartLimits, count: nat, parts: seq<Part>)
    requires count < limits.parts && parts != []
    requires var r := PartAt(f, body, pos, limits);
             r.Ok? && r.value.0.part == parts[0] && r.value.1.closing == (|parts| == 1)
    requires |parts| > 1 ==>
               var r := PartsFrom(f, body, PartAt(f, body, pos, limits).value.1.next, limits, count + 1);
               r.Ok? && PartsOf(r.value) == parts[1..]
    ensures var r := PartsFrom(f, body, pos, limits, count); r.Ok? && PartsOf(r.value) == parts
  {
    assert parts == [parts[0]] + parts[1..];
  }

  lemma ValidIsGood(boundary: string)
    requires ValidBoundary(boundary)
    ensures GoodDelimiter("--" + boundary)
  {
  }

  lemma SpannedIs(body: string, boundary: string, limits: PartLimits, d: Delimiter)
    requires LineAt(body, 0, "--" + boundary) == Some(d)
    ensures Spanned(body, boundary, limits)
         == if d.closing then Ok([])
            else PartsFrom(ScanOf(body, "--" + boundary, limits), body, d.next, limits, 0)
  {
    OpeningIs(body, "--" + boundary, 0, d);
  }

  /** A body that starts with a delimiter line opens with it. */
  lemma OpensWith(body: string, delimiter: string, closing: bool, tail: string)
    requires body == delimiter + Dashes(closing) + CRLF + tail
    ensures LineAt(body, 0, delimiter) == Some(Delimiter(closing, |body| - |tail|))
  {
    var line := delimiter + Dashes(closing) + CRLF;
    assert body[0..0 + |line|] == line;
    PrintedLine(body, 0, delimiter, closing);
  }

  /** Parsing undoes printing. */
  lemma ParseUndoesPrint(parts: seq<Part>, boundary: string, limits: PartLimits)
    requires ValidBoundary(boundary) && |parts| <= limits.parts
    requires AllGood(parts, "--" + boundary, limits)
    ensures Parse(Print(parts, boundary), boundary, limits) == Ok(parts)
  {
    var delimiter, body := "--" + boundary, Print(parts, boundary);
    ValidIsGood(boundary);
    var tail := if parts == [] then "" else PrintParts(parts, delimiter);
    var line := delimiter + Dashes(parts == []) + CRLF;
    assert body == line + tail;
    OpensWith(body, delimiter, parts == [], tail);
    SpannedIs(body, boundary, limits, Delimiter(parts == [], |line|));
    if parts == [] {
      assert PartsOf([]) == [];
    } else {
      PartsUndo(ScanOf(body, delimiter, limits), body, line, parts, delimiter, limits, 0);
    }
  }

  // --------------------------------------------------- and only good data does

  /** Data with a delimiter line in it is cut short there. */
  lemma CutShort(f: Scan, pre: string, part: Part, delimiter: string, closing: bool, tail: string, limits: PartLimits)
    requires delimiter != "" && PrintablePart(part, limits) && !NoLineWithin(part.data, delimiter)
    requires IsScan(f, Laid(pre, part, delimiter, closing, tail), delimiter, limits)
    ensures var r := PartAt(f, Laid(pre, part, delimiter, closing, tail), |pre|, limits);
            r.Ok? ==> |r.value.0.part.data| < |part.data|
  {
    var text, line := PrintHeaders(part.headers), delimiter + Dashes(closing) + CRLF;
    PrintedHeadersEnd(f, pre, part, delimiter, closing, tail, limits);
    CutText(f, Layout(pre, text, part.data, line, tail), pre, text, part.data, delimiter, line, tail, limits);
  }

  lemma CutText(
    f: Scan, body: string, pre: string, text: string, data: string, delimiter: string, line: string, tail: string,
    limits: PartLimits)
    requires delimiter != "" && IsScan(f, body, delimiter, limits) && !NoLineWithin(data, delimiter)
    requires body == Layout(pre, text, data, line, tail) && f.headersEnd(|pre|) == Some(|pre| + |text|)
    ensures var r := PartAt(f, body, |pre|, limits); r.Ok? ==> |r.value.0.part.data| < |data|
  {
    LayoutFramed(pre, text, data, line, tail);
    EarlyNext(f, body, |pre| + |text| + 4, data, delimiter, limits);
    ShortPart(f, body, |pre|, limits, |pre| + |text|, data);
  }

  lemma EarlyNext(f: Scan, body: string, start: nat, data: string, delimiter: string, limits: PartLimits)
    requires delimiter != "" && IsScan(f, body, delimiter, limits) && !NoLineWithin(data, delimiter)
    requires start >= 2 && At(body, start - 2, CRLF + data + CRLF)
    ensures f.next(start).Some? && f.next(start).value.0 < start + |data|
  {
    var q: nat :| Boundary(CRLF + data + CRLF, q, delimiter);
    LineComesOut(body, start, data, delimiter, q);
    NextBy(f, body, start, delimiter, limits, start - 2 + q);
  }

  lemma NextBy(f: Scan, body: string, k: nat, delimiter: string, limits: PartLimits, q: nat)
    requires IsScan(f, body, delimiter, limits) && k <= q && Boundary(body, q, delimiter)
    ensures f.next(k).Some? && f.next(k).value.0 <= q
  {
    SomeNext(body, k, delimiter, q);
  }

  lemma ShortPart(f: Scan, body: string, pos: nat, limits: PartLimits, end: nat, data: string)
    requires f.headersEnd(pos) == Some(end) && f.next(end + 4).Some? && f.next(end + 4).value.0 < end + 4 + |data|
    ensures var r := PartAt(f, body, pos, limits); r.Ok? ==> |r.value.0.part.data| < |data|
  {
  }

  ghost predicate AllPrintable(parts: seq<Part>, limits: PartLimits) {
    forall i :: 0 <= i < |parts| ==> PrintablePart(parts[i], limits)
  }

  lemma {:induction false} PartsDiffer(
    f: Scan, body: string, pre: string, parts: seq<Part>, delimiter: string, limits: PartLimits, count: nat)
    requires parts != [] && GoodDelimiter(delimiter) && count + |parts| <= limits.parts
    requires AllPrintable(parts, limits) && !AllGood(parts, delimiter, limits)
    requires IsScan(f, body, delimiter, limits) && body == pre + PrintParts(parts, delimiter)
    ensures var r := PartsFrom(f, body, |pre|, limits, count); r.Ok? ==> PartsOf(r.value) != parts
    decreases |parts|
  {
    if GoodPart(parts[0], delimiter, limits) {
      var next := FirstUndoes(f, body, pre, parts, delimiter, limits);
      RestIsBad(parts, delimiter, limits);
      PartsDiffer(f, body, next, parts[1..], delimiter, limits, count + 1);
    } else {
      PrintedStep(pre, parts, delimiter);
      CutShort(f, pre, parts[0], delimiter, |parts| == 1, Tail(parts, delimiter), limits);
    }
    FirstOrRestDiffers(f, body, |pre|, limits, count, parts);
  }

  lemma RestIsBad(parts: seq<Part>, delimiter: string, limits: PartLimits)
    requires parts != [] && AllPrintable(parts, limits) && !AllGood(parts, delimiter, limits)
    requires GoodPart(parts[0], delimiter, limits)
    ensures |parts| > 1 && AllPrintable(parts[1..], limits) && !AllGood(parts[1..], delimiter, limits)
  {
    var i :| 0 <= i < |parts| && !GoodPart(parts[i], delimiter, limits);
    assert parts[1..][i - 1] == parts[i];
  }

  lemma FirstOrRestDiffers(f: Scan, body: string, pos: nat, limits: PartLimits, count: nat, parts: seq<Part>)
    requires count < limits.parts && parts != []
    requires var r := PartAt(f, body, pos, limits);
             r.Ok? ==>
               || r.value.0.part != parts[0]
               || (|parts| > 1 && !r.value.1.closing
                   && var rest := PartsFrom(f, body, r.value.1.next, limits, count + 1);
                      rest.Ok? ==> PartsOf(rest.value) != parts[1..])
    ensures var r := PartsFrom(f, body, pos, limits, count); r.Ok? ==> PartsOf(r.value) != parts
  {
    var r := PartsFrom(f, body, pos, limits, count);
    if r.Ok? && PartsOf(r.value) == parts {
      assert r.value[0].part == parts[0];
      PartsOfRest(r.value);
    }
  }

  lemma PartsOfRest(spans: seq<Parsed>)
    requires spans != []
    ensures PartsOf(spans)[1..] == PartsOf(spans[1..])
  {
  }

  /** For parts that headers and limits can carry, parsing undoes printing if
      and only if no data holds a delimiter line. */
  lemma ParseUndoesPrintIff(parts: seq<Part>, boundary: string, limits: PartLimits)
    requires ValidBoundary(boundary) && |parts| <= limits.parts && AllPrintable(parts, limits)
    ensures Parse(Print(parts, boundary), boundary, limits) == Ok(parts)
       <==> forall i :: 0 <= i < |parts| ==> NoLineWithin(parts[i].data, "--" + boundary)
  {
    var delimiter, body := "--" + boundary, Print(parts, boundary);
    if AllGood(parts, delimiter, limits) {
      ParseUndoesPrint(parts, boundary, limits);
    } else {
      ValidIsGood(boundary);
      var tail, line := PrintParts(parts, delimiter), delimiter + Dashes(false) + CRLF;
      OpensWith(body, delimiter, false, tail);
      SpannedIs(body, boundary, limits, Delimiter(false, |line|));
      PartsDiffer(ScanOf(body, delimiter, limits), body, line, parts, delimiter, limits, 0);
    }
  }

  // ------------------------------------------------------------ the boundary

  /** `multipart_boundary`. */
  function BoundaryOf(contentType: string): Option<string> {
    match Parameterized(contentType)
    case None => None
    case Some(pair) =>
      var boundary := Unique(pair.1, "boundary");
      if !EqualIgnoringCase(pair.0, "multipart/form-data") || boundary.None? || !ValidBoundary(boundary.value) then None
      else boundary
  }

  lemma OnlyParameter(name: string, value: string)
    ensures Unique([(name, value)], name) == Some(value)
  {
    var parameters := [(name, value)];
    assert parameters[1..] == [];
    assert Matching(parameters, name) == [value];
  }

  /** Every boundary that is accepted at all is recovered from its quoted form. */
  lemma BoundaryUndoes(boundary: string)
    requires ValidBoundary(boundary)
    ensures BoundaryOf("multipart/form-data" + PrintParameter("boundary", boundary)) == Some(boundary)
  {
    var text := PrintParameter("boundary", boundary);
    AsciiPrintable(boundary);
    assert text + "" == text;
    ParametersUndo("boundary", boundary, "");
    assert [("boundary", boundary)] + [] == [("boundary", boundary)];
    ParameterizedUndo("multipart/form-data", text);
    OnlyParameter("boundary", boundary);
  }
}
