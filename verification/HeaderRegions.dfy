/**
 Delimiter lines in the header region of a part: a line that also reads as a
 header is swallowed there, and the boundaries for which no line does
 (src/app/form.rs).
 */
module HeaderRegions {
  import opened Basics
  import opened Text
  import opened Delimiters
  import opened PartHeaders
  import opened Multipart

  /** No delimiter line of this boundary reads as a header: the boundary has no
      colon, or a byte before its first colon cannot stand in a name. */
  predicate HeaderSafe(boundary: string) {
    var n := Before(boundary, ':');
    n == |boundary| || !AllTokens(boundary[..n])
  }

  ghost predicate NeverHeader(delimiter: string) {
    forall closing, w {:trigger HeaderLine(delimiter + (Dashes(closing) + w))} ::
      Blanks(w) ==> HeaderLine(delimiter + (Dashes(closing) + w)).Err?
  }

  /** Up to the closing line, the delimiter lines after `from` are those that
      end the data of a part. */
  ghost predicate OnlyCuts(body: string, delimiter: string, from: nat, spans: seq<Parsed>) {
    forall q :: from <= q && Boundary(body, q, delimiter) && spans != [] && q <= spans[|spans| - 1].end + 2 ==>
      exists i :: 0 <= i < |spans| && q == spans[i].end + 2
  }

  ghost predicate EveryLineCuts(body: string, boundary: string, limits: PartLimits) {
    var delimiter := "--" + boundary;
    Parse(body, boundary, limits).Ok? ==>
      && OpeningLine(body, delimiter).Some?
      && OnlyCuts(body, delimiter, OpeningLine(body, delimiter).value.next, Spanned(body, boundary, limits).value)
  }

  // ----------------------------------------------------- lines of header text

  lemma {:induction false} FirstPiece(raw: string, b: nat)
    requires b <= |raw| && '\r' !in raw[..b] && (b == |raw| || At(raw, b, CRLF))
    ensures SplitCrlf(raw)[0] == raw[..b]
  {
    if raw != "" {
      if At(raw, 0, CRLF) {
        AtFirst(raw, 0, CRLF);
        assert b == 0;
      } else {
        assert b > 0;
        AtShift(raw, 1, b - 1, CRLF);
        assert raw[1..][..b - 1] == raw[..b][1..];
        FirstPiece(raw[1..], b - 1);
        assert raw[..b] == [raw[0]] + raw[..b][1..];
      }
    }
  }

  /** Splitting goes on behind a line end as if the text started there. */
  lemma {:induction false} SplitBehind(x: string, y: string)
    ensures SplitCrlf(x + CRLF + y) == SplitCrlf(x) + SplitCrlf(y)
  {
    var whole := x + CRLF + y;
    if x == "" {
      assert whole[2..] == y && whole[0..2] == CRLF;
    } else if At(x, 0, CRLF) {
      assert whole[0..2] == x[0..2];
      assert whole[2..] == x[2..] + CRLF + y;
      SplitBehind(x[2..], y);
      assert [""] + SplitCrlf(x[2..]) + SplitCrlf(y) == [""] + (SplitCrlf(x[2..]) + SplitCrlf(y));
    } else {
      NoEndAcross(x, y);
      assert whole[1..] == x[1..] + CRLF + y;
      SplitBehind(x[1..], y);
      FirstGrows(x[0], SplitCrlf(x[1..]), SplitCrlf(y));
    }
  }

  lemma NoEndAcross(x: string, y: string)
    requires x != "" && !At(x, 0, CRLF)
    ensures !At(x + CRLF + y, 0, CRLF)
  {
    var whole := x + CRLF + y;
    if |x| >= 2 {
      assert whole[0..2] == x[0..2];
    } else {
      assert whole[0..2][1] == '\r';
    }
  }

  lemma FirstGrows(c: char, xs: seq<string>, ys: seq<string>)
    requires xs != []
    ensures [[c] + (xs + ys)[0]] + (xs + ys)[1..] == ([[c] + xs[0]] + xs[1..]) + ys
  {
  }

  /** Text from a line end to the next one, or to the end, is one of the lines
      that splitting gives. */
  lemma PieceBehind(x: string, y: string, n: nat)
    requires n <= |y| && '\r' !in y[..n] && (n == |y| || At(y, n, CRLF))
    ensures y[..n] in SplitCrlf(x + CRLF + y)
  {
    SplitBehind(x, y);
    FirstPiece(y, n);
    assert (SplitCrlf(x) + SplitCrlf(y))[|SplitCrlf(x)|] == y[..n];
  }

  lemma {:induction false} NotedIsHeader(seen: Seen, lines: seq<string>, count: nat, max: nat, line: string)
    requires NoteAll(seen, lines, count, max).Ok? && line in lines
    ensures HeaderLine(line).Ok?
    decreases |lines|
  {
    if line != lines[0] {
      NotedIsHeader(Note(seen, lines[0]).value, lines[1..], count + 1, max, line);
    }
  }

  lemma {:induction false} NoColon(w: string, closing: bool)
    requires Blanks(w)
    ensures ':' !in Dashes(closing) + w
  {
  }

  /** A delimiter line of a safe boundary is not a header line. */
  lemma SafeIsNoHeader(boundary: string, closing: bool, w: string)
    requires HeaderSafe(boundary) && Blanks(w)
    ensures HeaderLine("--" + boundary + (Dashes(closing) + w)).Err?
  {
    var tail, line := Dashes(closing) + w, "--" + boundary + (Dashes(closing) + w);
    var n := Before(boundary, ':');
    NoColon(w, closing);
    if n == |boundary| {
      assert boundary[..n] == boundary;
      assert line + "" == line;
      BeforeIs(line, ':', "");
    } else {
      var lead := "--" + boundary[..n];
      assert line == lead + (boundary[n..] + tail);
      BeforeIs(lead, ':', boundary[n..] + tail);
      assert line[..|lead|] == lead;
      var i :| 0 <= i < n && !IsTokenByte(boundary[..n][i]);
      assert lead[2 + i] == boundary[..n][i];
    }
  }

  lemma SafeIsNeverHeader(boundary: string)
    requires HeaderSafe(boundary)
    ensures NeverHeader("--" + boundary)
  {
    forall closing, w | Blanks(w) ensures HeaderLine("--" + boundary + (Dashes(closing) + w)).Err? {
      SafeIsNoHeader(boundary, closing, w);
    }
  }

  // ------------------------------------------- accepted headers hold no line

  lemma SliceOfSlice(s: string, pos: nat, end: nat, a: nat, b: nat)
    requires pos <= a <= b <= end <= |s|
    ensures s[pos..end][a - pos..b - pos] == s[a..b]
  {
    forall i | 0 <= i < b - a ensures s[pos..end][a - pos..b - pos][i] == s[a..b][i] {
    }
  }

  /** Two line ends do not overlap. */
  lemma EndsApart(body: string, j: nat, k: nat)
    requires At(body, j, CRLF) && At(body, k, CRLF) && j < k
    ensures j + 2 <= k
  {
    AtFirst(body, k, CRLF);
    assert body[j + 1] == body[j..j + 2][1];
  }

  /** A text from one line end to the next is a line of the text around it. */
  lemma LineIsPiece(body: string, pos: nat, end: nat, q: nat, stop: nat)
    requires pos <= q <= stop <= end && end + 2 <= |body|
    requires q == pos || (pos + 2 <= q && At(body, q - 2, CRLF))
    requires '\r' !in body[q..stop] && At(body, stop, CRLF) && At(body, end, CRLF)
    ensures body[q..stop] in SplitCrlf(body[pos..end])
  {
    var y, n := body[q..end], stop - q;
    SliceOfSlice(body, q, end, q, stop);
    if stop < end {
      EndsApart(body, stop, end);
      SliceOfSlice(body, q, end, stop, stop + 2);
    }
    if q == pos {
      FirstPiece(y, n);
    } else {
      var x := body[pos..q - 2];
      assert body[pos..end] == x + body[q - 2..q] + y;
      PieceBehind(x, y, n);
    }
  }

  /** No delimiter line starts where the headers end. */
  lemma NotAtTheEnd(body: string, end: nat, q: nat, delimiter: string)
    requires At(body, end, HEADERS_END) && GoodDelimiter(delimiter) && end <= q < end + 4
    ensures !Boundary(body, q, delimiter)
  {
    AtFirst(body, q, delimiter);
    assert body[q] == body[end..end + 4][q - end];
  }

  lemma SplitEnd(body: string, end: nat)
    requires At(body, end, HEADERS_END)
    ensures end + 4 <= |body| && At(body, end, CRLF) && body[end] == '\r' && body[end + 1] == '\n'
  {
    assert body[end..end + 2] == body[end..end + 4][..2] == CRLF;
    assert body[end] == body[end..end + 2][0] && body[end + 1] == body[end..end + 2][1];
  }

  /** The text of a delimiter line and its line end. */
  lemma LineText(body: string, q: nat, delimiter: string, d: Delimiter, w: string)
    requires GoodDelimiter(delimiter) && Spells(body, q, delimiter, d, w, CRLF)
    ensures q + 2 <= d.next <= |body|
    ensures body[q..d.next - 2] == delimiter + (Dashes(d.closing) + w) && '\r' !in body[q..d.next - 2]
    ensures At(body, d.next - 2, CRLF)
  {
    var lead := delimiter + (Dashes(d.closing) + w);
    assert body[q..d.next] == lead + CRLF;
    SliceParts(body, q, d.next, lead, CRLF);
  }

  /** Each line of the text reads as a header. */
  ghost predicate OnlyHeaders(raw: string) {
    forall line :: line in SplitCrlf(raw) ==> HeaderLine(line).Ok?
  }

  lemma AcceptedOnlyHeaders(raw: string, max: nat)
    requires HeadersOf(raw, max).Ok?
    ensures OnlyHeaders(raw)
  {
    forall line | line in SplitCrlf(raw) ensures HeaderLine(line).Ok? {
      NotedIsHeader(Seen(None, None), SplitCrlf(raw), 0, max, line);
    }
  }

  /** A delimiter line in the header region is a line of the header text. */
  lemma LineInHeaders(body: string, delimiter: string, pos: nat, end: nat, q: nat, d: Delimiter, w: string)
    requires GoodDelimiter(delimiter) && pos >= 2 && At(body, pos - 2, CRLF) && At(body, end, CRLF)
    requires pos <= q < end && At(body, q - 2, CRLF)
    requires Spells(body, q, delimiter, d, w, CRLF) && d.next <= end + 2
    ensures delimiter + (Dashes(d.closing) + w) in SplitCrlf(body[pos..end])
  {
    LineText(body, q, delimiter, d, w);
    if q > pos {
      EndsApart(body, pos - 2, q - 2);
    }
    LineIsPiece(body, pos, end, q, d.next - 2);
  }

  lemma NotAmongHeaders(body: string, delimiter: string, pos: nat, end: nat, q: nat)
    requires GoodDelimiter(delimiter) && NeverHeader(delimiter)
    requires pos >= 2 && At(body, pos - 2, CRLF) && pos <= q < end && At(body, end, HEADERS_END)
    requires OnlyHeaders(body[pos..end])
    ensures !Boundary(body, q, delimiter)
  {
    if Boundary(body, q, delimiter) {
      var d := LineAt(body, q, delimiter).value;
      LineIsGrammatical(body, q, delimiter);
      SplitEnd(body, end);
      var w := LineEndsBy(body, q, delimiter, d, end);
      LineInHeaders(body, delimiter, pos, end, q, d, w);
      assert false;
    }
  }

  /** Accepted header text holds no delimiter line that never reads as a header. */
  lemma NoLineInHeaders(body: string, delimiter: string, pos: nat, end: nat)
    requires GoodDelimiter(delimiter) && NeverHeader(delimiter)
    requires pos >= 2 && At(body, pos - 2, CRLF) && pos <= end && At(body, end, HEADERS_END)
    requires OnlyHeaders(body[pos..end])
    ensures NoBoundary(body, pos, end + 4, delimiter)
  {
    forall q | pos <= q < end + 4 ensures !Boundary(body, q, delimiter) {
      if q >= end {
        NotAtTheEnd(body, end, q, delimiter);
      } else {
        NotAmongHeaders(body, delimiter, pos, end, q);
      }
    }
  }

  // ----------------------------------------- safe boundaries cut everywhere

  /** Inside a delimiter line there is no other one. */
  lemma NoLineInLine(body: string, delimiter: string, p: nat, d: Delimiter)
    requires GoodDelimiter(delimiter) && Boundary(body, p, delimiter)
    requires LineAt(body, p, delimiter) == Some(d) && !d.closing
    ensures NoBoundary(body, p + 1, d.next, delimiter) && d.next >= 2 && At(body, d.next - 2, CRLF)
  {
    LineIsGrammatical(body, p, delimiter);
    var w, end :| Spells(body, p, delimiter, d, w, end);
    LineText(body, p, delimiter, d, w);
    forall q | p + 1 <= q < d.next ensures !Boundary(body, q, delimiter) {
      AtFirst(body, q - 2, CRLF);
      if q == p + 1 {
        assert body[q - 2] == body[p - 2..p][1];
      } else {
        assert body[q - 2] == body[p..d.next - 2][q - 2 - p];
      }
    }
  }

  lemma ScannedHeaders(f: Scan, body: string, delimiter: string, limits: PartLimits, raw: string)
    requires IsScan(f, body, delimiter, limits) && f.headers(raw).Ok?
    ensures OnlyHeaders(raw)
  {
    assert f.headers(raw) == HeadersOf(raw, limits.headers);
    AcceptedOnlyHeaders(raw, limits.headers);
  }

  lemma ScannedEnd(f: Scan, body: string, delimiter: string, limits: PartLimits, pos: nat)
    requires IsScan(f, body, delimiter, limits) && f.headersEnd(pos).Some?
    ensures var end := f.headersEnd(pos).value; pos <= end <= |body| && At(body, end, HEADERS_END)
  {
    assert f.headersEnd(pos) == FirstAt(body, pos, HEADERS_END);
  }

  /** What the searches found for an accepted part. */
  lemma PartFound(f: Scan, body: string, limits: PartLimits, pos: nat, part: Parsed, d: Delimiter)
    requires PartAt(f, body, pos, limits) == Ok((part, d))
    ensures f.headersEnd(pos).Some?
    ensures var end := f.headersEnd(pos).value;
            f.next(end + 4) == Some((part.end + 2, d)) && f.headers(Cut(body, pos, end)).Ok?
  {
  }

  /** Up to the delimiter line after an accepted part there is no other one. */
  lemma NoLineInPart(
    f: Scan, body: string, delimiter: string, limits: PartLimits, pos: nat, part: Parsed, d: Delimiter)
    requires IsScan(f, body, delimiter, limits) && GoodDelimiter(delimiter) && NeverHeader(delimiter)
    requires pos >= 2 && At(body, pos - 2, CRLF) && PartAt(f, body, pos, limits) == Ok((part, d))
    ensures NoBoundary(body, pos, part.end + 2, delimiter) && Boundary(body, part.end + 2, delimiter)
    ensures LineAt(body, part.end + 2, delimiter) == Some(d)
  {
    PartFound(f, body, limits, pos, part, d);
    var end := f.headersEnd(pos).value;
    NoLineScanned(f, body, delimiter, limits, pos, end);
    NextFound(f, body, delimiter, limits, end + 4, part.end + 2, d);
    NoBoundaryJoins(body, delimiter, pos, end + 4, part.end + 2);
  }

  lemma NextFound(f: Scan, body: string, delimiter: string, limits: PartLimits, k: nat, p: nat, d: Delimiter)
    requires IsScan(f, body, delimiter, limits) && f.next(k) == Some((p, d))
    ensures Boundary(body, p, delimiter) && LineAt(body, p, delimiter) == Some(d) && NoBoundary(body, k, p, delimiter)
  {
    NextIsBoundary(f, body, delimiter, limits, k);
  }

  lemma NoBoundaryJoins(body: string, delimiter: string, from: nat, mid: nat, to: nat)
    requires NoBoundary(body, from, mid, delimiter) && NoBoundary(body, mid, to, delimiter)
    ensures NoBoundary(body, from, to, delimiter)
  {
  }

  lemma NoLineScanned(f: Scan, body: string, delimiter: string, limits: PartLimits, pos: nat, end: nat)
    requires IsScan(f, body, delimiter, limits) && GoodDelimiter(delimiter) && NeverHeader(delimiter)
    requires pos >= 2 && At(body, pos - 2, CRLF)
    requires f.headersEnd(pos) == Some(end) && f.headers(Cut(body, pos, end)).Ok?
    ensures NoBoundary(body, pos, end + 4, delimiter)
  {
    ScannedEnd(f, body, delimiter, limits, pos);
    ScannedHeaders(f, body, delimiter, limits, body[pos..end]);
    NoLineInHeaders(body, delimiter, pos, end);
  }

  /** From `pos` to where the next part starts, only the line after this one. */
  lemma PartCuts(
    f: Scan, body: string, delimiter: string, limits: PartLimits, pos: nat, part: Parsed, d: Delimiter)
    returns (next: nat)
    requires IsScan(f, body, delimiter, limits) && GoodDelimiter(delimiter) && NeverHeader(delimiter)
    requires pos >= 2 && At(body, pos - 2, CRLF) && PartAt(f, body, pos, limits) == Ok((part, d))
    ensures NoBoundary(body, pos, part.end + 2, delimiter) && NoBoundary(body, part.end + 3, next, delimiter)
    ensures !d.closing ==> next == d.next && next >= 2 && At(body, next - 2, CRLF)
  {
    NoLineInPart(f, body, delimiter, limits, pos, part, d);
    if d.closing {
      next := part.end + 3;
    } else {
      NoLineInLine(body, delimiter, part.end + 2, d);
      next := d.next;
    }
  }

  lemma CutsOn(body: string, delimiter: string, pos: nat, part: Parsed, next: nat, rest: seq<Parsed>)
    requires NoBoundary(body, pos, part.end + 2, delimiter) && NoBoundary(body, part.end + 3, next, delimiter)
    requires OnlyCuts(body, delimiter, next, rest)
    ensures OnlyCuts(body, delimiter, pos, [part] + rest)
  {
    var spans := [part] + rest;
    forall q | pos <= q && Boundary(body, q, delimiter) && q <= spans[|spans| - 1].end + 2
      ensures exists i :: 0 <= i < |spans| && q == spans[i].end + 2
    {
      if q == part.end + 2 {
        assert q == spans[0].end + 2;
      } else if rest != [] {
        assert q >= next;
        var i :| 0 <= i < |rest| && q == rest[i].end + 2;
        assert spans[i + 1] == rest[i];
      }
    }
  }

  lemma {:induction false} PartsCut(
    f: Scan, body: string, delimiter: string, limits: PartLimits, pos: nat, count: nat, spans: seq<Parsed>)
    requires IsScan(f, body, delimiter, limits) && GoodDelimiter(delimiter) && NeverHeader(delimiter)
    requires pos >= 2 && At(body, pos - 2, CRLF) && PartsFrom(f, body, pos, limits, count) == Ok(spans)
    ensures OnlyCuts(body, delimiter, pos, spans)
    decreases limits.parts - count
  {
    var part, d, rest := PartsStep(f, body, pos, limits, count);
    var next := PartCuts(f, body, delimiter, limits, pos, part, d);
    if !d.closing {
      PartsCut(f, body, delimiter, limits, next, count + 1, rest);
    }
    CutsOn(body, delimiter, pos, part, next, rest);
  }

  /** Of a safe boundary, every delimiter line of an accepted body cuts it. */
  lemma SafeBoundariesCut(body: string, boundary: string, limits: PartLimits)
    requires ValidBoundary(boundary) && HeaderSafe(boundary)
    ensures EveryLineCuts(body, boundary, limits)
  {
    ValidIsGood(boundary);
    SafeIsNeverHeader(boundary);
    if Parse(body, boundary, limits).Ok? {
      SpannedCuts(body, boundary, "--" + boundary, limits);
    }
  }

  lemma SpannedCuts(body: string, boundary: string, delimiter: string, limits: PartLimits)
    requires delimiter == "--" + boundary && GoodDelimiter(delimiter) && NeverHeader(delimiter)
    requires Spanned(body, boundary, limits).Ok?
    ensures OpeningLine(body, delimiter).Some?
    ensures OnlyCuts(body, delimiter, OpeningLine(body, delimiter).value.next, Spanned(body, boundary, limits).value)
  {
    var first := OpeningLine(body, delimiter).value;
    if !first.closing {
      OpeningEnds(body, delimiter);
      PartsCut(ScanOf(body, delimiter, limits), body, delimiter, limits, first.next, 0,
               Spanned(body, boundary, limits).value);
    }
  }

  lemma OpeningEnds(body: string, delimiter: string)
    requires OpeningLine(body, delimiter).Some? && !OpeningLine(body, delimiter).value.closing
    ensures var d := OpeningLine(body, delimiter).value; d.next >= 2 && At(body, d.next - 2, CRLF)
  {
    var d := OpeningLine(body, delimiter).value;
    var p :| IsOpening(body, delimiter, p, d);
    var first, start, stop := LineRead(body, p, delimiter);
    assert stop == d.next - 2;
  }

  // ------------------------------------------- unsafe boundaries are swallowed

  /** Header text with a delimiter line as its last line. */
  function SwallowingText(h: Headers, delimiter: string): string {
    PrintHeaders(h) + CRLF + delimiter
  }

  /** One part, with a delimiter line behind its header line and no data. */
  function SwallowingBody(line: string, delimiter: string): string {
    delimiter + CRLF + (line + CRLF + delimiter) + HEADERS_END + CRLF + delimiter + "--" + CRLF
  }

  /** Where the delimiter line behind the header line stands. */
  function SwallowedAt(line: string, delimiter: string): nat {
    |delimiter| + |line| + 4
  }

  ghost predicate Plain(s: string) {
    forall i :: 0 <= i < |s| ==> 0x20 <= s[i] as int < 0x7F
  }

  lemma {:induction false} TrimStartPlain(s: string)
    requires Plain(s)
    ensures Plain(TrimStart(s))
    decreases |s|
  {
    if SpaceAhead(s) > 0 {
      TrimStartPlain(s[SpaceAhead(s)..]);
    }
  }

  lemma {:induction false} TrimEndPlain(s: string)
    requires Plain(s)
    ensures Plain(TrimEnd(s))
    decreases |s|
  {
    if SpaceBehind(s) > 0 {
      TrimEndPlain(s[..|s| - SpaceBehind(s)]);
    }
  }

  /** The delimiter of an unsafe boundary reads as a header line. */
  lemma UnsafeIsHeader(boundary: string)
    requires ValidBoundary(boundary) && !HeaderSafe(boundary)
    ensures var n := Before(boundary, ':');
            HeaderLine("--" + boundary) == Ok(("--" + boundary[..n], Trim(boundary[n + 1..])))
  {
    var n := Before(boundary, ':');
    var lead := "--" + boundary[..n];
    assert "--" + boundary == lead + [':'] + boundary[n + 1..];
    forall i | 0 <= i < |lead| ensures IsTokenByte(lead[i]) && lead[i] != ':' {
      assert i >= 2 ==> lead[i] == boundary[..n][i - 2];
    }
    ValueIsPrintable(boundary, n);
    HeaderLineIs(lead, boundary[n + 1..]);
  }

  lemma ValueIsPrintable(boundary: string, n: nat)
    requires ValidBoundary(boundary) && n < |boundary|
    ensures Printable(Trim(boundary[n + 1..]))
  {
    var value := boundary[n + 1..];
    TrimStartPlain(value);
    TrimEndPlain(TrimStart(value));
    AsciiPrintable(Trim(value));
  }

  /** It is neither of the headers that are looked at. */
  lemma UnsafeIsNoted(boundary: string, seen: Seen)
    requires ValidBoundary(boundary) && !HeaderSafe(boundary)
    ensures Note(seen, "--" + boundary) == Ok(seen)
  {
    UnsafeIsHeader(boundary);
    var name := "--" + boundary[..Before(boundary, ':')];
    assert Lower(name)[0] == '-';
    assert Lower("content-disposition")[0] == 'c' && Lower("content-type")[0] == 'c';
  }

  lemma TwoNoted(first: string, second: string, mid: Seen, max: nat)
    requires max >= 2 && Note(Seen(None, None), first) == Ok(mid) && Note(mid, second) == Ok(mid)
    ensures NoteAll(Seen(None, None), [first, second], 0, max) == Ok(mid)
  {
    var lines := [first, second];
    assert lines[1..] == [second] && [second][1..] == [];
    assert NoteAll(mid, [second], 1, max) == NoteAll(mid, [], 2, max);
  }

  lemma TwoLinesSplit(first: string, second: string)
    requires CleanLine(first) && CleanLine(second)
    ensures SplitCrlf(first + CRLF + second) == [first, second] && ValidUtf8(first + CRLF + second)
  {
    SplitLine(first, second);
    SplitWhole(second);
    AsciiIsUtf8(CRLF);
    Utf8Concat(first, CRLF);
    Utf8Concat(first + CRLF, second);
  }

  lemma TwoLinesRead(first: string, second: string, seen: Seen, h: Headers, max: nat)
    requires max >= 2 && CleanLine(first) && CleanLine(second)
    requires Note(Seen(None, None), first) == Ok(seen) && Note(seen, second) == Ok(seen)
    requires FromDisposition(seen) == Ok(h)
    ensures HeadersOf(first + CRLF + second, max) == Ok(h) && NoBlankLine(first + CRLF + second)
  {
    TwoNoted(first, second, seen, max);
    TwoLinesSplit(first, second);
    TwoLinesNoBlank(first, second);
  }

  lemma DispositionNoted(h: Headers)
    requires GoodHeaders(h) && h.contentType.None?
    ensures Note(Seen(None, None), PrintHeaders(h)) == Ok(Seen(Some(PrintDisposition(h)), None))
    ensures CleanLine(PrintHeaders(h))
  {
    DispositionCarried(h);
    DispositionTrimmed(h);
    NoteDisposition(Seen(None, None), PrintDisposition(h));
    LinesCarried(h);
  }

  /** Header text is read as if the delimiter line in it were not there. */
  lemma SwallowedText(h: Headers, boundary: string, max: nat)
    requires GoodHeaders(h) && h.contentType.None? && max >= 2
    requires ValidBoundary(boundary) && !HeaderSafe(boundary)
    ensures HeadersOf(SwallowingText(h, "--" + boundary), max) == Ok(h)
    ensures NoBlankLine(SwallowingText(h, "--" + boundary))
  {
    var seen := Seen(Some(PrintDisposition(h)), None);
    DispositionNoted(h);
    UnsafeIsNoted(boundary, seen);
    FinishUndoes(h);
    ValidIsClean(boundary);
    TwoLinesRead(PrintHeaders(h), "--" + boundary, seen, h, max);
  }

  lemma ValidIsClean(boundary: string)
    requires ValidBoundary(boundary)
    ensures CleanLine("--" + boundary)
  {
    ValidIsGood(boundary);
    AsciiIsUtf8("--" + boundary);
  }

  lemma NoLineInNothing(delimiter: string)
    requires GoodDelimiter(delimiter)
    ensures NoLineWithin("", delimiter)
  {
    var framed := CRLF + "" + CRLF;
    forall q | 0 <= q ensures !Boundary(framed, q, delimiter) {
      AtFirst(framed, q, delimiter);
    }
  }

  /** What the searches find in a body with a delimiter line among its headers. */
  lemma SwallowedScan(
    f: Scan, body: string, pre: string, text: string, rest: string, h: Headers, boundary: string, limits: PartLimits)
    requires ValidBoundary(boundary) && !HeaderSafe(boundary) && GoodHeaders(h) && h.contentType.None?
    requires limits.headers >= 2 && text == SwallowingText(h, "--" + boundary)
    requires IsScan(f, body, "--" + boundary, limits) && body == pre + text + HEADERS_END + rest
    ensures f.headersEnd(|pre|) == Some(|pre| + |text|) && f.headers(text) == Ok(h)
  {
    SwallowedText(h, boundary, limits.headers);
    HeadersEnd(pre, text, rest);
    assert f.headersEnd(|pre|) == FirstAt(body, |pre|, HEADERS_END);
    assert f.headers(text) == HeadersOf(text, limits.headers);
  }

  lemma StartsAfter(f: Scan, body: string, limits: PartLimits, pos: nat, part: Parsed, d: Delimiter, end: nat)
    requires PartAt(f, body, pos, limits) == Ok((part, d)) && f.headersEnd(pos) == Some(end)
    ensures part.start == end + 4 <= part.end
  {
  }

  /** A part without data, closed by its delimiter line. */
  lemma EmptyPart(f: Scan, body: string, pre: string, text: string, h: Headers, delimiter: string, limits: PartLimits)
    returns (span: Parsed)
    requires GoodDelimiter(delimiter) && IsScan(f, body, delimiter, limits) && |text| <= limits.headerBytes
    requires body == Layout(pre, text, "", delimiter + Dashes(true) + CRLF, "")
    requires f.headersEnd(|pre|) == Some(|pre| + |text|) && f.headers(text) == Ok(h)
    ensures PartAt(f, body, |pre|, limits) == Ok((span, Delimiter(true, |body|))) && span.part == Part(h, "")
    ensures |pre| + |text| < span.start <= span.end
  {
    NoLineInNothing(delimiter);
    TextIs(f, body, pre, text, Part(h, ""), delimiter, true, "", limits);
    span := PartAt(f, body, |pre|, limits).value.0;
    StartsAfter(f, body, limits, |pre|, span, Delimiter(true, |body|), |pre| + |text|);
  }

  /** The delimiter line among the headers is a boundary of the body. */
  lemma SwallowedLine(pre: string, lead: string, delimiter: string, data: string, line: string, tail: string)
    ensures Boundary(Layout(pre, lead + CRLF + delimiter, data, line, tail), |pre + lead| + 2, delimiter)
  {
    var body, q := Layout(pre, lead + CRLF + delimiter, data, line, tail), |pre + lead| + 2;
    var rest := CRLF + (data + CRLF + (line + tail));
    assert HEADERS_END == CRLF + CRLF;
    assert body == pre + lead + CRLF + (delimiter + Dashes(false) + CRLF) + rest;
    AtMiddle(pre + lead + CRLF, delimiter + Dashes(false) + CRLF, rest);
    PrintedLine(body, q, delimiter, false);
    AtMiddle(pre + lead, CRLF, delimiter + Dashes(false) + CRLF + rest);
    assert body == pre + lead + CRLF + (delimiter + Dashes(false) + CRLF + rest);
  }

  const NAMED := Headers("n", None, None)

  lemma NamedIsGood()
    ensures GoodHeaders(NAMED)
  {
    AsciiPrintable("n");
  }

  lemma OnePart(f: Scan, body: string, pos: nat, limits: PartLimits, span: Parsed, next: nat)
    requires limits.parts >= 1 && PartAt(f, body, pos, limits) == Ok((span, Delimiter(true, next)))
    ensures PartsFrom(f, body, pos, limits, 0) == Ok([span])
  {
  }

  /** A body that starts with a delimiter line is read from behind it. */
  lemma OpenedBy(body: string, boundary: string, delimiter: string, pre: string, limits: PartLimits, spans: seq<Parsed>)
    requires delimiter == "--" + boundary && pre == delimiter + Dashes(false) + CRLF && pre <= body
    requires PartsFrom(ScanOf(body, delimiter, limits), body, |pre|, limits, 0) == Ok(spans)
    ensures Spanned(body, boundary, limits) == Ok(spans)
    ensures OpeningLine(body, delimiter) == Some(Delimiter(false, |pre|))
  {
    var d := FirstLine(body, delimiter, pre);
    SpannedIs(body, boundary, limits, d);
    OpeningIs(body, delimiter, 0, d);
  }

  lemma FirstLine(body: string, delimiter: string, pre: string) returns (d: Delimiter)
    requires pre == delimiter + Dashes(false) + CRLF && pre <= body
    ensures d == Delimiter(false, |pre|) && LineAt(body, 0, delimiter) == Some(d)
  {
    d := Delimiter(false, |pre|);
    assert body == pre + body[|pre|..];
    OpensWith(body, delimiter, false, body[|pre|..]);
  }

  ghost predicate Roomy(limits: PartLimits, h: Headers, boundary: string) {
    limits.parts >= 1 && limits.headers >= 2 && limits.headerBytes >= |SwallowingText(h, "--" + boundary)|
  }

  lemma BodyLaid(line: string, delimiter: string, pre: string)
    requires pre == delimiter + Dashes(false) + CRLF
    ensures SwallowingBody(line, delimiter)
         == Layout(pre, line + CRLF + delimiter, "", delimiter + Dashes(true) + CRLF, "")
    ensures pre <= SwallowingBody(line, delimiter) && |pre| == |delimiter| + 2
  {
    var closing := delimiter + "--" + CRLF;
    assert pre == delimiter + CRLF;
    assert SwallowingBody(line, delimiter)
        == pre + (line + CRLF + delimiter) + HEADERS_END + ("" + CRLF + (closing + ""));
  }

  /** The body is accepted as one part, which starts behind the swallowed line. */
  lemma SwallowingSpans(h: Headers, boundary: string, limits: PartLimits, delimiter: string, pre: string)
    returns (span: Parsed)
    requires ValidBoundary(boundary) && !HeaderSafe(boundary) && GoodHeaders(h) && h.contentType.None?
    requires Roomy(limits, h, boundary) && delimiter == "--" + boundary && pre == delimiter + Dashes(false) + CRLF
    ensures Spanned(SwallowingBody(PrintHeaders(h), delimiter), boundary, limits) == Ok([span])
    ensures span.part == Part(h, "")
    ensures OpeningLine(SwallowingBody(PrintHeaders(h), delimiter), delimiter) == Some(Delimiter(false, |pre|))
    ensures |pre| + |SwallowingText(h, delimiter)| < span.start <= span.end
  {
    var body, text := SwallowingBody(PrintHeaders(h), delimiter), SwallowingText(h, delimiter);
    var f, rest := ScanOf(body, delimiter, limits), "" + CRLF + (delimiter + Dashes(true) + CRLF + "");
    BodyLaid(PrintHeaders(h), delimiter, pre);
    ValidIsGood(boundary);
    SwallowedScan(f, body, pre, text, rest, h, boundary, limits);
    span := EmptyPart(f, body, pre, text, h, delimiter, limits);
    OnePart(f, body, |pre|, limits, span, |body|);
    OpenedBy(body, boundary, delimiter, pre, limits, [span]);
  }

  lemma NotOnlyCuts(body: string, delimiter: string, from: nat, span: Parsed, q: nat)
    requires from <= q < span.end && Boundary(body, q, delimiter)
    ensures !OnlyCuts(body, delimiter, from, [span])
  {
    var spans := [span];
    assert q <= spans[|spans| - 1].end + 2;
  }

  lemma Swallowed(
    body: string, boundary: string, delimiter: string, limits: PartLimits, span: Parsed, from: nat, q: nat)
    requires delimiter == "--" + boundary && Spanned(body, boundary, limits) == Ok([span])
    requires OpeningLine(body, delimiter) == Some(Delimiter(false, from))
    requires from <= q < span.end && Boundary(body, q, delimiter)
    ensures Parse(body, boundary, limits) == Ok([span.part]) && !EveryLineCuts(body, boundary, limits)
  {
    assert PartsOf([span]) == [span.part];
    NotOnlyCuts(body, delimiter, from, span, q);
  }

  /** Of an unsafe boundary, a delimiter line can be swallowed: the body is
      accepted as one part although a delimiter line stands among its headers. */
  lemma UnsafeBoundariesSwallow(h: Headers, boundary: string, limits: PartLimits)
    requires ValidBoundary(boundary) && !HeaderSafe(boundary) && GoodHeaders(h) && h.contentType.None?
    requires Roomy(limits, h, boundary)
    ensures var line, delimiter := PrintHeaders(h), "--" + boundary;
            var body := SwallowingBody(line, delimiter);
            && Parse(body, boundary, limits) == Ok([Part(h, "")])
            && Boundary(body, SwallowedAt(line, delimiter), delimiter)
            && !EveryLineCuts(body, boundary, limits)
  {
    var line, delimiter := PrintHeaders(h), "--" + boundary;
    var pre := delimiter + Dashes(false) + CRLF;
    var span := SwallowingSpans(h, boundary, limits, delimiter, pre);
    LineSwallowed(line, delimiter, pre);
    var body, q := SwallowingBody(line, delimiter), SwallowedAt(line, delimiter);
    Swallowed(body, boundary, delimiter, limits, span, |pre|, q);
  }

  lemma LineSwallowed(line: string, delimiter: string, pre: string)
    requires pre == delimiter + Dashes(false) + CRLF
    ensures Boundary(SwallowingBody(line, delimiter), SwallowedAt(line, delimiter), delimiter)
    ensures |pre| <= SwallowedAt(line, delimiter) <= |pre| + |line + CRLF + delimiter|
  {
    BodyLaid(line, delimiter, pre);
    SwallowedLine(pre, line, delimiter, "", delimiter + Dashes(true) + CRLF, "");
  }

  /** Every delimiter line of every accepted body cuts it if and only if no
      delimiter line of the boundary reads as a header. */
  lemma EveryLineCutsIff(boundary: string, limits: PartLimits)
    requires ValidBoundary(boundary) && Roomy(limits, NAMED, boundary)
    ensures HeaderSafe(boundary) <==> forall body :: EveryLineCuts(body, boundary, limits)
  {
    if HeaderSafe(boundary) {
      forall body ensures EveryLineCuts(body, boundary, limits) {
        SafeBoundariesCut(body, boundary, limits);
      }
    } else {
      NamedIsGood();
      UnsafeBoundariesSwallow(NAMED, boundary, limits);
    }
  }

  lemma UnsafeAtColon(boundary: string, name: string, value: string)
    requires boundary == name + [':'] + value && AllTokens(name)
    ensures !HeaderSafe(boundary)
  {
    assert ':' !in name;
    assert boundary == name + ([':'] + value) && boundary[..|name|] == name;
    BeforeIs(name, ':', [':'] + value);
  }

  lemma NamedPrints()
    ensures PrintHeaders(NAMED) == "Content-Disposition: form-data; name=\"n\""
  {
    EscapePlain("n");
  }

  /** The smallest unsafe boundary of this kind, and its delimiter line as a header. */
  lemma ColonIsUnsafe()
    ensures ValidBoundary("a:b") && !HeaderSafe("a:b")
    ensures HeaderLine("--a" + [':'] + "b") == Ok(("--a", "b"))
  {
    ColonIsValid("a:b");
    UnsafeAtColon("a:b", "a", "b");
    TrimKept("b");
    HeaderLineIs("--a", "b");
  }

  lemma ColonIsValid(boundary: string)
    requires |boundary| == 3 && boundary[0] == 'a' && boundary[1] == ':' && boundary[2] == 'b'
    ensures ValidBoundary(boundary)
  {
  }

  /** The body it is swallowed in. */
  lemma SwallowedExample(limits: PartLimits)
    requires Roomy(limits, NAMED, "a:b")
    ensures var line := "Content-Disposition: form-data; name=\"n\"";
            var body := SwallowingBody(line, "--" + "a:b");
            && Parse(body, "a:b", limits) == Ok([Part(Headers("n", None, None), "")])
            && Boundary(body, SwallowedAt(line, "--" + "a:b"), "--" + "a:b")
  {
    ColonIsUnsafe();
    NamedIsGood();
    NamedPrints();
    UnsafeBoundariesSwallow(NAMED, "a:b", limits);
  }
}
