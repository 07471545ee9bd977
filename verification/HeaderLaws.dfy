/**
 The headers of a part against a declarative reading: which lines may occur and
 how often (src/app/form.rs).
 */
module HeaderLaws {
  import opened Basics
  import opened Text
  import opened Delimiters
  import opened PartHeaders
  import opened MultipartLaws

  /** The values of the lines with that name, in order. */
  ghost function Found(lines: seq<string>, name: string): seq<string> {
    if lines == [] then []
    else
      (match HeaderLine(lines[0])
       case Err(_) => []
       case Ok(pair) => if EqualIgnoringCase(pair.0, name) then [pair.1] else [])
      + Found(lines[1..], name)
  }

  ghost function AsSeq(value: Option<string>): seq<string> {
    if value.Some? then [value.value] else []
  }

  ghost predicate AllHeaders(lines: seq<string>) {
    forall i :: 0 <= i < |lines| ==> HeaderLine(lines[i]).Ok?
  }

  ghost predicate NoneEmpty(values: seq<string>) {
    forall i :: 0 <= i < |values| ==> values[i] != ""
  }

  const D := "content-disposition"
  const T := "content-type"

  /** All lines are headers, within the number allowed, and together with what
      was seen there is at most one disposition and one content type, not empty. */
  ghost predicate Noted(seen: Seen, lines: seq<string>, count: nat, max: nat, after: Seen) {
    && AllHeaders(lines) && (lines == [] || count + |lines| <= max)
    && AsSeq(seen.disposition) + Found(lines, D) == AsSeq(after.disposition)
    && AsSeq(seen.contentType) + Found(lines, T) == AsSeq(after.contentType)
    && NoneEmpty(Found(lines, T))
  }

  lemma NamesApart(name: string)
    ensures !(EqualIgnoringCase(name, D) && EqualIgnoringCase(name, T))
  {
    assert |Lower(D)| == 19 && |Lower(T)| == 12;
  }

  lemma AllHeadersStep(lines: seq<string>)
    requires lines != []
    ensures AllHeaders(lines) <==> HeaderLine(lines[0]).Ok? && AllHeaders(lines[1..])
  {
    assert lines == [lines[0]] + lines[1..];
  }

  lemma NoneEmptyStep(x: string, rest: seq<string>)
    ensures NoneEmpty([x] + rest) <==> x != "" && NoneEmpty(rest)
  {
    assert ([x] + rest)[0] == x;
    if NoneEmpty([x] + rest) {
      forall i | 0 <= i < |rest| ensures rest[i] != "" {
        assert ([x] + rest)[i + 1] == rest[i];
      }
    }
  }

  /** One more value beside one already seen is too many. */
  lemma OneMore(before: Option<string>, x: string, rest: seq<string>, after: Option<string>)
    ensures AsSeq(before) + ([x] + rest) == AsSeq(after) <==> before.None? && AsSeq(Some(x)) + rest == AsSeq(after)
  {
    if before.Some? {
      assert |AsSeq(before) + ([x] + rest)| >= 2;
    } else {
      assert AsSeq(before) + ([x] + rest) == [x] + rest;
    }
  }

  lemma {:induction false} NoteAllIff(seen: Seen, lines: seq<string>, count: nat, max: nat, after: Seen)
    ensures NoteAll(seen, lines, count, max) == Ok(after) <==> Noted(seen, lines, count, max, after)
    decreases |lines|
  {
    if lines == [] {
      NothingNoted(seen, after);
    } else {
      AllHeadersStep(lines);
      if HeaderLine(lines[0]).Ok? {
        NotedStep(seen, lines, count, max, after);
        if Note(seen, lines[0]).Ok? {
          NoteAllIff(Note(seen, lines[0]).value, lines[1..], count + 1, max, after);
        }
      }
    }
  }

  lemma NothingNoted(seen: Seen, after: Seen)
    ensures seen == after
       <==> AsSeq(seen.disposition) + [] == AsSeq(after.disposition)
            && AsSeq(seen.contentType) + [] == AsSeq(after.contentType)
  {
    SameAsSeq(seen.disposition, after.disposition);
    SameAsSeq(seen.contentType, after.contentType);
    assert AsSeq(seen.disposition) + [] == AsSeq(seen.disposition);
    assert AsSeq(seen.contentType) + [] == AsSeq(seen.contentType);
  }

  lemma SameAsSeq(a: Option<string>, b: Option<string>)
    ensures AsSeq(a) == AsSeq(b) <==> a == b
  {
    if a.Some? && b.Some? && AsSeq(a) == AsSeq(b) {
      assert AsSeq(a)[0] == AsSeq(b)[0];
    }
    assert |AsSeq(a)| == (if a.Some? then 1 else 0) && |AsSeq(b)| == (if b.Some? then 1 else 0);
  }

  /** What the first line adds. */
  lemma NotedStep(seen: Seen, lines: seq<string>, count: nat, max: nat, after: Seen)
    requires lines != [] && HeaderLine(lines[0]).Ok?
    ensures Noted(seen, lines, count, max, after)
       <==> && count + 1 <= max && Note(seen, lines[0]).Ok?
            && Noted(Note(seen, lines[0]).value, lines[1..], count + 1, max, after)
  {
    AllHeadersStep(lines);
    var (name, value) := HeaderLine(lines[0]).value;
    var rest := lines[1..];
    NamesApart(name);
    if EqualIgnoringCase(name, D) {
      assert Found(lines, D) == [value] + Found(rest, D);
      assert Found(lines, T) == [] + Found(rest, T) == Found(rest, T);
      OneMore(seen.disposition, value, Found(rest, D), after.disposition);
    } else if EqualIgnoringCase(name, T) {
      assert Found(lines, T) == [value] + Found(rest, T);
      assert Found(lines, D) == [] + Found(rest, D) == Found(rest, D);
      OneMore(seen.contentType, value, Found(rest, T), after.contentType);
      NoneEmptyStep(value, Found(rest, T));
    } else {
      assert Found(lines, D) == [] + Found(rest, D) == Found(rest, D);
      assert Found(lines, T) == [] + Found(rest, T) == Found(rest, T);
    }
  }

  /** A disposition that names a form field. */
  ghost predicate NamesField(disposition: string, h: Headers) {
    exists parameters, base ::
      && Parameterized(disposition) == Some((base, parameters)) && EqualIgnoringCase(base, "form-data")
      && OnlyOne(parameters, "name", h.name) && h.name != ""
      && (if h.filename.Some? then OnlyOne(parameters, "filename", h.filename.value)
          else forall v :: !OnlyOne(parameters, "filename", v))
  }

  lemma FromDispositionIff(seen: Seen, h: Headers)
    ensures FromDisposition(seen) == Ok(h)
       <==> seen.disposition.Some? && NamesField(seen.disposition.value, h) && h.contentType == seen.contentType
  {
    if seen.disposition.Some? && Parameterized(seen.disposition.value).Some? {
      var (base, parameters) := Parameterized(seen.disposition.value).value;
      forall v ensures Unique(parameters, "filename") == Some(v) <==> OnlyOne(parameters, "filename", v) {
        UniqueIff(parameters, "filename", v);
      }
      forall v ensures Unique(parameters, "name") == Some(v) <==> OnlyOne(parameters, "name", v) {
        UniqueIff(parameters, "name", v);
      }
    }
  }

  /** Header text is accepted exactly when every line is a header, there are not
      too many, one of them is the disposition of a named form field, and at most
      one is a content type, which is not empty. */
  lemma HeadersIff(raw: string, max: nat, h: Headers)
    ensures HeadersOf(raw, max) == Ok(h)
       <==> && ValidUtf8(raw) && AllHeaders(SplitCrlf(raw)) && |SplitCrlf(raw)| <= max
            && (exists d :: Found(SplitCrlf(raw), D) == [d] && NamesField(d, h))
            && Found(SplitCrlf(raw), T) == AsSeq(h.contentType) && NoneEmpty(Found(SplitCrlf(raw), T))
  {
    var lines := SplitCrlf(raw);
    forall after ensures NoteAll(Seen(None, None), lines, 0, max) == Ok(after) <==> NotedFresh(lines, max, after) {
      NoteAllIff(Seen(None, None), lines, 0, max, after);
      assert [] + Found(lines, D) == Found(lines, D) && [] + Found(lines, T) == Found(lines, T);
    }
    if HeadersOf(raw, max) == Ok(h) {
      var after := NoteAll(Seen(None, None), lines, 0, max).value;
      FromDispositionIff(after, h);
    }
    forall d | ValidUtf8(raw) && Found(lines, D) == [d] && NamesField(d, h)
               && NotedFresh(lines, max, Seen(Some(d), h.contentType))
      ensures HeadersOf(raw, max) == Ok(h)
    {
      FromDispositionIff(Seen(Some(d), h.contentType), h);
    }
  }

  ghost predicate NotedFresh(lines: seq<string>, max: nat, after: Seen) {
    && AllHeaders(lines) && (lines == [] || |lines| <= max)
    && Found(lines, D) == AsSeq(after.disposition) && Found(lines, T) == AsSeq(after.contentType)
    && NoneEmpty(Found(lines, T))
  }
}
