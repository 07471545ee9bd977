/**
 What finalising keeps of the response a handler built, when it can be
 finalised at all, and what is sent otherwise (src/app/response.rs).
 */
module ResponseLaws {
  import opened Basics
  import opened Text
  import opened Finalization

  // ------------------------------------------------------- the declared length

  /** Every candidate of every Content-Length value is `n`. */
  ghost predicate AllDeclare(values: seq<string>, n: nat) {
    forall i :: 0 <= i < |values| ==> Declares(values[i], n)
  }

  ghost predicate Declares(value: string, n: nat) {
    IsVisible(value)
    && forall j :: 0 <= j < |Split(value, ',')| ==> CandidateLength(Split(value, ',')[j]) == Ok(n)
  }

  ghost predicate AllAre(candidates: seq<string>, n: nat) {
    forall j :: 0 <= j < |candidates| ==> CandidateLength(candidates[j]) == Ok(n)
  }

  lemma {:induction false} CandidatesAgree(candidates: seq<string>, seen: Option<nat>, n: nat)
    requires candidates != []
    ensures ScanCandidates(candidates, seen) == Ok(Some(n))
       <==> (seen.None? || seen.value == n) && AllAre(candidates, n)
    ensures ScanCandidates(candidates, seen) != Ok(None)
    decreases |candidates|
  {
    var rest := candidates[1..];
    assert candidates == [candidates[0]] + rest;
    if CandidateLength(candidates[0]).Ok? && rest != [] {
      CandidatesAgree(rest, Some(CandidateLength(candidates[0]).value), n);
    }
  }

  lemma {:induction false} ValuesAgree(values: seq<string>, seen: Option<nat>, n: nat)
    ensures ScanValues(values, seen) == Ok(Some(n))
       <==> (seen.None? || seen.value == n) && AllDeclare(values, n) && (values != [] || seen.Some?)
    ensures ScanValues(values, seen) == Ok(None) <==> values == [] && seen.None?
    decreases |values|
  {
    if values != [] {
      var candidates := Split(values[0], ',');
      CandidatesAgree(candidates, seen, n);
      assert values == [values[0]] + values[1..];
      assert Declares(values[0], n) <==> IsVisible(values[0]) && AllAre(candidates, n);
      if IsVisible(values[0]) && ScanCandidates(candidates, seen).Ok? {
        var found := ScanCandidates(candidates, seen).value;
        if found.Some? {
          CandidatesAgree(candidates, seen, found.value);
        }
        ValuesAgree(values[1..], found, n);
        AnotherLength(candidates, found.value, n);
      }
    }
  }

  lemma AnotherLength(candidates: seq<string>, m: nat, n: nat)
    requires candidates != [] && AllAre(candidates, m)
    ensures AllAre(candidates, n) <==> m == n
  {
    assert CandidateLength(candidates[0]) == Ok(m);
  }

  /** The declared length is the one number that all candidates of all values are. */
  lemma DeclaredIff(h: Headers, n: nat)
    ensures DeclaredLength(h) == Ok(Some(n))
       <==> Values(h, ContentLength) != [] && AllDeclare(Values(h, ContentLength), n)
    ensures DeclaredLength(h) == Ok(None) <==> Values(h, ContentLength) == []
  {
    ValuesAgree(Values(h, ContentLength), None, n);
  }

  // -------------------------------------------------------- what is finalised

  /** The response given can be finalised. */
  ghost predicate CanFinalize(env: Env, r: Response) {
    && r.buildError.None? && ValidStatus(r.status)
    && (Informational(r.status) ==> r.status == 101 && ValidSwitch(env, r.headers))
    && (if r.trailers.Some? then GoodTrailers(r.headers, r.trailers.value) else Trailer !in r.headers)
    && LengthUsable(r)
    && (NoContent(r.status) || ContentType in r.headers || IsVisible(r.contentType))
  }

  /** Its framing fields are usable: no Transfer-Encoding, one length if any, not
      beside trailers, and that of a buffered body that could be sent. */
  ghost predicate LengthUsable(r: Response) {
    && TransferEncoding !in r.headers && DeclaredLength(r.headers).Ok?
    && var length := DeclaredLength(r.headers).value;
       && (r.trailers.Some? ==> length.None?)
       && (LengthMismatch(length, r.body) ==> NoContent(r.status) && r.status != 304)
  }

  /** The Content-Length values that are sent. */
  ghost function LengthSent(r: Response): seq<string>
    requires DeclaredLength(r.headers).Ok?
  {
    var declared := DeclaredLength(r.headers).value;
    if NoContent(r.status) && r.status != 304 then []
    else if declared.Some? then [ToDecimal(declared.value)]
    else if !NoContent(r.status) && r.trailers.None? && r.body.Bytes? then [ToDecimal(|r.body.data|)]
    else []
  }

  /** What finalising keeps, and what it sets. */
  ghost predicate Keeps(r: Response, f: Response)
    requires DeclaredLength(r.headers).Ok?
  {
    && f.status == r.status && f.contentType == r.contentType && f.error == r.error
    && f.upgradeAuthorized == r.upgradeAuthorized && f.buildError.None?
    && f.body == (if NoContent(r.status) then Empty else r.body)
    && f.trailers == (if NoContent(r.status) then None else r.trailers)
    && (forall k :: k !in {ContentLength, ContentType, Trailer} ==> Values(f.headers, k) == Values(r.headers, k))
    && Values(f.headers, ContentType)
       == (if ContentType in r.headers || NoContent(r.status) then Values(r.headers, ContentType) else [r.contentType])
    && Values(f.headers, Trailer)
       == (if r.trailers.Some? && !NoContent(r.status) then [JoinNames(r.trailers.value.names)] else [])
    && Values(f.headers, ContentLength) == LengthSent(r)
  }

  lemma AnnouncedIff(env: Env, r: Response)
    ensures Announced(env, r).Ok?
       <==> && r.buildError.None? && ValidStatus(r.status)
            && (Informational(r.status) ==> r.status == 101 && ValidSwitch(env, r.headers))
            && (if r.trailers.Some? then GoodTrailers(r.headers, r.trailers.value) else Trailer !in r.headers)
    ensures Announced(env, r).Ok? ==>
              Announced(env, r).value
              == if r.trailers.Some? then r.(headers := Insert(r.headers, Trailer, JoinNames(r.trailers.value.names)))
                 else r
  {
  }

  lemma FramedIff(r: Response)
    ensures Framed(r).Ok? <==> LengthUsable(r)
  {
  }

  /** The fields that are not about framing. */
  ghost predicate OthersKept(h: Headers, g: Headers) {
    forall k :: k !in {ContentLength, ContentType, Trailer} ==> Values(g, k) == Values(h, k)
  }

  /** The length framing leaves: none without content, except on 304. */
  ghost function LengthFramed(r: Response): seq<string>
    requires DeclaredLength(r.headers).Ok?
  {
    var declared := DeclaredLength(r.headers).value;
    if declared.None? || (NoContent(r.status) && r.status != 304) then [] else [ToDecimal(declared.value)]
  }

  lemma NormalizedValues(h: Headers, length: Option<nat>)
    requires HeadersOk(h) && (length.None? ==> ContentLength !in h)
    ensures var g := Normalized(h, length);
            && HeadersOk(g) && OthersKept(h, g) && Values(g, ContentType) == Values(h, ContentType)
            && Values(g, Trailer) == Values(h, Trailer)
            && Values(g, ContentLength) == if length.Some? then [ToDecimal(length.value)] else []
  {
  }

  lemma ClearedValues(h: Headers, keepLength: bool)
    requires HeadersOk(h) && TransferEncoding !in h
    ensures var cleared := Remove(Remove(h, Trailer), TransferEncoding);
            var g := if keepLength then cleared else Remove(cleared, ContentLength);
            && HeadersOk(g) && OthersKept(h, g) && Values(g, ContentType) == Values(h, ContentType)
            && Values(g, Trailer) == []
            && Values(g, ContentLength) == if keepLength then Values(h, ContentLength) else []
  {
  }

  /** What framing does to the fields. */
  ghost predicate FieldsFramed(r: Response, g: Headers)
    requires DeclaredLength(r.headers).Ok?
  {
    && HeadersOk(g) && OthersKept(r.headers, g) && Values(g, ContentType) == Values(r.headers, ContentType)
    && Values(g, Trailer) == (if NoContent(r.status) then [] else Values(r.headers, Trailer))
    && Values(g, ContentLength) == LengthFramed(r)
  }

  lemma FramedFields(r: Response)
    requires HeadersOk(r.headers) && LengthUsable(r)
    ensures Framed(r).Ok? && FieldsFramed(r, Framed(r).value.headers)
  {
    var length := DeclaredLength(r.headers).value;
    var h := Normalized(r.headers, length);
    FramedIff(r);
    DeclaredIff(r.headers, 0);
    NormalizedValues(r.headers, length);
    if NoContent(r.status) {
      ClearedValues(h, r.status == 304);
    }
  }

  lemma FramedRest(r: Response)
    requires Framed(r).Ok?
    ensures var h := Framed(r).value.headers;
            Framed(r).value == if NoContent(r.status) then r.(headers := h, body := Empty, trailers := None)
                               else r.(headers := h)
  {
  }

  predicate AddsLength(r: Response) {
    !NoContent(r.status) && r.trailers.None? && r.body.Bytes?
  }

  /** What completing adds to framed fields. */
  lemma CompletedFields(r: Response)
    requires HeadersOk(r.headers) && (NoContent(r.status) || ContentType in r.headers || IsVisible(r.contentType))
    ensures Completed(r).Ok? && Completed(r).value == r.(headers := Completed(r).value.headers)
    ensures var g := Completed(r).value.headers;
            && OthersKept(r.headers, g) && Values(g, Trailer) == Values(r.headers, Trailer)
            && Values(g, ContentType) == (if ContentType in r.headers || NoContent(r.status)
                                          then Values(r.headers, ContentType) else [r.contentType])
            && Values(g, ContentLength) == (if ContentLength !in r.headers && AddsLength(r)
                                            then [ToDecimal(|r.body.data|)] else Values(r.headers, ContentLength))
  {
  }

  lemma InsertedTrailer(h: Headers, value: string)
    requires HeadersOk(h)
    ensures var g := Insert(h, Trailer, value);
            && HeadersOk(g) && OthersKept(h, g) && Values(g, ContentType) == Values(h, ContentType)
            && Values(g, Trailer) == [value] && Values(g, ContentLength) == Values(h, ContentLength)
            && (TransferEncoding in g <==> TransferEncoding in h) && (ContentType in g <==> ContentType in h)
  {
  }

  /** From the announced response on. */
  lemma FinishedKeeps(a: Response)
    requires HeadersOk(a.headers) && LengthUsable(a) && a.buildError.None?
    requires NoContent(a.status) || ContentType in a.headers || IsVisible(a.contentType)
    requires Values(a.headers, Trailer) == if a.trailers.Some? then [JoinNames(a.trailers.value.names)] else []
    ensures Framed(a).Ok? && Completed(Framed(a).value).Ok? && Keeps(a, Completed(Framed(a).value).value)
  {
    FramedFields(a);
    FramedRest(a);
    var f := Framed(a).value;
    assert ContentType in f.headers <==> Values(f.headers, ContentType) != [];
    assert ContentType in a.headers <==> Values(a.headers, ContentType) != [];
    assert ContentLength in f.headers <==> Values(f.headers, ContentLength) != [];
    CompletedFields(f);
  }

  /** The announced response keeps all but its Trailer field. */
  lemma SameKeeps(r: Response, a: Response, f: Response)
    requires a == r.(headers := a.headers) && OthersKept(r.headers, a.headers)
    requires Values(a.headers, ContentType) == Values(r.headers, ContentType)
    requires ContentType in a.headers <==> ContentType in r.headers
    requires DeclaredLength(a.headers) == DeclaredLength(r.headers) && DeclaredLength(r.headers).Ok?
    requires Keeps(a, f)
    ensures Keeps(r, f)
  {
  }

  lemma AttemptKeeps(env: Env, r: Response)
    requires HeadersOk(r.headers) && CanFinalize(env, r)
    ensures Attempt(env, r).Ok? && Keeps(r, Attempt(env, r).value)
  {
    AnnouncedIff(env, r);
    var a := Announced(env, r).value;
    if r.trailers.Some? {
      InsertedTrailer(r.headers, JoinNames(r.trailers.value.names));
      AnnouncedHeaders(r.headers, JoinNames(r.trailers.value.names));
    }
    FinishedKeeps(a);
    SameKeeps(r, a, Completed(Framed(a).value).value);
  }

  lemma AttemptOnlyIf(env: Env, r: Response)
    requires HeadersOk(r.headers) && Attempt(env, r).Ok?
    ensures CanFinalize(env, r)
  {
    AnnouncedIff(env, r);
    var a := Announced(env, r).value;
    if r.trailers.Some? {
      InsertedTrailer(r.headers, JoinNames(r.trailers.value.names));
      AnnouncedHeaders(r.headers, JoinNames(r.trailers.value.names));
    }
    FramedIff(a);
    FramedFields(a);
    FramedRest(a);
    var f := Framed(a).value;
    assert ContentType in f.headers <==> Values(f.headers, ContentType) != [];
    assert ContentType in a.headers <==> Values(a.headers, ContentType) != [];
  }

  /** What is sent when the response given cannot be finalised. */
  ghost predicate IsFailure(env: Env, f: Response) {
    && f.status == 500 && f.body == Bytes(env.problem) && f.trailers.None? && f.error.Some?
    && f.headers == map[ContentType := ["application/problem+json"], ContentLength := [ToDecimal(|env.problem|)]]
  }

  lemma FailureIs(env: Env, e: BuildError)
    ensures Attempt(env, FromError(env, e)).Ok? && IsFailure(env, Attempt(env, FromError(env, e)).value)
  {
    FromErrorSucceeds(env, e);
  }

  /** Finalising keeps what the handler built, or sends the failure. */
  lemma FinalizeKeeps(env: Env, r: Response)
    requires HeadersOk(r.headers)
    ensures CanFinalize(env, r) ==> Keeps(r, Finalize(env, r))
    ensures !CanFinalize(env, r) ==> IsFailure(env, Finalize(env, r))
  {
    if CanFinalize(env, r) {
      AttemptKeeps(env, r);
    } else {
      if Attempt(env, r).Ok? {
        AttemptOnlyIf(env, r);
      } else {
        FailureIs(env, Attempt(env, r).error);
      }
    }
  }

  // ------------------------------------------------------------- the HEAD form

  /** The Content-Length values of a HEAD response: those of GET, or the length
      of the body that is left out. */
  ghost function HeadLength(get: Response): seq<string> {
    if ContentLength in get.headers then Values(get.headers, ContentLength)
    else if !NoContent(get.status) && get.body.Bytes? then [ToDecimal(|get.body.data|)]
    else []
  }

  lemma HeadValues(get: Response, k: Name)
    ensures Values(HeadHeaders(get), k)
         == if k == Trailer then [] else if k == ContentLength then HeadLength(get) else Values(get.headers, k)
  {
  }

  /** A HEAD response has the fields of GET, except that nothing is announced and
      that the length of a body is given even if trailers follow it. */
  lemma HeadKeepsFields(env: Env, r: Response, k: Name)
    requires HeadersOk(r.headers) && Addressable(env, r)
    ensures var get, head := Sent(env, r, false), Sent(env, r, true);
            Values(head.headers, k)
            == if k == Trailer then [] else if k == ContentLength then HeadLength(get) else Values(get.headers, k)
  {
    FinalizeSettles(env, r);
    var get := Finalize(env, r);
    PreparedSettled(env, get);
    PreparedHeaders(env, get);
    SettledIsFixed(env, PreparedForHead(get));
    HeadValues(get, k);
  }

  // --------------------------------------------------------- the Trailer field

  ghost predicate PlainNames(names: seq<Name>) {
    forall i :: 0 <= i < |names| ==> Free(',', Spelling(names[i]))
  }

  /** Text between commas, with the space that a comma leaves behind it. */
  ghost predicate Spaced(pieces: seq<string>, names: seq<Name>) {
    && |pieces| == |names| > 0 && pieces[0] == Spelling(names[0])
    && forall i :: 0 < i < |names| ==> pieces[i] == " " + Spelling(names[i])
  }

  lemma SpacedOn(first: Name, names: seq<Name>, pieces: seq<string>)
    requires Spaced(pieces, names)
    ensures Spaced([Spelling(first)] + ([" " + pieces[0]] + pieces[1..]), [first] + names)
  {
    var all, rest := [Spelling(first)] + ([" " + pieces[0]] + pieces[1..]), [first] + names;
    forall i | 0 < i < |rest| ensures all[i] == " " + Spelling(rest[i]) {
      assert rest[i] == names[i - 1];
      assert all[i] == if i == 1 then " " + pieces[0] else pieces[i - 1];
    }
  }

  lemma SplitSpaced(tail: string)
    ensures Split(" " + tail, ',') == [" " + Split(tail, ',')[0]] + Split(tail, ',')[1..]
  {
    assert (" " + tail)[1..] == tail;
  }

  lemma JoinNamesOn(first: Name, names: seq<Name>)
    requires names != []
    ensures JoinNames([first] + names) == Spelling(first) + [','] + (" " + JoinNames(names))
  {
    assert ([first] + names)[1..] == names;
    assert Spelling(first) + ", " + JoinNames(names) == Spelling(first) + [','] + (" " + JoinNames(names));
  }

  lemma {:induction false} NamesSplit(names: seq<Name>)
    requires names != [] && PlainNames(names)
    ensures Spaced(Split(JoinNames(names), ','), names)
    decreases |names|
  {
    SplitFree(Spelling(names[0]), ',');
    if |names| > 1 {
      var first, rest := names[0], names[1..];
      NamesSplit(rest);
      assert names == [first] + rest;
      JoinNamesOn(first, rest);
      SplitFirst(Spelling(first), ',', " " + JoinNames(rest));
      SplitSpaced(JoinNames(rest));
      SpacedOn(first, rest, Split(JoinNames(rest), ','));
    }
  }

  /** The Trailer field lists exactly the names of the trailers, in order. */
  lemma TrailersAreListed(env: Env, r: Response)
    requires HeadersOk(r.headers) && CanFinalize(env, r) && !NoContent(r.status) && r.trailers.Some?
    requires r.trailers.value.names != [] && PlainNames(r.trailers.value.names)
    ensures var names, values := r.trailers.value.names, Values(Finalize(env, r).headers, Trailer);
            |values| == 1 && Spaced(Split(values[0], ','), names)
  {
    FinalizeKeeps(env, r);
    NamesSplit(r.trailers.value.names);
  }
}
