/**
 Finalising a response at the network boundary: framing, trailers, and the
 HEAD form of a response (src/app/response.rs, src/app/server.rs, section 8.6
 of RFC 9110).
 */
module Finalization {
  import opened Basics
  import opened Text

  /** The spellings of the fields the framework handles. */
  predicate IsHandled(text: string) {
    || text == "content-length" || text == "content-type" || text == "transfer-encoding" || text == "trailer"
    || text == "connection" || text == "upgrade" || text == "sec-websocket-accept"
  }

  type OtherText = text: string | !IsHandled(text) witness "x"

  /** A field name: one of those the framework handles, or another, which then
      is spelt differently from all of these. */
  datatype Name =
    | ContentLength | ContentType | TransferEncoding | Trailer | Connection | Upgrade | WebSocketAccept
    | Other(text: OtherText)

  function Spelling(name: Name): string {
    match name
    case ContentLength => "content-length"
    case ContentType => "content-type"
    case TransferEncoding => "transfer-encoding"
    case Trailer => "trailer"
    case Connection => "connection"
    case Upgrade => "upgrade"
    case WebSocketAccept => "sec-websocket-accept"
    case Other(text) => text
  }

  /** A field has one name, so looking one up by name misses no spelling of it. */
  lemma SpellingIsName(a: Name, b: Name)
    requires Spelling(a) == Spelling(b)
    ensures a == b
  {
    assert a.Other? || IsHandled(Spelling(a));
    assert b.Other? || IsHandled(Spelling(b));
    if a != b && !a.Other? {
      HandledDiffer(a, b);
    }
  }

  lemma HandledDiffer(a: Name, b: Name)
    requires !a.Other? && !b.Other? && a != b
    ensures Spelling(a) != Spelling(b)
  {
    assert |Spelling(a)| != |Spelling(b)| || Spelling(a)[0] != Spelling(b)[0];
  }

  /** A header map: each name with its values in order. */
  type Headers = map<Name, seq<string>>

  datatype Body = Bytes(data: string) | Stream(source: nat) | Empty

  datatype BuildError =
    | InvalidStatus | InterimStatus | InvalidSwitchingProtocols | InvalidTrailerName | TrailerWithoutFields
    | InvalidContentLength | ConflictingContentLength | ContentLengthMismatch | ExplicitTransferEncoding
    | ContentLengthWithTrailers | InvalidHeaderValue | InvalidHeaderName

  /** Trailer fields, by name in iteration order. */
  datatype Fields = Fields(names: seq<Name>, values: Headers)

  datatype Response = Response(
    status: nat,
    contentType: string,
    headers: Headers,
    body: Body,
    trailers: Option<Fields>,
    error: Option<BuildError>,
    buildError: Option<BuildError>,
    upgradeAuthorized: bool)

  /** What finalising relies on: whether a WebSocket accept value is base64 of
      twenty bytes (decoding is not part of this model), and the fixed text of a
      build failure. */
  datatype Env = Env(accepts: string -> bool, problem: string)

  ghost predicate HeadersOk(h: Headers) {
    forall k :: k in h ==> h[k] != []
  }

  function Insert(h: Headers, name: Name, value: string): Headers {
    h[name := [value]]
  }

  function Remove(h: Headers, name: Name): Headers {
    map k | k in h && k != name :: h[k]
  }

  function Values(h: Headers, name: Name): seq<string> {
    if name in h then h[name] else []
  }

  // ----------------------------------------------------------------- statuses

  predicate ValidStatus(status: nat) {
    100 <= status <= 999
  }

  predicate Informational(status: nat) {
    100 <= status < 200
  }

  predicate NoContent(status: nat) {
    Informational(status) || status in {204, 205, 304}
  }

  // -------------------------------------------------------------- field values

  predicate IsVisible(s: string) {
    forall i :: 0 <= i < |s| ==> s[i] == '\t' || 32 <= s[i] as int < 127
  }

  /** One comma-separated candidate of a Content-Length value. */
  function CandidateLength(candidate: string): Result<nat, BuildError> {
    var digits := Trim(candidate);
    if digits == "" || !AllDigits(digits) || Decimal(digits) > U64_MAX then Err(InvalidContentLength)
    else Ok(Decimal(digits))
  }

  function ScanCandidates(candidates: seq<string>, seen: Option<nat>): Result<Option<nat>, BuildError>
    decreases |candidates|
  {
    if candidates == [] then Ok(seen)
    else
      match CandidateLength(candidates[0])
      case Err(e) => Err(e)
      case Ok(n) =>
        if seen.Some? && seen.value != n then Err(ConflictingContentLength)
        else ScanCandidates(candidates[1..], Some(n))
  }

  function ScanValues(values: seq<string>, seen: Option<nat>): Result<Option<nat>, BuildError>
    decreases |values|
  {
    if values == [] then Ok(seen)
    else if !IsVisible(values[0]) then Err(InvalidContentLength)
    else
      match ScanCandidates(Split(values[0], ','), seen)
      case Err(e) => Err(e)
      case Ok(n) => ScanValues(values[1..], n)
  }

  /** The single length all Content-Length values agree on. */
  function DeclaredLength(h: Headers): Result<Option<nat>, BuildError> {
    ScanValues(Values(h, ContentLength), None)
  }

  /** The headers with that length in its canonical form. */
  function Normalized(h: Headers, length: Option<nat>): Headers {
    if length.Some? then Insert(h, ContentLength, ToDecimal(length.value)) else h
  }

  // ------------------------------------------------------------------ trailers

  predicate StartsWith(s: string, prefix: string) {
    prefix <= s
  }

  predicate IsForbiddenTrailer(name: string) {
    || StartsWith(name, "access-control-") || StartsWith(name, "cross-origin-")
    || StartsWith(name, "proxy-") || StartsWith(name, "sec-websocket-")
    || name in ["accept-ranges", "age", "allow", "alt-svc", "authorization", "cache-control", "connection",
                "content-disposition", "content-encoding", "content-language", "content-length",
                "content-location"]
    || name in ["content-range", "content-security-policy", "content-type", "cookie", "date", "expect",
                "expires", "host", "if-match", "if-modified-since", "if-none-match", "if-range"]
    || name in ["if-unmodified-since", "keep-alive", "last-modified", "link", "location", "max-forwards",
                "permissions-policy", "pragma", "range", "referrer-policy", "refresh", "retry-after"]
    || name in ["server", "set-cookie", "strict-transport-security", "te", "trailer", "transfer-encoding",
                "upgrade", "vary", "warning", "www-authenticate", "x-content-type-options", "x-frame-options"]
  }

  /** No field that frames the message may be a trailer. */
  lemma FramingFieldsForbidden(name: Name)
    requires !name.Other?
    ensures IsForbiddenTrailer(Spelling(name))
  {
    if name.WebSocketAccept? {
      assert Spelling(name)[..14] == "sec-websocket-";
    }
  }

  predicate IsFieldName(s: string) {
    s != "" && forall i :: 0 <= i < |s| ==> IsTokenByte(s[i])
  }

  /** A value of the Connection field nominates `name`. */
  predicate Nominates(value: string, name: string) {
    IsVisible(value)
    && exists i :: 0 <= i < |Split(value, ',')|
                   && IsFieldName(Trim(Split(value, ',')[i])) && Lower(Trim(Split(value, ',')[i])) == name
  }

  predicate Nominated(h: Headers, name: string) {
    exists i :: 0 <= i < |Values(h, Connection)| && Nominates(Values(h, Connection)[i], name)
  }

  predicate GoodTrailers(h: Headers, fields: Fields) {
    forall i :: 0 <= i < |fields.names| ==>
      !IsForbiddenTrailer(Spelling(fields.names[i])) && !Nominated(h, Spelling(fields.names[i]))
  }

  function JoinNames(names: seq<Name>): string {
    if names == [] then ""
    else if |names| == 1 then Spelling(names[0])
    else Spelling(names[0]) + ", " + JoinNames(names[1..])
  }

  // --------------------------------------------------------- protocol switches

  predicate HasToken(h: Headers, name: Name, token: string) {
    exists i, j :: 0 <= i < |Values(h, name)| && IsVisible(Values(h, name)[i])
                   && 0 <= j < |Split(Values(h, name)[i], ',')|
                   && EqualIgnoringCase(Trim(Split(Values(h, name)[i], ',')[j]), token)
  }

  predicate ValidSwitch(env: Env, h: Headers) {
    && HasToken(h, Connection, "upgrade")
    && HasToken(h, Upgrade, "websocket")
    && |Values(h, WebSocketAccept)| == 1
    && IsVisible(Values(h, WebSocketAccept)[0])
    && env.accepts(Trim(Values(h, WebSocketAccept)[0]))
  }

  // ---------------------------------------------------------------- finalising

  predicate LengthMismatch(length: Option<nat>, body: Body) {
    length.Some? && body.Bytes? && length.value != |body.data|
  }

  /** `finalize_framing`. */
  function Framed(r: Response): Result<Response, BuildError> {
    match DeclaredLength(r.headers)
    case Err(e) => Err(e)
    case Ok(length) =>
      var h := Normalized(r.headers, length);
      if TransferEncoding in h then Err(ExplicitTransferEncoding)
      else if length.Some? && r.trailers.Some? then Err(ContentLengthWithTrailers)
      else if (r.status == 304 || !NoContent(r.status)) && LengthMismatch(length, r.body) then
        Err(ContentLengthMismatch)
      else if NoContent(r.status) then
        var cleared := Remove(Remove(h, Trailer), TransferEncoding);
        var kept := if r.status == 304 then cleared else Remove(cleared, ContentLength);
        Ok(r.(headers := kept, body := Empty, trailers := None))
      else Ok(r.(headers := h))
  }

  /** The checks before framing, and the Trailer field they set. */
  function Announced(env: Env, r: Response): Result<Response, BuildError> {
    if r.buildError.Some? then Err(r.buildError.value)
    else if !ValidStatus(r.status) then Err(InvalidStatus)
    else if Informational(r.status) && r.status != 101 then Err(InterimStatus)
    else if r.status == 101 && !ValidSwitch(env, r.headers) then Err(InvalidSwitchingProtocols)
    else if r.trailers.Some? then
      if !GoodTrailers(r.headers, r.trailers.value) then Err(InvalidTrailerName)
      else Ok(r.(headers := Insert(r.headers, Trailer, JoinNames(r.trailers.value.names))))
    else if Trailer in r.headers then Err(TrailerWithoutFields)
    else Ok(r)
  }

  /** The fields added after framing. */
  function Completed(r: Response): Result<Response, BuildError> {
    if NoContent(r.status) then Ok(r)
    else if ContentType !in r.headers && !IsVisible(r.contentType) then Err(InvalidHeaderValue)
    else
      var h := if ContentType in r.headers then r.headers else Insert(r.headers, ContentType, r.contentType);
      Ok(r.(headers := if ContentLength !in h && r.trailers.None? && r.body.Bytes?
                       then Insert(h, ContentLength, ToDecimal(|r.body.data|)) else h))
  }

  /** `finalize` up to its first failure. */
  function Attempt(env: Env, r: Response): Result<Response, BuildError> {
    match Announced(env, r)
    case Err(e) => Err(e)
    case Ok(announced) =>
      match Framed(announced)
      case Err(e) => Err(e)
      case Ok(framed) => Completed(framed)
  }

  /** The response for a failure, before it is finalised itself. */
  function FromError(env: Env, e: BuildError): Response {
    Response(500, "application/problem+json", map[], Bytes(env.problem), None, Some(e), None, false)
  }

  lemma FromErrorSucceeds(env: Env, e: BuildError)
    ensures Attempt(env, FromError(env, e)).Ok?
  {
    assert IsVisible("application/problem+json");
  }

  /** `finalize`: a failure is replaced by a finalised error response, and that
      one does not fail, so the recursion ends. */
  function Finalize(env: Env, r: Response): Response
    decreases if Attempt(env, r).Ok? then 0 else 1
  {
    match Attempt(env, r)
    case Ok(final) => final
    case Err(e) => FromErrorSucceeds(env, e); Finalize(env, FromError(env, e))
  }

  /** `prepare_for_head`. */
  function PreparedForHead(r: Response): Response {
    var bare := r.(trailers := None, headers := Remove(r.headers, Trailer));
    if !ValidStatus(r.status) || NoContent(r.status) || !r.body.Bytes? then bare.(body := Empty)
    else WithLength(bare, |r.body.data|, DeclaredLength(bare.headers))
  }

  /** The length of the body that is left out, if no other is declared. */
  function WithLength(bare: Response, length: nat, declared: Result<Option<nat>, BuildError>): Response {
    match declared
    case Err(e) => Recorded(bare, e).(body := Empty)
    case Ok(None) => bare.(headers := Insert(bare.headers, ContentLength, ToDecimal(length)), body := Empty)
    case Ok(Some(n)) =>
      var kept := bare.(headers := Normalized(bare.headers, Some(n)), body := Empty);
      if n != length then Recorded(kept, ContentLengthMismatch) else kept
  }

  /** The first build error is the one kept. */
  function Recorded(r: Response, e: BuildError): Response {
    if r.buildError.None? then r.(buildError := Some(e)) else r
  }

  /** The end of `run_request`. */
  function Sent(env: Env, r: Response, isHead: bool): Response {
    var final := Finalize(env, r);
    if isHead then Finalize(env, PreparedForHead(final)) else final
  }

  // ------------------------------------------------------------ sound framing

  /** What a finalised response looks like on the wire. */
  ghost predicate SoundFraming(r: Response) {
    && r.buildError.None?
    && ValidStatus(r.status) && (Informational(r.status) ==> r.status == 101)
    && LengthsSound(r)
    && (r.trailers.Some? <==> Trailer in r.headers)
    && (!NoContent(r.status) && r.body.Bytes? && r.trailers.None? ==> ContentLength in r.headers)
    && (!NoContent(r.status) ==> ContentType in r.headers)
  }

  /** Finalising has nothing left to change. */
  ghost predicate Settled(env: Env, r: Response) {
    SoundFraming(r) && Checked(env, r) && HeadersOk(r.headers)
  }

  lemma {:induction false} NoSpaceTrims(s: string)
    requires s != "" && AllDigits(s)
    ensures Trim(s) == s
  {
  }

  lemma {:induction false} DigitsSplit(s: string)
    requires AllDigits(s)
    ensures Split(s, ',') == [s]
  {
    SplitFree(s, ',');
  }

  /** A canonical length is read back. */
  lemma CanonicalLength(n: nat)
    requires n <= U64_MAX
    ensures ScanValues([ToDecimal(n)], None) == Ok(Some(n))
  {
    var s: string := ToDecimal(n);
    var one: seq<string> := [s];
    assert one[1..] == [];
    NoSpaceTrims(s);
    assert CandidateLength(s) == Ok(n);
    assert ScanCandidates(one, None) == ScanCandidates([], Some(n));
    DigitsSplit(s);
    assert forall i :: 0 <= i < |s| ==> IsDigit(s[i]);
    assert IsVisible(s);
    assert ScanValues(one, None) == ScanValues([], Some(n));
  }

  lemma {:induction false} ScanCandidatesSome(candidates: seq<string>, seen: Option<nat>)
    requires seen.Some? ==> seen.value <= U64_MAX
    ensures var r := ScanCandidates(candidates, seen);
            r.Ok? ==> (candidates != [] || seen.Some? ==> r.value.Some?) && (r.value.Some? ==> r.value.value <= U64_MAX)
    decreases |candidates|
  {
    if candidates != [] && CandidateLength(candidates[0]).Ok? {
      ScanCandidatesSome(candidates[1..], Some(CandidateLength(candidates[0]).value));
    }
  }

  /** A present Content-Length either fails or declares a length. */
  lemma {:induction false} ScanValuesSome(values: seq<string>, seen: Option<nat>)
    requires seen.Some? ==> seen.value <= U64_MAX
    ensures var r := ScanValues(values, seen);
            r.Ok? ==> (values != [] || seen.Some? ==> r.value.Some?) && (r.value.Some? ==> r.value.value <= U64_MAX)
    decreases |values|
  {
    if values != [] && IsVisible(values[0]) {
      var r := ScanCandidates(Split(values[0], ','), seen);
      ScanCandidatesSome(Split(values[0], ','), seen);
      if r.Ok? {
        ScanValuesSome(values[1..], r.value);
      }
    }
  }

  /** In-memory bodies are addressable: shorter than 2^64. */
  ghost predicate Addressable(env: Env, r: Response) {
    |env.problem| <= U64_MAX && (r.body.Bytes? ==> |r.body.data| <= U64_MAX)
  }

  /** Setting fields the switch and trailer checks do not read keeps both. */
  lemma ChecksKept(env: Env, h: Headers, g: Headers)
    requires Values(h, Connection) == Values(g, Connection)
    requires Values(h, Upgrade) == Values(g, Upgrade)
    requires Values(h, WebSocketAccept) == Values(g, WebSocketAccept)
    ensures ValidSwitch(env, h) == ValidSwitch(env, g)
    ensures forall fields :: GoodTrailers(h, fields) == GoodTrailers(g, fields)
  {
    assert forall name :: Nominated(h, name) == Nominated(g, name);
    assert forall token :: HasToken(h, Connection, token) == HasToken(g, Connection, token);
    assert forall token :: HasToken(h, Upgrade, token) == HasToken(g, Upgrade, token);
  }

  /** What the checks before framing establish. */
  ghost predicate Checked(env: Env, r: Response) {
    && r.buildError.None?
    && ValidStatus(r.status) && (Informational(r.status) ==> r.status == 101)
    && (r.status == 101 ==> ValidSwitch(env, r.headers))
    && (r.trailers.Some? <==> Trailer in r.headers)
    && (r.trailers.Some? ==> GoodTrailers(r.headers, r.trailers.value)
                             && r.headers[Trailer] == [JoinNames(r.trailers.value.names)])
  }

  lemma AnnouncedChecked(env: Env, r: Response)
    requires Announced(env, r).Ok? && HeadersOk(r.headers)
    ensures var a := Announced(env, r).value;
            Checked(env, a) && HeadersOk(a.headers) && a.body == r.body && a.status == r.status
  {
    ChecksKept(env, r.headers, Announced(env, r).value.headers);
  }

  /** What framing establishes. */
  ghost predicate LengthsSound(r: Response) {
    && TransferEncoding !in r.headers
    && (ContentLength in r.headers ==> exists n: nat :: IsLength(r, n))
    && (r.trailers.Some? ==> ContentLength !in r.headers)
    && (NoContent(r.status) ==>
          r.body == Empty && r.trailers.None? && (r.status != 304 ==> ContentLength !in r.headers))
  }

  /** The response declares the length `n`, which any buffered body has. */
  ghost predicate IsLength(r: Response, n: nat) {
    && ContentLength in r.headers && r.headers[ContentLength] == [ToDecimal(n)] && n <= U64_MAX
    && (r.body.Bytes? ==> |r.body.data| == n)
  }

  /** The fields that the switch and trailer checks read. */
  ghost predicate SwitchKept(h: Headers, g: Headers) {
    && Values(g, Connection) == Values(h, Connection) && Values(g, Upgrade) == Values(h, Upgrade)
    && Values(g, WebSocketAccept) == Values(h, WebSocketAccept)
  }

  /** Framing touches the length, and otherwise only clears a response without content. */
  ghost predicate OnlyFramed(r: Response, f: Response) {
    && f.status == r.status && f.buildError == r.buildError && (f.body == r.body || f.body == Empty)
    && SwitchKept(r.headers, f.headers)
    && (|| (f.trailers == r.trailers && Values(f.headers, Trailer) == Values(r.headers, Trailer))
        || (f.trailers.None? && Trailer !in f.headers))
  }

  /** The length a framed response declares is the one its headers agreed on. */
  lemma FramedDeclares(r: Response)
    requires HeadersOk(r.headers) && Framed(r).Ok? && ContentLength in Framed(r).value.headers
    ensures exists n: nat :: IsLength(Framed(r).value, n)
  {
    var length := DeclaredLength(r.headers).value;
    ScanValuesSome(Values(r.headers, ContentLength), None);
    assert IsLength(Framed(r).value, length.value);
  }

  lemma NormalizedKeeps(h: Headers, length: Option<nat>)
    requires HeadersOk(h)
    ensures HeadersOk(Normalized(h, length)) && SwitchKept(h, Normalized(h, length))
    ensures Values(Normalized(h, length), Trailer) == Values(h, Trailer)
  {
  }

  lemma RemoveKeeps(h: Headers, name: Name)
    requires HeadersOk(h) && name in {Trailer, TransferEncoding, ContentLength}
    ensures HeadersOk(Remove(h, name)) && SwitchKept(h, Remove(h, name)) && name !in Remove(h, name)
    ensures Trailer !in h ==> Trailer !in Remove(h, name)
  {
  }

  lemma ClearedOnly(r: Response)
    requires HeadersOk(r.headers) && Framed(r).Ok? && NoContent(r.status)
    ensures HeadersOk(Framed(r).value.headers) && OnlyFramed(r, Framed(r).value)
  {
    var h := Normalized(r.headers, DeclaredLength(r.headers).value);
    NormalizedKeeps(r.headers, DeclaredLength(r.headers).value);
    RemoveKeeps(h, Trailer);
    RemoveKeeps(Remove(h, Trailer), TransferEncoding);
    RemoveKeeps(Remove(Remove(h, Trailer), TransferEncoding), ContentLength);
  }

  lemma FramedOnly(r: Response)
    requires HeadersOk(r.headers) && Framed(r).Ok?
    ensures HeadersOk(Framed(r).value.headers) && OnlyFramed(r, Framed(r).value)
  {
    if NoContent(r.status) {
      ClearedOnly(r);
    } else {
      NormalizedKeeps(r.headers, DeclaredLength(r.headers).value);
    }
  }

  lemma FramedLengths(r: Response)
    requires HeadersOk(r.headers) && Framed(r).Ok?
    ensures var f := Framed(r).value; HeadersOk(f.headers) && LengthsSound(f) && OnlyFramed(r, f)
  {
    FramedOnly(r);
    if ContentLength in Framed(r).value.headers {
      FramedDeclares(r);
    }
    ScanValuesSome(Values(r.headers, ContentLength), None);
  }

  lemma FramedSound(env: Env, r: Response)
    requires Checked(env, r) && HeadersOk(r.headers) && Framed(r).Ok?
    ensures var f := Framed(r).value;
            && Checked(env, f) && HeadersOk(f.headers) && LengthsSound(f) && f.status == r.status
            && (f.body == r.body || f.body == Empty)
  {
    FramedLengths(r);
    KeptChecks(env, r, Framed(r).value);
  }

  /** Framing does not touch what the switch and trailer checks read. */
  lemma KeptChecks(env: Env, r: Response, f: Response)
    requires Checked(env, r) && OnlyFramed(r, f) && HeadersOk(f.headers) && HeadersOk(r.headers)
    ensures Checked(env, f)
  {
    ChecksKept(env, r.headers, f.headers);
    assert Trailer in f.headers <==> Values(f.headers, Trailer) != [];
    assert Trailer in r.headers <==> Values(r.headers, Trailer) != [];
  }

  lemma CompletedLength(env: Env, r: Response)
    requires LengthsSound(r) && Addressable(env, r) && Completed(r).Ok?
    ensures var c := Completed(r).value; ContentLength in c.headers ==> exists n: nat :: IsLength(c, n)
  {
    var c := Completed(r).value;
    if ContentLength in r.headers {
      var n: nat :| IsLength(r, n);
      assert IsLength(c, n);
    } else if ContentLength in c.headers {
      assert IsLength(c, |c.body.data|);
    }
  }

  lemma CompletedChecked(env: Env, r: Response)
    requires Checked(env, r) && HeadersOk(r.headers) && Completed(r).Ok?
    ensures Checked(env, Completed(r).value) && HeadersOk(Completed(r).value.headers)
  {
    CompletedOnly(r);
    KeptChecks(env, r, Completed(r).value);
  }

  /** Completing adds a type and a length only. */
  lemma CompletedOnly(r: Response)
    requires HeadersOk(r.headers) && Completed(r).Ok?
    ensures HeadersOk(Completed(r).value.headers) && OnlyFramed(r, Completed(r).value)
  {
  }

  lemma CompletedSettles(env: Env, r: Response)
    requires Checked(env, r) && HeadersOk(r.headers) && LengthsSound(r) && Addressable(env, r) && Completed(r).Ok?
    ensures Settled(env, Completed(r).value)
  {
    CompletedChecked(env, r);
    CompletedLength(env, r);
  }

  lemma AttemptSettles(env: Env, r: Response)
    requires HeadersOk(r.headers) && Addressable(env, r) && Attempt(env, r).Ok?
    ensures Settled(env, Attempt(env, r).value) && Addressable(env, Attempt(env, r).value)
  {
    AnnouncedChecked(env, r);
    var announced := Announced(env, r).value;
    FramedSound(env, announced);
    CompletedSettles(env, Framed(announced).value);
  }

  /** Finalising leaves a settled response as it is. */
  lemma SettledIsFixed(env: Env, r: Response)
    requires Settled(env, r)
    ensures Attempt(env, r) == Ok(r)
  {
    if r.trailers.Some? {
      assert Insert(r.headers, Trailer, JoinNames(r.trailers.value.names)) == r.headers;
    }
    assert Announced(env, r) == Ok(r);
    SettledFrames(env, r);
  }

  lemma SettledLength(env: Env, r: Response)
    requires Settled(env, r)
    ensures DeclaredLength(r.headers).Ok? && Normalized(r.headers, DeclaredLength(r.headers).value) == r.headers
    ensures !LengthMismatch(DeclaredLength(r.headers).value, r.body)
    ensures r.trailers.Some? ==> DeclaredLength(r.headers).value.None?
  {
    if ContentLength in r.headers {
      var n: nat :| IsLength(r, n);
      CanonicalLength(n);
      assert Insert(r.headers, ContentLength, ToDecimal(n)) == r.headers;
    }
  }

  lemma SettledFrames(env: Env, r: Response)
    requires Settled(env, r)
    ensures Framed(r) == Ok(r)
  {
    SettledLength(env, r);
    if NoContent(r.status) {
      assert Remove(Remove(r.headers, Trailer), TransferEncoding) == r.headers;
      assert r.status != 304 ==> Remove(r.headers, ContentLength) == r.headers;
    }
  }

  /** Finalising always yields sound framing and settles the response. */
  lemma FinalizeSettles(env: Env, r: Response)
    requires HeadersOk(r.headers) && Addressable(env, r)
    ensures Settled(env, Finalize(env, r)) && Addressable(env, Finalize(env, r))
  {
    match Attempt(env, r) {
      case Ok(_) => AttemptSettles(env, r);
      case Err(e) =>
        FromErrorSucceeds(env, e);
        AttemptSettles(env, FromError(env, e));
    }
  }

  /** No trailer is a field that frames a message or is forbidden otherwise. */
  ghost predicate FramesNothing(fields: Fields) {
    forall i :: 0 <= i < |fields.names| ==>
      fields.names[i].Other? && !IsForbiddenTrailer(Spelling(fields.names[i]))
  }

  lemma GoodTrailersFrameNothing(h: Headers, fields: Fields)
    requires GoodTrailers(h, fields)
    ensures FramesNothing(fields)
  {
    forall i | 0 <= i < |fields.names| ensures fields.names[i].Other? {
      if !fields.names[i].Other? {
        FramingFieldsForbidden(fields.names[i]);
      }
    }
  }

  /** So no finalised response has a trailer that frames it. */
  lemma TrailersFrameNothing(env: Env, r: Response)
    requires HeadersOk(r.headers) && Addressable(env, r)
    ensures var f := Finalize(env, r); f.trailers.Some? ==> FramesNothing(f.trailers.value)
  {
    FinalizeSettles(env, r);
    var f := Finalize(env, r);
    if f.trailers.Some? {
      GoodTrailersFrameNothing(f.headers, f.trailers.value);
    }
  }

  /** Finalising twice is finalising once. */
  lemma FinalizeIdempotent(env: Env, r: Response)
    requires HeadersOk(r.headers) && Addressable(env, r)
    ensures Finalize(env, Finalize(env, r)) == Finalize(env, r)
  {
    FinalizeSettles(env, r);
    SettledIsFixed(env, Finalize(env, r));
  }

  lemma PreparedSettled(env: Env, get: Response)
    requires Settled(env, get) && Addressable(env, get)
    ensures Settled(env, PreparedForHead(get))
    ensures get.trailers.None? ==> PreparedForHead(get).headers == get.headers
    ensures PreparedForHead(get).body == Empty && PreparedForHead(get).trailers.None?
    ensures PreparedForHead(get).status == get.status
    ensures Trailer !in PreparedForHead(get).headers
  {
    PreparedFrame(get);
    PreparedHeaders(env, get);
    PreparedLength(env, get);
    HeadSettled(env, get, PreparedForHead(get));
  }

  /** The headers a HEAD response has. */
  ghost function HeadHeaders(get: Response): Headers {
    var bare := Remove(get.headers, Trailer);
    if ContentLength in get.headers || NoContent(get.status) || !get.body.Bytes? then bare
    else Insert(bare, ContentLength, ToDecimal(|get.body.data|))
  }

  lemma HeadSettled(env: Env, get: Response, head: Response)
    requires Settled(env, get) && head.headers == HeadHeaders(get)
    requires head.status == get.status && head.body == Empty && head.trailers.None? && head.buildError.None?
    requires ContentLength in head.headers ==> exists n: nat :: IsLength(head, n)
    ensures Settled(env, head) && Trailer !in head.headers
    ensures get.trailers.None? ==> head.headers == get.headers
  {
    PreparedChecked(env, get, head);
    assert get.trailers.None? ==> Remove(get.headers, Trailer) == get.headers;
  }

  lemma PreparedFrame(get: Response)
    ensures PreparedForHead(get).body == Empty && PreparedForHead(get).trailers.None?
    ensures PreparedForHead(get).status == get.status
  {
    var bare := get.(trailers := None, headers := Remove(get.headers, Trailer));
    if get.body.Bytes? {
      LengthFrame(bare, |get.body.data|, DeclaredLength(bare.headers));
    }
  }

  lemma LengthFrame(bare: Response, length: nat, declared: Result<Option<nat>, BuildError>)
    ensures var r := WithLength(bare, length, declared);
            r.body == Empty && r.trailers == bare.trailers && r.status == bare.status
  {
  }

  lemma PreparedChecked(env: Env, get: Response, head: Response)
    requires Settled(env, get) && head.status == get.status && head.trailers.None? && head.buildError.None?
    requires head.headers == HeadHeaders(get)
    ensures Checked(env, head) && HeadersOk(head.headers)
  {
    ChecksKept(env, get.headers, head.headers);
  }

  lemma BareLength(h: Headers)
    ensures DeclaredLength(Remove(h, Trailer)) == DeclaredLength(h)
    ensures forall n: nat :: Insert(h, ContentLength, ToDecimal(n)) == h ==>
              Insert(Remove(h, Trailer), ContentLength, ToDecimal(n)) == Remove(h, Trailer)
  {
    forall n: nat | Insert(h, ContentLength, ToDecimal(n)) == h
      ensures Insert(Remove(h, Trailer), ContentLength, ToDecimal(n)) == Remove(h, Trailer)
    {
      assert ContentLength in h && h[ContentLength] == [ToDecimal(n)];
    }
  }

  /** The headers a HEAD response keeps, and the length it may gain. */
  lemma PreparedHeaders(env: Env, get: Response)
    requires Settled(env, get)
    ensures PreparedForHead(get).buildError.None? && PreparedForHead(get).headers == HeadHeaders(get)
  {
    BareLength(get.headers);
    SettledLength(env, get);
    if ContentLength in get.headers {
      var n: nat :| IsLength(get, n);
      CanonicalLength(n);
    }
  }

  lemma PreparedLength(env: Env, get: Response)
    requires Settled(env, get) && Addressable(env, get)
    ensures ContentLength in PreparedForHead(get).headers ==> exists n: nat :: IsLength(PreparedForHead(get), n)
  {
    PreparedFrame(get);
    PreparedHeaders(env, get);
    if ContentLength in get.headers {
      var n: nat :| IsLength(get, n);
      assert IsLength(PreparedForHead(get), n);
    } else if !NoContent(get.status) && get.body.Bytes? {
      assert IsLength(PreparedForHead(get), |get.body.data|);
    }
  }

  /** The trailers of `r` will be sent: it can be finalised, with content, and
      declares no length of its own. */
  ghost predicate Announces(r: Response) {
    && r.trailers.Some? && r.buildError.None? && ValidStatus(r.status) && !NoContent(r.status)
    && GoodTrailers(r.headers, r.trailers.value)
    && DeclaredLength(r.headers) == Ok(None) && TransferEncoding !in r.headers
    && (ContentType in r.headers || IsVisible(r.contentType))
  }

  /** Framing a response with content and trailers only checks it. */
  lemma FramedAnnounced(r: Response)
    requires r.trailers.Some? && !NoContent(r.status)
    ensures Framed(r) == Ok(r) || Framed(r).Err?
    ensures Framed(r).Ok? <==> DeclaredLength(r.headers) == Ok(None) && TransferEncoding !in r.headers
  {
  }

  lemma AnnouncedHeaders(h: Headers, value: string)
    ensures var g := Insert(h, Trailer, value);
            && DeclaredLength(g) == DeclaredLength(h) && (TransferEncoding in g <==> TransferEncoding in h)
            && (ContentType in g <==> ContentType in h)
  {
    assert Values(Insert(h, Trailer, value), ContentLength) == Values(h, ContentLength);
  }

  lemma NoContentTrailers(env: Env, r: Response)
    requires (r.trailers.None? || NoContent(r.status)) && Attempt(env, r).Ok?
    ensures Attempt(env, r).value.trailers.None?
  {
  }

  lemma AttemptTrailers(env: Env, r: Response)
    ensures Attempt(env, r).Ok? && Attempt(env, r).value.trailers.Some? <==> Announces(r)
  {
    if r.trailers.None? || NoContent(r.status) {
      if Attempt(env, r).Ok? {
        NoContentTrailers(env, r);
      }
    } else {
      var value := JoinNames(r.trailers.value.names);
      AnnouncedHeaders(r.headers, value);
      FramedAnnounced(r.(headers := Insert(r.headers, Trailer, value)));
    }
  }

  /** What is sent has trailers if and only if the response given announces them. */
  lemma TrailersSentIff(env: Env, r: Response)
    ensures Finalize(env, r).trailers.Some? <==> Announces(r)
  {
    AttemptTrailers(env, r);
    if Attempt(env, r).Err? {
      var failure := FromError(env, Attempt(env, r).error);
      FromErrorSucceeds(env, Attempt(env, r).error);
      AttemptTrailers(env, failure);
    }
  }

  /** A HEAD response never has a body or trailers, has the status of the GET
      response, and has its headers if and only if no trailers are announced. */
  lemma HeadMatchesGet(env: Env, r: Response)
    requires HeadersOk(r.headers) && Addressable(env, r)
    ensures var get, head := Sent(env, r, false), Sent(env, r, true);
            && head.body == Empty && head.trailers.None? && head.status == get.status
            && SoundFraming(head)
            && (head.headers == get.headers <==> !Announces(r))
            && (get.trailers.Some? <==> Announces(r))
  {
    FinalizeSettles(env, r);
    TrailersSentIff(env, r);
    var get := Finalize(env, r);
    PreparedSettled(env, get);
    SettledIsFixed(env, PreparedForHead(get));
  }

  lemma OneLetterAllowed(name: string)
    requires |name| == 1
    ensures !IsForbiddenTrailer(name)
  {
    assert |"access-control-"| == 15 && |"cross-origin-"| == 13 && |"proxy-"| == 6 && |"sec-websocket-"| == 14;
  }

  /** The smallest difference: a GET response with one trailer, whose HEAD form
      has no Trailer field. */
  lemma TrailerMissesHead(env: Env)
    requires |env.problem| <= U64_MAX
    ensures var trailers := Some(Fields([Other("x")], map[]));
            var r := Response(200, "text/plain", map[], Stream(0), trailers, None, None, false);
            Trailer in Sent(env, r, false).headers && Trailer !in Sent(env, r, true).headers
  {
    var fields := Fields([Other("x")], map[]);
    var r := Response(200, "text/plain", map[], Stream(0), Some(fields), None, None, false);
    OneLetterAllowed("x");
    assert GoodTrailers(r.headers, fields) by {
      assert Spelling(fields.names[0]) == "x" && Values(r.headers, Connection) == [];
    }
    var announced := Announced(env, r).value;
    assert announced.headers == map[Trailer := [JoinNames(fields.names)]];
    assert Framed(announced) == Ok(announced);
    assert Attempt(env, r).Ok? && Attempt(env, r).value.trailers.Some?;
    HeadMatchesGet(env, r);
    FinalizeSettles(env, r);
    PreparedSettled(env, Finalize(env, r));
    SettledIsFixed(env, PreparedForHead(Finalize(env, r)));
  }

  /** No field of a sent response is spelt as the one that would frame it twice. */
  lemma NoTransferEncodingSent(env: Env, r: Response, isHead: bool, name: Name)
    requires HeadersOk(r.headers) && Addressable(env, r) && name in Sent(env, r, isHead).headers
    ensures Spelling(name) != "transfer-encoding"
  {
    HeadMatchesGet(env, r);
    FinalizeSettles(env, r);
    if Spelling(name) == Spelling(TransferEncoding) {
      SpellingIsName(name, TransferEncoding);
    }
  }
}
