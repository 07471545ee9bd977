/** The response as the object that finalising edits in place (src/app/response.rs). */
module Responses {
  import opened Basics
  import opened Text
  import F = Finalization
  import opened Finalization

  /** The inner loop of `parse_content_length`. */
  method ScanOneValue(value: string, seen: Option<nat>) returns (r: Result<Option<nat>, BuildError>)
    ensures r == ScanCandidates(Split(value, ','), seen)
  {
    var candidates := Split(value, ',');
    var parsed := seen;
    for i := 0 to |candidates|
      invariant ScanCandidates(candidates, seen) == ScanCandidates(candidates[i..], parsed)
    {
      assert candidates[i..][0] == candidates[i] && candidates[i..][1..] == candidates[i + 1..];
      var length := CandidateLength(candidates[i]);
      if length.Err? {
        return Err(length.error);
      }
      if parsed.Some? && parsed.value != length.value {
        return Err(ConflictingContentLength);
      }
      parsed := Some(length.value);
    }
    return Ok(parsed);
  }

  /** The outer loop of `parse_content_length`. */
  method ScanAllValues(values: seq<string>) returns (r: Result<Option<nat>, BuildError>)
    ensures r == ScanValues(values, None)
  {
    var parsed: Option<nat> := None;
    for i := 0 to |values|
      invariant ScanValues(values, None) == ScanValues(values[i..], parsed)
    {
      assert values[i..][0] == values[i] && values[i..][1..] == values[i + 1..];
      if !IsVisible(values[i]) {
        return Err(InvalidContentLength);
      }
      var scanned := ScanOneValue(values[i], parsed);
      if scanned.Err? {
        return scanned;
      }
      parsed := scanned.value;
    }
    return Ok(parsed);
  }

  class HttpResponse {
    var status: nat
    var contentType: string
    var headers: Headers
    var body: F.Body
    var trailers: Option<Fields>
    var error: Option<BuildError>
    var buildError: Option<BuildError>
    var upgradeAuthorized: bool

    ghost function View(): Response
      reads this
    {
      Response(status, contentType, headers, body, trailers, error, buildError, upgradeAuthorized)
    }

    /** `from_error` for a build failure. */
    constructor FromError(env: Env, e: BuildError)
      ensures View() == F.FromError(env, e)
    {
      status, contentType, headers, body := 500, "application/problem+json", map[], Bytes(env.problem);
      trailers, error, buildError, upgradeAuthorized := None, Some(e), None, false;
    }

    method ParseContentLength() returns (r: Result<Option<nat>, BuildError>)
      modifies this`headers
      ensures r == DeclaredLength(old(headers))
      ensures headers == if r.Ok? then Normalized(old(headers), r.value) else old(headers)
    {
      r := ScanAllValues(Values(headers, ContentLength));
      if r.Ok? && r.value.Some? {
        headers := Insert(headers, ContentLength, ToDecimal(r.value.value));
      }
    }

    method FinalizeFraming() returns (e: Option<BuildError>)
      modifies this`headers, this`body, this`trailers
      ensures match Framed(old(View())) case Ok(framed) => e.None? && View() == framed case Err(why) => e == Some(why)
    {
      var parsed := ParseContentLength();
      if parsed.Err? {
        return Some(parsed.error);
      }
      if TransferEncoding in headers {
        return Some(ExplicitTransferEncoding);
      }
      if parsed.value.Some? && trailers.Some? {
        return Some(ContentLengthWithTrailers);
      }
      if status == 304 && LengthMismatch(parsed.value, body) {
        return Some(ContentLengthMismatch);
      }
      if NoContent(status) {
        body, trailers := Empty, None;
        headers := Remove(Remove(headers, Trailer), TransferEncoding);
        if status != 304 {
          headers := Remove(headers, ContentLength);
        }
        return None;
      }
      if LengthMismatch(parsed.value, body) {
        return Some(ContentLengthMismatch);
      }
      return None;
    }

    /** The checks at the start of `finalize`. */
    method Announce(env: Env) returns (e: Option<BuildError>)
      modifies this`headers, this`buildError
      ensures match Announced(env, old(View())) case Ok(a) => e.None? && View() == a case Err(why) => e == Some(why)
    {
      if buildError.Some? {
        e := buildError;
        buildError := None;
        return;
      }
      if !ValidStatus(status) {
        return Some(InvalidStatus);
      }
      if Informational(status) && status != 101 {
        return Some(InterimStatus);
      }
      if status == 101 && !ValidSwitch(env, headers) {
        return Some(InvalidSwitchingProtocols);
      }
      if trailers.Some? {
        if !GoodTrailers(headers, trailers.value) {
          return Some(InvalidTrailerName);
        }
        headers := Insert(headers, Trailer, JoinNames(trailers.value.names));
      } else if Trailer in headers {
        return Some(TrailerWithoutFields);
      }
      return None;
    }

    /** The fields added at the end of `finalize`. */
    method Complete() returns (e: Option<BuildError>)
      modifies this`headers
      ensures match Completed(old(View())) case Ok(c) => e.None? && View() == c case Err(why) => e == Some(why)
    {
      if !NoContent(status) && ContentType !in headers {
        if !IsVisible(contentType) {
          return Some(InvalidHeaderValue);
        }
        headers := Insert(headers, ContentType, contentType);
      }
      if !NoContent(status) && ContentLength !in headers && trailers.None? && body.Bytes? {
        headers := Insert(headers, ContentLength, ToDecimal(|body.data|));
      }
      return None;
    }

    /** `finalize` without the replacement of a failed response. */
    method TryFinalize(env: Env) returns (e: Option<BuildError>)
      modifies this
      ensures match Attempt(env, old(View()))
              case Ok(final) => e.None? && View() == final
              case Err(why) => e == Some(why)
    {
      e := Announce(env);
      if e.None? {
        e := FinalizeFraming();
      }
      if e.None? {
        e := Complete();
      }
    }

    /** `finalize`: this response, or a fresh finalised error response. */
    method FinalizeResponse(env: Env) returns (r: HttpResponse)
      modifies this
      ensures r == this || fresh(r)
      ensures r.View() == Finalize(env, old(View()))
    {
      var e := TryFinalize(env);
      if e.None? {
        return this;
      }
      FromErrorSucceeds(env, e.value);
      r := new HttpResponse.FromError(env, e.value);
      var again := r.TryFinalize(env);
    }

    method RecordBuildError(e: BuildError)
      modifies this`buildError
      ensures View() == Recorded(old(View()), e)
    {
      if buildError.None? {
        buildError := Some(e);
      }
    }

    method PrepareForHead()
      modifies this
      ensures View() == PreparedForHead(old(View()))
    {
      trailers := None;
      headers := Remove(headers, Trailer);
      if !ValidStatus(status) || NoContent(status) {
        body := Empty;
        return;
      }
      if body.Bytes? {
        var actual := |body.data|;
        var parsed := ParseContentLength();
        match parsed {
          case Ok(Some(declared)) =>
            if declared != actual {
              RecordBuildError(ContentLengthMismatch);
            }
          case Ok(None) =>
            headers := Insert(headers, ContentLength, ToDecimal(actual));
          case Err(e) =>
            RecordBuildError(e);
        }
      }
      body := Empty;
    }
  }

  /** The end of `run_request`: one settled response, whatever the handler built. */
  method SendResponse(env: Env, response: HttpResponse, isHead: bool) returns (r: HttpResponse)
    requires HeadersOk(response.headers) && Addressable(env, response.View())
    modifies response
    ensures r.View() == Sent(env, old(response.View()), isHead)
    ensures SoundFraming(r.View()) && (isHead ==> r.body == Empty)
  {
    ghost var before := response.View();
    FinalizeSettles(env, before);
    HeadMatchesGet(env, before);
    r := response.FinalizeResponse(env);
    if isHead {
      r.PrepareForHead();
      r := r.FinalizeResponse(env);
    }
  }
}
