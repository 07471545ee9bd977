/**
 URL generation for named routes and the decoding of request paths: what
 `build_url` prints, routing reads back (src/app/router.rs, section 2.1 of RFC 3986).
 */
module Urls {
  import opened Basics
  import opened Text
  import opened Segments
  import opened Patterns

  datatype PathError = InvalidPathEncoding | TooManyPathSegments

  // ---------------------------------------------------------- request paths

  function DecodeAll(raws: seq<string>): Option<seq<string>> {
    if raws == [] then Some([])
    else
      var first := DecodeSegment(raws[0]);
      var rest := DecodeAll(raws[1..]);
      if first.None? || rest.None? then None else Some([first.value] + rest.value)
  }

  /** `decode_path_segments`. */
  function DecodePath(path: string): Result<seq<string>, PathError> {
    var raws := PathSegments(path);
    if |raws| > MAX_PATH_SEGMENTS then Err(TooManyPathSegments)
    else
      var decoded := DecodeAll(raws);
      if decoded.None? then Err(InvalidPathEncoding) else Ok(decoded.value)
  }

  // ------------------------------------------------------------- build_url

  ghost predicate ParamBytes(params: Params) {
    forall k :: k in params ==> IsBytes(params[k])
  }

  predicate HasValue(segment: Segment, params: Params) {
    segment.Static? || segment.name in params
  }

  ghost predicate Supplied(segments: seq<Segment>, params: Params) {
    forall i :: 0 <= i < |segments| ==> HasValue(segments[i], params)
  }

  /** The non-empty slash-separated pieces of a wildcard value. */
  function Pieces(value: string): seq<string> {
    NonEmpty(Split(value, '/'))
  }

  function EncodeAll(parts: seq<string>): seq<string>
    requires forall i :: 0 <= i < |parts| ==> IsBytes(parts[i])
  {
    if parts == [] then [] else [Encode(parts[0])] + EncodeAll(parts[1..])
  }

  lemma PiecesShape(value: string)
    requires IsBytes(value)
    ensures forall i :: 0 <= i < |Pieces(value)| ==>
              IsBytes(Pieces(value)[i]) && Pieces(value)[i] != "" && Free('/', Pieces(value)[i])
  {
    SplitPieces(value, '/');
    NonEmptyIsNonEmpty(Split(value, '/'));
  }

  /** A segment with text in it. */
  ghost predicate Ready(segment: Segment, params: Params) {
    ParamBytes(params) && HasValue(segment, params) && (segment.Static? ==> IsBytes(segment.text))
  }

  /** What one segment adds to the URL after its slash. */
  function UrlSegment(segment: Segment, params: Params): string
    requires Ready(segment, params)
  {
    match segment
    case Static(text) => Encode(text)
    case Param(name) => Encode(params[name])
    case Wildcard(name) => PiecesShape(params[name]); JoinSlash(EncodeAll(Pieces(params[name])))
  }

  ghost predicate AllReady(segments: seq<Segment>, params: Params) {
    forall i :: 0 <= i < |segments| ==> Ready(segments[i], params)
  }

  function Url(segments: seq<Segment>, params: Params): string
    requires AllReady(segments, params)
  {
    if segments == [] then "" else "/" + UrlSegment(segments[0], params) + Url(segments[1..], params)
  }

  /** A `:name` segment given the empty value, which would vanish from the path. */
  predicate EmptyParam(segment: Segment, params: Params) {
    segment.Param? && segment.name in params && params[segment.name] == ""
  }

  ghost predicate NoEmptyParam(segments: seq<Segment>, params: Params) {
    forall i :: 0 <= i < |segments| ==> !EmptyParam(segments[i], params)
  }

  ghost predicate AllNamed(pattern: Pattern, params: Params) {
    forall name :: name in pattern.names ==> name in params
  }

  ghost predicate NoneExtra(pattern: Pattern, params: Params) {
    forall key :: key in params ==> key in pattern.names
  }

  /** The parameter sets `build_url` accepts. */
  ghost predicate Accepted(pattern: Pattern, params: Params) {
    AllNamed(pattern, params) && NoneExtra(pattern, params) && NoEmptyParam(pattern.segments, params)
  }

  lemma NamesReady(pattern: Pattern, params: Params)
    requires WellFormed(pattern) && ParamBytes(params) && AllNamed(pattern, params)
    ensures AllReady(pattern.segments, params)
  {
    var segments := pattern.segments;
    ValidateIffGoodShape(segments);
    forall i | 0 <= i < |segments| ensures Ready(segments[i], params) {
      if !segments[i].Static? {
        NamesOfMember(segments, |segments|, segments[i].name);
        assert SegmentName(segments[i]) == Some(segments[i].name);
      }
    }
  }

  /** `build_url`, on parameters already collected into a map. */
  method BuildUrl(pattern: Pattern, params: Params) returns (r: Result<string, RouteError>)
    requires WellFormed(pattern) && ParamBytes(params)
    ensures r.Ok? <==> Accepted(pattern, params)
    ensures r.Err? ==>
              (r.error == UnexpectedUrlParameter <==> AllNamed(pattern, params) && !NoneExtra(pattern, params))
    ensures r.Err? ==> r.error in {UnexpectedUrlParameter, MissingUrlParameter}
    ensures r.Ok? ==> AllReady(pattern.segments, params)
                      && r.value == (if pattern.segments == [] then "/" else Url(pattern.segments, params))
  {
    var names := set name | name in pattern.names;
    if !(names <= params.Keys) {
      return Err(MissingUrlParameter);
    }
    if !(params.Keys <= names) {
      assert exists key :: key in params.Keys && key !in names;
      return Err(UnexpectedUrlParameter);
    }
    NamesReady(pattern, params);
    if pattern.segments == [] {
      return Ok("/");
    }
    var out := UrlLoop(pattern.segments, params);
    return match out case None => Err(MissingUrlParameter) case Some(url) => Ok(url);
  }

  lemma UrlStep(out: string, segments: seq<Segment>, params: Params)
    requires segments != [] && AllReady(segments, params)
    ensures out + Url(segments, params) == out + "/" + UrlSegment(segments[0], params) + Url(segments[1..], params)
  {
  }

  /** The loop of `build_url`. */
  method UrlLoop(segments: seq<Segment>, params: Params) returns (r: Option<string>)
    requires AllReady(segments, params)
    ensures r.Some? <==> NoEmptyParam(segments, params)
    ensures r.Some? ==> r.value == Url(segments, params)
  {
    var out := "";
    for i := 0 to |segments|
      invariant out + Url(segments[i..], params) == Url(segments, params)
      invariant forall k :: 0 <= k < i ==> !EmptyParam(segments[k], params)
    {
      var segment := segments[i];
      assert segments[i..][0] == segment && segments[i..][1..] == segments[i + 1..];
      if EmptyParam(segment, params) {
        return None;
      }
      UrlStep(out, segments[i..], params);
      out := out + "/" + UrlSegment(segment, params);
    }
    assert segments[|segments|..] == [];
    return Some(out);
  }

  // ---------------------------------------------------------- reading it back

  /** The decoded path segments one pattern segment stands for. */
  function TargetsOf(segment: Segment, params: Params): seq<string>
    requires HasValue(segment, params)
  {
    match segment
    case Static(text) => [text]
    case Param(name) => [params[name]]
    case Wildcard(name) => Pieces(params[name])
  }

  /** The decoded path a URL stands for. */
  function Targets(segments: seq<Segment>, params: Params): seq<string>
    requires Supplied(segments, params)
  {
    if segments == [] then [] else TargetsOf(segments[0], params) + Targets(segments[1..], params)
  }

  /** The captures routing must report. */
  function Expected(segments: seq<Segment>, params: Params): Params
    requires Supplied(segments, params)
  {
    if segments == [] then map[]
    else
      match segments[0]
      case Static(_) => Expected(segments[1..], params)
      case Param(name) => map[name := params[name]] + Expected(segments[1..], params)
      case Wildcard(name) => map[name := JoinSlash(Pieces(params[name]))] + Expected(segments[1..], params)
  }

  /** A segment whose URL can be read back: some text in it. */
  ghost predicate PrintableAt(segment: Segment, params: Params) {
    && Ready(segment, params)
    && (segment.Static? ==> IsStaticText(segment.text))
    && !EmptyParam(segment, params)
  }

  ghost predicate Printable(segments: seq<Segment>, params: Params) {
    && (forall i :: 0 <= i < |segments| ==> PrintableAt(segments[i], params))
    && (forall i :: 0 <= i < |segments| - 1 ==> !segments[i].Wildcard?)
  }

  lemma {:induction false} TargetsMatch(segments: seq<Segment>, params: Params)
    requires Printable(segments, params)
    ensures Matches(segments, Targets(segments, params))
  {
    if segments != [] && !segments[0].Wildcard? {
      TargetsMatch(segments[1..], params);
      assert PrintableAt(segments[0], params);
      assert Targets(segments, params)[1..] == Targets(segments[1..], params);
    }
  }

  lemma MapShift(acc: Params, name: string, value: string, rest: Params)
    ensures acc[name := value] + rest == acc + (map[name := value] + rest)
  {
  }

  lemma TargetsTail(segments: seq<Segment>, params: Params)
    requires segments != [] && !segments[0].Wildcard? && Supplied(segments, params)
    ensures |Targets(segments, params)| > 0
    ensures Targets(segments, params)[0] == if segments[0].Static? then segments[0].text else params[segments[0].name]
    ensures Targets(segments, params)[1..] == Targets(segments[1..], params)
  {
  }

  lemma {:induction false} TargetsCaptured(segments: seq<Segment>, params: Params, acc: Params)
    requires Printable(segments, params) && Matches(segments, Targets(segments, params))
    ensures Captures(segments, Targets(segments, params), acc) == acc + Expected(segments, params)
  {
    if segments != [] {
      assert PrintableAt(segments[0], params);
      var rest := Expected(segments[1..], params);
      match segments[0] {
        case Static(text) =>
          TargetsTail(segments, params);
          TargetsCaptured(segments[1..], params, acc);
        case Param(name) =>
          TargetsTail(segments, params);
          TargetsCaptured(segments[1..], params, acc[name := params[name]]);
          MapShift(acc, name, params[name], rest);
        case Wildcard(name) =>
          assert segments[1..] == [];
          assert Targets(segments, params) == Pieces(params[name]);
      }
    }
  }

  /** The parts between the slashes that one segment prints. */
  function PartsOf(segment: Segment, params: Params): seq<string>
    requires Ready(segment, params)
  {
    match segment
    case Static(text) => [Encode(text)]
    case Param(name) => [Encode(params[name])]
    case Wildcard(name) =>
      PiecesShape(params[name]);
      if Pieces(params[name]) == [] then [""] else EncodeAll(Pieces(params[name]))
  }

  function UrlParts(segments: seq<Segment>, params: Params): seq<string>
    requires AllReady(segments, params)
  {
    if segments == [] then [] else PartsOf(segments[0], params) + UrlParts(segments[1..], params)
  }

  ghost predicate AllBytes(parts: seq<string>) {
    forall i :: 0 <= i < |parts| ==> IsBytes(parts[i])
  }

  lemma {:induction false} EncodeAllAt(parts: seq<string>)
    requires AllBytes(parts)
    ensures |EncodeAll(parts)| == |parts|
    ensures forall i :: 0 <= i < |parts| ==> EncodeAll(parts)[i] == Encode(parts[i]) && Free('/', EncodeAll(parts)[i])
    ensures (forall i :: 0 <= i < |parts| ==> parts[i] != "") ==>
              forall i :: 0 <= i < |parts| ==> EncodeAll(parts)[i] != ""
  {
    if parts != [] {
      EncodeAllAt(parts[1..]);
      EncodeShape(parts[0]);
    }
  }

  /** Slashed pieces are a slash before the pieces joined by slashes. */
  lemma {:induction false} SlashedJoin(parts: seq<string>)
    requires parts != []
    ensures Slashed(parts) == "/" + JoinSlash(parts)
  {
    if |parts| > 1 {
      SlashedJoin(parts[1..]);
    } else {
      assert parts[1..] == [];
    }
  }

  lemma PartsOfSegment(segment: Segment, params: Params)
    requires PrintableAt(segment, params)
    ensures Slashed(PartsOf(segment, params)) == "/" + UrlSegment(segment, params)
    ensures forall i :: 0 <= i < |PartsOf(segment, params)| ==> Free('/', PartsOf(segment, params)[i])
    ensures AllBytes(TargetsOf(segment, params))
    ensures NonEmpty(PartsOf(segment, params)) == EncodeAll(TargetsOf(segment, params))
  {
    var parts := PartsOf(segment, params);
    SlashedJoin(parts);
    match segment {
      case Static(text) =>
        EncodeShape(text);
        NonEmptyKeeps(parts);
      case Param(name) =>
        EncodeShape(params[name]);
        NonEmptyKeeps(parts);
      case Wildcard(name) =>
        PiecesShape(params[name]);
        EncodeAllAt(Pieces(params[name]));
        if Pieces(params[name]) == [] {
          assert NonEmpty([""]) == [];
        } else {
          NonEmptyKeeps(parts);
        }
    }
  }

  lemma {:induction false} EncodeAllConcat(a: seq<string>, b: seq<string>)
    requires AllBytes(a) && AllBytes(b)
    ensures AllBytes(a + b)
    ensures EncodeAll(a + b) == EncodeAll(a) + EncodeAll(b)
  {
    if a == [] {
      assert a + b == b;
    } else {
      EncodeAllConcat(a[1..], b);
      assert (a + b)[1..] == a[1..] + b;
    }
  }

  /** A URL is its slashed parts, and its non-empty parts are the encoded targets. */
  lemma {:induction false} UrlIsSlashed(segments: seq<Segment>, params: Params)
    requires Printable(segments, params)
    ensures AllReady(segments, params)
    ensures Url(segments, params) == Slashed(UrlParts(segments, params))
    ensures forall i :: 0 <= i < |UrlParts(segments, params)| ==> Free('/', UrlParts(segments, params)[i])
    ensures AllBytes(Targets(segments, params))
    ensures NonEmpty(UrlParts(segments, params)) == EncodeAll(Targets(segments, params))
  {
    if segments != [] {
      UrlIsSlashed(segments[1..], params);
      PartsOfSegment(segments[0], params);
      SlashedConcat(PartsOf(segments[0], params), UrlParts(segments[1..], params));
      NonEmptyConcat(PartsOf(segments[0], params), UrlParts(segments[1..], params));
      EncodeAllConcat(TargetsOf(segments[0], params), Targets(segments[1..], params));
    }
  }

  /** Encoded segments decode to themselves exactly when they are clean text. */
  lemma {:induction false} DecodeAllEncoded(parts: seq<string>)
    requires AllBytes(parts) && forall i :: 0 <= i < |parts| ==> ValidUtf8(parts[i])
    ensures DecodeAll(EncodeAll(parts)).Some? <==> forall i :: 0 <= i < |parts| ==> !HasControl(parts[i])
    ensures DecodeAll(EncodeAll(parts)).Some? ==> DecodeAll(EncodeAll(parts)).value == parts
  {
    if parts != [] {
      DecodeEncode(parts[0]);
      DecodeAllEncoded(parts[1..]);
      assert parts == [parts[0]] + parts[1..];
    }
  }

  // -------------------------------------------------------- the round trip

  ghost predicate Clean(parts: seq<string>) {
    forall i :: 0 <= i < |parts| ==> !HasControl(parts[i])
  }

  ghost predicate AllUtf8(parts: seq<string>) {
    forall i :: 0 <= i < |parts| ==> ValidUtf8(parts[i])
  }

  /** The front of the text up to the first slash, and the pieces of the rest. */
  lemma {:induction false} SplitStep(s: string) returns (head: string, tail: string)
    requires '/' in s
    ensures s == head + ['/'] + tail && Free('/', head)
  {
    if s[0] == '/' {
      head, tail := "", s[1..];
    } else {
      var h, t := SplitStep(s[1..]);
      head, tail := [s[0]] + h, t;
    }
  }

  /** Splitting at slashes keeps well-formed text well formed, and hides no control character. */
  lemma {:induction false} SplitText(s: string)
    ensures ValidUtf8(s) ==> AllUtf8(Split(s, '/'))
    ensures Clean(Split(s, '/')) <==> !HasControl(s)
    decreases |s|
  {
    if '/' in s {
      var head, tail := SplitStep(s);
      SplitFirst(head, '/', tail);
      SplitText(tail);
      ControlConcat(head, '/', tail);
      if ValidUtf8(s) {
        Utf8SplitAt(head, '/', tail);
      }
      var rest := Split(tail, '/');
      CleanConcat([head], rest);
      assert [head][0] == head;
    } else {
      SplitFree(s, '/');
      assert [s][0] == s;
    }
  }

  lemma {:induction false} NonEmptyText(pieces: seq<string>)
    ensures AllUtf8(pieces) ==> AllUtf8(NonEmpty(pieces))
    ensures Clean(NonEmpty(pieces)) <==> Clean(pieces)
  {
    if pieces != [] {
      NonEmptyText(pieces[1..]);
      var kept := if pieces[0] == "" then [] else [pieces[0]];
      assert NonEmpty(pieces) == kept + NonEmpty(pieces[1..]);
      assert pieces == [pieces[0]] + pieces[1..];
      assert Clean(kept) <==> !HasControl(pieces[0]);
      CleanConcat(kept, NonEmpty(pieces[1..]));
      CleanConcat([pieces[0]], pieces[1..]);
    }
  }

  lemma CleanConcat(a: seq<string>, b: seq<string>)
    ensures Clean(a + b) <==> Clean(a) && Clean(b)
  {
    assert forall i :: 0 <= i < |a| ==> (a + b)[i] == a[i];
    assert forall i :: 0 <= i < |b| ==> (a + b)[|a| + i] == b[i];
  }

  ghost predicate ValueClean(segment: Segment, params: Params)
    requires HasValue(segment, params)
  {
    segment.Static? || !HasControl(params[segment.name])
  }

  lemma TargetsOfText(segment: Segment, params: Params)
    requires PrintableAt(segment, params) && (!segment.Static? ==> ValidUtf8(params[segment.name]))
    ensures AllUtf8(TargetsOf(segment, params))
    ensures Clean(TargetsOf(segment, params)) <==> ValueClean(segment, params)
  {
    if segment.Wildcard? {
      SplitText(params[segment.name]);
      NonEmptyText(Split(params[segment.name], '/'));
    } else {
      assert TargetsOf(segment, params)[0] == if segment.Static? then segment.text else params[segment.name];
    }
  }

  lemma {:induction false} TargetsText(segments: seq<Segment>, params: Params)
    requires Printable(segments, params)
    requires forall i :: 0 <= i < |segments| && !segments[i].Static? ==> ValidUtf8(params[segments[i].name])
    ensures AllUtf8(Targets(segments, params))
    ensures Clean(Targets(segments, params)) <==> forall i :: 0 <= i < |segments| ==> ValueClean(segments[i], params)
  {
    if segments != [] {
      TargetsText(segments[1..], params);
      TargetsOfText(segments[0], params);
      CleanConcat(TargetsOf(segments[0], params), Targets(segments[1..], params));
      assert segments == [segments[0]] + segments[1..];
      assert forall i :: 0 <= i < |segments| - 1 ==> segments[1..][i] == segments[i + 1];
    }
  }

  /** A parameter value as a Rust string: well-formed UTF-8. */
  ghost predicate TextParams(params: Params) {
    ParamBytes(params) && forall k :: k in params ==> ValidUtf8(params[k])
  }

  ghost predicate CleanParams(params: Params) {
    forall k :: k in params ==> !HasControl(params[k])
  }

  /** A value as routing reports it: only a wildcard value loses its empty pieces. */
  function Reported(pattern: Pattern, name: string, value: string): string {
    if Wildcard(name) in pattern.segments then JoinSlash(Pieces(value)) else value
  }

  lemma {:induction false} ExpectedIsReported(pattern: Pattern, segments: seq<Segment>, params: Params)
    requires Supplied(segments, params) && UniqueNames(pattern.segments)
    requires forall s :: s in segments ==> s in pattern.segments
    ensures forall name :: name in Expected(segments, params) <==>
                           exists s :: s in segments && SegmentName(s) == Some(name)
    ensures forall name :: name in Expected(segments, params) ==>
              name in params && Expected(segments, params)[name] == Reported(pattern, name, params[name])
  {
    if segments != [] {
      ExpectedIsReported(pattern, segments[1..], params);
      assert segments == [segments[0]] + segments[1..];
      assert SegmentName(segments[0]) == if segments[0].Static? then None else Some(segments[0].name);
      if segments[0].Param? {
        var name := segments[0].name;
        assert segments[0] in segments;
        assert Wildcard(name) !in pattern.segments;
      }
    }
  }

  /** For every accepted parameter set, the URL routes back to its pattern if
      and only if the values are free of control characters and the path has
      at most 256 segments; and then the captures are the given parameters,
      a wildcard value without its empty pieces. */
  lemma UrlRoundTrip(pattern: Pattern, params: Params, url: string)
    requires WellFormed(pattern) && TextParams(params) && Accepted(pattern, params)
    requires AllReady(pattern.segments, params)
    requires url == if pattern.segments == [] then "/" else Url(pattern.segments, params)
    ensures DecodePath(url).Ok? <==> |PathSegments(url)| <= MAX_PATH_SEGMENTS && CleanParams(params)
    ensures DecodePath(url).Ok? ==>
              && Matches(pattern.segments, DecodePath(url).value)
              && Captures(pattern.segments, DecodePath(url).value, map[])
                 == map name | name in params :: Reported(pattern, name, params[name])
  {
    UrlDecodes(pattern, params, url);
    TargetsMatch(pattern.segments, params);
    TargetsCaptured(pattern.segments, params, map[]);
    ExpectedAll(pattern, params);
  }

  /** A URL decodes to its targets, exactly when it is clean and short enough. */
  lemma UrlDecodes(pattern: Pattern, params: Params, url: string)
    requires WellFormed(pattern) && TextParams(params) && Accepted(pattern, params)
    requires AllReady(pattern.segments, params)
    requires url == if pattern.segments == [] then "/" else Url(pattern.segments, params)
    ensures Printable(pattern.segments, params)
    ensures DecodePath(url).Ok? <==> |PathSegments(url)| <= MAX_PATH_SEGMENTS && CleanParams(params)
    ensures DecodePath(url).Ok? ==> DecodePath(url).value == Targets(pattern.segments, params)
  {
    var segments := pattern.segments;
    PrintableIfAccepted(pattern, params);
    UrlIsSlashed(segments, params);
    UrlSegments(segments, params, url);
    TargetsText(segments, params);
    DecodeAllEncoded(Targets(segments, params));
    ValuesCleanIff(pattern, params);
  }

  lemma PrintableIfAccepted(pattern: Pattern, params: Params)
    requires WellFormed(pattern) && Accepted(pattern, params) && AllReady(pattern.segments, params)
    ensures Printable(pattern.segments, params)
  {
    ValidateIffGoodShape(pattern.segments);
  }

  lemma ExpectedAll(pattern: Pattern, params: Params)
    requires WellFormed(pattern) && Accepted(pattern, params) && Supplied(pattern.segments, params)
    ensures map[] + Expected(pattern.segments, params)
         == map name | name in params :: Reported(pattern, name, params[name])
  {
    var expected := Expected(pattern.segments, params);
    forall name ensures name in expected <==> name in params {
      ExpectedAt(pattern, params, name);
    }
    forall name | name in params ensures expected[name] == Reported(pattern, name, params[name]) {
      ExpectedAt(pattern, params, name);
    }
    assert map[] + expected == expected;
  }

  lemma ExpectedAt(pattern: Pattern, params: Params, name: string)
    requires WellFormed(pattern) && Accepted(pattern, params) && Supplied(pattern.segments, params)
    ensures var expected := Expected(pattern.segments, params);
            (name in expected <==> name in params)
            && (name in params ==> expected[name] == Reported(pattern, name, params[name]))
  {
    ValidateIffGoodShape(pattern.segments);
    ExpectedIsReported(pattern, pattern.segments, params);
    if name in params {
      NamedSomewhere(pattern, name);
    }
  }

  lemma NamedSomewhere(pattern: Pattern, name: string)
    requires WellFormed(pattern) && name in pattern.names
    ensures exists s :: s in pattern.segments && SegmentName(s) == Some(name)
  {
    var segments := pattern.segments;
    ValidateIffGoodShape(segments);
    NamesOfMember(segments, |segments|, name);
    var i :| 0 <= i < |segments| && SegmentName(segments[i]) == Some(name);
    assert segments[i] in segments;
  }

  lemma UrlSegments(segments: seq<Segment>, params: Params, url: string)
    requires Printable(segments, params) && AllReady(segments, params) && AllBytes(Targets(segments, params))
    requires url == if segments == [] then "/" else Url(segments, params)
    ensures PathSegments(url) == EncodeAll(Targets(segments, params))
  {
    UrlIsSlashed(segments, params);
    if segments == [] {
      assert Slashed([""]) == "/";
      SlashedSegments([""]);
      assert NonEmpty([""]) == [];
    } else {
      SlashedSegments(UrlParts(segments, params));
    }
  }

  lemma ValuesCleanIff(pattern: Pattern, params: Params)
    requires WellFormed(pattern) && Accepted(pattern, params) && Supplied(pattern.segments, params)
    ensures (forall i :: 0 <= i < |pattern.segments| ==> ValueClean(pattern.segments[i], params))
       <==> CleanParams(params)
  {
    var segments := pattern.segments;
    ValidateIffGoodShape(segments);
    if forall i :: 0 <= i < |segments| ==> ValueClean(segments[i], params) {
      forall k | k in params ensures !HasControl(params[k]) {
        NamesOfMember(segments, |segments|, k);
        var i :| 0 <= i < |segments| && SegmentName(segments[i]) == Some(k);
        assert ValueClean(segments[i], params);
      }
    }
  }
}
