/**
 Route patterns as text: parsing, validation, joining, canonical rendering,
 and the percent coding of path segments (src/app/router.rs).
 */
module Patterns {
  import opened Basics
  import opened Text
  import opened Segments

  const MAX_PATH_SEGMENTS: nat := 256

  datatype RouteError =
    | MissingLeadingSlash | EmptyParameter | InvalidParameter | DuplicateParameter
    | NonTerminalWildcard | TooManySegments | DuplicateRoute | ConflictingPattern
    | DuplicateName | InvalidHostPattern | MissingUrlParameter | UnexpectedUrlParameter
    | InvalidPercentEncoding | UnsupportedMethod

  /** A parameter-name-independent segment, for conflict detection. */
  datatype ConflictSegment = KeyStatic(text: string) | KeyParam | KeyWildcard

  datatype Pattern = Pattern(
    rendered: string,
    segments: seq<Segment>,
    names: seq<string>,
    key: seq<ConflictSegment>)

  // ---------------------------------------------------------- percent coding

  predicate IsHex(c: char) {
    IsDigit(c) || 'a' <= c <= 'f' || 'A' <= c <= 'F'
  }

  function HexValue(c: char): (n: nat)
    requires IsHex(c)
    ensures n < 16
  {
    if IsDigit(c) then c as int - '0' as int
    else if 'a' <= c then c as int - 'a' as int + 10
    else c as int - 'A' as int + 10
  }

  function HexDigit(n: nat): (c: char)
    requires n < 16
    ensures IsHex(c) && HexValue(c) == n
  {
    if n < 10 then (n + '0' as int) as char else (n - 10 + 'A' as int) as char
  }

  predicate IsUnreserved(c: char) {
    IsAlphanumeric(c) || c in {'-', '.', '_', '~'}
  }

  function EncodeByte(c: char): string
    requires c as int < 256
  {
    if IsUnreserved(c) then [c]
    else ['%', HexDigit(c as int / 16), HexDigit(c as int % 16)]
  }

  function Encode(s: string): string
    requires IsBytes(s)
  {
    if s == "" then "" else EncodeByte(s[0]) + Encode(s[1..])
  }

  /** Every `%` starts a triplet with two hexadecimal digits. */
  predicate ValidTriplets(s: string) {
    if s == "" then true
    else if s[0] == '%' then |s| >= 3 && IsHex(s[1]) && IsHex(s[2]) && ValidTriplets(s[3..])
    else ValidTriplets(s[1..])
  }

  function Decode(s: string): string {
    if s == "" then ""
    else if |s| >= 3 && s[0] == '%' && IsHex(s[1]) && IsHex(s[2]) then
      [Byte(16 * HexValue(s[1]) + HexValue(s[2]))] + Decode(s[3..])
    else [s[0]] + Decode(s[1..])
  }

  /** Decoding one segment of a pattern or of a request path. */
  function DecodeSegment(s: string): Option<string> {
    if ValidTriplets(s) && ValidUtf8(Decode(s)) && !HasControl(Decode(s)) then Some(Decode(s)) else None
  }

  /** The loop of `encode_path_segment`. */
  method EncodePathSegment(input: string) returns (encoded: string)
    requires IsBytes(input)
    ensures encoded == Encode(input)
  {
    encoded := "";
    for i := 0 to |input|
      invariant encoded + Encode(input[i..]) == Encode(input)
    {
      assert input[i..][0] == input[i] && input[i..][1..] == input[i + 1..];
      encoded := encoded + EncodeByte(input[i]);
    }
  }

  /** The loop of `validate_percent_triplets`. */
  method ValidatePercentTriplets(input: string) returns (ok: bool)
    ensures ok == ValidTriplets(input)
  {
    var index := 0;
    while index < |input|
      invariant 0 <= index <= |input|
      invariant ValidTriplets(input) == ValidTriplets(input[index..])
    {
      var rest := input[index..];
      if input[index] == '%' {
        if index + 2 >= |input| || !IsHex(input[index + 1]) || !IsHex(input[index + 2]) {
          return false;
        }
        assert rest[3..] == input[index + 3..];
        index := index + 3;
      } else {
        assert rest[1..] == input[index + 1..];
        index := index + 1;
      }
    }
    return true;
  }

  lemma DecodeAfterByte(c: char, rest: string)
    requires c as int < 256
    ensures Decode(EncodeByte(c) + rest) == [c] + Decode(rest)
    ensures ValidTriplets(EncodeByte(c) + rest) == ValidTriplets(rest)
  {
    var n := |EncodeByte(c)|;
    assert (EncodeByte(c) + rest)[n..] == rest;
  }

  /** Decoding undoes encoding. */
  lemma {:induction false} DecodeEncode(s: string)
    requires IsBytes(s)
    ensures ValidTriplets(Encode(s)) && Decode(Encode(s)) == s
  {
    if s != "" {
      DecodeEncode(s[1..]);
      DecodeAfterByte(s[0], Encode(s[1..]));
    }
  }

  /** An encoded segment keeps clear of the path and pattern syntax. */
  lemma {:induction false} EncodeShape(s: string)
    requires IsBytes(s)
    ensures Free('/', Encode(s))
    ensures s != "" ==> Encode(s) != "" && Encode(s)[0] !in {':', '*'}
  {
    if s != "" {
      EncodeShape(s[1..]);
      assert '/' !in EncodeByte(s[0]);
    }
  }

  /** Decoding yields bytes, and something for something. */
  lemma {:induction false} DecodeShape(s: string)
    requires IsBytes(s)
    ensures IsBytes(Decode(s))
    ensures s != "" ==> Decode(s) != ""
  {
    if s != "" {
      if |s| >= 3 && s[0] == '%' && IsHex(s[1]) && IsHex(s[2]) {
        DecodeShape(s[3..]);
      } else {
        DecodeShape(s[1..]);
      }
    }
  }

  // ----------------------------------------------------- parsing and validation

  function PathSegments(path: string): seq<string> {
    NonEmpty(Split(path, '/'))
  }

  predicate IsNameByte(c: char) {
    IsAlphanumeric(c) || c == '_' || c == '-'
  }

  predicate IsName(name: string) {
    name != "" && forall i :: 0 <= i < |name| ==> IsNameByte(name[i])
  }

  /** What is wrong with a parameter name, given the names before it. */
  function NameError(name: string, names: seq<string>): Option<RouteError> {
    if name == "" then Some(EmptyParameter)
    else if !IsName(name) then Some(InvalidParameter)
    else if name in names then Some(DuplicateParameter)
    else None
  }

  function Raw(segment: Segment): string
    requires segment.Static? ==> IsBytes(segment.text)
  {
    match segment
    case Static(text) => Encode(text)
    case Param(name) => ":" + name
    case Wildcard(name) => "*" + name
  }

  ghost predicate StaticBytes(segments: seq<Segment>) {
    forall i :: 0 <= i < |segments| && segments[i].Static? ==> IsBytes(segments[i].text)
  }

  function Raws(segments: seq<Segment>): seq<string>
    requires StaticBytes(segments)
  {
    if segments == [] then [] else [Raw(segments[0])] + Raws(segments[1..])
  }

  function Render(segments: seq<Segment>): string
    requires StaticBytes(segments)
  {
    if segments == [] then "/" else Slashed(Raws(segments))
  }

  function ConflictKey(segments: seq<Segment>): seq<ConflictSegment> {
    if segments == [] then []
    else
      [match segments[0]
       case Static(text) => KeyStatic(text)
       case Param(_) => KeyParam
       case Wildcard(_) => KeyWildcard]
      + ConflictKey(segments[1..])
  }

  function FromSegments(segments: seq<Segment>, names: seq<string>): Pattern
    requires StaticBytes(segments)
  {
    Pattern(Render(segments), segments, names, ConflictKey(segments))
  }

  /** `validate_segments` from position `i` on, with the names seen so far. */
  function ValidateFrom(segments: seq<Segment>, i: nat, names: seq<string>): Result<Pattern, RouteError>
    requires i <= |segments| && StaticBytes(segments)
    decreases |segments| - i
  {
    if i == |segments| then Ok(FromSegments(segments, names))
    else
      match segments[i]
      case Static(_) => ValidateFrom(segments, i + 1, names)
      case Param(name) =>
        var e := NameError(name, names);
        if e.Some? then Err(e.value) else ValidateFrom(segments, i + 1, names + [name])
      case Wildcard(name) =>
        if i != |segments| - 1 then Err(NonTerminalWildcard)
        else
          var e := NameError(name, names);
          if e.Some? then Err(e.value) else ValidateFrom(segments, i + 1, names + [name])
  }

  function Validate(segments: seq<Segment>): Result<Pattern, RouteError>
    requires StaticBytes(segments)
  {
    if |segments| > MAX_PATH_SEGMENTS then Err(TooManySegments) else ValidateFrom(segments, 0, [])
  }

  function Join(prefix: Pattern, suffix: Pattern): Result<Pattern, RouteError>
    requires StaticBytes(prefix.segments) && StaticBytes(suffix.segments)
  {
    Validate(prefix.segments + suffix.segments)
  }

  /** `RoutePattern::parse` from raw segment `i` on. */
  function ParseFrom(raws: seq<string>, i: nat, segments: seq<Segment>, names: seq<string>): Result<Pattern, RouteError>
    requires i <= |raws| && (forall k :: 0 <= k < |raws| ==> IsBytes(raws[k]) && raws[k] != "")
    requires StaticBytes(segments)
    decreases |raws| - i
  {
    if i == |raws| then Ok(FromSegments(segments, names))
    else if raws[i][0] == ':' then
      var name := raws[i][1..];
      var e := NameError(name, names);
      if e.Some? then Err(e.value) else ParseFrom(raws, i + 1, segments + [Param(name)], names + [name])
    else if raws[i][0] == '*' then
      if i != |raws| - 1 then Err(NonTerminalWildcard)
      else
        var name := raws[i][1..];
        var e := NameError(name, names);
        if e.Some? then Err(e.value) else ParseFrom(raws, i + 1, segments + [Wildcard(name)], names + [name])
    else
      DecodeShape(raws[i]);
      var text := DecodeSegment(raws[i]);
      if text.None? then Err(InvalidPercentEncoding)
      else ParseFrom(raws, i + 1, segments + [Static(text.value)], names)
  }

  lemma {:induction false} NonEmptyIsNonEmpty(pieces: seq<string>)
    ensures forall i :: 0 <= i < |NonEmpty(pieces)| ==> NonEmpty(pieces)[i] in pieces && NonEmpty(pieces)[i] != ""
  {
    if pieces != [] {
      NonEmptyIsNonEmpty(pieces[1..]);
    }
  }

  lemma PathSegmentsShape(path: string)
    requires IsBytes(path)
    ensures forall k :: 0 <= k < |PathSegments(path)| ==> IsBytes(PathSegments(path)[k]) && PathSegments(path)[k] != ""
  {
    SplitPieces(path, '/');
    NonEmptyIsNonEmpty(Split(path, '/'));
  }

  function Parse(path: string): Result<Pattern, RouteError>
    requires IsBytes(path)
  {
    PathSegmentsShape(path);
    if path == "" || path[0] != '/' then Err(MissingLeadingSlash)
    else if |PathSegments(path)| > MAX_PATH_SEGMENTS then Err(TooManySegments)
    else ParseFrom(PathSegments(path), 0, [], [])
  }

  /** The loop of `RoutePattern::parse`. */
  method ParsePattern(path: string) returns (r: Result<Pattern, RouteError>)
    requires IsBytes(path)
    ensures r == Parse(path)
  {
    if path == "" || path[0] != '/' {
      return Err(MissingLeadingSlash);
    }
    var raws := PathSegments(path);
    PathSegmentsShape(path);
    if |raws| > MAX_PATH_SEGMENTS {
      return Err(TooManySegments);
    }
    var segments: seq<Segment>, names: seq<string> := [], [];
    var index := 0;
    while index < |raws|
      invariant 0 <= index <= |raws| && StaticBytes(segments)
      invariant ParseFrom(raws, 0, [], []) == ParseFrom(raws, index, segments, names)
    {
      var raw := raws[index];
      if raw[0] == ':' || raw[0] == '*' {
        if raw[0] == '*' && index != |raws| - 1 {
          return Err(NonTerminalWildcard);
        }
        var e := NameError(raw[1..], names);
        if e.Some? {
          return Err(e.value);
        }
        segments := segments + [if raw[0] == ':' then Param(raw[1..]) else Wildcard(raw[1..])];
        names := names + [raw[1..]];
      } else {
        DecodeShape(raw);
        var text := DecodeSegment(raw);
        if text.None? {
          return Err(InvalidPercentEncoding);
        }
        segments := segments + [Static(text.value)];
      }
      index := index + 1;
    }
    return Ok(FromSegments(segments, names));
  }

  // ------------------------------------------------------- well-formed patterns

  /** Text a decoded static segment can hold. */
  ghost predicate IsStaticText(text: string) {
    text != "" && IsBytes(text) && ValidUtf8(text) && !HasControl(text)
  }

  ghost predicate StaticTexts(segments: seq<Segment>) {
    forall i :: 0 <= i < |segments| && segments[i].Static? ==> IsStaticText(segments[i].text)
  }

  /** A pattern that parsing or joining can produce. */
  ghost predicate WellFormed(p: Pattern) {
    StaticTexts(p.segments) && Validate(p.segments) == Ok(p)
  }

  function SegmentName(segment: Segment): Option<string> {
    if segment.Static? then None else Some(segment.name)
  }

  ghost predicate UniqueNames(segments: seq<Segment>) {
    forall i, j :: 0 <= i < j < |segments| && SegmentName(segments[i]).Some? ==>
      SegmentName(segments[i]) != SegmentName(segments[j])
  }

  /** What validation promises: few enough segments, good and distinct names,
      a wildcard only in last position. */
  ghost predicate GoodShape(segments: seq<Segment>) {
    && |segments| <= MAX_PATH_SEGMENTS
    && (forall i :: 0 <= i < |segments| && !segments[i].Static? ==> IsName(segments[i].name))
    && (forall i :: 0 <= i < |segments| - 1 ==> !segments[i].Wildcard?)
    && UniqueNames(segments)
  }

  /** The parameter names of the first `n` segments, in order. */
  function NamesOf(segments: seq<Segment>, n: nat): seq<string>
    requires n <= |segments|
  {
    if n == 0 then []
    else NamesOf(segments, n - 1) + (if segments[n - 1].Static? then [] else [segments[n - 1].name])
  }

  lemma {:induction false} NamesOfMember(segments: seq<Segment>, n: nat, name: string)
    requires n <= |segments|
    ensures name in NamesOf(segments, n) <==> exists i :: 0 <= i < n && SegmentName(segments[i]) == Some(name)
  {
    if n > 0 {
      NamesOfMember(segments, n - 1, name);
      if name in NamesOf(segments, n) && name !in NamesOf(segments, n - 1) {
        assert SegmentName(segments[n - 1]) == Some(name);
      }
    }
  }

  /** The part of `GoodShape` that concerns position `i` and those before it. */
  ghost predicate GoodAt(segments: seq<Segment>, i: nat)
    requires i < |segments|
  {
    && (!segments[i].Static? ==> IsName(segments[i].name))
    && (segments[i].Wildcard? ==> i == |segments| - 1)
    && (forall k :: 0 <= k < i && SegmentName(segments[k]).Some? ==>
          SegmentName(segments[k]) != SegmentName(segments[i]))
  }

  lemma {:induction false} ValidateFromShape(segments: seq<Segment>, i: nat)
    requires i <= |segments| && StaticBytes(segments)
    ensures var r := ValidateFrom(segments, i, NamesOf(segments, i));
            && (r.Ok? <==> forall k :: i <= k < |segments| ==> GoodAt(segments, k))
            && (r.Ok? ==> r.value == FromSegments(segments, NamesOf(segments, |segments|)))
    decreases |segments| - i
  {
    if i < |segments| {
      ValidateFromShape(segments, i + 1);
      if !segments[i].Static? {
        var name := segments[i].name;
        NamesOfMember(segments, i, name);
        assert GoodAt(segments, i) <==>
               NameError(name, NamesOf(segments, i)).None? && (segments[i].Wildcard? ==> i == |segments| - 1);
      } else {
        assert GoodAt(segments, i);
        assert NamesOf(segments, i + 1) == NamesOf(segments, i);
      }
    }
  }

  lemma GoodShapeByPosition(segments: seq<Segment>)
    ensures GoodShape(segments) <==>
              |segments| <= MAX_PATH_SEGMENTS && forall k :: 0 <= k < |segments| ==> GoodAt(segments, k)
  {
    if forall k :: 0 <= k < |segments| ==> GoodAt(segments, k) {
      assert forall i, j :: 0 <= i < j < |segments| && SegmentName(segments[i]).Some? ==>
        GoodAt(segments, j) && SegmentName(segments[i]) != SegmentName(segments[j]);
      assert forall i :: 0 <= i < |segments| && !segments[i].Static? ==> GoodAt(segments, i);
    }
  }

  /** Validation accepts exactly the segment lists of good shape. */
  lemma ValidateIffGoodShape(segments: seq<Segment>)
    requires StaticBytes(segments)
    ensures Validate(segments).Ok? <==> GoodShape(segments)
    ensures Validate(segments).Ok? ==>
              Validate(segments).value == FromSegments(segments, NamesOf(segments, |segments|))
  {
    ValidateFromShape(segments, 0);
    GoodShapeByPosition(segments);
  }

  /** Parsing and validating walk the same segments to the same verdict. */
  lemma {:induction false} ParseFromValidates(raws: seq<string>, i: nat, segments: seq<Segment>, names: seq<string>)
    requires i <= |raws| && (forall k :: 0 <= k < |raws| ==> IsBytes(raws[k]) && raws[k] != "")
    requires |segments| == i && StaticTexts(segments)
    ensures var r := ParseFrom(raws, i, segments, names);
            r.Ok? ==>
              && |r.value.segments| == |raws| && r.value.segments[..i] == segments
              && StaticTexts(r.value.segments)
              && ValidateFrom(r.value.segments, i, names) == r
    decreases |raws| - i
  {
    if i < |raws| {
      var raw := raws[i];
      DecodeShape(raw);
      if raw[0] == ':' {
        ParseFromValidates(raws, i + 1, segments + [Param(raw[1..])], names + [raw[1..]]);
      } else if raw[0] == '*' {
        ParseFromValidates(raws, i + 1, segments + [Wildcard(raw[1..])], names + [raw[1..]]);
      } else if DecodeSegment(raw).Some? {
        ParseFromValidates(raws, i + 1, segments + [Static(DecodeSegment(raw).value)], names);
      }
      var r := ParseFrom(raws, i, segments, names);
      if r.Ok? {
        assert r.value.segments[..i] == r.value.segments[..i + 1][..i];
        assert r.value.segments[i] == r.value.segments[..i + 1][i];
      }
    }
  }

  lemma ParseWellFormed(path: string)
    requires IsBytes(path)
    ensures Parse(path).Ok? ==> WellFormed(Parse(path).value)
  {
    PathSegmentsShape(path);
    if Parse(path).Ok? {
      ParseFromValidates(PathSegments(path), 0, [], []);
    }
  }

  lemma JoinWellFormed(p: Pattern, q: Pattern)
    requires WellFormed(p) && WellFormed(q)
    ensures Join(p, q).Ok? ==> WellFormed(Join(p, q).value)
  {
    ValidateIffGoodShape(p.segments + q.segments);
  }

  // ------------------------------------------------- rendering and parsing back

  /** Segments whose rendering a parser reads back: decoded static text, names free of slashes. */
  ghost predicate Renderable(segments: seq<Segment>) {
    && StaticTexts(segments)
    && (forall i :: 0 <= i < |segments| && !segments[i].Static? ==>
          IsBytes(segments[i].name) && Free('/', segments[i].name))
  }

  lemma {:induction false} RawsAt(segments: seq<Segment>)
    requires StaticBytes(segments)
    ensures |Raws(segments)| == |segments|
    ensures forall i :: 0 <= i < |segments| ==> Raws(segments)[i] == Raw(segments[i])
  {
    if segments != [] {
      RawsAt(segments[1..]);
    }
  }

  lemma {:induction false} EncodeIsBytes(s: string)
    requires IsBytes(s)
    ensures IsBytes(Encode(s))
  {
    if s != "" {
      EncodeIsBytes(s[1..]);
    }
  }

  lemma RawShape(segment: Segment)
    requires Renderable([segment])
    ensures segment.Static? ==> IsBytes(segment.text)
    ensures IsBytes(Raw(segment)) && Raw(segment) != "" && Free('/', Raw(segment))
    ensures segment.Static? ==> Raw(segment)[0] !in {':', '*'} && DecodeSegment(Raw(segment)) == Some(segment.text)
    ensures segment.Param? ==> Raw(segment)[0] == ':' && Raw(segment)[1..] == segment.name
    ensures segment.Wildcard? ==> Raw(segment)[0] == '*' && Raw(segment)[1..] == segment.name
  {
    assert [segment][0] == segment;
    if segment.Static? {
      EncodeShape(segment.text);
      DecodeEncode(segment.text);
      EncodeIsBytes(segment.text);
    }
  }

  lemma RawsShape(segments: seq<Segment>)
    requires Renderable(segments)
    ensures |Raws(segments)| == |segments|
    ensures forall i :: 0 <= i < |segments| ==>
              Raws(segments)[i] == Raw(segments[i]) && IsBytes(Raws(segments)[i])
              && Raws(segments)[i] != "" && Free('/', Raws(segments)[i])
  {
    RawsAt(segments);
    forall i | 0 <= i < |segments|
      ensures IsBytes(Raw(segments[i])) && Raw(segments[i]) != "" && Free('/', Raw(segments[i]))
    {
      RawShape(segments[i]);
    }
  }

  lemma {:induction false} ParseRaws(segments: seq<Segment>, i: nat, names: seq<string>)
    requires Renderable(segments) && i <= |segments|
    requires forall k :: 0 <= k < |Raws(segments)| ==> IsBytes(Raws(segments)[k]) && Raws(segments)[k] != ""
    requires |Raws(segments)| == |segments|
    ensures ParseFrom(Raws(segments), i, segments[..i], names) == ValidateFrom(segments, i, names)
    decreases |segments| - i
  {
    if i == |segments| {
      assert segments[..i] == segments;
    } else {
      RawsAt(segments);
      RawShape(segments[i]);
      assert segments[..i] + [segments[i]] == segments[..i + 1];
      ParseRaws(segments, i + 1, names);
      if !segments[i].Static? {
        ParseRaws(segments, i + 1, names + [segments[i].name]);
      }
    }
  }

  lemma {:induction false} RawsConcat(a: seq<Segment>, b: seq<Segment>)
    requires StaticBytes(a) && StaticBytes(b)
    ensures StaticBytes(a + b) && Raws(a + b) == Raws(a) + Raws(b)
  {
    if a == [] {
      assert a + b == b;
    } else {
      RawsConcat(a[1..], b);
      assert (a + b)[1..] == a[1..] + b;
    }
  }

  lemma SlashedSegments(parts: seq<string>)
    requires forall i :: 0 <= i < |parts| ==> Free('/', parts[i])
    ensures PathSegments(Slashed(parts)) == NonEmpty(parts)
  {
    SplitSlashed("", parts);
    assert "" + Slashed(parts) == Slashed(parts);
    NonEmptyConcat([""], parts);
    assert NonEmpty([""]) == [];
  }

  /** What is slashed to render a pattern; the root renders as one empty part. */
  function RenderedParts(segments: seq<Segment>): seq<string>
    requires StaticBytes(segments)
  {
    if segments == [] then [""] else Raws(segments)
  }

  lemma RenderedPartsShape(segments: seq<Segment>)
    requires Renderable(segments)
    ensures Render(segments) == Slashed(RenderedParts(segments))
    ensures forall i :: 0 <= i < |RenderedParts(segments)| ==> Free('/', RenderedParts(segments)[i])
    ensures NonEmpty(RenderedParts(segments)) == Raws(segments)
  {
    RawsShape(segments);
    NonEmptyKeeps(Raws(segments));
    assert Slashed([""]) == "/";
  }

  /** The segments of a rendered pattern, or of two rendered one after the other. */
  lemma RenderedSegments(a: seq<Segment>, b: seq<Segment>)
    requires Renderable(a) && Renderable(b)
    ensures PathSegments(Render(a)) == Raws(a)
    ensures PathSegments(Render(a) + Render(b)) == Raws(a + b)
  {
    var partsA, partsB := RenderedParts(a), RenderedParts(b);
    RenderedPartsShape(a);
    RenderedPartsShape(b);
    SlashedSegments(partsA);
    SlashedSegments(partsA + partsB);
    SlashedConcat(partsA, partsB);
    NonEmptyConcat(partsA, partsB);
    RawsConcat(a, b);
  }

  lemma WellFormedIsRenderable(p: Pattern)
    requires WellFormed(p)
    ensures Renderable(p.segments)
  {
    ValidateIffGoodShape(p.segments);
    forall i | 0 <= i < |p.segments| && !p.segments[i].Static?
      ensures IsBytes(p.segments[i].name) && Free('/', p.segments[i].name)
    {
      assert IsName(p.segments[i].name);
    }
  }

  lemma {:induction false} SlashedIsBytes(parts: seq<string>)
    requires forall i :: 0 <= i < |parts| ==> IsBytes(parts[i])
    ensures IsBytes(Slashed(parts))
  {
    if parts != [] {
      SlashedIsBytes(parts[1..]);
    }
  }

  lemma RenderIsBytes(segments: seq<Segment>)
    requires Renderable(segments)
    ensures IsBytes(Render(segments)) && Render(segments) != "" && Render(segments)[0] == '/'
  {
    RawsShape(segments);
    SlashedIsBytes(Raws(segments));
  }

  /** Re-parsing the canonical text of a pattern gives the pattern back. */
  lemma ParseRendered(p: Pattern)
    requires WellFormed(p)
    ensures IsBytes(p.rendered) && Parse(p.rendered) == Ok(p)
  {
    WellFormedIsRenderable(p);
    ValidateIffGoodShape(p.segments);
    RenderIsBytes(p.segments);
    RenderedSegments(p.segments, []);
    RawsShape(p.segments);
    assert p.segments[..0] == [];
    ParseRaws(p.segments, 0, []);
  }

  /** Joining two patterns is parsing their canonical texts one after the
      other: the same pattern, or the same error. */
  lemma JoinIsConcatenation(p: Pattern, q: Pattern)
    requires WellFormed(p) && WellFormed(q)
    ensures IsBytes(p.rendered + q.rendered) && Parse(p.rendered + q.rendered) == Join(p, q)
  {
    WellFormedIsRenderable(p);
    WellFormedIsRenderable(q);
    ValidateIffGoodShape(p.segments);
    ValidateIffGoodShape(q.segments);
    RenderIsBytes(p.segments);
    RenderIsBytes(q.segments);
    RenderedSegments(p.segments, q.segments);
    var both := p.segments + q.segments;
    assert Renderable(both);
    RawsShape(both);
    assert both[..0] == [];
    ParseRaws(both, 0, []);
  }
}
