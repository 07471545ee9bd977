/**
 The headers of one multipart part: parameterized values with quoted strings,
 the content-disposition and content-type lines, and a printer that the parser
 undoes (src/app/form.rs).
 */
module PartHeaders {
  import opened Basics
  import opened Text
  import opened Delimiters

  datatype PartError = MalformedBody | MalformedHeaders | TooManyParts | HeadersTooLarge | PartTooLarge | TooManyHeaders

  type Parameters = seq<(string, string)>

  // ------------------------------------------------- parameterized values

  predicate IsQuotedText(c: char) {
    c == '\t' || (c >= ' ' && c as int != 0x7F)
  }

  predicate AllTokens(s: string) {
    forall i :: 0 <= i < |s| ==> IsTokenByte(s[i])
  }

  function DropBlanks(s: string): (r: string)
    ensures |r| <= |s| && (r == "" || !IsBlank(r[0]))
  {
    if s != "" && IsBlank(s[0]) then DropBlanks(s[1..]) else s
  }

  /** How many bytes come before the first `stop`. */
  function Before(s: string, stop: char): (n: nat)
    ensures n <= |s| && stop !in s[..n] && (n == |s| || s[n] == stop)
  {
    if s == "" || s[0] == stop then 0
    else
      var n := Before(s[1..], stop);
      assert s[..n + 1] == [s[0]] + s[1..][..n];
      n + 1
  }

  function TokenLength(s: string): (n: nat)
    ensures n <= |s|
  {
    if s != "" && IsTokenByte(s[0]) then 1 + TokenLength(s[1..]) else 0
  }

  /** A quoted string after its opening quote: the text, and what follows the
      closing quote. */
  function QuotedText(s: string): (r: Option<(string, string)>)
    ensures r.Some? ==> |r.value.1| < |s|
  {
    if s == "" then None
    else if s[0] == '"' then Some(("", s[1..]))
    else if s[0] == '\\' then
      if |s| < 2 || !IsQuotedText(s[1]) then None else Prepend(s[1], QuotedText(s[2..]))
    else if !IsQuotedText(s[0]) then None
    else Prepend(s[0], QuotedText(s[1..]))
  }

  function Prepend(c: char, r: Option<(string, string)>): Option<(string, string)> {
    match r
    case None => None
    case Some(pair) => Some(([c] + pair.0, pair.1))
  }

  /** A quoted value, from its opening quote. */
  function QuotedValue(s: string): (r: Option<(string, string)>)
    requires s != ""
    ensures r.Some? ==> |r.value.1| <= |s|
  {
    match QuotedText(s[1..])
    case None => None
    case Some(pair) => if ValidUtf8(pair.0) then Some((pair.0, DropBlanks(pair.1))) else None
  }

  function BareValue(s: string): (r: Option<(string, string)>)
    ensures r.Some? ==> |r.value.1| <= |s|
  {
    var n := Before(s, ';');
    var text := Trim(s[..n]);
    if text == "" || !AllTokens(text) then None else Some((text, s[n..]))
  }

  function ParameterValue(s: string): (r: Option<(string, string)>)
    ensures r.Some? ==> |r.value.1| <= |s|
  {
    if s != "" && s[0] == '"' then QuotedValue(s) else BareValue(s)
  }

  /** What a parameter name is set to, and what follows: the end or a semicolon. */
  function Assigned(s: string): (r: Option<(string, string)>)
    ensures r.Some? ==> |r.value.1| <= |s|
  {
    var equals := DropBlanks(s);
    if equals == "" || equals[0] != '=' then None
    else
      match ParameterValue(DropBlanks(equals[1..]))
      case None => None
      case Some(pair) => if pair.1 != "" && pair.1[0] != ';' then None else Some(pair)
  }

  /** One parameter, and what follows it. */
  function Parameter(s: string): (r: Option<((string, string), string)>)
    ensures r.Some? ==> |r.value.1| < |s|
  {
    var n := TokenLength(s);
    if n == 0 then None
    else
      match Assigned(s[n..])
      case None => None
      case Some(pair) => Some(((Lower(s[..n]), pair.0), pair.1))
  }

  /** The parameters of a text that is empty or starts at a semicolon. */
  function ParametersOf(s: string): Option<Parameters>
    decreases |s|
  {
    if s == "" then Some([])
    else
      var rest := DropBlanks(s[1..]);
      if rest == "" then Some([])
      else
        match Parameter(rest)
        case None => None
        case Some(first) =>
          match ParametersOf(first.1)
          case None => None
          case Some(others) => Some([first.0] + others)
  }

  function Parameterized(s: string): Option<(string, Parameters)> {
    var n := Before(s, ';');
    var base := Trim(s[..n]);
    if base == "" then None
    else
      match ParametersOf(s[n..])
      case None => None
      case Some(parameters) => Some((base, parameters))
  }

  function Matching(parameters: Parameters, name: string): seq<string> {
    if parameters == [] then []
    else (if EqualIgnoringCase(parameters[0].0, name) then [parameters[0].1] else [])
         + Matching(parameters[1..], name)
  }

  /** `unique_parameter`: a repeated parameter counts as absent. */
  function Unique(parameters: Parameters, name: string): Option<string> {
    var m := Matching(parameters, name);
    if |m| == 1 then Some(m[0]) else None
  }

  // ------------------------------------------------------------ cursor loops

  method SkipOptionalWhitespace(bytes: string, start: nat) returns (cursor: nat)
    requires start <= |bytes|
    ensures start <= cursor <= |bytes| && bytes[cursor..] == DropBlanks(bytes[start..])
  {
    cursor := start;
    while cursor < |bytes| && IsBlank(bytes[cursor])
      invariant start <= cursor <= |bytes| && DropBlanks(bytes[cursor..]) == DropBlanks(bytes[start..])
    {
      assert bytes[cursor..][1..] == bytes[cursor + 1..];
      cursor := cursor + 1;
    }
  }

  method FindByte(bytes: string, start: nat, stop: char) returns (cursor: nat)
    requires start <= |bytes|
    ensures cursor == start + Before(bytes[start..], stop)
  {
    cursor := start;
    while cursor < |bytes| && bytes[cursor] != stop
      invariant start <= cursor <= |bytes|
      invariant start + Before(bytes[start..], stop) == cursor + Before(bytes[cursor..], stop)
    {
      assert bytes[cursor..][1..] == bytes[cursor + 1..];
      cursor := cursor + 1;
    }
  }

  method SkipToken(bytes: string, start: nat) returns (cursor: nat)
    requires start <= |bytes|
    ensures cursor == start + TokenLength(bytes[start..])
  {
    cursor := start;
    while cursor < |bytes| && IsTokenByte(bytes[cursor])
      invariant start <= cursor <= |bytes|
      invariant start + TokenLength(bytes[start..]) == cursor + TokenLength(bytes[cursor..])
    {
      assert bytes[cursor..][1..] == bytes[cursor + 1..];
      cursor := cursor + 1;
    }
  }

  /** `decoded` put in front of the text that is still to come. */
  ghost function After(decoded: string, r: Option<(string, string)>): Option<(string, string)> {
    match r
    case None => None
    case Some(pair) => Some((decoded + pair.0, pair.1))
  }

  lemma AfterMore(decoded: string, c: char, r: Option<(string, string)>)
    ensures After(decoded, Prepend(c, r)) == After(decoded + [c], r)
  {
    if r.Some? {
      assert decoded + ([c] + r.value.0) == (decoded + [c]) + r.value.0;
    }
  }

  /** The loop over a quoted string, from after its opening quote. */
  method DecodeQuoted(bytes: string, start: nat) returns (r: Option<(string, nat)>)
    requires start <= |bytes|
    ensures r.Some? ==> r.value.1 <= |bytes|
    ensures QuotedText(bytes[start..])
         == if r.Some? then Some((r.value.0, bytes[r.value.1..])) else None
  {
    var cursor, decoded := start, "";
    assert After("", QuotedText(bytes[start..])) == QuotedText(bytes[start..]) by {
      var q := QuotedText(bytes[start..]);
      assert q.Some? ==> "" + q.value.0 == q.value.0;
    }
    while cursor < |bytes|
      invariant start <= cursor <= |bytes|
      invariant QuotedText(bytes[start..]) == After(decoded, QuotedText(bytes[cursor..]))
    {
      var rest := bytes[cursor..];
      assert rest[1..] == bytes[cursor + 1..];
      if bytes[cursor] == '"' {
        assert decoded + "" == decoded;
        return Some((decoded, cursor + 1));
      } else if bytes[cursor] == '\\' {
        if cursor + 1 == |bytes| || !IsQuotedText(bytes[cursor + 1]) {
          return None;
        }
        assert rest[2..] == bytes[cursor + 2..];
        AfterMore(decoded, bytes[cursor + 1], QuotedText(bytes[cursor + 2..]));
        decoded := decoded + [bytes[cursor + 1]];
        cursor := cursor + 2;
      } else if !IsQuotedText(bytes[cursor]) {
        return None;
      } else {
        AfterMore(decoded, bytes[cursor], QuotedText(bytes[cursor + 1..]));
        decoded := decoded + [bytes[cursor]];
        cursor := cursor + 1;
      }
    }
    return None;
  }

  lemma Suffixes(bytes: string, start: nat, cursor: nat)
    requires start <= cursor <= |bytes|
    ensures bytes[start..][..cursor - start] == bytes[start..cursor]
    ensures bytes[start..][cursor - start..] == bytes[cursor..]
  {
  }

  method ParseQuoted(bytes: string, start: nat) returns (r: Option<(string, nat)>)
    requires start < |bytes|
    ensures r.Some? ==> r.value.1 <= |bytes|
    ensures QuotedValue(bytes[start..])
         == if r.Some? then Some((r.value.0, bytes[r.value.1..])) else None
  {
    Suffixes(bytes, start, start + 1);
    var quoted := DecodeQuoted(bytes, start + 1);
    if quoted.None? {
      return None;
    }
    var cursor := SkipOptionalWhitespace(bytes, quoted.value.1);
    return if ValidUtf8(quoted.value.0) then Some((quoted.value.0, cursor)) else None;
  }

  method ParseBare(bytes: string, start: nat) returns (r: Option<(string, nat)>)
    requires start <= |bytes|
    ensures r.Some? ==> r.value.1 <= |bytes|
    ensures BareValue(bytes[start..])
         == if r.Some? then Some((r.value.0, bytes[r.value.1..])) else None
  {
    var cursor := FindByte(bytes, start, ';');
    Suffixes(bytes, start, cursor);
    var text := Trim(bytes[start..cursor]);
    return if text == "" || !AllTokens(text) then None else Some((text, cursor));
  }

  method ParseValue(bytes: string, start: nat) returns (r: Option<(string, nat)>)
    requires start <= |bytes|
    ensures r.Some? ==> r.value.1 <= |bytes|
    ensures ParameterValue(bytes[start..])
         == if r.Some? then Some((r.value.0, bytes[r.value.1..])) else None
  {
    if start < |bytes| && bytes[start] == '"' {
      r := ParseQuoted(bytes, start);
    } else {
      r := ParseBare(bytes, start);
    }
  }

  /** A value must be followed by the end or a semicolon. */
  ghost function Ended(r: Option<(string, string)>): Option<(string, string)> {
    match r
    case None => None
    case Some(pair) => if pair.1 != "" && pair.1[0] != ';' then None else Some(pair)
  }

  lemma AssignedUnfolds(s: string, value: string)
    requires DropBlanks(s) != "" && DropBlanks(s)[0] == '=' && DropBlanks(DropBlanks(s)[1..]) == value
    ensures Assigned(s) == Ended(ParameterValue(value))
  {
  }

  method ParseAssigned(bytes: string, start: nat) returns (r: Option<(string, nat)>)
    requires start <= |bytes|
    ensures r.Some? ==> r.value.1 <= |bytes|
    ensures Assigned(bytes[start..])
         == if r.Some? then Some((r.value.0, bytes[r.value.1..])) else None
  {
    var cursor := SkipOptionalWhitespace(bytes, start);
    if cursor == |bytes| || bytes[cursor] != '=' {
      return None;
    }
    Suffixes(bytes, cursor, cursor + 1);
    cursor := SkipOptionalWhitespace(bytes, cursor + 1);
    AssignedUnfolds(bytes[start..], bytes[cursor..]);
    r := ParseValue(bytes, cursor);
    if r.Some? && r.value.1 < |bytes| && bytes[r.value.1] != ';' {
      return None;
    }
  }

  method ParseParameter(bytes: string, start: nat) returns (r: Option<((string, string), nat)>)
    requires start <= |bytes|
    ensures r.Some? ==> r.value.1 <= |bytes|
    ensures Parameter(bytes[start..])
         == if r.Some? then Some((r.value.0, bytes[r.value.1..])) else None
  {
    var cursor := SkipToken(bytes, start);
    if cursor == start {
      return None;
    }
    Suffixes(bytes, start, cursor);
    var name := Lower(bytes[start..cursor]);
    var value := ParseAssigned(bytes, cursor);
    return if value.None? then None else Some(((name, value.value.0), value.value.1));
  }

  ghost function Joined(front: Parameters, r: Option<Parameters>): Option<Parameters> {
    match r
    case None => None
    case Some(back) => Some(front + back)
  }

  /** One round of the loop of `parse_parameterized_value`: nothing is left, or
      the parameter and where it ends, or `None`. */
  method ParseNext(value: string, start: nat) returns (finished: bool, r: Option<((string, string), nat)>)
    requires start < |value|
    ensures finished <==> DropBlanks(value[start..][1..]) == ""
    ensures r.Some? ==> r.value.1 <= |value|
    ensures finished || Parameter(DropBlanks(value[start..][1..]))
                        == if r.Some? then Some((r.value.0, value[r.value.1..])) else None
  {
    Suffixes(value, start, start + 1);
    var cursor := SkipOptionalWhitespace(value, start + 1);
    if cursor == |value| {
      return true, None;
    }
    r := ParseParameter(value, cursor);
    return false, r;
  }

  /** The loop of `parse_parameterized_value` over the parameters. */
  method ParseParameters(value: string, start: nat) returns (r: Option<Parameters>)
    requires start <= |value|
    ensures r == ParametersOf(value[start..])
  {
    var cursor := start;
    var parameters: Parameters := [];
    ghost var all := ParametersOf(value[start..]);
    JoinedNone(all);
    while cursor < |value|
      invariant start <= cursor <= |value|
      invariant all == Joined(parameters, ParametersOf(value[cursor..]))
    {
      var finished, parameter := ParseNext(value, cursor);
      if finished {
        ParametersDone(all, parameters, value[cursor..]);
        return Some(parameters);
      }
      if parameter.None? {
        ParametersFail(all, parameters, value[cursor..]);
        return None;
      }
      ParametersNext(all, parameters, value[cursor..], parameter.value.0, value[parameter.value.1..]);
      parameters := parameters + [parameter.value.0];
      cursor := parameter.value.1;
    }
    ParametersDone(all, parameters, value[cursor..]);
    return Some(parameters);
  }

  lemma ParametersDone(all: Option<Parameters>, front: Parameters, text: string)
    requires all == Joined(front, ParametersOf(text)) && (text == "" || DropBlanks(text[1..]) == "")
    ensures all == Some(front)
  {
    assert front + [] == front;
  }

  lemma ParametersFail(all: Option<Parameters>, front: Parameters, text: string)
    requires all == Joined(front, ParametersOf(text))
    requires text != "" && DropBlanks(text[1..]) != "" && Parameter(DropBlanks(text[1..])) == None
    ensures all == None
  {
  }

  lemma ParametersFirst(text: string, first: (string, string), tail: string)
    requires text != "" && DropBlanks(text[1..]) != "" && Parameter(DropBlanks(text[1..])) == Some((first, tail))
    ensures ParametersOf(text) == Joined([first], ParametersOf(tail))
  {
  }

  lemma ParametersNext(
    all: Option<Parameters>, front: Parameters, text: string, first: (string, string), tail: string)
    requires all == Joined(front, ParametersOf(text)) && text != "" && DropBlanks(text[1..]) != ""
    requires Parameter(DropBlanks(text[1..])) == Some((first, tail))
    ensures all == Joined(front + [first], ParametersOf(tail))
  {
    ParametersFirst(text, first, tail);
    JoinedMore(front, first, ParametersOf(tail));
  }

  lemma JoinedNone(r: Option<Parameters>)
    ensures Joined([], r) == r
  {
    assert r.Some? ==> [] + r.value == r.value;
  }

  /** `parse_parameterized_value`. */
  method ParseParameterizedValue(value: string) returns (r: Option<(string, Parameters)>)
    ensures r == Parameterized(value)
  {
    var cursor := FindByte(value, 0, ';');
    assert value[0..] == value;
    var base := Trim(value[..cursor]);
    if base == "" {
      return None;
    }
    var parameters := ParseParameters(value, cursor);
    return if parameters.None? then None else Some((base, parameters.value));
  }

  lemma JoinedMore(front: Parameters, p: (string, string), r: Option<Parameters>)
    ensures Joined(front, Joined([p], r)) == Joined(front + [p], r)
  {
    if r.Some? {
      assert front + ([p] + r.value) == (front + [p]) + r.value;
    }
  }

  method UniqueParameter(parameters: Parameters, name: string) returns (r: Option<string>)
    ensures r == Unique(parameters, name)
  {
    var seen: seq<string> := [];
    assert parameters[0..] == parameters;
    for i := 0 to |parameters|
      invariant Matching(parameters, name) == seen + Matching(parameters[i..], name)
    {
      assert parameters[i..][1..] == parameters[i + 1..];
      if EqualIgnoringCase(parameters[i].0, name) {
        seen := seen + [parameters[i].1];
      }
    }
    assert seen + [] == seen;
    return if |seen| == 1 then Some(seen[0]) else None;
  }

  // ------------------------------------------------------------ header lines

  /** No control character but the tab. */
  predicate Printable(s: string) {
    forall i :: 0 <= i < |s| && ControlAt(s, i) ==> s[i] == '\t'
  }

  function SplitCrlf(s: string): (r: seq<string>)
    ensures r != []
  {
    if s == "" then [""]
    else if At(s, 0, CRLF) then [""] + SplitCrlf(s[2..])
    else
      var rest := SplitCrlf(s[1..]);
      [[s[0]] + rest[0]] + rest[1..]
  }

  /** The name and the trimmed value of one line. */
  function HeaderLine(line: string): Result<(string, string), PartError> {
    var n := Before(line, ':');
    if line != "" && IsBlank(line[0]) then Err(MalformedHeaders)
    else if n == |line| || n == 0 || !AllTokens(line[..n]) then Err(MalformedHeaders)
    else
      var value := Trim(line[n + 1..]);
      if Printable(value) then Ok((line[..n], value)) else Err(MalformedHeaders)
  }

  datatype Seen = Seen(disposition: Option<string>, contentType: Option<string>)

  /** What one line adds to what has been seen. */
  function Note(seen: Seen, line: string): Result<Seen, PartError> {
    match HeaderLine(line)
    case Err(e) => Err(e)
    case Ok(pair) =>
      var (name, value) := pair;
      if EqualIgnoringCase(name, "content-disposition") then
        if seen.disposition.Some? then Err(MalformedHeaders) else Ok(seen.(disposition := Some(value)))
      else if EqualIgnoringCase(name, "content-type") then
        if value == "" || seen.contentType.Some? then Err(MalformedHeaders)
        else Ok(seen.(contentType := Some(value)))
      else Ok(seen)
  }

  function NoteAll(seen: Seen, lines: seq<string>, count: nat, max: nat): Result<Seen, PartError>
    decreases |lines|
  {
    if lines == [] then Ok(seen)
    else if count + 1 > max then Err(TooManyHeaders)
    else
      match Note(seen, lines[0])
      case Err(e) => Err(e)
      case Ok(next) => NoteAll(next, lines[1..], count + 1, max)
  }

  datatype Headers = Headers(name: string, filename: Option<string>, contentType: Option<string>)

  /** The disposition must be form-data with one non-empty name. */
  function FromDisposition(seen: Seen): Result<Headers, PartError> {
    if seen.disposition.None? then Err(MalformedHeaders)
    else
      match Parameterized(seen.disposition.value)
      case None => Err(MalformedHeaders)
      case Some(pair) =>
        var name := Unique(pair.1, "name");
        if !EqualIgnoringCase(pair.0, "form-data") || name.None? || name.value == "" then Err(MalformedHeaders)
        else Ok(Headers(name.value, Unique(pair.1, "filename"), seen.contentType))
  }

  function HeadersOf(raw: string, max: nat): Result<Headers, PartError> {
    if !ValidUtf8(raw) then Err(MalformedHeaders)
    else
      match NoteAll(Seen(None, None), SplitCrlf(raw), 0, max)
      case Err(e) => Err(e)
      case Ok(seen) => FromDisposition(seen)
  }

  method ParseLine(seen: Seen, line: string) returns (r: Result<Seen, PartError>)
    ensures r == Note(seen, line)
  {
    if line != "" && IsBlank(line[0]) {
      return Err(MalformedHeaders);
    }
    var colon := FindByte(line, 0, ':');
    assert line[0..] == line;
    if colon == |line| || colon == 0 || !AllTokens(line[..colon]) {
      return Err(MalformedHeaders);
    }
    var name, value := line[..colon], Trim(line[colon + 1..]);
    if !Printable(value) {
      return Err(MalformedHeaders);
    }
    if EqualIgnoringCase(name, "content-disposition") {
      return if seen.disposition.Some? then Err(MalformedHeaders) else Ok(seen.(disposition := Some(value)));
    } else if EqualIgnoringCase(name, "content-type") {
      return if value == "" || seen.contentType.Some? then Err(MalformedHeaders)
             else Ok(seen.(contentType := Some(value)));
    }
    return Ok(seen);
  }

  /** `parse_part_headers`. */
  method ParsePartHeaders(raw: string, max: nat) returns (r: Result<Headers, PartError>)
    ensures r == HeadersOf(raw, max)
  {
    if !ValidUtf8(raw) {
      return Err(MalformedHeaders);
    }
    var lines := SplitCrlf(raw);
    var seen := Seen(None, None);
    var count := 0;
    assert lines[0..] == lines;
    for i := 0 to |lines|
      invariant count == i
      invariant NoteAll(Seen(None, None), lines, 0, max) == NoteAll(seen, lines[i..], i, max)
    {
      assert lines[i..][1..] == lines[i + 1..];
      count := count + 1;
      if count > max {
        return Err(TooManyHeaders);
      }
      var next := ParseLine(seen, lines[i]);
      if next.Err? {
        return Err(next.error);
      }
      seen := next.value;
    }
    r := Finish(seen);
  }

  method Finish(seen: Seen) returns (r: Result<Headers, PartError>)
    ensures r == FromDisposition(seen)
  {
    if seen.disposition.None? {
      return Err(MalformedHeaders);
    }
    var value := ParseParameterizedValue(seen.disposition.value);
    if value.None? || !EqualIgnoringCase(value.value.0, "form-data") {
      return Err(MalformedHeaders);
    }
    var name := UniqueParameter(value.value.1, "name");
    if name.None? || name.value == "" {
      return Err(MalformedHeaders);
    }
    var filename := UniqueParameter(value.value.1, "filename");
    return Ok(Headers(name.value, filename, seen.contentType));
  }

  // ----------------------------------------------------------------- printing

  predicate Special(c: char) {
    c == '"' || c == '\\'
  }

  function Escape(s: string): string {
    if s == "" then "" else (if Special(s[0]) then "\\" else "") + [s[0]] + Escape(s[1..])
  }

  /** A quoted parameter, preceded by its semicolon. */
  function PrintParameter(name: string, value: string): string {
    "; " + name + "=\"" + Escape(value) + "\""
  }

  function PrintFilename(h: Headers): string {
    if h.filename.Some? then PrintParameter("filename", h.filename.value) else ""
  }

  function PrintDisposition(h: Headers): string {
    "form-data" + (PrintParameter("name", h.name) + PrintFilename(h))
  }

  const DISPOSITION := "Content-Disposition"
  const CONTENT_TYPE := "Content-Type"

  function PrintLines(h: Headers): seq<string> {
    [DISPOSITION + ": " + PrintDisposition(h)]
    + (if h.contentType.Some? then [CONTENT_TYPE + ": " + h.contentType.value] else [])
  }

  function PrintHeaders(h: Headers): string {
    var lines := PrintLines(h);
    if |lines| == 1 then lines[0] else lines[0] + CRLF + lines[1]
  }

  /** Text that a header can carry. */
  ghost predicate Carried(s: string) {
    IsBytes(s) && ValidUtf8(s) && Printable(s)
  }

  ghost predicate GoodHeaders(h: Headers) {
    && h.name != "" && Carried(h.name)
    && (h.filename.Some? ==> Carried(h.filename.value))
    && (h.contentType.Some? ==>
          var t := h.contentType.value;
          t != "" && Carried(t) && SpaceAhead(t) == 0 && SpaceBehind(t) == 0)
  }

  // ---------------------------------------------------- parsing undoes printing

  lemma {:induction false} QuotedUndoes(s: string, rest: string)
    requires forall i :: 0 <= i < |s| ==> IsQuotedText(s[i])
    ensures QuotedText(Escape(s) + "\"" + rest) == Some((s, rest))
  {
    var text := Escape(s) + "\"" + rest;
    if s == "" {
      assert text[1..] == rest;
    } else {
      QuotedUndoes(s[1..], rest);
      var tail := Escape(s[1..]) + "\"" + rest;
      assert s == [s[0]] + s[1..];
      if Special(s[0]) {
        assert text == "\\" + [s[0]] + tail;
        assert text[2..] == tail;
      } else {
        assert text == [s[0]] + tail;
        assert text[1..] == tail;
      }
    }
  }

  lemma PrintableIsQuoted(s: string)
    requires Printable(s)
    ensures forall i :: 0 <= i < |s| ==> IsQuotedText(s[i]) && s[i] != '\r'
  {
    forall i | 0 <= i < |s| ensures IsQuotedText(s[i]) && s[i] != '\r' {
      assert ControlAt(s, i) ==> s[i] == '\t';
    }
  }

  lemma {:induction false} TokenLengthIs(name: string, rest: string)
    requires AllTokens(name) && (rest == "" || !IsTokenByte(rest[0]))
    ensures TokenLength(name + rest) == |name|
  {
    if name == "" {
      assert name + rest == rest;
    } else {
      assert (name + rest)[1..] == name[1..] + rest;
      TokenLengthIs(name[1..], rest);
    }
  }

  lemma LowerName(name: string)
    requires forall i :: 0 <= i < |name| ==> 'a' <= name[i] <= 'z'
    ensures Lower(name) == name && AllTokens(name)
  {
  }

  lemma QuotedValueIs(quoted: string, text: string, rest: string)
    requires QuotedText(quoted) == Some((text, rest)) && ValidUtf8(text) && (rest == "" || !IsBlank(rest[0]))
    ensures ParameterValue("\"" + quoted) == Some((text, rest))
  {
    assert ("\"" + quoted)[1..] == quoted;
  }

  /** A printed value is read back, with what follows it. */
  lemma ValueUndoes(value: string, rest: string)
    requires Carried(value) && (rest == "" || rest[0] == ';')
    ensures ParameterValue("\"" + Escape(value) + "\"" + rest) == Some((value, rest))
  {
    var quoted := Escape(value) + "\"" + rest;
    assert "\"" + Escape(value) + "\"" + rest == "\"" + quoted;
    PrintableIsQuoted(value);
    QuotedUndoes(value, rest);
    QuotedValueIs(quoted, value, rest);
  }

  lemma AssignedUndoes(value: string, rest: string)
    requires Carried(value) && (rest == "" || rest[0] == ';')
    ensures Assigned("=" + ("\"" + Escape(value) + "\"" + rest)) == Some((value, rest))
  {
    var quoted := "\"" + Escape(value) + "\"" + rest;
    assert ("=" + quoted)[1..] == quoted;
    ValueUndoes(value, rest);
  }

  lemma SettingJoin(name: string, escaped: string, rest: string)
    ensures name + ("=" + ("\"" + escaped + "\"" + rest)) == name + "=\"" + escaped + "\"" + rest
  {
  }

  lemma ParameterIs(name: string, setting: string, value: string, rest: string)
    requires name != "" && AllTokens(name) && Lower(name) == name
    requires setting != "" && !IsTokenByte(setting[0]) && Assigned(setting) == Some((value, rest))
    ensures Parameter(name + setting) == Some(((name, value), rest))
  {
    TokenLengthIs(name, setting);
    assert (name + setting)[..|name|] == name && (name + setting)[|name|..] == setting;
  }

  lemma ParameterUndoes(name: string, value: string, rest: string)
    requires name != "" && (forall i :: 0 <= i < |name| ==> 'a' <= name[i] <= 'z')
    requires Carried(value) && (rest == "" || rest[0] == ';')
    ensures Parameter(name + "=\"" + Escape(value) + "\"" + rest) == Some(((name, value), rest))
  {
    SettingJoin(name, Escape(value), rest);
    LowerName(name);
    AssignedUndoes(value, rest);
    ParameterIs(name, "=" + ("\"" + Escape(value) + "\"" + rest), value, rest);
  }

  lemma ParametersStep(inner: string, p: (string, string), rest: string)
    requires inner != "" && !IsBlank(inner[0]) && Parameter(inner) == Some((p, rest))
    ensures ParametersOf("; " + inner) == Joined([p], ParametersOf(rest))
  {
    var text := "; " + inner;
    assert text[1..] == " " + inner && text[1..][1..] == inner;
    assert DropBlanks(text[1..]) == inner;
  }

  lemma ParametersUndo(name: string, value: string, rest: string)
    requires name != "" && (forall i :: 0 <= i < |name| ==> 'a' <= name[i] <= 'z')
    requires Carried(value) && (rest == "" || rest[0] == ';')
    ensures ParametersOf(PrintParameter(name, value) + rest) == Joined([(name, value)], ParametersOf(rest))
  {
    var inner := name + "=\"" + Escape(value) + "\"" + rest;
    assert PrintParameter(name, value) + rest == "; " + inner;
    ParameterUndoes(name, value, rest);
    ParametersStep(inner, (name, value), rest);
  }

  lemma {:induction false} BeforeIs(a: string, stop: char, rest: string)
    requires stop !in a && (rest == "" || rest[0] == stop)
    ensures Before(a + rest, stop) == |a|
  {
    if a == "" {
      assert a + rest == rest;
    } else {
      assert (a + rest)[1..] == a[1..] + rest;
      BeforeIs(a[1..], stop, rest);
    }
  }

  lemma TrimKept(s: string)
    requires SpaceAhead(s) == 0 && SpaceBehind(s) == 0
    ensures Trim(s) == s && (s != "" ==> Trim(" " + s) == s)
  {
    assert (" " + s)[1..] == s;
  }

  lemma ParameterizedUndo(base: string, rest: string)
    requires base != "" && ';' !in base && SpaceAhead(base) == 0 && SpaceBehind(base) == 0
    requires rest == "" || rest[0] == ';'
    ensures Parameterized(base + rest)
         == if ParametersOf(rest).Some? then Some((base, ParametersOf(rest).value)) else None
  {
    BeforeIs(base, ';', rest);
    assert (base + rest)[..|base|] == base && (base + rest)[|base|..] == rest;
    TrimKept(base);
  }

  ghost function PrintedParameters(h: Headers): Parameters {
    [("name", h.name)] + (if h.filename.Some? then [("filename", h.filename.value)] else [])
  }

  lemma FilenameUndoes(h: Headers)
    requires GoodHeaders(h)
    ensures PrintFilename(h) == "" || PrintFilename(h)[0] == ';'
    ensures ParametersOf(PrintFilename(h)) == Some(PrintedParameters(h)[1..])
  {
    if h.filename.Some? {
      assert PrintFilename(h) + "" == PrintFilename(h);
      ParametersUndo("filename", h.filename.value, "");
      var p := ("filename", h.filename.value);
      assert PrintedParameters(h)[1..] == [p] == [p] + [];
    } else {
      assert PrintedParameters(h)[1..] == [];
    }
  }

  lemma ParametersPrinted(h: Headers)
    requires GoodHeaders(h)
    ensures ParametersOf(PrintParameter("name", h.name) + PrintFilename(h)) == Some(PrintedParameters(h))
  {
    FilenameUndoes(h);
    ParametersUndo("name", h.name, PrintFilename(h));
    assert PrintedParameters(h) == [("name", h.name)] + PrintedParameters(h)[1..];
  }

  lemma DispositionUndoes(h: Headers)
    requires GoodHeaders(h)
    ensures Parameterized(PrintDisposition(h)) == Some(("form-data", PrintedParameters(h)))
  {
    ParametersPrinted(h);
    ParameterizedUndo("form-data", PrintParameter("name", h.name) + PrintFilename(h));
  }

  lemma PrintedAreUnique(h: Headers)
    ensures Unique(PrintedParameters(h), "name") == Some(h.name)
    ensures Unique(PrintedParameters(h), "filename") == h.filename
  {
    var ps := PrintedParameters(h);
    assert |Lower("name")| != |Lower("filename")|;
    assert ps[1..] == if h.filename.Some? then [("filename", h.filename.value)] else [];
    assert h.filename.Some? ==> ps[1..][1..] == [];
    assert Matching(ps[1..], "name") == [];
    assert Matching(ps[1..], "filename") == if h.filename.Some? then [h.filename.value] else [];
  }

  lemma FinishUndoes(h: Headers)
    requires GoodHeaders(h)
    ensures FromDisposition(Seen(Some(PrintDisposition(h)), h.contentType)) == Ok(h)
  {
    DispositionUndoes(h);
    PrintedAreUnique(h);
  }

  // ---------------------------------------------- the printed lines are lines

  lemma PrintableJoin(a: string, c: char, b: string)
    requires Printable(a) && Printable(b) && 0x20 <= c as int < 0x7F
    ensures Printable(a + [c] + b)
  {
    var whole := a + [c] + b;
    forall i | 0 <= i < |whole| && ControlAt(whole, i) ensures whole[i] == '\t' {
      if i < |a| {
        assert ControlAt(a, i);
      } else {
        assert i > |a|;
        assert ControlAt(b, i - |a| - 1);
      }
    }
  }

  lemma {:induction false} EscapePrintable(s: string)
    requires Printable(s)
    ensures Printable(Escape(s)) && (s != "" ==> Escape(s) != "" && Escape(s)[0] in {s[0], '\\'})
  {
    if s != "" {
      var rest := s[1..];
      forall i | 0 <= i < |rest| && ControlAt(rest, i) ensures rest[i] == '\t' {
        assert ControlAt(s, i + 1);
      }
      EscapePrintable(rest);
      var e := Escape(rest);
      if Special(s[0]) {
        assert Escape(s) == "\\" + [s[0]] + e;
        PrintableJoin("\\", s[0], e);
      } else {
        FrontPrintable(s, e);
      }
    }
  }

  lemma FrontPrintable(s: string, e: string)
    requires s != "" && Printable(s) && Printable(e)
    requires |s| > 1 ==> e != "" && e[0] in {s[1], '\\'}
    requires |s| == 1 ==> e == ""
    ensures Printable([s[0]] + e)
  {
    var whole := [s[0]] + e;
    forall i | 0 <= i < |whole| && ControlAt(whole, i) ensures whole[i] == '\t' {
      if i == 0 {
        assert ControlAt(s, 0);
      } else {
        assert ControlAt(e, i - 1);
      }
    }
  }

  lemma AsciiPrintable(s: string)
    requires forall i :: 0 <= i < |s| ==> 0x20 <= s[i] as int < 0x7F
    ensures Printable(s) && ValidUtf8(s)
  {
    AsciiIsUtf8(s);
  }

  lemma {:induction false} EscapeConcat(a: string, b: string)
    ensures Escape(a + b) == Escape(a) + Escape(b)
  {
    if a == "" {
      assert a + b == b;
    } else {
      assert (a + b)[1..] == a[1..] + b;
      EscapeConcat(a[1..], b);
    }
  }

  lemma {:induction false} EscapePlain(s: string)
    requires forall i :: 0 <= i < |s| ==> !Special(s[i])
    ensures Escape(s) == s
  {
    if s != "" {
      EscapePlain(s[1..]);
    }
  }

  lemma {:induction false} EscapeUtf8(s: string)
    requires ValidUtf8(s)
    ensures ValidUtf8(Escape(s))
    decreases |s|
  {
    if s != "" {
      var n := FirstChar(s);
      var head, rest := s[..n], s[n..];
      EscapeUtf8(rest);
      assert s == head + rest;
      EscapeConcat(head, rest);
      HeadUtf8(s);
      Utf8Concat(Escape(head), Escape(rest));
    }
  }

  /** The first character, escaped, is well formed. */
  lemma HeadUtf8(s: string)
    requires FirstChar(s) > 0
    ensures ValidUtf8(Escape(s[..FirstChar(s)]))
  {
    var n := FirstChar(s);
    var head := s[..n];
    if n == 1 {
      assert head == [s[0]] && head[1..] == "";
      assert Escape(head) == (if Special(s[0]) then "\\" else "") + [s[0]];
      AsciiIsUtf8(Escape(head));
    } else {
      EscapePlain(head);
      assert FirstChar(head) == n;
      assert head[n..] == "";
    }
  }

  /** Printable, well-formed text around a quote. */
  lemma CarriedJoin(a: string, c: char, b: string)
    requires Printable(a) && ValidUtf8(a) && Printable(b) && ValidUtf8(b) && 0x20 <= c as int < 0x7F
    ensures Printable(a + [c] + b) && ValidUtf8(a + [c] + b)
  {
    PrintableJoin(a, c, b);
    assert ValidUtf8([c]) by {
      AsciiIsUtf8([c]);
    }
    Utf8Concat(a, [c]);
    Utf8Concat(a + [c], b);
  }

  lemma PrintedParameterCarried(name: string, value: string, rest: string)
    requires forall i :: 0 <= i < |name| ==> 'a' <= name[i] <= 'z'
    requires Carried(value) && Printable(rest) && ValidUtf8(rest)
    ensures var text := PrintParameter(name, value) + rest; Printable(text) && ValidUtf8(text)
  {
    EscapePrintable(value);
    EscapeUtf8(value);
    var lead := LeadCarried(name);
    CarriedJoin(Escape(value), '"', rest);
    CarriedJoin(lead, '"', Escape(value) + ['"'] + rest);
    QuotedJoin("; " + name + "=", Escape(value), rest);
    assert PrintParameter(name, value) == "; " + name + "=" + "\"" + Escape(value) + "\"" by {
      assert "; " + name + "=\"" == "; " + name + "=" + "\"";
    }
  }

  lemma QuotedJoin(lead: string, escaped: string, rest: string)
    ensures lead + "\"" + escaped + "\"" + rest == lead + ['"'] + (escaped + ['"'] + rest)
  {
  }

  lemma LeadCarried(name: string) returns (lead: string)
    requires forall i :: 0 <= i < |name| ==> 'a' <= name[i] <= 'z'
    ensures lead == "; " + name + "=" && Printable(lead) && ValidUtf8(lead)
  {
    lead := "; " + name + "=";
    AsciiPrintable(lead);
  }

  lemma ParametersCarried(h: Headers)
    requires GoodHeaders(h)
    ensures var text := PrintParameter("name", h.name) + PrintFilename(h); Printable(text) && ValidUtf8(text)
  {
    if h.filename.Some? {
      PrintedParameterCarried("filename", h.filename.value, "");
      assert PrintFilename(h) + "" == PrintFilename(h);
    }
    PrintedParameterCarried("name", h.name, PrintFilename(h));
  }

  lemma DispositionCarried(h: Headers)
    requires GoodHeaders(h)
    ensures Printable(PrintDisposition(h)) && ValidUtf8(PrintDisposition(h))
  {
    ParametersCarried(h);
    BaseCarried("form-data", PrintParameter("name", h.name) + PrintFilename(h));
  }

  lemma BaseCarried(base: string, rest: string)
    requires forall i :: 0 <= i < |base| ==> 0x20 <= base[i] as int < 0x7F
    requires rest != "" && rest[0] == ';' && Printable(rest) && ValidUtf8(rest)
    ensures Printable(base + rest) && ValidUtf8(base + rest)
  {
    AsciiPrintable(base);
    TailCarried(rest);
    CarriedJoin(base, ';', rest[1..]);
    assert base + rest == base + [';'] + rest[1..];
  }

  lemma TailCarried(s: string)
    requires s != "" && s[0] as int < 0x80 && Printable(s) && ValidUtf8(s)
    ensures Printable(s[1..]) && ValidUtf8(s[1..])
  {
    var rest := s[1..];
    forall i | 0 <= i < |rest| && ControlAt(rest, i) ensures rest[i] == '\t' {
      assert ControlAt(s, i + 1);
    }
  }

  lemma DispositionTrimmed(h: Headers)
    ensures SpaceAhead(PrintDisposition(h)) == 0 && SpaceBehind(PrintDisposition(h)) == 0
  {
    var s := PrintDisposition(h);
    assert s[0] == 'f';
    assert s[|s| - 1] == '"' by {
      var p := PrintParameter("name", h.name);
      assert p[|p| - 1] == '"';
      if h.filename.Some? {
        var q := PrintParameter("filename", h.filename.value);
        assert q[|q| - 1] == '"';
      }
    }
  }

  // ------------------------------------------------------------- whole headers

  lemma {:induction false} SplitWhole(a: string)
    requires '\r' !in a
    ensures SplitCrlf(a) == [a]
  {
    if a != "" {
      AtFirst(a, 0, CRLF);
      SplitWhole(a[1..]);
      assert a == [a[0]] + a[1..];
    }
  }

  lemma {:induction false} SplitLine(a: string, b: string)
    requires '\r' !in a
    ensures SplitCrlf(a + CRLF + b) == [a] + SplitCrlf(b)
  {
    var whole := a + CRLF + b;
    if a == "" {
      assert whole[2..] == b && whole[0..2] == CRLF;
    } else {
      AtFirst(whole, 0, CRLF);
      assert whole[1..] == a[1..] + CRLF + b;
      SplitLine(a[1..], b);
      assert a == [a[0]] + a[1..];
    }
  }

  lemma TokensAreNoColons(name: string)
    requires AllTokens(name)
    ensures ':' !in name && (name != "" ==> !IsBlank(name[0]))
  {
  }

  lemma HeaderLineIs(name: string, value: string)
    requires name != "" && !IsBlank(name[0]) && AllTokens(name) && ':' !in name && Printable(Trim(value))
    ensures HeaderLine(name + [':'] + value) == Ok((name, Trim(value)))
  {
    var line := name + [':'] + value;
    assert line == name + ([':'] + value);
    BeforeIs(name, ':', [':'] + value);
    assert line[..|name|] == name && line[|name| + 1..] == value;
  }

  /** A line `name: value` is read back. */
  lemma LineUndoes(name: string, value: string)
    requires name != "" && AllTokens(name)
    requires value != "" && Printable(value) && SpaceAhead(value) == 0 && SpaceBehind(value) == 0
    ensures HeaderLine(name + ": " + value) == Ok((name, value))
  {
    TokensAreNoColons(name);
    TrimKept(value);
    HeaderLineIs(name, " " + value);
    assert name + ": " + value == name + [':'] + (" " + value);
  }

  lemma NamesRecognised()
    ensures EqualIgnoringCase(DISPOSITION, "content-disposition")
    ensures EqualIgnoringCase(CONTENT_TYPE, "content-type")
    ensures !EqualIgnoringCase(CONTENT_TYPE, "content-disposition")
    ensures AllTokens(DISPOSITION) && AllTokens(CONTENT_TYPE)
  {
    assert |Lower(CONTENT_TYPE)| != |Lower("content-disposition")|;
  }

  lemma NoteDisposition(seen: Seen, value: string)
    requires value != "" && Printable(value) && SpaceAhead(value) == 0 && SpaceBehind(value) == 0
    requires seen.disposition.None?
    ensures Note(seen, DISPOSITION + ": " + value) == Ok(seen.(disposition := Some(value)))
  {
    NamesRecognised();
    LineUndoes(DISPOSITION, value);
  }

  lemma NoteContentType(seen: Seen, value: string)
    requires value != "" && Printable(value) && SpaceAhead(value) == 0 && SpaceBehind(value) == 0
    requires seen.contentType.None?
    ensures Note(seen, CONTENT_TYPE + ": " + value) == Ok(seen.(contentType := Some(value)))
  {
    NamesRecognised();
    LineUndoes(CONTENT_TYPE, value);
  }

  lemma NotesAll(h: Headers, max: nat)
    requires GoodHeaders(h) && |PrintLines(h)| <= max
    ensures NoteAll(Seen(None, None), PrintLines(h), 0, max) == Ok(Seen(Some(PrintDisposition(h)), h.contentType))
  {
    DispositionCarried(h);
    DispositionTrimmed(h);
    NoteDisposition(Seen(None, None), PrintDisposition(h));
    var lines := PrintLines(h);
    var seen := Seen(Some(PrintDisposition(h)), None);
    if h.contentType.Some? {
      NoteContentType(seen, h.contentType.value);
      assert lines[1..][0] == lines[1] && lines[1..][1..] == [];
      assert NoteAll(seen, lines[1..], 1, max) == NoteAll(seen.(contentType := h.contentType), [], 2, max);
    } else {
      assert lines[1..] == [];
    }
  }

  ghost predicate CleanLine(line: string) {
    line != "" && ValidUtf8(line) && '\r' !in line
  }

  /** Each printed line is well formed and has no carriage return. */
  lemma LinesCarried(h: Headers)
    requires GoodHeaders(h)
    ensures CleanLine(PrintLines(h)[0])
    ensures h.contentType.Some? ==> CleanLine(PrintLines(h)[1])
  {
    NamesRecognised();
    DispositionCarried(h);
    LineCarried(DISPOSITION, PrintDisposition(h));
    if h.contentType.Some? {
      LineCarried(CONTENT_TYPE, h.contentType.value);
    }
  }

  lemma TokensAreAscii(name: string)
    requires AllTokens(name)
    ensures forall i :: 0 <= i < |name| ==> 0x20 <= name[i] as int < 0x7F
  {
  }

  lemma AsciiClean(lead: string, value: string)
    requires lead != "" && (forall i :: 0 <= i < |lead| ==> 0x20 <= lead[i] as int < 0x7F)
    requires ValidUtf8(value) && '\r' !in value
    ensures CleanLine(lead + value)
  {
    AsciiIsUtf8(lead);
    Utf8Concat(lead, value);
  }

  lemma LineCarried(name: string, value: string)
    requires AllTokens(name) && Printable(value) && ValidUtf8(value)
    ensures CleanLine(name + ": " + value)
  {
    TokensAreAscii(name);
    PrintableIsQuoted(value);
    AsciiClean(name + ": ", value);
  }

  lemma LinesSplit(h: Headers)
    requires GoodHeaders(h)
    ensures SplitCrlf(PrintHeaders(h)) == PrintLines(h) && ValidUtf8(PrintHeaders(h))
  {
    LinesCarried(h);
    var lines := PrintLines(h);
    if h.contentType.Some? {
      assert lines[1..] == [lines[1]];
      assert PrintHeaders(h) == lines[0] + CRLF + lines[1];
      SplitLine(lines[0], lines[1]);
      SplitWhole(lines[1]);
      assert lines == [lines[0]] + [lines[1]];
      assert ValidUtf8(CRLF) by {
        AsciiIsUtf8(CRLF);
      }
      Utf8Concat(lines[0], CRLF);
      Utf8Concat(lines[0] + CRLF, lines[1]);
    } else {
      SplitWhole(lines[0]);
    }
  }

  /** Printed headers are read back. */
  lemma HeadersUndo(h: Headers, max: nat)
    requires GoodHeaders(h) && |PrintLines(h)| <= max
    ensures HeadersOf(PrintHeaders(h), max) == Ok(h)
  {
    LinesSplit(h);
    NotesAll(h, max);
    FinishUndoes(h);
  }
}
