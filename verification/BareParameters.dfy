/**
 Unquoted parameters: a token is read back as it stands, with or without white
 space around it, in a content type and in the headers of a part
 (src/app/form.rs).
 */
module BareParameters {
  import opened Basics
  import opened Text
  import opened Delimiters
  import opened PartHeaders
  import opened Multipart

  /** White space around the name and the value of a parameter. */
  datatype Spacing = Spacing(lead: string, mid: string, open: string, close: string)

  ghost predicate OnlyBlanks(w: Spacing) {
    Blanks(w.lead) && Blanks(w.mid) && Blanks(w.open) && Blanks(w.close)
  }

  const USUAL := Spacing(" ", "", "", "")

  function PrintBare(w: Spacing, name: string, value: string): string {
    ";" + (w.lead + (name + (w.mid + ("=" + (w.open + (value + w.close))))))
  }

  ghost predicate IsToken(s: string) {
    s != "" && AllTokens(s)
  }

  /** What may follow a parameter. */
  ghost predicate Follows(rest: string) {
    rest == "" || rest[0] == ';'
  }

  // ---------------------------------------------------------------- one token

  lemma TokenBytes(s: string)
    requires AllTokens(s)
    ensures forall i :: 0 <= i < |s| ==>
              0x20 < s[i] as int < 0x7F && s[i] !in {';', '=', '"', ':', ',', ' ', '\t'}
  {
  }

  lemma {:induction false} DropsBlanks(w: string, s: string)
    requires Blanks(w) && (s == "" || !IsBlank(s[0]))
    ensures DropBlanks(w + s) == s
    decreases |w|
  {
    if w == "" {
      assert w + s == s;
    } else {
      assert (w + s)[1..] == w[1..] + s;
      DropsBlanks(w[1..], s);
    }
  }

  lemma {:induction false} TrimsBlanks(t: string, w: string)
    requires t != "" && SpaceBehind(t) == 0 && Blanks(w)
    ensures TrimEnd(t + w) == t
    decreases |w|
  {
    if w == "" {
      assert t + w == t;
    } else {
      var s := t + w;
      assert s[|s| - 1] == w[|w| - 1];
      assert s[..|s| - 1] == t + w[..|w| - 1];
      TrimsBlanks(t, w[..|w| - 1]);
    }
  }

  lemma TokenTrims(t: string, w: string)
    requires IsToken(t) && Blanks(w)
    ensures Trim(t + w) == t
  {
    TokenBytes(t);
    assert (t + w)[0] == t[0];
    TrimsBlanks(t, w);
  }

  /** An unquoted value is the text up to the semicolon. */
  lemma BareValueIs(t: string, w: string, rest: string)
    requires IsToken(t) && Blanks(w) && Follows(rest)
    ensures ParameterValue(t + w + rest) == Some((t, rest))
  {
    var s := t + w + rest;
    TokenBytes(t);
    BeforeIs(t + w, ';', rest);
    assert s[..|t + w|] == t + w && s[|t + w|..] == rest && s[0] == t[0];
    TokenTrims(t, w);
  }

  lemma BareAssigned(mid: string, open: string, t: string, close: string, rest: string)
    requires IsToken(t) && Blanks(mid) && Blanks(open) && Blanks(close) && Follows(rest)
    ensures Assigned(mid + ("=" + (open + (t + close + rest)))) == Some((t, rest))
  {
    var value := t + close + rest;
    TokenBytes(t);
    assert value[0] == t[0];
    var equals := "=" + (open + value);
    DropsBlanks(mid, equals);
    assert equals[1..] == open + value;
    DropsBlanks(open, value);
    BareValueIs(t, close, rest);
  }

  lemma ParameterRead(name: string, setting: string, value: string, rest: string)
    requires IsToken(name) && setting != "" && !IsTokenByte(setting[0]) && Assigned(setting) == Some((value, rest))
    ensures Parameter(name + setting) == Some(((Lower(name), value), rest))
  {
    TokenLengthIs(name, setting);
    assert (name + setting)[..|name|] == name && (name + setting)[|name|..] == setting;
  }

  lemma BareRegroup(w: Spacing, name: string, t: string, rest: string)
    ensures PrintBare(w, name, t) + rest
         == ";" + (w.lead + (name + (w.mid + ("=" + (w.open + (t + w.close + rest))))))
  {
    var value := t + w.close;
    assert value + rest == t + w.close + rest;
    assert (w.open + value) + rest == w.open + (value + rest);
    assert ("=" + (w.open + value)) + rest == "=" + ((w.open + value) + rest);
    assert (w.mid + ("=" + (w.open + value))) + rest == w.mid + (("=" + (w.open + value)) + rest);
  }

  /** An unquoted parameter is read back, whatever follows it. */
  lemma BareUndoes(w: Spacing, name: string, t: string, rest: string)
    requires OnlyBlanks(w) && IsToken(name) && IsToken(t) && Follows(rest)
    ensures ParametersOf(PrintBare(w, name, t) + rest) == Joined([(Lower(name), t)], ParametersOf(rest))
  {
    var setting := w.mid + ("=" + (w.open + (t + w.close + rest)));
    BareAssigned(w.mid, w.open, t, w.close, rest);
    TokenBytes(name);
    assert setting[0] == if w.mid == "" then '=' else w.mid[0];
    ParameterRead(name, setting, t, rest);
    BareRegroup(w, name, t, rest);
    var text := ";" + (w.lead + (name + setting));
    assert text[1..] == w.lead + (name + setting);
    assert (name + setting)[0] == name[0];
    DropsBlanks(w.lead, name + setting);
    ParametersFirst(text, (Lower(name), t), rest);
  }

  // ------------------------------------------------------------- the boundary

  lemma BoundaryIs(text: string, boundary: string)
    requires Parameterized(text) == Some(("multipart/form-data", [("boundary", boundary)]))
    requires ValidBoundary(boundary)
    ensures BoundaryOf(text) == Some(boundary)
  {
    OnlyParameter("boundary", boundary);
  }

  lemma FormDataUndoes(text: string, name: string, value: string)
    requires text != "" && text[0] == ';' && ParametersOf(text) == Some([(name, value)])
    ensures Parameterized("multipart/form-data" + text) == Some(("multipart/form-data", [(name, value)]))
  {
    ParameterizedUndo("multipart/form-data", text);
  }

  lemma BareAlone(w: Spacing, name: string, t: string)
    requires OnlyBlanks(w) && IsToken(name) && IsToken(t)
    ensures ParametersOf(PrintBare(w, name, t)) == Some([(Lower(name), t)])
  {
    var text := PrintBare(w, name, t);
    assert text + "" == text;
    BareUndoes(w, name, t, "");
    assert [(Lower(name), t)] + [] == [(Lower(name), t)];
  }

  /** A boundary of token bytes need not be quoted. */
  lemma BareBoundary(w: Spacing, boundary: string)
    requires OnlyBlanks(w) && ValidBoundary(boundary) && AllTokens(boundary)
    ensures BoundaryOf("multipart/form-data" + PrintBare(w, "boundary", boundary)) == Some(boundary)
  {
    var text := PrintBare(w, "boundary", boundary);
    LowerName("boundary");
    BareAlone(w, "boundary", boundary);
    FormDataUndoes(text, "boundary", boundary);
    BoundaryIs("multipart/form-data" + text, boundary);
  }

  lemma UsualText(name: string, value: string)
    ensures PrintBare(USUAL, name, value) == "; " + name + "=" + value
  {
    var text := "" + ("=" + ("" + (value + "")));
    assert text == "=" + value;
    assert name + ("=" + value) == name + "=" + value;
    assert ";" + (" " + (name + text)) == "; " + (name + text);
    assert "; " + (name + ("=" + value)) == "; " + name + "=" + value;
  }

  /** As clients write it. */
  lemma UsualBoundary(boundary: string)
    requires ValidBoundary(boundary) && AllTokens(boundary)
    ensures BoundaryOf("multipart/form-data" + ("; " + "boundary" + "=" + boundary)) == Some(boundary)
  {
    BareBoundary(USUAL, boundary);
    UsualText("boundary", boundary);
  }

  // ------------------------------------------------------- headers of a part

  function BareFilename(w: Spacing, h: Headers): string {
    if h.filename.Some? then PrintBare(w, "filename", h.filename.value) else ""
  }

  /** A disposition with an unquoted name and perhaps an unquoted filename. */
  function BareDisposition(w: Spacing, v: Spacing, h: Headers): string {
    "form-data" + (PrintBare(w, "name", h.name) + BareFilename(v, h))
  }

  /** Name and filename are tokens. */
  ghost predicate TokenHeaders(h: Headers) {
    IsToken(h.name) && (h.filename.Some? ==> IsToken(h.filename.value))
  }

  lemma BareFilenameUndoes(w: Spacing, h: Headers)
    requires OnlyBlanks(w) && TokenHeaders(h)
    ensures Follows(BareFilename(w, h))
    ensures ParametersOf(BareFilename(w, h)) == Some(PrintedParameters(h)[1..])
  {
    if h.filename.Some? {
      LowerName("filename");
      BareAlone(w, "filename", h.filename.value);
      assert PrintedParameters(h)[1..] == [("filename", h.filename.value)];
    } else {
      assert PrintedParameters(h)[1..] == [];
    }
  }

  lemma BareParametersUndo(w: Spacing, v: Spacing, h: Headers)
    requires OnlyBlanks(w) && OnlyBlanks(v) && TokenHeaders(h)
    ensures ParametersOf(PrintBare(w, "name", h.name) + BareFilename(v, h)) == Some(PrintedParameters(h))
  {
    LowerName("name");
    BareFilenameUndoes(v, h);
    BareUndoes(w, "name", h.name, BareFilename(v, h));
    assert PrintedParameters(h) == [("name", h.name)] + PrintedParameters(h)[1..];
  }

  lemma BareFinish(w: Spacing, v: Spacing, h: Headers)
    requires OnlyBlanks(w) && OnlyBlanks(v) && TokenHeaders(h)
    ensures FromDisposition(Seen(Some(BareDisposition(w, v, h)), h.contentType)) == Ok(h)
  {
    BareParametersUndo(w, v, h);
    ParameterizedUndo("form-data", PrintBare(w, "name", h.name) + BareFilename(v, h));
    PrintedAreUnique(h);
  }

  /** Visible text and tabs. */
  ghost predicate Soft(s: string) {
    forall i :: 0 <= i < |s| ==> s[i] == '\t' || 0x20 <= s[i] as int < 0x7F
  }

  lemma SoftJoins(a: string, b: string)
    requires Soft(a) && Soft(b)
    ensures Soft(a + b)
  {
  }

  lemma BareIsSoft(w: Spacing, name: string, t: string)
    requires OnlyBlanks(w) && AllTokens(name) && AllTokens(t)
    ensures Soft(PrintBare(w, name, t))
  {
    TokenBytes(name);
    TokenBytes(t);
    SoftJoins(t, w.close);
    SoftJoins(w.open, t + w.close);
    SoftJoins("=", w.open + (t + w.close));
    SoftJoins(w.mid, "=" + (w.open + (t + w.close)));
    SoftJoins(name, w.mid + ("=" + (w.open + (t + w.close))));
    SoftJoins(w.lead, name + (w.mid + ("=" + (w.open + (t + w.close)))));
  }

  lemma DispositionIsSoft(w: Spacing, v: Spacing, h: Headers)
    requires OnlyBlanks(w) && OnlyBlanks(v) && TokenHeaders(h)
    ensures Soft(BareDisposition(w, v, h))
  {
    LowerName("name");
    LowerName("filename");
    BareIsSoft(w, "name", h.name);
    if h.filename.Some? {
      BareIsSoft(v, "filename", h.filename.value);
    }
    SoftJoins(PrintBare(w, "name", h.name), BareFilename(v, h));
  }

  lemma SoftIsClean(s: string)
    requires Soft(s)
    ensures Printable(s) && ValidUtf8(s) && '\r' !in s
  {
    AsciiIsUtf8(s);
  }

  lemma BareEnds(w: Spacing, name: string, t: string)
    requires IsToken(t) && w.close == ""
    ensures var s := PrintBare(w, name, t); s[|s| - 1] == t[|t| - 1] && |s| > |t|
  {
    var s := PrintBare(w, name, t);
    assert t + w.close == t;
    assert s == ";" + (w.lead + (name + (w.mid + "="))) + w.open + t;
  }

  lemma LastOf(a: string, b: string)
    requires b != ""
    ensures (a + b)[|a + b| - 1] == b[|b| - 1]
  {
  }

  lemma PlainEdges(s: string)
    requires s != "" && 0x20 < s[0] as int < 0x7F && 0x20 < s[|s| - 1] as int < 0x7F
    ensures SpaceAhead(s) == 0 && SpaceBehind(s) == 0
  {
  }

  lemma ParametersEnd(w: Spacing, v: Spacing, h: Headers)
    requires TokenHeaders(h) && (if h.filename.Some? then v.close == "" else w.close == "")
    ensures var s := PrintBare(w, "name", h.name) + BareFilename(v, h);
            s != "" && 0x20 < s[|s| - 1] as int < 0x7F
  {
    TokenBytes(h.name);
    if h.filename.Some? {
      TokenBytes(h.filename.value);
      BareEnds(v, "filename", h.filename.value);
      LastOf(PrintBare(w, "name", h.name), BareFilename(v, h));
    } else {
      BareEnds(w, "name", h.name);
      assert PrintBare(w, "name", h.name) + "" == PrintBare(w, "name", h.name);
    }
  }

  /** It starts and ends with bytes that are not trimmed. */
  lemma DispositionEnds(w: Spacing, v: Spacing, h: Headers)
    requires TokenHeaders(h) && (if h.filename.Some? then v.close == "" else w.close == "")
    ensures var s := BareDisposition(w, v, h); s != "" && s[0] == 'f' && SpaceAhead(s) == 0 && SpaceBehind(s) == 0
  {
    ParametersEnd(w, v, h);
    LastOf("form-data", PrintBare(w, "name", h.name) + BareFilename(v, h));
    PlainEdges(BareDisposition(w, v, h));
  }

  lemma TrimsBoth(lead: string, s: string, trail: string)
    requires Blanks(lead) && Blanks(trail) && s != "" && SpaceAhead(s) == 0 && SpaceBehind(s) == 0
    requires 0x20 < s[0] as int < 0x7F
    ensures Trim(lead + (s + trail)) == s
  {
    assert (s + trail)[0] == s[0];
    TrimStartBlanks(lead, s + trail);
    TrimsBlanks(s, trail);
  }

  lemma {:induction false} TrimStartBlanks(lead: string, s: string)
    requires Blanks(lead) && SpaceAhead(s) == 0
    ensures TrimStart(lead + s) == s
    decreases |lead|
  {
    if lead == "" {
      assert lead + s == s;
    } else {
      assert (lead + s)[1..] == lead[1..] + s;
      TrimStartBlanks(lead[1..], s);
    }
  }

  /** The line, with white space around its value. */
  function BareLine(lead: string, disposition: string, trail: string): string {
    DISPOSITION + [':'] + (lead + (disposition + trail))
  }

  lemma BareLineNoted(lead: string, disposition: string, trail: string)
    requires Blanks(lead) && Blanks(trail) && Soft(disposition) && disposition != ""
    requires SpaceAhead(disposition) == 0 && SpaceBehind(disposition) == 0 && 0x20 < disposition[0] as int
    ensures Note(Seen(None, None), BareLine(lead, disposition, trail)) == Ok(Seen(Some(disposition), None))
    ensures CleanLine(BareLine(lead, disposition, trail))
  {
    NamesRecognised();
    TokensAreNoColons(DISPOSITION);
    TrimsBoth(lead, disposition, trail);
    SoftIsClean(disposition);
    HeaderLineIs(DISPOSITION, lead + (disposition + trail));
    TokensAreAscii(DISPOSITION);
    SoftJoins(disposition, trail);
    SoftJoins(lead, disposition + trail);
    SoftJoins(DISPOSITION + [':'], lead + (disposition + trail));
    SoftIsClean(BareLine(lead, disposition, trail));
  }

  /** A part whose only header line has an unquoted name and perhaps filename. */
  lemma BareHeadersUndo(w: Spacing, v: Spacing, lead: string, trail: string, h: Headers, max: nat)
    requires OnlyBlanks(w) && OnlyBlanks(v) && Blanks(lead) && Blanks(trail) && max >= 1
    requires TokenHeaders(h) && h.contentType.None? && (if h.filename.Some? then v.close == "" else w.close == "")
    ensures HeadersOf(BareLine(lead, BareDisposition(w, v, h), trail), max) == Ok(h)
  {
    var disposition := BareDisposition(w, v, h);
    DispositionIsSoft(w, v, h);
    DispositionEnds(w, v, h);
    BareLineNoted(lead, disposition, trail);
    BareFinish(w, v, h);
    OneLineRead(BareLine(lead, disposition, trail), Seen(Some(disposition), None), h, max);
  }

  lemma OneLineRead(line: string, seen: Seen, h: Headers, max: nat)
    requires max >= 1 && CleanLine(line)
    requires Note(Seen(None, None), line) == Ok(seen) && FromDisposition(seen) == Ok(h)
    ensures HeadersOf(line, max) == Ok(h)
  {
    SplitWhole(line);
    assert [line][1..] == [];
    assert NoteAll(Seen(None, None), [line], 0, max) == NoteAll(seen, [], 1, max);
  }
}
